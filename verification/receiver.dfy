/**
 P1DiagnosticsTracker and P1PacketAccumulator of reader3.h: a state machine
 that collects one telegram in a fixed buffer and keeps a running CRC.
 */
module Receiver {
  import opened Crc16
  import opened Text
  import opened Checksum
  import opened Numbers

  // ------------------------------------------------------------ diagnostics

  datatype CrcMode = Detecting | Present | Absent

  datatype Tracker = Tracker(mode: CrcMode, crcErrors: nat, skippedFields: nat, presentVotes: nat, absentVotes: nat) {

    predicate Valid() {
      && crcErrors < U32 && skippedFields < U32
      && presentVotes + absentVotes < 3
      && (mode != Detecting ==> presentVotes + absentVotes == 0)
    }

    function RecordError(): Tracker {
      this.(crcErrors := (crcErrors + 1) % U32)
    }

    function AddSkipped(count: nat): Tracker {
      this.(skippedFields := (skippedFields + count) % U32)
    }

    /** Two votes out of three lock the mode. */
    function Observe(present: bool): Tracker {
      if mode != Detecting then this else
      var p := if present then presentVotes + 1 else presentVotes;
      var a := if present then absentVotes else absentVotes + 1;
      if p + a >= 3 then this.(mode := if p >= 2 then Present else Absent, presentVotes := 0, absentVotes := 0)
      else this.(presentVotes := p, absentVotes := a)
    }
  }

  const NEW_TRACKER := Tracker(Detecting, 0, 0, 0, 0)

  class P1DiagnosticsTracker {
    var mode: CrcMode
    var crcErrors: nat
    var skippedFields: nat
    var presentVotes: nat
    var absentVotes: nat

    ghost function Contents(): Tracker
      reads this
    {
      Tracker(mode, crcErrors, skippedFields, presentVotes, absentVotes)
    }

    constructor ()
      ensures Contents() == NEW_TRACKER
    {
      mode, crcErrors, skippedFields, presentVotes, absentVotes := Detecting, 0, 0, 0, 0;
    }

    method Reset()
      modifies this
      ensures Contents() == NEW_TRACKER
    {
      mode, crcErrors, skippedFields, presentVotes, absentVotes := Detecting, 0, 0, 0, 0;
    }

    method AddSkippedFields(count: nat)
      modifies this
      ensures Contents() == old(Contents()).AddSkipped(count)
    {
      skippedFields := (skippedFields + count) % U32;
    }

    method RecordCrcError()
      modifies this
      ensures Contents() == old(Contents()).RecordError()
    {
      crcErrors := (crcErrors + 1) % U32;
    }

    method ObserveCrc(present: bool)
      modifies this
      ensures Contents() == old(Contents()).Observe(present)
    {
      if mode != Detecting {
        return;
      }
      if present {
        presentVotes := presentVotes + 1;
      } else {
        absentVotes := absentVotes + 1;
      }
      if presentVotes + absentVotes >= 3 {
        mode := if presentVotes >= 2 then Present else Absent;
        presentVotes, absentVotes := 0, 0;
      }
    }
  }

  // ------------------------------------------------------------ accumulator

  datatype State = WaitingState | ReadingState | ChecksumState

  datatype Result = Pending | Complete | Mismatch | Malformed | Overflow

  /** body is what the buffer holds, suffix the checksum characters read so far. */
  datatype Acc = Acc(tracker: Tracker, state: State, body: string, crc: bv16, suffix: string, lastCrcPresent: bool)

  function Push(crc: bv16, c: char): bv16 {
    Next(crc, Octet(c))
  }

  /** The accumulator after reset(). */
  function Idle(t: Tracker): Acc {
    Acc(t, WaitingState, "", 0, "", false)
  }

  /**
   One byte. The accumulator is lazy: it does not compute the CRC when the
   mode is Absent. With lazy == false it always does.
   */
  function Step(capacity: nat, lazy: bool, a: Acc, c: char): (Acc, Result) {
    var off := lazy && a.tracker.mode == Absent;
    match a.state
    case WaitingState =>
      if c == '/' then (Acc(a.tracker, ReadingState, "", if off then 0 else Push(0, '/'), "", false), Pending)
      else (a, Pending)
    case ReadingState =>
      var crc := if off then a.crc else Push(a.crc, c);
      if c == '!' then (a.(state := ChecksumState, crc := crc, suffix := ""), Pending)
      else if |a.body| + 1 >= capacity then (Idle(a.tracker), Overflow)
      else (a.(body := a.body + [c], crc := crc), Pending)
    case ChecksumState =>
      if IsEol(c) && a.suffix == "" then
        if a.tracker.mode == Present then (Idle(a.tracker.RecordError()), Malformed)
        else (a.(tracker := a.tracker.Observe(false), state := WaitingState, lastCrcPresent := false), Complete)
      else if a.tracker.mode == Absent || !IsHex(c) then (Idle(a.tracker.RecordError()), Malformed)
      else
        var suffix := a.suffix + [c];
        if |suffix| < CRC_LEN then (a.(suffix := suffix), Pending) else
        match CrcParse(suffix)
        case Fail(_, _) => (Idle(a.tracker.RecordError()), Malformed)
        case Ok(check, _) =>
          if check != a.crc then (Idle(a.tracker.RecordError()), Mismatch)
          else (a.(tracker := a.tracker.Observe(true), state := WaitingState, suffix := "", lastCrcPresent := true), Complete)
  }

  /** What every byte keeps. */
  predicate Inv(capacity: nat, a: Acc) {
    && a.tracker.Valid()
    && (|a.body| < capacity || (a.body == "" && capacity == 0))
    && All(NotBang, a.body)
    && (match a.state
        case WaitingState => a.suffix == "" && (a.lastCrcPresent ==> a.crc == Crc("/" + a.body + "!"))
        case ReadingState => a.suffix == "" && !a.lastCrcPresent && (a.tracker.mode != Absent ==> a.crc == Crc("/" + a.body))
        case ChecksumState =>
          && |a.suffix| < CRC_LEN && All(IsHex, a.suffix) && !a.lastCrcPresent
          && (a.suffix != "" ==> a.tracker.mode != Absent)
          && (a.tracker.mode != Absent ==> a.crc == Crc("/" + a.body + "!")))
  }

  lemma IdleInv(capacity: nat, t: Tracker)
    requires t.Valid()
    ensures Inv(capacity, Idle(t))
  {}

  lemma CrcOfSlash()
    ensures Crc("/") == Push(0, '/')
  {
    hide Next, Octet;
    FoldPush(0, "", '/');
    assert "" + ['/'] == "/";
  }

  lemma CrcGrows(s: string, c: char)
    ensures Crc(s + [c]) == Push(Crc(s), c)
  {
    hide Next, Octet;
    FoldPush(0, s, c);
  }

  lemma StepInv(capacity: nat, a: Acc, c: char)
    requires Inv(capacity, a)
    ensures Inv(capacity, Step(capacity, true, a, c).0)
  {
    hide Push, Crc, CrcParse;
    CrcOfSlash();
    assert "/" + "" == "/";
    match a.state {
      case WaitingState =>
      case ReadingState =>
        CrcGrows("/" + a.body, c);
        assert "/" + a.body + [c] == "/" + (a.body + [c]);
      case ChecksumState =>
    }
  }

  class P1PacketAccumulator {
    const buffer: array<char>
    const capacity: nat
    const crcBuf: array<char>
    const tracker: P1DiagnosticsTracker
    var state: State
    var length: nat
    var crc: bv16
    var crcPos: nat
    var lastCrcPresent: bool

    /** The buffer holds a NUL-terminated string that fits. */
    ghost predicate Shaped()
      reads this, buffer
    {
      && capacity <= buffer.Length && crcBuf.Length == CRC_LEN + 1 && buffer != crcBuf
      && (length < capacity || length == capacity == 0)
      && (capacity > 0 ==> buffer[length] == '\0')
      && crcPos <= CRC_LEN
    }

    ghost function Contents(): Acc
      requires Shaped()
      reads this, buffer, crcBuf, tracker
    {
      Acc(tracker.Contents(), state, buffer[..length], crc,
          if state == ChecksumState then crcBuf[..crcPos] else "", lastCrcPresent)
    }

    ghost predicate Valid()
      reads this, buffer, crcBuf, tracker
    {
      Shaped() && Inv(capacity, Contents())
    }

    constructor (buffer: array<char>, capacity: nat)
      requires capacity <= buffer.Length
      modifies buffer
      ensures Valid() && Contents() == Idle(NEW_TRACKER)
      ensures this.buffer == buffer && this.capacity == capacity && fresh(crcBuf) && fresh(tracker)
    {
      this.buffer, this.capacity := buffer, capacity;
      crcBuf := new char[CRC_LEN + 1](_ => '\0');
      tracker := new P1DiagnosticsTracker();
      state, length, crc, crcPos, lastCrcPresent := WaitingState, 0, 0, 0, false;
      new;
      if capacity > 0 {
        buffer[0] := '\0';
      }
    }

    method Reset()
      requires Shaped()
      modifies this, buffer
      ensures Shaped() && Contents() == Idle(old(Contents()).tracker)
    {
      state, length, crc, crcPos, lastCrcPresent := WaitingState, 0, 0, 0, false;
      if capacity > 0 {
        buffer[0] := '\0';
      }
    }

    method ResetDiagnostics()
      requires Valid()
      modifies this, buffer, tracker
      ensures Valid() && Contents() == Idle(NEW_TRACKER)
    {
      tracker.Reset();
      Reset();
    }

    method AddSkippedFields(count: nat)
      requires Valid()
      modifies tracker
      ensures Valid()
      ensures Contents() == old(Contents()).(tracker := old(Contents()).tracker.AddSkipped(count))
    {
      tracker.AddSkippedFields(count);
    }

    method RecordCrcError()
      requires Shaped()
      modifies this, buffer, tracker
      ensures Shaped() && Contents() == Idle(old(Contents()).tracker.RecordError())
    {
      tracker.RecordCrcError();
      Reset();
    }

    method Start()
      requires Shaped()
      modifies this, buffer
      ensures Shaped()
      ensures var t := old(Contents()).tracker;
              Contents() == Acc(t, ReadingState, "", if t.mode == Absent then 0 else Push(0, '/'), "", false)
    {
      hide Next, Octet;
      state, length, crcPos, lastCrcPresent := ReadingState, 0, 0, false;
      if tracker.mode == Absent {
        crc := 0;
      } else {
        crc := Update(0, Octet('/'));
      }
      if capacity > 0 {
        buffer[0] := '\0';
      }
    }

    method Process(c: char) returns (r: Result)
      requires Valid()
      modifies this, buffer, crcBuf, tracker
      ensures Valid() && (Contents(), r) == Step(capacity, true, old(Contents()), c)
    {
      StepInv(capacity, Contents(), c);
      hide Next, Octet, Inv, CrcParse;
      match state {
        case WaitingState =>
          if c == '/' {
            Start();
          }
          return Pending;
        case ReadingState =>
          r := ProcessReading(c);
        case ChecksumState =>
          SuffixShort(capacity, Contents());
          r := ProcessChecksum(c);
      }
    }

    method ProcessReading(c: char) returns (r: Result)
      requires Shaped() && state == ReadingState
      modifies this, buffer
      ensures Shaped() && (Contents(), r) == Step(capacity, true, old(Contents()), c)
    {
      hide Next, Octet;
      ghost var before := Contents();
      if tracker.mode != Absent {
        crc := Update(crc, Octet(c));
      }
      if c == '!' {
        state := ChecksumState;
        crcPos := 0;
        return Pending;
      }
      if length + 1 >= capacity {
        Reset();
        return Overflow;
      }
      buffer[length] := c;
      length := length + 1;
      buffer[length] := '\0';
      assert buffer[..length] == before.body + [c];
      r := Pending;
    }

    method ProcessChecksum(c: char) returns (r: Result)
      requires Shaped() && state == ChecksumState && crcPos < CRC_LEN
      modifies this, buffer, crcBuf, tracker
      ensures Shaped() && (Contents(), r) == Step(capacity, true, old(Contents()), c)
    {
      hide CrcParse;
      ghost var before := Contents();
      if (c == '\r' || c == '\n') && crcPos == 0 {
        if tracker.mode == Present {
          RecordCrcError();
          return Malformed;
        }
        lastCrcPresent := false;
        tracker.ObserveCrc(false);
        state := WaitingState;
        return Complete;
      }
      if tracker.mode == Absent {
        RecordCrcError();
        return Malformed;
      }
      if !IsHex(c) {
        RecordCrcError();
        return Malformed;
      }
      crcBuf[crcPos] := c;
      crcPos := crcPos + 1;
      assert crcBuf[..crcPos] == before.suffix + [c];
      if crcPos < CRC_LEN {
        return Pending;
      }
      state := WaitingState;
      crcBuf[CRC_LEN] := '\0';
      var parsed := CrcParse(crcBuf[..CRC_LEN]);
      if parsed.Fail? {
        RecordCrcError();
        return Malformed;
      }
      if parsed.value != crc {
        RecordCrcError();
        return Mismatch;
      }
      lastCrcPresent := true;
      tracker.ObserveCrc(true);
      r := Complete;
    }
  }

  lemma SuffixShort(capacity: nat, a: Acc)
    requires Inv(capacity, a) && a.state == ChecksumState
    ensures |a.suffix| < CRC_LEN
  {}
}
