/**
 P1FixedReader and P1Reader of reader3.h on a stream of bytes. The pin that
 requests data is not modelled; reading while disabled is.
 */
module Readers {
  import opened Crc16
  import opened Text
  import opened Checksum
  import opened Fields
  import opened Telegram
  import opened TelegramLaws
  import opened Receiver
  import opened Recovery

  /** The serial port: a queue of bytes that have arrived. */
  class Stream {
    var bytes: string

    constructor (bytes: string)
      ensures this.bytes == bytes
    {
      this.bytes := bytes;
    }

    method Available() returns (n: nat)
      ensures n == |bytes|
    {
      n := |bytes|;
    }

    method Peek() returns (c: Option<char>)
      ensures c == if bytes == "" then None else Some(bytes[0])
    {
      c := if bytes == "" then None else Some(bytes[0]);
    }

    method Read() returns (c: Option<char>)
      modifies this
      ensures old(bytes) == "" ==> c == None && bytes == ""
      ensures old(bytes) != "" ==> c == Some(old(bytes)[0]) && bytes == old(bytes)[1..]
    {
      if bytes == "" {
        return None;
      }
      c := Some(bytes[0]);
      bytes := bytes[1..];
    }

    /** Read until nothing is left. */
    method Discard()
      modifies this
      ensures bytes == ""
    {
      var c := Read();
      while c.Some?
        invariant c == None ==> bytes == ""
        decreases |bytes|, c.Some?
      {
        c := Read();
      }
    }
  }

  // ---------------------------------------------------------- field warning

  datatype FieldWarning = FieldWarning(count: nat, line: string)

  function WarningOf(report: Report, text: string, end: nat): FieldWarning
    requires end <= |text|
  {
    FieldWarning(report.fieldErrors,
                 if report.fieldErrors == 0 || report.firstLine == None then ""
                 else UpToNul(ReportedLine(text, report.firstLine.value, end)))
  }

  method CaptureFieldWarning(report: Report, text: string, end: nat) returns (warning: FieldWarning)
    requires end <= |text|
    ensures warning == WarningOf(report, text, end)
  {
    if report.fieldErrors == 0 || report.firstLine == None {
      return FieldWarning(report.fieldErrors, "");
    }
    var start := report.firstLine.value;
    var lineEnd := start;
    while lineEnd < end && text[lineEnd] != '\r' && text[lineEnd] != '\n'
      invariant start <= lineEnd && (start <= end ==> lineEnd <= end)
      invariant forall i :: start <= i < lineEnd && i < end ==> NotEol(text[..end][i])
      decreases end - lineEnd
    {
      lineEnd := lineEnd + 1;
    }
    if start <= end {
      SkipIs(NotEol, text[..end], start, lineEnd);
    }
    var line := if lineEnd <= end then text[start..lineEnd] else "";
    warning := FieldWarning(report.fieldErrors, UpToNul(line));
  }

  /** The warning in terms of the lines: how many are bad, and the text of the first. */
  function HarvestWarning(h: Harvest): FieldWarning {
    FieldWarning(h.errors, if h.errors == 0 || h.first == None then "" else UpToNul(h.first.value))
  }

  lemma WarningOfLines(fields: seq<Field>, d: Data, text: string, end: nat)
    requires SingleLineFields(fields) && Sized(fields, d) && end <= |text|
    ensures var (d', report) := DataPart(fields, d, text, 0, end, false);
            var h := Harvested(fields, d, text[0..end], false);
            d' == h.data && report.fieldErrors == h.errors && WarningOf(report, text, end) == HarvestWarning(h)
  {
    hide DataPart, Harvested, SingleLineFields, LineText;
    SplitAndFold(fields, d, text, 0, end, false);
  }

  // ----------------------------------------------------------- fixed reader

  datatype Fixed = Fixed(enabled: bool, once: bool, available: bool, acc: Acc)

  function FixedEnabled(f: Fixed, once: bool): Fixed {
    f.(enabled := true, once := once)
  }

  function FixedDisabled(f: Fixed): Fixed {
    f.(enabled := false, acc := if f.available then f.acc else Idle(f.acc.tracker))
  }

  function FixedCleared(f: Fixed): Fixed {
    if f.available then f.(acc := Idle(f.acc.tracker), available := false) else f
  }

  /** clearAll(): whatever the buffer holds is dropped. */
  function FixedEmptied(f: Fixed): Fixed {
    f.(acc := Idle(f.acc.tracker), available := false)
  }

  /** parse(): the reader afterwards, the data, the warning; rest is what the buffer holds after the telegram. */
  function FixedParsed(f: Fixed, fields: seq<Field>, d: Data, rest: string): (Fixed, Data, FieldWarning)
    requires ValidFields(fields) && Sized(fields, d)
  {
    var text, end := f.acc.body + rest, |f.acc.body|;
    var (d', report) := DataPart(fields, d, text, 0, end, false);
    (FixedCleared(f.(acc := f.acc.(tracker := f.acc.tracker.AddSkipped(report.fieldErrors)))), d', WarningOf(report, text, end))
  }

  /** A reset of the diagnostics, which drops whatever the buffer holds. */
  function FixedReset(f: Fixed): Fixed {
    f.(acc := Idle(NEW_TRACKER), available := false)
  }

  /** loop(): the reader afterwards, the bytes left in the stream, the value returned. */
  function FixedLoop(capacity: nat, f: Fixed, q: string): (Fixed, string, bool)
    decreases |q|
  {
    if q == "" then (f, "", f.available)
    else if !f.enabled then FixedLoop(capacity, f, q[1..])
    else
      var (acc, r) := Step(capacity, true, f.acc, q[0]);
      if r == Complete then
        var g := f.(acc := acc, available := true);
        if f.once then (FixedDisabled(g), "", true) else (g, q[1..], true)
      else if r != Pending then FixedLoop(capacity, f.(acc := acc, available := false), q[1..])
      else FixedLoop(capacity, f.(acc := acc), q[1..])
  }

  class P1FixedReader {
    var stream: Stream
    var once: bool
    var enabled: bool
    var available: bool
    const accumulator: P1PacketAccumulator

    ghost predicate Valid()
      reads this, accumulator, accumulator.buffer, accumulator.crcBuf, accumulator.tracker
    {
      accumulator.Valid()
    }

    ghost function Contents(): Fixed
      requires Valid()
      reads this, accumulator, accumulator.buffer, accumulator.crcBuf, accumulator.tracker
    {
      Fixed(enabled, once, available, accumulator.Contents())
    }

    constructor (stream: Stream, maxTelegramLength: nat)
      ensures Valid() && Contents() == Fixed(false, false, false, Idle(NEW_TRACKER))
      ensures this.stream == stream && accumulator.capacity == maxTelegramLength + 1
      ensures fresh(accumulator) && fresh(accumulator.buffer) && fresh(accumulator.crcBuf) && fresh(accumulator.tracker)
    {
      var buffer := new char[maxTelegramLength + 1](_ => '\0');
      accumulator := new P1PacketAccumulator(buffer, maxTelegramLength + 1);
      this.stream, once, enabled, available := stream, false, false, false;
    }

    method Enable(once: bool)
      requires Valid()
      modifies this
      ensures Valid() && Contents() == FixedEnabled(old(Contents()), once)
      ensures stream == old(stream)
    {
      this.enabled, this.once := true, once;
    }

    method Disable()
      requires Valid()
      modifies this, stream, accumulator, accumulator.buffer
      ensures Valid() && Contents() == FixedDisabled(old(Contents()))
      ensures stream == old(stream) && stream.bytes == ""
    {
      hide Inv;
      enabled := false;
      if !available {
        IdleIsValid(accumulator.capacity, accumulator.Contents());
        accumulator.Reset();
      }
      stream.Discard();
    }

    method Loop() returns (result: bool)
      requires Valid()
      modifies this, stream, accumulator, accumulator.buffer, accumulator.crcBuf, accumulator.tracker
      ensures Valid() && stream == old(stream)
      ensures (Contents(), stream.bytes, result) == FixedLoop(accumulator.capacity, old(Contents()), old(stream.bytes))
    {
      hide Step, Inv;
      ghost var goal := FixedLoop(accumulator.capacity, Contents(), stream.bytes);
      while true
        invariant Valid() && stream == old(stream)
        invariant FixedLoop(accumulator.capacity, Contents(), stream.bytes) == goal
        decreases |stream.bytes|
      {
        var c := stream.Read();
        if c == None {
          return available;
        }
        if !enabled {
          continue;
        }
        var res := accumulator.Process(c.value);
        if res == Complete {
          available := true;
          if once {
            Disable();
          }
          return true;
        }
        if res == Overflow || res == Mismatch || res == Malformed {
          available := false;
        }
      }
    }

    method Clear()
      requires Valid()
      modifies this, accumulator, accumulator.buffer
      ensures Valid() && Contents() == FixedCleared(old(Contents())) && stream == old(stream)
    {
      hide Inv;
      if available {
        IdleIsValid(accumulator.capacity, accumulator.Contents());
        accumulator.Reset();
        available := false;
      }
    }

    /** CompleteRaw, into a string that has room for the text. */
    method CompleteRaw() returns (text: Option<string>)
      requires Valid()
      ensures text == Recovery.CompleteRaw(Contents().acc)
    {
      var length := accumulator.length;
      if length == 0 {
        return None;
      }
      var destination := "/";
      destination := destination + accumulator.buffer[..length];
      destination := destination + "!";
      if accumulator.lastCrcPresent {
        destination := destination + PrintCrc(accumulator.crc);
      }
      assert destination == "/" + Contents().acc.body + "!" + (if accumulator.lastCrcPresent then PrintCrc(accumulator.crc) else "");
      text := Some(destination);
    }

    /** Parse the stored telegram where it lies in the buffer. */
    method ParseBuffer(data: ParsedData) returns (report: Report, warning: FieldWarning)
      requires Valid() && data.Valid()
      modifies data.present, data.values
      ensures Valid() && Contents() == old(Contents())
      ensures (data.Contents(), report) == DataPart(data.fields, old(data.Contents()), accumulator.buffer[..], 0, accumulator.length, false)
      ensures warning == WarningOf(report, accumulator.buffer[..], accumulator.length)
    {
      hide Inv, WarningOf, DataPart;
      var text, end := accumulator.buffer[..], accumulator.length;
      report := ParseData(data, text, 0, end, false);
      warning := CaptureFieldWarning(report, text, end);
    }

    /**
     parse(): the skipped fields go up by the number of bad lines, and the
     telegram is cleared. With single-line fields the data are those of the
     lines of the telegram, and the warning holds the number of bad lines and
     the text of the first.
     */
    method Parse(data: ParsedData) returns (warning: FieldWarning)
      requires Valid() && data.Valid()
      modifies this, accumulator, accumulator.buffer, accumulator.tracker, data.present, data.values
      ensures Valid() && stream == old(stream)
      ensures (Contents(), data.Contents(), warning)
                == FixedParsed(old(Contents()), data.fields, old(data.Contents()), old(accumulator.buffer[accumulator.length..]))
      ensures SingleLineFields(data.fields) ==>
                var h := Harvested(data.fields, old(data.Contents()), old(Contents()).acc.body, false);
                && data.Contents() == h.data
                && warning == HarvestWarning(h)
                && Contents().acc.tracker == old(Contents()).acc.tracker.AddSkipped(h.errors)
    {
      hide Harvested, Inv, SingleLineFields, WarningOf, HarvestWarning, DataPart;
      ghost var d, text, n := data.Contents(), accumulator.buffer[..], accumulator.length;
      var report;
      report, warning := ParseBuffer(data);
      accumulator.AddSkippedFields(report.fieldErrors);
      Clear();
      assert text[..n] + text[n..] == text;
      if SingleLineFields(data.fields) {
        assert text[0..n] == old(Contents()).acc.body;
        WarningOfLines(data.fields, d, text, n);
      }
    }

    /** doChecksum(), kept for compatibility: its argument has no effect. */
    method DoChecksum(checksum: bool)
      requires Valid()
      modifies this, accumulator, accumulator.buffer, accumulator.tracker
      ensures Valid() && stream == old(stream) && Contents() == FixedReset(old(Contents()))
    {
      accumulator.ResetDiagnostics();
      available := false;
    }

    method ClearAll()
      requires Valid()
      modifies this, accumulator, accumulator.buffer
      ensures Valid() && stream == old(stream)
      ensures Contents() == FixedEmptied(old(Contents()))
    {
      hide Inv;
      IdleIsValid(accumulator.capacity, accumulator.Contents());
      accumulator.Reset();
      available := false;
    }

    method ChangeStream(newStream: Stream)
      requires Valid()
      modifies this, accumulator, accumulator.buffer, accumulator.tracker
      ensures Valid() && stream == newStream
      ensures Contents() == FixedReset(old(Contents()))
    {
      stream := newStream;
      accumulator.ResetDiagnostics();
      available := false;
    }
  }

  lemma IdleIsValid(capacity: nat, a: Acc)
    requires Inv(capacity, a)
    ensures Inv(capacity, Idle(a.tracker))
  {}

  // ----------------------------------------------------------- string reader

  datatype ReaderState = DisabledReader | WaitingReader | ReadingReader | ChecksumReader

  datatype Reader = Reader(state: ReaderState, available: bool, once: bool, buffer: string, crc: bv16, tracker: Tracker, lastCrcPresent: bool)

  function Faulty(r: Reader): Reader {
    r.(tracker := r.tracker.RecordError(), state := WaitingReader, available := false, buffer := "", lastCrcPresent := false)
  }

  function ReaderCleared(r: Reader): Reader {
    if r.available then r.(buffer := "", available := false) else r
  }

  function ReaderEnabled(r: Reader, once: bool): Reader {
    r.(state := WaitingReader, once := once)
  }

  function ReaderDisabled(r: Reader): Reader {
    r.(state := DisabledReader, buffer := if r.available then r.buffer else "")
  }

  /** One turn of the loop: it goes on, or returns. */
  datatype Turn = Go(r: Reader, q: string) | Stop(r: Reader, q: string, result: bool)

  function Classified(r: Reader, q: string, valid: bool): Turn {
    var s := r.(state := WaitingReader, available := valid);
    if r.once && valid then Stop(ReaderDisabled(s), "", true) else Stop(s, q, true)
  }

  function ReadByte(r: Reader, c: char): Reader {
    match r.state
    case DisabledReader => r
    case WaitingReader =>
      if c != '/' then r else
      ReaderCleared(r.(state := ReadingReader, crc := if r.tracker.mode == Absent then 0 else Push(0, c), lastCrcPresent := false))
    case ReadingReader =>
      var s := r.(crc := if r.tracker.mode == Absent then r.crc else Push(r.crc, c));
      if c == '!' then s.(state := ChecksumReader) else s.(buffer := r.buffer + [c])
    case ChecksumReader => r
  }

  /** Four characters that are the CRC of the telegram. */
  predicate Checks(r: Reader, s: string) {
    CrcParse(s).Ok? && CrcParse(s).value == r.crc
  }

  /** The suffix is looked at without reading it until it can be classified. */
  function Poll(r: Reader, q: string): Turn {
    if r.state == ChecksumReader then
      if q == "" then Stop(r, q, false)
      else if IsEol(q[0]) then
        if r.tracker.mode == Present then Classified(Faulty(r), q[1..], false)
        else Classified(r.(lastCrcPresent := false, tracker := r.tracker.Observe(false)), q[1..], true)
      else if r.tracker.mode == Absent || !IsHex(q[0]) then Stop(Faulty(r), q, false)
      else if |q| < CRC_LEN then Stop(r, q, false)
      else if Checks(r, q[..CRC_LEN]) then
        Classified(r.(lastCrcPresent := true, tracker := r.tracker.Observe(true)), q[CRC_LEN..], true)
      else Classified(Faulty(r), q[CRC_LEN..], false)
    else if q == "" then Stop(r, q, false)
    else Go(ReadByte(r, q[0]), q[1..])
  }

  function ReaderLoop(r: Reader, q: string): (Reader, string, bool)
    decreases |q|
  {
    match Poll(r, q)
    case Stop(r', q', result) => (r', q', result)
    case Go(r', q') => ReaderLoop(r', q')
  }

  class P1Reader {
    var stream: Stream
    var available: bool
    var once: bool
    var state: ReaderState
    var buffer: string
    var crc: bv16
    const tracker: P1DiagnosticsTracker
    var lastCrcPresent: bool

    ghost function Contents(): Reader
      reads this, tracker
    {
      Reader(state, available, once, buffer, crc, tracker.Contents(), lastCrcPresent)
    }

    constructor (stream: Stream)
      ensures Contents() == Reader(DisabledReader, false, false, "", 0, NEW_TRACKER, false)
      ensures this.stream == stream && fresh(tracker)
    {
      this.stream, available, once, state, buffer, crc, lastCrcPresent := stream, false, false, DisabledReader, "", 0, false;
      tracker := new P1DiagnosticsTracker();
    }

    method Enable(once: bool)
      modifies this
      ensures Contents() == ReaderEnabled(old(Contents()), once) && stream == old(stream)
    {
      state := WaitingReader;
      this.once := once;
    }

    method Disable()
      modifies this, stream
      ensures Contents() == ReaderDisabled(old(Contents())) && stream == old(stream) && stream.bytes == ""
    {
      state := DisabledReader;
      if !available {
        buffer := "";
      }
      stream.Discard();
    }

    method Clear()
      modifies this
      ensures Contents() == ReaderCleared(old(Contents())) && stream == old(stream)
    {
      if available {
        buffer := "";
        available := false;
      }
    }

    method RecordCrcError()
      modifies this, tracker
      ensures Contents() == Faulty(old(Contents())) && stream == old(stream)
    {
      tracker.RecordCrcError();
      state, available, buffer, lastCrcPresent := WaitingReader, false, "", false;
    }

    /** One character in a state other than the checksum state. */
    method TakeByte(c: char)
      requires state != ChecksumReader
      modifies this
      ensures Contents() == ReadByte(old(Contents()), c) && stream == old(stream)
    {
      hide Next, Octet;
      match state {
        case DisabledReader =>
        case WaitingReader =>
          if c == '/' {
            state := ReadingReader;
            if tracker.mode == Absent {
              crc := 0;
            } else {
              crc := Update(0, Octet(c));
            }
            lastCrcPresent := false;
            Clear();
          }
        case ReadingReader =>
          if tracker.mode != Absent {
            crc := Update(crc, Octet(c));
          }
          if c == '!' {
            state := ChecksumReader;
          } else {
            buffer := buffer + [c];
          }
      }
    }

    /** The checksum state: None when the loop has to return false, else whether the suffix was valid. */
    method TakeSuffix() returns (valid: Option<bool>)
      requires state == ChecksumReader
      modifies this, stream, tracker
      ensures stream == old(stream)
      ensures var turn := Poll(old(Contents()), old(stream.bytes));
              match valid
              case None => turn == Stop(Contents(), stream.bytes, false)
              case Some(v) => turn == Classified(Contents(), stream.bytes, v)
    {
      hide Push, CrcParse, IsHex;
      var n := stream.Available();
      if n < 1 {
        return None;
      }
      var start := stream.Peek();
      var v := false;
      if start.value == '\r' || start.value == '\n' {
        var _ := stream.Read();
        if tracker.mode == Present {
          RecordCrcError();
        } else {
          lastCrcPresent := false;
          tracker.ObserveCrc(false);
          v := true;
        }
      } else {
        if tracker.mode == Absent || !IsHex(start.value) {
          RecordCrcError();
          return None;
        }
        n := stream.Available();
        if n < CRC_LEN {
          return None;
        }
        var buf := ReadFour();
        var parsed := CrcParse(buf);
        v := parsed.Ok? && parsed.value == crc;
        if v {
          lastCrcPresent := true;
          tracker.ObserveCrc(true);
        } else {
          RecordCrcError();
        }
      }
      valid := Some(v);
    }

    method ReadFour() returns (buf: string)
      requires |stream.bytes| >= CRC_LEN
      modifies stream
      ensures buf == old(stream.bytes)[..CRC_LEN] && stream.bytes == old(stream.bytes)[CRC_LEN..]
    {
      buf := "";
      for i := 0 to CRC_LEN
        invariant buf == old(stream.bytes)[..i] && stream.bytes == old(stream.bytes)[i..]
      {
        var c := stream.Read();
        buf := buf + [c.value];
      }
    }

    method Loop() returns (result: bool)
      modifies this, stream, tracker
      ensures stream == old(stream)
      ensures (Contents(), stream.bytes, result) == ReaderLoop(old(Contents()), old(stream.bytes))
    {
      hide ReadByte, Checks, Push;
      ghost var goal := ReaderLoop(Contents(), stream.bytes);
      while true
        invariant stream == old(stream)
        invariant ReaderLoop(Contents(), stream.bytes) == goal
        decreases |stream.bytes|
      {
        if state == ChecksumReader {
          var valid := TakeSuffix();
          if valid == None {
            return false;
          }
          state := WaitingReader;
          available := valid.value;
          if once && valid.value {
            Disable();
          }
          return true;
        } else {
          var c := stream.Read();
          if c == None {
            return false;
          }
          TakeByte(c.value);
        }
      }
    }
  }
}
