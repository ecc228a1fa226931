/**
 What the accumulator promises over whole runs: which bytes complete a
 telegram, the vote on the CRC mode, the counters, and the invisible saving
 in Absent mode.
 */
module ReceiverLaws {
  import opened Crc16
  import opened Text
  import opened Checksum
  import opened Numbers
  import opened Receiver

  /** Everything that can happen to an accumulator. */
  datatype Event = Byte(c: char) | Reset | ResetDiagnostics | AddSkipped(count: nat)

  function Apply(capacity: nat, lazy: bool, a: Acc, e: Event): (Acc, Result) {
    match e
    case Byte(c) => Step(capacity, lazy, a, c)
    case Reset => (Idle(a.tracker), Pending)
    case ResetDiagnostics => (Idle(NEW_TRACKER), Pending)
    case AddSkipped(count) => (a.(tracker := a.tracker.AddSkipped(count)), Pending)
  }

  /** The state after a run of a fresh accumulator, and the result of every event. */
  function Run(capacity: nat, lazy: bool, es: seq<Event>): (Acc, seq<Result>) {
    if es == [] then (Idle(NEW_TRACKER), []) else
    var (a, rs) := Run(capacity, lazy, es[..|es| - 1]);
    var (a', r) := Apply(capacity, lazy, a, es[|es| - 1]);
    (a', rs + [r])
  }

  lemma ApplyInv(capacity: nat, a: Acc, e: Event)
    requires Inv(capacity, a)
    ensures Inv(capacity, Apply(capacity, true, a, e).0)
  {
    hide Push, Crc, CrcParse, Step;
    match e {
      case Byte(c) => StepInv(capacity, a, c);
      case _ =>
    }
  }

  lemma {:induction false} RunInv(capacity: nat, es: seq<Event>)
    ensures Inv(capacity, Run(capacity, true, es).0)
  {
    hide Inv, Apply;
    if es == [] {
      IdleInv(capacity, NEW_TRACKER);
    } else {
      RunInv(capacity, es[..|es| - 1]);
      ApplyInv(capacity, Run(capacity, true, es[..|es| - 1]).0, es[|es| - 1]);
    }
  }

  // ------------------------------------------------ which bytes do what

  /**
   What the text since the opening '/' amounts to, judged on the text alone:
   everything up to the first '!' is the body, the rest the suffix.
   */
  function Verdict(text: string, mode: CrcMode, capacity: nat): Result
    requires text != ""
  {
    var k := Skip(NotBang, text, 1);
    if k == |text| then
      if k > 1 && k - 1 >= capacity then Overflow else Pending
    else
      var suffix := text[k + 1..];
      if suffix == "" then Pending
      else if |suffix| == 1 && IsEol(suffix[0]) then (if mode == Present then Malformed else Complete)
      else if mode == Absent || !All(IsHex, suffix) then Malformed
      else if |suffix| < CRC_LEN then Pending
      else if HexValue(suffix) == Crc(text[..k + 1]) then Complete
      else Mismatch
  }

  /** The text since the opening '/', while no verdict has been reached. */
  function Reference(open: Option<string>, mode: CrcMode, capacity: nat, c: char): (Option<string>, Result) {
    if open == None && c != '/' then (None, Pending) else
    var text := if open.Some? then open.value + [c] else [c];
    var r := Verdict(text, mode, capacity);
    (if r == Pending then Some(text) else None, r)
  }

  /** The accumulator and the text since the opening '/' describe the same situation. */
  predicate Tracks(a: Acc, open: Option<string>) {
    match a.state
    case WaitingState => open == None
    case ReadingState => open == Some("/" + a.body)
    case ChecksumState => open == Some("/" + a.body + "!" + a.suffix)
  }

  lemma VerdictInBody(body: string, mode: CrcMode, capacity: nat)
    requires All(NotBang, body)
    ensures Verdict("/" + body, mode, capacity) == if body != "" && |body| >= capacity then Overflow else Pending
  {
    hide Crc, HexValue;
    var t := "/" + body;
    assert forall i :: 1 <= i < |t| ==> t[i] == body[i - 1];
    SkipIs(NotBang, t, 1, |t|);
  }

  lemma {:induction false} VerdictInSuffix(body: string, suffix: string, mode: CrcMode, capacity: nat)
    requires All(NotBang, body)
    ensures Verdict("/" + body + "!" + suffix, mode, capacity) ==
      if suffix == "" then Pending
      else if |suffix| == 1 && IsEol(suffix[0]) then (if mode == Present then Malformed else Complete)
      else if mode == Absent || !All(IsHex, suffix) then Malformed
      else if |suffix| < CRC_LEN then Pending
      else if HexValue(suffix) == Crc("/" + body + "!") then Complete
      else Mismatch
  {
    hide Crc, HexValue, IsHex;
    var head := "/" + body + "!";
    var t := head + suffix;
    assert forall i :: 1 <= i < |body| + 1 ==> t[i] == body[i - 1];
    assert t[|body| + 1] == '!';
    SkipIs(NotBang, t, 1, |body| + 1);
    assert t[|body| + 2..] == suffix;
    assert t[..|body| + 2] == head;
  }

  lemma HexSuffix(suffix: string, c: char)
    ensures All(IsHex, suffix + [c]) <==> All(IsHex, suffix) && IsHex(c)
  {
    var s := suffix + [c];
    assert forall i :: 0 <= i < |suffix| ==> s[i] == suffix[i];
    assert s[|suffix|] == c;
  }

  lemma EolIsNotHex(c: char)
    ensures IsEol(c) ==> !IsHex(c)
  {}

  lemma StepVerdict(capacity: nat, a: Acc, open: Option<string>, c: char)
    requires Inv(capacity, a) && Tracks(a, open)
    ensures var (a', r) := Step(capacity, true, a, c);
            var (open', r') := Reference(open, a.tracker.mode, capacity, c);
            r == r' && Tracks(a', open')
    ensures var (a', r) := Step(capacity, true, a, c);
            r == Complete ==> a'.body == a.body && a'.lastCrcPresent == !IsEol(c)
  {
    hide Push, Crc, CrcParse, HexValue, IsHex, Verdict;
    var mode := a.tracker.mode;
    match a.state {
      case WaitingState =>
        VerdictInBody("", mode, capacity);
        assert c == '/' ==> [c] == "/" + "" && Step(capacity, true, a, c).0.body == "";
        assert c == '/' ==> "/" + Step(capacity, true, a, c).0.body == [c];
      case ReadingState =>
        var t, a' := "/" + a.body + [c], Step(capacity, true, a, c).0;
        if c == '!' {
          VerdictInSuffix(a.body, "", mode, capacity);
          assert t == "/" + a.body + "!" + "" == "/" + a'.body + "!" + a'.suffix;
        } else {
          VerdictInBody(a.body + [c], mode, capacity);
          assert t == "/" + (a.body + [c]);
        }
      case ChecksumState =>
        ChecksumVerdict(capacity, a, c);
        assert "/" + a.body + "!" + a.suffix + [c] == "/" + a.body + "!" + (a.suffix + [c]);
    }
  }

  lemma ChecksumVerdict(capacity: nat, a: Acc, c: char)
    requires Inv(capacity, a) && a.state == ChecksumState
    ensures var (a', r) := Step(capacity, true, a, c);
            && Verdict("/" + a.body + "!" + a.suffix + [c], a.tracker.mode, capacity) == r
            && (if r == Pending then a' == a.(suffix := a.suffix + [c]) else a'.state == WaitingState)
            && (r == Complete ==> a'.body == a.body && a'.lastCrcPresent == !IsEol(c))
  {
    hide Push, Crc, CrcParse, HexValue, IsHex, Verdict;
    var s := a.suffix + [c];
    assert "/" + a.body + "!" + a.suffix + [c] == "/" + a.body + "!" + s;
    VerdictInSuffix(a.body, s, a.tracker.mode, capacity);
    EolIsNotHex(c);
    HexSuffix(a.suffix, c);
    assert a.suffix == "" ==> s == [c];
    if |s| == CRC_LEN && All(IsHex, s) {
      CrcParseHex(s);
    }
  }

  /** The text since the opening '/' after a run. */
  function Open(capacity: nat, es: seq<Event>): Option<string> {
    if es == [] then None else
    match es[|es| - 1]
    case Byte(c) => Reference(Open(capacity, es[..|es| - 1]), Run(capacity, true, es[..|es| - 1]).0.tracker.mode, capacity, c).0
    case Reset => None
    case ResetDiagnostics => None
    case AddSkipped(_) => Open(capacity, es[..|es| - 1])
  }

  lemma {:induction false} RunTracks(capacity: nat, es: seq<Event>)
    ensures Tracks(Run(capacity, true, es).0, Open(capacity, es))
  {
    hide Inv, Step, Reference;
    if es != [] {
      var front := es[..|es| - 1];
      RunTracks(capacity, front);
      RunInv(capacity, front);
      match es[|es| - 1] {
        case Byte(c) => StepVerdict(capacity, Run(capacity, true, front).0, Open(capacity, front), c);
        case _ =>
      }
    }
  }

  /** The text ends a telegram that is complete. */
  ghost predicate Completes(text: string, mode: CrcMode, capacity: nat) {
    exists body, suffix :: text == "/" + body + "!" + suffix && CompletesWith(body, suffix, mode, capacity)
  }

  /** The text ends with the body byte that makes the length reach the capacity. */
  ghost predicate Overflows(text: string, capacity: nat) {
    exists body :: text == "/" + body && All(NotBang, body) && |body| == (if capacity == 0 then 1 else capacity)
  }

  /**
   Over every run, a byte completes a telegram, or overflows the buffer,
   exactly when the text since the opening '/' says so; a completed telegram
   is stored verbatim.
   */
  lemma {:induction false} EveryByteJudged(capacity: nat, es: seq<Event>, c: char)
    ensures var a, open := Run(capacity, true, es).0, Open(capacity, es);
            var (a', r) := Step(capacity, true, a, c);
            && r == Reference(open, a.tracker.mode, capacity, c).1
            && (r == Complete <==> open.Some? && Completes(open.value + [c], a.tracker.mode, capacity))
            && (r == Overflow <==> open.Some? && Overflows(open.value + [c], capacity))
            && (r == Complete ==> open.value + [c] == "/" + a'.body + "!" + a.suffix + [c])
            && (r == Complete ==> a'.lastCrcPresent == !IsEol(c))
  {
    hide Step, Reference, Crc, HexValue, IsHex, Inv, CompletesWith, Verdict;
    var a, open := Run(capacity, true, es).0, Open(capacity, es);
    RunInv(capacity, es);
    RunTracks(capacity, es);
    StepVerdict(capacity, a, open, c);
    ReferenceIs(open, a.tracker.mode, capacity, c);
    var (a', r) := Step(capacity, true, a, c);
    if r == Complete {
      CompletionText(capacity, a, c);
      assert open.value + [c] == "/" + a.body + "!" + (a.suffix + [c]);
    }
    if open.Some? && Completes(open.value + [c], a.tracker.mode, capacity) {
      var body, suffix :| open.value + [c] == "/" + body + "!" + suffix && CompletesWith(body, suffix, a.tracker.mode, capacity);
      CompleteText(body, suffix, a.tracker.mode, capacity, 0);
    }
    if r == Overflow {
      OverflowText(capacity, a, c);
      assert open.value + [c] == "/" + (a.body + [c]);
    }
    if open.Some? && Overflows(open.value + [c], capacity) {
      var body :| open.value + [c] == "/" + body && All(NotBang, body) && |body| == (if capacity == 0 then 1 else capacity);
      VerdictInBody(body, a.tracker.mode, capacity);
    }
  }

  /** A telegram that is refused leaves nothing behind, and a waiting accumulator passes over everything but '/'. */
  lemma VerdictDrops(capacity: nat, a: Acc, c: char)
    ensures var (a', r) := Step(capacity, true, a, c);
            && (r != Complete && r != Pending ==> a'.state == WaitingState && a'.body == "" && !a'.lastCrcPresent)
            && (a.state == WaitingState && c != '/' ==> a' == a)
  {
    hide Push, Crc, CrcParse, IsHex;
  }

  /**
   Over every run, a byte without a verdict extends the telegram in the buffer
   or is passed over between telegrams, and a telegram that is refused leaves
   nothing behind.
   */
  lemma {:induction false} EveryByteKept(capacity: nat, es: seq<Event>, c: char)
    ensures var a, open := Run(capacity, true, es).0, Open(capacity, es);
            var (a', r) := Step(capacity, true, a, c);
            && (open == None && c != '/' ==> r == Pending && a' == a)
            && (open == None && c == '/' ==> r == Pending && Tracks(a', Some("/")))
            && (open.Some? && r == Pending ==> Tracks(a', Some(open.value + [c])))
            && (r != Complete && r != Pending ==> a'.state == WaitingState && a'.body == "" && !a'.lastCrcPresent)
  {
    hide Step, Inv, Tracks, Verdict;
    var a, open := Run(capacity, true, es).0, Open(capacity, es);
    RunInv(capacity, es);
    RunTracks(capacity, es);
    StepVerdict(capacity, a, open, c);
    VerdictDrops(capacity, a, c);
    NothingOpen(a, open);
    if open == None {
      VerdictInBody("", a.tracker.mode, capacity);
      assert "/" + "" == "/";
      assert c == '/' ==> [c] == "/";
    }
  }

  lemma NothingOpen(a: Acc, open: Option<string>)
    requires Tracks(a, open)
    ensures open == None <==> a.state == WaitingState
  {}

  lemma ReferenceIs(open: Option<string>, mode: CrcMode, capacity: nat, c: char)
    ensures open.Some? ==> Reference(open, mode, capacity, c).1 == Verdict(open.value + [c], mode, capacity)
    ensures open == None ==> Reference(open, mode, capacity, c).1 == Pending
  {
    hide Verdict;
    if open == None && c == '/' {
      VerdictInBody("", mode, capacity);
      assert [c] == "/" + "";
    }
  }

  lemma OverflowText(capacity: nat, a: Acc, c: char)
    requires Inv(capacity, a) && Step(capacity, true, a, c).1 == Overflow
    ensures a.state == ReadingState && All(NotBang, a.body + [c])
    ensures |a.body + [c]| == if capacity == 0 then 1 else capacity
  {
    hide Push, Crc, CrcParse, IsHex;
  }

  /** A telegram is complete when its suffix is a line end, or the CRC in four digits, as the mode allows. */
  predicate CompletesWith(body: string, suffix: string, mode: CrcMode, capacity: nat) {
    && All(NotBang, body) && (|body| < capacity || body == "")
    && (if |suffix| == 1 then IsEol(suffix[0]) && mode != Present
        else |suffix| == CRC_LEN && All(IsHex, suffix) && HexValue(suffix) == Crc("/" + body + "!") && mode != Absent)
  }

  lemma CompletionText(capacity: nat, a: Acc, c: char)
    requires Inv(capacity, a)
    requires Step(capacity, true, a, c).1 == Complete
    ensures a.state == ChecksumState && CompletesWith(a.body, a.suffix + [c], a.tracker.mode, capacity)
    ensures IsEol(c) <==> |a.suffix + [c]| == 1
  {
    hide Push, Crc, CrcParse, HexValue, IsHex;
    EolIsNotHex(c);
    HexSuffix(a.suffix, c);
    if a.suffix != "" || !IsEol(c) {
      CrcParseHex(a.suffix + [c]);
    }
  }

  /**
   Conversely, every text of that form completes on its last character and not
   before: none of its proper prefixes reaches a verdict.
   */
  lemma CompleteText(body: string, suffix: string, mode: CrcMode, capacity: nat, n: nat)
    requires CompletesWith(body, suffix, mode, capacity)
    ensures var text := "/" + body + "!" + suffix;
            && Verdict(text, mode, capacity) == Complete
            && (1 <= n < |text| ==> Verdict(text[..n], mode, capacity) == Pending)
  {
    hide Crc, HexValue, IsHex, Verdict;
    var text := "/" + body + "!" + suffix;
    VerdictInSuffix(body, suffix, mode, capacity);
    assert |suffix| == 1 ==> suffix == [suffix[0]];
    if 1 <= n < |text| {
      if n <= |body| + 1 {
        VerdictInBody(body[..n - 1], mode, capacity);
        assert text[..n] == "/" + body[..n - 1];
      } else {
        VerdictInSuffix(body, suffix[..n - |body| - 2], mode, capacity);
        assert text[..n] == "/" + body + "!" + suffix[..n - |body| - 2];
        if n > |body| + 2 {
          EolIsNotHex(suffix[0]);
          assert suffix[..n - |body| - 2][0] == suffix[0];
        }
      }
    }
  }

  // ------------------------------------------- the vote and the counters

  /** What has happened since the diagnostics were reset. */
  datatype Log = Log(votes: seq<bool>, crcErrors: nat, skipped: nat)

  function Record(log: Log, e: Event, a': Acc, r: Result): Log {
    match e
    case ResetDiagnostics => Log([], 0, 0)
    case AddSkipped(count) => log.(skipped := log.skipped + count)
    case Reset => log
    case Byte(_) =>
      if r == Complete then log.(votes := log.votes + [a'.lastCrcPresent])
      else if r == Mismatch || r == Malformed then log.(crcErrors := log.crcErrors + 1)
      else log
  }

  function History(capacity: nat, es: seq<Event>): Log {
    if es == [] then Log([], 0, 0) else
    var a := Run(capacity, true, es[..|es| - 1]).0;
    var (a', r) := Apply(capacity, true, a, es[|es| - 1]);
    Record(History(capacity, es[..|es| - 1]), es[|es| - 1], a', r)
  }

  function VotesFor(votes: seq<bool>, v: bool): nat {
    if votes == [] then 0 else VotesFor(votes[..|votes| - 1], v) + (if votes[|votes| - 1] == v then 1 else 0)
  }

  /** The majority of the first three completed telegrams. */
  function Majority(votes: seq<bool>): CrcMode {
    if |votes| < 3 then Detecting else if VotesFor(votes[..3], true) >= 2 then Present else Absent
  }

  /** The tracker says what the log says. */
  predicate Accounts(t: Tracker, log: Log) {
    && t.mode == Majority(log.votes)
    && (|log.votes| < 3 ==> t.presentVotes == VotesFor(log.votes, true) && t.absentVotes == VotesFor(log.votes, false))
    && (|log.votes| >= 3 ==> t.presentVotes == 0 && t.absentVotes == 0)
    && (forall i :: 3 <= i < |log.votes| ==> log.votes[i] == (t.mode == Present))
    && t.crcErrors == log.crcErrors % U32
    && t.skippedFields == log.skipped % U32
  }

  lemma {:induction false} CountPush(votes: seq<bool>, w: bool)
    ensures VotesFor(votes + [w], true) == VotesFor(votes, true) + (if w then 1 else 0)
    ensures VotesFor(votes + [w], false) == VotesFor(votes, false) + (if w then 0 else 1)
  {
    assert (votes + [w])[..|votes|] == votes;
  }

  lemma {:induction false} CountsAddUp(votes: seq<bool>)
    ensures VotesFor(votes, true) + VotesFor(votes, false) == |votes|
  {
    if votes != [] {
      CountsAddUp(votes[..|votes| - 1]);
    }
  }

  lemma VoteAccounts(t: Tracker, log: Log, w: bool)
    requires Accounts(t, log)
    requires t.mode != Detecting ==> w == (t.mode == Present)
    ensures Accounts(t.Observe(w), log.(votes := log.votes + [w]))
  {
    hide VotesFor;
    var votes := log.votes + [w];
    CountPush(log.votes, w);
    CountsAddUp(log.votes);
    if |log.votes| >= 3 {
      assert votes[..3] == log.votes[..3];
    } else if |log.votes| == 2 {
      assert votes[..3] == votes;
    }
  }

  lemma StepAccounts(capacity: nat, a: Acc, log: Log, c: char)
    requires Inv(capacity, a) && Accounts(a.tracker, log)
    ensures var (a', r) := Step(capacity, true, a, c);
            Accounts(a'.tracker, Record(log, Byte(c), a', r))
  {
    hide Step, VotesFor, Majority, Inv;
    var (a', r) := Step(capacity, true, a, c);
    StepTracker(capacity, a, c);
    if r == Complete {
      VoteAccounts(a.tracker, log, a'.lastCrcPresent);
    }
  }

  /** A byte adds a vote that the mode allows, counts an error or leaves the diagnostics alone. */
  lemma StepTracker(capacity: nat, a: Acc, c: char)
    ensures var (a', r) := Step(capacity, true, a, c);
            var t, t', w := a.tracker, a'.tracker, a'.lastCrcPresent;
            if r == Complete then t' == t.Observe(w) && (if w then t.mode != Absent else t.mode != Present)
            else if r == Mismatch || r == Malformed then t' == t.RecordError()
            else t' == t
  {
    hide Push, CrcParse, IsHex, Tracker.RecordError, Tracker.Observe;
    EolIsNotHex(c);
  }

  /**
   Over every run since the last reset of the diagnostics: the mode is open
   until three telegrams have completed and then the majority of the first
   three, with which every later one agrees; errors count mismatches and
   malformed suffixes, never overflows; skipped fields add up.
   */
  lemma {:induction false} RunAccounts(capacity: nat, es: seq<Event>)
    ensures Accounts(Run(capacity, true, es).0.tracker, History(capacity, es))
  {
    hide Inv, Step, Accounts;
    NewAccounts();
    if es != [] {
      var front := es[..|es| - 1];
      RunAccounts(capacity, front);
      RunInv(capacity, front);
      match es[|es| - 1] {
        case Byte(c) => StepAccounts(capacity, Run(capacity, true, front).0, History(capacity, front), c);
        case ResetDiagnostics =>
        case Reset =>
        case AddSkipped(n) => SkipAccounts(Run(capacity, true, front).0.tracker, History(capacity, front), n);
      }
    }
  }

  lemma NewAccounts()
    ensures Accounts(NEW_TRACKER, Log([], 0, 0))
  {}

  lemma SkipAccounts(t: Tracker, log: Log, n: nat)
    requires Accounts(t, log)
    ensures Accounts(t.AddSkipped(n), log.(skipped := log.skipped + n))
  {
    hide VotesFor;
    WrapIs(log.skipped % U32 + n, log.skipped / U32);
  }

  // ------------------------------------------ saving the CRC is not visible

  /** Equal but for a CRC that nothing will look at. */
  predicate SameButCrc(a: Acc, b: Acc) {
    && a == b.(crc := a.crc)
    && (a.tracker.mode != Absent || a.lastCrcPresent ==> a.crc == b.crc)
  }

  lemma LockStep(capacity: nat, a: Acc, b: Acc, e: Event)
    requires Inv(capacity, a) && SameButCrc(a, b)
    ensures Apply(capacity, true, a, e).1 == Apply(capacity, false, b, e).1
    ensures SameButCrc(Apply(capacity, true, a, e).0, Apply(capacity, false, b, e).0)
  {
    hide Push, Crc, CrcParse, IsHex;
  }

  /**
   An accumulator that always computes the CRC runs in lockstep with the real
   one: the same results and the same state, counters and body, the same CRC
   whenever the last telegram carried one.
   */
  lemma {:induction false} SkippingCrcIsInvisible(capacity: nat, es: seq<Event>)
    ensures Run(capacity, true, es).1 == Run(capacity, false, es).1
    ensures SameButCrc(Run(capacity, true, es).0, Run(capacity, false, es).0)
  {
    hide Inv, Apply;
    if es != [] {
      var front := es[..|es| - 1];
      SkippingCrcIsInvisible(capacity, front);
      RunInv(capacity, front);
      LockStep(capacity, Run(capacity, true, front).0, Run(capacity, false, front).0, es[|es| - 1]);
    }
  }
}
