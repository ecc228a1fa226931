/**
 Whole runs of P1FixedReader: bytes arrive and the client calls what it likes.
 The accumulator sees one sequence of events, and the counters and warnings
 say what happened since the last reset.
 */
module ReaderRuns {
  import opened Text
  import opened Numbers
  import opened Fields
  import opened Telegram
  import opened TelegramLaws
  import opened Receiver
  import opened ReceiverLaws
  import opened Agreement
  import opened Readers
  import opened ReaderLaws

  /** Bytes that arrive, and the calls that a client can make. */
  datatype Call =
    | Arrive(bytes: string)
    | Loop
    | Parse(fields: seq<Field>, data: Data, rest: string)
    | Enable(once: bool)
    | Disable
    | Clear
    | ClearAll
    | ChangeStream(bytes: string)
    | DoChecksum
  {
    predicate Valid() {
      Parse? ==> ValidFields(fields) && Sized(fields, data)
    }
  }

  datatype Session = Session(reader: Fixed, stream: string)

  predicate AllValid(calls: seq<Call>) {
    forall i :: 0 <= i < |calls| ==> calls[i].Valid()
  }

  function Perform(capacity: nat, s: Session, c: Call): Session
    requires c.Valid()
  {
    var f := s.reader;
    match c
    case Arrive(bytes) => s.(stream := s.stream + bytes)
    case Loop =>
      var (g, rest, _) := FixedLoop(capacity, f, s.stream);
      Session(g, rest)
    case Parse(fields, data, rest) => s.(reader := FixedParsed(f, fields, data, rest).0)
    case Enable(once) => s.(reader := FixedEnabled(f, once))
    case Disable => Session(FixedDisabled(f), "")
    case Clear => s.(reader := FixedCleared(f))
    case ClearAll => s.(reader := FixedEmptied(f))
    case ChangeStream(bytes) => Session(FixedReset(f), bytes)
    case DoChecksum => s.(reader := FixedReset(f))
  }

  /** The session after the calls on a new reader. */
  function After(capacity: nat, calls: seq<Call>): Session
    requires AllValid(calls)
  {
    if calls == [] then Session(Fixed(false, false, false, Idle(NEW_TRACKER)), "")
    else Perform(capacity, After(capacity, calls[..|calls| - 1]), calls[|calls| - 1])
  }

  // ------------------------------------------- a run of the accumulator

  /** The bytes that loop() hands to the accumulator. */
  function LoopEvents(capacity: nat, f: Fixed, q: string): seq<Event>
    decreases |q|
  {
    if q == "" || !f.enabled then [] else
    var (acc, r) := Step(capacity, true, f.acc, q[0]);
    [Byte(q[0])] + if r == Complete then [] else LoopEvents(capacity, f.(acc := acc), q[1..])
  }

  /** The bad lines that a parse of the body finds, in a buffer that holds more text after it. */
  function BadLinesOf(body: string, fields: seq<Field>, d: Data, rest: string): seq<string>
    requires ValidFields(fields) && Sized(fields, d)
  {
    LinesAt(body + rest, Faults(fields, d, body + rest, 0, |body|, false), |body|)
  }

  /** With single-line fields that text does not matter, and each line is bad by itself. */
  lemma BadLinesAlone(body: string, fields: seq<Field>, d: Data, rest: string)
    requires SingleLineFields(fields) && Sized(fields, d)
    ensures BadLinesOf(body, fields, d, rest) == AllBadLines(fields, d, body, false)
  {
    hide Faults, AllBadLines, LinesAt, SingleLineFields;
    FaultsAreBadLines(fields, d, body + rest, 0, |body|, false);
    assert (body + rest)[0..|body|] == body;
  }

  /** The count, and the first bad line, or the one that made a wrapped counter 1 again. */
  function WarningFor(bad: seq<string>): FieldWarning {
    FieldWarning(|bad| % U16, if |bad| % U16 == 0 then "" else UpToNul(bad[(|bad| - 1) / U16 * U16]))
  }

  /** What parse() counts and reports are these lines. */
  lemma ParseTells(f: Fixed, fields: seq<Field>, d: Data, rest: string)
    requires ValidFields(fields) && Sized(fields, d)
    ensures var bad := BadLinesOf(f.acc.body, fields, d, rest);
            && DataPart(fields, d, f.acc.body + rest, 0, |f.acc.body|, false).1.fieldErrors == |bad| % U16
            && FixedParsed(f, fields, d, rest).2 == WarningFor(bad)
  {
    hide DataPart, Faults, LinesAt, UpToNul, ReportedLine;
    var text, end := f.acc.body + rest, |f.acc.body|;
    var faults := Faults(fields, d, text, 0, end, false);
    FaultsCounted(fields, d, text, 0, end, false);
    LineAtPosition(text, faults, end, if faults == [] then 0 else (|faults| - 1) / U16 * U16);
  }

  function Happens(capacity: nat, s: Session, c: Call): seq<Event>
    requires c.Valid()
  {
    var reset := if s.reader.available then [Event.Reset] else [];
    match c
    case Arrive(_) => []
    case Loop => LoopEvents(capacity, s.reader, s.stream)
    case Parse(fields, data, rest) => [AddSkipped(|BadLinesOf(s.reader.acc.body, fields, data, rest)| % U16)] + reset
    case Enable(_) => []
    case Disable => if s.reader.available then [] else [Event.Reset]
    case Clear => reset
    case ClearAll => [Event.Reset]
    case ChangeStream(_) => [ResetDiagnostics]
    case DoChecksum => [ResetDiagnostics]
  }

  function Events(capacity: nat, calls: seq<Call>): seq<Event>
    requires AllValid(calls)
  {
    if calls == [] then [] else
    var front := calls[..|calls| - 1];
    Events(capacity, front) + Happens(capacity, After(capacity, front), calls[|calls| - 1])
  }

  function ApplyAll(capacity: nat, a: Acc, es: seq<Event>): Acc
    decreases |es|
  {
    if es == [] then a else ApplyAll(capacity, Apply(capacity, true, a, es[0]).0, es[1..])
  }

  lemma {:induction false} ApplyPush(capacity: nat, a: Acc, es: seq<Event>, e: Event)
    ensures ApplyAll(capacity, a, es + [e]) == Apply(capacity, true, ApplyAll(capacity, a, es), e).0
    decreases |es|
  {
    hide Apply;
    if es == [] {
      assert [] + [e] == [e];
    } else {
      assert (es + [e])[1..] == es[1..] + [e];
      ApplyPush(capacity, Apply(capacity, true, a, es[0]).0, es[1..], e);
    }
  }

  lemma {:induction false} RunAppend(capacity: nat, es: seq<Event>, more: seq<Event>)
    ensures Run(capacity, true, es + more).0 == ApplyAll(capacity, Run(capacity, true, es).0, more)
    decreases |more|
  {
    hide Apply;
    if more == [] {
      assert es + more == es;
    } else {
      var front, e := more[..|more| - 1], more[|more| - 1];
      RunAppend(capacity, es, front);
      assert more == front + [e] && es + more == es + front + [e];
      assert (es + more)[..|es + more| - 1] == es + front;
      ApplyPush(capacity, Run(capacity, true, es).0, front, e);
    }
  }

  lemma {:induction false} LoopApplies(capacity: nat, f: Fixed, q: string)
    ensures ApplyAll(capacity, f.acc, LoopEvents(capacity, f, q)) == FixedLoop(capacity, f, q).0.acc
    decreases |q|
  {
    hide Step;
    if q != "" && f.enabled {
      var (acc, r) := Step(capacity, true, f.acc, q[0]);
      var es := LoopEvents(capacity, f, q);
      assert es[0] == Byte(q[0]) && es[1..] == if r == Complete then [] else LoopEvents(capacity, f.(acc := acc), q[1..]);
      if r != Complete {
        LoopApplies(capacity, f.(acc := acc), q[1..]);
        LoopApplies(capacity, f.(acc := acc, available := false), q[1..]);
        AvailableIsNoEvent(capacity, f.(acc := acc), q[1..]);
      }
    } else if q != "" {
      LoopApplies(capacity, f, q[1..]);
    }
  }

  lemma {:induction false} AvailableIsNoEvent(capacity: nat, f: Fixed, q: string)
    ensures LoopEvents(capacity, f, q) == LoopEvents(capacity, f.(available := false), q)
    decreases |q|
  {
    hide Step;
    if q != "" && f.enabled {
      AvailableIsNoEvent(capacity, f.(acc := Step(capacity, true, f.acc, q[0]).0), q[1..]);
    }
  }

  lemma {:induction false} ApplyOne(capacity: nat, a: Acc, e: Event)
    ensures ApplyAll(capacity, a, [e]) == Apply(capacity, true, a, e).0
  {
    hide Apply;
    assert [e][1..] == [];
  }

  lemma {:induction false} ApplyTwo(capacity: nat, a: Acc, e: Event, e': Event)
    ensures ApplyAll(capacity, a, [e] + [e']) == Apply(capacity, true, Apply(capacity, true, a, e).0, e').0
  {
    hide Apply, ApplyAll;
    ApplyOne(capacity, a, e);
    ApplyPush(capacity, a, [e], e');
  }

  lemma {:induction false} ApplyNone(capacity: nat, a: Acc)
    ensures ApplyAll(capacity, a, []) == a
  {}

  lemma ParseApplies(capacity: nat, s: Session, fields: seq<Field>, d: Data, rest: string)
    requires ValidFields(fields) && Sized(fields, d)
    ensures var n := |BadLinesOf(s.reader.acc.body, fields, d, rest)| % U16;
            ApplyAll(capacity, s.reader.acc, [AddSkipped(n)] + if s.reader.available then [Event.Reset] else [])
              == FixedParsed(s.reader, fields, d, rest).0.acc
  {
    hide Step, DataPart, BadLinesOf, WarningOf, WarningFor, ApplyAll;
    ParseTells(s.reader, fields, d, rest);
    var e := AddSkipped(|BadLinesOf(s.reader.acc.body, fields, d, rest)| % U16);
    if s.reader.available {
      ApplyTwo(capacity, s.reader.acc, e, Event.Reset);
    } else {
      ApplyOne(capacity, s.reader.acc, e);
      assert [e] + [] == [e];
    }
  }

  lemma {:induction false} CallApplies(capacity: nat, s: Session, c: Call)
    requires c.Valid()
    ensures ApplyAll(capacity, s.reader.acc, Happens(capacity, s, c)) == Perform(capacity, s, c).reader.acc
  {
    hide Step, BadLinesOf, FixedParsed, FixedLoop, LoopEvents, ApplyAll;
    ApplyNone(capacity, s.reader.acc);
    ApplyOne(capacity, s.reader.acc, Event.Reset);
    ApplyOne(capacity, s.reader.acc, ResetDiagnostics);
    match c {
      case Loop => LoopApplies(capacity, s.reader, s.stream);
      case Parse(fields, data, rest) => ParseApplies(capacity, s, fields, data, rest);
      case _ =>
    }
  }

  // -------------------------------------------------------- the accounts

  /** The bad lines of every parse since the diagnostics were reset. */
  function Parses(capacity: nat, calls: seq<Call>): seq<seq<string>>
    requires AllValid(calls)
  {
    if calls == [] then [] else
    var front := calls[..|calls| - 1];
    match calls[|calls| - 1]
    case Parse(fields, data, rest) => Parses(capacity, front) + [BadLinesOf(After(capacity, front).reader.acc.body, fields, data, rest)]
    case ChangeStream(_) => []
    case DoChecksum => []
    case _ => Parses(capacity, front)
  }

  /** The warnings that these parses return. */
  function Warnings(capacity: nat, calls: seq<Call>): seq<FieldWarning>
    requires AllValid(calls)
  {
    if calls == [] then [] else
    var front := calls[..|calls| - 1];
    match calls[|calls| - 1]
    case Parse(fields, data, rest) => Warnings(capacity, front) + [FixedParsed(After(capacity, front).reader, fields, data, rest).2]
    case ChangeStream(_) => []
    case DoChecksum => []
    case _ => Warnings(capacity, front)
  }

  /** Each parse counts its bad lines in sixteen bits. */
  function Skipped(parses: seq<seq<string>>): nat {
    if parses == [] then 0 else Skipped(parses[..|parses| - 1]) + |parses[|parses| - 1]| % U16
  }

  lemma {:induction false} SkippedPush(parses: seq<seq<string>>, bad: seq<string>)
    ensures Skipped(parses + [bad]) == Skipped(parses) + |bad| % U16
  {
    assert (parses + [bad])[..|parses|] == parses;
  }

  lemma StepKeepsSkipped(capacity: nat, a: Acc, c: char)
    ensures Step(capacity, true, a, c).0.tracker.skippedFields == a.tracker.skippedFields
  {
    hide Step;
    StepTracker(capacity, a, c);
  }

  lemma {:induction false} LoopKeepsSkipped(capacity: nat, f: Fixed, q: string)
    ensures FixedLoop(capacity, f, q).0.acc.tracker.skippedFields == f.acc.tracker.skippedFields
    decreases |q|
  {
    hide Step;
    if q != "" {
      StepKeepsSkipped(capacity, f.acc, q[0]);
      var acc := Step(capacity, true, f.acc, q[0]).0;
      LoopKeepsSkipped(capacity, f, q[1..]);
      LoopKeepsSkipped(capacity, f.(acc := acc), q[1..]);
      LoopKeepsSkipped(capacity, f.(acc := acc, available := false), q[1..]);
    }
  }

  /** What one call adds to the skipped fields and returns as a warning. */
  lemma CallAccounts(capacity: nat, s: Session, c: Call)
    requires c.Valid()
    ensures var t, t' := s.reader.acc.tracker, Perform(capacity, s, c).reader.acc.tracker;
            match c
            case Parse(fields, data, rest) =>
              var bad := BadLinesOf(s.reader.acc.body, fields, data, rest);
              && t'.skippedFields == (t.skippedFields + |bad| % U16) % U32
              && FixedParsed(s.reader, fields, data, rest).2 == WarningFor(bad)
            case ChangeStream(_) => t'.skippedFields == 0
            case DoChecksum => t'.skippedFields == 0
            case _ => t'.skippedFields == t.skippedFields
  {
    hide Step, DataPart, BadLinesOf, WarningOf, WarningFor, FixedLoop, UpToNul;
    match c {
      case Loop => LoopKeepsSkipped(capacity, s.reader, s.stream);
      case Parse(fields, data, rest) => ParseTells(s.reader, fields, data, rest);
      case _ =>
    }
  }

  /** The accumulator of the reader goes through one run of events. */
  lemma {:induction false} AccumulatorRuns(capacity: nat, calls: seq<Call>)
    requires AllValid(calls)
    ensures After(capacity, calls).reader.acc == Run(capacity, true, Events(capacity, calls)).0
  {
    hide Perform, Happens, Apply;
    if calls != [] {
      var front, c := calls[..|calls| - 1], calls[|calls| - 1];
      var s := After(capacity, front);
      AccumulatorRuns(capacity, front);
      CallApplies(capacity, s, c);
      RunAppend(capacity, Events(capacity, front), Happens(capacity, s, c));
    }
  }

  lemma {:induction false} SkippedFieldsAddUp(capacity: nat, calls: seq<Call>)
    requires AllValid(calls)
    ensures After(capacity, calls).reader.acc.tracker.skippedFields == Skipped(Parses(capacity, calls)) % U32
  {
    hide Perform, BadLinesOf, FixedParsed, WarningFor;
    if calls != [] {
      var front, c := calls[..|calls| - 1], calls[|calls| - 1];
      var s := After(capacity, front);
      SkippedFieldsAddUp(capacity, front);
      CallAccounts(capacity, s, c);
      if c.Parse? {
        var bad := BadLinesOf(s.reader.acc.body, c.fields, c.data, c.rest);
        SkippedPush(Parses(capacity, front), bad);
        WrapSum(Skipped(Parses(capacity, front)), |bad| % U16);
      }
    }
  }

  lemma {:induction false} WarningsTell(capacity: nat, calls: seq<Call>)
    requires AllValid(calls)
    ensures |Warnings(capacity, calls)| == |Parses(capacity, calls)|
    ensures forall i :: 0 <= i < |Parses(capacity, calls)| ==> Warnings(capacity, calls)[i] == WarningFor(Parses(capacity, calls)[i])
  {
    hide Perform, BadLinesOf, FixedParsed, WarningFor;
    if calls != [] {
      var front, c := calls[..|calls| - 1], calls[|calls| - 1];
      WarningsTell(capacity, front);
      CallAccounts(capacity, After(capacity, front), c);
    }
  }

  /**
   Accounting over every run of the reader: its accumulator goes through one
   run of events, of which mode and CRC errors keep the accounts; the skipped
   fields are the sum of the bad lines of all parses since the last reset,
   modulo 2^32; and each warning holds the count and the text of the first bad
   line of its own parse.
   */
  lemma {:induction false} ReaderAccounts(capacity: nat, calls: seq<Call>)
    requires AllValid(calls)
    ensures var acc, es, parses := After(capacity, calls).reader.acc, Events(capacity, calls), Parses(capacity, calls);
            && acc == Run(capacity, true, es).0
            && Accounts(acc.tracker, History(capacity, es))
            && acc.tracker.skippedFields == Skipped(parses) % U32
            && |Warnings(capacity, calls)| == |parses|
            && forall i :: 0 <= i < |parses| ==> Warnings(capacity, calls)[i] == WarningFor(parses[i])
  {
    hide After, Run, Events, Parses, Warnings, History, Accounts, WarningFor, Skipped;
    RunAccounts(capacity, Events(capacity, calls));
    AccumulatorRuns(capacity, calls);
    SkippedFieldsAddUp(capacity, calls);
    WarningsTell(capacity, calls);
  }

  lemma WrapSum(a: nat, b: nat)
    ensures (a % U32 + b) % U32 == (a + b) % U32
  {
    WrapIs(a % U32 + b, a / U32);
  }

  // ------------------------------------------------------------- fresh starts

  /** Calls that leave nothing of what the reader has read so far. */
  predicate DropsAll(s: Session, c: Call) {
    c.ClearAll? || c.ChangeStream? || c.DoChecksum? || ((c.Clear? || c.Parse?) && s.reader.available)
  }

  /** After such a call nothing is available, and the next telegram arrives whole. */
  lemma FreshStart(capacity: nat, s: Session, c: Call, g: Transmission)
    requires c.Valid() && DropsAll(s, c) && s.reader.enabled && !s.reader.once && Perform(capacity, s, c).stream == ""
    requires g.Valid() && Fits(capacity, g.body) && Receive(Perform(capacity, s, c).reader.acc.tracker, g).1
    ensures !Perform(capacity, s, c).reader.available
    ensures var t := Perform(capacity, Perform(capacity, Perform(capacity, s, c), Arrive(g.Text())), Loop);
            t.reader.available && t.reader.acc.body == g.body
  {
    hide Step, Collect, FixedLoop, Receive, Fits, DataPart, WarningOf;
    var f := Perform(capacity, s, c).reader;
    CollectTelegram(capacity, f.acc, g);
    LoopDeliversFirst(capacity, f, g.Text());
    assert "" + g.Text() == g.Text();
  }

  /** A new reader takes nothing before it has been enabled, and the first telegram after that. */
  lemma {:induction false} EnabledReceives(capacity: nat, noise: string, g: Transmission)
    requires g.Valid() && Fits(capacity, g.body) && Receive(NEW_TRACKER, g).1
    ensures var calls := [Arrive(noise), Loop, Enable(false), Arrive(g.Text()), Loop];
            var t := After(capacity, calls);
            t.reader.available && t.reader.acc.body == g.body
  {
    hide Step, Collect, FixedLoop, Receive, Fits;
    var f := Fixed(false, false, false, Idle(NEW_TRACKER));
    var c1, c2, c3 := [Arrive(noise)], [Arrive(noise), Loop], [Arrive(noise), Loop, Enable(false)];
    var c4, c5 := c3 + [Arrive(g.Text())], c3 + [Arrive(g.Text()), Loop];
    assert c5[..4] == c4 && c4[..3] == c3 && c3[..2] == c2 && c2[..1] == c1 && c1[..0] == [];
    assert "" + noise == noise && "" + g.Text() == g.Text();
    assert After(capacity, c1) == Session(f, noise);
    DisabledDropsBytes(capacity, f, noise);
    assert After(capacity, c2) == Session(f, "");
    assert After(capacity, c4) == Session(FixedEnabled(f, false), g.Text());
    CollectTelegram(capacity, f.acc, g);
    LoopDeliversFirst(capacity, FixedEnabled(f, false), g.Text());
    assert [Arrive(noise), Loop, Enable(false), Arrive(g.Text()), Loop] == c5;
  }
}
