/**
 What parse_data promises: with single-line fields the two cursors split the
 data into lines and the lines are absorbed one by one; blank lines do not
 matter; bad lines are counted; the first complete line of a field wins;
 readings on two lines, alone and among other lines.
 */
module TelegramLaws {
  import opened Text
  import opened Numbers
  import opened NumberLaws
  import opened Obis
  import opened ObisLaws
  import opened Decoder
  import opened DecoderLaws
  import opened Fields
  import opened Telegram

  predicate SingleLineFields(fields: seq<Field>) {
    ValidFields(fields) && forall i :: 0 <= i < |fields| ==> fields[i].shape.SingleLine()
  }

  // -------------------------------------------------- splitting and folding

  /** The text between line ends; each CR and each LF ends a line. */
  function Segments(b: string): (lines: seq<string>)
    ensures |lines| >= 1
    decreases |b|
  {
    var e := Skip(NotEol, b, 0);
    if e == |b| then [b] else [b[..e]] + Segments(b[e + 1..])
  }

  /** The fields, the number of bad lines modulo 2^16 and the text of the first one. */
  datatype Harvest = Harvest(data: Data, errors: nat, first: Option<string>)

  function Counted(h: Harvest, d: Data, bad: bool, line: string): Harvest {
    if !bad then h.(data := d) else
    var n := (h.errors + 1) % U16;
    Harvest(d, n, if n == 1 then Some(line) else h.first)
  }

  function Absorb(fields: seq<Field>, h: Harvest, line: string, unknownError: bool): (r: Harvest)
    requires ValidFields(fields) && Sized(fields, h.data)
    ensures Sized(fields, r.data)
  {
    var (d, res) := DataLine(fields, h.data, line, "", unknownError);
    Counted(h, d, res.Fail?, line)
  }

  function Gather(fields: seq<Field>, h: Harvest, lines: seq<string>, unknownError: bool): (r: Harvest)
    requires ValidFields(fields) && Sized(fields, h.data)
    ensures Sized(fields, r.data)
    decreases |lines|
  {
    if lines == [] then h else Gather(fields, Absorb(fields, h, lines[0], unknownError), lines[1..], unknownError)
  }

  /** The lines that are read as data: all but the identification line, if a line end closes that. */
  function DataLines(b: string): seq<string> {
    if |Segments(b)| == 1 then Segments(b) else Segments(b)[1..]
  }

  function Identified(fields: seq<Field>, d: Data, b: string): (r: Harvest)
    requires ValidFields(fields) && Sized(fields, d)
    ensures Sized(fields, r.data)
  {
    var h := Harvest(d, 0, None);
    if |Segments(b)| == 1 then h else
    var (d', res) := ParseField(fields, d, IndexOf(fields, IDENTIFICATION, 0), Segments(b)[0], "");
    Counted(h, d', res.Fail?, Segments(b)[0])
  }

  /** The data part b, line by line. */
  function Harvested(fields: seq<Field>, d: Data, b: string, unknownError: bool): (r: Harvest)
    requires ValidFields(fields) && Sized(fields, d)
    ensures Sized(fields, r.data)
  {
    Gather(fields, Identified(fields, d, b), DataLines(b), unknownError)
  }

  // ---------------------------------------------------------- the refinement

  lemma FieldWithinLine(fields: seq<Field>, d: Data, i: nat, s: string, rest: string)
    requires ValidFields(fields) && Sized(fields, d) && i <= |fields|
    requires i < |fields| && !d.present[i] ==> fields[i].shape.SingleLine()
    ensures ParseField(fields, d, i, s, rest) == ParseField(fields, d, i, s, "")
    ensures ParseField(fields, d, i, s, rest).1.Ok? ==> ParseField(fields, d, i, s, rest).1.next <= |s|
  {
    hide Decode;
    if i < |fields| {
      if !d.present[i] {
        SingleLineBound(fields[i].shape, d.values[i], s, rest, "");
      }
    }
  }

  lemma IdWithinLine(line: string)
    ensures ParseId(line).Ok? ==> ParseId(line).next <= |line|
  {}

  /** The line does not start a reading on two lines. */
  predicate StandsAlone(fields: seq<Field>, d: Data, line: string)
    requires Sized(fields, d)
  {
    ParseId(line).Ok? ==>
      var i := IndexOf(fields, ParseId(line).value, 0);
      i < |fields| && !d.present[i] ==> fields[i].shape.SingleLine()
  }

  /** Such a line does not depend on what follows, and the cursor goes to the next line. */
  lemma LineWithinLine(fields: seq<Field>, d: Data, line: string, rest: string, unknownError: bool)
    requires ValidFields(fields) && Sized(fields, d) && StandsAlone(fields, d, line)
    ensures DataLine(fields, d, line, rest, unknownError) == DataLine(fields, d, line, "", unknownError)
    ensures DataLine(fields, d, line, rest, unknownError).1.Ok? ==>
              DataLine(fields, d, line, rest, unknownError).1.next == |line| + 1
  {
    hide ParseField, ParseId, Cleared;
    IdWithinLine(line);
    if line != "" && ParseId(line).Ok? {
      FieldWithinLine(fields, d, IndexOf(fields, ParseId(line).value, 0), From(line, ParseId(line).next), rest);
    }
  }

  /** The line that a position in text[..end] starts, as captureFieldWarning takes it. */
  function LineText(text: string, position: nat, end: nat): string
    requires position <= end <= |text|
  {
    text[position..Skip(NotEol, text[..end], position)]
  }

  /** The positions of a report and the texts of a harvest say the same. */
  predicate SameReport(text: string, end: nat, report: Report, h: Harvest)
    requires end <= |text|
  {
    && report.fieldErrors == h.errors
    && (report.firstLine.Some? <==> h.first.Some?)
    && (report.firstLine.Some? ==>
          report.firstLine.value <= end && LineText(text, report.firstLine.value, end) == h.first.value)
  }

  lemma {:induction false} FirstSegment(b: string, e: nat)
    requires e <= |b| && (forall i :: 0 <= i < e ==> NotEol(b[i])) && (e < |b| ==> IsEol(b[e]))
    ensures Segments(b) == if e == |b| then [b] else [b[..e]] + Segments(b[e + 1..])
  {
    SkipIs(NotEol, b, 0, e);
  }

  lemma SegmentsFrom(text: string, start: nat, e: nat, end: nat)
    requires start <= e <= end <= |text|
    requires forall i :: start <= i < e ==> NotEol(text[i])
    requires e < end ==> IsEol(text[e])
    ensures Segments(text[start..end]) == if e == end then [text[start..end]] else [text[start..e]] + Segments(text[e + 1..end])
    ensures LineText(text, start, end) == text[start..e]
  {
    hide Segments;
    var b := text[start..end];
    assert forall i :: 0 <= i < |b| ==> b[i] == text[start + i];
    FirstSegment(b, e - start);
    SkipIs(NotEol, text[..end], start, e);
    assert b[..e - start] == text[start..e];
    assert e < end ==> b[e - start + 1..] == text[e + 1..end];
  }

  /** Only a line feed inside the skipped text, and no carriage return, is passed over. */
  lemma {:induction false} ScanSkips(fields: seq<Field>, d: Data, report: Report, text: string,
                                     lineStart: nat, from: nat, to: nat, end: nat, unknownError: bool)
    requires ValidFields(fields) && Sized(fields, d) && from <= to <= end <= |text|
    requires forall i :: from <= i < to ==> NotEol(text[i]) || (text[i] == '\n' && i < lineStart)
    ensures Scan(fields, d, report, text, lineStart, from, end, unknownError)
         == Scan(fields, d, report, text, lineStart, to, end, unknownError)
    decreases end - from
  {
    hide LineAt;
    if from < to {
      ScanSkips(fields, d, report, text, lineStart, from + 1, to, end, unknownError);
    }
  }

  /** A line that stands alone: the cursors go to the next one, and report and harvest record the same. */
  lemma ScanLine(fields: seq<Field>, h: Harvest, report: Report, text: string,
                                    lineStart: nat, lineEnd: nat, end: nat, unknownError: bool) returns (report': Report)
    requires ValidFields(fields) && Sized(fields, h.data) && lineStart <= lineEnd <= end <= |text|
    requires (forall i :: lineStart <= i < lineEnd ==> NotEol(text[i])) && (lineEnd < end ==> IsEol(text[lineEnd]))
    requires StandsAlone(fields, h.data, text[lineStart..lineEnd]) && SameReport(text, end, report, h)
    ensures var h' := Absorb(fields, h, text[lineStart..lineEnd], unknownError);
            && SameReport(text, end, report', h')
            && Scan(fields, h.data, report, text, lineStart, lineStart, end, unknownError) ==
                 if lineEnd < end then Scan(fields, h'.data, report', text, lineEnd + 1, lineEnd + 1, end, unknownError)
                 else (h'.data, report')
  {
    hide DataLine, LineText, Segments, StandsAlone;
    SegmentsFrom(text, lineStart, lineEnd, end);
    var line := text[lineStart..lineEnd];
    LineWithinLine(fields, h.data, line, text[lineEnd..], unknownError);
    report' := if DataLine(fields, h.data, line, "", unknownError).1.Fail? then report.Add(lineStart) else report;
    ScanSkips(fields, h.data, report, text, lineStart, lineStart, lineEnd, end, unknownError);
    BlankLine(fields, h, unknownError);
  }

  lemma {:induction false} ScanIsGather(fields: seq<Field>, h: Harvest, report: Report, text: string,
                                        lineStart: nat, end: nat, unknownError: bool)
    requires SingleLineFields(fields) && Sized(fields, h.data) && lineStart <= end <= |text|
    requires SameReport(text, end, report, h)
    ensures var (d, r) := Scan(fields, h.data, report, text, lineStart, lineStart, end, unknownError);
            var g := Gather(fields, h, Segments(text[lineStart..end]), unknownError);
            d == g.data && SameReport(text, end, r, g)
    decreases end - lineStart
  {
    hide DataLine, LineText, Segments, Scan, Absorb;
    var lineEnd := Skip(NotEol, text[..end], lineStart);
    assert forall i :: lineStart <= i < lineEnd ==> text[..end][i] == text[i];
    assert lineEnd < end ==> text[..end][lineEnd] == text[lineEnd];
    SegmentsFrom(text, lineStart, lineEnd, end);
    var line := text[lineStart..lineEnd];
    var report' := ScanLine(fields, h, report, text, lineStart, lineEnd, end, unknownError);
    if lineEnd < end {
      var segments := Segments(text[lineEnd + 1..end]);
      assert ([line] + segments)[1..] == segments;
      ScanIsGather(fields, Absorb(fields, h, line, unknownError), report', text, lineEnd + 1, end, unknownError);
    } else {
      GatherOne(fields, h, line, unknownError);
    }
  }

  lemma {:induction false} GatherOne(fields: seq<Field>, h: Harvest, line: string, unknownError: bool)
    requires ValidFields(fields) && Sized(fields, h.data)
    ensures Gather(fields, h, [line], unknownError) == Absorb(fields, h, line, unknownError)
  {
    hide Absorb;
    assert [line][1..] == [];
  }

  lemma BlankLine(fields: seq<Field>, h: Harvest, unknownError: bool)
    requires ValidFields(fields) && Sized(fields, h.data)
    ensures Absorb(fields, h, "", unknownError) == h
  {}

  /**
   Split and fold: on every text, parse_data with single-line fields leaves the
   fields, the count and the first bad line that the lines give one by one.
   */
  lemma SplitAndFold(fields: seq<Field>, d: Data, text: string, start: nat, end: nat, unknownError: bool)
    requires SingleLineFields(fields) && Sized(fields, d) && start <= end <= |text|
    ensures var (d', report) := DataPart(fields, d, text, start, end, unknownError);
            var h := Harvested(fields, d, text[start..end], unknownError);
            d' == h.data && SameReport(text, end, report, h)
  {
    hide Scan, Gather, ParseField, LineText, Segments;
    var e := Skip(NotEol, text[..end], start);
    assert forall i :: start <= i < e ==> text[..end][i] == text[i];
    assert e < end ==> text[..end][e] == text[e];
    SegmentsFrom(text, start, e, end);
    if e == end {
      assert DataLines(text[start..end]) == Segments(text[start..end]);
      ScanSkips(fields, d, CLEAN, text, start, start, end, end, unknownError);
      ScanIsGather(fields, Harvest(d, 0, None), CLEAN, text, start, end, unknownError);
    } else {
      var line := text[start..e];
      FieldWithinLine(fields, d, IndexOf(fields, IDENTIFICATION, 0), line, text[e..]);
      var (d', res) := ParseField(fields, d, IndexOf(fields, IDENTIFICATION, 0), line, "");
      var report := if res.Fail? then CLEAN.Add(start) else CLEAN;
      var h := Counted(Harvest(d, 0, None), d', res.Fail?, line);
      assert SameReport(text, end, report, h);
      var more := Segments(text[e + 1..end]);
      assert ([line] + more)[1..] == more && DataLines(text[start..end]) == more;
      assert Identified(fields, d, text[start..end]) == h;
      ScanIsGather(fields, h, report, text, e + 1, end, unknownError);
    }
  }

  // ------------------------------------------------------------ blank lines

  lemma {:induction false} GatherAppend(fields: seq<Field>, h: Harvest, a: seq<string>, b: seq<string>, unknownError: bool)
    requires ValidFields(fields) && Sized(fields, h.data)
    ensures Gather(fields, h, a + b, unknownError) == Gather(fields, Gather(fields, h, a, unknownError), b, unknownError)
    decreases |a|
  {
    hide Absorb;
    if a == [] {
      assert a + b == b;
    } else {
      assert (a + b)[1..] == a[1..] + b;
      GatherAppend(fields, Absorb(fields, h, a[0], unknownError), a[1..], b, unknownError);
    }
  }

  /** A blank line in a list of data lines. */
  lemma {:induction false} BlankLineGathered(fields: seq<Field>, h: Harvest, a: seq<string>, b: seq<string>, unknownError: bool)
    requires ValidFields(fields) && Sized(fields, h.data)
    ensures Gather(fields, h, a + [""] + b, unknownError) == Gather(fields, h, a + b, unknownError)
  {
    hide Absorb;
    var g := Gather(fields, h, a, unknownError);
    GatherAppend(fields, h, a + [""], b, unknownError);
    GatherAppend(fields, h, a, [""], unknownError);
    GatherOne(fields, g, "", unknownError);
    BlankLine(fields, g, unknownError);
    GatherAppend(fields, h, a, b, unknownError);
  }

  lemma CutOpen(a: string, c: char, b: string, e: nat)
    requires e <= |a|
    ensures (a + [c] + b)[..e] == a[..e]
    ensures (a + [c] + b)[e + 1..] == if e == |a| then b else a[e + 1..] + [c] + b
  {}

  /** A line end separates the lines before it from those after it. */
  lemma {:induction false} SegmentsAppend(a: string, c: char, b: string)
    requires IsEol(c)
    ensures Segments(a + [c] + b) == Segments(a) + Segments(b)
    decreases |a|
  {
    hide Segments;
    var t, e := a + [c] + b, Skip(NotEol, a, 0);
    assert forall i :: 0 <= i < |a| ==> t[i] == a[i];
    assert t[|a|] == c;
    FirstSegment(a, e);
    FirstSegment(t, e);
    CutOpen(a, c, b, e);
    if e == |a| {
      assert a[..e] == a;
    } else {
      SegmentsAppend(a[e + 1..], c, b);
      Associative([a[..e]], Segments(a[e + 1..]), Segments(b));
    }
  }

  /** A line end inserted right after another one, anywhere in the text, changes no field and no count. */
  lemma BlankLinesDoNotMatter(fields: seq<Field>, d: Data, a: string, e: char, e': char, b: string, unknownError: bool)
    requires ValidFields(fields) && Sized(fields, d) && IsEol(e) && IsEol(e')
    ensures Harvested(fields, d, a + [e, e'] + b, unknownError) == Harvested(fields, d, a + [e] + b, unknownError)
  {
    hide Gather, ParseField, Segments;
    var t, t' := a + [e] + b, a + [e, e'] + b;
    assert t' == a + [e] + ([e'] + b) && [e'] + b == "" + [e'] + b;
    SegmentsAppend(a, e, b);
    SegmentsAppend(a, e, [e'] + b);
    SegmentsAppend("", e', b);
    FirstSegment("", 0);
    var lines := Segments(a)[1..];
    assert Segments(t)[0] == Segments(a)[0] == Segments(t')[0];
    assert DataLines(t) == lines + Segments(b) && DataLines(t') == lines + [""] + Segments(b);
    BlankLineGathered(fields, Identified(fields, d, t), lines, Segments(b), unknownError);
  }

  /** Once there is a line end, a further one at the end of the data has no effect. */
  lemma {:induction false} FinalLineEnd(fields: seq<Field>, d: Data, b: string, unknownError: bool)
    requires ValidFields(fields) && Sized(fields, d)
    requires |Segments(b)| > 1
    ensures Harvested(fields, d, b + "\r\n", unknownError) == Harvested(fields, d, b, unknownError)
  {
    hide Gather, ParseField, Segments;
    assert b + "\r\n" == b + ['\r', '\n'] + "" && b + "\r" == b + ['\r'] + "";
    BlankLinesDoNotMatter(fields, d, b, '\r', '\n', "", unknownError);
    SegmentsAppend(b, '\r', "");
    FirstSegment("", 0);
    var lines := DataLines(b);
    assert DataLines(b + "\r") == lines + [""] + [];
    assert lines + [] == lines;
    BlankLineGathered(fields, Identified(fields, d, b), lines, [], unknownError);
  }

  // -------------------------------------------------------- counting errors

  /** The lines that are bad, each judged in the situation that those before it leave. */
  function BadLines(fields: seq<Field>, h: Harvest, lines: seq<string>, unknownError: bool): seq<string>
    requires ValidFields(fields) && Sized(fields, h.data)
    decreases |lines|
  {
    if lines == [] then [] else
    (if DataLine(fields, h.data, lines[0], "", unknownError).1.Fail? then [lines[0]] else [])
    + BadLines(fields, Absorb(fields, h, lines[0], unknownError), lines[1..], unknownError)
  }

  /** The bad lines of a data part, the identification line included. */
  function AllBadLines(fields: seq<Field>, d: Data, b: string, unknownError: bool): seq<string>
    requires ValidFields(fields) && Sized(fields, d)
  {
    var h := Identified(fields, d, b);
    (if h.errors == 1 then [Segments(b)[0]] else []) + BadLines(fields, h, DataLines(b), unknownError)
  }

  /** A count and a first line that agree with a list of bad lines. */
  predicate Tallies(h: Harvest, bad: seq<string>) {
    && h.errors == |bad| % U16
    && h.first == if bad == [] then None else Some(bad[(|bad| - 1) / U16 * U16])
  }

  lemma TallyPush(h: Harvest, bad: seq<string>, d: Data, line: string)
    requires Tallies(h, bad)
    ensures Tallies(Counted(h, d, true, line), bad + [line])
  {
    var more := bad + [line];
    if |bad| % U16 == 0 {
      assert (|more| - 1) / U16 * U16 == |bad|;
    } else {
      assert (|more| - 1) / U16 == (|bad| - 1) / U16;
      assert more[(|bad| - 1) / U16 * U16] == bad[(|bad| - 1) / U16 * U16];
    }
  }

  lemma {:induction false} GatherTallies(fields: seq<Field>, h: Harvest, lines: seq<string>, bad: seq<string>, unknownError: bool)
    requires ValidFields(fields) && Sized(fields, h.data) && Tallies(h, bad)
    ensures Tallies(Gather(fields, h, lines, unknownError), bad + BadLines(fields, h, lines, unknownError))
    decreases |lines|
  {
    hide DataLine, Tallies;
    if lines == [] {
      assert bad + [] == bad;
    } else {
      var (d, res) := DataLine(fields, h.data, lines[0], "", unknownError);
      var h' := Absorb(fields, h, lines[0], unknownError);
      var one := if res.Fail? then [lines[0]] else [];
      if res.Fail? {
        TallyPush(h, bad, d, lines[0]);
      } else {
        TalliesData(h, bad, d);
        assert bad + one == bad;
      }
      GatherTallies(fields, h', lines[1..], bad + one, unknownError);
      assert bad + one + BadLines(fields, h', lines[1..], unknownError) == bad + (one + BadLines(fields, h', lines[1..], unknownError));
    }
  }

  lemma TalliesData(h: Harvest, bad: seq<string>, d: Data)
    requires Tallies(h, bad)
    ensures Tallies(h.(data := d), bad)
  {}

  /**
   The count is the number of bad lines modulo 2^16, and the first line is the
   first bad one; a counter that has wrapped starts again with the line that
   took it to 1.
   */
  lemma ErrorsCounted(fields: seq<Field>, d: Data, b: string, unknownError: bool)
    requires ValidFields(fields) && Sized(fields, d)
    ensures var h, bad := Harvested(fields, d, b, unknownError), AllBadLines(fields, d, b, unknownError);
            && Tallies(h, bad)
            && (0 < |bad| <= U16 ==> h.first == Some(bad[0]))
  {
    hide Gather, ParseField, Segments, BadLines;
    var h := Identified(fields, d, b);
    var bad := if h.errors == 1 then [Segments(b)[0]] else [];
    assert Tallies(h, bad);
    GatherTallies(fields, h, DataLines(b), bad, unknownError);
  }

  /** The line at a reported position; a position beyond the data has none. */
  function ReportedLine(text: string, position: nat, end: nat): string
    requires end <= |text|
  {
    if position <= end then LineText(text, position, end) else ""
  }

  /** The positions where bad lines start, in the order in which the cursors find them. */
  function ScanFaults(fields: seq<Field>, d: Data, text: string, lineStart: nat, lineEnd: nat, end: nat, unknownError: bool): seq<nat>
    requires ValidFields(fields) && Sized(fields, d) && lineEnd <= end <= |text|
    decreases end - lineEnd
  {
    if lineEnd < end then
      if text[lineEnd] == '\r' || (text[lineEnd] == '\n' && lineStart <= lineEnd) then
        var (d', res) := LineAt(fields, d, text, lineStart, lineEnd, unknownError);
        if res.Fail? then [lineStart] + ScanFaults(fields, d', text, lineEnd + 1, lineEnd + 1, end, unknownError)
        else ScanFaults(fields, d', text, lineStart + res.next, lineEnd + 1, end, unknownError)
      else
        ScanFaults(fields, d, text, lineStart, lineEnd + 1, end, unknownError)
    else if lineEnd != lineStart && LineAt(fields, d, text, lineStart, lineEnd, unknownError).1.Fail? then [lineStart]
    else []
  }

  function Faults(fields: seq<Field>, d: Data, text: string, start: nat, end: nat, unknownError: bool): seq<nat>
    requires ValidFields(fields) && Sized(fields, d) && start <= end <= |text|
  {
    var e := Skip(NotEol, text[..end], start);
    if e == end then ScanFaults(fields, d, text, start, end, end, unknownError) else
    var (d', res) := ParseField(fields, d, IndexOf(fields, IDENTIFICATION, 0), text[start..e], text[e..]);
    (if res.Fail? then [start] else []) + ScanFaults(fields, d', text, e + 1, e + 1, end, unknownError)
  }

  /** A report that agrees with a list of positions. */
  predicate Tells(report: Report, faults: seq<nat>) {
    && report.fieldErrors == |faults| % U16
    && report.firstLine == if faults == [] then None else Some(faults[(|faults| - 1) / U16 * U16])
  }

  lemma TellsOneMore(report: Report, faults: seq<nat>, line: nat)
    requires Tells(report, faults)
    ensures Tells(report.Add(line), faults + [line])
  {
    var more := faults + [line];
    if |faults| % U16 == 0 {
      assert (|more| - 1) / U16 * U16 == |faults|;
    } else {
      assert (|more| - 1) / U16 == (|faults| - 1) / U16;
      assert more[(|faults| - 1) / U16 * U16] == faults[(|faults| - 1) / U16 * U16];
    }
  }

  lemma {:induction false} ScanTells(fields: seq<Field>, d: Data, report: Report, faults: seq<nat>, text: string,
                                     lineStart: nat, lineEnd: nat, end: nat, unknownError: bool)
    requires ValidFields(fields) && Sized(fields, d) && lineEnd <= end <= |text| && Tells(report, faults)
    ensures Tells(Scan(fields, d, report, text, lineStart, lineEnd, end, unknownError).1,
                  faults + ScanFaults(fields, d, text, lineStart, lineEnd, end, unknownError))
    decreases end - lineEnd
  {
    hide LineAt, Tells, Report.Add;
    var (d', res) := LineAt(fields, d, text, lineStart, lineEnd, unknownError);
    TellsOneMore(report, faults, lineStart);
    assert faults + [] == faults;
    if lineEnd < end {
      ScanTells(fields, d, report, faults, text, lineStart, lineEnd + 1, end, unknownError);
      if res.Fail? {
        ScanTells(fields, d', report.Add(lineStart), faults + [lineStart], text, lineEnd + 1, lineEnd + 1, end, unknownError);
        Associative(faults, [lineStart], ScanFaults(fields, d', text, lineEnd + 1, lineEnd + 1, end, unknownError));
      } else {
        ScanTells(fields, d', report, faults, text, lineStart + res.next, lineEnd + 1, end, unknownError);
      }
    }
  }

  /** For every list of fields, the report counts the bad lines modulo 2^16 and points to the first one. */
  lemma {:induction false} FaultsCounted(fields: seq<Field>, d: Data, text: string, start: nat, end: nat, unknownError: bool)
    requires ValidFields(fields) && Sized(fields, d) && start <= end <= |text|
    ensures Tells(DataPart(fields, d, text, start, end, unknownError).1, Faults(fields, d, text, start, end, unknownError))
  {
    hide ParseField, Scan, ScanFaults, Tells, Report.Add;
    NothingTold();
    TellsOneMore(CLEAN, [], start);
    assert [] + [start] == [start];
    var e := Skip(NotEol, text[..end], start);
    if e == end {
      ScanTells(fields, d, CLEAN, [], text, start, end, end, unknownError);
      assert [] + Faults(fields, d, text, start, end, unknownError) == Faults(fields, d, text, start, end, unknownError);
    } else {
      var (d', res) := ParseField(fields, d, IndexOf(fields, IDENTIFICATION, 0), text[start..e], text[e..]);
      var report, faults := if res.Fail? then CLEAN.Add(start) else CLEAN, if res.Fail? then [start] else [];
      ScanTells(fields, d', report, faults, text, e + 1, e + 1, end, unknownError);
    }
  }

  lemma NothingTold()
    ensures Tells(CLEAN, [])
  {}

  function LinesAt(text: string, positions: seq<nat>, end: nat): seq<string>
    requires end <= |text|
  {
    if positions == [] then [] else [ReportedLine(text, positions[0], end)] + LinesAt(text, positions[1..], end)
  }

  lemma {:induction false} LineAtPosition(text: string, positions: seq<nat>, end: nat, i: nat)
    requires end <= |text|
    ensures |LinesAt(text, positions, end)| == |positions|
    ensures i < |positions| ==> LinesAt(text, positions, end)[i] == ReportedLine(text, positions[i], end)
  {
    hide ReportedLine;
    if positions != [] {
      LineAtPosition(text, positions[1..], end, if i == 0 then 0 else i - 1);
    }
  }

  lemma {:induction false} FaultsSkip(fields: seq<Field>, d: Data, text: string, lineStart: nat, from: nat, to: nat, end: nat, unknownError: bool)
    requires ValidFields(fields) && Sized(fields, d) && from <= to <= end <= |text|
    requires forall i :: from <= i < to ==> NotEol(text[i])
    ensures ScanFaults(fields, d, text, lineStart, from, end, unknownError) == ScanFaults(fields, d, text, lineStart, to, end, unknownError)
    decreases end - from
  {
    hide LineAt;
    if from < to {
      FaultsSkip(fields, d, text, lineStart, from + 1, to, end, unknownError);
    }
  }

  lemma {:induction false} LineFault(fields: seq<Field>, h: Harvest, text: string, lineStart: nat, lineEnd: nat, end: nat, unknownError: bool)
    requires SingleLineFields(fields) && Sized(fields, h.data) && lineStart <= lineEnd <= end <= |text|
    requires (forall i :: lineStart <= i < lineEnd ==> NotEol(text[i])) && (lineEnd < end ==> IsEol(text[lineEnd]))
    ensures var line := text[lineStart..lineEnd];
            ScanFaults(fields, h.data, text, lineStart, lineStart, end, unknownError) ==
              (if DataLine(fields, h.data, line, "", unknownError).1.Fail? then [lineStart] else [])
              + if lineEnd == end then [] else
                  ScanFaults(fields, Absorb(fields, h, line, unknownError).data, text, lineEnd + 1, lineEnd + 1, end, unknownError)
  {
    hide DataLine, StandsAlone, LineAt;
    var line, d := text[lineStart..lineEnd], h.data;
    SingleStandsAlone(fields, d, line);
    LineWithinLine(fields, d, line, text[lineEnd..], unknownError);
    FaultsSkip(fields, d, text, lineStart, lineStart, lineEnd, end, unknownError);
    var (d', res) := LineAt(fields, d, text, lineStart, lineEnd, unknownError);
    LineAtIs(fields, d, text, lineStart, lineEnd, unknownError);
    assert (d', res) == DataLine(fields, d, line, "", unknownError);
    assert Absorb(fields, h, line, unknownError).data == d';
    if lineEnd < end {
      assert res.Ok? ==> lineStart + res.next == lineEnd + 1;
      var more := ScanFaults(fields, d', text, lineEnd + 1, lineEnd + 1, end, unknownError);
      assert ScanFaults(fields, d, text, lineStart, lineEnd, end, unknownError) == if res.Fail? then [lineStart] + more else more;
      assert [] + more == more;
    } else if line == "" {
      BlankIsNoFault(fields, d, unknownError);
    }
  }

  lemma LineAtIs(fields: seq<Field>, d: Data, text: string, lineStart: nat, lineEnd: nat, unknownError: bool)
    requires ValidFields(fields) && Sized(fields, d) && lineStart <= lineEnd <= |text|
    ensures LineAt(fields, d, text, lineStart, lineEnd, unknownError)
         == DataLine(fields, d, text[lineStart..lineEnd], text[lineEnd..], unknownError)
  {
    hide DataLine;
  }

  lemma SingleStandsAlone(fields: seq<Field>, d: Data, line: string)
    requires SingleLineFields(fields) && Sized(fields, d)
    ensures StandsAlone(fields, d, line)
  {
    hide ParseId;
  }

  lemma BlankIsNoFault(fields: seq<Field>, d: Data, unknownError: bool)
    requires ValidFields(fields) && Sized(fields, d)
    ensures DataLine(fields, d, "", "", unknownError).1.Ok?
  {}

  lemma {:induction false} ScanFaultLines(fields: seq<Field>, h: Harvest, text: string, lineStart: nat, end: nat, unknownError: bool)
    requires SingleLineFields(fields) && Sized(fields, h.data) && lineStart <= end <= |text|
    ensures LinesAt(text, ScanFaults(fields, h.data, text, lineStart, lineStart, end, unknownError), end)
         == BadLines(fields, h, Segments(text[lineStart..end]), unknownError)
    decreases end - lineStart
  {
    hide DataLine, LineText, Segments, ScanFaults, Absorb, BadLines, LinesAt;
    var lineEnd := Skip(NotEol, text[..end], lineStart);
    assert forall i :: lineStart <= i < lineEnd ==> text[..end][i] == text[i];
    assert lineEnd < end ==> text[..end][lineEnd] == text[lineEnd];
    SegmentsFrom(text, lineStart, lineEnd, end);
    LineFault(fields, h, text, lineStart, lineEnd, end, unknownError);
    var line := text[lineStart..lineEnd];
    if lineEnd < end {
      var h' := Absorb(fields, h, line, unknownError);
      ScanFaultLines(fields, h', text, lineEnd + 1, end, unknownError);
      LinesPush(text, lineStart, ScanFaults(fields, h'.data, text, lineEnd + 1, lineEnd + 1, end, unknownError), end);
      BadLinesPush(fields, h, line, Segments(text[lineEnd + 1..end]), unknownError);
    } else {
      LinesPush(text, lineStart, [], end);
      BadLinesPush(fields, h, line, [], unknownError);
      NothingBad(fields, Absorb(fields, h, line, unknownError), text, end, unknownError);
      assert [line] + [] == [line];
    }
  }

  lemma {:induction false} LinesPush(text: string, position: nat, more: seq<nat>, end: nat)
    requires position <= end <= |text|
    ensures LinesAt(text, [position] + more, end) == [LineText(text, position, end)] + LinesAt(text, more, end)
    ensures LinesAt(text, [] + more, end) == LinesAt(text, more, end)
  {
    hide LineText;
    assert ([position] + more)[1..] == more && [] + more == more;
  }

  lemma {:induction false} BadLinesPush(fields: seq<Field>, h: Harvest, line: string, more: seq<string>, unknownError: bool)
    requires ValidFields(fields) && Sized(fields, h.data)
    ensures BadLines(fields, h, [line] + more, unknownError) ==
              (if DataLine(fields, h.data, line, "", unknownError).1.Fail? then [line] else [])
              + BadLines(fields, Absorb(fields, h, line, unknownError), more, unknownError)
  {
    hide DataLine, Absorb;
    assert ([line] + more)[1..] == more;
  }

  lemma {:induction false} NothingBad(fields: seq<Field>, h: Harvest, text: string, end: nat, unknownError: bool)
    requires ValidFields(fields) && Sized(fields, h.data) && end <= |text|
    ensures BadLines(fields, h, [], unknownError) == [] && LinesAt(text, [], end) == []
  {}

  /** With single-line fields these are the lines that are bad one by one. */
  lemma {:induction false} FaultsAreBadLines(fields: seq<Field>, d: Data, text: string, start: nat, end: nat, unknownError: bool)
    requires SingleLineFields(fields) && Sized(fields, d) && start <= end <= |text|
    ensures LinesAt(text, Faults(fields, d, text, start, end, unknownError), end)
         == AllBadLines(fields, d, text[start..end], unknownError)
  {
    hide ScanFaults, ParseField, LineText, Segments, BadLines;
    var e := Skip(NotEol, text[..end], start);
    assert forall i :: start <= i < e ==> text[..end][i] == text[i];
    assert e < end ==> text[..end][e] == text[e];
    SegmentsFrom(text, start, e, end);
    if e == end {
      FaultsSkip(fields, d, text, start, start, end, end, unknownError);
      ScanFaultLines(fields, Harvest(d, 0, None), text, start, end, unknownError);
      var bad := BadLines(fields, Harvest(d, 0, None), Segments(text[start..end]), unknownError);
      assert [] + bad == bad;
    } else {
      var line, more := text[start..e], Segments(text[e + 1..end]);
      FieldWithinLine(fields, d, IndexOf(fields, IDENTIFICATION, 0), line, text[e..]);
      assert ([line] + more)[1..] == more && DataLines(text[start..end]) == more;
      var h := Identified(fields, d, text[start..end]);
      ScanFaultLines(fields, h, text, e + 1, end, unknownError);
      var rest := ScanFaults(fields, h.data, text, e + 1, e + 1, end, unknownError);
      assert ([start] + rest)[1..] == rest && [] + rest == rest;
    }
  }

  // ------------------------------------------- the first complete line wins

  predicate DistinctIds(fields: seq<Field>) {
    forall i, j :: 0 <= i < j < |fields| ==> fields[i].id != fields[j].id
  }

  /** The text after the id of a line. */
  function Body(line: string): string
    requires ParseId(line).Ok?
  {
    From(line, ParseId(line).next)
  }

  /** The line has the id of the field and its value takes up the rest of the line. */
  predicate CompleteLine(f: Field, line: string)
    requires f.shape.Valid()
  {
    && ParseId(line).Ok? && ParseId(line).value == f.id
    && var r := Decode(f.shape, BLANK, Body(line), "");
       r.result.Ok? && r.result.next == |Body(line)| && !r.absent
  }

  function LineValue(f: Field, line: string): Value
    requires f.shape.Valid() && CompleteLine(f, line)
  {
    Decode(f.shape, BLANK, Body(line), "").value
  }

  function FirstComplete(f: Field, lines: seq<string>, k: nat): (i: nat)
    requires f.shape.Valid() && k <= |lines|
    ensures k <= i <= |lines|
    decreases |lines| - k
  {
    if k == |lines| || CompleteLine(f, lines[k]) then k else FirstComplete(f, lines, k + 1)
  }

  lemma {:induction false} FirstCompleteMeans(f: Field, lines: seq<string>, k: nat)
    requires f.shape.Valid() && k <= |lines|
    ensures var i := FirstComplete(f, lines, k);
            (i < |lines| ==> CompleteLine(f, lines[i])) && forall j :: k <= j < i ==> !CompleteLine(f, lines[j])
    decreases |lines| - k
  {
    hide CompleteLine;
    if k < |lines| && !CompleteLine(f, lines[k]) {
      FirstCompleteMeans(f, lines, k + 1);
    }
  }

  lemma {:induction false} IndexIs(fields: seq<Field>, i: nat, k: nat)
    requires DistinctIds(fields) && k <= i < |fields|
    ensures IndexOf(fields, fields[i].id, k) == i
    decreases i - k
  {
    if k < i {
      IndexIs(fields, i, k + 1);
    }
  }

  /** Parts of a value that the shape never writes are as they were at first. */
  predicate Clean(shape: Shape, v: Value) {
    match shape
    case StringShape(_, _) => v.number == 0
    case TimestampShape => v.number == 0
    case FixedShape(_) => v.text == ""
    case IntShape(_, _) => v.text == ""
    case OptionalIntShape(_, _) => v.text == ""
    case RawShape => v == BLANK
    case _ => true
  }

  lemma DecodeClean(shape: Shape, was: Value, s: string)
    requires shape.Valid() && shape.SingleLine() && Clean(shape, was)
    ensures var r, b := Decode(shape, was, s, ""), Decode(shape, BLANK, s, "");
            && r.result == b.result && r.absent == b.absent
            && (r.result.Ok? && !r.absent ==> r.value == b.value)
            && (!shape.RawShape? ==> Clean(shape, r.value))
            && (r.result.Ok? && r.result.next == 0 ==> |s| == 0)
            && (r.absent ==> r.value == was)
            && (shape.RawShape? ==> r.result.Ok? && r.result.next == |s| && !r.absent)
  {
    hide StringValue, Number, Timestamp, Stamp, UpToNul;
    OutcomeIgnoresOldValue(shape, was, BLANK, s, "");
    SingleLineBound(shape, was, s, "", "");
    match shape {
      case StringShape(min, max) => StringBound(min, max, s);
      case TimestampShape => TimestampBound(s);
      case FixedShape(unit) => NumberBound(3, unit, s);
      case StampedShape(unit) => StampedBound(was, unit, s);
      case DoubleLineShape(_) =>
      case IntShape(unit, _) => NumberBound(0, unit, s);
      case OptionalIntShape(unit, _) => NumberBound(0, unit, s);
      case OptionalStampedShape(unit) => StampedBound(was, unit, s);
      case RawShape =>
    }
  }

  lemma TimestampBound(s: string)
    ensures Timestamp(s).Ok? ==> Timestamp(s).next >= 2
  {
    hide StringValue, DlmsText;
    StringBound(12, 13, s);
    StringBound(24, 24, s);
  }

  /** What has become of field i: settled by the first complete line, or still open. */
  predicate Settled(f: Field, lines: seq<string>, present: bool, value: Value)
    requires f.shape.Valid()
  {
    var k := FirstComplete(f, lines, 0);
    if k < |lines| then FirstCompleteMeans(f, lines, 0); present && value == LineValue(f, lines[k])
    else !present && Clean(f.shape, value)
  }

  lemma {:induction false} FirstCompletePush(f: Field, lines: seq<string>, line: string, k: nat)
    requires f.shape.Valid() && k <= |lines|
    ensures var i := FirstComplete(f, lines, k);
            FirstComplete(f, lines + [line], k) ==
              if i < |lines| then i else if CompleteLine(f, line) then |lines| else |lines| + 1
    decreases |lines| - k
  {
    hide CompleteLine;
    if k < |lines| {
      FirstCompletePush(f, lines, line, k + 1);
    }
  }

  lemma OtherFieldUntouched(fields: seq<Field>, d: Data, i: nat, s: string, rest: string, j: nat)
    requires ValidFields(fields) && Sized(fields, d) && i <= |fields| && j < |fields| && i != j
    ensures ParseField(fields, d, i, s, rest).0.present[j] == d.present[j]
    ensures ParseField(fields, d, i, s, rest).0.values[j] == d.values[j]
  {
    hide Decode;
  }

  /** A line only ever touches the field that has its id. */
  lemma {:induction false} OtherFieldsUntouched(fields: seq<Field>, d: Data, line: string, rest: string, unknownError: bool, j: nat)
    requires ValidFields(fields) && Sized(fields, d) && j < |fields|
    requires ParseId(line).Ok? ==> IndexOf(fields, ParseId(line).value, 0) != j
    ensures DataLine(fields, d, line, rest, unknownError).0.present[j] == d.present[j]
    ensures DataLine(fields, d, line, rest, unknownError).0.values[j] == d.values[j]
  {
    hide ParseId, ParseField;
    if line != "" && ParseId(line).Ok? {
      OtherFieldUntouched(fields, d, IndexOf(fields, ParseId(line).value, 0), From(line, ParseId(line).next), rest, j);
    }
  }

  lemma {:induction false} OwnField(fields: seq<Field>, d: Data, line: string, i: nat)
    requires SingleLineFields(fields) && Sized(fields, d) && i < |fields| && !d.present[i]
    requires ParseId(line).Ok? && IndexOf(fields, ParseId(line).value, 0) == i
    ensures var d', r := DataLine(fields, d, line, "", false).0, Decode(fields[i].shape, d.values[i], Body(line), "");
            && d'.values[i] == r.value
            && d'.present[i] == (r.result.Ok? && !r.absent && (r.result.next == 0 || r.result.next == |Body(line)|))
  {
    hide ParseId, Decode;
    NoIdInBlank();
    IdWithinLine(line);
    FieldWithinLine(fields, d, i, Body(line), "");
  }

  /** What a line does to its own field when that is not present yet. */
  lemma {:induction false} OwnLine(fields: seq<Field>, d: Data, line: string, i: nat)
    requires SingleLineFields(fields) && Sized(fields, d) && i < |fields|
    requires ParseId(line).Ok? && IndexOf(fields, ParseId(line).value, 0) == i && ParseId(line).value == fields[i].id
    requires !d.present[i] && Clean(fields[i].shape, d.values[i])
    ensures var f, d' := fields[i], DataLine(fields, d, line, "", false).0;
            && d'.present[i] == CompleteLine(f, line)
            && (CompleteLine(f, line) ==> d'.values[i] == LineValue(f, line))
            && (!CompleteLine(f, line) ==> Clean(f.shape, d'.values[i]))
  {
    hide ParseId, Decode, Clean, DataLine;
    var f := fields[i];
    OwnField(fields, d, line, i);
    DecodeClean(f.shape, d.values[i], Body(line));
    var r := Decode(f.shape, d.values[i], Body(line), "");
    if r.result.Ok? && r.result.next == |Body(line)| && !r.absent {
      assert CompleteLine(f, line);
    } else {
      assert !CompleteLine(f, line) && !f.shape.RawShape?;
    }
  }

  lemma StepSettles(fields: seq<Field>, d: Data, line: string, lines: seq<string>, i: nat)
    requires SingleLineFields(fields) && DistinctIds(fields) && Sized(fields, d) && i < |fields|
    requires Settled(fields[i], lines, d.present[i], d.values[i])
    ensures var d' := DataLine(fields, d, line, "", false).0;
            Settled(fields[i], lines + [line], d'.present[i], d'.values[i])
  {
    hide ParseId, Decode, FirstComplete, Clean, DataLine;
    var f := fields[i];
    FirstCompletePush(f, lines, line, 0);
    assert FirstComplete(f, lines, 0) < |lines| ==>
      (lines + [line])[FirstComplete(f, lines, 0)] == lines[FirstComplete(f, lines, 0)];
    if ParseId(line).Ok? && ParseId(line).value == f.id {
      IndexIs(fields, i, 0);
      if d.present[i] {
        DuplicateIgnored(fields, d, line, i);
      } else {
        OwnLine(fields, d, line, i);
      }
    } else {
      OtherFieldsUntouched(fields, d, line, "", false, i);
    }
  }

  lemma {:induction false} DuplicateIgnored(fields: seq<Field>, d: Data, line: string, i: nat)
    requires ValidFields(fields) && Sized(fields, d) && i < |fields| && d.present[i]
    requires ParseId(line).Ok? && IndexOf(fields, ParseId(line).value, 0) == i
    ensures DataLine(fields, d, line, "", false).0 == d
    ensures DataLine(fields, d, line, "", false).1.Fail?
  {
    hide ParseId, Decode;
    NoIdInBlank();
  }

  lemma NoIdInBlank()
    ensures ParseId("").Fail?
  {}

  lemma {:induction false} GatherSettles(fields: seq<Field>, h: Harvest, lines: seq<string>, i: nat)
    requires SingleLineFields(fields) && DistinctIds(fields) && Sized(fields, h.data) && i < |fields|
    requires !h.data.present[i] && Clean(fields[i].shape, h.data.values[i])
    ensures var g := Gather(fields, h, lines, false);
            Settled(fields[i], lines, g.data.present[i], g.data.values[i])
    decreases |lines|
  {
    hide DataLine, Clean, LineValue;
    if lines != [] {
      var front, last := lines[..|lines| - 1], lines[|lines| - 1];
      assert lines == front + [last];
      GatherSettles(fields, h, front, i);
      GatherAppend(fields, h, front, [last], false);
      var g := Gather(fields, h, front, false);
      GatherOne(fields, g, last, false);
      StepSettles(fields, g.data, last, front, i);
    }
  }

  /**
   The first complete line wins. From fresh fields with distinct ids, a
   single-line field other than the identification ends up present exactly
   when some data line is complete for it, and holds the value of the first
   such line, whatever the other lines are.
   */
  lemma FirstCompleteLineWins(fields: seq<Field>, d: Data, b: string, i: nat)
    requires SingleLineFields(fields) && DistinctIds(fields) && Sized(fields, d) && i < |fields|
    requires fields[i].id != IDENTIFICATION && !d.present[i] && d.values[i] == BLANK
    ensures var g := Harvested(fields, d, b, false).data;
            var lines, f := DataLines(b), fields[i];
            && (g.present[i] <==> exists k :: 0 <= k < |lines| && CompleteLine(f, lines[k]))
            && (forall k :: 0 <= k < |lines| && CompleteLine(f, lines[k]) && (forall j :: 0 <= j < k ==> !CompleteLine(f, lines[j]))
                  ==> g.values[i] == LineValue(f, lines[k]))
  {
    hide Gather, CompleteLine, LineValue, Segments, Decode, FirstComplete;
    FirstCompleteMeans(fields[i], DataLines(b), 0);
    IdentificationTouches(fields, d, b, i);
    GatherSettles(fields, Identified(fields, d, b), DataLines(b), i);
  }

  lemma IdentificationTouches(fields: seq<Field>, d: Data, b: string, i: nat)
    requires ValidFields(fields) && Sized(fields, d) && i < |fields| && fields[i].id != IDENTIFICATION
    ensures Identified(fields, d, b).data.present[i] == d.present[i]
    ensures Identified(fields, d, b).data.values[i] == d.values[i]
  {
    hide Segments, ParseField;
    if |Segments(b)| > 1 {
      OtherFieldUntouched(fields, d, IndexOf(fields, IDENTIFICATION, 0), Segments(b)[0], "", i);
    }
  }

  /** A value that takes up the whole text it is given, an absence sentinel included. */
  predicate Whole(shape: Shape, s: string)
    requires shape.Valid()
  {
    var r := Decode(shape, BLANK, s, "");
    r.result.Ok? && r.result.next == |s|
  }

  lemma OnlyRawTakesNothing(shape: Shape, was: Value, s: string)
    requires shape.Valid() && shape.SingleLine() && !shape.RawShape?
    ensures Decode(shape, was, s, "").result.Ok? ==> Decode(shape, was, s, "").result.next >= 2
  {
    hide StringValue, Number, Timestamp, Stamp, UpToNul;
    match shape {
      case StringShape(min, max) => StringBound(min, max, s);
      case TimestampShape => TimestampBound(s);
      case FixedShape(unit) => NumberBound(3, unit, s);
      case StampedShape(unit) => StampedBound(was, unit, s);
      case DoubleLineShape(_) =>
      case IntShape(unit, _) => NumberBound(0, unit, s);
      case OptionalIntShape(unit, _) => NumberBound(0, unit, s);
      case OptionalStampedShape(unit) => StampedBound(was, unit, s);
      case RawShape =>
    }
  }

  /**
   A line is bad exactly when it is not blank and has no proper id, or repeats
   a field that is present, or its value is malformed or followed by more. When
   unknown fields are errors, so are ids that nobody asked for, and a line
   without a value for a raw field.
   */
  lemma {:induction false} BadLineIff(fields: seq<Field>, d: Data, line: string, unknownError: bool)
    requires SingleLineFields(fields) && Sized(fields, d)
    ensures DataLine(fields, d, line, "", unknownError).1.Fail? <==>
              line != "" && (ParseId(line).Fail? ||
                var i := IndexOf(fields, ParseId(line).value, 0);
                if i == |fields| then unknownError
                else d.present[i] || !Whole(fields[i].shape, Body(line))
                     || (unknownError && fields[i].shape.RawShape? && Body(line) == ""))
    ensures ParseId(line).Ok? && IndexOf(fields, ParseId(line).value, 0) == |fields| ==>
              DataLine(fields, d, line, "", true) == (d, Fail(UnknownField, 0))
  {
    hide ParseId, Decode, Clean;
    NoIdInBlank();
    IdWithinLine(line);
    if ParseId(line).Ok? {
      var i := IndexOf(fields, ParseId(line).value, 0);
      FieldWithinLine(fields, d, i, Body(line), "");
      if i < |fields| {
        OutcomeIgnoresOldValue(fields[i].shape, d.values[i], BLANK, Body(line), "");
        BlankIsClean(fields[i].shape);
        DecodeClean(fields[i].shape, BLANK, Body(line));
        if !fields[i].shape.RawShape? {
          OnlyRawTakesNothing(fields[i].shape, BLANK, Body(line));
        }
      }
    }
  }

  lemma BlankIsClean(shape: Shape)
    ensures Clean(shape, BLANK)
  {}

  // ------------------------------------------------------------- two lines

  /** The data of a field that has just been read. */
  function WithValue(d: Data, i: nat, v: Value): Data
    requires i < |d.present| && i < |d.values|
  {
    Data(d.present[i := true], d.values[i := v])
  }

  /** The parts of a reading on two lines. */
  datatype Pair = Pair(id: seq<nat>, ts: string, g: string, a: string, b: string, vs: seq<nat>, unit: string,
                       eol: string, i: string, point: bool, d: string)
  {
    predicate Valid() {
      && 1 <= |id| <= 6 && (forall k :: 0 <= k < |id| ==> id[k] <= 255)
      && FirstLineOk(ts, g, a, b, vs, unit) && IsLineEnd(eol) && SecondLineOk(i, point, d)
      && All(NotEol, ts) && All(NotEol, g) && All(NotEol, unit)
    }

    function First(): string
      requires Valid()
    {
      PrintId(id) + FirstLine(ts, g, a, b, vs, unit)
    }

    function Second(): string {
      Bare(i, point, d)
    }

    function Text(): string
      requires Valid()
    {
      First() + eol + Second()
    }

    /** The time stamp and the digits of the second line in thousandths. */
    function Stores(): Value
      requires Valid()
    {
      Value(UpToNul(ts), Reading(i, d, 3, false))
    }

    predicate Of(f: Field)
      requires Valid()
    {
      f.shape.DoubleLineShape? && unit == Unit3(f.shape.unit) && f.id == Normalise(Padded(id))
    }
  }

  lemma DoubleDataLine(fields: seq<Field>, d: Data, i: nat, p: Pair, more: string, unknownError: bool)
    requires ValidFields(fields) && DistinctIds(fields) && Sized(fields, d) && i < |fields|
    requires p.Valid() && p.Of(fields[i]) && !d.present[i]
    requires more == "" || IsEol(more[0])
    ensures DataLine(fields, d, p.First(), p.eol + p.Second() + more, unknownError)
              == (WithValue(d, i, p.Stores()), Ok((), |p.Text()|))
  {
    hide ParseId, PrintId, FirstLine, DoubleLine, Bare, UpToNul, Normalise, Padded, Reading;
    var s := FirstLine(p.ts, p.g, p.a, p.b, p.vs, p.unit);
    FirstLineOpens(p.ts, p.g, p.a, p.b, p.vs, p.unit);
    PrintParseId(p.id, s);
    IndexIs(fields, i, 0);
    assert From(p.First(), |PrintId(p.id)|) == s;
    DoubleLineReads(d.values[i], fields[i].shape.unit, p.ts, p.g, p.a, p.b, p.vs, p.unit, p.eol, p.i, p.point, p.d, more);
    BareOpens(p.i, p.point, p.d);
  }

  lemma FirstLineOpens(ts: string, g: string, a: string, b: string, vs: seq<nat>, unit: string)
    requires 1 <= |vs|
    ensures |FirstLine(ts, g, a, b, vs, unit)| > 0 && FirstLine(ts, g, a, b, vs, unit)[0] == '('
  {}

  lemma BareOpens(i: string, point: bool, d: string)
    ensures |Bare(i, point, d)| >= 2
  {}

  /**
   A reading on two lines sets its field and adds no error, and parsing goes
   on at the end of its second line exactly as if the pair were one line.
   */
  lemma PairAsOneLine(fields: seq<Field>, d: Data, report: Report, text: string, k: nat, end: nat,
                                         i: nat, pair: Pair, unknownError: bool)
    requires ValidFields(fields) && DistinctIds(fields) && Sized(fields, d) && i < |fields|
    requires pair.Valid() && pair.Of(fields[i]) && !d.present[i]
    requires var p := k + |pair.Text()|;
             p < end <= |text| && text[k..p] == pair.Text() && IsEol(text[p])
    ensures var p := k + |pair.Text()|;
            Scan(fields, d, report, text, k, k, end, unknownError)
              == Scan(fields, WithValue(d, i, pair.Stores()), report, text, p, p, end, unknownError)
  {
    hide Scan, DataLine, PrintId, FirstLine, Bare, UpToNul, Normalise, Padded, Reading;
    var m, p := k + |pair.First()|, k + |pair.Text()|;
    var eol, q := pair.eol, pair.Second();
    PairLies(text, k, pair);
    ScanSkips(fields, d, report, text, k, k, m, end, unknownError);
    DoubleDataLine(fields, d, i, pair, text[p..], unknownError);
    ScanAtEol(fields, d, report, text, k, m, end, unknownError);
    ScanSkips(fields, WithValue(d, i, pair.Stores()), report, text, p, m + 1, p, end, unknownError);
  }

  /**
   When the data end inside the second line, and the text goes on beyond, the
   value is stored all the same; the cursor is past the end then, which counts
   as one bad line.
   */
  lemma {:induction false} PairCutByEnd(fields: seq<Field>, d: Data, report: Report, text: string, k: nat, end: nat,
                     i: nat, pair: Pair, unknownError: bool)
    requires ValidFields(fields) && DistinctIds(fields) && Sized(fields, d) && i < |fields|
    requires pair.Valid() && pair.Of(fields[i]) && !d.present[i]
    requires var p := k + |pair.Text()|;
             && k + |pair.First()| < end < p <= |text| && text[k..p] == pair.Text() && (p < |text| ==> IsEol(text[p]))
    ensures var p := k + |pair.Text()|;
            Scan(fields, d, report, text, k, k, end, unknownError) == (WithValue(d, i, pair.Stores()), report.Add(p))
  {
    hide DataLine, PrintId, FirstLine, Bare, UpToNul, Normalise, Padded, Reading;
    var m, p := k + |pair.First()|, k + |pair.Text()|;
    PairLies(text, k, pair);
    ScanSkips(fields, d, report, text, k, k, m, end, unknownError);
    DoubleDataLine(fields, d, i, pair, text[p..], unknownError);
    ScanAtEol(fields, d, report, text, k, m, end, unknownError);
    ScanSkips(fields, WithValue(d, i, pair.Stores()), report, text, p, m + 1, end, end, unknownError);
  }

  /** Two lines and the line end between them stand at k, where only a line feed can follow that line end. */
  predicate TwoLines(text: string, k: nat, line: string, eol: string, q: string) {
    var m, p := k + |line|, k + |line + eol + q|;
    && m < p <= |text| && text[k..m] == line && text[m..] == eol + q + text[p..]
    && (forall j :: k <= j < m ==> NotEol(text[j])) && IsEol(text[m])
    && (forall j :: m < j < p ==> NotEol(text[j]) || text[j] == '\n')
  }

  lemma PairLies(text: string, k: nat, pair: Pair)
    requires pair.Valid()
    requires k + |pair.Text()| <= |text| && text[k..k + |pair.Text()|] == pair.Text()
    ensures TwoLines(text, k, pair.First(), pair.eol, pair.Second())
  {
    hide PrintId, FirstLine, Bare, TwoLines;
    BareLine(pair.i, pair.point, pair.d);
    BareOpens(pair.i, pair.point, pair.d);
    LineHasNoEol(pair.id, pair.ts, pair.g, pair.a, pair.b, pair.vs, pair.unit);
    TwoLinesLie(text, k, pair.First(), pair.eol, pair.Second());
  }

  lemma TwoLinesLie(text: string, k: nat, line: string, eol: string, q: string)
    requires IsLineEnd(eol) && All(NotEol, q) && forall j :: 0 <= j < |line| ==> NotEol(line[j])
    requires k + |line + eol + q| <= |text| && text[k..k + |line + eol + q|] == line + eol + q
    ensures TwoLines(text, k, line, eol, q)
  {
    var m, p, n := k + |line|, k + |line + eol + q|, k + |line| + |eol|;
    assert forall j :: k <= j < p ==> text[j] == (line + eol + q)[j - k];
    assert forall j :: k <= j < m ==> text[j] == line[j - k];
    assert forall j :: m <= j < n ==> text[j] == eol[j - m];
    assert forall j :: n <= j < p ==> text[j] == q[j - n];
    assert forall j :: 0 <= j < |q| ==> NotEol(q[j]);
  }

  lemma ScanAtEol(fields: seq<Field>, d: Data, report: Report, text: string, lineStart: nat, lineEnd: nat, end: nat, unknownError: bool)
    requires ValidFields(fields) && Sized(fields, d) && lineStart <= lineEnd < end <= |text| && IsEol(text[lineEnd])
    requires DataLine(fields, d, text[lineStart..lineEnd], text[lineEnd..], unknownError).1.Ok?
    ensures var (d', res) := DataLine(fields, d, text[lineStart..lineEnd], text[lineEnd..], unknownError);
            Scan(fields, d, report, text, lineStart, lineEnd, end, unknownError)
              == Scan(fields, d', report, text, lineStart + res.next, lineEnd + 1, end, unknownError)
  {
    hide DataLine;
  }

  lemma LineHasNoEol(id: seq<nat>, ts: string, g: string, a: string, b: string, vs: seq<nat>, unit: string)
    requires 1 <= |id| <= 6 && 1 <= |vs| <= 6
    requires All(NotEol, ts) && All(NotEol, g) && All(IsDigit, a) && All(IsDigit, b) && All(NotEol, unit)
    ensures var line := PrintId(id) + FirstLine(ts, g, a, b, vs, unit);
            forall j :: 0 <= j < |line| ==> NotEol(line[j])
  {
    hide PrintId;
    IdHasNoEol(0, Numerals(id));
    IdHasNoEol(0, Numerals(vs));
    assert PrintId(id) == Join(0, Numerals(id)) && PrintId(vs) == Join(0, Numerals(vs)) by { PrintIdIs(id); PrintIdIs(vs); }
    NoEolInGroup(ts);
    NoEolInGroup(g);
    NoEolInGroup(a);
    NoEolInGroup(b);
    NoEolInGroup(PrintId(vs));
    NoEolInGroup(unit);
  }

  lemma {:induction false} PrintIdIs(vs: seq<nat>)
    requires 1 <= |vs|
    ensures PrintId(vs) == Join(0, Numerals(vs))
  {}

  lemma NoEolInGroup(x: string)
    requires All(NotEol, x)
    ensures All(NotEol, Group(x))
  {}

  lemma {:induction false} IdHasNoEol(part: nat, cs: seq<string>)
    requires 1 <= |cs| && forall k :: 0 <= k < |cs| ==> All(IsDigit, cs[k])
    ensures All(NotEol, Join(part, cs))
    decreases |cs|
  {
    if |cs| > 1 {
      IdHasNoEol(part + 1, cs[1..]);
    }
  }

  // ----------------------------------------- a telegram with both kinds of lines

  /** A line that stands alone, or a reading on two lines, and the character that ends it. */
  datatype Item = Alone(line: string, end: char) | Double(pair: Pair, end: char) {

    predicate Valid() {
      IsEol(end) && if Alone? then All(NotEol, line) else pair.Valid()
    }

    function Text(): string
      requires Valid()
    {
      (if Alone? then line else pair.Text()) + [end]
    }
  }

  function ItemsText(items: seq<Item>): string
    requires forall i :: 0 <= i < |items| ==> items[i].Valid()
  {
    if items == [] then "" else items[0].Text() + ItemsText(items[1..])
  }

  function PairField(fields: seq<Field>, p: Pair): (i: nat)
    requires p.Valid()
    ensures i <= |fields|
  {
    IndexOf(fields, Normalise(Padded(p.id)), 0)
  }

  /** A reading on two lines is for a field of that shape that is still absent. */
  predicate Readable(fields: seq<Field>, d: Data, item: Item)
    requires Sized(fields, d)
  {
    && item.Valid()
    && match item
       case Alone(line, _) => StandsAlone(fields, d, line)
       case Double(p, _) => var i := PairField(fields, p); i < |fields| && p.Of(fields[i]) && !d.present[i]
  }

  function AbsorbItem(fields: seq<Field>, h: Harvest, item: Item, unknownError: bool): (r: Harvest)
    requires ValidFields(fields) && Sized(fields, h.data) && Readable(fields, h.data, item)
    ensures Sized(fields, r.data)
  {
    match item
    case Alone(line, _) => Absorb(fields, h, line, unknownError)
    case Double(p, _) => h.(data := WithValue(h.data, PairField(fields, p), p.Stores()))
  }

  predicate AllReadable(fields: seq<Field>, h: Harvest, items: seq<Item>, unknownError: bool)
    requires ValidFields(fields) && Sized(fields, h.data)
    decreases |items|
  {
    items != [] ==>
      Readable(fields, h.data, items[0]) && AllReadable(fields, AbsorbItem(fields, h, items[0], unknownError), items[1..], unknownError)
  }

  function GatherItems(fields: seq<Field>, h: Harvest, items: seq<Item>, unknownError: bool): (r: Harvest)
    requires ValidFields(fields) && Sized(fields, h.data) && AllReadable(fields, h, items, unknownError)
    ensures Sized(fields, r.data)
    decreases |items|
  {
    if items == [] then h
    else GatherItems(fields, AbsorbItem(fields, h, items[0], unknownError), items[1..], unknownError)
  }

  lemma {:induction false} ReadableIsValid(fields: seq<Field>, h: Harvest, items: seq<Item>, unknownError: bool)
    requires ValidFields(fields) && Sized(fields, h.data) && AllReadable(fields, h, items, unknownError)
    ensures forall i :: 0 <= i < |items| ==> items[i].Valid()
    decreases |items|
  {
    hide StandsAlone, Item.Valid;
    if items != [] {
      ReadableIsValid(fields, AbsorbItem(fields, h, items[0], unknownError), items[1..], unknownError);
      assert forall i :: 1 <= i < |items| ==> items[i] == items[1..][i - 1];
    }
  }

  lemma ScanItem(fields: seq<Field>, h: Harvest, report: Report, text: string, k: nat, end: nat,
                                    item: Item, unknownError: bool) returns (report': Report)
    requires ValidFields(fields) && DistinctIds(fields) && Sized(fields, h.data) && Readable(fields, h.data, item)
    requires var n := k + |item.Text()|;
             n <= end <= |text| && text[k..n] == item.Text() && SameReport(text, end, report, h)
    ensures var n, h' := k + |item.Text()|, AbsorbItem(fields, h, item, unknownError);
            && SameReport(text, end, report', h')
            && Scan(fields, h.data, report, text, k, k, end, unknownError)
                 == Scan(fields, h'.data, report', text, n, n, end, unknownError)
  {
    hide Scan, Absorb, LineText, StandsAlone, Pair.Valid, Pair.Text, Pair.Stores, Pair.Of;
    var n := k + |item.Text()|;
    assert text[n - 1] == text[k..n][n - 1 - k] == item.end;
    assert text[k..n - 1] == text[k..n][..n - 1 - k];
    match item {
      case Alone(line, _) =>
        assert text[k..n - 1] == line;
        assert forall i :: k <= i < n - 1 ==> text[i] == line[i - k];
        report' := ScanLine(fields, h, report, text, k, n - 1, end, unknownError);
      case Double(p, _) =>
        assert text[k..n - 1] == p.Text();
        report' := ScanPair(fields, h, report, text, k, end, p, unknownError);
    }
  }

  lemma ScanPair(fields: seq<Field>, h: Harvest, report: Report, text: string, k: nat, end: nat,
                                    p: Pair, unknownError: bool) returns (report': Report)
    requires ValidFields(fields) && DistinctIds(fields) && Sized(fields, h.data) && p.Valid()
    requires var i := PairField(fields, p); i < |fields| && p.Of(fields[i]) && !h.data.present[i]
    requires var n := k + |p.Text()|;
             n < end <= |text| && text[k..n] == p.Text() && IsEol(text[n]) && SameReport(text, end, report, h)
    ensures var n, h' := k + |p.Text()| + 1, h.(data := WithValue(h.data, PairField(fields, p), p.Stores()));
            && SameReport(text, end, report', h')
            && Scan(fields, h.data, report, text, k, k, end, unknownError)
                 == Scan(fields, h'.data, report', text, n, n, end, unknownError)
  {
    hide Scan, Absorb, LineText, StandsAlone, Pair.Valid, Pair.Text, Pair.Stores, Pair.Of;
    var n := k + |p.Text()|;
    PairAsOneLine(fields, h.data, report, text, k, end, PairField(fields, p), p, unknownError);
    var h' := h.(data := WithValue(h.data, PairField(fields, p), p.Stores()));
    EmptyStandsAlone(fields, h'.data);
    assert text[n..n] == "";
    report' := ScanLine(fields, h', report, text, n, n, end, unknownError);
    BlankLine(fields, h', unknownError);
  }

  lemma EmptyStandsAlone(fields: seq<Field>, d: Data)
    requires Sized(fields, d)
    ensures StandsAlone(fields, d, "")
  {
    hide ParseId;
    NoIdInBlank();
  }

  lemma {:induction false} ScanItems(fields: seq<Field>, h: Harvest, report: Report, text: string, k: nat, end: nat,
                                     items: seq<Item>, last: string, unknownError: bool)
    requires ValidFields(fields) && DistinctIds(fields) && Sized(fields, h.data) && AllReadable(fields, h, items, unknownError)
    requires All(NotEol, last) && StandsAlone(fields, GatherItems(fields, h, items, unknownError).data, last)
    requires k <= end <= |text| && SameReport(text, end, report, h)
    requires (forall i :: 0 <= i < |items| ==> items[i].Valid()) && text[k..end] == ItemsText(items) + last
    ensures var (d, r) := Scan(fields, h.data, report, text, k, k, end, unknownError);
            var g := Absorb(fields, GatherItems(fields, h, items, unknownError), last, unknownError);
            d == g.data && SameReport(text, end, r, g)
    decreases |items|
  {
    hide Scan, Absorb, LineText, StandsAlone, AbsorbItem, Readable, SameReport, Item.Valid, Item.Text;
    if items == [] {
      assert text[k..end] == last;
      assert forall i :: k <= i < end ==> text[i] == last[i - k];
      var _ := ScanLine(fields, h, report, text, k, end, end, unknownError);
    } else {
      var n := k + |items[0].Text()|;
      assert text[k..n] == text[k..end][..n - k] == items[0].Text();
      assert text[n..end] == text[k..end][n - k..] == ItemsText(items[1..]) + last;
      var report' := ScanItem(fields, h, report, text, k, end, items[0], unknownError);
      ScanItems(fields, AbsorbItem(fields, h, items[0], unknownError), report', text, n, end, items[1..], last, unknownError);
    }
  }

  lemma FirstLineLies(text: string, start: nat, end: nat, first: string, c: char, more: string)
    requires start <= end <= |text| && text[start..end] == first + [c] + more && All(NotEol, first) && IsEol(c)
    ensures var e := start + |first|;
            && e < end && Skip(NotEol, text[..end], start) == e && text[start..e] == first && text[e + 1..end] == more
            && LineText(text, start, end) == first
  {
    var e, b := start + |first|, text[start..end];
    assert forall i :: start <= i < e ==> text[i] == b[i - start] == first[i - start];
    assert text[e] == b[|first|] == c;
    SkipIs(NotEol, text[..end], start, e);
    SliceOfSlice(text, start, end, 0, |first|);
    SliceOfSlice(text, start, end, |first| + 1, |b|);
    assert b[0..|first|] == first && b[|first| + 1..|b|] == more;
  }

  /** The identification line, in a telegram that goes on after it. */
  function IdentifiedBy(fields: seq<Field>, d: Data, line: string): (r: Harvest)
    requires ValidFields(fields) && Sized(fields, d)
    ensures Sized(fields, r.data)
  {
    var (d', res) := ParseField(fields, d, IndexOf(fields, IDENTIFICATION, 0), line, "");
    Counted(Harvest(d, 0, None), d', res.Fail?, line)
  }

  /**
   Split and fold for telegrams in which readings on two lines stand among
   other lines: each pair is absorbed as one line that only stores its value.
   */
  lemma {:induction false} SplitWithPairs(fields: seq<Field>, d: Data, text: string, start: nat, end: nat,
                                          first: string, c: char, items: seq<Item>, last: string, unknownError: bool)
    requires ValidFields(fields) && DistinctIds(fields) && Sized(fields, d) && start <= end <= |text|
    requires var i := IndexOf(fields, IDENTIFICATION, 0);
             i < |fields| && !d.present[i] ==> fields[i].shape.SingleLine()
    requires var h := IdentifiedBy(fields, d, first);
             && AllReadable(fields, h, items, unknownError)
             && StandsAlone(fields, GatherItems(fields, h, items, unknownError).data, last)
    requires All(NotEol, first) && IsEol(c) && All(NotEol, last) && forall i :: 0 <= i < |items| ==> items[i].Valid()
    requires text[start..end] == first + [c] + ItemsText(items) + last
    ensures var (d', report) := DataPart(fields, d, text, start, end, unknownError);
            var g := Absorb(fields, GatherItems(fields, IdentifiedBy(fields, d, first), items, unknownError), last, unknownError);
            d' == g.data && SameReport(text, end, report, g)
  {
    hide Scan, Absorb, LineText, StandsAlone, AllReadable, GatherItems, ParseField, Item.Valid, ItemsText;
    var e := start + |first|;
    assert text[start..end] == first + [c] + (ItemsText(items) + last);
    FirstLineLies(text, start, end, first, c, ItemsText(items) + last);
    FieldWithinLine(fields, d, IndexOf(fields, IDENTIFICATION, 0), first, text[e..]);
    var h := IdentifiedBy(fields, d, first);
    var report := if h.errors == 1 then CLEAN.Add(start) else CLEAN;
    ScanItems(fields, h, report, text, e + 1, end, items, last, unknownError);
  }
}
