/**
 P1Parser of parser3.h: one data line, the data part of a telegram, and a
 complete telegram with its checksum.
 */
module Telegram {
  import opened Crc16
  import opened Text
  import opened Checksum
  import opened Obis
  import opened Decoder
  import opened Fields

  const U16: nat := 0x1_0000

  /** The part of ParseResult that collects bad lines; positions are in the whole text. */
  datatype Report = Report(fieldErrors: nat, firstLine: Option<nat>) {

    /** addFieldError, with its 16-bit counter. */
    function Add(line: nat): Report {
      var n := (fieldErrors + 1) % U16;
      Report(n, if n == 1 then Some(line) else firstLine)
    }
  }

  const CLEAN := Report(0, None)

  // ---------------------------------------------------------- one data line

  /** parse_line on the text of a line; `rest` is what follows the line. */
  function DataLine(fields: seq<Field>, d: Data, line: string, rest: string, unknownError: bool): (r: (Data, Parsed<()>))
    requires ValidFields(fields) && Sized(fields, d)
    ensures Sized(fields, r.0)
  {
    if line == "" then (d, Ok((), 1)) else
    var id := ParseId(line);
    if id.Fail? then (d, Done(id)) else
    var i := IndexOf(fields, id.value, 0);
    var (d', res) := ParseField(fields, d, i, From(line, id.next), rest);
    if res.Fail? then (d', res.Shift(id.next)) else
    var next := res.next + id.next;
    if res.next != 0 && next > |line| then (d', Ok((), next))
    else if res.next != 0 && next != |line| then (Cleared(fields, d', i), Fail(TrailingCharacters, next))
    else if res.next == 0 && unknownError then (d', Fail(UnknownField, 0))
    else (d', Ok((), |line| + 1))
  }

  method ParseLine(data: ParsedData, line: string, rest: string, unknownError: bool) returns (res: Parsed<()>)
    requires data.Valid()
    modifies data.present, data.values
    ensures (data.Contents(), res) == DataLine(data.fields, old(data.Contents()), line, rest, unknownError)
  {
    hide ParseField, ParseId, Cleared;
    if line == "" {
      return Ok((), 1);
    }
    var id := ParseObis(line);
    if id.Fail? {
      return Done(id);
    }
    var p := data.ParseLine(id.value, From(line, id.next), rest);
    if p.Fail? {
      return p.Shift(id.next);
    }
    var next := p.next + id.next;
    if p.next != 0 && next > |line| {
      return Ok((), next);
    } else if p.next != 0 && next != |line| {
      data.ClearPresent(0, id.value);
      return Fail(TrailingCharacters, next);
    } else if p.next == 0 && unknownError {
      return Fail(UnknownField, 0);
    }
    res := Ok((), |line| + 1);
  }

  // ---------------------------------------------------------- the data part

  /** parse_line between two cursors, which may have crossed. */
  function LineAt(fields: seq<Field>, d: Data, text: string, lineStart: nat, lineEnd: nat, unknownError: bool): (r: (Data, Parsed<()>))
    requires ValidFields(fields) && Sized(fields, d) && lineEnd <= |text|
    ensures Sized(fields, r.0)
  {
    if lineStart <= lineEnd then DataLine(fields, d, text[lineStart..lineEnd], text[lineEnd..], unknownError)
    else (d, Fail(ObisEmpty, 0))
  }

  method ParseLineAt(data: ParsedData, text: string, lineStart: nat, lineEnd: nat, unknownError: bool) returns (res: Parsed<()>)
    requires data.Valid() && lineEnd <= |text|
    modifies data.present, data.values
    ensures (data.Contents(), res) == LineAt(data.fields, old(data.Contents()), text, lineStart, lineEnd, unknownError)
  {
    if lineStart <= lineEnd {
      res := ParseLine(data, text[lineStart..lineEnd], text[lineEnd..], unknownError);
    } else {
      res := Fail(ObisEmpty, 0);
    }
  }

  /** The data lines from the cursors on: lineEnd advances over every character. */
  function Scan(fields: seq<Field>, d: Data, report: Report, text: string, lineStart: nat, lineEnd: nat, end: nat, unknownError: bool): (r: (Data, Report))
    requires ValidFields(fields) && Sized(fields, d) && lineEnd <= end <= |text|
    ensures Sized(fields, r.0)
    decreases end - lineEnd
  {
    if lineEnd < end then
      if text[lineEnd] == '\r' || (text[lineEnd] == '\n' && lineStart <= lineEnd) then
        var (d', res) := LineAt(fields, d, text, lineStart, lineEnd, unknownError);
        if res.Fail? then Scan(fields, d', report.Add(lineStart), text, lineEnd + 1, lineEnd + 1, end, unknownError)
        else Scan(fields, d', report, text, lineStart + res.next, lineEnd + 1, end, unknownError)
      else
        Scan(fields, d, report, text, lineStart, lineEnd + 1, end, unknownError)
    else if lineEnd != lineStart then
      var (d', res) := LineAt(fields, d, text, lineStart, lineEnd, unknownError);
      (d', if res.Fail? then report.Add(lineStart) else report)
    else
      (d, report)
  }

  /** parse_data on text[start..end]: the identification line, then the data lines. */
  function DataPart(fields: seq<Field>, d: Data, text: string, start: nat, end: nat, unknownError: bool): (r: (Data, Report))
    requires ValidFields(fields) && Sized(fields, d) && start <= end <= |text|
    ensures Sized(fields, r.0)
  {
    var e := Skip(NotEol, text[..end], start);
    if e == end then Scan(fields, d, CLEAN, text, start, end, end, unknownError) else
    var (d', res) := ParseField(fields, d, IndexOf(fields, IDENTIFICATION, 0), text[start..e], text[e..]);
    Scan(fields, d', if res.Fail? then CLEAN.Add(start) else CLEAN, text, e + 1, e + 1, end, unknownError)
  }

  method ParseData(data: ParsedData, text: string, start: nat, end: nat, unknownError: bool) returns (report: Report)
    requires data.Valid() && start <= end <= |text|
    modifies data.present, data.values
    ensures (data.Contents(), report) == DataPart(data.fields, old(data.Contents()), text, start, end, unknownError)
  {
    hide ParseField, LineAt, Report.Add;
    report := CLEAN;
    var lineEnd: nat, lineStart: nat := start, start;
    ghost var goal := DataPart(data.fields, data.Contents(), text, start, end, unknownError);

    while lineEnd < end
      invariant start <= lineEnd <= end && lineStart == start
      invariant forall i :: start <= i < lineEnd ==> NotEol(text[..end][i])
      invariant data.Contents() == old(data.Contents()) && report == CLEAN
    {
      if text[lineEnd] == '\r' || text[lineEnd] == '\n' {
        break;
      }
      lineEnd := lineEnd + 1;
    }
    SkipIs(NotEol, text[..end], start, lineEnd);
    if lineEnd < end {
      var res := data.ParseLine(IDENTIFICATION, text[lineStart..lineEnd], text[lineEnd..]);
      if res.Fail? {
        report := report.Add(lineStart);
      }
      lineEnd := lineEnd + 1;
      lineStart := lineEnd;
    }
    hide DataPart;

    while lineEnd < end
      invariant lineEnd <= end
      invariant Scan(data.fields, data.Contents(), report, text, lineStart, lineEnd, end, unknownError) == goal
    {
      if text[lineEnd] == '\r' || (text[lineEnd] == '\n' && lineStart <= lineEnd) {
        var res := ParseLineAt(data, text, lineStart, lineEnd, unknownError);
        if res.Fail? {
          report := report.Add(lineStart);
          lineStart := lineEnd + 1;
        } else {
          lineStart := lineStart + res.next;
        }
      }
      lineEnd := lineEnd + 1;
    }

    if lineEnd != lineStart {
      var res := ParseLineAt(data, text, lineStart, lineEnd, unknownError);
      if res.Fail? {
        report := report.Add(lineStart);
      }
    }
  }

  // --------------------------------------------------------------- telegram

  /** The verdict on a complete text; positions are in that text. */
  datatype Verdict = Rejected(err: Error, ctx: nat) | Accepted(dataEnd: nat, next: nat)

  /** Framing and checksum, which come before any field is looked at. */
  function Judge(text: string): (v: Verdict)
    ensures v.Accepted? ==> 1 <= v.dataEnd < v.next <= |text|
  {
    if text == "" || text[0] != '/' then Rejected(NoStart, 0) else
    var dataEnd := Skip(NotBang, text, 1);
    if dataEnd == |text| then Rejected(NoEndMarker, dataEnd) else
    var next := Skip(NotEol, text, dataEnd + 1);
    var suffix := text[dataEnd + 1..next];
    if suffix == "" then Accepted(dataEnd, next)
    else if |suffix| != CRC_LEN then Rejected(MalformedChecksum, dataEnd + 1)
    else match CrcParse(suffix)
      case Fail(e, c) => Rejected(e, c + dataEnd + 1)
      case Ok(check, _) =>
        if check != Crc(text[..dataEnd + 1]) then Rejected(ChecksumMismatch, dataEnd + 1)
        else Accepted(dataEnd, next)
  }

  datatype Outcome = Failed(err: Error, ctx: nat) | Parsed(report: Report, next: nat)

  /** What a complete parse leaves in the fields and what it returns. */
  function ParseAll(fields: seq<Field>, d: Data, text: string, unknownError: bool): (r: (Data, Outcome))
    requires ValidFields(fields) && Sized(fields, d)
    ensures Sized(fields, r.0)
  {
    match Judge(text)
    case Rejected(e, c) => (d, Failed(e, c))
    case Accepted(dataEnd, next) =>
      var (d', report) := DataPart(fields, d, text, 1, dataEnd, unknownError);
      (d', Outcome.Parsed(report, next))
  }

  method Check(text: string) returns (v: Verdict)
    ensures v == Judge(text)
  {
    hide Next, Octet, CrcParse, Fold;
    var n := |text|;
    if n == 0 || text[0] != '/' {
      return Rejected(NoStart, 0);
    }
    var dataEnd := 1;
    var crc := Update(0, Octet(text[0]));
    CrcStart(text);
    while dataEnd < n && text[dataEnd] != '!'
      invariant 1 <= dataEnd <= n && forall i :: 1 <= i < dataEnd ==> NotBang(text[i])
      invariant crc == Crc(text[..dataEnd])
    {
      CrcPush(text, dataEnd);
      crc := Update(crc, Octet(text[dataEnd]));
      dataEnd := dataEnd + 1;
    }
    SkipIs(NotBang, text, 1, dataEnd);
    assert dataEnd == Skip(NotBang, text, 1);
    if dataEnd >= n {
      return Rejected(NoEndMarker, dataEnd);
    }
    CrcPush(text, dataEnd);
    crc := Update(crc, Octet(text[dataEnd]));
    var next := dataEnd + 1;
    var crcStart := next;
    while next < n && text[next] != '\r' && text[next] != '\n'
      invariant crcStart <= next <= n && forall i :: crcStart <= i < next ==> NotEol(text[i])
    {
      next := next + 1;
    }
    SkipIs(NotEol, text, crcStart, next);
    var suffixLength := next - crcStart;
    assert suffixLength == |text[crcStart..next]|;
    if suffixLength != 0 {
      if suffixLength != CRC_LEN {
        return Rejected(MalformedChecksum, crcStart);
      }
      var check := CrcParse(text[crcStart..next]);
      if check.Fail? {
        return Rejected(check.err, check.ctx + crcStart);
      }
      if check.value != crc {
        return Rejected(ChecksumMismatch, crcStart);
      }
    }
    v := Accepted(dataEnd, next);
  }

  /** Nothing is stored before the telegram as a whole has been accepted. */
  method Parse(data: ParsedData, text: string, unknownError: bool) returns (res: Outcome)
    requires data.Valid()
    modifies data.present, data.values
    ensures (data.Contents(), res) == ParseAll(data.fields, old(data.Contents()), text, unknownError)
  {
    hide DataPart, Judge;
    var v := Check(text);
    match v {
      case Rejected(e, c) =>
        res := Failed(e, c);
      case Accepted(dataEnd, next) =>
        JudgeBounds(text);
        var report := ParseData(data, text, 1, dataEnd, unknownError);
        res := Outcome.Parsed(report, next);
    }
  }

  lemma JudgeBounds(text: string)
    ensures Judge(text).Accepted? ==> 1 <= Judge(text).dataEnd < Judge(text).next <= |text|
  {}

  lemma CrcPush(text: string, k: nat)
    requires k < |text|
    ensures Crc(text[..k + 1]) == Next(Crc(text[..k]), Octet(text[k]))
  {
    hide Next, Octet;
    assert text[..k + 1] == text[..k] + [text[k]];
    FoldPush(0, text[..k], text[k]);
  }

  lemma CrcStart(text: string)
    requires text != ""
    ensures Crc(text[..1]) == Next(0, Octet(text[0]))
  {
    hide Next, Octet;
    CrcPush(text, 0);
  }
}
