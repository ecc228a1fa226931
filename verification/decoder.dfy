/**
 ValueDecoder of fields3.cpp and the field shapes of fields3.h. The source
 stores through references; here a decoder is given the old value and returns
 the new one, so that what a failed parse leaves behind stays visible.
 */
module Decoder {
  import opened Text
  import opened Checksum
  import opened Numbers
  import opened Obis

  /** Storage of a field: a String or a time stamp, and a number. */
  datatype Value = Value(text: string, number: nat)

  const BLANK := Value("", 0)

  datatype Shape =
    | StringShape(min: nat, max: nat)
    | TimestampShape
    | FixedShape(unit: string)
    | StampedShape(unit: string)
    | DoubleLineShape(unit: string)
    | IntShape(unit: string, modulus: nat)
    | OptionalIntShape(unit: string, modulus: nat)
    | OptionalStampedShape(unit: string)
    | RawShape
  {
    /** An integer field is stored in an unsigned type of the given size. */
    predicate Valid() {
      (IntShape? || OptionalIntShape?) ==> modulus > 0
    }

    /** Every shape but one stays within its line. */
    predicate SingleLine() {
      !DoubleLineShape?
    }
  }

  /** The outcome, the value afterwards, and whether the field takes itself to be absent. */
  datatype Decoded = Decoded(result: Parsed<()>, value: Value, absent: bool)

  function Done<T>(p: Parsed<T>): Parsed<()> {
    match p
    case Ok(_, n) => Ok((), n)
    case Fail(e, c) => Fail(e, c)
  }

  /** The text from position k on; nothing when the cursor has passed the end. */
  function From(s: string, k: nat): string {
    if k <= |s| then s[k..] else ""
  }

  // -------------------------------------------------------------- timestamp

  /** hexByte: the byte whose two digits start at offset, or -1. */
  function HexByte(v: string, offset: nat): (b: int)
    ensures -1 <= b <= 255
  {
    if offset + 1 >= |v| then -1 else
    var high, low := HexNibble(v[offset]), HexNibble(v[offset + 1]);
    if high < 0 || low < 0 then -1 else high * 16 + low
  }

  /** The first of bytes i..12 that is not hexadecimal, or 12. */
  function FirstBadByte(v: string, i: nat): (r: nat)
    requires i <= 12
    ensures i <= r <= 12
    ensures forall k :: i <= k < r ==> HexByte(v, 2 * k) >= 0
    decreases 12 - i
  {
    if i == 12 || HexByte(v, 2 * i) < 0 then i else FirstBadByte(v, i + 1)
  }

  predicate DateInRange(year: int, month: int, day: int, hour: int, minute: int, second: int) {
    && 2000 <= year <= 2099 && 1 <= month <= 12 && 1 <= day <= 31
    && hour <= 23 && minute <= 59 && second <= 59
  }

  function TwoDigits(n: int): string
    requires 0 <= n < 100
  {
    [('0' as int + n / 10) as char, ('0' as int + n % 10) as char]
  }

  /** YYMMDDhhmmss and the season. */
  function DateText(year: int, month: int, day: int, hour: int, minute: int, second: int, summer: bool): string
    requires DateInRange(year, month, day, hour, minute, second) && hour >= 0 && minute >= 0 && second >= 0
  {
    TwoDigits(year % 100) + TwoDigits(month) + TwoDigits(day)
    + TwoDigits(hour) + TwoDigits(minute) + TwoDigits(second) + [if summer then 'S' else 'W']
  }

  /** A 12-byte DLMS date-time (section 4.1.6.1 of IEC 62056-6-2) in hexadecimal. */
  function DlmsText(v: string): Parsed<string> {
    var bad := FirstBadByte(v, 0);
    if bad < 12 then Fail(InvalidDateTime, 1 + bad * 2) else
    var year := HexByte(v, 0) * 256 + HexByte(v, 2);
    if !DateInRange(year, HexByte(v, 4), HexByte(v, 6), HexByte(v, 10), HexByte(v, 12), HexByte(v, 14)) then
      Fail(InvalidDateTime, 1)
    else
      assert HexByte(v, 2 * 5) >= 0 && HexByte(v, 2 * 6) >= 0 && HexByte(v, 2 * 7) >= 0;
      Ok(DateText(year, HexByte(v, 4), HexByte(v, 6), HexByte(v, 10), HexByte(v, 12), HexByte(v, 14), HexByte(v, 22) >= 0x80), 0)
  }

  function Timestamp(s: string): Parsed<string> {
    var regular := StringValue(12, 13, s);
    if regular.Ok? then regular else
    var dlms := StringValue(24, 24, s);
    if dlms.Fail? then dlms else
    match DlmsText(dlms.value)
    case Ok(text, _) => Ok(text, dlms.next)
    case Fail(e, c) => Fail(e, c)
  }

  /** Fill a buffer of twelve bytes, up to the first one that is not hexadecimal. */
  method ReadBytes(v: string) returns (bytes: array<int>, bad: nat)
    ensures fresh(bytes) && bytes.Length == 12 && bad == FirstBadByte(v, 0) <= 12
    ensures forall k :: 0 <= k < bad ==> bytes[k] == HexByte(v, 2 * k) >= 0
  {
    hide HexByte;
    bytes := new int[12];
    for i := 0 to 12
      invariant forall k :: 0 <= k < i ==> bytes[k] == HexByte(v, 2 * k) >= 0
      invariant FirstBadByte(v, 0) == FirstBadByte(v, i)
    {
      var b := HexByte(v, i * 2);
      if b < 0 {
        return bytes, i;
      }
      bytes[i] := b;
    }
    bad := 12;
  }

  method DecodeTimestamp(s: string) returns (res: Parsed<string>)
    ensures res == Timestamp(s)
  {
    hide FirstBadByte, HexByte, StringValue, DateText;
    var regular := ParseString(12, 13, s);
    if regular.Ok? {
      return regular;
    }
    var dlms := ParseString(24, 24, s);
    if dlms.Fail? {
      return dlms;
    }
    var v := dlms.value;
    var bytes, bad := ReadBytes(v);
    if bad < 12 {
      return Fail(InvalidDateTime, 1 + bad * 2);
    }
    var b0, b1, b2, b3 := bytes[0], bytes[1], bytes[2], bytes[3];
    var b5, b6, b7, b11 := bytes[5], bytes[6], bytes[7], bytes[11];
    assert b0 == HexByte(v, 2 * 0) && b1 == HexByte(v, 2 * 1) && b2 == HexByte(v, 2 * 2) && b3 == HexByte(v, 2 * 3);
    assert b5 == HexByte(v, 2 * 5) && b6 == HexByte(v, 2 * 6) && b7 == HexByte(v, 2 * 7) && b11 == HexByte(v, 2 * 11);
    var year := b0 * 256 + b1;
    if year < 2000 || year > 2099 || b2 < 1 || b2 > 12 || b3 < 1 || b3 > 31 || b5 > 23 || b6 > 59 || b7 > 59 {
      return Fail(InvalidDateTime, 1);
    }
    res := Ok(DateText(year, b2, b3, b5, b6, b7, b11 >= 0x80), dlms.next);
  }

  // ------------------------------------------------------------ one decoder

  /** A time stamp of 13 or else of 12 characters. */
  function Stamp(s: string): Parsed<string> {
    var long := StringValue(13, 13, s);
    if long.Ok? then long else StringValue(12, 12, s)
  }

  function Stamped(was: Value, unit: string, s: string): Decoded {
    var ts := Stamp(s);
    if ts.Ok? then
      match Number(3, unit, From(s, ts.next)).Shift(ts.next)
      case Ok(n, next) => Decoded(Ok((), next), Value(ts.value, n), false)
      case Fail(e, c) => Decoded(Fail(e, c), was.(text := ts.value), false)
    else
      match Number(3, unit, s)
      case Fail(e, c) => Decoded(Fail(e, c), was, false)
      case Ok(n, next) =>
        match Stamp(From(s, next)).Shift(next)
        case Ok(text, end) => Decoded(Ok((), end), Value(text, n), false)
        case Fail(e, c) => Decoded(Fail(e, c), was.(number := n), false)
  }

  /** The part of a two-line reading that is on its first line, from the second group on. */
  function DoubleHead(unit: string, s: string, k: nat): Parsed<()> {
    var group := StringValue(0, 2, From(s, k)).Shift(k);
    if group.Fail? then Done(group) else
    var first := Number(0, "", From(s, group.next)).Shift(group.next);
    if first.Fail? then Done(first) else
    var second := Number(0, "", From(s, first.next)).Shift(first.next);
    if second.Fail? then Done(second) else
    DoubleUnit(unit, s, second.next + 1)
  }

  /** The id and the unit; k is the position after the parenthesis that opens the id. */
  function DoubleUnit(unit: string, s: string, k: nat): Parsed<()> {
    var id := ParseId(From(s, k)).Shift(k);
    if id.Fail? then Done(id) else UnitGroup(unit, From(s, id.next + 1)).Shift(id.next + 1)
  }

  /** The unit in parentheses, of which three characters count. */
  function UnitGroup(unit: string, s: string): Parsed<()> {
    var expected := if |unit| <= 3 then unit else unit[..3];
    var actual := StringValue(|expected|, |expected|, s);
    if actual.Fail? then Done(actual)
    else if actual.value != expected then Fail(InvalidUnit, 0)
    else Ok((), actual.next)
  }

  predicate CharAt(t: string, k: nat, c: char) {
    k < |t| && t[k] == c
  }

  /** Past one line ending, CR LF or either alone. */
  function PastEol(t: string, k: nat): nat {
    var j := if CharAt(t, k, '\r') then k + 1 else k;
    if CharAt(t, j, '\n') then j + 1 else j
  }

  /** Where the number of a two-line reading must end: never beyond the line that holds it. */
  function LineLimit(s: string, rest: string, k: nat): (n: nat)
    requires k <= |s| + |rest|
    ensures k <= n <= |s| + |rest|
  {
    if k <= |s| then Skip(NotEol, s, k) else Skip(NotEol, s + rest, k)
  }

  function DoubleLine(was: Value, unit: string, s: string, rest: string): Decoded {
    var ts := StringValue(12, 12, s);
    if ts.Fail? then Decoded(Done(ts), was, false) else
    var stamped := was.(text := ts.value);
    var head := DoubleHead(unit, s, ts.next);
    if head.Fail? || head.next > |s| then Decoded(head, stamped, false) else
    var t, start := s + rest, PastEol(s + rest, head.next);
    match Number(3, "", t[start..LineLimit(s, rest, start)]).Shift(start)
    case Ok(n, next) => Decoded(Ok((), next), stamped.(number := n), false)
    case Fail(e, c) => Decoded(Fail(e, c), stamped, false)
  }

  function Stored(was: Value, p: Parsed<nat>, modulus: nat): Decoded
    requires modulus > 0
  {
    match p
    case Ok(n, next) => Decoded(Ok((), next), was.(number := n % modulus), false)
    case Fail(e, c) => Decoded(Fail(e, c), was, false)
  }

  function Texted(was: Value, p: Parsed<string>): Decoded {
    match p
    case Ok(v, next) => Decoded(Ok((), next), was.(text := v), false)
    case Fail(e, c) => Decoded(Fail(e, c), was, false)
  }

  /**
   What a field of the given shape makes of s, the rest of its line; `rest` is
   the text that follows the line.
   */
  function Decode(shape: Shape, was: Value, s: string, rest: string): Decoded
    requires shape.Valid()
  {
    match shape
    case StringShape(min, max) => Texted(was, StringValue(min, max, s))
    case TimestampShape => Texted(was, Timestamp(s))
    case FixedShape(unit) => Stored(was, Number(3, unit, s), U32)
    case StampedShape(unit) => Stamped(was, unit, s)
    case DoubleLineShape(unit) => DoubleLine(was, unit, s, rest)
    case IntShape(unit, modulus) => Stored(was, Number(0, unit, s), modulus)
    case OptionalIntShape(unit, modulus) =>
      if s == "()" then Decoded(Ok((), 2), was, true) else Stored(was, Number(0, unit, s), modulus)
    case OptionalStampedShape(unit) =>
      if s == "(0)" then Decoded(Ok((), 3), was, true) else Stamped(was, unit, s)
    case RawShape => Decoded(Ok((), |s|), was.(text := was.text + UpToNul(s)), false)
  }

  // ------------------------------------------------------------ the methods

  method ParseStamp(s: string) returns (res: Parsed<string>)
    ensures res == Stamp(s)
  {
    res := ParseString(13, 13, s);
    if res.Fail? {
      res := ParseString(12, 12, s);
    }
  }

  method DecodeStamped(was: Value, unit: string, s: string) returns (res: Decoded)
    ensures res == Stamped(was, unit, s)
  {
    var value := was;
    var ts := ParseStamp(s);
    if ts.Ok? {
      value := value.(text := ts.value);
      var p := ParseNumber(3, unit, From(s, ts.next));
      if p.Ok? {
        value := value.(number := p.value);
      }
      return Decoded(Done(p.Shift(ts.next)), value, false);
    }
    var n := ParseNumber(3, unit, s);
    if n.Fail? {
      return Decoded(Done(n), value, false);
    }
    value := value.(number := n.value);
    ts := ParseStamp(From(s, n.next));
    if ts.Ok? {
      value := value.(text := ts.value);
    }
    res := Decoded(Done(ts.Shift(n.next)), value, false);
  }

  method ParseDoubleHead(unit: string, s: string, k: nat) returns (res: Parsed<()>)
    ensures res == DoubleHead(unit, s, k)
  {
    hide StringValue, Number, ParseId;
    var group := ParseString(0, 2, From(s, k));
    if group.Fail? {
      return Done(group.Shift(k));
    }
    var a := group.next + k;
    var number := ParseNumber(0, "", From(s, a));
    if number.Fail? {
      return Done(number.Shift(a));
    }
    var b := number.next + a;
    number := ParseNumber(0, "", From(s, b));
    if number.Fail? {
      return Done(number.Shift(b));
    }
    var c := number.next + b + 1;
    var id := ParseObis(From(s, c));
    if id.Fail? {
      return Done(id.Shift(c));
    }
    var d := id.next + c + 1;
    var unitSize := if |unit| <= 3 then |unit| else 3;
    var parsedUnit := ParseString(unitSize, unitSize, From(s, d));
    if parsedUnit.Fail? {
      return Done(parsedUnit.Shift(d));
    }
    if parsedUnit.value != unit[..unitSize] {
      return Fail(InvalidUnit, d);
    }
    res := Ok((), parsedUnit.next + d);
  }

  method DecodeDoubleLine(was: Value, unit: string, s: string, rest: string) returns (res: Decoded)
    ensures res == DoubleLine(was, unit, s, rest)
  {
    hide StringValue, Number, DoubleHead, Skip;
    var ts := ParseString(12, 12, s);
    if ts.Fail? {
      return Decoded(Done(ts), was, false);
    }
    var value := was.(text := ts.value);
    var head := ParseDoubleHead(unit, s, ts.next);
    if head.Fail? || head.next > |s| {
      return Decoded(head, value, false);
    }
    var t, start := s + rest, head.next;
    if start < |t| && t[start] == '\r' {
      start := start + 1;
    }
    if start < |t| && t[start] == '\n' {
      start := start + 1;
    }
    var newEnd := start;
    while newEnd != |s| && newEnd < |t| && t[newEnd] != '\r' && t[newEnd] != '\n'
      invariant start <= newEnd <= |t| && (start <= |s| ==> newEnd <= |s|)
      invariant forall i :: start <= i < newEnd ==> NotEol(t[i])
      decreases |t| - newEnd
    {
      newEnd := newEnd + 1;
    }
    if start <= |s| {
      assert forall i :: start <= i < newEnd ==> s[i] == t[i];
      SkipIs(NotEol, s, start, newEnd);
    } else {
      SkipIs(NotEol, t, start, newEnd);
    }
    var number := ParseNumber(3, "", t[start..newEnd]);
    if number.Ok? {
      value := value.(number := number.value);
    }
    res := Decoded(Done(number.Shift(start)), value, false);
  }

  /** T::parse of a field; `absent` says that the field cleared its own present flag. */
  method DecodeField(shape: Shape, was: Value, s: string, rest: string) returns (res: Decoded)
    requires shape.Valid()
    ensures res == Decode(shape, was, s, rest)
  {
    hide Timestamp, Stamped, DoubleLine, Number, StringValue;
    match shape {
      case StringShape(min, max) =>
        var p := ParseString(min, max, s);
        res := Texted(was, p);
      case TimestampShape =>
        var p := DecodeTimestamp(s);
        res := Texted(was, p);
      case FixedShape(unit) =>
        var p := ParseNumber(3, unit, s);
        res := Stored(was, p, U32);
      case StampedShape(unit) =>
        res := DecodeStamped(was, unit, s);
      case DoubleLineShape(unit) =>
        res := DecodeDoubleLine(was, unit, s, rest);
      case IntShape(unit, modulus) =>
        var p := ParseNumber(0, unit, s);
        res := Stored(was, p, modulus);
      case OptionalIntShape(unit, modulus) =>
        if |s| == 2 && s[0] == '(' && s[1] == ')' {
          assert s == "()";
          return Decoded(Ok((), |s|), was, true);
        }
        var p := ParseNumber(0, unit, s);
        res := Stored(was, p, modulus);
      case OptionalStampedShape(unit) =>
        if |s| == 3 && s[0] == '(' && s[1] == '0' && s[2] == ')' {
          assert s == "(0)";
          return Decoded(Ok((), |s|), was, true);
        }
        res := DecodeStamped(was, unit, s);
      case RawShape =>
        res := Decoded(Ok((), |s|), was.(text := was.text + UpToNul(s)), false);
    }
  }
}
