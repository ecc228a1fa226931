/**
 What the value decoders promise: bounds, the two orders of a stamped reading,
 DLMS date-times, and readings on two lines.
 */
module DecoderLaws {
  import opened Text
  import opened Checksum
  import opened Numbers
  import opened NumberLaws
  import opened Obis
  import opened ObisLaws
  import opened Decoder

  // ----------------------------------------------------------------- bounds

  lemma NumberBound(maxDecimals: nat, unit: string, s: string)
    ensures Number(maxDecimals, unit, s).Ok? ==> 2 <= Number(maxDecimals, unit, s).next <= |s|
  {
    hide Reading;
  }

  lemma StringBound(min: nat, max: nat, s: string)
    ensures StringValue(min, max, s).Ok? ==> 2 <= StringValue(min, max, s).next <= |s|
  {}

  lemma StampedBound(was: Value, unit: string, s: string)
    ensures var d := Stamped(was, unit, s);
            !d.absent && (d.result.Ok? ==> 2 <= d.result.next <= |s|)
  {
    hide StringValue, Number;
    StringBound(13, 13, s);
    StringBound(12, 12, s);
    NumberBound(3, unit, s);
    if Stamp(s).Ok? {
      NumberBound(3, unit, From(s, Stamp(s).next));
    } else if Number(3, unit, s).Ok? {
      StringBound(13, 13, From(s, Number(3, unit, s).next));
      StringBound(12, 12, From(s, Number(3, unit, s).next));
    }
  }

  /** A single-line field stays within its line and does not look beyond it. */
  lemma SingleLineBound(shape: Shape, was: Value, s: string, rest: string, rest': string)
    requires shape.Valid() && shape.SingleLine()
    ensures Decode(shape, was, s, rest) == Decode(shape, was, s, rest')
    ensures Decode(shape, was, s, rest).result.Ok? ==> Decode(shape, was, s, rest).result.next <= |s|
  {
    hide StringValue, Number, Stamped, DlmsText;
    match shape {
      case StringShape(min, max) => StringBound(min, max, s);
      case TimestampShape =>
        StringBound(12, 13, s);
        StringBound(24, 24, s);
      case FixedShape(unit) => NumberBound(3, unit, s);
      case StampedShape(unit) => StampedBound(was, unit, s);
      case DoubleLineShape(_) =>
      case IntShape(unit, _) => NumberBound(0, unit, s);
      case OptionalIntShape(unit, _) => NumberBound(0, unit, s);
      case OptionalStampedShape(unit) => StampedBound(was, unit, s);
      case RawShape =>
    }
  }

  /** Outcome and absence do not depend on what the field held before. */
  lemma OutcomeIgnoresOldValue(shape: Shape, was: Value, was': Value, s: string, rest: string)
    requires shape.Valid()
    ensures Decode(shape, was, s, rest).result == Decode(shape, was', s, rest).result
    ensures Decode(shape, was, s, rest).absent == Decode(shape, was', s, rest).absent
  {
    hide StringValue, Number, Timestamp, DoubleHead, LineLimit, PastEol, Stamp;
  }

  // ----------------------------------------------------------------- groups

  /** A value in parentheses. */
  function Group(x: string): string {
    "(" + x + ")"
  }

  lemma StringReads(min: nat, max: nat, x: string, tail: string)
    requires All(NotClose, x)
    ensures StringValue(min, max, Group(x) + tail) ==
            if min <= |x| <= max then Ok(UpToNul(x), |x| + 2) else Fail(InvalidStringLength, 1)
  {
    var s := Group(x) + tail;
    assert s[1..1 + |x|] == x;
    SkipWithin(NotClose, s, 1, x);
  }

  /** Nothing else is accepted: the text starts with such a group of a length within the bounds. */
  lemma StringOnly(min: nat, max: nat, s: string) returns (x: string)
    requires StringValue(min, max, s).Ok?
    ensures All(NotClose, x) && min <= |x| <= max
    ensures |x| + 2 <= |s| && s == Group(x) + s[|x| + 2..] && StringValue(min, max, s) == Ok(UpToNul(x), |x| + 2)
  {
    var n := Skip(NotClose, s, 1);
    x := s[1..n];
    assert s == ['('] + s[1..n] + [s[n]] + s[n + 1..];
  }

  lemma StringRefused(min: nat, max: nat, c: char, x: string)
    requires All(NotClose, x)
    ensures StringValue(min, max, "") == Fail(MissingOpen, 0)
    ensures c != '(' ==> StringValue(min, max, [c] + x) == Fail(MissingOpen, 0)
    ensures StringValue(min, max, "(" + x) == Fail(MissingClose, |x| + 1)
  {
    var s := "(" + x;
    assert s[1..] == x && s[1..1 + |x|] == x;
    SkipWithin(NotClose, s, 1, x);
  }

  /** A parenthesised number ends at the first closing parenthesis. */
  lemma NumberLocal(maxDecimals: nat, unit: string, x: string, tail: string)
    requires All(NotClose, x)
    ensures Number(maxDecimals, unit, Group(x) + tail) == Number(maxDecimals, unit, Group(x))
  {
    hide Skip, UnitAndClose, Group;
    var s, t := Group(x) + tail, Group(x);
    GroupCloses(x);
    assert forall i :: 0 <= i < |t| ==> s[i] == t[i];
    SkipLocal(IsDigit, s, t, 1, |x| + 1);
    var i := Skip(IsDigit, t, 1);
    SameSlice(s, t, 1, i);
    if maxDecimals > 0 && t[i] == '.' {
      SkipLocal(IsDigit, s, t, i + 1, |x| + 1);
      var j := Skip(IsDigit, t, i + 1);
      SameSlice(s, t, i + 1, j);
      UnitLocal(maxDecimals, unit, t[1..i], t[i + 1..j], s, t, j);
    } else {
      UnitLocal(maxDecimals, unit, t[1..i], "", s, t, i);
    }
  }

  lemma GroupCloses(x: string)
    requires All(NotClose, x)
    ensures var t := Group(x);
            |t| == |x| + 2 && t[0] == '(' && t[|x| + 1] == ')' && forall i :: 0 <= i <= |x| ==> t[i] != ')'
  {}

  lemma UnitLocal(maxDecimals: nat, unit: string, i: string, d: string, s: string, t: string, j: nat)
    requires All(IsDigit, i) && All(IsDigit, d)
    requires j < |t| <= |s| && t[|t| - 1] == ')' && forall i :: 0 <= i < |t| ==> s[i] == t[i]
    ensures UnitAndClose(maxDecimals, unit, i, d, s, j) == UnitAndClose(maxDecimals, unit, i, d, t, j)
  {
    hide Reading, Skip, All;
    var u := if t[j] == '*' then j + 1 else j;
    assert u < |t|;
    if unit != "" {
      SkipLocal(NotClose, s, t, u, |t| - 1);
      SameSlice(s, t, u, Skip(NotClose, t, u));
    }
  }

  lemma {:induction false} SkipLocal(p: char -> bool, s: string, t: string, k: nat, end: nat)
    requires k <= end < |t| <= |s| && !p(t[end])
    requires forall i :: k <= i <= end ==> s[i] == t[i]
    ensures Skip(p, s, k) == Skip(p, t, k) <= end
    decreases end - k
  {
    if p(t[k]) {
      SkipLocal(p, s, t, k + 1, end);
    }
  }

  // ------------------------------------------------------- stamped readings

  predicate IsStamp(ts: string) {
    All(NotClose, ts) && (|ts| == 12 || |ts| == 13)
  }

  /** The text of a number that cannot be taken for a time stamp. */
  predicate IsValue(unit: string, v: string, n: nat) {
    All(NotClose, v) && |v| != 12 && |v| != 13 && Number(3, unit, Group(v)) == Ok(n, |v| + 2)
  }

  lemma StampReads(x: string, tail: string)
    requires All(NotClose, x)
    ensures Stamp(Group(x) + tail) == if IsStamp(x) then Ok(UpToNul(x), |x| + 2) else Fail(InvalidStringLength, 1)
  {
    hide StringValue;
    StringReads(13, 13, x, tail);
    StringReads(12, 12, x, tail);
  }

  /** The text starts with a group of 12 or 13 characters. */
  predicate StampAhead(s: string) {
    s != "" && s[0] == '(' && var n := Skip(NotClose, s, 1); 13 <= n <= 14 && n < |s|
  }

  lemma {:induction false} StampMeans(s: string)
    ensures Stamp(s).Ok? <==> StampAhead(s)
    ensures StampAhead(s) ==> var n := Skip(NotClose, s, 1); Stamp(s) == Ok(UpToNul(s[1..n]), n + 1)
  {
    hide Skip;
  }

  /**
   A stamped reading is accepted exactly when a time stamp comes first and a
   number follows, or a number comes first and a time stamp follows.
   */
  lemma {:induction false} StampedMeans(was: Value, unit: string, s: string)
    ensures Stamped(was, unit, s).result.Ok? <==>
              if StampAhead(s) then Number(3, unit, s[Skip(NotClose, s, 1) + 1..]).Ok?
              else Number(3, unit, s).Ok? && StampAhead(From(s, Number(3, unit, s).next))
  {
    hide Number, Skip, Stamp;
    StampMeans(s);
    if Number(3, unit, s).Ok? {
      StampMeans(From(s, Number(3, unit, s).next));
    }
  }

  /** A value that no time stamp follows is refused, although its number has been stored. */
  lemma ValueNeedsStamp(was: Value, unit: string, v: string, n: nat, tail: string)
    requires IsValue(unit, v, n) && !StampAhead(tail)
    ensures Stamped(was, unit, Group(v) + tail).result.Fail?
    ensures Stamped(was, unit, Group(v) + tail).value == was.(number := n)
  {
    hide Number, Stamp, Group, UpToNul, StampAhead;
    GroupLength(v);
    StampReads(v, tail);
    NumberLocal(3, unit, v, tail);
    StampMeans(tail);
    assert From(Group(v) + tail, |v| + 2) == tail;
  }

  /** Length alone decides that the first group is the time stamp. */
  lemma FirstGroupByLength(was: Value, unit: string, x: string, tail: string)
    requires IsStamp(x)
    ensures Stamped(was, unit, Group(x) + tail).value.text == UpToNul(x)
    ensures Stamped(was, unit, Group(x) + tail).result == Done(Number(3, unit, tail).Shift(|x| + 2))
  {
    hide Number, Stamp;
    StampReads(x, tail);
    assert (Group(x) + tail)[|x| + 2..] == tail;
  }

  /** Both orders of time stamp and value are read as the same pair. */
  lemma EitherOrder(was: Value, unit: string, ts: string, v: string, n: nat, tail: string)
    requires IsStamp(ts) && IsValue(unit, v, n)
    ensures Stamped(was, unit, Group(ts) + Group(v) + tail)
         == Decoded(Ok((), |ts| + |v| + 4), Value(UpToNul(ts), n), false)
    ensures Stamped(was, unit, Group(v) + Group(ts) + tail)
         == Decoded(Ok((), |ts| + |v| + 4), Value(UpToNul(ts), n), false)
  {
    hide Number, Stamp, Group, UpToNul;
    var a, b := Group(ts), Group(v);
    assert |a| == |ts| + 2 && |b| == |v| + 2 by { GroupLength(ts); GroupLength(v); }
    assert a + b + tail == a + (b + tail) && (a + (b + tail))[|a|..] == b + tail;
    StampReads(ts, b + tail);
    NumberLocal(3, unit, v, tail);

    assert b + a + tail == b + (a + tail) && (b + (a + tail))[|b|..] == a + tail;
    StampReads(v, a + tail);
    NumberLocal(3, unit, v, a + tail);
    StampReads(ts, tail);
  }

  lemma GroupLength(x: string)
    ensures |Group(x)| == |x| + 2
  {}

  // ---------------------------------------------------------- DLMS date-time

  function NibbleChar(n: nat): (c: char)
    requires n < 16
    ensures HexNibble(c) == n && c != ')' && c != '\0'
  {
    if n < 10 then ('0' as int + n) as char else ('A' as int + (n - 10)) as char
  }

  predicate IsByte(b: int) {
    0 <= b <= 255
  }

  function Hex(bytes: seq<int>): (s: string)
    requires forall k :: 0 <= k < |bytes| ==> IsByte(bytes[k])
    ensures |s| == 2 * |bytes| && All(NotClose, s) && All(NotNul, s)
    ensures forall k :: 0 <= k < |bytes| ==> HexByte(s, 2 * k) == bytes[k]
  {
    if bytes == [] then "" else
    var last := bytes[|bytes| - 1];
    assert IsByte(last);
    var front := Hex(bytes[..|bytes| - 1]);
    var s := front + [NibbleChar(last / 16), NibbleChar(last % 16)];
    assert forall k :: 0 <= k < |bytes| - 1 ==> HexByte(s, 2 * k) == HexByte(front, 2 * k);
    s
  }

  lemma {:induction false} NoBadByte(v: string, i: nat)
    requires i <= 12 && forall k :: i <= k < 12 ==> HexByte(v, 2 * k) >= 0
    ensures FirstBadByte(v, i) == 12
    decreases 12 - i
  {
    hide HexByte;
    if i < 12 {
      NoBadByte(v, i + 1);
    }
  }

  predicate IsDate(year: int, month: int, day: int, hour: int, minute: int, second: int) {
    DateInRange(year, month, day, hour, minute, second) && hour >= 0 && minute >= 0 && second >= 0
  }

  /** The twelve bytes; weekday, hundredths, deviation and the rest of the status are arbitrary. */
  predicate Encodes(bytes: seq<int>, year: int, month: int, day: int, hour: int, minute: int, second: int, summer: bool) {
    && |bytes| == 12 && (forall k :: 0 <= k < 12 ==> IsByte(bytes[k]))
    && year == bytes[0] * 256 + bytes[1] && month == bytes[2] && day == bytes[3]
    && hour == bytes[5] && minute == bytes[6] && second == bytes[7] && summer == (bytes[11] >= 0x80)
  }

  lemma {:induction false} DlmsReads(bytes: seq<int>, year: int, month: int, day: int, hour: int, minute: int, second: int, summer: bool, tail: string)
    requires Encodes(bytes, year, month, day, hour, minute, second, summer)
    requires IsDate(year, month, day, hour, minute, second)
    ensures Timestamp(Group(Hex(bytes)) + tail) == Ok(DateText(year, month, day, hour, minute, second, summer), 26)
  {
    hide HexByte, FirstBadByte, DateText, StringValue, Hex, DlmsText;
    var v := Hex(bytes);
    StringReads(12, 13, v, tail);
    StringReads(24, 24, v, tail);
    assert UpToNul(v) == v by { SkipIs(NotNul, v, 0, |v|); }
    DlmsOfHex(v, bytes, year, month, day, hour, minute, second, summer);
  }

  lemma DlmsOfHex(v: string, bytes: seq<int>, year: int, month: int, day: int, hour: int, minute: int, second: int, summer: bool)
    requires Encodes(bytes, year, month, day, hour, minute, second, summer)
    requires IsDate(year, month, day, hour, minute, second)
    requires forall k :: 0 <= k < 12 ==> HexByte(v, 2 * k) == bytes[k]
    ensures DlmsText(v) == Ok(DateText(year, month, day, hour, minute, second, summer), 0)
  {
    hide HexByte, FirstBadByte, DateText;
    NoBadByte(v, 0);
    assert HexByte(v, 2 * 0) == bytes[0] && HexByte(v, 2 * 1) == bytes[1] && HexByte(v, 2 * 2) == bytes[2];
    assert HexByte(v, 2 * 3) == bytes[3] && HexByte(v, 2 * 5) == bytes[5] && HexByte(v, 2 * 6) == bytes[6];
    assert HexByte(v, 2 * 7) == bytes[7] && HexByte(v, 2 * 11) == bytes[11];
  }

  function TwoDigitValue(s: string, k: nat): int
    requires k + 1 < |s|
  {
    (s[k] as int - '0' as int) * 10 + (s[k + 1] as int - '0' as int)
  }

  /** The components are recovered from the text, and the text has 13 characters. */
  lemma DateTextRecovers(year: int, month: int, day: int, hour: int, minute: int, second: int, summer: bool)
    requires IsDate(year, month, day, hour, minute, second)
    ensures var t := DateText(year, month, day, hour, minute, second, summer);
            && |t| == 13
            && 2000 + TwoDigitValue(t, 0) == year && TwoDigitValue(t, 2) == month && TwoDigitValue(t, 4) == day
            && TwoDigitValue(t, 6) == hour && TwoDigitValue(t, 8) == minute && TwoDigitValue(t, 10) == second
            && (t[12] == 'S' <==> summer) && (t[12] == 'W' <==> !summer)
  {}

  /** Whatever is accepted is a time stamp of 12 or 13 characters, and 13 if it came in 24. */
  lemma TimestampLength(s: string)
    requires Timestamp(s).Ok?
    ensures StringValue(12, 13, s).Fail? ==> |Timestamp(s).value| == 13 && Timestamp(s).next == 26
  {
    hide FirstBadByte, HexByte;
  }

  /** The byte that two hexadecimal digits denote. */
  function ByteAt(v: string, k: nat): int
    requires 2 * k + 1 < |v|
  {
    16 * HexNibble(v[2 * k]) + HexNibble(v[2 * k + 1])
  }

  /** Twelve pairs of hexadecimal digits whose date and time are in range. */
  predicate IsDlmsDate(v: string) {
    && |v| == 24 && All(IsHex, v)
    && 2000 <= 256 * ByteAt(v, 0) + ByteAt(v, 1) <= 2099
    && 1 <= ByteAt(v, 2) <= 12 && 1 <= ByteAt(v, 3) <= 31
    && ByteAt(v, 5) <= 23 && ByteAt(v, 6) <= 59 && ByteAt(v, 7) <= 59
  }

  lemma {:induction false} BytesAreHex(v: string)
    requires |v| <= 24
    ensures FirstBadByte(v, 0) == 12 <==> |v| == 24 && All(IsHex, v)
    ensures |v| == 24 && All(IsHex, v) ==> forall k :: 0 <= k < 12 ==> HexByte(v, 2 * k) == ByteAt(v, k)
  {
    if |v| == 24 && All(IsHex, v) {
      assert forall k :: 0 <= k < 12 ==> IsHex(v[2 * k]) && IsHex(v[2 * k + 1]);
      NoBadByte(v, 0);
    }
    if FirstBadByte(v, 0) == 12 {
      assert HexByte(v, 2 * 11) >= 0;
      forall i | 0 <= i < |v|
        ensures IsHex(v[i])
      {
        assert HexByte(v, 2 * (i / 2)) >= 0;
        assert i == 2 * (i / 2) || i == 2 * (i / 2) + 1;
      }
    }
  }

  lemma DlmsTextMeans(v: string)
    requires |v| <= 24
    ensures DlmsText(v).Ok? <==> IsDlmsDate(v)
  {
    hide FirstBadByte, HexByte, DateText, HexNibble;
    BytesAreHex(v);
    if |v| == 24 && All(IsHex, v) {
      assert HexByte(v, 2 * 0) == ByteAt(v, 0) && HexByte(v, 2 * 1) == ByteAt(v, 1) && HexByte(v, 2 * 2) == ByteAt(v, 2);
      assert HexByte(v, 2 * 3) == ByteAt(v, 3) && HexByte(v, 2 * 5) == ByteAt(v, 5) && HexByte(v, 2 * 6) == ByteAt(v, 6);
      assert HexByte(v, 2 * 7) == ByteAt(v, 7);
    }
  }

  /**
   An ordinary time stamp of 12 or 13 characters is stored as it is; any other
   group is accepted exactly when it is a DLMS date-time in hexadecimal.
   */
  lemma TimestampReads(x: string, tail: string)
    requires All(NotClose, x)
    ensures 12 <= |x| <= 13 ==> Timestamp(Group(x) + tail) == Ok(UpToNul(x), |x| + 2)
    ensures !(12 <= |x| <= 13) ==> (Timestamp(Group(x) + tail).Ok? <==> |x| == 24 && IsDlmsDate(UpToNul(x)))
  {
    hide StringValue, DlmsText, IsDlmsDate;
    StringReads(12, 13, x, tail);
    StringReads(24, 24, x, tail);
    if |x| == 24 {
      DlmsTextMeans(UpToNul(x));
    }
  }

  /** Whatever is accepted starts with a group. */
  lemma TimestampOnly(s: string) returns (x: string)
    requires Timestamp(s).Ok?
    ensures All(NotClose, x) && |x| + 2 <= |s| && s == Group(x) + s[|x| + 2..]
  {
    hide StringValue, DlmsText;
    x := StringOnly(0, 24, s) by { GroupBounds(s); }
  }

  lemma GroupBounds(s: string)
    requires StringValue(12, 13, s).Ok? || StringValue(24, 24, s).Ok?
    ensures StringValue(0, 24, s).Ok?
  {}

  // ------------------------------------------------------------- two lines

  /** The first line of a two-line reading, after its id. */
  function FirstLine(ts: string, g: string, a: string, b: string, vs: seq<nat>, unit: string): string
    requires 1 <= |vs|
  {
    Group(ts) + Group(g) + Group(a) + Group(b) + Group(PrintId(vs)) + Group(unit)
  }

  predicate FirstLineOk(ts: string, g: string, a: string, b: string, vs: seq<nat>, unit: string) {
    && All(NotClose, ts) && |ts| == 12
    && All(NotClose, g) && |g| <= 2
    && All(IsDigit, a) && All(IsDigit, b)
    && 1 <= |vs| <= 6 && (forall k :: 0 <= k < |vs| ==> vs[k] <= 255)
    && All(NotClose, unit) && All(NotNul, unit) && |unit| <= 3
  }

  /** What a field compares of its unit: at most three characters. */
  function Unit3(unit: string): string {
    if |unit| <= 3 then unit else unit[..3]
  }

  lemma DoubleUnitReads(field: string, unit: string, pre: string, vs: seq<nat>, tail: string)
    requires 1 <= |vs| <= 6 && forall k :: 0 <= k < |vs| ==> vs[k] <= 255
    requires unit == Unit3(field) && All(NotClose, unit) && All(NotNul, unit)
    ensures var s := pre + (Group(PrintId(vs)) + (Group(unit) + tail));
            DoubleUnit(field, s, |pre| + 1) == Ok((), |s| - |tail|)
  {
    hide StringValue, ParseId, PrintId, UpToNul, Group;
    var s2 := Group(unit) + tail;
    var s1 := Group(PrintId(vs)) + s2;
    var s := pre + s1;
    GroupLength(PrintId(vs));
    GroupLength(unit);
    assert From(s, |pre| + 1) == s1[1..];
    IdGroup(vs, s2);
    assert From(s, |pre| + |PrintId(vs)| + 2) == s2;
    StringReads(|unit|, |unit|, unit, tail);
    NoNul(unit);
  }

  lemma DoubleHeadReads(field: string, unit: string, pre: string, g: string, a: string, b: string, vs: seq<nat>, tail: string)
    requires All(NotClose, g) && |g| <= 2 && All(IsDigit, a) && All(IsDigit, b)
    requires 1 <= |vs| <= 6 && forall k :: 0 <= k < |vs| ==> vs[k] <= 255
    requires unit == Unit3(field) && All(NotClose, unit) && All(NotNul, unit)
    ensures var s := pre + (Group(g) + (Group(a) + (Group(b) + (Group(PrintId(vs)) + (Group(unit) + tail)))));
            DoubleHead(field, s, |pre|) == Ok((), |s| - |tail|)
  {
    hide StringValue, Number, PrintId, Group, DoubleUnit, Dec, From, All;
    var s4 := Group(PrintId(vs)) + (Group(unit) + tail);
    var s3 := Group(b) + s4;
    var s2 := Group(a) + s3;
    var s1 := Group(g) + s2;
    var s := pre + s1;
    GroupLength(g);
    GroupLength(a);
    GroupLength(b);
    StringReads(0, 2, g, s2);
    PlainGroup(a, s3);
    PlainGroup(b, s4);
    FromAppend(pre, s1);
    assert s == (pre + Group(g)) + s2;
    FromAppend(pre + Group(g), s2);
    assert s == (pre + Group(g) + Group(a)) + s3;
    FromAppend(pre + Group(g) + Group(a), s3);
    var before := pre + Group(g) + Group(a) + Group(b);
    assert s == before + s4;
    DoubleUnitReads(field, unit, before, vs, tail);
  }

  lemma FromAppend(a: string, b: string)
    ensures From(a + b, |a|) == b
  {}

  lemma {:induction false} PlainGroup(i: string, tail: string)
    requires All(IsDigit, i)
    ensures Number(0, "", Group(i) + tail) == Ok(Dec(i) % U32, |i| + 2)
  {
    hide Number, Dec;
    PlainNumberReads(i, tail);
  }

  lemma IdGroup(vs: seq<nat>, tail: string)
    requires 1 <= |vs| <= 6 && forall k :: 0 <= k < |vs| ==> vs[k] <= 255
    ensures var s := Group(PrintId(vs)) + tail;
            ParseId(s[1..]).Ok? && ParseId(s[1..]).next == |PrintId(vs)|
  {
    hide PrintId, ParseId;
    assert (Group(PrintId(vs)) + tail)[1..] == PrintId(vs) + (")" + tail);
    PrintParseId(vs, ")" + tail);
  }

  /** The end of the first line: CR LF, LF or CR. */
  predicate IsLineEnd(eol: string) {
    eol == "\r\n" || eol == "\n" || eol == "\r"
  }

  /** The first line is read up to its end, whatever follows. */
  lemma FirstLineReads(field: string, ts: string, g: string, a: string, b: string, vs: seq<nat>, unit: string, q: string)
    requires unit == Unit3(field) && FirstLineOk(ts, g, a, b, vs, unit)
    ensures var s := FirstLine(ts, g, a, b, vs, unit) + q;
            StringValue(12, 12, s) == Ok(UpToNul(ts), 14) && DoubleHead(field, s, 14) == Ok((), |FirstLine(ts, g, a, b, vs, unit)|)
  {
    hide StringValue, DoubleHead, Group, UpToNul, PrintId;
    var inner := Group(g) + (Group(a) + (Group(b) + (Group(PrintId(vs)) + (Group(unit) + q))));
    assert FirstLine(ts, g, a, b, vs, unit) + q == Group(ts) + inner;
    GroupLength(ts);
    StringReads(12, 12, ts, inner);
    DoubleHeadReads(field, unit, Group(ts), g, a, b, vs, q);
  }

  /** Whatever NumParser takes as a number on the second line. */
  lemma DoubleLineNumber(was: Value, field: string, ts: string, g: string, a: string, b: string, vs: seq<nat>, unit: string,
                        eol: string, q: string, n: nat, more: string)
    requires unit == Unit3(field) && FirstLineOk(ts, g, a, b, vs, unit) && IsLineEnd(eol)
    requires All(NotEol, q) && Number(3, "", q) == Ok(n, |q|)
    requires more == "" || IsEol(more[0])
    ensures var s := FirstLine(ts, g, a, b, vs, unit);
            DoubleLine(was, field, s, eol + q + more) == Decoded(Ok((), |s| + |eol| + |q|), Value(UpToNul(ts), n), false)
  {
    hide StringValue, Number, DoubleHead, Skip, FirstLine, UpToNul;
    var s, rest := FirstLine(ts, g, a, b, vs, unit), eol + q + more;
    assert s + "" == s;
    FirstLineReads(field, ts, g, a, b, vs, unit, "");
    var t, start := s + rest, |s| + |eol|;
    NumberOpens(3, "", q);
    SecondLine(s, eol, q, more);
    SliceAll(NotEol, t, start, q);
    SkipIs(NotEol, t, start, start + |q|);
  }

  /** The second line of a reading: digits in parentheses, possibly with a point. */
  predicate SecondLineOk(i: string, point: bool, d: string) {
    All(IsDigit, i) && All(IsDigit, d) && (point || d == "")
  }

  lemma BareLine(i: string, point: bool, d: string)
    requires SecondLineOk(i, point, d)
    ensures Number(3, "", Bare(i, point, d)) == Ok(Reading(i, d, 3, false), |Bare(i, point, d)|)
    ensures All(NotEol, Bare(i, point, d))
  {
    hide Number, Reading;
    BareNumberReads(3, i, point, d, "");
    assert Bare(i, point, d) + "" == Bare(i, point, d);
    if point {
      assert Bare(i, point, d) == "(" + i + "." + d + ")";
    } else {
      assert Bare(i, point, d) == "(" + i + ")";
    }
  }

  /**
   A reading on two lines sets the time stamp and stores the digits of its
   second line, and stops right after that line.
   */
  lemma DoubleLineReads(was: Value, field: string, ts: string, g: string, a: string, b: string, vs: seq<nat>, unit: string,
                        eol: string, i: string, point: bool, d: string, more: string)
    requires unit == Unit3(field) && FirstLineOk(ts, g, a, b, vs, unit) && IsLineEnd(eol) && SecondLineOk(i, point, d)
    requires more == "" || IsEol(more[0])
    ensures var s, q := FirstLine(ts, g, a, b, vs, unit), Bare(i, point, d);
            DoubleLine(was, field, s, eol + q + more)
              == Decoded(Ok((), |s| + |eol| + |q|), Value(UpToNul(ts), Reading(i, d, 3, false)), false)
  {
    hide DoubleLine, FirstLine, Number, Bare, Reading, UpToNul;
    BareLine(i, point, d);
    DoubleLineNumber(was, field, ts, g, a, b, vs, unit, eol, Bare(i, point, d), Reading(i, d, 3, false), more);
  }

  /** Where the second line lies in the text that starts with the first. */
  lemma SecondLine(s: string, eol: string, q: string, more: string)
    requires IsLineEnd(eol) && q != "" && q[0] == '('
    ensures var t, start := s + (eol + q + more), |s| + |eol|;
            && PastEol(t, |s|) == start
            && t[start..start + |q|] == q
            && (start + |q| < |t| ==> more != "" && t[start + |q|] == more[0])
  {
    hide PastEol, IsLineEnd;
    var t, start := s + (eol + q + more), |s| + |eol|;
    Associative(eol, q, more);
    Glued(s, eol + q + more);
    DropPart(t, |s|, eol, q + more);
    assert (q + more)[0] == '(';
    EolPassed(t, |s|, eol);
    TailStarts(t, start, q, more);
  }

  lemma DropPart(t: string, n: nat, a: string, b: string)
    requires n <= |t| && t[n..] == a + b
    ensures n + |a| <= |t| && t[n..n + |a|] == a && t[n + |a|..] == b
    ensures b != "" ==> n + |a| < |t| && t[n + |a|] == b[0]
  {
    var r := t[n..];
    Glued(a, b);
    SliceOfSlice(t, n, |t|, 0, |a|);
    SliceOfSlice(t, n, |t|, |a|, |r|);
    assert t[n..|t|] == r && r[0..|a|] == a && r[|a|..|r|] == b;
  }

  lemma EolPassed(t: string, k: nat, eol: string)
    requires IsLineEnd(eol) && k + |eol| < |t| && t[k..k + |eol|] == eol && NotEol(t[k + |eol|])
    ensures PastEol(t, k) == k + |eol|
  {
    assert t[k] == eol[0] && (|eol| == 2 ==> t[k + 1] == eol[1]);
  }

  lemma TailStarts(t: string, start: nat, q: string, more: string)
    requires start <= |t| && t[start..] == q + more
    ensures t[start..start + |q|] == q
    ensures start + |q| < |t| ==> more != "" && t[start + |q|] == more[0]
  {
    var r := t[start..];
    assert forall i :: 0 <= i < |r| ==> t[start + i] == r[i];
    assert r[..|q|] == q && t[start..start + |q|] == r[..|q|];
  }

  lemma SliceAll(p: char -> bool, t: string, b: nat, q: string)
    requires b + |q| <= |t| && t[b..b + |q|] == q && All(p, q)
    ensures forall i :: b <= i < b + |q| ==> p(t[i])
  {
    assert forall i :: b <= i < b + |q| ==> t[i] == t[b..b + |q|][i - b];
  }

  lemma NumberOpens(maxDecimals: nat, unit: string, s: string)
    requires Number(maxDecimals, unit, s).Ok?
    ensures s != "" && s[0] == '('
  {}

  /** The same reading on one line; what follows the line does not matter. */
  lemma OneLineReads(was: Value, field: string, ts: string, g: string, a: string, b: string, vs: seq<nat>, unit: string,
                     i: string, point: bool, d: string, rest: string)
    requires unit == Unit3(field) && FirstLineOk(ts, g, a, b, vs, unit) && SecondLineOk(i, point, d)
    ensures var s := FirstLine(ts, g, a, b, vs, unit) + Bare(i, point, d);
            DoubleLine(was, field, s, rest) == Decoded(Ok((), |s|), Value(UpToNul(ts), Reading(i, d, 3, false)), false)
  {
    hide StringValue, Number, DoubleHead, Skip, FirstLine, UpToNul, Bare, Reading;
    var head, q := FirstLine(ts, g, a, b, vs, unit), Bare(i, point, d);
    FirstLineReads(field, ts, g, a, b, vs, unit, q);
    BareLine(i, point, d);
    NumberOpens(3, "", q);
    LineHere(head, q, rest);
  }

  /** A number right after the head, on its line. */
  lemma LineHere(head: string, q: string, rest: string)
    requires q != "" && q[0] == '(' && All(NotEol, q)
    ensures var s, n := head + q, |head|;
            PastEol(s + rest, n) == n && LineLimit(s, rest, n) == |s| && (s + rest)[n..|s|] == q
  {
    var s, n := head + q, |head|;
    Glued(head, q);
    assert (s + rest)[n] == s[n] == q[0];
    assert forall k :: n <= k < |s| ==> s[k] == q[k - n];
    SkipIs(NotEol, s, n, |s|);
    assert (s + rest)[n..|s|] == s[n..] == q;
  }

  // ------------------------------------------ what two-line fields accept at all

  lemma NumberGroup(s: string) returns (i: string)
    requires Number(0, "", s).Ok?
    ensures All(IsDigit, i) && |i| + 2 <= |s| && s == Group(i) + s[|i| + 2..] && Number(0, "", s).next == |i| + 2
  {
    PlainNumberOnly(s);
    i := s[1..Number(0, "", s).next - 1];
  }

  lemma UnitGroupOnly(field: string, s: string) returns (unit: string)
    requires UnitGroup(field, s).Ok?
    ensures UpToNul(unit) == Unit3(field) && |unit| == |Unit3(field)| && All(NotClose, unit)
    ensures |unit| + 2 <= |s| && s == Group(unit) + s[|unit| + 2..] && UnitGroup(field, s) == Ok((), |unit| + 2)
  {
    hide StringValue, UpToNul;
    unit := StringOnly(|Unit3(field)|, |Unit3(field)|, s);
  }

  lemma DoubleUnitOnly(field: string, pre: string, s: string) returns (id: string, y: char, unit: string)
    requires DoubleUnit(field, pre + s, |pre|).Ok?
    ensures ParseId(s).Ok? && ParseId(s).next == |id|
    ensures UpToNul(unit) == Unit3(field) && |unit| == |Unit3(field)| && All(NotClose, unit)
    ensures var n := |id| + 1 + |unit| + 2;
            n <= |s| && s == id + [y] + Group(unit) + s[n..] && DoubleUnit(field, pre + s, |pre|).next == |pre| + n
  {
    hide ParseId, UpToNul, From, Group, All, UnitGroup, Unit3;
    FromAppend(pre, s);
    IdBound(s);
    var k := ParseId(s).next;
    FromPast(pre, s, k + 1);
    var more := From(pre + s, |pre| + k + 1);
    unit := UnitGroupOnly(field, more);
    id, y := s[..k], s[k];
    assert s == id + [y] + more;
    assert more == Group(unit) + more[|unit| + 2..];
    assert more[|unit| + 2..] == s[k + 1 + |unit| + 2..];
  }

  lemma FromPast(pre: string, s: string, n: nat)
    ensures From(pre + s, |pre| + n) == if n <= |s| then s[n..] else ""
  {
    if n <= |s| {
      Glued(pre, s);
      assert (pre + s)[|pre| + n..] == (pre + s)[|pre|..][n..];
    }
  }

  lemma IdBound(s: string)
    ensures ParseId(s).Ok? ==> 1 <= ParseId(s).next <= |s|
  {}

  /** The first line of a two-line reading as the parser sees it: x and y stand for the parentheses around the id. */
  datatype Head = Head(ts: string, g: string, a: string, b: string, x: char, id: string, y: char, unit: string) {

    predicate Valid(field: string) {
      && All(NotClose, ts) && |ts| == 12 && All(NotClose, g) && |g| <= 2
      && All(IsDigit, a) && All(IsDigit, b)
      && UpToNul(unit) == Unit3(field) && |unit| == |Unit3(field)| && All(NotClose, unit)
    }

    function Before(): string {
      Group(ts) + Group(g) + Group(a) + Group(b) + [x]
    }

    function Text(): string {
      Before() + id + [y] + Group(unit)
    }

    /** The text begins with it, and the id is the one that is read there. */
    predicate Opens(s: string) {
      && Text() <= s
      && ParseId(s[|Before()|..]).Ok? && ParseId(s[|Before()|..]).next == |id|
    }
  }

  lemma DoubleHeadOnly(field: string, ts: string, s: string) returns (h: Head)
    requires All(NotClose, ts) && |ts| == 12 && DoubleHead(field, Group(ts) + s, 14).Ok?
    ensures h.ts == ts && h.Valid(field) && h.Opens(Group(ts) + s)
    ensures DoubleHead(field, Group(ts) + s, 14).next == |h.Text()|
  {
    hide StringValue, Number, ParseId, UpToNul, DoubleUnit, Group, From, All, Unit3;
    var pre := Group(ts);
    GroupLength(ts);
    FromAppend(pre, s);
    var g := StringOnly(0, 2, s);
    GroupLength(g);
    var s1, pre1 := s[|g| + 2..], pre + Group(g);
    assert pre + s == pre1 + s1;
    FromAppend(pre1, s1);
    var a := NumberGroup(s1);
    GroupLength(a);
    var s2, pre2 := s1[|a| + 2..], pre1 + Group(a);
    assert pre + s == pre2 + s2;
    FromAppend(pre2, s2);
    var b := NumberGroup(s2);
    GroupLength(b);
    var s3, pre3 := s2[|b| + 2..], pre2 + Group(b);
    assert pre + s == pre3 + s3;
    h := HeadEnds(field, Head(ts, g, a, b, ' ', "", ' ', ""), pre3, s3);
  }

  lemma HeadEnds(field: string, h0: Head, pre: string, s: string) returns (h: Head)
    requires pre == Group(h0.ts) + Group(h0.g) + Group(h0.a) + Group(h0.b)
    requires DoubleUnit(field, pre + s, |pre| + 1).Ok?
    ensures h.ts == h0.ts && h.g == h0.g && h.a == h0.a && h.b == h0.b
    ensures UpToNul(h.unit) == Unit3(field) && |h.unit| == |Unit3(field)| && All(NotClose, h.unit)
    ensures h.Opens(pre + s) && DoubleUnit(field, pre + s, |pre| + 1).next == |h.Text()|
  {
    hide ParseId, UpToNul, DoubleUnit, Group, Unit3, All;
    NothingAfter(field, pre, s);
    var x, s4 := s[0], s[1..];
    assert pre + s == pre + [x] + s4;
    var id, y, unit := DoubleUnitOnly(field, pre + [x], s4);
    GroupLength(unit);
    h := Head(h0.ts, h0.g, h0.a, h0.b, x, id, y, unit);
    var n := |id| + 1 + |unit| + 2;
    assert h.Text() == pre + [x] + (id + [y] + Group(unit));
    Associative(pre + [x], id + [y] + Group(unit), s4[n..]);
    Glued(pre + [x], s4);
  }

  lemma NothingAfter(field: string, pre: string, s: string)
    requires DoubleUnit(field, pre + s, |pre| + 1).Ok?
    ensures s != ""
  {
    hide StringValue, UpToNul;
    NoId();
  }

  lemma NoId()
    ensures ParseId("").Fail?
  {}

  /**
   Whatever a two-line field accepts is such a reading: a stamp of 12
   characters, a short group, two numbers, an id between any two characters,
   the unit of the field, and digits after at most one line end.
   */
  lemma DoubleLineOnly(was: Value, field: string, s: string, rest: string)
    returns (h: Head, i: string, point: bool, d: string)
    requires DoubleLine(was, field, s, rest).result.Ok?
    ensures h.Valid(field) && h.Opens(s) && SecondLineOk(i, point, d)
    ensures var q, k := Bare(i, point, d), PastEol(s + rest, |h.Text()|);
            && k + |q| <= |s + rest| && (s + rest)[k..k + |q|] == q
            && DoubleLine(was, field, s, rest) == Decoded(Ok((), k + |q|), Value(UpToNul(h.ts), Reading(i, d, 3, false)), false)
  {
    hide StringValue, Number, ParseId, UpToNul, DoubleHead, Group, Bare, Skip, Reading, Head.Valid, Head.Text;
    var ts := StringOnly(12, 12, s);
    GroupLength(ts);
    var s1 := s[14..];
    assert s == Group(ts) + s1;
    h := DoubleHeadOnly(field, ts, s1);
    var t, k := s + rest, PastEol(s + rest, |h.Text()|);
    var end := LineLimit(s, rest, k);
    i, point, d := NumberInSlice(t, k, end);
  }

  lemma NumberInSlice(t: string, k: nat, end: nat) returns (i: string, point: bool, d: string)
    requires k <= end <= |t| && Number(3, "", t[k..end]).Ok?
    ensures SecondLineOk(i, point, d) && k + |Bare(i, point, d)| <= end && t[k..k + |Bare(i, point, d)|] == Bare(i, point, d)
    ensures Number(3, "", t[k..end]) == Ok(Reading(i, d, 3, false), |Bare(i, point, d)|)
  {
    hide Number, Reading, Bare;
    var line := t[k..end];
    NumberBound(3, "", line);
    i, point, d := BareNumberOnly(3, line);
    var more := line[Number(3, "", line).next..];
    BareNumberReads(3, i, point, d, more);
    Glued(Bare(i, point, d), more);
    SliceOfSlice(t, k, end, 0, |Bare(i, point, d)|);
    assert line[0..|Bare(i, point, d)|] == line[..|Bare(i, point, d)|];
  }
}
