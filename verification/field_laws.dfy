/**
 What each shape of field stores, on the text that a meter prints, and which
 texts it refuses; the identification line; lines and telegrams that end in a
 number.
 */
module FieldLaws {
  import opened Text
  import opened Checksum
  import opened Numbers
  import opened NumberLaws
  import opened Obis
  import opened ObisLaws
  import opened Decoder
  import opened DecoderLaws
  import opened Fields
  import opened Telegram
  import opened TelegramLaws

  // ------------------------------------------------------------------- texts

  /** A text in parentheses is stored up to a NUL, exactly when its length is in bounds. */
  lemma StringFieldStores(min: nat, max: nat, was: Value, x: string, tail: string, rest: string)
    requires All(NotClose, x)
    ensures Decode(StringShape(min, max), was, Group(x) + tail, rest) ==
              if min <= |x| <= max then Decoded(Ok((), |x| + 2), was.(text := UpToNul(x)), false)
              else Decoded(Fail(InvalidStringLength, 1), was, false)
  {
    hide StringValue, Group, UpToNul;
    StringReads(min, max, x, tail);
  }

  /** A raw field takes the whole text. */
  lemma RawFieldStores(s: string, rest: string)
    ensures Decode(RawShape, BLANK, s, rest) == Decoded(Ok((), |s|), Value(UpToNul(s), 0), false)
  {
    hide UpToNul;
    assert "" + UpToNul(s) == UpToNul(s);
  }

  /** A DSMR time stamp is stored as it is. */
  lemma TimestampFieldStores(was: Value, x: string, tail: string, rest: string)
    requires All(NotClose, x) && 12 <= |x| <= 13
    ensures Decode(TimestampShape, was, Group(x) + tail, rest) == Decoded(Ok((), |x| + 2), was.(text := UpToNul(x)), false)
  {
    hide Timestamp, Group, UpToNul;
    TimestampReads(x, tail);
  }

  /** A DLMS date-time is stored as its DSMR text. */
  lemma {:induction false} DlmsFieldStores(was: Value, bytes: seq<int>, year: int, month: int, day: int, hour: int, minute: int, second: int, summer: bool,
                        tail: string, rest: string)
    requires Encodes(bytes, year, month, day, hour, minute, second, summer)
    requires IsDate(year, month, day, hour, minute, second)
    ensures Decode(TimestampShape, was, Group(Hex(bytes)) + tail, rest)
         == Decoded(Ok((), 26), was.(text := DateText(year, month, day, hour, minute, second, summer)), false)
  {
    hide Timestamp, Group, Hex, DateText;
    DlmsReads(bytes, year, month, day, hour, minute, second, summer, tail);
  }

  // ----------------------------------------------------------------- numbers

  /** A fixed-point field stores the reading of every text that NumParser takes. */
  lemma FixedFieldStores(unit: string, was: Value, i: string, point: bool, d: string, w: string, tail: string, rest: string)
    requires IsNumber(3, unit, i, point, d, w)
    ensures Decode(FixedShape(unit), was, NumberText(i, point, d, w) + tail, rest)
         == Decoded(Ok((), |NumberText(i, point, d, w)|),
                    was.(number := Reading(i, d, 3, unit != "" && UnitOf(w) == "m" + unit)), false)
  {
    hide Number, Dec, NumberText;
    NumberAccepts(3, unit, i, point, d, w, tail);
  }

  /** Every value below 2^32 is stored as it is, whether it was printed in the unit or in milli-units. */
  lemma FixedFieldRoundTrip(unit: string, was: Value, n: nat, tail: string, rest: string)
    requires n < U32 && unit != "" && All(NotClose, unit)
    ensures Decode(FixedShape(unit), was, PrintFixed(n, unit) + tail, rest)
         == Decoded(Ok((), |PrintFixed(n, unit)|), was.(number := n), false)
    ensures Decode(FixedShape(unit), was, PrintMilli(n, unit) + tail, rest)
         == Decoded(Ok((), |PrintMilli(n, unit)|), was.(number := n), false)
  {
    hide Number, PrintFixed, PrintMilli;
    FixedRoundTrip(n, unit, tail);
    MilliRoundTrip(n, unit, tail);
  }

  /** It takes up a whole text exactly when that is a number; a text that it refuses changes nothing. */
  lemma FixedFieldExactly(unit: string, was: Value, s: string, rest: string)
    ensures Decode(FixedShape(unit), was, s, rest).result == Ok((), |s|) <==>
              exists i, point, d, w :: IsNumber(3, unit, i, point, d, w) && s == NumberText(i, point, d, w)
    ensures Decode(FixedShape(unit), was, s, rest).result.Fail? ==> Decode(FixedShape(unit), was, s, rest).value == was
  {
    hide Number, NumberText, IsNumber;
    NumberExactly(3, unit, s);
  }

  lemma NumberExactly(maxDecimals: nat, unit: string, s: string)
    ensures (Number(maxDecimals, unit, s).Ok? && Number(maxDecimals, unit, s).next == |s|) <==>
              exists i, point, d, w :: IsNumber(maxDecimals, unit, i, point, d, w) && s == NumberText(i, point, d, w)
  {
    hide Number, NumberText, IsNumber, Reading;
    if Number(maxDecimals, unit, s).Ok? && Number(maxDecimals, unit, s).next == |s| {
      var i, point, d, w := NumberOnly(maxDecimals, unit, s);
      assert s == NumberText(i, point, d, w) + "" == NumberText(i, point, d, w);
    }
    forall i, point, d, w | IsNumber(maxDecimals, unit, i, point, d, w) && s == NumberText(i, point, d, w)
      ensures Number(maxDecimals, unit, s).Ok? && Number(maxDecimals, unit, s).next == |s|
    {
      DigitsOfNumber(maxDecimals, unit, i, point, d, w);
      NumberAccepts(maxDecimals, unit, i, point, d, w, "");
      assert s + "" == s;
    }
  }

  lemma DigitsOfNumber(maxDecimals: nat, unit: string, i: string, point: bool, d: string, w: string)
    requires IsNumber(maxDecimals, unit, i, point, d, w)
    ensures All(IsDigit, i) && All(IsDigit, d)
  {}

  /** An integer field stores the digits, in 32 bits and then in its own type; w is empty or begins with the unit's asterisk. */
  lemma {:induction false} IntFieldStores(unit: string, modulus: nat, was: Value, i: string, w: string, tail: string, rest: string)
    requires modulus > 0 && IsNumber(0, unit, i, false, "", w)
    ensures Decode(IntShape(unit, modulus), was, NumberText(i, false, "", w) + tail, rest)
         == Decoded(Ok((), |i| + |w| + 2), was.(number := Dec(i) % U32 % modulus), false)
  {
    hide Number, Dec, NumberText, Reading;
    NumberAccepts(0, unit, i, false, "", w, tail);
    WholeReading(i, "", unit != "" && UnitOf(w) == "m" + unit);
    IntLength(i, w);
  }

  lemma IntLength(i: string, w: string)
    ensures |NumberText(i, false, "", w)| == |i| + |w| + 2
  {}

  lemma IntFieldExactly(unit: string, modulus: nat, was: Value, s: string, rest: string)
    requires modulus > 0
    ensures Decode(IntShape(unit, modulus), was, s, rest).result == Ok((), |s|) <==>
              exists i, point, d, w :: IsNumber(0, unit, i, point, d, w) && s == NumberText(i, point, d, w)
    ensures Decode(IntShape(unit, modulus), was, s, rest).result.Fail? ==> Decode(IntShape(unit, modulus), was, s, rest).value == was
  {
    hide Number, NumberText, IsNumber;
    NumberExactly(0, unit, s);
  }

  // --------------------------------------------------------- stamped readings

  /** The text of a number between its parentheses. */
  function Inside(s: string): string
    requires |s| >= 2
  {
    s[1..|s| - 1]
  }

  lemma PrintedIsValue(n: nat, unit: string)
    requires n < U32 && unit != "" && All(NotClose, unit)
    requires |PrintFixed(n, unit)| != 14 && |PrintFixed(n, unit)| != 15
    ensures |PrintFixed(n, unit)| >= 2 && Group(Inside(PrintFixed(n, unit))) == PrintFixed(n, unit)
    ensures IsValue(unit, Inside(PrintFixed(n, unit)), n)
  {
    hide Number, Decimal, ThreeDigits;
    var s := PrintFixed(n, unit);
    FixedRoundTrip(n, unit, "");
    assert s + "" == s;
    var inner := Decimal(n / 1000) + ("." + ThreeDigits(n % 1000)) + ("*" + unit);
    assert s == "(" + inner + ")" && Inside(s) == inner;
    assert All(NotClose, Decimal(n / 1000)) && All(NotClose, ThreeDigits(n % 1000)) by {
      DigitsDoNotClose(Decimal(n / 1000));
      DigitsDoNotClose(ThreeDigits(n % 1000));
    }
  }

  lemma DigitsDoNotClose(s: string)
    requires All(IsDigit, s)
    ensures All(NotClose, s)
  {}

  /** A time stamp and a printed value are stored in either order. */
  lemma StampedFieldStores(unit: string, was: Value, ts: string, n: nat, tail: string, rest: string)
    requires IsStamp(ts) && n < U32 && unit != "" && All(NotClose, unit)
    requires |PrintFixed(n, unit)| != 14 && |PrintFixed(n, unit)| != 15
    ensures var stored := Decoded(Ok((), |ts| + 2 + |PrintFixed(n, unit)|), Value(UpToNul(ts), n), false);
            && Decode(StampedShape(unit), was, Group(ts) + PrintFixed(n, unit) + tail, rest) == stored
            && Decode(StampedShape(unit), was, PrintFixed(n, unit) + Group(ts) + tail, rest) == stored
  {
    hide Stamped, PrintFixed, UpToNul, IsValue;
    PrintedIsValue(n, unit);
    EitherOrder(was, unit, ts, Inside(PrintFixed(n, unit)), n, tail);
  }

  // ------------------------------------------------------------------ absence

  /** A field takes itself to be absent exactly on its sentinel, and then it keeps its value. */
  lemma AbsentExactly(shape: Shape, was: Value, s: string, rest: string)
    requires shape.Valid()
    ensures Decode(shape, was, s, rest).absent <==> (shape.OptionalIntShape? && s == "()") || (shape.OptionalStampedShape? && s == "(0)")
    ensures Decode(shape, was, s, rest).absent ==> Decode(shape, was, s, rest) == Decoded(Ok((), |s|), was, true)
  {
    hide StringValue, Number, Timestamp, Stamp, DoubleHead, LineLimit, PastEol;
  }

  /** Any other text is read as by the shape without a sentinel. */
  lemma OptionalOtherwise(unit: string, modulus: nat, was: Value, s: string, rest: string)
    requires modulus > 0
    ensures s != "()" ==> Decode(OptionalIntShape(unit, modulus), was, s, rest) == Decode(IntShape(unit, modulus), was, s, rest)
    ensures s != "(0)" ==> Decode(OptionalStampedShape(unit), was, s, rest) == Decode(StampedShape(unit), was, s, rest)
  {
    hide Number, Stamped;
  }

  // --------------------------------------------------------- the identification

  lemma {:induction false} PresentStays(fields: seq<Field>, h: Harvest, lines: seq<string>, i: nat)
    requires ValidFields(fields) && Sized(fields, h.data) && i < |fields| && h.data.present[i]
    ensures var g := Gather(fields, h, lines, false).data; g.present[i] && g.values[i] == h.data.values[i]
    decreases |lines|
  {
    hide DataLine, ParseId;
    if lines != [] {
      if ParseId(lines[0]).Ok? && IndexOf(fields, ParseId(lines[0]).value, 0) == i {
        DuplicateIgnored(fields, h.data, lines[0], i);
      } else {
        OtherFieldsUntouched(fields, h.data, lines[0], "", false, i);
      }
      PresentStays(fields, Absorb(fields, h, lines[0], false), lines[1..], i);
    }
  }

  /**
   A raw field whose id is 255 throughout receives the first line of the data,
   when a line end closes it, and no other line changes that.
   */
  lemma {:induction false} IdentificationStored(fields: seq<Field>, d: Data, b: string, i: nat)
    requires ValidFields(fields) && DistinctIds(fields) && Sized(fields, d) && i < |fields|
    requires fields[i] == Field([255, 255, 255, 255, 255, 255], RawShape) && !d.present[i] && d.values[i] == BLANK
    requires |Segments(b)| > 1
    ensures var g := Harvested(fields, d, b, false).data; g.present[i] && g.values[i] == Value(UpToNul(Segments(b)[0]), 0)
  {
    hide Segments, UpToNul, Gather, Decode;
    IndexIs(fields, i, 0);
    RawFieldStores(Segments(b)[0], "");
    PresentStays(fields, Identified(fields, d, b), DataLines(b), i);
  }

  // ------------------------------------------------------------- whole lines

  /** The line with a printed id and a printed value is complete for its field and stores the value. */
  lemma FixedLineStores(f: Field, vs: seq<nat>, unit: string, n: nat)
    requires f.shape == FixedShape(unit) && n < U32 && unit != "" && All(NotClose, unit)
    requires 1 <= |vs| <= 6 && (forall k :: 0 <= k < |vs| ==> vs[k] <= 255) && f.id == Normalise(Padded(vs))
    ensures var line, milli := PrintId(vs) + PrintFixed(n, unit), PrintId(vs) + PrintMilli(n, unit);
            && CompleteLine(f, line) && LineValue(f, line) == Value("", n)
            && CompleteLine(f, milli) && LineValue(f, milli) == Value("", n)
  {
    hide Decode, ParseId, PrintId, PrintFixed, PrintMilli, Normalise, Padded;
    FixedFieldRoundTrip(unit, BLANK, n, "", "");
    PrintedOpens(n, unit);
    NumberLine(f, vs, PrintFixed(n, unit), n);
    NumberLine(f, vs, PrintMilli(n, unit), n);
  }

  lemma PrintedOpens(n: nat, unit: string)
    ensures |PrintFixed(n, unit)| > 0 && PrintFixed(n, unit)[0] == '('
    ensures |PrintMilli(n, unit)| > 0 && PrintMilli(n, unit)[0] == '('
  {
    hide Decimal, ThreeDigits;
  }

  lemma NumberLine(f: Field, vs: seq<nat>, s: string, n: nat)
    requires f.shape.Valid() && 1 <= |vs| <= 6 && (forall k :: 0 <= k < |vs| ==> vs[k] <= 255) && f.id == Normalise(Padded(vs))
    requires s != "" && s[0] == '('
    requires Decode(f.shape, BLANK, s + "", "") == Decoded(Ok((), |s|), BLANK.(number := n), false)
    ensures CompleteLine(f, PrintId(vs) + s) && LineValue(f, PrintId(vs) + s) == Value("", n)
  {
    hide Decode, ParseId, PrintId, Normalise, Padded;
    PrintParseId(vs, s);
    Glued(PrintId(vs), s);
    assert s + "" == s;
  }

  /** So is a line with a printed id and an integer. */
  lemma {:induction false} IntLineStores(f: Field, vs: seq<nat>, i: string, w: string)
    requires f.shape.IntShape? && f.shape.Valid() && IsNumber(0, f.shape.unit, i, false, "", w)
    requires 1 <= |vs| <= 6 && (forall k :: 0 <= k < |vs| ==> vs[k] <= 255) && f.id == Normalise(Padded(vs))
    ensures var line := PrintId(vs) + NumberText(i, false, "", w);
            CompleteLine(f, line) && LineValue(f, line) == Value("", Dec(i) % U32 % f.shape.modulus)
  {
    hide Decode, ParseId, PrintId, Dec, Normalise, Padded;
    IntFieldStores(f.shape.unit, f.shape.modulus, BLANK, i, w, "", "");
    IntLength(i, w);
    NumberLine(f, vs, NumberText(i, false, "", w), Dec(i) % U32 % f.shape.modulus);
  }

  /**
   A line that is bad may leave something behind: a value without its time
   stamp makes no field present, but its number is stored.
   */
  lemma StrayValueStays(fields: seq<Field>, d: Data, i: nat, vs: seq<nat>, unit: string, n: nat)
    requires SingleLineFields(fields) && DistinctIds(fields) && Sized(fields, d) && i < |fields| && !d.present[i]
    requires 1 <= |vs| <= 6 && forall k :: 0 <= k < |vs| ==> vs[k] <= 255
    requires fields[i] == Field(Normalise(Padded(vs)), StampedShape(unit)) && n < U32 && unit != "" && All(NotClose, unit)
    requires |PrintFixed(n, unit)| != 14 && |PrintFixed(n, unit)| != 15
    ensures var (d', res) := DataLine(fields, d, PrintId(vs) + PrintFixed(n, unit), "", false);
            res.Fail? && !d'.present[i] && d'.values[i] == d.values[i].(number := n)
  {
    hide ParseId, PrintId, PrintFixed, Normalise, Padded, Stamped, IsValue, Group, DataLine;
    var s := PrintFixed(n, unit);
    PrintedOpens(n, unit);
    PrintedIsValue(n, unit);
    PrintParseId(vs, s);
    Glued(PrintId(vs), s);
    IndexIs(fields, i, 0);
    assert s + "" == s && Body(PrintId(vs) + s) == s;
    ValueNeedsStamp(d.values[i], unit, Inside(s), n, "");
    ValueNeedsStamp(BLANK, unit, Inside(s), n, "");
    OwnField(fields, d, PrintId(vs) + s, i);
    BadLineIff(fields, d, PrintId(vs) + s, false);
  }
}
