/**
 What NumParser promises: fixed-point readings, printing and parsing, the
 milli-units and the numerals it takes although its comments say otherwise.
 */
module NumberLaws {
  import opened Text
  import opened Numbers

  // --------------------------------------------------------------- readings

  /** The first three digits of d, padded with zeros. */
  function Thousandths(d: string): string {
    if d == "" then "000"
    else if |d| == 1 then d + "00"
    else if |d| == 2 then d + "0"
    else d[..3]
  }

  lemma {:induction false} ReadingIsThousands(i: string, d: string)
    requires All(IsDigit, i) && All(IsDigit, d)
    ensures |Thousandths(d)| == 3 && All(IsDigit, Thousandths(d))
    ensures Reading(i, d, 3, false) == (1000 * Dec(i) + Dec(Thousandths(d))) % U32
  {
    hide Dec;
    var t := Thousandths(d);
    ZerosAre();
    assert Taken(d, 3) + Zeros(3 - |Taken(d, 3)|) == t;
    assert i + Taken(d, 3) + Zeros(3 - |Taken(d, 3)|) == i + t;
    DecAppend(i, t);
    assert Pow10(3) == 1000;
  }

  lemma ZerosAre()
    ensures Zeros(0) == "" && Zeros(1) == "0" && Zeros(2) == "00" && Zeros(3) == "000"
  {
    assert Zeros(1) == Zeros(0) + ['0'] && Zeros(2) == Zeros(1) + ['0'] && Zeros(3) == Zeros(2) + ['0'];
  }

  // ------------------------------------------------- what is read as a number

  /** Digits, possibly a point and decimals, and w, which goes up to the closing parenthesis. */
  function NumberText(i: string, point: bool, d: string, w: string): string {
    "(" + i + (if point then "." + d else "") + w + ")"
  }

  /**
   What NumParser takes: the point only when decimals are asked for; w only
   when a unit is expected, and then anything that does not look like more of
   the number; after bare digits it has to begin with an asterisk, a point or
   a NUL.
   */
  predicate IsNumber(maxDecimals: nat, unit: string, i: string, point: bool, d: string, w: string) {
    && All(IsDigit, i) && All(IsDigit, d) && All(NotClose, w)
    && (if point then maxDecimals > 0 else d == "")
    && (unit == "" ==> w == "")
    && (w != "" ==> if point then !IsDigit(w[0]) else w[0] == '*' || w[0] == '\0' || (w[0] == '.' && maxDecimals == 0))
  }

  /** The unit in w; some meters leave the asterisk out. */
  function UnitOf(w: string): string {
    if w != "" && w[0] == '*' then w[1..] else w
  }

  /** Where the parts of such a text lie. */
  lemma NumberParts(maxDecimals: nat, unit: string, i: string, point: bool, d: string, w: string, tail: string)
    requires IsNumber(maxDecimals, unit, i, point, d, w)
    ensures var s := NumberText(i, point, d, w) + tail;
            var n := |i| + 1;
            var j := if point then n + 1 + |d| else n;
            && n <= j < |s| && s[0] == '(' && s[1..n] == i
            && (point ==> s[n] == '.' && s[n + 1..j] == d)
            && s[j..] == w + ")" + tail
            && s[j] == (if w != "" then w[0] else ')')
            && |NumberText(i, point, d, w)| == j + |w| + 1
  {
    hide All;
    var s, n, r := NumberText(i, point, d, w) + tail, |i| + 1, w + ")" + tail;
    var j := if point then n + 1 + |d| else n;
    if point {
      assert s == "(" + i + "." + d + r;
    } else {
      assert s == "(" + i + r;
    }
    assert s[j] == r[0];
  }

  lemma UnitLies(w: string, s: string, j: nat, tail: string)
    requires j <= |s| && s[j..] == w + ")" + tail
    ensures var v := j + |w| - |UnitOf(w)|;
            && j + |w| < |s| && s[v..j + |w|] == UnitOf(w) && s[j + |w|] == ')'
            && s[j] == (if w != "" then w[0] else ')')
  {
    var v, r := |w| - |UnitOf(w)|, s[j..];
    assert w[v..] == UnitOf(w) && r[..|w|] == w && r[|w|] == ')';
    assert s[j] == r[0] && s[j + |w|] == r[|w|];
    SliceOfSlice(s, j, |s|, v, |w|);
    assert s[j..|s|] == r && r[v..|w|] == r[..|w|][v..];
  }

  lemma UnitReads(maxDecimals: nat, unit: string, i: string, d: string, w: string, s: string, j: nat, tail: string)
    requires All(IsDigit, i) && All(IsDigit, d) && All(NotClose, w) && (unit == "" ==> w == "")
    requires j <= |s| && s[j..] == w + ")" + tail
    ensures UnitAndClose(maxDecimals, unit, i, d, s, j)
         == Ok(Reading(i, d, maxDecimals, unit != "" && UnitOf(w) == "m" + unit), j + |w| + 1)
  {
    hide Reading, All, Skip;
    UnitLies(w, s, j, tail);
    UnitCloses(w);
    if unit != "" {
      SkipWithin(NotClose, s, j + |w| - |UnitOf(w)|, UnitOf(w));
    }
  }

  lemma UnitCloses(w: string)
    requires All(NotClose, w)
    ensures All(NotClose, UnitOf(w))
  {}

  /** Every such text is read, to its end, as its reading; only the milli variant of the unit has an effect. */
  lemma NumberAccepts(maxDecimals: nat, unit: string, i: string, point: bool, d: string, w: string, tail: string)
    requires IsNumber(maxDecimals, unit, i, point, d, w)
    ensures Number(maxDecimals, unit, NumberText(i, point, d, w) + tail)
         == Ok(Reading(i, d, maxDecimals, unit != "" && UnitOf(w) == "m" + unit), |NumberText(i, point, d, w)|)
  {
    hide Dec, Reading, NumberText, UnitAndClose, All, Skip;
    var s, n := NumberText(i, point, d, w) + tail, |i| + 1;
    NumberParts(maxDecimals, unit, i, point, d, w, tail);
    SkipWithin(IsDigit, s, 1, i);
    if point {
      SkipWithin(IsDigit, s, n + 1, d);
      UnitReads(maxDecimals, unit, i, d, w, s, n + 1 + |d|, tail);
    } else {
      UnitReads(maxDecimals, unit, i, d, w, s, n, tail);
    }
  }

  lemma CloseAfter(maxDecimals: nat, unit: string, i: string, d: string, s: string, j: nat) returns (w: string)
    requires All(IsDigit, i) && All(IsDigit, d) && j <= |s| && UnitAndClose(maxDecimals, unit, i, d, s, j).Ok?
    ensures All(NotClose, w) && (unit == "" ==> w == "") && (w != "" ==> w[0] == s[j])
    ensures var n := UnitAndClose(maxDecimals, unit, i, d, s, j).next;
            j < n <= |s| && s[j..n] == w + ")"
  {
    hide Reading;
    var n := UnitAndClose(maxDecimals, unit, i, d, s, j).next;
    w := s[j..n - 1];
    assert s[j..n] == w + [s[n - 1]];
  }

  /** Nothing else is taken as a number. */
  lemma NumberOnly(maxDecimals: nat, unit: string, s: string) returns (i: string, point: bool, d: string, w: string)
    requires Number(maxDecimals, unit, s).Ok?
    ensures IsNumber(maxDecimals, unit, i, point, d, w)
    ensures var n := Number(maxDecimals, unit, s).next;
            n <= |s| && s == NumberText(i, point, d, w) + s[n..]
  {
    hide Reading, Skip, UnitAndClose;
    var k := Skip(IsDigit, s, 1);
    i, point, d := s[1..k], maxDecimals > 0 && k < |s| && s[k] == '.', "";
    var j := k;
    if point {
      j := Skip(IsDigit, s, k + 1);
      d := s[k + 1..j];
    }
    w := CloseAfter(maxDecimals, unit, i, d, s, j);
    Assembled(s, k, j, UnitAndClose(maxDecimals, unit, i, d, s, j).next, w);
  }

  lemma Assembled(s: string, k: nat, j: nat, n: nat, w: string)
    requires 1 <= k <= j < n <= |s| && s[0] == '(' && s[j..n] == w + ")"
    requires j == k || s[k] == '.'
    ensures s == NumberText(s[1..k], j > k, if j > k then s[k + 1..j] else "", w) + s[n..]
  {
    assert s[..j] == "(" + s[1..k] + if j > k then "." + s[k + 1..j] else "";
    assert s == s[..j] + s[j..n] + s[n..];
  }

  /** How a text is refused: no parenthesis, something else than a digit, or no closing parenthesis. */
  lemma NumberRefused(maxDecimals: nat, unit: string, i: string, c: char, tail: string)
    requires All(IsDigit, i) && !IsDigit(c)
    ensures c != '(' ==> Number(maxDecimals, unit, [c] + tail) == Fail(MissingOpen, 0)
    ensures Number(maxDecimals, unit, "") == Fail(MissingOpen, 0)
    ensures c != '*' && c != '.' && c != ')' && c != '\0' ==>
              Number(maxDecimals, unit, "(" + i + [c] + tail) == Fail(InvalidNumber, |i| + 1)
    ensures Number(maxDecimals, unit, "(" + i) == Fail(if unit == "" then ExtraData else MissingUnit, |i| + 1)
    ensures unit == "" && (c == '*' || c == '\0' || (c == '.' && maxDecimals == 0)) ==>
              Number(maxDecimals, unit, "(" + i + [c] + tail) == Fail(ExtraData, |i| + 1)
  {
    hide Reading;
    var s, t := "(" + i + [c] + tail, "(" + i;
    assert s[1..|i| + 1] == i && s[|i| + 1] == c && t[1..|i| + 1] == i;
    SkipWithin(IsDigit, s, 1, i);
    SkipWithin(IsDigit, t, 1, i);
  }

  // ----------------------------------------------------- numbers in telegrams

  /** What may follow the digits of a number: an asterisk and a unit. */
  function UnitText(star: bool, u: string): string {
    (if star then "*" else "") + u
  }

  /** A number as meters print it: decimals if there is a point, and a unit. */
  function Printed(i: string, point: bool, d: string, star: bool, u: string): string {
    NumberText(i, point, d, UnitText(star, u))
  }

  /** Without an asterisk the unit must not look like more of the number. */
  predicate IsPrinted(i: string, point: bool, d: string, star: bool, u: string) {
    && All(IsDigit, i) && All(IsDigit, d) && (point || d == "") && All(NotClose, u)
    && (star || u == "" || (point && !IsDigit(u[0]) && u[0] != '*'))
  }

  /** Without decimals to keep, decimals and milli-units make no difference. */
  lemma {:induction false} WholeReading(i: string, d: string, milli: bool)
    requires All(IsDigit, i) && All(IsDigit, d)
    ensures Reading(i, d, 0, milli) == Reading(i, "", 0, false) == Dec(i) % U32
  {
    hide Dec;
    assert Taken(d, 0) == "" && i + "" + "" == i && i + "" + Zeros(0) == i;
  }

  /** Every printed number is read, to the end, as its reading. */
  lemma NumberReads(maxDecimals: nat, unit: string, i: string, point: bool, d: string, star: bool, u: string, tail: string)
    requires IsPrinted(i, point, d, star, u)
    requires unit == "" ==> !star && u == "" && (point ==> maxDecimals > 0)
    ensures Number(maxDecimals, unit, Printed(i, point, d, star, u) + tail)
         == Ok(Reading(i, d, maxDecimals, unit != "" && u == "m" + unit), |Printed(i, point, d, star, u)|)
  {
    hide Dec, Reading, NumberText, All, Number;
    PrintedUnit(star, u);
    if point && maxDecimals == 0 {
      PointInUnit(unit, i, d, star, u, tail);
    } else {
      assert UnitOf(UnitText(star, u)) == u;
      NumberAccepts(maxDecimals, unit, i, point, d, UnitText(star, u), tail);
    }
  }

  lemma PrintedUnit(star: bool, u: string)
    requires All(NotClose, u)
    ensures All(NotClose, UnitText(star, u)) && UnitText(star, u) == if star then ['*'] + u else u
  {}

  /** When no decimals are read, the point and the decimals pass for a part of the unit. */
  lemma PointInUnit(unit: string, i: string, d: string, star: bool, u: string, tail: string)
    requires IsPrinted(i, true, d, star, u) && unit != ""
    ensures Number(0, unit, Printed(i, true, d, star, u) + tail)
         == Ok(Reading(i, d, 0, u == "m" + unit), |Printed(i, true, d, star, u)|)
  {
    hide Reading, Number;
    var w := "." + d + UnitText(star, u);
    assert All(NotClose, w);
    assert NumberText(i, false, "", w) == Printed(i, true, d, star, u);
    NumberAccepts(0, unit, i, false, "", w, tail);
    WholeReading(i, d, u == "m" + unit);
    WholeReading(i, "", UnitOf(w) == "m" + unit);
  }

  lemma {:induction false} SkipWithin(p: char -> bool, s: string, k: nat, t: string)
    requires k + |t| <= |s| && s[k..k + |t|] == t && All(p, t)
    requires k + |t| < |s| ==> !p(s[k + |t|])
    ensures Skip(p, s, k) == k + |t|
  {
    assert forall i :: k <= i < k + |t| ==> s[i] == t[i - k];
    SkipIs(p, s, k, k + |t|);
  }

  // ----------------------------------------------------- printing a number

  function DigitChar(d: nat): (c: char)
    requires d <= 9
    ensures IsDigit(c) && Digit(c) == d
  {
    ('0' as int + d) as char
  }

  function Decimal(n: nat): (s: string)
    ensures All(IsDigit, s)
  {
    if n < 10 then [DigitChar(n)] else Decimal(n / 10) + [DigitChar(n % 10)]
  }

  lemma {:induction false} DecOfDecimal(n: nat)
    ensures Dec(Decimal(n)) == n
  {
    if n < 10 {
      DecPush("", DigitChar(n));
      assert "" + [DigitChar(n)] == [DigitChar(n)];
    } else {
      DecOfDecimal(n / 10);
      DecPush(Decimal(n / 10), DigitChar(n % 10));
    }
  }

  function ThreeDigits(n: nat): (s: string)
    requires n < 1000
    ensures |s| == 3 && All(IsDigit, s)
  {
    [DigitChar(n / 100), DigitChar(n / 10 % 10), DigitChar(n % 10)]
  }

  lemma DecOfThreeDigits(n: nat)
    requires n < 1000
    ensures Dec(ThreeDigits(n)) == n
  {
    hide Dec, Digit, DigitChar;
    DecOfThree(DigitChar(n / 100), DigitChar(n / 10 % 10), DigitChar(n % 10));
    DigitsAddUp(n);
  }

  lemma DigitsAddUp(n: nat)
    ensures 100 * (n / 100) + 10 * (n / 10 % 10) + n % 10 == n
  {
    assert n / 10 / 10 == n / 100;
  }

  lemma DecOfThree(a: char, b: char, c: char)
    requires IsDigit(a) && IsDigit(b) && IsDigit(c)
    ensures Dec([a, b, c]) == 100 * Digit(a) + 10 * Digit(b) + Digit(c)
  {
    hide Digit;
    assert [a, b, c][..2] == [a, b] && [a, b][..1] == [a] && [a][..0] == "";
    assert Dec([a]) == Digit(a);
    assert Dec([a, b]) == 10 * Digit(a) + Digit(b);
  }

  /** A stored value in thousands, as a meter prints it in the base unit. */
  function PrintFixed(n: nat, unit: string): string {
    Printed(Decimal(n / 1000), true, ThreeDigits(n % 1000), true, unit)
  }

  /** The same value as a whole number of milli-units. */
  function PrintMilli(n: nat, unit: string): string {
    Printed(Decimal(n), false, "", true, "m" + unit)
  }

  lemma FixedRoundTrip(n: nat, unit: string, tail: string)
    requires n < U32 && unit != "" && All(NotClose, unit)
    ensures Number(3, unit, PrintFixed(n, unit) + tail) == Ok(n, |PrintFixed(n, unit)|)
  {
    hide Dec, Reading, Printed, Number, Decimal, ThreeDigits;
    var i, d := Decimal(n / 1000), ThreeDigits(n % 1000);
    NumberReads(3, unit, i, true, d, true, unit, tail);
    ReadingIsThousands(i, d);
    DecOfDecimal(n / 1000);
    DecOfThreeDigits(n % 1000);
    assert Thousandths(d) == d;
  }

  lemma MilliRoundTrip(n: nat, unit: string, tail: string)
    requires n < U32 && unit != "" && All(NotClose, unit)
    ensures Number(3, unit, PrintMilli(n, unit) + tail) == Ok(n, |PrintMilli(n, unit)|)
  {
    hide Dec, Printed, Reading, Number, Decimal;
    NumberReads(3, unit, Decimal(n), false, "", true, "m" + unit, tail);
    ReadingOf(Decimal(n), "", 3);
    assert Decimal(n) + Taken("", 3) == Decimal(n);
    DecOfDecimal(n);
  }

  // ------------------------------------------------- where the promise ends

  /**
   Decimals of a milli reading are appended to the number instead of being
   dropped. As long as that number fits, the reading is exact exactly when there
   are no decimals or all digits are zeros; beyond, exactly under a congruence
   of the digits.
   */
  lemma {:induction false} MilliDecimals(i: string, d: string)
    requires All(IsDigit, i) && All(IsDigit, d)
    ensures var t := Taken(d, 3);
            && All(IsDigit, i + t)
            && (Dec(i + t) < U32 ==> (Reading(i, d, 3, true) == Dec(i) <==> t == "" || Dec(i + t) == 0))
            && (Reading(i, d, 3, true) == Dec(i) % U32 <==> (Dec(i) * (Pow10(|t|) - 1) + Dec(t)) % U32 == 0)
    ensures d == "" ==> Reading(i, d, 3, true) == Dec(i) % U32
  {
    hide Dec, Pow10, Reading;
    var t := Taken(d, 3);
    ReadingOf(i, d, 3);
    DecAppend(i, t);
    assert Dec(i + t) - Dec(i) == Dec(i) * (Pow10(|t|) - 1) + Dec(t);
    SameResidue(Dec(i + t), Dec(i));
    if t == "" {
      assert i + t == i;
    } else {
      TenFold(Dec(i), |t|);
    }
  }

  lemma {:induction false} TenFold(a: nat, n: nat)
    requires n > 0
    ensures a * Pow10(n) >= 10 * a
  {
    PowerPositive(n - 1);
    assert Pow10(n) >= 10;
  }

  lemma {:induction false} PowerPositive(n: nat)
    ensures Pow10(n) >= 1
  {
    if n > 0 {
      PowerPositive(n - 1);
    }
  }

  lemma SameResidue(a: nat, b: nat)
    ensures a % U32 == b % U32 <==> (a - b) % U32 == 0
  {
    var q, r := a / U32 - b / U32, a % U32 - b % U32;
    assert a - b == q * U32 + r;
  }

  /** 1.5 mA is stored as 15, not as 1. */
  lemma MilliDecimalsCounterexample()
    ensures Number(3, "A", "(1.5*mA)") == Ok(15, 8)
  {
    hide Reading, Number, Dec;
    assert Printed("1", true, "5", true, "mA") + "" == "(1.5*mA)";
    NumberReads(3, "A", "1", true, "5", true, "mA", "");
    ReadingOf("1", "5", 3);
    assert "1" + Taken("5", 3) == "15";
    Fifteen();
  }

  lemma Fifteen()
    ensures All(IsDigit, "15") && Dec("15") == 15
  {
    hide Dec;
    DecEmpty("");
    DecPush("", '1');
    DecPush("1", '5');
    assert "" + ['1'] == "1" && "1" + ['5'] == "15";
  }

  lemma {:induction false} ReadingOf(i: string, d: string, maxDecimals: nat)
    requires All(IsDigit, i) && All(IsDigit, d)
    ensures All(IsDigit, i + Taken(d, maxDecimals))
    ensures Reading(i, d, maxDecimals, true) == Dec(i + Taken(d, maxDecimals)) % U32
  {
    assert i + Taken(d, maxDecimals) + "" == i + Taken(d, maxDecimals);
  }

  /** A number without unit is made of digits in parentheses, possibly with a point ... */
  function Bare(i: string, point: bool, d: string): string {
    Printed(i, point, d, false, "")
  }

  lemma BareNumberReads(maxDecimals: nat, i: string, point: bool, d: string, tail: string)
    requires All(IsDigit, i) && All(IsDigit, d) && (point || d == "") && (point ==> maxDecimals > 0)
    ensures Number(maxDecimals, "", Bare(i, point, d) + tail) == Ok(Reading(i, d, maxDecimals, false), |Bare(i, point, d)|)
  {
    hide Reading, Printed, Number;
    NumberReads(maxDecimals, "", i, point, d, false, "", tail);
  }

  /** ... and nothing else is accepted as one. */
  lemma BareNumberOnly(maxDecimals: nat, s: string) returns (i: string, point: bool, d: string)
    requires Number(maxDecimals, "", s).Ok?
    ensures All(IsDigit, i) && All(IsDigit, d) && (point || d == "") && (point ==> maxDecimals > 0)
    ensures var n := Number(maxDecimals, "", s).next;
            n <= |s| && s == Bare(i, point, d) + s[n..]
  {
    hide Reading, Number, NumberText;
    var w;
    i, point, d, w := NumberOnly(maxDecimals, "", s);
    assert UnitText(false, "") == "" == w;
  }

  /** A number without decimals and without a unit is a run of digits in parentheses ... */
  lemma {:induction false} PlainNumberReads(i: string, tail: string)
    requires All(IsDigit, i)
    ensures Number(0, "", "(" + i + ")" + tail) == Ok(Dec(i) % U32, |i| + 2)
  {
    hide Dec, Reading, Number;
    BareNumberReads(0, i, false, "", tail);
    assert Bare(i, false, "") == "(" + i + ")";
    WholeReading(i, "", false);
  }

  /** ... and nothing else is accepted as one. */
  lemma PlainNumberOnly(s: string)
    requires Number(0, "", s).Ok?
    ensures var n := Number(0, "", s).next;
            2 <= n <= |s| && All(IsDigit, s[1..n - 1]) && s == "(" + s[1..n - 1] + ")" + s[n..]
  {
    hide Reading;
    var n := Number(0, "", s).next;
    assert n == Skip(IsDigit, s, 1) + 1;
  }

  /** The run may be empty, which the comment on OptionalMbusIntField denies. */
  lemma EmptyNumberIsZero(tail: string)
    ensures Number(0, "", "()" + tail) == Ok(0, 2)
  {
    PlainNumberReads("", tail);
    assert "(" + "" + ")" + tail == "()" + tail;
  }
}
