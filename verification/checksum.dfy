/**
 The four checksum characters after the end marker: CrcParser of parser3.h and
 the %04X printing of the readers.
 */
module Checksum {
  import opened Crc16
  import opened Text

  const CRC_LEN: nat := 4

  /** The value of a hexadecimal digit, -1 for any other character. */
  function HexNibble(c: char): (n: int)
    ensures -1 <= n <= 15
  {
    if '0' <= c <= '9' then c as int - '0' as int
    else if 'A' <= c <= 'F' then c as int - 'A' as int + 10
    else if 'a' <= c <= 'f' then c as int - 'a' as int + 10
    else -1
  }

  /** isxdigit */
  predicate IsHex(c: char) {
    HexNibble(c) >= 0
  }

  /** isspace */
  predicate IsSpace(c: char) {
    c == ' ' || 9 <= c as int <= 13
  }

  function PushNibble(v: bv16, n: bv16): bv16 {
    (v << 4) | n
  }

  /** The low sixteen bits of the number that hexadecimal digits denote. */
  function HexValue(s: string): bv16
    requires All(IsHex, s)
  {
    if s == "" then 0
    else PushNibble(HexValue(s[..|s| - 1]), Bits(HexNibble(s[|s| - 1]), 4))
  }

  /** How many characters strtoul skips before the digits: white space, a sign, 0x. */
  function Lead(s: string): (n: nat)
    ensures n <= |s|
  {
    var i := Skip(IsSpace, s, 0);
    var j := if i < |s| && (s[i] == '+' || s[i] == '-') then i + 1 else i;
    if j + 2 < |s| && s[j] == '0' && (s[j + 1] == 'x' || s[j + 1] == 'X') && IsHex(s[j + 2]) then j + 2 else j
  }

  /** strtoul in base 16, cut to uint16_t, with the number of characters it used. */
  function Strtoul(s: string): (r: (bv16, nat))
    ensures r.1 <= |s|
  {
    var k := Lead(s);
    var d := Skip(IsHex, s, k);
    if d == k then (0, 0) else
    var v := HexValue(s[k..d]);
    (if '-' in s[..k] then -v else v, d)
  }

  /** CrcParser::parse on the text from the first checksum character. */
  function CrcParse(s: string): Parsed<bv16> {
    if |s| < CRC_LEN then Fail(NoChecksum, 0) else
    var (v, n) := Strtoul(s[..CRC_LEN]);
    if n != CRC_LEN then Fail(MalformedChecksum, 0) else Ok(v, CRC_LEN)
  }

  /** Hexadecimal digits are read as the number they denote. */
  lemma {:induction false} CrcParseHex(s: string)
    requires |s| == CRC_LEN && All(IsHex, s)
    ensures CrcParse(s) == Ok(HexValue(s), CRC_LEN)
  {
    hide HexValue;
    assert s[..CRC_LEN] == s;
    HexLead(s);
    SkipIs(IsHex, s, 0, 4);
    assert s[0..4] == s;
  }

  /** The digits after what strtoul skips, negated after a minus sign. */
  function SignedValue(s: string): bv16
    requires All(IsHex, s[Lead(s)..])
  {
    var v := HexValue(s[Lead(s)..]);
    if '-' in s[..Lead(s)] then -v else v
  }

  /** Four characters that denote a checksum for strtoul. */
  predicate Denotes(s: string, crc: bv16) {
    |s| == CRC_LEN && Lead(s) < CRC_LEN && All(IsHex, s[Lead(s)..]) && SignedValue(s) == crc
  }

  /**
   The suffix of exactly four hexadecimal digits that DESIGN.md asks for is not
   all that is taken: what strtoul skips first may take the place of digits,
   and a minus sign negates the number that is left.
   */
  lemma CrcParseAccepts(s: string)
    requires |s| == CRC_LEN
    ensures CrcParse(s).Ok? <==> Lead(s) < CRC_LEN && All(IsHex, s[Lead(s)..])
    ensures CrcParse(s).Ok? ==> CrcParse(s) == Ok(SignedValue(s), CRC_LEN)
    ensures CrcParse(s).Ok? ==> (Lead(s) == 0 <==> All(IsHex, s))
  {
    hide HexValue, Lead;
    assert s[..CRC_LEN] == s;
    var k := Lead(s);
    assert forall i :: k <= i < |s| ==> s[k..][i - k] == s[i];
    if All(IsHex, s[k..]) {
      assert forall i :: k <= i < |s| ==> IsHex(s[i]);
      SkipIs(IsHex, s, k, |s|);
      assert s[k..|s|] == s[k..];
    }
    if All(IsHex, s) {
      HexLead(s);
    }
  }

  lemma HexLead(s: string)
    requires |s| == CRC_LEN && All(IsHex, s)
    ensures Lead(s) == 0
  {
    assert IsHex(s[0]) && IsHex(s[1]);
    SkipIs(IsSpace, s, 0, 0);
  }

  /** The digits are those of both cases, and nothing else. */
  lemma HexNibbleMeans(c: char, k: nat)
    requires k < 16
    ensures HexNibble("0123456789ABCDEF"[k]) == k && HexNibble("0123456789abcdef"[k]) == k
    ensures HexNibble(c) >= 0 <==> c in "0123456789ABCDEF" || c in "0123456789abcdef"
  {
    var upper, lower := "0123456789ABCDEF", "0123456789abcdef";
    if HexNibble(c) >= 0 {
      var n := HexNibble(c);
      assert c == upper[n] || c == lower[n];
    }
  }

  /** Blank, tab, line feed, vertical tab, form feed and carriage return. */
  lemma IsSpaceMeans(c: char)
    ensures IsSpace(c) <==> c in " \t\n\U{0B}\U{0C}\r"
  {
    var all := " \t\n\U{0B}\U{0C}\r";
    assert all[0] == ' ' && all[1] == '\t' && all[2] == '\n' && all[3] == '\U{0B}' && all[4] == '\U{0C}' && all[5] == '\r';
  }

  /** White space, a sign and 0x may stand before the digits, each of them once at most but for the white space. */
  predicate IsNumeral(w: string, sign: string, prefix: string, h: string) {
    && All(IsSpace, w) && (sign == "" || sign == "+" || sign == "-")
    && (prefix == "" || prefix == "0x" || prefix == "0X") && h != "" && All(IsHex, h)
  }

  lemma {:induction false} SpacesEnd(w: string, more: string)
    requires All(IsSpace, w) && more != "" && !IsSpace(more[0])
    ensures Skip(IsSpace, w + more, 0) == |w|
  {
    var s := w + more;
    assert forall k :: 0 <= k < |w| ==> s[k] == w[k];
    assert s[|w|] == more[0];
    SkipIs(IsSpace, s, 0, |w|);
  }

  lemma HexIsPlain(h: string)
    requires h != "" && All(IsHex, h)
    ensures !IsSpace(h[0]) && h[0] != '+' && h[0] != '-' && (|h| > 1 ==> h[1] != 'x' && h[1] != 'X')
  {
    assert IsHex(h[0]) && (|h| > 1 ==> IsHex(h[1]));
  }

  /** The characters where the parts of a numeral meet. */
  lemma NumeralLies(w: string, sign: string, prefix: string, h: string)
    requires h != "" && (prefix == "" || |prefix| == 2)
    ensures var s, i, j := w + sign + prefix + h, |w|, |w| + |sign|;
            && s == w + (sign + prefix + h)
            && (sign + prefix + h)[0] == s[i]
            && (sign != "" ==> s[i] == sign[0])
            && (prefix != "" ==> s[j] == prefix[0] && s[j + 1] == prefix[1] && s[j + 2] == h[0])
            && (prefix == "" ==> s[j] == h[0] && (|h| > 1 ==> s[j + 1] == h[1]) && |s| == j + |h|)
            && s[j + |prefix|..] == h && s[..j + |prefix|] == w + sign + prefix
  {
    var s := w + sign + prefix + h;
    Glued(w + sign + prefix, h);
    Associative(w + sign, prefix, h);
    Glued(w + sign, prefix + h);
    Associative(w, sign, prefix + h);
    Associative(sign, prefix, h);
    Glued(w, sign + prefix + h);
    assert s[|w| + |sign|] == (prefix + h)[0] && (|prefix + h| > 1 ==> s[|w| + |sign| + 1] == (prefix + h)[1]);
  }

  lemma LeadOfNumeral(w: string, sign: string, prefix: string, h: string)
    requires IsNumeral(w, sign, prefix, h)
    ensures var s := w + sign + prefix + h;
            && Lead(s) == |w| + |sign| + |prefix| && s[Lead(s)..] == h
            && ('-' in s[..Lead(s)] <==> sign == "-")
  {
    hide Skip, IsSpace, HexNibble, All;
    HexIsPlain(h);
    SignsAreNoSpace();
    NumeralLies(w, sign, prefix, h);
    SpacesEnd(w, sign + prefix + h);
    NoMinus(w, sign, prefix);
    FirstIsHex(h);
  }

  lemma FirstIsHex(h: string)
    requires h != "" && All(IsHex, h)
    ensures IsHex(h[0])
  {}

  lemma SignsAreNoSpace()
    ensures !IsSpace('+') && !IsSpace('-') && !IsSpace('0') && IsHex('0')
  {}

  lemma NoMinus(w: string, sign: string, prefix: string)
    requires All(IsSpace, w) && (sign == "" || sign == "+" || sign == "-") && (prefix == "" || prefix == "0x" || prefix == "0X")
    ensures '-' in w + sign + prefix <==> sign == "-"
  {
    assert forall k :: 0 <= k < |w| ==> IsSpace(w[k]) && w[k] != '-';
    assert '-' !in prefix;
    assert sign == "-" ==> sign[0] == '-';
  }

  /** Four characters of that form are read as the number of the digits, negated after a minus sign ... */
  lemma {:induction false} NumeralReads(w: string, sign: string, prefix: string, h: string)
    requires IsNumeral(w, sign, prefix, h) && |w + sign + prefix + h| == CRC_LEN
    ensures CrcParse(w + sign + prefix + h) == Ok(if sign == "-" then -HexValue(h) else HexValue(h), CRC_LEN)
  {
    hide HexValue, Lead, CrcParse;
    LeadOfNumeral(w, sign, prefix, h);
    CrcParseAccepts(w + sign + prefix + h);
  }

  /** ... and no others are accepted. */
  lemma NumeralOnly(s: string) returns (w: string, sign: string, prefix: string, h: string)
    requires |s| == CRC_LEN && CrcParse(s).Ok?
    ensures IsNumeral(w, sign, prefix, h) && s == w + sign + prefix + h
  {
    hide CrcParse, SignedValue, HexNibble, IsSpace, IsHex;
    CrcParseAccepts(s);
    var i, k := Skip(IsSpace, s, 0), Lead(s);
    var j := if i < |s| && (s[i] == '+' || s[i] == '-') then i + 1 else i;
    w, sign, prefix, h := s[..i], s[i..j], s[j..k], s[k..];
    FourParts(s, i, j, k);
  }

  lemma FourParts(s: string, i: nat, j: nat, k: nat)
    requires i <= j <= k <= |s| && j - i <= 1 && (k == j || k == j + 2)
    ensures s == s[..i] + s[i..j] + s[j..k] + s[k..]
    ensures s[i..j] == if j > i then [s[i]] else ""
    ensures s[j..k] == if k > j then [s[j], s[j + 1]] else ""
  {}

  // ------------------------------------------------------- printing, %04X

  function HexDigit(n: bv16): char {
    if n == 0 then '0' else if n == 1 then '1' else if n == 2 then '2' else if n == 3 then '3'
    else if n == 4 then '4' else if n == 5 then '5' else if n == 6 then '6' else if n == 7 then '7'
    else if n == 8 then '8' else if n == 9 then '9' else if n == 10 then 'A' else if n == 11 then 'B'
    else if n == 12 then 'C' else if n == 13 then 'D' else if n == 14 then 'E' else 'F'
  }

  function PrintCrc(v: bv16): string {
    [HexDigit(v >> 12), HexDigit((v >> 8) & 0xF), HexDigit((v >> 4) & 0xF), HexDigit(v & 0xF)]
  }

  lemma SmallCases(n: bv16)
    requires n <= 15
    ensures n == 0 || n == 1 || n == 2 || n == 3 || n == 4 || n == 5 || n == 6 || n == 7
         || n == 8 || n == 9 || n == 10 || n == 11 || n == 12 || n == 13 || n == 14 || n == 15
  {}

  lemma DigitBits()
    ensures Bits(0, 4) == 0 && Bits(1, 4) == 1 && Bits(2, 4) == 2 && Bits(3, 4) == 3
    ensures Bits(4, 4) == 4 && Bits(5, 4) == 5 && Bits(6, 4) == 6 && Bits(7, 4) == 7
    ensures Bits(8, 4) == 8 && Bits(9, 4) == 9 && Bits(10, 4) == 10 && Bits(11, 4) == 11
    ensures Bits(12, 4) == 12 && Bits(13, 4) == 13 && Bits(14, 4) == 14 && Bits(15, 4) == 15
  {}

  lemma HexDigitRoundTrip(n: bv16)
    requires n <= 15
    ensures IsHex(HexDigit(n)) && Bits(HexNibble(HexDigit(n)), 4) == n
  {
    hide Bits;
    DigitBits();
    SmallCases(n);
  }

  lemma FourNibbles(v: bv16)
    ensures v >> 12 <= 15 && (v >> 8) & 0xF <= 15 && (v >> 4) & 0xF <= 15 && v & 0xF <= 15
    ensures PushNibble(PushNibble(PushNibble(PushNibble(0, v >> 12), (v >> 8) & 0xF), (v >> 4) & 0xF), v & 0xF) == v
  {}

  lemma {:induction false} HexValueFour(s: string)
    requires |s| == 4 && All(IsHex, s)
    ensures HexValue(s) ==
            PushNibble(PushNibble(PushNibble(PushNibble(0,
              Bits(HexNibble(s[0]), 4)), Bits(HexNibble(s[1]), 4)), Bits(HexNibble(s[2]), 4)), Bits(HexNibble(s[3]), 4))
  {
    hide Bits, PushNibble;
    assert s[..3][..2] == s[..2] && s[..2][..1] == s[..1] && s[..1][..0] == "";
    assert HexValue(s[..1]) == PushNibble(0, Bits(HexNibble(s[0]), 4));
    assert HexValue(s[..2]) == PushNibble(HexValue(s[..1]), Bits(HexNibble(s[1]), 4));
  }

  /** The letters are printed in upper case. */
  lemma PrintsUpperCase(v: bv16, k: nat)
    requires k < CRC_LEN
    ensures |PrintCrc(v)| == CRC_LEN && PrintCrc(v)[k] in "0123456789ABCDEF"
  {
    UpperDigit(v >> 12);
    UpperDigit((v >> 8) & 0xF);
    UpperDigit((v >> 4) & 0xF);
    UpperDigit(v & 0xF);
  }

  lemma UpperDigit(n: bv16)
    ensures HexDigit(n) in "0123456789ABCDEF"
  {
    var upper := "0123456789ABCDEF";
    assert upper[0] == '0' && upper[1] == '1' && upper[2] == '2' && upper[3] == '3' && upper[4] == '4' && upper[5] == '5';
    assert upper[6] == '6' && upper[7] == '7' && upper[8] == '8' && upper[9] == '9' && upper[10] == 'A' && upper[11] == 'B';
    assert upper[12] == 'C' && upper[13] == 'D' && upper[14] == 'E' && upper[15] == 'F';
  }

  /** Printing a CRC and reading it back is the identity on all sixteen bit values. */
  lemma PrintParse(v: bv16)
    ensures |PrintCrc(v)| == CRC_LEN && All(IsHex, PrintCrc(v))
    ensures CrcParse(PrintCrc(v)) == Ok(v, CRC_LEN)
  {
    hide Bits, HexDigit, HexNibble, PushNibble, CrcParse;
    FourNibbles(v);
    HexDigitRoundTrip(v >> 12);
    HexDigitRoundTrip((v >> 8) & 0xF);
    HexDigitRoundTrip((v >> 4) & 0xF);
    HexDigitRoundTrip(v & 0xF);
    HexValueFour(PrintCrc(v));
    CrcParseHex(PrintCrc(v));
  }
}
