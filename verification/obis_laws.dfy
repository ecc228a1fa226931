/**
 The grammar of OBIS ids, stated without a scanner, and printing against parsing.
 */
module ObisLaws {
  import opened Text
  import opened Numbers
  import opened NumberLaws
  import opened Obis

  /** Part texts of an id from part number `part` on: digits, possibly none. */
  predicate IdParts(part: nat, cs: seq<string>) {
    && 1 <= |cs| && part + |cs| <= 6
    && forall k :: 0 <= k < |cs| ==> All(IsDigit, cs[k])
  }

  function Separator(part: nat): char {
    if part == 0 then '-' else if part == 1 then ':' else '.'
  }

  function Join(part: nat, cs: seq<string>): string
    requires 1 <= |cs|
    decreases |cs|
  {
    if |cs| == 1 then cs[0] else cs[0] + [Separator(part)] + Join(part + 1, cs[1..])
  }

  lemma {:induction false} PartsSound(s: string, part: nat, b: nat)
    requires b <= |s| && part < 6
    ensures var (cs, n) := Parts(s, part, b);
            IdParts(part, cs) && s[b..n] == Join(part, cs)
    decreases |s| - b
  {
    hide Parts, Skip;
    PartsHead(s, part, b);
    var d := Skip(IsDigit, s, b);
    if d < |s| && Separates(part, s[d]) {
      PartsSound(s, part + 1, d + 1);
      var (rest, n) := Parts(s, part + 1, d + 1);
      assert Parts(s, part, b).0[1..] == rest;
      assert s[b..n] == s[b..d] + [s[d]] + s[d + 1..n];
    }
  }

  /** No longer prefix is the text of an id. */
  lemma {:induction false} PartsLongest(s: string, part: nat, b: nat, cs: seq<string>, m: nat)
    requires b <= m <= |s| && IdParts(part, cs) && s[b..m] == Join(part, cs)
    ensures m <= Parts(s, part, b).1
    decreases |cs|
  {
    hide Parts, Skip;
    PartsHead(s, part, b);
    var d, c := Skip(IsDigit, s, b), b + |cs[0]|;
    assert forall i :: b <= i < c ==> s[i] == s[b..m][i - b] == cs[0][i - b];
    assert forall i :: b <= i < c ==> IsDigit(s[i]);
    if |cs| > 1 {
      assert s[c] == s[b..m][c - b] == Separator(part);
      assert c == d;
      assert s[d + 1..m] == s[b..m][c - b + 1..] == Join(part + 1, cs[1..]);
      PartsLongest(s, part + 1, d + 1, cs[1..], m);
    }
  }

  /**
   An id is the longest prefix that is the text of one; it is rejected exactly
   when one of its parts is above 255 or when there is nothing to read.
   */
  lemma {:induction false} ParseIdMeans(s: string)
    ensures var (cs, n) := Parts(s, 0, 0);
            && IdParts(0, cs) && s[..n] == Join(0, cs)
            && (forall cs' :: IdParts(0, cs') && Join(0, cs') <= s ==> |Join(0, cs')| <= n)
            && (ParseId(s).Fail? <==> n == 0 || exists k :: 0 <= k < |cs| && Dec(cs[k]) > 255)
            && (ParseId(s).Ok? ==> ParseId(s) == Ok(Normalise(IdOf(cs)), n))
  {
    hide Parts, Dec, IdOf, Normalise, OverflowAt, Join;
    PartsSound(s, 0, 0);
    forall cs' | IdParts(0, cs') && Join(0, cs') <= s
      ensures |Join(0, cs')| <= Parts(s, 0, 0).1
    {
      PartsLongest(s, 0, 0, cs', |Join(0, cs')|);
    }
    assert s[0..Parts(s, 0, 0).1] == s[..Parts(s, 0, 0).1];
  }

  // --------------------------------------------------- printing and parsing

  function Numerals(vs: seq<nat>): (cs: seq<string>)
    ensures |cs| == |vs|
    ensures forall k :: 0 <= k < |cs| ==> cs[k] == Decimal(vs[k])
  {
    if vs == [] then [] else [Decimal(vs[0])] + Numerals(vs[1..])
  }

  /** One to six values as they are printed; the last ones may be left out. */
  function PrintId(vs: seq<nat>): string
    requires 1 <= |vs|
  {
    Join(0, Numerals(vs))
  }

  function Padded(vs: seq<nat>): ObisId
    requires |vs| <= 6
  {
    vs + [255, 255, 255, 255, 255, 255][|vs|..]
  }

  /** The text ends an id whose last part has number `part`. */
  predicate Ends(part: nat, tail: string) {
    tail != "" ==> !IsDigit(tail[0]) && !Separates(part, tail[0])
  }

  lemma {:induction false} PartsOfJoin(s: string, part: nat, b: nat, cs: seq<string>, tail: string)
    requires IdParts(part, cs) && Ends(part + |cs| - 1, tail)
    requires b <= |s| && s[b..] == Join(part, cs) + tail
    ensures Parts(s, part, b) == (cs, |s| - |tail|)
    decreases |cs|
  {
    hide Parts, Skip;
    PartsHead(s, part, b);
    var d := b + |cs[0]|;
    assert forall i :: b <= i < d ==> s[i] == s[b..][i - b] == cs[0][i - b];
    assert s[b..d] == cs[0];
    if |cs| == 1 {
      assert d < |s| ==> s[d] == s[b..][d - b] == tail[0];
      assert cs == [cs[0]] && |s| - b == |cs[0]| + |tail|;
      SkipIs(IsDigit, s, b, d);
    } else {
      assert s[d] == s[b..][d - b] == Separator(part);
      SkipIs(IsDigit, s, b, d);
      assert s[d + 1..] == s[b..][d - b + 1..] == Join(part + 1, cs[1..]) + tail;
      PartsOfJoin(s, part + 1, d + 1, cs[1..], tail);
      assert [cs[0]] + cs[1..] == cs;
    }
  }

  /** Parsing undoes printing, up to the normalisation of channel 1-1, which is idempotent. */
  lemma PrintParseId(vs: seq<nat>, tail: string)
    requires 1 <= |vs| <= 6 && Ends(|vs| - 1, tail)
    requires forall k :: 0 <= k < |vs| ==> vs[k] <= 255
    ensures ParseId(PrintId(vs) + tail) == Ok(Normalise(Padded(vs)), |PrintId(vs)|)
    ensures Normalise(Normalise(Padded(vs))) == Normalise(Padded(vs))
  {
    hide Parts, Dec, Decimal, Join, OverflowAt;
    var s, cs := PrintId(vs) + tail, Numerals(vs);
    assert s[0..] == s;
    PartsOfJoin(s, 0, 0, cs, tail);
    forall k | 0 <= k < |vs|
      ensures Dec(cs[k]) == vs[k]
    {
      DecOfDecimal(vs[k]);
    }
    assert IdOf(cs) == Padded(vs);
    PrintsSomething(vs);
  }

  lemma PrintsSomething(vs: seq<nat>)
    requires 1 <= |vs|
    ensures |PrintId(vs)| > 0
  {
    assert Numerals(vs)[0] == Decimal(vs[0]);
  }

  // ------------------------------------------------------ the channel of 1-1

  /**
   The components of a printed id are read back, missing ones as 255, except
   that channel 1 of medium 1 becomes channel 0.
   */
  lemma PrintedComponents(vs: seq<nat>, tail: string)
    requires 1 <= |vs| <= 6 && Ends(|vs| - 1, tail)
    requires forall k :: 0 <= k < |vs| ==> vs[k] <= 255
    ensures ParseId(PrintId(vs) + tail).Ok?
    ensures var id := ParseId(PrintId(vs) + tail).value;
            forall k :: 0 <= k < 6 ==>
              id[k] == if k == 1 && |vs| >= 2 && vs[0] == 1 && vs[1] == 1 then 0
                       else if k < |vs| then vs[k] else 255
  {
    hide ParseId, PrintId;
    PrintParseId(vs, tail);
  }

  lemma {:induction false} SameSkip(p: char -> bool, s: string, t: string, k: nat)
    requires k <= |s| == |t| && forall i :: k <= i < |s| ==> s[i] == t[i]
    ensures Skip(p, s, k) == Skip(p, t, k)
  {
    SkipIs(p, t, k, Skip(p, s, k));
  }

  /** What is read from a position on does not depend on the text before it. */
  lemma {:induction false} SameParts(s: string, t: string, part: nat, b: nat)
    requires b <= |s| == |t| && forall i :: b <= i < |s| ==> s[i] == t[i]
    ensures Parts(s, part, b) == Parts(t, part, b)
    decreases |s| - b
  {
    hide Skip;
    SameSkip(IsDigit, s, t, b);
    var d := Skip(IsDigit, s, b);
    SameSlice(s, t, b, d);
    if d < |s| && Separates(part, s[d]) {
      SameParts(s, t, part + 1, d + 1);
    }
  }

  lemma {:induction false} ChannelParts(a: char, s: string)
    requires IsDigit(a)
    ensures var t := "1-" + [a] + ":" + s;
            Parts(t, 0, 0) == (["1", [a]] + Parts(t, 2, 4).0, Parts(t, 2, 4).1)
  {
    hide Parts, Skip;
    var t := "1-" + [a] + ":" + s;
    assert t[0] == '1' && t[1] == '-' && t[2] == a && t[3] == ':';
    PartsHead(t, 0, 0);
    SkipIs(IsDigit, t, 0, 1);
    PartsHead(t, 1, 2);
    SkipIs(IsDigit, t, 2, 3);
    assert t[0..1] == "1" && t[2..3] == [a];
    Associative(["1"], [[a]], Parts(t, 2, 4).0);
    assert ["1"] + [[a]] == ["1", [a]];
  }

  lemma DigitValue(a: char)
    requires IsDigit(a)
    ensures Dec([a]) == a as int - '0' as int
  {
    DecPush("", a);
    assert "" + [a] == [a];
  }

  lemma ChannelIds(rest: seq<string>)
    requires (forall k :: 0 <= k < |rest| ==> All(IsDigit, rest[k])) && AllWithin255(rest)
    ensures var cs, cs' := ["1", "1"] + rest, ["1", "0"] + rest;
            && (forall k :: 0 <= k < |cs| ==> All(IsDigit, cs[k]) && All(IsDigit, cs'[k]))
            && AllWithin255(cs) && AllWithin255(cs') && Normalise(IdOf(cs)) == Normalise(IdOf(cs'))
  {
    hide Dec;
    DigitValue('1');
    DigitValue('0');
    var cs, cs' := ["1", "1"] + rest, ["1", "0"] + rest;
    assert Dec(cs[0]) == 1 && Dec(cs'[0]) == 1 && Dec(cs[1]) == 1 && Dec(cs'[1]) == 0;
    assert forall k :: 2 <= k < |cs| ==> cs[k] == rest[k - 2] == cs'[k];
    assert IdOf(cs)[1 := 0] == IdOf(cs');
  }

  lemma ChannelOverflows(rest: seq<string>)
    requires (forall k :: 0 <= k < |rest| ==> All(IsDigit, rest[k])) && !AllWithin255(rest)
    ensures var cs, cs' := ["1", "1"] + rest, ["1", "0"] + rest;
            && (forall k :: 0 <= k < |cs| ==> All(IsDigit, cs[k]) && All(IsDigit, cs'[k]))
            && !AllWithin255(cs) && !AllWithin255(cs') && OverflowAt(cs, 0) == OverflowAt(cs', 0)
  {
    hide Dec, OverflowAt, Width;
    DigitValue('1');
    DigitValue('0');
    OverflowSkips(["1", "1"], rest, 0);
    OverflowSkips(["1", "0"], rest, 0);
    ShortWidth("1", "1");
    ShortWidth("1", "0");
  }

  /** A text that begins with 1-1: is read as the one that begins with 1-0: in its place, failures included. */
  lemma ChannelOneIsZero(s: string)
    ensures ParseId("1-1:" + s) == ParseId("1-0:" + s)
  {
    hide Parts, Dec, OverflowAt, Skip, IdOf, Normalise, AllWithin255;
    var t, u := "1-1:" + s, "1-0:" + s;
    assert t == "1-" + ['1'] + ":" + s && u == "1-" + ['0'] + ":" + s;
    ChannelParts('1', s);
    ChannelParts('0', s);
    SameParts(t, u, 2, 4);
    assert ['1'] == "1" && ['0'] == "0";
    var rest := Parts(t, 2, 4).0;
    if AllWithin255(rest) {
      ChannelIds(rest);
    } else {
      ChannelOverflows(rest);
    }
  }

  lemma ShortWidth(a: string, b: string)
    ensures Width([a, b]) == |a| + |b| + 2
  {
    assert [a, b][..1] == [a] && [a][..0] == [];
    WidthPush([], a);
    WidthPush([a], b);
    assert [] + [a] == [a] && [a] + [b] == [a, b];
  }

  // ------------------------------------------------------- where it overflows

  lemma {:induction false} WithinMeans(digits: string)
    requires All(IsDigit, digits) && Dec(digits) > 255
    ensures var k := Within255(digits);
            k < |digits| && Dec(digits[..k]) <= 255 < Dec(digits[..k + 1])
  {
    hide Dec;
    DecEmpty("");
    var shorter := digits[..|digits| - 1];
    if Dec(shorter) <= 255 {
      assert digits[..|digits|] == digits;
    } else {
      WithinMeans(shorter);
      var k := Within255(shorter);
      assert digits[..k] == shorter[..k] && digits[..k + 1] == shorter[..k + 1];
    }
  }

  /** The parts before the position are those of an id within bounds; the digit there takes the last one above 255. */
  predicate OverflowsAt(part: nat, cs: seq<string>, c: char) {
    && IdParts(part, cs) && IsDigit(c) && AllWithin255(cs)
    && All(IsDigit, cs[|cs| - 1] + [c]) && Dec(cs[|cs| - 1] + [c]) > 255
  }

  lemma OverflowInFirst(part: nat, cs: seq<string>) returns (before: seq<string>)
    requires IdParts(part, cs) && Dec(cs[0]) > 255
    ensures var p, text := Within255(cs[0]), Join(part, cs);
            p < |text| && OverflowsAt(part, before, text[p]) && text[..p] == Join(part, before)
  {
    hide Dec, Within255;
    WithinMeans(cs[0]);
    var k := Within255(cs[0]);
    before := [cs[0][..k]];
    assert cs[0][..k] + [cs[0][k]] == cs[0][..k + 1];
    assert Join(part, cs)[..k] == cs[0][..k] && Join(part, cs)[k] == cs[0][k];
  }

  lemma {:induction false} OverflowInJoin(part: nat, cs: seq<string>, b: nat) returns (before: seq<string>)
    requires IdParts(part, cs) && !AllWithin255(cs)
    ensures var p, text := OverflowAt(cs, b) - b, Join(part, cs);
            0 <= p < |text| && OverflowsAt(part, before, text[p]) && text[..p] == Join(part, before)
    decreases |cs|
  {
    hide Dec, Within255;
    if Dec(cs[0]) > 255 {
      before := OverflowInFirst(part, cs);
    } else {
      var rest := cs[1..];
      assert !AllWithin255(rest) by {
        var k :| 0 <= k < |cs| && Dec(cs[k]) > 255;
        assert rest[k - 1] == cs[k];
      }
      var more := OverflowInJoin(part + 1, rest, b + |cs[0]| + 1);
      before := [cs[0]] + more;
      assert before[|before| - 1] == more[|more| - 1];
      JoinPrefix(part, cs, more, OverflowAt(rest, b + |cs[0]| + 1) - (b + |cs[0]| + 1));
    }
  }

  lemma {:induction false} JoinPrefix(part: nat, cs: seq<string>, more: seq<string>, p: nat)
    requires |cs| > 1 && |more| >= 1
    requires p < |Join(part + 1, cs[1..])| && Join(part + 1, cs[1..])[..p] == Join(part + 1, more)
    ensures var n, text := |cs[0]| + 1 + p, Join(part, cs);
            n < |text| && text[..n] == Join(part, [cs[0]] + more) && text[n] == Join(part + 1, cs[1..])[p]
  {
    var before, head := [cs[0]] + more, cs[0] + [Separator(part)];
    assert before[1..] == more;
    assert Join(part, cs) == head + Join(part + 1, cs[1..]) && Join(part, before) == head + Join(part + 1, more);
  }

  /** An overflow is reported at the first digit that takes a part above 255. */
  lemma OverflowPosition(s: string) returns (before: seq<string>)
    requires ParseId(s).Fail? && ParseId(s).err == ObisOverflow
    ensures var p := ParseId(s).ctx;
            p < |s| && OverflowsAt(0, before, s[p]) && s[..p] == Join(0, before)
  {
    hide Parts, Dec, OverflowAt, Join;
    PartsSound(s, 0, 0);
    var (cs, n) := Parts(s, 0, 0);
    before := OverflowInJoin(0, cs, 0);
    var p := OverflowAt(cs, 0);
    assert s[0..n][..p] == s[..p] && s[0..n][p] == s[p];
  }
}
