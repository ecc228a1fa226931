/**
 Parenthesised values: StringParser and NumParser of parser3.h.
 Each specification works on the text between the two cursors; each method
 moves cursors through the whole text.
 */
module Numbers {
  import opened Text

  const U32: nat := 0x1_0000_0000

  // ------------------------------------------------------- decimal numerals

  function Digit(c: char): (d: nat)
    requires IsDigit(c)
    ensures d <= 9
  {
    c as int - '0' as int
  }

  /** The number that decimal digits denote; no digits denote 0. */
  function Dec(s: string): nat
    requires All(IsDigit, s)
  {
    if s == "" then 0 else Dec(s[..|s| - 1]) * 10 + Digit(s[|s| - 1])
  }

  function Pow10(n: nat): nat {
    if n == 0 then 1 else 10 * Pow10(n - 1)
  }

  function Zeros(n: nat): (s: string)
    ensures |s| == n && All(IsDigit, s)
  {
    if n == 0 then "" else Zeros(n - 1) + ['0']
  }

  lemma {:induction false} DecPush(s: string, c: char)
    requires All(IsDigit, s) && IsDigit(c)
    ensures All(IsDigit, s + [c])
    ensures Dec(s + [c]) == Dec(s) * 10 + Digit(c)
  {
    assert (s + [c])[..|s|] == s;
  }

  lemma {:induction false} DecAppend(s: string, t: string)
    requires All(IsDigit, s) && All(IsDigit, t)
    ensures All(IsDigit, s + t)
    ensures Dec(s + t) == Dec(s) * Pow10(|t|) + Dec(t)
  {
    hide Dec, Pow10;
    PowersOfTen(|t|);
    if t == "" {
      DecEmpty(t);
      assert s + t == s;
    } else {
      var u, c := t[..|t| - 1], t[|t| - 1];
      DecAppend(s, u);
      DecPush(s + u, c);
      DecPush(u, c);
      assert s + t == s + u + [c] && t == u + [c];
      TimesTen(Dec(s), Pow10(|u|));
    }
  }

  lemma PowersOfTen(n: nat)
    ensures if n == 0 then Pow10(n) == 1 else Pow10(n) == 10 * Pow10(n - 1)
  {}

  lemma TimesTen(a: nat, p: nat)
    ensures a * (10 * p) == a * p * 10
  {}

  lemma {:induction false} DecZeros(n: nat)
    ensures Dec(Zeros(n)) == 0
  {
    if n > 0 {
      DecZeros(n - 1);
      DecPush(Zeros(n - 1), '0');
    }
  }

  /** Multiply by ten and add, as uint32_t does it. */
  function PushWrapped(v: nat, d: nat): nat {
    ((v * 10) % U32 + d) % U32
  }

  lemma {:induction false} PushWraps(s: string, c: char)
    requires All(IsDigit, s) && IsDigit(c)
    ensures All(IsDigit, s + [c])
    ensures PushWrapped(Dec(s) % U32, Digit(c)) == Dec(s + [c]) % U32
  {
    hide Dec;
    DecPush(s, c);
    WrapStep(Dec(s), Digit(c));
  }

  lemma WrapStep(v: nat, d: nat)
    ensures PushWrapped(v % U32, d) == (v * 10 + d) % U32
  {
    var r := v % U32;
    WrapAdd(r * 10, d, (r * 10) / U32);
    WrapAdd(v * 10, d, 10 * (v / U32) + (r * 10) / U32);
  }

  lemma WrapAdd(x: nat, d: nat, k: nat)
    requires x >= k * U32
    ensures (x - k * U32 + d) % U32 == (x + d) % U32
  {
    WrapIs(x - k * U32 + d, k);
  }

  lemma WrapIs(y: nat, k: nat)
    ensures (y + k * U32) % U32 == y % U32
  {
    if k > 0 {
      WrapIs(y, k - 1);
    }
  }

  // ----------------------------------------------------------- StringParser

  function StringValue(min: nat, max: nat, s: string): Parsed<string> {
    if s == "" || s[0] != '(' then Fail(MissingOpen, 0) else
    var n := Skip(NotClose, s, 1);
    if n == |s| then Fail(MissingClose, n)
    else if n - 1 < min || n - 1 > max then Fail(InvalidStringLength, 1)
    else Ok(UpToNul(s[1..n]), n + 1)
  }

  method ParseString(min: nat, max: nat, s: string) returns (res: Parsed<string>)
    ensures res == StringValue(min, max, s)
  {
    if |s| == 0 || s[0] != '(' {
      return Fail(MissingOpen, 0);
    }
    var start := 1;
    var stop := start;
    while stop < |s| && s[stop] != ')'
      invariant 1 <= stop <= |s|
      invariant forall i :: 1 <= i < stop ==> NotClose(s[i])
    {
      stop := stop + 1;
    }
    SkipIs(NotClose, s, 1, stop);
    if stop == |s| {
      return Fail(MissingClose, stop);
    }
    var len := stop - start;
    if len < min || len > max {
      return Fail(InvalidStringLength, start);
    }
    res := Ok(UpToNul(s[start..stop]), stop + 1);
  }

  // -------------------------------------------------------------- NumParser

  /** strchr("*.)", c), which also finds the terminating NUL. */
  predicate IsStop(c: char) {
    c == '*' || c == '.' || c == ')' || c == '\0'
  }

  /** The decimals that are kept out of d. */
  function Taken(d: string, maxDecimals: nat): string {
    if |d| <= maxDecimals then d else d[..maxDecimals]
  }

  /**
   The stored number: the integer digits followed by exactly maxDecimals
   decimals, except that a reading in milli-units gets no padding.
   */
  function Reading(i: string, d: string, maxDecimals: nat, milli: bool): nat
    requires All(IsDigit, i) && All(IsDigit, d)
  {
    var t := Taken(d, maxDecimals);
    var padding := if milli then "" else Zeros(maxDecimals - |t|);
    Dec(i + t + padding) % U32
  }

  /** What follows the digits i and d, which end at position j of s. */
  function UnitAndClose(maxDecimals: nat, unit: string, i: string, d: string, s: string, j: nat): Parsed<nat>
    requires All(IsDigit, i) && All(IsDigit, d) && j <= |s|
  {
    if unit != "" && j == |s| then Fail(MissingUnit, j) else
    var u := if unit != "" && s[j] == '*' then j + 1 else j;
    var k := if unit == "" then j else Skip(NotClose, s, u);
    if k == |s| || s[k] != ')' then Fail(ExtraData, k)
    else Ok(Reading(i, d, maxDecimals, unit != "" && s[u..k] == "m" + unit), k + 1)
  }

  function Number(maxDecimals: nat, unit: string, s: string): Parsed<nat> {
    if s == "" || s[0] != '(' then Fail(MissingOpen, 0) else
    var i := Skip(IsDigit, s, 1);
    if i < |s| && !IsStop(s[i]) then Fail(InvalidNumber, i)
    else if maxDecimals > 0 && i < |s| && s[i] == '.' then
      var j := Skip(IsDigit, s, i + 1);
      UnitAndClose(maxDecimals, unit, s[1..i], s[i + 1..j], s, j)
    else
      UnitAndClose(maxDecimals, unit, s[1..i], "", s, i)
  }

  method ParseNumber(maxDecimals: nat, unit: string, s: string) returns (res: Parsed<nat>)
    ensures res == Number(maxDecimals, unit, s)
  {
    hide Dec, Zeros;
    if |s| == 0 || s[0] != '(' {
      return Fail(MissingOpen, 0);
    }
    var numEnd := 1;
    var value := 0;
    DecEmpty(s[1..numEnd]);
    while numEnd < |s| && !IsStop(s[numEnd])
      invariant 1 <= numEnd <= |s|
      invariant forall i :: 1 <= i < numEnd ==> IsDigit(s[i])
      invariant value == Dec(s[1..numEnd]) % U32
    {
      if s[numEnd] < '0' || s[numEnd] > '9' {
        SkipIs(IsDigit, s, 1, numEnd);
        return Fail(InvalidNumber, numEnd);
      }
      PushSlice("", s, 1, numEnd);
      value := PushWrapped(value, Digit(s[numEnd]));
      numEnd := numEnd + 1;
    }
    SkipIs(IsDigit, s, 1, numEnd);
    ghost var i, j := numEnd, numEnd;

    var rem := maxDecimals;
    ghost var d := "";
    assert s[1..i] + Taken("", maxDecimals) == s[1..i];
    if rem > 0 && numEnd < |s| && s[numEnd] == '.' {
      numEnd, rem, value := Decimals(value, rem, s, numEnd + 1, s[1..i]);
      d, j := s[i + 1..numEnd], numEnd;
    }

    res := Finish(maxDecimals, unit, s, numEnd, rem, value, s[1..i], d);
  }

  /** The unit, the missing decimals and the closing parenthesis. */
  method Finish(maxDecimals: nat, unit: string, s: string, from: nat, rem0: nat, value0: nat, ghost i: string, ghost d: string)
    returns (res: Parsed<nat>)
    requires from <= |s| && All(IsDigit, i) && All(IsDigit, d)
    requires rem0 == maxDecimals - |Taken(d, maxDecimals)|
    requires All(IsDigit, i + Taken(d, maxDecimals)) && value0 == Dec(i + Taken(d, maxDecimals)) % U32
    ensures res == UnitAndClose(maxDecimals, unit, i, d, s, from)
  {
    hide Dec, Zeros;
    var numEnd, rem, value, milli := from, rem0, value0, false;
    if unit != "" {
      if numEnd >= |s| {
        return Fail(MissingUnit, numEnd);
      }
      if s[numEnd] == '*' {
        numEnd := numEnd + 1;
      }
      var unitStart := numEnd;
      while numEnd < |s| && s[numEnd] != ')'
        invariant unitStart <= numEnd <= |s|
        invariant forall i :: unitStart <= i < numEnd ==> NotClose(s[i])
      {
        numEnd := numEnd + 1;
      }
      SkipIs(NotClose, s, unitStart, numEnd);
      milli := IsMilli(unit, s[unitStart..numEnd]);
      if milli {
        rem := 0;
      }
    }
    value := PadWithZeros(value, rem, i + Taken(d, maxDecimals));
    if numEnd >= |s| || s[numEnd] != ')' {
      return Fail(ExtraData, numEnd);
    }
    res := Ok(value, numEnd + 1);
  }

  lemma {:induction false} DecEmpty(s: string)
    requires s == ""
    ensures Dec(s) == 0
  {}

  lemma {:induction false} PushSlice(i: string, s: string, from: nat, to: nat)
    requires from <= to < |s| && All(IsDigit, i) && forall k :: from <= k <= to ==> IsDigit(s[k])
    ensures All(IsDigit, i + s[from..to + 1])
    ensures PushWrapped(Dec(i + s[from..to]) % U32, Digit(s[to])) == Dec(i + s[from..to + 1]) % U32
    ensures "" + s[from..to] == s[from..to] && "" + s[from..to + 1] == s[from..to + 1]
  {
    hide Dec;
    PushWraps(i + s[from..to], s[to]);
    assert i + s[from..to + 1] == i + s[from..to] + [s[to]];
  }

  lemma TakenSlice(s: string, from: nat, kept: nat, next: nat, max: nat)
    requires from <= kept <= next <= |s|
    requires kept == if next - from <= max then next else from + max
    ensures Taken(s[from..next], max) == s[from..kept]
  {}

  /** Take at most rem0 decimals into the value and skip the others. */
  method Decimals(start: nat, rem0: nat, s: string, from: nat, ghost i: string)
    returns (next: nat, rem: nat, value: nat)
    requires from <= |s|
    requires All(IsDigit, i) && start == Dec(i) % U32
    ensures next == Skip(IsDigit, s, from)
    ensures rem == rem0 - |Taken(s[from..next], rem0)|
    ensures All(IsDigit, i + Taken(s[from..next], rem0))
    ensures value == Dec(i + Taken(s[from..next], rem0)) % U32
  {
    hide Dec, Taken, PushWrapped, All;
    next, rem, value := from, rem0, start;
    assert i + s[from..next] == i;
    while next < |s| && rem > 0 && '0' <= s[next] <= '9'
      invariant from <= next <= |s| && rem + (next - from) == rem0
      invariant forall k :: from <= k < next ==> IsDigit(s[k])
      invariant All(IsDigit, i + s[from..next]) && value == Dec(i + s[from..next]) % U32
    {
      PushSlice(i, s, from, next);
      value := PushWrapped(value, Digit(s[next]));
      next := next + 1;
      rem := rem - 1;
    }
    ghost var kept := next;
    while next < |s| && '0' <= s[next] <= '9'
      invariant kept <= next <= |s|
      invariant forall k :: from <= k < next ==> IsDigit(s[k])
      invariant rem > 0 ==> next == kept && (next < |s| ==> !IsDigit(s[next]))
    {
      next := next + 1;
    }
    SkipIs(IsDigit, s, from, next);
    TakenSlice(s, from, kept, next, rem0);
  }

  /** Compare the length, the first character and then the rest. */
  predicate IsMilli(unit: string, actual: string)
    ensures IsMilli(unit, actual) <==> actual == "m" + unit
  {
    assert actual == "m" + unit ==> actual[1..] == unit;
    assert |actual| > 0 && actual[0] == 'm' ==> actual == "m" + actual[1..];
    |actual| == |unit| + 1 && actual[0] == 'm' && actual[1..] == unit
  }

  method PadWithZeros(start: nat, count: nat, ghost digits: string) returns (value: nat)
    requires All(IsDigit, digits) && start == Dec(digits) % U32
    ensures All(IsDigit, digits + Zeros(count))
    ensures value == Dec(digits + Zeros(count)) % U32
  {
    value := start;
    assert digits + Zeros(0) == digits;
    for k := 0 to count
      invariant All(IsDigit, digits + Zeros(k))
      invariant value == Dec(digits + Zeros(k)) % U32
    {
      PushWraps(digits + Zeros(k), '0');
      assert digits + Zeros(k + 1) == digits + Zeros(k) + ['0'];
      value := PushWrapped(value, 0);
    }
  }
}
