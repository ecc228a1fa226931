/**
 OBIS ids (clause 4 of IEC 62056-61): ObisId of util.h and ObisIdParser of
 parser3.h.
 */
module Obis {
  import opened Text
  import opened Numbers

  /** Six values a-b:c.d.e.f, each at most 255. */
  type ObisId = v: seq<nat> | |v| == 6 witness [0, 0, 0, 0, 0, 0]

  const IDENTIFICATION: ObisId := [255, 255, 255, 255, 255, 255]

  /** The character that ends part number `part` of an id. */
  predicate Separates(part: nat, c: char) {
    || (part == 0 && c == '-')
    || (part == 1 && c == ':')
    || (1 < part < 5 && c == '.')
  }

  /**
   Read parts from position b on, where part number `part` starts: the digits
   of each part, and the position of the first character left over.
   */
  function Parts(s: string, part: nat, b: nat): (r: (seq<string>, nat))
    requires b <= |s|
    ensures b <= r.1 <= |s| && 1 <= |r.0|
    ensures forall k :: 0 <= k < |r.0| ==> All(IsDigit, r.0[k])
    ensures part < 6 ==> part + |r.0| <= 6
    decreases |s| - b
  {
    var d := Skip(IsDigit, s, b);
    if d < |s| && Separates(part, s[d]) then
      var (rest, n) := Parts(s, part + 1, d + 1);
      ([s[b..d]] + rest, n)
    else
      ([s[b..d]], d)
  }

  /** The number of leading digits that stay within 255. */
  function Within255(digits: string): nat
    requires All(IsDigit, digits)
  {
    if Dec(digits) <= 255 then |digits| else Within255(digits[..|digits| - 1])
  }

  predicate AllWithin255(parts: seq<string>)
    requires forall k :: 0 <= k < |parts| ==> All(IsDigit, parts[k])
  {
    forall k :: 0 <= k < |parts| ==> Dec(parts[k]) <= 255
  }

  /** The position of the first digit that takes a part above 255. */
  function OverflowAt(parts: seq<string>, b: nat): nat
    requires forall k :: 0 <= k < |parts| ==> All(IsDigit, parts[k])
    requires !AllWithin255(parts)
  {
    if Dec(parts[0]) > 255 then b + Within255(parts[0])
    else OverflowAt(parts[1..], b + |parts[0]| + 1)
  }

  function ValueOrDefault(parts: seq<string>, k: nat): nat
    requires forall k :: 0 <= k < |parts| ==> All(IsDigit, parts[k])
  {
    if k < |parts| then Dec(parts[k]) else 255
  }

  /** Missing parts are 255. */
  function IdOf(parts: seq<string>): ObisId
    requires forall k :: 0 <= k < |parts| ==> All(IsDigit, parts[k])
  {
    [ValueOrDefault(parts, 0), ValueOrDefault(parts, 1), ValueOrDefault(parts, 2),
     ValueOrDefault(parts, 3), ValueOrDefault(parts, 4), ValueOrDefault(parts, 5)]
  }

  /** Electricity on channel 1 counts as channel 0. */
  function Normalise(id: ObisId): ObisId {
    if id[0] == 1 && id[1] == 1 then id[1 := 0] else id
  }

  function ParseId(s: string): Parsed<ObisId> {
    var (parts, n) := Parts(s, 0, 0);
    if !AllWithin255(parts) then Fail(ObisOverflow, OverflowAt(parts, 0))
    else if n == 0 then Fail(ObisEmpty, 0)
    else Ok(Normalise(IdOf(parts)), n)
  }

  // ------------------------------------------------------------- the parser

  lemma {:induction false} DecPrefix(s: string, k: nat)
    requires k <= |s| && All(IsDigit, s)
    ensures Dec(s[..k]) <= Dec(s)
  {
    if k == |s| {
      assert s[..k] == s;
    } else {
      DecPrefix(s[..|s| - 1], k);
      assert s[..|s| - 1][..k] == s[..k];
    }
  }

  lemma {:induction false} WithinIs(digits: string, k: nat)
    requires k < |digits| && All(IsDigit, digits)
    requires Dec(digits[..k]) <= 255 < Dec(digits[..k + 1])
    ensures Within255(digits) == k && Dec(digits) > 255
  {
    DecPrefix(digits, k + 1);
    if k + 1 == |digits| {
      assert digits[..k + 1] == digits;
    } else {
      var shorter := digits[..|digits| - 1];
      assert shorter[..k] == digits[..k] && shorter[..k + 1] == digits[..k + 1];
      WithinIs(shorter, k);
    }
  }

  /** The characters that completed parts and their separators take up. */
  function Width(parts: seq<string>): nat {
    if parts == [] then 0 else Width(parts[..|parts| - 1]) + |parts[|parts| - 1]| + 1
  }

  lemma {:induction false} OverflowSkips(done: seq<string>, rest: seq<string>, b: nat)
    requires forall k :: 0 <= k < |done| ==> All(IsDigit, done[k])
    requires forall k :: 0 <= k < |rest| ==> All(IsDigit, rest[k])
    requires AllWithin255(done) && !AllWithin255(rest)
    ensures forall k :: 0 <= k < |done + rest| ==> All(IsDigit, (done + rest)[k])
    ensures !AllWithin255(done + rest)
    ensures OverflowAt(done + rest, b) == OverflowAt(rest, b + Width(done))
  {
    hide Within255, Dec;
    var k :| 0 <= k < |rest| && Dec(rest[k]) > 255;
    assert (done + rest)[|done| + k] == rest[k];
    if done == [] {
      assert done + rest == rest;
    } else {
      var last := done[|done| - 1];
      var front := done[..|done| - 1];
      assert front + ([last] + rest) == done + rest;
      assert ([last] + rest)[1..] == rest && ([last] + rest)[k + 1] == rest[k];
      OverflowSkips(front, [last] + rest, b);
    }
  }

  lemma PartsHead(s: string, part: nat, b: nat)
    requires b <= |s|
    ensures Parts(s, part, b).0[0] == s[b..Skip(IsDigit, s, b)]
    ensures var d := Skip(IsDigit, s, b);
            if d < |s| && Separates(part, s[d]) then
              Parts(s, part, b) == ([s[b..d]] + Parts(s, part + 1, d + 1).0, Parts(s, part + 1, d + 1).1)
            else
              Parts(s, part, b) == ([s[b..d]], d)
  {}

  /** The digit at `next` takes the part that starts at b above 255. */
  lemma {:induction false} Overflows(s: string, done: seq<string>, b: nat, next: nat)
    requires b <= next < |s| && b == Width(done) && forall i :: b <= i <= next ==> IsDigit(s[i])
    requires forall k :: 0 <= k < |done| ==> All(IsDigit, done[k])
    requires AllWithin255(done)
    requires done + Parts(s, |done|, b).0 == Parts(s, 0, 0).0
    requires Dec(s[b..next]) <= 255 < Dec(s[b..next + 1])
    ensures ParseId(s) == Fail(ObisOverflow, next)
  {
    hide Dec, Skip, Parts, Width, OverflowAt, Within255, IdOf, AllWithin255;
    var digits := s[b..Skip(IsDigit, s, b)];
    PartsHead(s, |done|, b);
    assert next < Skip(IsDigit, s, b);
    SliceOfSlice(s, b, Skip(IsDigit, s, b), 0, next - b);
    SliceOfSlice(s, b, Skip(IsDigit, s, b), 0, next + 1 - b);
    WholePrefix(digits, next - b);
    WholePrefix(digits, next + 1 - b);
    WithinIs(digits, next - b);
    var rest := Parts(s, |done|, b).0;
    OverflowHead(rest, b);
    OverflowSkips(done, rest, 0);
  }

  lemma WholePrefix(s: string, n: nat)
    requires n <= |s|
    ensures s[0..n] == s[..n]
  {}

  lemma {:induction false} OverflowHead(parts: seq<string>, b: nat)
    requires |parts| > 0 && forall k :: 0 <= k < |parts| ==> All(IsDigit, parts[k])
    requires Dec(parts[0]) > 255
    ensures !AllWithin255(parts) && OverflowAt(parts, b) == b + Within255(parts[0])
  {}

  lemma {:induction false} WidthPush(done: seq<string>, part: string)
    ensures Width(done + [part]) == Width(done) + |part| + 1
  {
    assert (done + [part])[..|done|] == done;
  }

  /** The values read so far: completed parts, the part being read, zeros. */
  predicate Holds(id: seq<nat>, done: seq<string>, digits: string)
    requires All(IsDigit, digits) && forall k :: 0 <= k < |done| ==> All(IsDigit, done[k])
  {
    && |id| == 6 && |done| < 6
    && (forall k :: 0 <= k < |done| ==> id[k] == Dec(done[k]) <= 255)
    && id[|done|] == Dec(digits) <= 255
    && (forall k :: |done| < k < 6 ==> id[k] == 0)
  }

  /** What has been read fits what the specification reads. */
  predicate Reads(s: string, id: seq<nat>, done: seq<string>, b: nat, next: nat) {
    && b <= next <= |s| && (forall i :: b <= i < next ==> IsDigit(s[i]))
    && b == Width(done) && (forall k :: 0 <= k < |done| ==> All(IsDigit, done[k]))
    && done + Parts(s, |done|, b).0 == Parts(s, 0, 0).0 && Parts(s, |done|, b).1 == Parts(s, 0, 0).1
    && Holds(id, done, s[b..next])
  }

  lemma ReadsNothing(s: string)
    ensures Reads(s, [0, 0, 0, 0, 0, 0], [], 0, 0)
  {
    assert [] + Parts(s, 0, 0).0 == Parts(s, 0, 0).0;
  }

  lemma ReadsDigit(s: string, id: seq<nat>, done: seq<string>, b: nat, next: nat)
    requires Reads(s, id, done, b, next) && next < |s| && IsDigit(s[next])
    ensures var v := id[|done|] * 10 + Digit(s[next]);
            if v > 255 then ParseId(s) == Fail(ObisOverflow, next)
            else Reads(s, id[|done| := v], done, b, next + 1)
  {
    hide Dec, Width, Parts, ParseId;
    assert s[b..next + 1] == s[b..next] + [s[next]];
    DecPush(s[b..next], s[next]);
    if id[|done|] * 10 + Digit(s[next]) > 255 {
      Overflows(s, done, b, next);
    }
  }

  lemma ReadsSeparator(s: string, id: seq<nat>, done: seq<string>, b: nat, next: nat)
    requires Reads(s, id, done, b, next) && next < |s| && Separates(|done|, s[next])
    ensures Reads(s, id, done + [s[b..next]], next + 1, next + 1)
  {
    hide Width, Parts, Dec, Skip;
    SkipIs(IsDigit, s, b, next);
    WidthPush(done, s[b..next]);
    PartsHead(s, |done|, b);
    assert done + [s[b..next]] + Parts(s, |done| + 1, next + 1).0 == done + Parts(s, |done|, b).0;
    DecEmpty(s[next + 1..next + 1]);
  }

  lemma ReadsEnd(s: string, id: seq<nat>, done: seq<string>, b: nat, next: nat)
    requires Reads(s, id, done, b, next)
    requires next < |s| ==> !IsDigit(s[next]) && !Separates(|done|, s[next])
    ensures var parts := done + [s[b..next]];
            && AllWithin255(parts)
            && (forall k :: 0 <= k <= |done| ==> id[k] == Dec(parts[k]))
            && ParseId(s) == if next == 0 then Fail(ObisEmpty, 0) else Ok(Normalise(IdOf(parts)), next)
  {
    hide Width, Parts, Dec, Skip, IdOf;
    SkipIs(IsDigit, s, b, next);
    PartsHead(s, |done|, b);
    assert Parts(s, 0, 0) == (done + [s[b..next]], next);
  }

  method ParseObis(s: string) returns (res: Parsed<ObisId>)
    ensures res == ParseId(s)
  {
    hide Dec, ParseId, Reads;
    var id: seq<nat> := [0, 0, 0, 0, 0, 0];
    var next, part := 0, 0;
    ghost var done: seq<string>, b := [], 0;
    ReadsNothing(s);
    while next < |s|
      invariant next <= |s| && part == |done| && |id| == 6 && part < 6
      invariant Reads(s, id, done, b, next)
    {
      ReadsShape(s, id, done, b, next);
      var c := s[next];
      if '0' <= c <= '9' {
        var digit := Digit(c);
        ReadsDigit(s, id, done, b, next);
        if id[part] > 25 || (id[part] == 25 && digit > 5) {
          return Fail(ObisOverflow, next);
        }
        id := id[part := id[part] * 10 + digit];
      } else if (part == 0 && c == '-') || (part == 1 && c == ':') || (part > 1 && part < 5 && c == '.') {
        ReadsSeparator(s, id, done, b, next);
        done, b := done + [s[b..next]], next + 1;
        part := part + 1;
      } else {
        break;
      }
      next := next + 1;
    }
    ReadsShape(s, id, done, b, next);
    ReadsEnd(s, id, done, b, next);
    ghost var parts := done + [s[b..next]];
    if next == 0 {
      return Fail(ObisEmpty, 0);
    }
    part := part + 1;
    while part < 6
      invariant |parts| <= part <= 6
      invariant |id| == 6 && forall k :: 0 <= k < part ==> id[k] == ValueOrDefault(parts, k)
    {
      id := id[part := 255];
      part := part + 1;
    }
    assert id == IdOf(parts);
    if id[0] == 1 && id[1] == 1 {
      id := id[1 := 0];
    }
    res := Ok(id, next);
  }

  lemma ReadsShape(s: string, id: seq<nat>, done: seq<string>, b: nat, next: nat)
    requires Reads(s, id, done, b, next)
    ensures b <= next && |id| == 6 && |done| < 6 && id[|done|] <= 255
    ensures forall k :: 0 <= k < |done| ==> All(IsDigit, done[k])
    ensures All(IsDigit, s[b..next])
  {}
}
