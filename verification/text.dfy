/**
 Characters, slices and parse results shared by the parsers.
 */
module Text {

  datatype Option<+T> = None | Some(value: T)

  /** The error texts of the library, one constructor each. */
  datatype Error =
    | MissingOpen
    | MissingClose
    | InvalidStringLength
    | InvalidNumber
    | MissingUnit
    | ExtraData
    | ObisOverflow
    | ObisEmpty
    | NoChecksum
    | MalformedChecksum
    | InvalidDateTime
    | InvalidUnit
    | DuplicateField
    | TrailingCharacters
    | UnknownField
    | NoStart
    | NoEndMarker
    | ChecksumMismatch

  /**
   A parser is given the text between its two pointers; next and ctx count
   from the first character of that text.
   */
  datatype Parsed<+T> = Ok(value: T, next: nat) | Fail(err: Error, ctx: nat) {

    /** The same result in a text that starts k characters earlier. */
    function Shift(k: nat): Parsed<T> {
      match this
      case Ok(v, n) => Ok(v, n + k)
      case Fail(e, c) => Fail(e, c + k)
    }
  }

  predicate IsDigit(c: char) {
    '0' <= c <= '9'
  }

  predicate IsEol(c: char) {
    c == '\r' || c == '\n'
  }

  predicate NotEol(c: char) {
    !IsEol(c)
  }

  predicate NotClose(c: char) {
    c != ')'
  }

  predicate NotNul(c: char) {
    c != '\0'
  }

  predicate NotBang(c: char) {
    c != '!'
  }

  predicate NotSlash(c: char) {
    c != '/'
  }

  predicate All(p: char -> bool, s: string) {
    forall i :: 0 <= i < |s| ==> p(s[i])
  }

  /** The first position from k on whose character does not satisfy p. */
  function Skip(p: char -> bool, s: string, k: nat): (n: nat)
    requires k <= |s|
    ensures k <= n <= |s|
    ensures forall i :: k <= i < n ==> p(s[i])
    ensures n < |s| ==> !p(s[n])
    decreases |s| - k
  {
    if k == |s| || !p(s[k]) then k else Skip(p, s, k + 1)
  }

  lemma {:induction false} SkipIs(p: char -> bool, s: string, k: nat, n: nat)
    requires k <= n <= |s| && forall i :: k <= i < n ==> p(s[i])
    requires n < |s| ==> !p(s[n])
    ensures Skip(p, s, k) == n
    decreases |s| - k
  {
    if k < n {
      SkipIs(p, s, k + 1, n);
    }
  }

  lemma Associative<T>(a: seq<T>, b: seq<T>, c: seq<T>)
    ensures a + (b + c) == a + b + c
  {}

  lemma Glued<T>(a: seq<T>, b: seq<T>)
    ensures (a + b)[..|a|] == a && (a + b)[|a|..] == b
  {}

  lemma GluedAt<T>(a: seq<T>, b: seq<T>, k: nat)
    requires k < |b|
    ensures (a + b)[|a| + k] == b[k]
  {}

  lemma SliceOfSlice(s: string, b: nat, e: nat, i: nat, j: nat)
    requires b <= e <= |s| && i <= j <= e - b
    ensures s[b..e][i..j] == s[b + i..b + j]
  {
    var x, y := s[b..e][i..j], s[b + i..b + j];
    assert forall k :: 0 <= k < j - i ==> x[k] == s[b + i + k] && y[k] == s[b + i + k];
    assert x == y;
  }

  lemma SameSlice(s: string, t: string, b: nat, e: nat)
    requires b <= e <= |s| && e <= |t| && forall i :: b <= i < e ==> s[i] == t[i]
    ensures s[b..e] == t[b..e]
  {
    var x, y := s[b..e], t[b..e];
    assert forall k :: 0 <= k < e - b ==> x[k] == s[b + k] && y[k] == t[b + k];
    assert x == y;
  }

  /** What a copy through a NUL-terminated buffer keeps of s. */
  function UpToNul(s: string): string {
    s[..Skip(NotNul, s, 0)]
  }

  lemma NoNul(s: string)
    requires All(NotNul, s)
    ensures UpToNul(s) == s
  {
    SkipIs(NotNul, s, 0, |s|);
  }

  lemma CutAtNul(s: string, more: string)
    requires All(NotNul, s)
    ensures UpToNul(s + "\0" + more) == s
  {
    var t := s + "\0" + more;
    assert forall i :: 0 <= i < |s| ==> t[i] == s[i];
    assert t[|s|] == '\0';
    SkipIs(NotNul, t, 0, |s|);
  }
}
