/**
 The CRC-16 of the P1 port: reflected polynomial 0xA001, initial value 0
 (section 6.2 of the DSMR P1 Companion Standard 5.0.2).
 */
module Crc16 {

  const POLY: bv16 := 0xA001

  /** Exclusive or, the low bit and the half have names so that a proof can hide the bits. */
  function Xor(a: bv16, b: bv16): bv16 {
    a ^ b
  }

  predicate LowBit(c: bv16) {
    c & 1 == 1
  }

  function Half(c: bv16): bv16 {
    c >> 1
  }

  /** One turn of the shift register. */
  function ShiftBit(c: bv16): bv16 {
    if LowBit(c) then Xor(Half(c), POLY) else Half(c)
  }

  function Shifts(c: bv16, n: nat): bv16
    decreases n
  {
    if n == 0 then c else Shifts(ShiftBit(c), n - 1)
  }

  /** The register after one data byte has gone through it. */
  function Next(crc: bv16, data: bv16): bv16 {
    Shifts(Xor(crc, data), 8)
  }

  method Update(crc: bv16, data: bv16) returns (r: bv16)
    ensures r == Next(crc, data)
  {
    r := crc ^ data;
    for i := 0 to 8
      invariant Shifts(r, 8 - i) == Next(crc, data)
    {
      if r & 1 == 1 {
        r := (r >> 1) ^ POLY;
      } else {
        r := r >> 1;
      }
    }
  }

  function ShiftIn(c: bv16, odd: bool): bv16 {
    (c << 1) | (if odd then 1 else 0)
  }

  /** The low k binary digits of n as a register value. */
  function Bits(n: nat, k: nat): bv16 {
    if k == 0 then 0 else ShiftIn(Bits(n / 2, k - 1), n % 2 == 1)
  }

  /** The eight bits of a character, as the conversion to uint8_t leaves them. */
  function Octet(c: char): bv16 {
    Bits(c as int % 256, 8)
  }

  predicate IsOctet(c: char) {
    c as int < 256
  }

  function Fold(crc: bv16, s: string): bv16 {
    if s == "" then crc else Next(Fold(crc, s[..|s| - 1]), Octet(s[|s| - 1]))
  }

  function Crc(s: string): bv16 {
    Fold(0, s)
  }

  // ---------------------------------------------------------------- folding

  lemma {:induction false} FoldPush(crc: bv16, s: string, c: char)
    ensures Fold(crc, s + [c]) == Next(Fold(crc, s), Octet(c))
  {
    hide Next, Octet;
    assert (s + [c])[..|s|] == s;
  }

  lemma {:induction false} FoldAppend(crc: bv16, s: string, t: string)
    ensures Fold(crc, s + t) == Fold(Fold(crc, s), t)
  {
    hide Next, Octet;
    if t == "" {
      assert s + t == s;
    } else {
      var u, c := t[..|t| - 1], t[|t| - 1];
      FoldAppend(crc, s, u);
      assert s + t == (s + u) + [c];
      FoldPush(crc, s + u, c);
    }
  }

  // ------------------------------------------------- linear and invertible

  lemma LowBitOfXor(a: bv16, b: bv16)
    ensures LowBit(Xor(a, b)) == (LowBit(a) != LowBit(b))
  {}

  lemma HalfOfXor(a: bv16, b: bv16)
    ensures Half(Xor(a, b)) == Xor(Half(a), Half(b))
  {}

  lemma XorAssociative(a: bv16, b: bv16, c: bv16)
    ensures Xor(Xor(a, b), c) == Xor(a, Xor(b, c))
    ensures Xor(a, b) == Xor(b, a)
  {}

  lemma XorSelf(a: bv16)
    ensures Xor(a, a) == 0
  {}

  lemma XorFromZero(a: bv16)
    ensures Xor(0, a) == a
  {}

  lemma XorUndone(a: bv16, b: bv16)
    ensures Xor(Xor(a, b), b) == a
  {}

  lemma XorZero(a: bv16, b: bv16)
    ensures Xor(a, b) == 0 <==> a == b
    ensures Xor(0, a) == a
  {
    hide Xor;
    XorSelf(a);
    XorFromZero(a);
    XorFromZero(b);
    XorUndone(a, b);
  }

  lemma XorSwap(a: bv16, b: bv16, d: bv16, e: bv16)
    ensures Xor(Xor(a, b), Xor(d, e)) == Xor(Xor(a, d), Xor(b, e))
  {
    hide Xor;
    XorAssociative(a, b, Xor(d, e));
    XorAssociative(b, d, e);
    XorAssociative(d, b, e);
    XorAssociative(a, d, Xor(b, e));
  }

  lemma XorInjective(a: bv16, b: bv16, d: bv16)
    ensures Xor(a, d) == Xor(b, d) ==> a == b
  {}

  lemma ShiftBitLinear(a: bv16, b: bv16)
    ensures ShiftBit(Xor(a, b)) == Xor(ShiftBit(a), ShiftBit(b))
  {
    hide Xor, Half, LowBit;
    LowBitOfXor(a, b);
    HalfOfXor(a, b);
    var x, y := Half(a), Half(b);
    XorAssociative(x, y, POLY);
    XorAssociative(x, POLY, y);
    XorAssociative(y, POLY, x);
    XorSwap(x, POLY, y, POLY);
    XorZero(POLY, POLY);
    XorZero(Xor(x, y), Xor(x, y));
    XorAssociative(Xor(x, y), 0, 0);
  }

  lemma {:induction false} ShiftsLinear(a: bv16, b: bv16, n: nat)
    ensures Shifts(Xor(a, b), n) == Xor(Shifts(a, n), Shifts(b, n))
    decreases n
  {
    hide Xor, ShiftBit;
    if n > 0 {
      ShiftBitLinear(a, b);
      ShiftsLinear(ShiftBit(a), ShiftBit(b), n - 1);
    }
  }

  /** The update is linear over exclusive or, jointly in the register and the byte. */
  lemma NextLinear(a: bv16, b: bv16, d: bv16, e: bv16)
    ensures Next(Xor(a, b), Xor(d, e)) == Xor(Next(a, d), Next(b, e))
  {
    hide Xor, Shifts;
    XorSwap(a, b, d, e);
    ShiftsLinear(Xor(a, d), Xor(b, e), 8);
  }

  function UnshiftBit(c: bv16): bv16 {
    if c & 0x8000 == 0x8000 then ((c ^ POLY) << 1) | 1 else c << 1
  }

  lemma ShiftBitInverse(c: bv16)
    ensures UnshiftBit(ShiftBit(c)) == c
  {}

  lemma {:induction false} ShiftsInjective(a: bv16, b: bv16, n: nat)
    requires Shifts(a, n) == Shifts(b, n)
    ensures a == b
    decreases n
  {
    hide ShiftBit, UnshiftBit;
    if n > 0 {
      ShiftsInjective(ShiftBit(a), ShiftBit(b), n - 1);
      ShiftBitInverse(a);
      ShiftBitInverse(b);
    }
  }

  /** The update is a bijection of the register: no byte makes two registers meet. */
  lemma NextInjective(a: bv16, b: bv16, d: bv16)
    requires Next(a, d) == Next(b, d)
    ensures a == b
  {
    hide Xor, Shifts;
    ShiftsInjective(Xor(a, d), Xor(b, d), 8);
    XorInjective(a, b, d);
  }

  lemma {:induction false} FoldInjective(a: bv16, b: bv16, s: string)
    requires Fold(a, s) == Fold(b, s)
    ensures a == b
  {
    hide Next, Octet;
    if s != "" {
      var u, d := s[..|s| - 1], Octet(s[|s| - 1]);
      NextInjective(Fold(a, u), Fold(b, u), d);
      FoldInjective(a, b, u);
    }
  }

  // ----------------------------------------------------------------- octets

  function Power2(k: nat): nat {
    if k == 0 then 1 else 2 * Power2(k - 1)
  }

  function Ones(k: nat): bv16 {
    if k == 0 then 0 else ShiftIn(Ones(k - 1), true)
  }

  lemma ShiftInMonotone(x: bv16, y: bv16, odd: bool)
    requires x <= y <= 0x7F
    ensures ShiftIn(x, odd) <= ShiftIn(y, true) <= 0xFF
  {}

  lemma {:induction false} OnesBound(k: nat)
    requires k <= 8
    ensures Ones(k) <= 0xFF
    ensures k < 8 ==> Ones(k) <= 0x7F
  {
    assert Ones(0) == 0 && Ones(1) == 1 && Ones(2) == 3 && Ones(3) == 7;
    assert Ones(4) == 15 && Ones(5) == 31 && Ones(6) == 63 && Ones(7) == 127;
  }

  lemma {:induction false} BitsBound(n: nat, k: nat)
    requires k <= 8
    ensures Bits(n, k) <= Ones(k) <= 0xFF
  {
    hide ShiftIn;
    if k > 0 {
      BitsBound(n / 2, k - 1);
      OnesBound(k - 1);
      ShiftInMonotone(Bits(n / 2, k - 1), Ones(k - 1), n % 2 == 1);
    }
  }

  lemma ShiftInInjective(x: bv16, y: bv16, a: bool, b: bool)
    requires x <= 0xFF && y <= 0xFF
    requires ShiftIn(x, a) == ShiftIn(y, b)
    ensures x == y && a == b
  {}

  lemma {:induction false} BitsInjective(m: nat, n: nat, k: nat)
    requires k <= 8 && m < Power2(k) && n < Power2(k)
    requires Bits(m, k) == Bits(n, k)
    ensures m == n
  {
    hide ShiftIn, Ones;
    if k > 0 {
      BitsBound(m / 2, k - 1);
      BitsBound(n / 2, k - 1);
      ShiftInInjective(Bits(m / 2, k - 1), Bits(n / 2, k - 1), m % 2 == 1, n % 2 == 1);
      BitsInjective(m / 2, n / 2, k - 1);
    }
  }

  lemma OctetFaithful(c: char, d: char)
    ensures Octet(c) <= 0xFF
    ensures IsOctet(c) && IsOctet(d) && Octet(c) == Octet(d) ==> c == d
  {
    hide Bits;
    BitsBound(c as int % 256, 8);
    if IsOctet(c) && IsOctet(d) && Octet(c) == Octet(d) {
      assert Power2(8) == 256;
      BitsInjective(c as int, d as int, 8);
    }
  }

  // ----------------------------------------------------------- burst errors

  /**
   The bits of three adjacent bytes that differ fit in sixteen consecutive
   positions of the transmission, which sends the low bit of each byte first:
   m, a run of low ones, marks the bits of the first byte before the burst and
   bounds the bits of the third one.
   */
  predicate ShortBurst(d1: bv16, d2: bv16, d3: bv16, m: bv16) {
    && d1 <= 0xFF && d2 <= 0xFF && d3 <= 0xFF
    && m <= 0xFF && m & (m + 1) == 0
    && d1 & m == 0 && d3 & m == d3
  }

  function Unshifts(c: bv16, n: nat): bv16
    decreases n
  {
    if n == 0 then c else UnshiftBit(Unshifts(c, n - 1))
  }

  lemma {:induction false} UnshiftsInverse(c: bv16, n: nat)
    ensures Unshifts(Shifts(c, n), n) == c
    decreases n
  {
    hide ShiftBit, UnshiftBit;
    if n > 0 {
      UnshiftsInverse(ShiftBit(c), n - 1);
      ShiftBitInverse(c);
    }
  }

  lemma {:induction false} BurstSplit(d1: bv16, d2: bv16, d3: bv16, m: bv16)
    requires ShortBurst(d1, d2, d3, m)
    requires Unshifts(d3, 8) == Shifts(d1, 8) ^ d2
    ensures d1 == 0 && d2 == 0 && d3 == 0
  {}

  /** Sixteen bits of difference are never shifted out of a sixteen bit register. */
  lemma BurstSurvives(d1: bv16, d2: bv16, d3: bv16, m: bv16)
    requires ShortBurst(d1, d2, d3, m)
    requires Next(Next(Next(0, d1), d2), d3) == 0
    ensures d1 == 0 && d2 == 0 && d3 == 0
  {
    hide Xor, Shifts, Unshifts, ShortBurst;
    var x := Xor(Next(0, d1), d2);
    assert Shifts(0, 8) == 0 by { ZeroShifts(8); }
    ShiftsInjective(Xor(Shifts(x, 8), d3), 0, 8);
    XorZero(Shifts(x, 8), d3);
    UnshiftsInverse(x, 8);
    XorIs(Next(0, d1), d2);
    XorZero(d1, d1);
    BurstSplit(d1, d2, d3, m);
  }

  lemma XorIs(a: bv16, b: bv16)
    ensures Xor(a, b) == a ^ b
  {}

  lemma {:induction false} ZeroShifts(n: nat)
    ensures Shifts(0, n) == 0
  {
    if n > 0 {
      ZeroShifts(n - 1);
    }
  }

  lemma {:induction false} FoldThree(crc: bv16, x: char, y: char, z: char)
    ensures Fold(crc, [x, y, z]) == Next(Next(Next(crc, Octet(x)), Octet(y)), Octet(z))
  {
    hide Next, Octet;
    FoldPush(crc, [], x);
    FoldPush(crc, [x], y);
    FoldPush(crc, [x, y], z);
    assert [] + [x] == [x] && [x] + [y] == [x, y] && [x, y] + [z] == [x, y, z];
  }

  function Diff(c: char, d: char): bv16 {
    Xor(Octet(c), Octet(d))
  }

  lemma DiffZero(c: char, d: char)
    requires IsOctet(c) && IsOctet(d) && Diff(c, d) == 0
    ensures c == d
  {
    hide Xor, Octet;
    XorZero(Octet(c), Octet(d));
    OctetFaithful(c, d);
  }

  lemma {:induction false} WindowDetected(crc: bv16, x: char, y: char, z: char, x': char, y': char, z': char, m: bv16)
    requires IsOctet(x) && IsOctet(y) && IsOctet(z) && IsOctet(x') && IsOctet(y') && IsOctet(z')
    requires ShortBurst(Diff(x, x'), Diff(y, y'), Diff(z, z'), m)
    requires Fold(crc, [x, y, z]) == Fold(crc, [x', y', z'])
    ensures x == x' && y == y' && z == z'
  {
    hide Next, Octet, Xor, ShortBurst;
    FoldThree(crc, x, y, z);
    FoldThree(crc, x', y', z');
    var a, a' := Next(crc, Octet(x)), Next(crc, Octet(x'));
    var b, b' := Next(a, Octet(y)), Next(a', Octet(y'));
    NextLinear(crc, crc, Octet(x), Octet(x'));
    NextLinear(a, a', Octet(y), Octet(y'));
    NextLinear(b, b', Octet(z), Octet(z'));
    XorZero(crc, crc);
    XorZero(Next(b, Octet(z)), Next(b', Octet(z')));
    BurstSurvives(Diff(x, x'), Diff(y, y'), Diff(z, z'), m);
    DiffZero(x, x');
    DiffZero(y, y');
    DiffZero(z, z');
  }

  /** Two texts of one length that agree outside a window of three bytes at k. */
  predicate AgreeOutside(t: string, u: string, k: nat) {
    && |t| == |u| && k + 3 <= |t|
    && t[..k] == u[..k] && t[k + 3..] == u[k + 3..]
    && forall i :: k <= i < k + 3 ==> IsOctet(t[i]) && IsOctet(u[i])
  }

  /** The CRC detects every burst of at most sixteen bits. */
  lemma BurstDetected(t: string, u: string, k: nat, m: bv16)
    requires AgreeOutside(t, u, k) && t != u
    requires ShortBurst(Diff(t[k], u[k]), Diff(t[k + 1], u[k + 1]), Diff(t[k + 2], u[k + 2]), m)
    ensures Crc(t) != Crc(u)
  {
    hide Next, Octet, Xor, ShortBurst, Diff;
    var w, w' := [t[k], t[k + 1], t[k + 2]], [u[k], u[k + 1], u[k + 2]];
    assert t == t[..k] + w + t[k + 3..];
    assert u == u[..k] + w' + u[k + 3..];
    FoldAppend(0, t[..k] + w, t[k + 3..]);
    FoldAppend(0, u[..k] + w', u[k + 3..]);
    FoldAppend(0, t[..k], w);
    FoldAppend(0, u[..k], w');
    if Crc(t) == Crc(u) {
      FoldInjective(Fold(0, t[..k] + w), Fold(0, u[..k] + w'), t[k + 3..]);
      WindowDetected(Fold(0, t[..k]), t[k], t[k + 1], t[k + 2], u[k], u[k + 1], u[k + 2], m);
      assert false;
    }
  }

  // ------------------------------------------------------------ bit parity

  /** Whether an odd number of the low n bits of c is set. */
  function OddOnes(c: bv16, n: nat): bool
    decreases n
  {
    n > 0 && (LowBit(c) != OddOnes(Half(c), n - 1))
  }

  lemma {:induction false} OddOnesXor(a: bv16, b: bv16, n: nat)
    ensures OddOnes(Xor(a, b), n) == (OddOnes(a, n) != OddOnes(b, n))
    decreases n
  {
    hide Xor, LowBit, Half;
    if n > 0 {
      LowBitOfXor(a, b);
      HalfOfXor(a, b);
      OddOnesXor(Half(a), Half(b), n - 1);
    }
  }

  function Halves(c: bv16, n: nat): bv16
    decreases n
  {
    if n == 0 then c else Halves(Half(c), n - 1)
  }

  lemma HalfMonotone(c: bv16, o: bv16)
    requires c <= o
    ensures Half(c) <= Half(o)
  {}

  /** Bits that lie above everything up to o are clear. */
  lemma OddOnesTop(c: bv16, n: nat, o: bv16)
    requires c <= o && Halves(o, n) == 0
    ensures OddOnes(c, n + 1) == OddOnes(c, n)
    decreases n
  {
    hide LowBit, Half;
    if n == 0 {
      assert !LowBit(c) by { ZeroEven(1); }
    } else {
      HalfMonotone(c, o);
      OddOnesTop(Half(c), n - 1, Half(o));
    }
  }

  lemma {:induction false} ZeroEven(n: nat)
    ensures !OddOnes(0, n)
  {
    if n > 0 {
      ZeroEven(n - 1);
    }
  }

  lemma HalfBelow(c: bv16)
    ensures Half(c) <= 0x7FFF
    ensures Halves(0x7FFF, 15) == 0
  {
    assert Halves(0x7FFF, 15) == Halves(0x3FF, 10) == Halves(0x1F, 5);
  }

  /** Both the polynomial and a shift keep the number of ones even or odd. */
  lemma {:induction false} ShiftBitParity(c: bv16)
    ensures OddOnes(ShiftBit(c), 16) == OddOnes(c, 16)
  {
    hide OddOnes, Xor, LowBit, Half, Halves;
    PolyOdd();
    HalfBelow(c);
    OddOnesTop(Half(c), 15, 0x7FFF);
    OddOnesStep(c);
    OddOnesXor(Half(c), POLY, 16);
  }

  lemma {:induction false} OddOnesStep(c: bv16)
    ensures OddOnes(c, 16) == (LowBit(c) != OddOnes(Half(c), 15))
  {}

  lemma PolyOdd()
    ensures OddOnes(POLY, 16)
  {
    assert OddOnes(0xA0, 8) == false;
    assert OddOnes(0x500, 12) == false by { assert OddOnes(0x50, 8) == false; }
  }

  lemma {:induction false} ShiftsParity(c: bv16, n: nat)
    ensures OddOnes(Shifts(c, n), 16) == OddOnes(c, 16)
    decreases n
  {
    hide ShiftBit, OddOnes;
    if n > 0 {
      ShiftBitParity(c);
      ShiftsParity(ShiftBit(c), n - 1);
    }
  }

  /** Whether the bytes of a text hold an odd number of ones. */
  function OddText(s: string): bool {
    s != "" && (OddText(s[..|s| - 1]) != OddOnes(Octet(s[|s| - 1]), 16))
  }

  /** The register always has the parity of everything that went into it. */
  lemma {:induction false} CrcParity(s: string)
    ensures OddOnes(Crc(s), 16) == OddText(s)
  {
    hide OddOnes, Octet, Xor, Shifts;
    if s == "" {
      assert OddOnes(0, 16) == false by { ZeroEven(16); }
    } else {
      var c, d := Crc(s[..|s| - 1]), Octet(s[|s| - 1]);
      CrcParity(s[..|s| - 1]);
      OddOnesXor(c, d, 16);
      ShiftsParity(Xor(c, d), 8);
    }
  }
}
