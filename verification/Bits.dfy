// Naturals read as bit strings: powers of two, shifts, single bits, bit
// length, and the bitwise operations the source applies to 64-bit words.
module Bits {

  function Pow2(n: nat): (p: nat)
    ensures p > 0
  {
    if n == 0 then 1 else 2 * Pow2(n - 1)
  }

  /** v >> n */
  function Shr(v: nat, n: nat): nat {
    if n == 0 then v else Shr(v / 2, n - 1)
  }

  /** The low n bits of v. */
  function Low(v: nat, n: nat): nat {
    if n == 0 then 0 else v % 2 + 2 * Low(v / 2, n - 1)
  }

  function Bit(v: nat, i: nat): (b: nat)
    ensures b < 2
  {
    Shr(v, i) % 2
  }

  /** The number of bits needed to write v. */
  function BitLen(v: nat): nat {
    if v == 0 then 0 else 1 + BitLen(v / 2)
  }

  function Xor(a: nat, b: nat): nat
    decreases a + b
  {
    if a == 0 && b == 0 then 0 else (a + b) % 2 + 2 * Xor(a / 2, b / 2)
  }

  function Or(a: nat, b: nat): nat
    decreases a + b
  {
    if a == 0 && b == 0 then 0 else (if a % 2 == 1 || b % 2 == 1 then 1 else 0) + 2 * Or(a / 2, b / 2)
  }

  lemma {:induction false} Pow2Monotone(m: nat, n: nat)
    requires m <= n
    ensures Pow2(m) <= Pow2(n)
    ensures m < n ==> 2 * Pow2(m) <= Pow2(n)
    decreases n
  {
    if m < n {
      Pow2Monotone(m, n - 1);
    }
  }

  lemma {:induction false} Pow2Adds(m: nat, n: nat)
    ensures Pow2(m + n) == Pow2(m) * Pow2(n)
  {
    if m > 0 {
      Pow2Adds(m - 1, n);
    }
  }

  /** A 64-bit word has 2^64 values. */
  lemma WordSize()
    ensures Pow2(32) == 0x1_0000_0000 && Pow2(63) == 0x8000_0000_0000_0000 && Pow2(64) == 0x1_0000_0000_0000_0000
  {
    hide Pow2;
    NibbleSize();
    Pow2Adds(4, 4);
    Pow2Adds(8, 8);
    Pow2Adds(16, 16);
    Pow2Adds(32, 32);
    DoublePow2(63);
  }

  lemma NibbleSize()
    ensures Pow2(4) == 16
  {
    assert Pow2(1) == 2 && Pow2(2) == 4 && Pow2(3) == 8;
  }

  lemma DoublePow2(i: nat)
    ensures Pow2(i + 1) == 2 * Pow2(i)
  {
  }

  lemma {:induction false} ShrHalf(v: nat, n: nat)
    ensures Shr(v / 2, n) == Shr(v, n) / 2
  {
    if n > 0 {
      ShrHalf(v / 2, n - 1);
    }
  }

  /** The high part after one more bit. */
  lemma ShrBit(v: nat, i: nat)
    ensures Shr(v, i) == 2 * Shr(v, i + 1) + Bit(v, i)
  {
    ShrHalf(v, i);
  }

  /** The low part after one more bit. */
  lemma {:induction false} LowBit(v: nat, i: nat)
    ensures Low(v, i + 1) == Low(v, i) + (if Bit(v, i) == 1 then Pow2(i) else 0)
  {
    if i > 0 {
      LowBit(v / 2, i - 1);
    }
  }

  lemma {:induction false} ShrShr(v: nat, m: nat, n: nat)
    ensures Shr(Shr(v, m), n) == Shr(v, m + n)
  {
    if m > 0 {
      ShrShr(v / 2, m - 1, n);
    }
  }

  lemma {:induction false} ShrMonotone(a: nat, b: nat, n: nat)
    requires a <= b
    ensures Shr(a, n) <= Shr(b, n)
  {
    if n > 0 {
      ShrMonotone(a / 2, b / 2, n - 1);
    }
  }

  lemma {:induction false} LowBelow(v: nat, n: nat)
    ensures Low(v, n) < Pow2(n)
    ensures v < Pow2(n) <==> Shr(v, n) == 0
    ensures v < Pow2(n) ==> Low(v, n) == v
  {
    if n > 0 {
      LowBelow(v / 2, n - 1);
    }
  }

  /** Comparing numbers is comparing high parts, then low parts. */
  lemma {:induction false} CompareParts(a: nat, b: nat, n: nat)
    ensures a < b <==> Shr(a, n) < Shr(b, n) || (Shr(a, n) == Shr(b, n) && Low(a, n) < Low(b, n))
    ensures a == b <==> Shr(a, n) == Shr(b, n) && Low(a, n) == Low(b, n)
  {
    if n > 0 {
      CompareParts(a / 2, b / 2, n - 1);
    }
  }

  /** A number fits into n bits exactly when it is below 2^n. */
  lemma {:induction false} BitLenBound(v: nat, n: nat)
    ensures BitLen(v) <= n <==> v < Pow2(n)
    decreases v
  {
    if v > 0 && n > 0 {
      BitLenBound(v / 2, n - 1);
    }
  }

  // ----- Exclusive or, or -----

  lemma {:induction false} XorZero(a: nat, b: nat)
    ensures Xor(a, b) == 0 <==> a == b
    decreases a + b
  {
    if a != 0 || b != 0 {
      XorZero(a / 2, b / 2);
    }
  }

  lemma {:induction false} OrZero(a: nat, b: nat)
    ensures Or(a, b) == 0 <==> a == 0 && b == 0
    decreases a + b
  {
    if a != 0 || b != 0 {
      OrZero(a / 2, b / 2);
    }
  }

  lemma {:induction false} XorShr(a: nat, b: nat, n: nat)
    ensures Shr(Xor(a, b), n) == Xor(Shr(a, n), Shr(b, n))
  {
    if n > 0 {
      assert Xor(a, b) / 2 == Xor(a / 2, b / 2);
      XorShr(a / 2, b / 2, n - 1);
    }
  }

  lemma {:induction false} OrShr(a: nat, b: nat, n: nat)
    ensures Shr(Or(a, b), n) == Or(Shr(a, n), Shr(b, n))
  {
    if n > 0 {
      assert Or(a, b) / 2 == Or(a / 2, b / 2);
      OrShr(a / 2, b / 2, n - 1);
    }
  }

  /** Two numbers agree above bit n exactly when their difference mask has at
      most n bits. */
  lemma XorBitLen(a: nat, b: nat, n: nat)
    ensures BitLen(Xor(a, b)) <= n <==> Shr(a, n) == Shr(b, n)
  {
    BitLenBound(Xor(a, b), n);
    LowBelow(Xor(a, b), n);
    XorShr(a, b, n);
    XorZero(Shr(a, n), Shr(b, n));
  }

  /** A union of masks has at most n bits exactly when both have. */
  lemma OrBitLen(a: nat, b: nat, n: nat)
    ensures BitLen(Or(a, b)) <= n <==> BitLen(a) <= n && BitLen(b) <= n
  {
    BitLenBound(Or(a, b), n);
    BitLenBound(a, n);
    BitLenBound(b, n);
    LowBelow(Or(a, b), n);
    LowBelow(a, n);
    LowBelow(b, n);
    OrShr(a, b, n);
    OrZero(Shr(a, n), Shr(b, n));
  }

  // ----- 64-bit integers -----

  const U64: nat := 0x1_0000_0000_0000_0000
  const MAX_INT64: int := 0x7FFF_FFFF_FFFF_FFFF
  const MIN_INT64: int := -0x8000_0000_0000_0000

  predicate Int64(v: int) {
    MIN_INT64 <= v <= MAX_INT64
  }

  /** The 64-bit number that a computation wraps to. */
  function Wrap(v: int): (w: int)
    ensures Int64(w) && (Int64(v) ==> w == v)
  {
    (v - MIN_INT64) % U64 + MIN_INT64
  }

  // ----- Shifts as divisions -----

  lemma DivDiv(v: nat, d: nat, q: nat)
    requires d > 0 && q > 0
    ensures d * q > 0 && v / d / q == v / (d * q)
  {
    var a := v / d;
    var b := a / q;
    AtLeast(d, 0, q);
    AtLeast(d, a % q, q);
    Expands(v, d, q, a, b);
    QuotientIs(v, d * q, b, d * (a % q) + v % d);
  }

  lemma Expands(v: nat, d: nat, q: nat, a: nat, b: nat)
    requires d > 0 && q > 0 && a == v / d && b == a / q
    ensures v == d * q * b + (d * (a % q) + v % d)
  {
    assert v == d * a + v % d && a == q * b + a % q;
    assert d * a == d * (q * b) + d * (a % q);
  }

  lemma QuotientIs(v: nat, d: nat, q: nat, r: nat)
    requires d > 0 && v == d * q + r && r < d
    ensures v / d == q
  {
    var q', r' := v / d, v % d;
    assert v == d * q' + r';
    if q < q' {
      AtLeast(d, q, q');
    } else if q' < q {
      AtLeast(d, q', q);
    }
  }

  lemma {:induction false} AtLeast(d: nat, a: nat, b: nat)
    requires a < b
    ensures d * b >= d * a + d
  {
    if a + 1 < b {
      AtLeast(d, a, b - 1);
    }
    assert d * b == d * (b - 1) + d;
  }

  /** Shifting is dividing by a power of two. */
  lemma {:induction false} ShrIsDiv(v: nat, n: nat)
    ensures Shr(v, n) == v / Pow2(n)
  {
    if n > 0 {
      ShrIsDiv(v / 2, n - 1);
      DivDiv(v, 2, Pow2(n - 1));
    }
  }

  lemma ShardPower()
    ensures Pow2(20) == 0x10_0000
  {
    assert Pow2(10) == 0x400;
    Pow2Adds(10, 10);
  }
}
