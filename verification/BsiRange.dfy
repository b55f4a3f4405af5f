// Range queries over bit-sliced integers (fragment.go): each walks the value
// rows from the highest bit and combines column sets.
module BsiRange {
  import opened Bits
  import opened BsiData

  // ----- Bits of masked words -----

  /** Bit k of the low k+1 bits is bit k. */
  lemma {:induction false} BitOfLow(v: nat, k: nat)
    ensures Bit(Low(v, k + 1), k) == Bit(v, k)
  {
    if k > 0 {
      assert Low(v, k + 1) / 2 == Low(v / 2, k);
      BitOfLow(v / 2, k - 1);
    }
  }

  /** Setting all bits above k leaves bit k alone. */
  lemma {:induction false} BitUnderOnes(n: nat, k: nat, low: nat)
    requires k < n && low < Pow2(k + 1)
    ensures Pow2(k + 1) <= Pow2(n)
    ensures Bit(Pow2(n) - Pow2(k + 1) + low, k) == Bit(low, k)
  {
    Pow2Monotone(k + 1, n);
    if k > 0 {
      BitUnderOnes(n - 1, k - 1, low / 2);
      assert (Pow2(n) - Pow2(k + 1) + low) / 2 == Pow2(n - 1) - Pow2(k) + low / 2;
    }
  }

  /** How the high part of a magnitude grows by one row. */
  lemma HighStep(f: Fragment, c: nat, d: nat, p: nat, k: nat)
    requires k < d
    ensures Shr(f.Mag(c, d), k) == 2 * Shr(f.Mag(c, d), k + 1) + (if c in f.Row(OFFSET_ROW + k) then 1 else 0)
    ensures Shr(p, k) == 2 * Shr(p, k + 1) + Bit(p, k)
  {
    ShrBit(f.Mag(c, d), k);
    ShrBit(p, k);
    MagBit(f, c, k, d);
  }

  // ----- Less than -----

  /** `matched` is decided to be below p by the bits from i up; what may still
      equal p there is in `remaining`. */
  ghost predicate Below(f: Fragment, filter: set<nat>, d: nat, p: nat, i: nat, matched: set<nat>, remaining: set<nat>) {
    && matched <= filter && remaining <= filter
    && forall c :: c in filter ==> BelowAt(f.Mag(c, d), p, i, c in matched, c in remaining)
  }

  ghost predicate BelowAt(m: nat, p: nat, i: nat, matched: bool, remaining: bool) {
    && (matched <==> Shr(m, i) < Shr(p, i))
    && (Shr(m, i) == Shr(p, i) ==> remaining)
    && (remaining ==> Shr(m, i) <= Shr(p, i))
  }

  method RangeLTUnsigned(f: Fragment, filter: set<nat>, d: nat, predicate0: nat,
                         allowEquality: bool) returns (r: set<nat>)
    ensures forall c :: c in r <==> c in filter && (f.Mag(c, d) < predicate0 || (allowEquality && f.Mag(c, d) == predicate0))
  {
    BitLenBound(predicate0, d);
    forall c ensures f.Mag(c, d) < Pow2(d) {
      MagBound(f, c, d);
    }
    if BitLen(predicate0) > d || (predicate0 == Pow2(d) - 1 && allowEquality) {
      return filter;
    }
    if predicate0 == Pow2(d) - 1 {
      r := NotAllOnes(f, filter, d);
      return;
    }
    var P := if allowEquality then predicate0 + 1 else predicate0;
    r := BelowLoop(f, filter, d, P);
  }

  /** Everything but the largest magnitude. */
  method NotAllOnes(f: Fragment, filter: set<nat>, d: nat) returns (matches: set<nat>)
    ensures forall c :: c in matches <==> c in filter && f.Mag(c, d) != Pow2(d) - 1
  {
    matches := {};
    for i := 0 to d
      invariant forall c :: c in matches <==> c in filter && f.Mag(c, i) != Pow2(i) - 1
    {
      forall c ensures f.Mag(c, i) < Pow2(i) {
        MagBound(f, c, i);
      }
      matches := matches + (filter - f.Row(OFFSET_ROW + i));
    }
  }

  method BelowLoop(f: Fragment, filter: set<nat>, d: nat, P: nat) returns (matched: set<nat>)
    requires P < Pow2(d)
    ensures forall c :: c in matched <==> c in filter && f.Mag(c, d) < P
  {
    var predicate_ := P;
    var remaining := filter;
    matched := {};
    var i := d;
    BelowStart(f, filter, d, P);
    LowBelow(P, d);
    while i > 0 && predicate_ > 0 && remaining != {}
      invariant 0 <= i <= d && predicate_ == Low(P, i)
      invariant Below(f, filter, d, P, i, matched, remaining)
    {
      i := i - 1;
      var row := f.Row(OFFSET_ROW + i);
      var zeroes := remaining - row;
      BitOfLow(P, i);
      LowBit(P, i);
      BelowStep(f, filter, d, P, i, matched, remaining);
      if Bit(predicate_, i) == 1 {
        matched := matched + zeroes;
        predicate_ := predicate_ - Pow2(i);
      } else {
        remaining := zeroes;
      }
    }
    BelowDone(f, filter, d, P, i, matched, remaining);
  }

  lemma BelowStart(f: Fragment, filter: set<nat>, d: nat, p: nat)
    requires p < Pow2(d)
    ensures Below(f, filter, d, p, d, {}, filter)
  {
    LowBelow(p, d);
    forall c | c in filter
      ensures BelowAt(f.Mag(c, d), p, d, false, true)
    {
      MagBound(f, c, d);
      LowBelow(f.Mag(c, d), d);
    }
  }

  lemma BelowStep(f: Fragment, filter: set<nat>, d: nat, p: nat, k: nat, matched: set<nat>, remaining: set<nat>)
    requires k < d && Below(f, filter, d, p, k + 1, matched, remaining)
    ensures Bit(p, k) == 1 ==> Below(f, filter, d, p, k, matched + (remaining - f.Row(OFFSET_ROW + k)), remaining)
    ensures Bit(p, k) == 0 ==> Below(f, filter, d, p, k, matched, remaining - f.Row(OFFSET_ROW + k))
  {
    var zeroes := remaining - f.Row(OFFSET_ROW + k);
    forall c | c in filter
      ensures Bit(p, k) == 1 ==> BelowAt(f.Mag(c, d), p, k, c in matched + zeroes, c in remaining)
      ensures Bit(p, k) == 0 ==> BelowAt(f.Mag(c, d), p, k, c in matched, c in zeroes)
    {
      assert BelowAt(f.Mag(c, d), p, k + 1, c in matched, c in remaining);
      HighStep(f, c, d, p, k);
    }
  }

  lemma BelowDone(f: Fragment, filter: set<nat>, d: nat, p: nat, i: nat, matched: set<nat>, remaining: set<nat>)
    requires Below(f, filter, d, p, i, matched, remaining)
    requires i == 0 || Low(p, i) == 0 || remaining == {}
    ensures forall c :: c in matched <==> c in filter && f.Mag(c, d) < p
  {
    forall c | c in filter
      ensures c in matched <==> f.Mag(c, d) < p
    {
      assert BelowAt(f.Mag(c, d), p, i, c in matched, c in remaining);
      CompareParts(f.Mag(c, d), p, i);
    }
  }

  // ----- Greater than -----

  ghost predicate Over(f: Fragment, filter: set<nat>, d: nat, p: nat, i: nat, matched: set<nat>, remaining: set<nat>) {
    && matched <= filter && remaining <= filter
    && forall c :: c in filter ==> OverAt(f.Mag(c, d), p, i, c in matched, c in remaining)
  }

  ghost predicate OverAt(m: nat, p: nat, i: nat, matched: bool, remaining: bool) {
    && (matched <==> Shr(m, i) > Shr(p, i))
    && (Shr(m, i) == Shr(p, i) ==> remaining)
    && (remaining ==> Shr(m, i) >= Shr(p, i))
  }

  method RangeGTUnsigned(f: Fragment, filter: set<nat>, d: nat, predicate0: nat,
                         allowEquality0: bool) returns (r: set<nat>)
    requires d <= 64
    ensures forall c :: c in r <==> c in filter && (f.Mag(c, d) > predicate0 || (allowEquality0 && f.Mag(c, d) == predicate0))
  {
    var P, allowEquality := predicate0, allowEquality0;
    if P == 0 && allowEquality {
      return filter;
    }
    if allowEquality {
      P, allowEquality := P - 1, false;
    }
    if P == 0 {
      r := NotZero(f, filter, d);
      return;
    }
    BitLenBound(P, d);
    if BitLen(P) > d {
      forall c ensures f.Mag(c, d) < Pow2(d) {
        MagBound(f, c, d);
      }
      return {};
    }
    r := OverLoop(f, filter, d, P);
  }

  method NotZero(f: Fragment, filter: set<nat>, d: nat) returns (matches: set<nat>)
    ensures forall c :: c in matches <==> c in filter && f.Mag(c, d) != 0
  {
    matches := {};
    for i := 0 to d
      invariant forall c :: c in matches <==> c in filter && f.Mag(c, i) != 0
    {
      matches := matches + (filter * f.Row(OFFSET_ROW + i));
    }
  }

  method OverLoop(f: Fragment, filter: set<nat>, d: nat, P: nat) returns (matched: set<nat>)
    requires d <= 64 && P < Pow2(d)
    ensures forall c :: c in matched <==> c in filter && f.Mag(c, d) > P
  {
    hide Pow2;
    WordSize();
    Pow2Monotone(d, 64);
    var predicate_ := P + (U64 - Pow2(d));
    var remaining := filter;
    matched := {};
    var i := d;
    OverStart(f, filter, d, P);
    LowBelow(P, d);
    while i > 0 && predicate_ < U64 - 1 && remaining != {}
      invariant 0 <= i <= d && Pow2(i) <= U64 && predicate_ == U64 - Pow2(i) + Low(P, i)
      invariant Over(f, filter, d, P, i, matched, remaining)
    {
      i := i - 1;
      var row := f.Row(OFFSET_ROW + i);
      var ones := remaining * row;
      LowBelow(P, i + 1);
      Pow2Monotone(i, 64);
      DoublePow2(i);
      BitUnderOnes(64, i, Low(P, i + 1));
      BitOfLow(P, i);
      LowBit(P, i);
      OverStep(f, filter, d, P, i, matched, remaining);
      if Bit(predicate_, i) == 1 {
        remaining := ones;
      } else {
        matched := matched + ones;
        predicate_ := predicate_ + Pow2(i);
      }
    }
    LowBelow(P, i);
    OverDone(f, filter, d, P, i, matched, remaining);
  }

  lemma OverStart(f: Fragment, filter: set<nat>, d: nat, p: nat)
    requires p < Pow2(d)
    ensures Over(f, filter, d, p, d, {}, filter)
  {
    LowBelow(p, d);
    forall c | c in filter
      ensures OverAt(f.Mag(c, d), p, d, false, true)
    {
      MagBound(f, c, d);
      LowBelow(f.Mag(c, d), d);
    }
  }

  lemma OverStep(f: Fragment, filter: set<nat>, d: nat, p: nat, k: nat, matched: set<nat>, remaining: set<nat>)
    requires k < d && Over(f, filter, d, p, k + 1, matched, remaining)
    ensures Bit(p, k) == 0 ==> Over(f, filter, d, p, k, matched + (remaining * f.Row(OFFSET_ROW + k)), remaining)
    ensures Bit(p, k) == 1 ==> Over(f, filter, d, p, k, matched, remaining * f.Row(OFFSET_ROW + k))
  {
    var ones := remaining * f.Row(OFFSET_ROW + k);
    forall c | c in filter
      ensures Bit(p, k) == 0 ==> OverAt(f.Mag(c, d), p, k, c in matched + ones, c in remaining)
      ensures Bit(p, k) == 1 ==> OverAt(f.Mag(c, d), p, k, c in matched, c in ones)
    {
      assert OverAt(f.Mag(c, d), p, k + 1, c in matched, c in remaining);
      HighStep(f, c, d, p, k);
    }
  }

  lemma OverDone(f: Fragment, filter: set<nat>, d: nat, p: nat, i: nat, matched: set<nat>, remaining: set<nat>)
    requires Over(f, filter, d, p, i, matched, remaining)
    requires i == 0 || Low(p, i) == Pow2(i) - 1 || remaining == {}
    ensures forall c :: c in matched <==> c in filter && f.Mag(c, d) > p
  {
    forall c | c in filter
      ensures c in matched <==> f.Mag(c, d) > p
    {
      assert OverAt(f.Mag(c, d), p, i, c in matched, c in remaining);
      CompareParts(p, f.Mag(c, d), i);
      LowBelow(f.Mag(c, d), i);
    }
  }

  // ----- Between -----

  /** Exchanged bounds give nothing. */
  method RangeBetweenUnsigned(f: Fragment, filter: set<nat>, d: nat, min: nat, max: nat) returns (r: set<nat>)
    requires d <= 64 && min < U64
    ensures forall c :: c in r <==> c in filter && min <= f.Mag(c, d) <= max
  {
    if max > Pow2(d) - 1 {
      forall c ensures f.Mag(c, d) < Pow2(d) {
        MagBound(f, c, d);
      }
      r := RangeGTUnsigned(f, filter, d, min, true);
      return;
    }
    if min == 0 {
      r := RangeLTUnsigned(f, filter, d, max, true);
      return;
    }
    var diffLen := BitLen(Xor(max, min));
    DiffLen(max, min, d, diffLen);
    var remaining := SharedPrefix(f, filter, d, min, diffLen);
    remaining := RangeGTUnsigned(f, remaining, diffLen, Low(min, diffLen), true);
    r := RangeLTUnsigned(f, remaining, diffLen, Low(max, diffLen), true);
    if min > max {
      CompareParts(max, min, diffLen);
      return;
    }
    forall c
      ensures min <= f.Mag(c, d) <= max <==>
              Shr(f.Mag(c, d), diffLen) == Shr(min, diffLen) && Low(min, diffLen) <= f.Mag(c, diffLen) <= Low(max, diffLen)
    {
      BetweenParts(f.Mag(c, d), min, max, diffLen);
      MagLow(f, c, diffLen, d);
    }
  }

  /** The bounds agree above the length of their difference, which fits the depth
      when they do. */
  lemma DiffLen(max: nat, min: nat, d: nat, n: nat)
    requires max < Pow2(d) && d <= 64 && min < U64 && n == BitLen(Xor(max, min))
    ensures Shr(max, n) == Shr(min, n) && n <= 64
    ensures min <= max ==> n <= d && min < Pow2(d)
    ensures n <= d ==> min < Pow2(d)
  {
    hide Pow2;
    XorBitLen(max, min, n);
    WordSize();
    Pow2Monotone(d, 64);
    LowBelow(min, 64);
    LowBelow(max, 64);
    XorBitLen(max, min, 64);
    LowBelow(min, d);
    LowBelow(max, d);
    XorBitLen(max, min, d);
  }

  lemma BetweenParts(m: nat, min: nat, max: nat, n: nat)
    requires Shr(max, n) == Shr(min, n)
    ensures min <= m <= max <==> Shr(m, n) == Shr(min, n) && Low(min, n) <= Low(m, n) <= Low(max, n)
  {
    CompareParts(m, min, n);
    CompareParts(max, m, n);
  }

  /** The columns that agree with min in all bits from n up. */
  method SharedPrefix(f: Fragment, filter: set<nat>, d: nat, min: nat, n: nat) returns (remaining: set<nat>)
    requires n <= d ==> min < Pow2(d)
    ensures n <= d ==> forall c :: c in remaining <==> c in filter && Shr(f.Mag(c, d), n) == Shr(min, n)
    ensures n > d ==> remaining == filter
  {
    remaining := filter;
    if n > d {
      return;
    }
    LowBelow(min, d);
    forall c ensures Shr(f.Mag(c, d), d) == 0 {
      MagBound(f, c, d);
      LowBelow(f.Mag(c, d), d);
    }
    var i := d;
    while i > n
      invariant n <= i <= d
      invariant forall c :: c in remaining <==> c in filter && Shr(f.Mag(c, d), i) == Shr(min, i)
    {
      i := i - 1;
      forall c
        ensures Shr(f.Mag(c, d), i) == Shr(min, i) <==>
                Shr(f.Mag(c, d), i + 1) == Shr(min, i + 1) && (c in f.Row(OFFSET_ROW + i) <==> Bit(min, i) == 1)
      {
        HighStep(f, c, d, min, i);
      }
      if Bit(min, i) == 1 {
        remaining := remaining * f.Row(OFFSET_ROW + i);
      } else {
        remaining := remaining - f.Row(OFFSET_ROW + i);
      }
    }
  }

  // ----- Signed queries -----

  datatype Op = EQ | NEQ | LT | LTE | GT | GTE

  predicate Compare(op: Op, v: int, p: int) {
    match op
    case EQ => v == p
    case NEQ => v != p
    case LT => v < p
    case LTE => v <= p
    case GT => v > p
    case GTE => v >= p
  }

  /** The result of a query: the existing columns whose value satisfies it. */
  ghost predicate Answers(f: Fragment, d: nat, op: Op, p: int, r: set<nat>) {
    forall c :: c in r <==> c in f.Row(EXISTS_ROW) && Compare(op, f.Val(c, d), p)
  }

  method RangeEQ(f: Fragment, d: nat, p: int) returns (b: set<nat>)
    requires f.NoNegativeZero(d)
    ensures Answers(f, d, EQ, p, b)
  {
    b := f.Row(EXISTS_ROW);
    var up := Abs(p);
    BitLenBound(up, d);
    forall c ensures f.Mag(c, d) < Pow2(d) {
      MagBound(f, c, d);
    }
    if BitLen(up) > d {
      return {};
    }
    if p < 0 {
      b := b * f.Row(SIGN_ROW);
    } else {
      b := b - f.Row(SIGN_ROW);
    }
    b := SharedPrefix(f, b, d, up, 0);
  }

  method RangeNEQ(f: Fragment, d: nat, p: int) returns (b: set<nat>)
    requires f.NoNegativeZero(d)
    ensures Answers(f, d, NEQ, p, b)
  {
    var eq := RangeEQ(f, d, p);
    b := f.Row(EXISTS_ROW) - eq;
  }

  method RangeLT(f: Fragment, d: nat, p0: int, allowEquality0: bool) returns (r: set<nat>)
    requires d <= 64 && f.NoNegativeZero(d)
    ensures Answers(f, d, if allowEquality0 then LTE else LT, p0, r)
  {
    var p, allowEquality := p0, allowEquality0;
    if p == 1 && !allowEquality {
      p, allowEquality := 0, true;
    }
    var b, sign := f.Row(EXISTS_ROW), f.Row(SIGN_ROW);
    var up := Abs(p);
    if p == 0 && !allowEquality {
      r := b * sign;
    } else if p == 0 {
      var zeroes := RangeEQ(f, d, 0);
      r := b * sign + zeroes;
    } else if p < 0 {
      r := RangeGTUnsigned(f, b * sign, d, up, allowEquality);
    } else {
      var pos := RangeLTUnsigned(f, b - sign, d, up, allowEquality);
      r := pos + b * sign;
    }
  }

  method RangeGT(f: Fragment, d: nat, p0: int, allowEquality0: bool) returns (r: set<nat>)
    requires d <= 64 && f.NoNegativeZero(d)
    ensures Answers(f, d, if allowEquality0 then GTE else GT, p0, r)
  {
    var p, allowEquality := p0, allowEquality0;
    if p == -1 && !allowEquality {
      p, allowEquality := 0, true;
    }
    var b, sign := f.Row(EXISTS_ROW), f.Row(SIGN_ROW);
    var up := Abs(p);
    if p == 0 {
      if !allowEquality {
        b := RangeNEQ(f, d, 0);
      }
      r := b - sign;
    } else if p >= 0 {
      r := RangeGTUnsigned(f, b - sign, d, up, allowEquality);
    } else {
      var neg := RangeLTUnsigned(f, b * sign, d, up, allowEquality);
      r := b - sign + neg;
    }
  }

  /** A query returns exactly the existing columns whose signed value satisfies
      the comparison, for every predicate and every depth up to 64. */
  method RangeOp(f: Fragment, op: Op, d: nat, p: int) returns (r: set<nat>)
    requires d <= 64 && f.NoNegativeZero(d)
    ensures Answers(f, d, op, p, r)
    ensures op == EQ ==> forall c :: c in r <==> c in f.Row(EXISTS_ROW) && f.Val(c, d) == p
    ensures op == NEQ ==> forall c :: c in r <==> c in f.Row(EXISTS_ROW) && f.Val(c, d) != p
    ensures op == LT ==> forall c :: c in r <==> c in f.Row(EXISTS_ROW) && f.Val(c, d) < p
    ensures op == LTE ==> forall c :: c in r <==> c in f.Row(EXISTS_ROW) && f.Val(c, d) <= p
    ensures op == GT ==> forall c :: c in r <==> c in f.Row(EXISTS_ROW) && f.Val(c, d) > p
    ensures op == GTE ==> forall c :: c in r <==> c in f.Row(EXISTS_ROW) && f.Val(c, d) >= p
  {
    match op
    case EQ => r := RangeEQ(f, d, p);
    case NEQ => r := RangeNEQ(f, d, p);
    case LT => r := RangeLT(f, d, p, false);
    case LTE => r := RangeLT(f, d, p, true);
    case GT => r := RangeGT(f, d, p, false);
    case GTE => r := RangeGT(f, d, p, true);
  }

  /** What the interval query selects: the interval, except that a negative upper
      end below a non-negative lower one counts by its magnitude. */
  predicate Spanned(lo: int, hi: int, v: int) {
    if lo >= 0 && hi < 0 then lo <= v <= -hi else lo <= v <= hi
  }

  /** The inclusive interval query. */
  method RangeBetween(f: Fragment, d: nat, lo: int, hi: int) returns (r: set<nat>)
    requires d <= 64 && f.NoNegativeZero(d) && Int64(lo) && Int64(hi)
    ensures forall c :: c in r <==> c in f.Row(EXISTS_ROW) && Spanned(lo, hi, f.Val(c, d))
  {
    var b, sign := f.Row(EXISTS_ROW), f.Row(SIGN_ROW);
    var umin, umax := Abs(lo), Abs(hi);
    if lo == hi {
      r := RangeEQ(f, d, lo);
    } else if lo >= 0 {
      r := RangeBetweenUnsigned(f, b - sign, d, umin, umax);
    } else if hi < 0 {
      r := RangeBetweenUnsigned(f, b * sign, d, umax, umin);
    } else {
      var pos := RangeLTUnsigned(f, b - sign, d, umax, true);
      var neg := RangeLTUnsigned(f, b * sign, d, umin, true);
      r := pos + neg;
    }
  }
}
