// Lowering a comparison on field values to one on stored values (field.go,
// executor.go): base shift, clamping to the bit depth, and short cuts, in the
// source's 64-bit arithmetic.
module BsiLowering {
  import opened Bits
  import opened BsiData
  import opened BsiField
  import opened BsiRange
  import opened BsiRead
  import opened Options

  /** 1 << d */
  function ShiftedOne(d: nat): int {
    if d < 63 then Pow2(d) else if d == 63 then MIN_INT64 else 0
  }

  function BitDepthMin(base: int, d: nat): int {
    Wrap(Wrap(base - ShiftedOne(d)) + 1)
  }

  function BitDepthMax(base: int, d: nat): int {
    Wrap(Wrap(base + ShiftedOne(d)) - 1)
  }

  /** The stored value to compare with; none when no stored value can qualify. */
  function BaseValue(base: int, d: nat, op: Op, value: int): Option<int> {
    var min, max := BitDepthMin(base, d), BitDepthMax(base, d);
    match op
    case GT => if value > max then None else Some(if value < min then Wrap(Wrap(min - base) - 1) else Wrap(value - base))
    case GTE => if value > max then None else Some(Wrap((if value < min then min else value) - base))
    case LT => if value < min then None else Some(if value > max then Wrap(Wrap(max - base) + 1) else Wrap(value - base))
    case LTE => if value < min then None else Some(Wrap((if value > max then max else value) - base))
    case EQ => if value < min || value > max then None else Some(Wrap(value - base))
    case NEQ => if value < min || value > max then None else Some(Wrap(value - base))
  }

  function BaseValueBetween(base: int, d: nat, lo: int, hi: int): Option<(int, int)> {
    var min, max := BitDepthMin(base, d), BitDepthMax(base, d);
    if hi < min || lo > max || hi < lo then None
    else Some((Wrap((if lo < min then min else lo) - base), Wrap((if hi > max then max else hi) - base)))
  }

  /** What is asked of the fragment. */
  datatype Lowered = Nothing | NotNull | Stored(op: Op, p: int) | Interval(lo: int, hi: int)

  /** What is asked of the field. */
  datatype Query = Single(op: Op, value: int) | Between(lo: int, hi: int)

  predicate Int64Query(q: Query) {
    match q
    case Single(_, value) => Int64(value)
    case Between(lo, hi) => Int64(lo) && Int64(hi)
  }

  predicate Wants(q: Query, x: int) {
    match q
    case Single(op, value) => Compare(op, x, value)
    case Between(lo, hi) => lo <= x <= hi
  }

  /** What each query asks for. */
  lemma WantsIs(value: int, lo: int, hi: int, x: int)
    ensures Wants(Single(EQ, value), x) <==> x == value
    ensures Wants(Single(NEQ, value), x) <==> x != value
    ensures Wants(Single(LT, value), x) <==> x < value
    ensures Wants(Single(LTE, value), x) <==> x <= value
    ensures Wants(Single(GT, value), x) <==> x > value
    ensures Wants(Single(GTE, value), x) <==> x >= value
    ensures Wants(Between(lo, hi), x) <==> lo <= x <= hi
  {
  }

  function Lower(min: int, max: int, d: nat, q: Query): Lowered {
    var base := BsiBase(min, max);
    match q
    case Single(op, value) =>
      var b := BaseValue(base, d, op, value);
      if b.None? && op != NEQ then Nothing
      else if (op == LT && value > max) || (op == LTE && value >= max) || (op == GT && value < min) || (op == GTE && value <= min) then NotNull
      else if b.None? then NotNull
      else Stored(op, b.value)
    case Between(lo, hi) =>
      var b := BaseValueBetween(base, d, lo, hi);
      if b.None? then Nothing
      else if lo <= min && hi >= max then NotNull
      else Interval(b.value.0, b.value.1)
  }

  /** Whether an existing column with a stored value is selected. */
  predicate Selects(l: Lowered, u: int) {
    match l
    case Nothing => false
    case NotNull => true
    case Stored(op, p) => Compare(op, u, p)
    case Interval(lo, hi) => Spanned(lo, hi, u)
  }

  /** A value the field can hold, as stored. */
  predicate Storable(min: int, max: int, d: nat, u: int) {
    Abs(u) < Pow2(d) && min <= u + BsiBase(min, max) <= max
  }

  /** Everything within the depth of the base is a 64-bit number. */
  predicate Fits(min: int, max: int, d: nat) {
    var base := BsiBase(min, max);
    MIN_INT64 <= base - (Pow2(d) - 1) && base + (Pow2(d) - 1) <= MAX_INT64
  }

  lemma ShiftedOneIs(d: nat)
    requires d <= 63
    ensures 0 < Pow2(d) <= 0x8000_0000_0000_0000 && (d < 63 ==> 2 * Pow2(d) <= 0x8000_0000_0000_0000)
    ensures ShiftedOne(d) == if d == 63 then MIN_INT64 else Pow2(d)
    ensures d == 63 ==> Pow2(d) == 0x8000_0000_0000_0000
  {
    hide Pow2;
    WordSize();
    Pow2Monotone(d, 63);
  }

  lemma FitsDepth(min: int, max: int, d: nat)
    requires Int64(min) && Int64(max) && Fits(min, max, d)
    ensures d <= 63 && (d == 63 ==> BsiBase(min, max) == 0 || (BsiBase(min, max) == -1 && max == -1))
    ensures BitDepthMin(BsiBase(min, max), d) == BsiBase(min, max) - Pow2(d) + 1
    ensures BitDepthMax(BsiBase(min, max), d) == BsiBase(min, max) + Pow2(d) - 1
  {
    hide Pow2, ShiftedOne;
    if d >= 64 {
      WordSize();
      Pow2Monotone(64, d);
    } else {
      ShiftedOneIs(d);
    }
  }

  lemma AboveRight(min: int, max: int, d: nat, op: Op, value: int, u: int)
    requires Int64(min) && Int64(max) && Int64(value) && Fits(min, max, d) && Storable(min, max, d, u) && (op == GT || op == GTE)
    ensures Selects(Lower(min, max, d, Single(op, value)), u) <==> Compare(op, u + BsiBase(min, max), value)
  {
    hide Pow2, BitDepthMin, BitDepthMax;
    FitsDepth(min, max, d);
    WordSize();
    Pow2Monotone(d, 63);
  }

  lemma BelowRight(min: int, max: int, d: nat, op: Op, value: int, u: int)
    requires Int64(min) && Int64(max) && Int64(value) && Fits(min, max, d) && Storable(min, max, d, u) && (op == LT || op == LTE)
    ensures Selects(Lower(min, max, d, Single(op, value)), u) <==> Compare(op, u + BsiBase(min, max), value)
  {
    hide Pow2, BitDepthMin, BitDepthMax;
    FitsDepth(min, max, d);
    WordSize();
    Pow2Monotone(d, 63);
  }

  lemma EqualRight(min: int, max: int, d: nat, op: Op, value: int, u: int)
    requires Int64(min) && Int64(max) && Int64(value) && Fits(min, max, d) && Storable(min, max, d, u) && (op == EQ || op == NEQ)
    ensures Selects(Lower(min, max, d, Single(op, value)), u) <==> Compare(op, u + BsiBase(min, max), value)
  {
    hide Pow2, BitDepthMin, BitDepthMax;
    FitsDepth(min, max, d);
    WordSize();
    Pow2Monotone(d, 63);
  }

  lemma SingleRight(min: int, max: int, d: nat, op: Op, value: int, u: int)
    requires Int64(min) && Int64(max) && Int64(value) && Fits(min, max, d) && Storable(min, max, d, u)
    ensures Selects(Lower(min, max, d, Single(op, value)), u) <==> Compare(op, u + BsiBase(min, max), value)
  {
    hide Lower, Fits, Storable, Selects;
    if op == GT || op == GTE {
      AboveRight(min, max, d, op, value, u);
    } else if op == LT || op == LTE {
      BelowRight(min, max, d, op, value, u);
    } else {
      EqualRight(min, max, d, op, value, u);
    }
  }

  lemma BetweenRight(min: int, max: int, d: nat, lo: int, hi: int, u: int)
    requires Int64(min) && Int64(max) && Int64(lo) && Int64(hi) && Fits(min, max, d) && Storable(min, max, d, u)
    ensures Selects(Lower(min, max, d, Between(lo, hi)), u) <==> lo <= u + BsiBase(min, max) <= hi
  {
    hide Pow2, BitDepthMin, BitDepthMax;
    FitsDepth(min, max, d);
    WordSize();
    Pow2Monotone(d, 63);
  }

  lemma BaseIsOut(min: int, max: int, d: nat)
    requires Int64(min) && Int64(max) && min <= max && !Fits(min, max, d)
    ensures BsiBase(min, max) < BitDepthMin(BsiBase(min, max), d) || BsiBase(min, max) > BitDepthMax(BsiBase(min, max), d)
  {
    hide Pow2;
    WordSize();
    if d < 63 {
      Pow2Monotone(d, 62);
      DoublePow2(62);
    }
  }

  ghost predicate RightFor(min: int, max: int, d: nat, q: Query, u: int) {
    Selects(Lower(min, max, d, q), u) <==> Wants(q, u + BsiBase(min, max))
  }

  /** Lowering keeps the meaning of every query on every storable value if and
      only if the depth's reach around the base stays within 64 bits. */
  lemma RightForAllQueriesIff(min: int, max: int, d: nat)
    requires Int64(min) && Int64(max) && min <= max
    ensures (forall q, u :: Int64Query(q) && Storable(min, max, d, u) ==> RightFor(min, max, d, q, u)) <==> Fits(min, max, d)
  {
    if Fits(min, max, d) {
      forall q, u | Int64Query(q) && Storable(min, max, d, u)
        ensures RightFor(min, max, d, q, u)
      {
        match q
        case Single(op, value) => SingleRight(min, max, d, op, value, u);
        case Between(lo, hi) => BetweenRight(min, max, d, lo, hi, u);
      }
    } else {
      BaseIsOut(min, max, d);
      hide Pow2, BitDepthMin, BitDepthMax;
      var q := Single(EQ, BsiBase(min, max));
      assert Storable(min, max, d, 0) && Int64Query(q);
      assert !RightFor(min, max, d, q, 0);
    }
  }

  lemma WrappedBounds(base: int, d: nat)
    requires Int64(base) && d < 63
    ensures 0 < Pow2(d) && 2 * Pow2(d) <= 0x8000_0000_0000_0000
    ensures BitDepthMax(base, d) == base + Pow2(d) - 1 - (if base + Pow2(d) - 1 > MAX_INT64 then U64 else 0)
    ensures BitDepthMin(base, d) == base - Pow2(d) + 1 + (if base - Pow2(d) + 1 < MIN_INT64 then U64 else 0)
  {
    hide Pow2;
    ShiftedOneIs(d);
  }

  /** Where the reach runs over the largest number, the upper bound wraps below the
      base: nothing at or above the base is found, everything is unequal to it,
      and a bound from above lets every stored value pass. */
  lemma WrappedAbove(min: int, max: int, d: nat, op: Op, value: int)
    requires Int64(min) && Int64(max) && min <= max && d < 63 && Int64(value) && BsiBase(min, max) <= value
    requires BsiBase(min, max) + Pow2(d) - 1 > MAX_INT64
    ensures op == EQ || op == GT || op == GTE ==> Lower(min, max, d, Single(op, value)) == Nothing
    ensures op == NEQ ==> Lower(min, max, d, Single(op, value)) == NotNull
    ensures op == LT && value <= max ==> Lower(min, max, d, Single(op, value)) == Stored(LT, Pow2(d))
    ensures op == LTE && value < max ==> Lower(min, max, d, Single(op, value)) == Stored(LTE, Pow2(d) - 1)
    ensures forall hi :: Int64(hi) ==> Lower(min, max, d, Between(value, hi)) == Nothing
  {
    hide Pow2, BitDepthMin, BitDepthMax;
    WrappedBounds(BsiBase(min, max), d);
  }

  /** The same below the smallest number. */
  lemma WrappedBelow(min: int, max: int, d: nat, op: Op, value: int)
    requires Int64(min) && Int64(max) && min <= max && d < 63 && Int64(value) && value <= BsiBase(min, max)
    requires BsiBase(min, max) - Pow2(d) + 1 < MIN_INT64
    ensures op == EQ || op == LT || op == LTE ==> Lower(min, max, d, Single(op, value)) == Nothing
    ensures op == NEQ ==> Lower(min, max, d, Single(op, value)) == NotNull
    ensures op == GT && value >= min ==> Lower(min, max, d, Single(op, value)) == Stored(GT, -(Pow2(d) as int))
    ensures op == GTE && value > min ==> Lower(min, max, d, Single(op, value)) == Stored(GTE, 1 - Pow2(d))
    ensures forall lo :: Int64(lo) ==> Lower(min, max, d, Between(lo, value)) == Nothing
  {
    hide Pow2, BitDepthMin, BitDepthMax;
    WrappedBounds(BsiBase(min, max), d);
  }

  /** A field from 5 to the largest number, at the depth its range needs, does
      not find its own smallest value. */
  lemma LargeRangeMissesItsBase()
    ensures BitDepth(MAX_INT64 - BsiBase(5, MAX_INT64)) == 63 && !Fits(5, MAX_INT64, 63)
    ensures Lower(5, MAX_INT64, 63, Single(EQ, 5)) == Nothing && Wants(Single(EQ, 5), 5)
  {
    hide Pow2, BitLen;
    LargeRangeDepth();
    WordSize();
    BaseIsOut(5, MAX_INT64, 63);
  }

  lemma LargeRangeDepth()
    ensures BitDepth(MAX_INT64 - 5) == 63
  {
    hide Pow2, BitLen;
    WordSize();
    DoublePow2(62);
    BitLenBound(MAX_INT64 - 5, 63);
    BitLenBound(MAX_INT64 - 5, 62);
  }

  // ----- The query on one shard -----

  lemma NoMinusZero(w: View, shard: nat)
    requires w.Valid()
    ensures w.Shard(shard).NoNegativeZero(w.depth)
  {
    var f := w.Shard(shard);
    forall c | c in f.Row(EXISTS_ROW) && c in f.Row(SIGN_ROW)
      ensures f.Mag(c, w.depth) != 0
    {
      assert w.Held(c);
    }
  }

  lemma HeldIsStorable(w: View, shard: nat, c: nat)
    requires w.Valid() && c in w.Shard(shard).Row(EXISTS_ROW)
    ensures c / SHARD_WIDTH == shard && w.At(c) == Some(w.Shard(shard).Val(c, w.depth) + w.Base())
    ensures Storable(w.min, w.max, w.depth, w.Shard(shard).Val(c, w.depth))
  {
    assert w.Held(c);
    ValueFits(w.Shard(shard), c, w.depth);
  }

  /** Selecting stored values is selecting what the columns hold. */
  lemma SelectedIsWanted(w: View, shard: nat, q: Query, c: nat)
    requires w.Valid() && Int64(w.min) && Int64(w.max) && Int64Query(q) && Fits(w.min, w.max, w.depth)
    ensures c in w.Shard(shard).Row(EXISTS_ROW) && Selects(Lower(w.min, w.max, w.depth, q), w.Shard(shard).Val(c, w.depth))
       <==> c / SHARD_WIDTH == shard && w.At(c).Some? && Wants(q, w.At(c).value)
  {
    hide Lower, View.Valid, Fits, Storable, Selects;
    var f := w.Shard(shard);
    if c in f.Row(EXISTS_ROW) {
      HeldIsStorable(w, shard, c);
      match q
      case Single(op, value) => SingleRight(w.min, w.max, w.depth, op, value, f.Val(c, w.depth));
      case Between(lo, hi) => BetweenRight(w.min, w.max, w.depth, lo, hi, f.Val(c, w.depth));
    }
  }

  lemma IntervalWraps(min: int, max: int, d: nat, q: Query)
    requires Lower(min, max, d, q).Interval?
    ensures Int64(Lower(min, max, d, q).lo) && Int64(Lower(min, max, d, q).hi)
  {
    hide BitDepthMin, BitDepthMax, BaseValue;
  }

  /** A query on one shard returns the columns that the lowered query selects;
      where lowering is right, exactly the columns whose value it wants. */
  method ExecuteRowShard(w: View, fragment: Fragment, q: Query) returns (r: set<nat>)
    requires w.Valid() && w.depth <= 64 && fragment == w.Shard(fragment.shard)
    requires Int64(w.min) && Int64(w.max) && Int64Query(q)
    ensures forall c :: c in r <==> c in fragment.Row(EXISTS_ROW) && Selects(Lower(w.min, w.max, w.depth, q), fragment.Val(c, w.depth))
    ensures Fits(w.min, w.max, w.depth) ==>
              forall c: nat :: c in r <==> c / SHARD_WIDTH == fragment.shard && w.At(c).Some? && Wants(q, w.At(c).value)
  {
    hide Lower, View.Valid, View.At, Wants, Fragment.NoNegativeZero, Fits, Fragment.Val;
    NoMinusZero(w, fragment.shard);
    var lowered := Lower(w.min, w.max, w.depth, q);
    match lowered {
      case Nothing => r := {};
      case NotNull => r := fragment.Row(EXISTS_ROW);
      case Stored(op, p) => r := RangeOp(fragment, op, w.depth, p);
      case Interval(lo, hi) =>
        IntervalWraps(w.min, w.max, w.depth, q);
        r := RangeBetween(fragment, w.depth, lo, hi);
    }
    if Fits(w.min, w.max, w.depth) {
      forall c: nat ensures c in r <==> c / SHARD_WIDTH == fragment.shard && w.At(c).Some? && Wants(q, w.At(c).value) {
        SelectedIsWanted(w, fragment.shard, q, c);
      }
    }
  }

  // ----- Strict intervals -----

  datatype Bounds = LtLt | LtLte | LteLt | LteLte

  predicate Inside(op: Bounds, a: int, b: int, x: int) {
    match op
    case LtLt => a < x < b
    case LtLte => a < x <= b
    case LteLt => a <= x < b
    case LteLte => a <= x <= b
  }

  /** Which ends belong to the interval. */
  lemma InsideIs(a: int, b: int, x: int)
    ensures Inside(LtLt, a, b, x) <==> a < x && x < b
    ensures Inside(LtLte, a, b, x) <==> a < x && x <= b
    ensures Inside(LteLt, a, b, x) <==> a <= x && x < b
    ensures Inside(LteLte, a, b, x) <==> a <= x && x <= b
  {
  }

  /** The inclusive interval a strict one is turned into. */
  function CondBounds(op: Bounds, a: int, b: int): (int, int) {
    if a == MAX_INT64 || b == MIN_INT64 then (a, b)
    else
      match op
      case LtLt => (a + 1, b - 1)
      case LtLte => (a + 1, b)
      case LteLt => (a, b - 1)
      case LteLte => (a, b)
  }

  ghost predicate SameInside(op: Bounds, a: int, b: int, x: int) {
    CondBounds(op, a, b).0 <= x <= CondBounds(op, a, b).1 <==> Inside(op, a, b, x)
  }

  /** A strict interval keeps its meaning unless both ends are the largest or
      both are the smallest number. */
  lemma StrictRightIff(op: Bounds, a: int, b: int)
    requires Int64(a) && Int64(b)
    ensures Int64(CondBounds(op, a, b).0) && Int64(CondBounds(op, a, b).1)
    ensures (forall x :: Int64(x) ==> SameInside(op, a, b, x))
       <==> op == LteLte || !(a == b && (a == MAX_INT64 || a == MIN_INT64))
  {
    if op != LteLte && a == b && (a == MAX_INT64 || a == MIN_INT64) {
      assert Int64(a) && !SameInside(op, a, b, a);
    }
  }
}
