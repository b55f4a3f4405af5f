// Minimum and maximum over bit-sliced integers (fragment.go).
module BsiExtremes {
  import opened Bits
  import opened BsiData
  import opened BsiRange
  import opened Options

  /** Setting bit i of a word whose lower bits are clear. */
  lemma {:induction false} SetBit(v: nat, i: nat)
    requires Low(v, i + 1) == 0
    ensures Low(v, i) == 0 && Shr(v, i) == 2 * Shr(v, i + 1)
    ensures Low(v + Pow2(i), i) == 0 && Shr(v + Pow2(i), i) == 2 * Shr(v, i + 1) + 1
  {
    if i > 0 {
      SetBit(v / 2, i - 1);
      assert (v + Pow2(i)) / 2 == v / 2 + Pow2(i - 1);
    }
  }

  /** Extreme so far: with sign 1 for a minimum and -1 for a maximum, `best` is
      the least high part and `left` are the columns attaining it. */
  ghost predicate Leading(f: Fragment, filter: set<nat>, d: nat, i: nat, best: nat, left: set<nat>, sign: int) {
    && left != {} && left <= filter && Low(best, i) == 0
    && forall c :: c in filter ==> LeadingAt(f.Mag(c, d), i, best, c in left, sign)
  }

  ghost predicate LeadingAt(m: nat, i: nat, best: nat, left: bool, sign: int) {
    && (left <==> Shr(m, i) == Shr(best, i))
    && sign * Shr(best, i) <= sign * Shr(m, i)
  }

  lemma LeadingStart(f: Fragment, filter: set<nat>, d: nat, sign: int)
    requires filter != {}
    ensures Leading(f, filter, d, d, 0, filter, sign)
  {
    Pow2Monotone(0, d);
    LowBelow(0, d);
    forall c | c in filter
      ensures LeadingAt(f.Mag(c, d), d, 0, true, sign)
    {
      MagBound(f, c, d);
      LowBelow(f.Mag(c, d), d);
    }
  }

  /** Prefer the columns without bit k; if there are none, all have it. */
  lemma MinStep(f: Fragment, filter: set<nat>, d: nat, k: nat, best: nat, left: set<nat>)
    requires k < d && Leading(f, filter, d, k + 1, best, left, 1)
    ensures var row := left - f.Row(OFFSET_ROW + k);
            if row != {} then Leading(f, filter, d, k, best, row, 1)
            else Leading(f, filter, d, k, best + Pow2(k), left, 1)
  {
    SetBit(best, k);
    var row := left - f.Row(OFFSET_ROW + k);
    forall c | c in filter
      ensures row != {} ==> LeadingAt(f.Mag(c, d), k, best, c in row, 1)
      ensures row == {} ==> LeadingAt(f.Mag(c, d), k, best + Pow2(k), c in left, 1)
    {
      assert LeadingAt(f.Mag(c, d), k + 1, best, c in left, 1);
      HighStep(f, c, d, 0, k);
      assert c in left && c !in f.Row(OFFSET_ROW + k) ==> c in row;
    }
  }

  lemma MaxStep(f: Fragment, filter: set<nat>, d: nat, k: nat, best: nat, left: set<nat>)
    requires k < d && Leading(f, filter, d, k + 1, best, left, -1)
    ensures var row := f.Row(OFFSET_ROW + k) * left;
            if row != {} then Leading(f, filter, d, k, best + Pow2(k), row, -1)
            else Leading(f, filter, d, k, best, left, -1)
  {
    SetBit(best, k);
    var row := f.Row(OFFSET_ROW + k) * left;
    forall c | c in filter
      ensures row != {} ==> LeadingAt(f.Mag(c, d), k, best + Pow2(k), c in row, -1)
      ensures row == {} ==> LeadingAt(f.Mag(c, d), k, best, c in left, -1)
    {
      assert LeadingAt(f.Mag(c, d), k + 1, best, c in left, -1);
      HighStep(f, c, d, 0, k);
      assert c in left && c in f.Row(OFFSET_ROW + k) ==> c in row;
    }
  }

  ghost function Attaining(f: Fragment, filter: set<nat>, d: nat, m: nat): set<nat> {
    set c | c in filter && f.Mag(c, d) == m
  }

  /** The least magnitude, and how many columns have it. */
  method MinUnsigned(f: Fragment, filter0: set<nat>, d: nat) returns (min: nat, count: nat)
    requires filter0 != {}
    ensures count == |Attaining(f, filter0, d, min)| && count > 0
    ensures forall c :: c in filter0 ==> min <= f.Mag(c, d)
  {
    var filter := filter0;
    min, count := 0, |filter|;
    LeadingStart(f, filter0, d, 1);
    var i := d;
    while i > 0
      invariant 0 <= i <= d && Leading(f, filter0, d, i, min, filter, 1)
      invariant i == 0 || i == d ==> count == |filter|
    {
      i := i - 1;
      var row := filter - f.Row(OFFSET_ROW + i);
      MinStep(f, filter0, d, i, min, filter);
      count := |row|;
      if count > 0 {
        filter := row;
      } else {
        min := min + Pow2(i);
        if i == 0 {
          count := |filter|;
        }
      }
    }
    LeadingEnds(f, filter0, d, min, filter, 1);
  }

  /** The greatest magnitude, and how many columns have it. */
  method MaxUnsigned(f: Fragment, filter0: set<nat>, d: nat) returns (max: nat, count: nat)
    requires filter0 != {}
    ensures count == |Attaining(f, filter0, d, max)| && count > 0
    ensures forall c :: c in filter0 ==> f.Mag(c, d) <= max
  {
    var filter := filter0;
    max, count := 0, |filter|;
    LeadingStart(f, filter0, d, -1);
    var i := d;
    while i > 0
      invariant 0 <= i <= d && Leading(f, filter0, d, i, max, filter, -1)
      invariant i == 0 || i == d ==> count == |filter|
    {
      i := i - 1;
      var row := f.Row(OFFSET_ROW + i) * filter;
      MaxStep(f, filter0, d, i, max, filter);
      count := |row|;
      if count > 0 {
        max := max + Pow2(i);
        filter := row;
      } else if i == 0 {
        count := |filter|;
      }
    }
    LeadingEnds(f, filter0, d, max, filter, -1);
  }

  lemma LeadingEnds(f: Fragment, filter: set<nat>, d: nat, best: nat, left: set<nat>, sign: int)
    requires Leading(f, filter, d, 0, best, left, sign)
    ensures left == Attaining(f, filter, d, best) && |left| > 0
    ensures forall c :: c in filter ==> sign * best <= sign * f.Mag(c, d)
  {
    forall c | c in filter
      ensures (c in left <==> f.Mag(c, d) == best) && sign * best <= sign * f.Mag(c, d)
    {
      assert LeadingAt(f.Mag(c, d), 0, best, c in left, sign);
    }
  }

  // ----- Signed -----

  /** The existing columns, those of the filter only if there is one. */
  ghost function Considered(f: Fragment, filter: Option<set<nat>>): (cols: set<nat>)
    ensures forall c :: c in cols <==> c in f.Row(EXISTS_ROW) && (filter.Some? ==> c in filter.value)
  {
    if filter.Some? then f.Row(EXISTS_ROW) * filter.value else f.Row(EXISTS_ROW)
  }

  ghost function WithValue(f: Fragment, cols: set<nat>, d: nat, v: int): set<nat> {
    set c | c in cols && f.Val(c, d) == v
  }

  /** `v` is the extreme value of the columns and `count` of them attain it;
      (0, 0) stands for no columns at all. */
  ghost predicate IsExtreme(f: Fragment, cols: set<nat>, d: nat, sign: int, v: int, count: nat) {
    && (cols == {} <==> count == 0)
    && (cols == {} ==> v == 0)
    && count == |WithValue(f, cols, d, v)|
    && forall c :: c in cols ==> sign * v <= sign * f.Val(c, d)
  }

  /** The least value of the existing, filtered columns and its count. */
  method Min(f: Fragment, filter: Option<set<nat>>, d: nat) returns (min: int, count: nat)
    requires f.NoNegativeZero(d)
    ensures IsExtreme(f, Considered(f, filter), d, 1, min, count)
    ensures forall c :: c in f.Row(EXISTS_ROW) && (filter.Some? ==> c in filter.value) ==> min <= f.Val(c, d)
  {
    var consider := f.Row(EXISTS_ROW);
    if filter.Some? {
      consider := consider * filter.value;
    }
    if |consider| == 0 {
      assert WithValue(f, consider, d, 0) == {};
      return 0, 0;
    }
    var row := f.Row(SIGN_ROW) * consider;
    if row != {} {
      var m, n := MaxUnsigned(f, row, d);
      min, count := -(m as int), n;
      NegativeAttaining(f, consider, d, m);
    } else {
      min, count := MinUnsigned(f, consider, d);
      assert forall c :: c in consider && c in f.Row(SIGN_ROW) ==> c in row;
      assert WithValue(f, consider, d, min) == Attaining(f, consider, d, min);
    }
  }

  /** Where some column is negative, the columns at -m are negative ones. */
  lemma NegativeAttaining(f: Fragment, consider: set<nat>, d: nat, m: nat)
    requires consider <= f.Row(EXISTS_ROW) && f.NoNegativeZero(d)
    requires Attaining(f, f.Row(SIGN_ROW) * consider, d, m) != {}
    ensures m > 0 && WithValue(f, consider, d, -(m as int)) == Attaining(f, f.Row(SIGN_ROW) * consider, d, m)
  {
    var x :| x in Attaining(f, f.Row(SIGN_ROW) * consider, d, m);
    assert x in f.Row(EXISTS_ROW) && f.Mag(x, d) == m;
  }

  /** The greatest value of the existing, filtered columns and its count. */
  method Max(f: Fragment, filter: Option<set<nat>>, d: nat) returns (max: int, count: nat)
    requires f.NoNegativeZero(d)
    ensures IsExtreme(f, Considered(f, filter), d, -1, max, count)
    ensures forall c :: c in f.Row(EXISTS_ROW) && (filter.Some? ==> c in filter.value) ==> max >= f.Val(c, d)
  {
    var consider := f.Row(EXISTS_ROW);
    if filter.Some? {
      consider := consider * filter.value;
    }
    if consider == {} {
      assert WithValue(f, consider, d, 0) == {};
      return 0, 0;
    }
    var pos := consider - f.Row(SIGN_ROW);
    if pos == {} {
      var m, n := MinUnsigned(f, consider, d);
      max, count := -(m as int), n;
      assert forall c :: c in consider && c !in f.Row(SIGN_ROW) ==> c in pos;
      assert f.Row(SIGN_ROW) * consider == consider;
      NegativeAttaining(f, consider, d, m);
    } else {
      max, count := MaxUnsigned(f, pos, d);
      PositiveAttaining(f, consider, d, max);
    }
  }

  lemma PositiveAttaining(f: Fragment, consider: set<nat>, d: nat, m: nat)
    requires consider <= f.Row(EXISTS_ROW) && f.NoNegativeZero(d)
    ensures WithValue(f, consider, d, m) == Attaining(f, consider - f.Row(SIGN_ROW), d, m)
  {
  }
}
