// Listing columns by descending bit-sliced value (bsi.go).
module Pivot {
  import opened Bits
  import opened Options

  /** Unsigned bit-sliced data: row i holds the columns with bit i. */
  type BSIData = seq<set<nat>>

  datatype Item = Item(value: nat, col: nat)

  /** One call of the visitor: a value and the columns that have it. */
  datatype Call = Call(value: nat, cols: seq<nat>)

  function Value(bsi: BSIData, c: nat): nat {
    if bsi == [] then 0
    else Value(bsi[..|bsi| - 1], c) + (if c in bsi[|bsi| - 1] then Pow2(|bsi| - 1) else 0)
  }

  lemma {:induction false} ValueBound(bsi: BSIData, c: nat)
    ensures Value(bsi, c) < Pow2(|bsi|)
  {
    if bsi != [] {
      ValueBound(bsi[..|bsi| - 1], c);
    }
  }

  // ----- Columns in ascending order -----

  lemma {:induction false} LeastOf(s: set<nat>) returns (m: nat)
    requires s != {}
    ensures m in s && forall x :: x in s ==> m <= x
  {
    var y :| y in s;
    var rest := s - {y};
    m := y;
    if rest != {} {
      var n := LeastOf(rest);
      m := if y < n then y else n;
    }
    assert forall x :: x in s ==> x == y || x in rest;
  }

  lemma LeastExists(s: set<nat>)
    requires s != {}
    ensures exists m :: m in s && forall x :: x in s ==> m <= x
  {
    var m := LeastOf(s);
  }

  function Least(s: set<nat>): (m: nat)
    requires s != {}
    ensures m in s && forall x :: x in s ==> m <= x
  {
    LeastExists(s);
    var m :| m in s && forall x :: x in s ==> m <= x;
    m
  }

  /** The set's elements, ascending. */
  ghost predicate Ascends(s: set<nat>, r: seq<nat>) {
    && |r| == |s|
    && (forall x :: x in s <==> x in r)
    && (forall i, j :: 0 <= i < j < |r| ==> r[i] < r[j])
  }

  function Columns(s: set<nat>): (r: seq<nat>)
    ensures Ascends(s, r)
  {
    if s == {} then []
    else
      var m := Least(s);
      AscendsFrom(s, m, Columns(s - {m}));
      [m] + Columns(s - {m})
  }

  lemma AscendsFrom(s: set<nat>, m: nat, r: seq<nat>)
    requires m in s && (forall x :: x in s ==> m <= x) && Ascends(s - {m}, r)
    ensures Ascends(s, [m] + r)
  {
    forall i | 0 <= i < |r|
      ensures m < r[i]
    {
      assert r[i] in r;
      assert r[i] in s - {m};
    }
  }

  // ----- What is to be listed -----

  ghost predicate Before(a: Item, b: Item) {
    a.value > b.value || (a.value == b.value && a.col < b.col)
  }

  ghost function ItemOf(bsi: BSIData, base: nat, c: nat): Item {
    Item(base + Value(bsi, c), c)
  }

  ghost predicate Lists(bsi: BSIData, filter: set<nat>, base: nat, l: seq<Item>) {
    && (forall i :: 0 <= i < |l| ==> l[i].col in filter && l[i] == ItemOf(bsi, base, l[i].col))
    && (forall c :: c in filter ==> ItemOf(bsi, base, c) in l)
  }

  /** The columns of the filter with their values, by descending value and then
      by ascending column. */
  ghost predicate IsListing(bsi: BSIData, filter: set<nat>, base: nat, l: seq<Item>) {
    Lists(bsi, filter, base, l) && forall i, j :: 0 <= i < j < |l| ==> Before(l[i], l[j])
  }

  /** There is only one such listing. */
  lemma {:induction false} ListingUnique(bsi: BSIData, filter: set<nat>, base: nat, a: seq<Item>, b: seq<Item>)
    requires IsListing(bsi, filter, base, a) && IsListing(bsi, filter, base, b)
    ensures a == b
  {
    forall x
      ensures x in a <==> x in b
    {
      if x in a { assert ItemOf(bsi, base, x.col) in b; }
      if x in b { assert ItemOf(bsi, base, x.col) in a; }
    }
    SameOrder(a, b);
  }

  lemma {:induction false} SameOrder(a: seq<Item>, b: seq<Item>)
    requires forall x :: x in a <==> x in b
    requires forall i, j :: 0 <= i < j < |a| ==> Before(a[i], a[j])
    requires forall i, j :: 0 <= i < j < |b| ==> Before(b[i], b[j])
    ensures a == b
  {
    assert a != [] ==> a[0] in a;
    assert b != [] ==> b[0] in b;
    if a != [] && b != [] {
      assert a[0] in b && b[0] in a;
      assert a[0] == b[0];
      forall x
        ensures x in a[1..] <==> x in b[1..]
      {
        TailMember(a, x);
        TailMember(b, x);
      }
      SameOrder(a[1..], b[1..]);
      assert a == [a[0]] + a[1..] && b == [b[0]] + b[1..];
    }
  }

  lemma TailMember(a: seq<Item>, x: Item)
    requires a != [] && forall i, j :: 0 <= i < j < |a| ==> Before(a[i], a[j])
    ensures x in a[1..] <==> x in a && x != a[0]
  {
  }

  /** Columns that share a value. */
  ghost function ItemsAt(value: nat, cols: seq<nat>): (l: seq<Item>)
    ensures |l| == |cols| && forall i :: 0 <= i < |l| ==> l[i] == Item(value, cols[i])
  {
    seq(|cols|, (i: int) requires 0 <= i < |cols| => Item(value, cols[i]))
  }

  /** The listing, branch by branch. */
  ghost function Listing(bsi: BSIData, filter: set<nat>, base: nat): (l: seq<Item>)
    ensures |l| == |filter|
  {
    if filter == {} then []
    else if bsi == [] then
      ItemsAt(base, Columns(filter))
    else
      var n := |bsi| - 1;
      assert filter == (filter * bsi[n]) + (filter - bsi[n]);
      Listing(bsi[..n], filter * bsi[n], base + Pow2(n)) + Listing(bsi[..n], filter - bsi[n], base)
  }

  lemma {:induction false} ListingOk(bsi: BSIData, filter: set<nat>, base: nat)
    ensures IsListing(bsi, filter, base, Listing(bsi, filter, base))
  {
    hide IsListing, Listing;
    if filter == {} {
      EmptyListing(bsi, base);
    } else if bsi == [] {
      LeafListing(filter, base);
    } else {
      var n := |bsi| - 1;
      ListingSplit(bsi, filter, base);
      ListingOk(bsi[..n], filter * bsi[n], base + Pow2(n));
      ListingOk(bsi[..n], filter - bsi[n], base);
      ListingJoin(bsi, filter, base, Listing(bsi[..n], filter * bsi[n], base + Pow2(n)), Listing(bsi[..n], filter - bsi[n], base));
    }
  }

  lemma EmptyListing(bsi: BSIData, base: nat)
    ensures Listing(bsi, {}, base) == [] && IsListing(bsi, {}, base, [])
  {
  }

  lemma ListingSplit(bsi: BSIData, filter: set<nat>, base: nat)
    requires filter != {} && bsi != []
    ensures var n := |bsi| - 1;
            Listing(bsi, filter, base) == Listing(bsi[..n], filter * bsi[n], base + Pow2(n)) + Listing(bsi[..n], filter - bsi[n], base)
    ensures |filter * bsi[|bsi| - 1]| + |filter - bsi[|bsi| - 1]| == |filter|
  {
    assert filter == (filter * bsi[|bsi| - 1]) + (filter - bsi[|bsi| - 1]);
  }

  lemma LeafIsColumns(filter: set<nat>, base: nat)
    ensures Listing([], filter, base) == ItemsAt(base, Columns(filter))
  {
  }

  lemma LeafListing(filter: set<nat>, base: nat)
    requires filter != {}
    ensures IsListing([], filter, base, Listing([], filter, base))
  {
    hide Listing, Columns;
    var cols, l := Columns(filter), Listing([], filter, base);
    LeafIsColumns(filter, base);
    forall c | c in filter
      ensures ItemOf([], base, c) in l
    {
      var i :| 0 <= i < |cols| && cols[i] == c;
      assert l[i] == Item(base, c);
    }
  }

  /** The upper half of the values comes first. */
  lemma ListingJoin(bsi: BSIData, filter: set<nat>, base: nat, upper: seq<Item>, lower: seq<Item>)
    requires bsi != []
    requires IsListing(bsi[..|bsi| - 1], filter * bsi[|bsi| - 1], base + Pow2(|bsi| - 1), upper)
    requires IsListing(bsi[..|bsi| - 1], filter - bsi[|bsi| - 1], base, lower)
    ensures IsListing(bsi, filter, base, upper + lower)
  {
    JoinLists(bsi, filter, base, upper, lower);
    JoinOrdered(bsi, base, upper, lower);
  }

  lemma JoinLists(bsi: BSIData, filter: set<nat>, base: nat, upper: seq<Item>, lower: seq<Item>)
    requires bsi != []
    requires Lists(bsi[..|bsi| - 1], filter * bsi[|bsi| - 1], base + Pow2(|bsi| - 1), upper)
    requires Lists(bsi[..|bsi| - 1], filter - bsi[|bsi| - 1], base, lower)
    ensures Lists(bsi, filter, base, upper + lower)
  {
    hide ItemOf;
    var n := |bsi| - 1;
    var l := upper + lower;
    forall c | c in filter
      ensures ItemOf(bsi, base, c) in l
    {
      ItemStep(bsi, base, c);
      assert if c in bsi[n] then ItemOf(bsi, base, c) in upper else ItemOf(bsi, base, c) in lower;
    }
    forall i | 0 <= i < |l|
      ensures l[i].col in filter && l[i] == ItemOf(bsi, base, l[i].col)
    {
      ItemStep(bsi, base, l[i].col);
      assert if i < |upper| then l[i] == upper[i] else l[i] == lower[i - |upper|];
    }
  }

  lemma ItemStep(bsi: BSIData, base: nat, c: nat)
    requires bsi != []
    ensures ItemOf(bsi, base, c) == ItemOf(bsi[..|bsi| - 1], if c in bsi[|bsi| - 1] then base + Pow2(|bsi| - 1) else base, c)
  {
  }

  lemma JoinOrdered(bsi: BSIData, base: nat, upper: seq<Item>, lower: seq<Item>)
    requires bsi != []
    requires forall i :: 0 <= i < |upper| ==> upper[i].value >= base + Pow2(|bsi| - 1)
    requires forall i :: 0 <= i < |lower| ==> lower[i].value == base + Value(bsi[..|bsi| - 1], lower[i].col)
    requires forall i, j :: 0 <= i < j < |upper| ==> Before(upper[i], upper[j])
    requires forall i, j :: 0 <= i < j < |lower| ==> Before(lower[i], lower[j])
    ensures forall i, j :: 0 <= i < j < |upper + lower| ==> Before((upper + lower)[i], (upper + lower)[j])
  {
    var l := upper + lower;
    forall i, j | 0 <= i < j < |l|
      ensures Before(l[i], l[j])
    {
      if i < |upper| <= j {
        ValueBound(bsi[..|bsi| - 1], l[j].col);
      }
    }
  }

  // ----- Offset and limit -----

  ghost function Drop<T>(l: seq<T>, off: Option<nat>): seq<T> {
    if off.None? then l else if off.value >= |l| then [] else l[off.value..]
  }

  ghost function Take<T>(l: seq<T>, lim: Option<nat>): seq<T> {
    if lim.None? || lim.value >= |l| then l else l[..lim.value]
  }

  /** What dropping and taking leave: a stretch that starts at the offset and ends
      after the limit, or at the end. */
  lemma WindowIs<T>(l: seq<T>, lim: Option<nat>, off: Option<nat>)
    ensures var from := if off.Some? then off.value else 0;
            var n := if from <= |l| then |l| - from else 0;
            var w := Take(Drop(l, off), lim);
            && |w| == (if lim.Some? && lim.value < n then lim.value else n)
            && forall i :: 0 <= i < |w| ==> w[i] == l[from + i]
  {
  }

  /** What is left to skip after a list. */
  function OffsetAfter(n: nat, lim: Option<nat>, off: Option<nat>): Option<nat> {
    if off.None? then None
    else if off.value >= n then Some(off.value - n)
    else if lim == Some(0) then off
    else Some(0)
  }

  function LimitAfter(n: nat, lim: Option<nat>): Option<nat>
    requires lim.Some? ==> n <= lim.value
  {
    if lim.None? then None else Some(lim.value - n)
  }

  /** Windowing a concatenation is windowing one part after the other. */
  lemma WindowConcat<T>(a: seq<T>, b: seq<T>, lim: Option<nat>, off: Option<nat>)
    ensures var first := Take(Drop(a, off), lim);
            Take(Drop(a + b, off), lim) == first + Take(Drop(b, OffsetAfter(|a|, lim, off)), LimitAfter(|first|, lim))
    ensures lim != Some(0) ==>
              OffsetAfter(|a + b|, lim, off) ==
              OffsetAfter(|b|, LimitAfter(|Take(Drop(a, off), lim)|, lim), OffsetAfter(|a|, lim, off))
  {
    var first := Take(Drop(a, off), lim);
    if off.Some? && off.value < |a| {
      assert (a + b)[off.value..] == a[off.value..] + b;
    } else if off.Some? && off.value < |a + b| {
      assert (a + b)[off.value..] == b[off.value - |a|..];
    }
  }

  ghost function Flatten(calls: seq<Call>): seq<Item> {
    if calls == [] then [] else ItemsAt(calls[0].value, calls[0].cols) + Flatten(calls[1..])
  }

  lemma {:induction false} FlattenConcat(a: seq<Call>, b: seq<Call>)
    ensures Flatten(a + b) == Flatten(a) + Flatten(b)
  {
    if a == [] {
      assert a + b == b;
    } else {
      assert (a + b)[1..] == a[1..] + b;
      FlattenConcat(a[1..], b);
    }
  }

  /** Calls are non-empty, at most one per value, values descending within the
      branch's range. */
  ghost predicate CallsOk(calls: seq<Call>, lo: nat, hi: nat) {
    && (forall i :: 0 <= i < |calls| ==> lo <= calls[i].value < hi && calls[i].cols != [])
    && (forall i, j :: 0 <= i < j < |calls| ==> calls[i].value > calls[j].value)
  }

  /** Visits the values in descending order.  The visited columns are the
      listing with `offset` entries dropped and `limit` of the rest taken, and
      the two cells are left counted down accordingly. */
  method PivotDescending(bsi: BSIData, filter: set<nat>, branch: nat, limit: Option<nat>, offset: Option<nat>)
    returns (calls: seq<Call>, limit': Option<nat>, offset': Option<nat>)
    ensures Flatten(calls) == Take(Drop(Listing(bsi, filter, branch), offset), limit)
    ensures limit' == LimitAfter(|Flatten(calls)|, limit)
    ensures offset' == OffsetAfter(|filter|, limit, offset)
    ensures CallsOk(calls, branch, branch + Pow2(|bsi|))
    decreases |bsi|
  {
    hide Listing, Flatten, Take, Drop, CallsOk;
    calls, limit', offset' := [], limit, offset;
    if filter == {} {
      NothingVisited(bsi, filter, branch, limit, offset);
      return;
    }
    if offset.Some? && offset.value >= |filter| {
      offset' := Some(offset.value - |filter|);
      NothingVisited(bsi, filter, branch, limit, offset);
      return;
    }
    if limit == Some(0) {
      NothingVisited(bsi, filter, branch, limit, offset);
      return;
    }
    if |bsi| == 0 {
      calls, limit', offset' := PivotLeaf(filter, branch, limit, offset);
      return;
    }
    var n := |bsi| - 1;
    var splitBit, lowerBits := bsi[n], bsi[..n];
    ListingSplit(bsi, filter, branch);
    var upper, lim1, off1 := PivotDescending(lowerBits, filter * splitBit, branch + Pow2(n), limit, offset);
    var lower, lim2, off2 := PivotDescending(lowerBits, filter - splitBit, branch, lim1, off1);
    WindowConcat(Listing(lowerBits, filter * splitBit, branch + Pow2(n)), Listing(lowerBits, filter - splitBit, branch), limit, offset);
    FlattenConcat(upper, lower);
    CallsJoin(upper, lower, branch, branch + Pow2(n), branch + Pow2(|bsi|));
    calls, limit', offset' := upper + lower, lim2, off2;
  }

  /** No value is visited twice, and none without columns. */
  lemma VisitsOnce(calls: seq<Call>, lo: nat, hi: nat, i: nat, j: nat)
    requires CallsOk(calls, lo, hi) && i < |calls| && j < |calls| && calls[i].value == calls[j].value
    ensures i == j && calls[i].cols != []
  {
  }

  /** Nothing to list, all of it skipped, or no limit left. */
  lemma NothingVisited(bsi: BSIData, filter: set<nat>, branch: nat, limit: Option<nat>, offset: Option<nat>)
    requires filter == {} || (offset.Some? && offset.value >= |filter|) || limit == Some(0)
    ensures Flatten([]) == [] == Take(Drop(Listing(bsi, filter, branch), offset), limit)
    ensures CallsOk([], branch, branch + Pow2(|bsi|))
  {
    hide Listing;
  }

  lemma CallsJoin(upper: seq<Call>, lower: seq<Call>, lo: nat, mid: nat, hi: nat)
    requires lo <= mid <= hi && CallsOk(upper, mid, hi) && CallsOk(lower, lo, mid)
    ensures CallsOk(upper + lower, lo, hi)
  {
  }

  /** All columns of a leaf have the same value. */
  method PivotLeaf(filter: set<nat>, branch: nat, limit: Option<nat>, offset: Option<nat>)
    returns (calls: seq<Call>, limit': Option<nat>, offset': Option<nat>)
    requires filter != {} && limit != Some(0) && (offset.Some? ==> offset.value < |filter|)
    ensures Flatten(calls) == Take(Drop(Listing([], filter, branch), offset), limit)
    ensures limit' == LimitAfter(|Flatten(calls)|, limit)
    ensures offset' == OffsetAfter(|filter|, limit, offset)
    ensures CallsOk(calls, branch, branch + 1)
  {
    hide Listing, Columns, ItemsAt, Flatten;
    limit', offset' := limit, offset;
    var cols := Columns(filter);
    LeafIsColumns(filter, branch);
    if offset.Some? {
      ItemsFrom(branch, cols, offset.value);
      cols := cols[offset.value..];
      offset' := Some(0);
    }
    if limit.Some? {
      if limit.value < |cols| {
        ItemsUpTo(branch, cols, limit.value);
        cols := cols[..limit.value];
      }
      limit' := Some(limit.value - |cols|);
    }
    calls := [Call(branch, cols)];
    FlattenOne(calls[0]);
  }

  lemma ItemsFrom(value: nat, cols: seq<nat>, n: nat)
    requires n <= |cols|
    ensures ItemsAt(value, cols)[n..] == ItemsAt(value, cols[n..])
  {
  }

  lemma ItemsUpTo(value: nat, cols: seq<nat>, n: nat)
    requires n <= |cols|
    ensures ItemsAt(value, cols)[..n] == ItemsAt(value, cols[..n])
  {
  }

  lemma FlattenOne(c: Call)
    ensures Flatten([c]) == ItemsAt(c.value, c.cols)
  {
    assert [c][1..] == [];
    assert Flatten([c][1..]) == [];
  }
}
