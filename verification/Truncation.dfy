// Taking the first items of a sorted union, although every part of the union
// was itself cut off at the limit (executor.go).
module Truncation {

  ghost predicate StrictOrder<K(!new)>(less: (K, K) -> bool) {
    && (forall x :: !less(x, x))
    && (forall x, y :: less(x, y) || less(y, x) || x == y)
    && (forall x, y, z :: less(x, y) && less(y, z) ==> less(x, z))
  }

  ghost predicate Ascending<K>(less: (K, K) -> bool, r: seq<K>) {
    forall i, j :: 0 <= i < j < |r| ==> less(r[i], r[j])
  }

  ghost function Elements<K>(r: seq<K>): set<K> {
    set x | x in r
  }

  /** r lists the first items of s, up to the limit. */
  ghost predicate IsFirst<K>(less: (K, K) -> bool, limit: nat, s: set<K>, r: seq<K>) {
    && Ascending(less, r) && |r| <= limit
    && (forall i :: 0 <= i < |r| ==> r[i] in s)
    && (forall x :: x in s && x !in r ==> |r| == limit && forall i :: 0 <= i < |r| ==> less(r[i], x))
  }

  lemma {:induction false} Distinct<K(!new)>(less: (K, K) -> bool, r: seq<K>)
    requires StrictOrder(less) && Ascending(less, r)
    ensures |Elements(r)| == |r|
  {
    if r != [] {
      var n := |r| - 1;
      Distinct(less, r[..n]);
      assert Elements(r) == Elements(r[..n]) + {r[n]};
      assert r[n] !in r[..n];
    }
  }

  lemma ManyFit<K(!new)>(less: (K, K) -> bool, a: seq<K>, r: seq<K>)
    requires StrictOrder(less) && Ascending(less, a) && Ascending(less, r)
    ensures Elements(a) <= Elements(r) ==> |a| <= |r|
    ensures Elements(a) < Elements(r) ==> |a| < |r|
  {
    Distinct(less, a);
    Distinct(less, r);
    if Elements(a) <= Elements(r) {
      SubsetSize(Elements(a), Elements(r));
    }
  }

  lemma {:induction false} SubsetSize<K>(a: set<K>, b: set<K>)
    requires a <= b
    ensures |a| <= |b| && (a < b ==> |a| < |b|)
  {
    if a == {} {
      assert b != {} ==> |b| > 0;
    } else {
      var x :| x in a;
      SubsetSize(a - {x}, b - {x});
    }
  }

  /** Something cut off one part is behind everything kept of the union. */
  lemma CutOff<K(!new)>(less: (K, K) -> bool, limit: nat, a: seq<K>, b: seq<K>, r: seq<K>, x: K)
    requires StrictOrder(less) && Ascending(less, a) && |a| == limit && forall i :: 0 <= i < |a| ==> less(a[i], x)
    requires IsFirst(less, limit, Elements(a) + Elements(b), r)
    ensures |r| == limit && forall i :: 0 <= i < |r| ==> less(r[i], x)
  {
    if |r| < limit {
      assert Elements(a) <= Elements(r);
      ManyFit(less, a, r);
    }
    forall i | 0 <= i < |r| ensures less(r[i], x) {
      if !less(r[i], x) {
        forall y | y in a ensures y in r && y != r[i] {
          var k :| 0 <= k < |a| && a[k] == y;
          assert less(y, x);
        }
        assert r[i] in Elements(r) && r[i] !in Elements(a) && Elements(a) <= Elements(r);
        ManyFit(less, a, r);
      }
    }
  }

  /** Merging the first items of two sets gives the first of their union. */
  lemma TruncatedUnion<K(!new)>(less: (K, K) -> bool, limit: nat, s: set<K>, t: set<K>, a: seq<K>, b: seq<K>, r: seq<K>)
    requires StrictOrder(less) && IsFirst(less, limit, s, a) && IsFirst(less, limit, t, b)
    requires IsFirst(less, limit, Elements(a) + Elements(b), r)
    ensures IsFirst(less, limit, s + t, r)
  {
    forall x | x in s + t && x !in r ensures |r| == limit && forall i :: 0 <= i < |r| ==> less(r[i], x) {
      if x in s && x !in a {
        CutOff(less, limit, a, b, r, x);
      } else if x in t && x !in b {
        assert Elements(a) + Elements(b) == Elements(b) + Elements(a);
        CutOff(less, limit, b, a, r, x);
      }
    }
    forall i | 0 <= i < |r| ensures r[i] in s + t {
      assert r[i] in Elements(a) + Elements(b);
    }
  }

  /** What is kept from a part that has a kept item is that item's own. */
  lemma KeptFromPart<K(!new)>(less: (K, K) -> bool, limit: nat, s: set<K>, t: set<K>, a: seq<K>, b: seq<K>, r: seq<K>,
                              x: K)
    requires StrictOrder(less) && IsFirst(less, limit, s, a) && IsFirst(less, limit, t, b)
    requires IsFirst(less, limit, Elements(a) + Elements(b), r) && x in r && x in s
    ensures x in a
  {
    if x !in a {
      CutOff(less, limit, a, b, r, x);
    }
  }

  /** The first items are determined. */
  lemma FirstUnique<K(!new)>(less: (K, K) -> bool, limit: nat, s: set<K>, r: seq<K>, r': seq<K>)
    requires StrictOrder(less) && IsFirst(less, limit, s, r) && IsFirst(less, limit, s, r')
    ensures r == r'
  {
    SameElements(less, limit, s, r, r');
    SameElements(less, limit, s, r', r);
    AscendingUnique(less, r, r');
  }

  lemma SameElements<K(!new)>(less: (K, K) -> bool, limit: nat, s: set<K>, r: seq<K>, r': seq<K>)
    requires StrictOrder(less) && IsFirst(less, limit, s, r) && IsFirst(less, limit, s, r')
    ensures forall x :: x in r ==> x in r'
  {
    forall x | x in r ensures x in r' {
      if x !in r' {
        // all of r' is before x, so it is in r, which then has one more
        forall y | y in r' ensures y in r && y != x {
          var k :| 0 <= k < |r'| && r'[k] == y;
          assert less(y, x);
        }
        assert x in Elements(r) && Elements(r') <= Elements(r);
        ManyFit(less, r', r);
      }
    }
  }

  lemma FirstIsOnce<K(!new)>(less: (K, K) -> bool, r: seq<K>)
    requires StrictOrder(less) && Ascending(less, r) && r != []
    ensures Ascending(less, r[1..]) && forall x :: x in r[1..] <==> x in r && x != r[0]
  {
    forall x | x in r && x != r[0] ensures x in r[1..] {
      var k :| 0 <= k < |r| && r[k] == x;
      assert r[1..][k - 1] == x;
    }
  }

  lemma {:induction false} AscendingUnique<K(!new)>(less: (K, K) -> bool, r: seq<K>, r': seq<K>)
    requires StrictOrder(less) && Ascending(less, r) && Ascending(less, r')
    requires forall x :: x in r <==> x in r'
    ensures r == r'
  {
    if r == [] {
      assert forall i :: 0 <= i < |r'| ==> r'[i] in r;
    } else {
      assert r[0] in r';
      assert r'[0] in r;
      assert r[0] == r'[0];
      assert r == [r[0]] + r[1..] && r' == [r'[0]] + r'[1..];
      FirstIsOnce(less, r);
      FirstIsOnce(less, r');
      AscendingUnique(less, r[1..], r'[1..]);
    }
  }

  // ----- Merging row ids -----

  function Less(): (nat, nat) -> bool {
    (x, y) => x < y
  }

  lemma LessIsOrder()
    ensures StrictOrder(Less())
  {
  }

  /** How far a merge has got: r lists what is before a[i] and b[j]. */
  ghost predicate Merging<K(!new)>(less: (K, K) -> bool, a: seq<K>, b: seq<K>, i: nat, j: nat, r: seq<K>) {
    && i <= |a| && j <= |b| && |r| <= i + j && Ascending(less, r)
    && (forall x :: x in r <==> x in a[..i] || x in b[..j])
    && (forall k, l :: 0 <= k < |r| && i <= l < |a| ==> less(r[k], a[l]))
    && (forall k, l :: 0 <= k < |r| && j <= l < |b| ==> less(r[k], b[l]))
  }

  lemma MergingStart<K(!new)>(less: (K, K) -> bool, a: seq<K>, b: seq<K>)
    ensures Merging(less, a, b, 0, 0, [])
  {
  }

  lemma MergingNext<K(!new)>(less: (K, K) -> bool, a: seq<K>, b: seq<K>, i: nat, j: nat, i': nat, j': nat, r: seq<K>,
                             x: K)
    requires StrictOrder(less) && Merging(less, a, b, i, j, r) && Ascending(less, a) && Ascending(less, b)
    requires i <= i' <= |a| && j <= j' <= |b| && i' <= i + 1 && j' <= j + 1 && (i < i' || j < j')
    requires (i < i' ==> x == a[i]) && (j < j' ==> x == b[j])
    requires (i == i' && i < |a| ==> less(x, a[i])) && (j == j' && j < |b| ==> less(x, b[j]))
    ensures Merging(less, a, b, i', j', r + [x])
  {
    assert i < i' ==> a[..i'] == a[..i] + [x];
    assert j < j' ==> b[..j'] == b[..j] + [x];
    assert forall l :: i' <= l < |a| ==> less(x, a[l]);
    assert forall l :: j' <= l < |b| ==> less(x, b[l]);
  }

  lemma MergingDone<K(!new)>(less: (K, K) -> bool, a: seq<K>, b: seq<K>, i: nat, j: nat, r: seq<K>, limit: nat)
    requires Merging(less, a, b, i, j, r) && |r| <= limit && (|r| == limit || (i == |a| && j == |b|))
    ensures IsFirst(less, limit, Elements(a) + Elements(b), r)
  {
    forall k | 0 <= k < |r| ensures r[k] in Elements(a) + Elements(b) {
      assert r[k] in r;
    }
    assert forall l :: 0 <= l < i ==> a[l] in a[..i];
    assert forall l :: 0 <= l < j ==> b[l] in b[..j];
    forall x | x in Elements(a) + Elements(b) && x !in r
      ensures |r| == limit && forall k :: 0 <= k < |r| ==> less(r[k], x)
    {
      if x in a {
        var l :| 0 <= l < |a| && a[l] == x;
      } else {
        var l :| 0 <= l < |b| && b[l] == x;
      }
    }
  }

  /** The merge as a function of its lists. */
  function MergedRows(a: seq<nat>, b: seq<nat>, limit: nat): seq<nat>
    decreases |a| + |b|
  {
    if limit == 0 || (a == [] && b == []) then []
    else if b == [] || (a != [] && a[0] < b[0]) then [a[0]] + MergedRows(a[1..], b, limit - 1)
    else if a == [] || b[0] < a[0] then [b[0]] + MergedRows(a, b[1..], limit - 1)
    else [b[0]] + MergedRows(a[1..], b[1..], limit - 1)
  }

  lemma MergedUnfolds(a: seq<nat>, b: seq<nat>, i: nat, j: nat, i': nat, j': nat, x: nat, limit: nat)
    requires i <= |a| && j <= |b| && (i < |a| || j < |b|) && limit > 0
    requires var left := j == |b| || (i < |a| && a[i] < b[j]);
             var right := !left && (i == |a| || b[j] < a[i]);
             && x == (if left then a[i] else b[j])
             && i' == (if right then i else i + 1) && j' == (if left then j else j + 1)
    ensures i' <= |a| && j' <= |b|
    ensures MergedRows(a[i..], b[j..], limit) == [x] + MergedRows(a[i'..], b[j'..], limit - 1)
  {
    assert i < |a| ==> a[i..][1..] == a[i + 1..];
    assert j < |b| ==> b[j..][1..] == b[j + 1..];
  }

  lemma {:induction false} MergedRowsFrom(a: seq<nat>, b: seq<nat>, i: nat, j: nat, r: seq<nat>, limit: nat)
    requires Merging(Less(), a, b, i, j, r) && Ascending(Less(), a) && Ascending(Less(), b) && i <= |a| && j <= |b| && |r| <= limit
    ensures IsFirst(Less(), limit, Elements(a) + Elements(b), r + MergedRows(a[i..], b[j..], limit - |r|))
    decreases |a| - i + |b| - j
  {
    hide Merging, IsFirst, Elements, StrictOrder;
    LessIsOrder();
    var rest := MergedRows(a[i..], b[j..], limit - |r|);
    if |r| == limit || (i == |a| && j == |b|) {
      assert rest == [] && r + rest == r;
      MergingDone(Less(), a, b, i, j, r, limit);
    } else {
      var left := j == |b| || (i < |a| && a[i] < b[j]);
      var right := !left && (i == |a| || b[j] < a[i]);
      var x := if left then a[i] else b[j];
      var i', j' := if right then i else i + 1, if left then j else j + 1;
      MergingNext(Less(), a, b, i, j, i', j', r, x);
      MergedRowsFrom(a, b, i', j', r + [x], limit);
      MergedUnfolds(a, b, i, j, i', j', x, limit - |r|);
      assert (r + [x]) + MergedRows(a[i'..], b[j'..], limit - |r| - 1) == r + rest;
    }
  }

  lemma MergedRowsFirst(a: seq<nat>, b: seq<nat>, limit: nat)
    requires Ascending(Less(), a) && Ascending(Less(), b)
    ensures IsFirst(Less(), limit, Elements(a) + Elements(b), MergedRows(a, b, limit))
  {
    hide Merging, IsFirst, Elements, MergedRows;
    MergingStart(Less(), a, b);
    MergedRowsFrom(a, b, 0, 0, [], limit);
    assert a[0..] == a && b[0..] == b && [] + MergedRows(a, b, limit) == MergedRows(a, b, limit);
  }

  /** The first ids of two sorted lists, up to the limit. */
  method Merge(a: seq<nat>, b: seq<nat>, limit: nat) returns (result: seq<nat>)
    requires Ascending(Less(), a) && Ascending(Less(), b)
    ensures IsFirst(Less(), limit, Elements(a) + Elements(b), result) && result == MergedRows(a, b, limit)
    ensures forall i, j :: 0 <= i < j < |result| ==> result[i] < result[j]
  {
    hide Merging, IsFirst, Elements, StrictOrder, MergedRows;
    var i, j := 0, 0;
    result := [];
    LessIsOrder();
    MergingStart(Less(), a, b);
    while i < |a| && j < |b| && |result| < limit
      invariant 0 <= i <= |a| && 0 <= j <= |b| && |result| <= limit && Merging(Less(), a, b, i, j, result)
      decreases |a| - i + |b| - j
    {
      var av, bv := a[i], b[j];
      if av < bv {
        MergingNext(Less(), a, b, i, j, i + 1, j, result, av);
        result, i := result + [av], i + 1;
      } else if av > bv {
        MergingNext(Less(), a, b, i, j, i, j + 1, result, bv);
        result, j := result + [bv], j + 1;
      } else {
        MergingNext(Less(), a, b, i, j, i + 1, j + 1, result, bv);
        result, i, j := result + [bv], i + 1, j + 1;
      }
    }
    while i < |a| && |result| < limit
      invariant 0 <= i <= |a| && 0 <= j <= |b| && |result| <= limit && Merging(Less(), a, b, i, j, result)
      invariant |result| == limit || i == |a| || j == |b|
    {
      MergingNext(Less(), a, b, i, j, i + 1, j, result, a[i]);
      result, i := result + [a[i]], i + 1;
    }
    while j < |b| && |result| < limit
      invariant 0 <= i <= |a| && 0 <= j <= |b| && |result| <= limit && Merging(Less(), a, b, i, j, result)
      invariant |result| == limit || i == |a|
    {
      MergingNext(Less(), a, b, i, j, i, j + 1, result, b[j]);
      result, j := result + [b[j]], j + 1;
    }
    MergingDone(Less(), a, b, i, j, result, limit);
    MergedRowsFirst(a, b, limit);
    FirstUnique(Less(), limit, Elements(a) + Elements(b), result, MergedRows(a, b, limit));
    FirstAscends(limit, Elements(a) + Elements(b), result);
  }

  lemma FirstAscends(limit: nat, s: set<nat>, r: seq<nat>)
    requires IsFirst(Less(), limit, s, r)
    ensures forall i, j :: 0 <= i < j < |r| ==> r[i] < r[j]
  {
  }

  /** Any way of merging the shards two by two. */
  datatype Tree = Leaf(shard: nat) | Node(left: Tree, right: Tree)

  ghost function AllRows(t: Tree, rows: nat -> set<nat>): set<nat> {
    match t
    case Leaf(s) => rows(s)
    case Node(l, r) => AllRows(l, rows) + AllRows(r, rows)
  }

  /** Whatever the merge tree, if each shard supplies its first row ids the
      result is the first row ids of them all. */
  method MergeTree(t: Tree, supplied: nat -> seq<nat>, ghost rows: nat -> set<nat>,
                   limit: nat) returns (result: seq<nat>)
    requires forall s :: IsFirst(Less(), limit, rows(s), supplied(s))
    ensures IsFirst(Less(), limit, AllRows(t, rows), result)
  {
    match t
    case Leaf(s) => result := supplied(s);
    case Node(l, r) =>
      var a := MergeTree(l, supplied, rows, limit);
      var b := MergeTree(r, supplied, rows, limit);
      result := Merge(a, b, limit);
      LessIsOrder();
      TruncatedUnion(Less(), limit, AllRows(l, rows), AllRows(r, rows), a, b, result);
  }
}
