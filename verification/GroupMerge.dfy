// Merging sorted group counts under a limit (executor.go).
module GroupMerge {
  import opened Bits
  import opened Lexicographic
  import opened Options
  import opened Reduction
  import opened Truncation

  datatype FieldRow = FieldRow(rowID: nat, value: Option<int>)

  datatype GroupCount = GroupCount(group: seq<FieldRow>, count: nat, agg: int)

  // ----- Order of groups -----

  type Key = seq<int>

  function Lex(): (Key, Key) -> bool {
    (a, b) => LexLess(a, b)
  }

  lemma LexIsOrder()
    ensures StrictOrder(Lex())
  {
    hide LexLess;
    forall a: Key ensures !LexLess(a, a) {
      LexIrreflexive(a);
    }
    forall a: Key, b: Key ensures LexLess(a, b) || LexLess(b, a) || a == b {
      LexTotal(a, b);
    }
    forall a: Key, b: Key, c: Key | LexLess(a, b) && LexLess(b, c) ensures LexLess(a, c) {
      LexTransitive(a, b, c);
    }
  }

  /** What a group is ordered by: in each field its value, or else its row. */
  function KeyOf(group: seq<FieldRow>): (k: Key)
    ensures |k| == |group|
  {
    seq(|group|, i requires 0 <= i < |group| => if group[i].value.Some? then group[i].value.value else group[i].rowID)
  }

  /** All groups of one query: the same fields have values in all of them. */
  ghost predicate Shaped(shape: seq<bool>, g: GroupCount) {
    |g.group| == |shape| && forall i :: 0 <= i < |shape| ==> g.group[i].value.Some? == shape[i]
  }

  /** Fields compare by value where both have one, and else by row. */
  function FieldOrder(x: FieldRow, y: FieldRow): int {
    var both := x.value.Some? && y.value.Some?;
    var m, n := if both then x.value.value else x.rowID, if both then y.value.value else y.rowID;
    if m < n then -1 else if m > n then 1 else 0
  }

  /** The first comes before the second, or behind it. */
  predicate FieldsDiffer(x: FieldRow, y: FieldRow, r: int) {
    if x.value.Some? && y.value.Some?
    then (r < 0 && x.value.value < y.value.value) || (r > 0 && x.value.value > y.value.value)
    else (r < 0 && x.rowID < y.rowID) || (r > 0 && x.rowID > y.rowID)
  }

  predicate FieldsAgree(x: FieldRow, y: FieldRow) {
    if x.value.Some? && y.value.Some? then x.value == y.value else x.rowID == y.rowID
  }

  lemma FieldOrders(a: seq<FieldRow>, b: seq<FieldRow>)
    requires |a| <= |b|
    ensures forall i :: 0 <= i < |a| ==> (FieldOrder(a[i], b[i]) == 0 <==> FieldsAgree(a[i], b[i]))
    ensures forall i, r :: 0 <= i < |a| && FieldOrder(a[i], b[i]) == r && r != 0 ==> FieldsDiffer(a[i], b[i], r) && -1 <= r <= 1
  {
  }

  /** The first field in which two groups differ decides. */
  ghost predicate Decided(a: seq<FieldRow>, b: seq<FieldRow>, r: int)
    requires |a| <= |b|
  {
    if r == 0 then forall i :: 0 <= i < |a| ==> FieldOrder(a[i], b[i]) == 0
    else exists i :: 0 <= i < |a| && FieldOrder(a[i], b[i]) == r && forall j :: 0 <= j < i ==> FieldOrder(a[j], b[j]) == 0
  }

  /** Compares two groups field by field: by value where both have one, and else
      by row.  The first field that differs decides. */
  method Compare(g: GroupCount, o: GroupCount) returns (r: int)
    requires |g.group| <= |o.group|
    ensures Decided(g.group, o.group, r) && -1 <= r <= 1
    ensures r != 0 ==> exists i :: 0 <= i < |g.group| && FieldsDiffer(g.group[i], o.group[i], r) &&
                         forall j :: 0 <= j < i ==> FieldsAgree(g.group[j], o.group[j])
    ensures r == 0 ==> forall i :: 0 <= i < |g.group| ==> FieldsAgree(g.group[i], o.group[i])
  {
    FieldOrders(g.group, o.group);
    for i := 0 to |g.group|
      invariant forall k :: 0 <= k < i ==> FieldOrder(g.group[k], o.group[k]) == 0
    {
      var g1, g2 := g.group[i], o.group[i];
      if g1.value.Some? && g2.value.Some? {
        if g1.value.value < g2.value.value {
          assert FieldOrder(g1, g2) == -1;
          return -1;
        }
        if g1.value.value > g2.value.value {
          assert FieldOrder(g1, g2) == 1;
          return 1;
        }
      } else {
        if g1.rowID < g2.rowID {
          assert FieldOrder(g1, g2) == -1;
          return -1;
        }
        if g1.rowID > g2.rowID {
          assert FieldOrder(g1, g2) == 1;
          return 1;
        }
      }
    }
    r := 0;
  }

  /** Groups of one query compare like their keys. */
  lemma DecidedByKeys(shape: seq<bool>, g: GroupCount, o: GroupCount, r: int)
    requires Shaped(shape, g) && Shaped(shape, o) && Decided(g.group, o.group, r)
    ensures r == -1 ==> LexLess(KeyOf(g.group), KeyOf(o.group))
    ensures r == 1 ==> LexLess(KeyOf(o.group), KeyOf(g.group))
    ensures r != -1 && r != 1 ==> r == 0 && KeyOf(g.group) == KeyOf(o.group)
  {
    hide LexLess;
    var a, b := KeyOf(g.group), KeyOf(o.group);
    if r != 0 {
      var i :| 0 <= i < |g.group| && FieldOrder(g.group[i], o.group[i]) == r && forall j :: 0 <= j < i ==> FieldOrder(g.group[j], o.group[j]) == 0;
      assert a[..i] == b[..i];
      if r == -1 {
        LexAt(a, b, i);
      } else {
        LexAt(b, a, i);
      }
    }
  }

  // ----- Totals -----

  function Keys(list: seq<GroupCount>): (ks: seq<Key>)
    ensures |ks| == |list| && forall i :: 0 <= i < |list| ==> ks[i] == KeyOf(list[i].group)
  {
    seq(|list|, i requires 0 <= i < |list| => KeyOf(list[i].group))
  }

  function CountAt(list: seq<GroupCount>, k: Key): int {
    if list == [] then 0 else if KeyOf(list[0].group) == k then list[0].count else CountAt(list[1..], k)
  }

  function AggAt(list: seq<GroupCount>, k: Key): int {
    if list == [] then 0 else if KeyOf(list[0].group) == k then list[0].agg else AggAt(list[1..], k)
  }

  lemma {:induction false} AtIndex(list: seq<GroupCount>, i: nat)
    requires i < |list| && Ascending(Lex(), Keys(list))
    ensures CountAt(list, KeyOf(list[i].group)) == list[i].count && AggAt(list, KeyOf(list[i].group)) == list[i].agg
  {
    if i > 0 {
      var ks := Keys(list);
      assert LexLess(ks[0], ks[i]);
      LexIrreflexive(ks[0]);
      assert Keys(list[1..]) == ks[1..];
      AtIndex(list[1..], i - 1);
    }
  }

  lemma {:induction false} AtNone(list: seq<GroupCount>, k: Key)
    requires k !in Keys(list)
    ensures CountAt(list, k) == 0 && AggAt(list, k) == 0
  {
    if list != [] {
      assert Keys(list)[0] == KeyOf(list[0].group);
      assert Keys(list[1..]) == Keys(list)[1..];
      AtNone(list[1..], k);
    }
  }

  ghost predicate ValidList(shape: seq<bool>, list: seq<GroupCount>) {
    && Ascending(Lex(), Keys(list))
    && forall i :: 0 <= i < |list| ==> Shaped(shape, list[i]) && list[i].count < U64 && Int64(list[i].agg)
  }

  /** A merged group carries the totals of both lists. */
  ghost predicate Totalled(a: seq<GroupCount>, b: seq<GroupCount>, g: GroupCount) {
    var k := KeyOf(g.group);
    g.count == (CountAt(a, k) + CountAt(b, k)) % U64 && g.agg == Wrap(AggAt(a, k) + AggAt(b, k))
  }

  /** How far the merge has got. */
  ghost predicate MergeState(shape: seq<bool>, a: seq<GroupCount>, b: seq<GroupCount>, i: nat, j: nat,
                             ret: seq<GroupCount>) {
    && i <= |a| && j <= |b| && |ret| <= i + j && Merging(Lex(), Keys(a), Keys(b), i, j, Keys(ret))
    && forall m :: 0 <= m < |ret| ==> Totalled(a, b, ret[m]) && Shaped(shape, ret[m])
  }

  lemma StateStart(shape: seq<bool>, a: seq<GroupCount>, b: seq<GroupCount>)
    ensures MergeState(shape, a, b, 0, 0, [])
  {
    MergingStart(Lex(), Keys(a), Keys(b));
    assert Keys([]) == [];
  }

  lemma KeysMore(ret: seq<GroupCount>, g: GroupCount)
    ensures Keys(ret + [g]) == Keys(ret) + [KeyOf(g.group)]
  {
  }

  /** A key ahead of one list, and behind what was taken from it, is not in it. */
  lemma NotInOther(a: seq<Key>, b: seq<Key>, i: nat, j: nat, r: seq<Key>)
    requires StrictOrder(Lex()) && i < |a| && j <= |b| && Ascending(Lex(), b) && (j < |b| ==> LexLess(a[i], b[j]))
    requires forall x :: x in b[..j] ==> x in r
    requires forall k :: 0 <= k < |r| ==> LexLess(r[k], a[i])
    ensures a[i] !in b
  {
    hide LexLess;
    assert forall x, y :: Lex()(x, y) <==> LexLess(x, y);
    forall l | 0 <= l < |b| ensures b[l] != a[i] {
      if l < j {
        assert b[..j][l] in r;
      }
    }
  }

  lemma TakeLeft(shape: seq<bool>, a: seq<GroupCount>, b: seq<GroupCount>, i: nat, j: nat, ret: seq<GroupCount>)
    requires MergeState(shape, a, b, i, j, ret) && ValidList(shape, a) && ValidList(shape, b) && i < |a|
    requires j < |b| ==> LexLess(KeyOf(a[i].group), KeyOf(b[j].group))
    ensures MergeState(shape, a, b, i + 1, j, ret + [a[i]])
  {
    hide Ascending, CountAt, AggAt, LexLess, StrictOrder, KeyOf;
    LexIsOrder();
    MergingNext(Lex(), Keys(a), Keys(b), i, j, i + 1, j, Keys(ret), KeyOf(a[i].group));
    KeysMore(ret, a[i]);
    NotInOther(Keys(a), Keys(b), i, j, Keys(ret));
    AtIndex(a, i);
    AtNone(b, KeyOf(a[i].group));
  }

  lemma TakeRight(shape: seq<bool>, a: seq<GroupCount>, b: seq<GroupCount>, i: nat, j: nat, ret: seq<GroupCount>)
    requires MergeState(shape, a, b, i, j, ret) && ValidList(shape, a) && ValidList(shape, b) && j < |b|
    requires i < |a| ==> LexLess(KeyOf(b[j].group), KeyOf(a[i].group))
    ensures MergeState(shape, a, b, i, j + 1, ret + [b[j]])
  {
    hide Ascending, CountAt, AggAt, LexLess, StrictOrder, KeyOf;
    LexIsOrder();
    MergingNext(Lex(), Keys(a), Keys(b), i, j, i, j + 1, Keys(ret), KeyOf(b[j].group));
    KeysMore(ret, b[j]);
    NotInOther(Keys(b), Keys(a), j, i, Keys(ret));
    AtIndex(b, j);
    AtNone(a, KeyOf(b[j].group));
  }

  lemma TakeBoth(shape: seq<bool>, a: seq<GroupCount>, b: seq<GroupCount>, i: nat, j: nat, ret: seq<GroupCount>,
                 g: GroupCount)
    requires MergeState(shape, a, b, i, j, ret) && ValidList(shape, a) && ValidList(shape, b) && i < |a| && j < |b|
    requires KeyOf(a[i].group) == KeyOf(b[j].group)
    requires g == a[i].(count := (a[i].count + b[j].count) % U64, agg := Wrap(a[i].agg + b[j].agg))
    ensures MergeState(shape, a, b, i + 1, j + 1, ret + [g])
  {
    hide Ascending, CountAt, AggAt, LexLess, StrictOrder, KeyOf, Wrap;
    LexIsOrder();
    MergingNext(Lex(), Keys(a), Keys(b), i, j, i + 1, j + 1, Keys(ret), KeyOf(a[i].group));
    KeysMore(ret, g);
    AtIndex(a, i);
    AtIndex(b, j);
  }

  /** The merge as a function of its lists. */
  function MergedGroups(a: seq<GroupCount>, b: seq<GroupCount>, limit: nat): seq<GroupCount>
    decreases |a| + |b|
  {
    if limit == 0 || (a == [] && b == []) then []
    else if b == [] || (a != [] && LexLess(KeyOf(a[0].group), KeyOf(b[0].group))) then [a[0]] + MergedGroups(a[1..], b, limit - 1)
    else if a == [] || LexLess(KeyOf(b[0].group), KeyOf(a[0].group)) then [b[0]] + MergedGroups(a, b[1..], limit - 1)
    else
      var g := a[0].(count := (a[0].count + b[0].count) % U64, agg := Wrap(a[0].agg + b[0].agg));
      [g] + MergedGroups(a[1..], b[1..], limit - 1)
  }

  /** What the merge promises. */
  ghost predicate MergesTo(shape: seq<bool>, a: seq<GroupCount>, b: seq<GroupCount>, limit: nat, ret: seq<GroupCount>) {
    && IsFirst(Lex(), limit, Elements(Keys(a)) + Elements(Keys(b)), Keys(ret))
    && forall m :: 0 <= m < |ret| ==> Totalled(a, b, ret[m]) && Shaped(shape, ret[m])
  }

  /** Which list the next merged group comes from: -1, 1, or 0 for both. */
  ghost function Side(a: seq<GroupCount>, b: seq<GroupCount>, i: nat, j: nat): int
    requires i <= |a| && j <= |b| && (i < |a| || j < |b|)
  {
    if j == |b| || (i < |a| && LexLess(KeyOf(a[i].group), KeyOf(b[j].group))) then -1
    else if i == |a| || LexLess(KeyOf(b[j].group), KeyOf(a[i].group)) then 1
    else 0
  }

  ghost function NextGroup(a: seq<GroupCount>, b: seq<GroupCount>, i: nat, j: nat): GroupCount
    requires i <= |a| && j <= |b| && (i < |a| || j < |b|)
  {
    if Side(a, b, i, j) == -1 then a[i]
    else if Side(a, b, i, j) == 1 then b[j]
    else a[i].(count := (a[i].count + b[j].count) % U64, agg := Wrap(a[i].agg + b[j].agg))
  }

  lemma MergedUnfolds(a: seq<GroupCount>, b: seq<GroupCount>, i: nat, j: nat, i': nat, j': nat, limit: nat)
    requires i <= |a| && j <= |b| && (i < |a| || j < |b|) && limit > 0
    requires i' == (if Side(a, b, i, j) == 1 then i else i + 1) && j' == (if Side(a, b, i, j) == -1 then j else j + 1)
    ensures i' <= |a| && j' <= |b|
    ensures MergedGroups(a[i..], b[j..], limit) == [NextGroup(a, b, i, j)] + MergedGroups(a[i'..], b[j'..], limit - 1)
  {
    hide LexLess, KeyOf, Wrap;
    assert i < |a| ==> a[i..][1..] == a[i + 1..];
    assert j < |b| ==> b[j..][1..] == b[j + 1..];
  }

  lemma NextState(shape: seq<bool>, a: seq<GroupCount>, b: seq<GroupCount>, i: nat, j: nat, i': nat, j': nat,
                  ret: seq<GroupCount>)
    requires i <= |a| && j <= |b| && (i < |a| || j < |b|)
    requires MergeState(shape, a, b, i, j, ret) && ValidList(shape, a) && ValidList(shape, b)
    requires i' == (if Side(a, b, i, j) == 1 then i else i + 1) && j' == (if Side(a, b, i, j) == -1 then j else j + 1)
    ensures MergeState(shape, a, b, i', j', ret + [NextGroup(a, b, i, j)])
  {
    hide MergeState, ValidList, LexLess, KeyOf, Wrap;
    if Side(a, b, i, j) == -1 {
      TakeLeft(shape, a, b, i, j, ret);
    } else if Side(a, b, i, j) == 1 {
      TakeRight(shape, a, b, i, j, ret);
    } else {
      LexTotal(KeyOf(a[i].group), KeyOf(b[j].group));
      TakeBoth(shape, a, b, i, j, ret, NextGroup(a, b, i, j));
    }
  }

  lemma {:induction false} MergedGroupsFrom(shape: seq<bool>, a: seq<GroupCount>, b: seq<GroupCount>, i: nat, j: nat,
                                            ret: seq<GroupCount>, limit: nat)
    requires i <= |a| && j <= |b| && MergeState(shape, a, b, i, j, ret) && ValidList(shape, a) && ValidList(shape, b) && |ret| <= limit
    ensures MergesTo(shape, a, b, limit, ret + MergedGroups(a[i..], b[j..], limit - |ret|))
    decreases |a| - i + |b| - j
  {
    hide MergeState, ValidList, IsFirst, Elements, Totalled, Shaped, Side, NextGroup, MergesTo, MergedGroups;
    var rest := MergedGroups(a[i..], b[j..], limit - |ret|);
    if |ret| == limit || (i == |a| && j == |b|) {
      NoneMerged(a[i..], b[j..], limit - |ret|);
      assert ret + rest == ret;
      MergedAll(shape, a, b, i, j, ret, limit);
    } else {
      var i', j' := if Side(a, b, i, j) == 1 then i else i + 1, if Side(a, b, i, j) == -1 then j else j + 1;
      var g := NextGroup(a, b, i, j);
      MergedUnfolds(a, b, i, j, i', j', limit - |ret|);
      NextState(shape, a, b, i, j, i', j', ret);
      MergedGroupsFrom(shape, a, b, i', j', ret + [g], limit);
      assert (ret + [g]) + MergedGroups(a[i'..], b[j'..], limit - |ret| - 1) == ret + rest;
    }
  }

  lemma NoneMerged(a: seq<GroupCount>, b: seq<GroupCount>, limit: nat)
    requires limit == 0 || (a == [] && b == [])
    ensures MergedGroups(a, b, limit) == []
  {
  }

  lemma MergedAll(shape: seq<bool>, a: seq<GroupCount>, b: seq<GroupCount>, i: nat, j: nat, ret: seq<GroupCount>,
                  limit: nat)
    requires MergeState(shape, a, b, i, j, ret) && |ret| <= limit && (|ret| == limit || (i == |a| && j == |b|))
    ensures MergesTo(shape, a, b, limit, ret)
  {
    hide MergeState, Totalled, Shaped, IsFirst, Elements;
    StateDone(shape, a, b, i, j, ret, limit);
  }

  lemma MergedGroupsMerge(shape: seq<bool>, a: seq<GroupCount>, b: seq<GroupCount>, limit: nat)
    requires ValidList(shape, a) && ValidList(shape, b)
    ensures MergesTo(shape, a, b, limit, MergedGroups(a, b, limit))
  {
    hide MergeState, ValidList, MergesTo, MergedGroups;
    StateStart(shape, a, b);
    MergedGroupsFrom(shape, a, b, 0, 0, [], limit);
    assert a[0..] == a && b[0..] == b && [] + MergedGroups(a, b, limit) == MergedGroups(a, b, limit);
  }

  /** The first groups of two lists, with the totals of both.  The first list's
      entries may be changed. */
  method MergeGroupCounts(a: array<GroupCount>, b: seq<GroupCount>, limit0: nat,
                          ghost shape: seq<bool>) returns (ret: seq<GroupCount>)
    requires ValidList(shape, a[..]) && ValidList(shape, b)
    modifies a
    ensures IsFirst(Lex(), limit0, Elements(Keys(old(a[..]))) + Elements(Keys(b)), Keys(ret))
    ensures forall m :: 0 <= m < |ret| ==> Totalled(old(a[..]), b, ret[m]) && Shaped(shape, ret[m])
    ensures ret == MergedGroups(old(a[..]), b, limit0)
  {
    hide ValidList, MergeState, LexLess, Ascending, IsFirst, Elements, Merging, Totalled, Shaped, KeyOf, Wrap, MergedGroups, NextGroup, Side;
    ghost var was := a[..];
    var limit := if limit0 > a.Length + |b| then a.Length + |b| else limit0;
    ret := [];
    var i, j := 0, 0;
    StateStart(shape, was, b);
    SoFarStart(was, b, limit0);
    while i < a.Length && j < |b| && |ret| < limit
      invariant 0 <= i <= a.Length && 0 <= j <= |b| && |ret| <= limit && MergeState(shape, was, b, i, j, ret)
      invariant SoFar(was, b, i, j, ret, limit0)
      invariant forall k :: i <= k < a.Length ==> a[k] == was[k]
      decreases a.Length - i + |b| - j
    {
      Shapes(shape, was, b, i, j);
      var order := Compare(a[i], b[j]);
      DecidedByKeys(shape, a[i], b[j], order);
      SideIs(was, b, i, j, order);
      SoFarNext(was, b, i, j, ret, limit0);
      if order == -1 {
        TakeLeft(shape, was, b, i, j, ret);
        ret, i := ret + [a[i]], i + 1;
      } else if order == 0 {
        a[i] := a[i].(count := (a[i].count + b[j].count) % U64, agg := Wrap(a[i].agg + b[j].agg));
        TakeBoth(shape, was, b, i, j, ret, a[i]);
        ret, i, j := ret + [a[i]], i + 1, j + 1;
      } else {
        TakeRight(shape, was, b, i, j, ret);
        ret, j := ret + [b[j]], j + 1;
      }
    }
    while i < a.Length && |ret| < limit
      invariant 0 <= i <= a.Length && 0 <= j <= |b| && |ret| <= limit && MergeState(shape, was, b, i, j, ret)
      invariant forall k :: i <= k < a.Length ==> a[k] == was[k]
      invariant |ret| == limit || i == a.Length || j == |b|
      invariant SoFar(was, b, i, j, ret, limit0)
    {
      OneSide(was, b, i, j);
      SoFarNext(was, b, i, j, ret, limit0);
      TakeLeft(shape, was, b, i, j, ret);
      ret, i := ret + [a[i]], i + 1;
    }
    while j < |b| && |ret| < limit
      invariant 0 <= i <= a.Length && 0 <= j <= |b| && |ret| <= limit && MergeState(shape, was, b, i, j, ret)
      invariant |ret| == limit || i == a.Length
      invariant SoFar(was, b, i, j, ret, limit0)
    {
      OneSide(was, b, i, j);
      SoFarNext(was, b, i, j, ret, limit0);
      TakeRight(shape, was, b, i, j, ret);
      ret, j := ret + [b[j]], j + 1;
    }
    StateDone(shape, was, b, i, j, ret, limit0);
    SoFarDone(shape, was, b, i, j, ret, limit0);
  }

  /** What has been merged, followed by the merge of the rest, is the merge. */
  ghost predicate SoFar(a: seq<GroupCount>, b: seq<GroupCount>, i: nat, j: nat, ret: seq<GroupCount>, limit: nat) {
    i <= |a| && j <= |b| && |ret| <= limit && ret + MergedGroups(a[i..], b[j..], limit - |ret|) == MergedGroups(a, b, limit)
  }

  lemma SoFarStart(a: seq<GroupCount>, b: seq<GroupCount>, limit: nat)
    ensures SoFar(a, b, 0, 0, [], limit)
  {
    hide MergedGroups;
    assert a[0..] == a && b[0..] == b;
  }

  lemma SoFarNext(a: seq<GroupCount>, b: seq<GroupCount>, i: nat, j: nat, ret: seq<GroupCount>, limit: nat)
    requires SoFar(a, b, i, j, ret, limit) && |ret| < limit && (i < |a| || j < |b|)
    ensures SoFar(a, b, if Side(a, b, i, j) == 1 then i else i + 1, if Side(a, b, i, j) == -1 then j else j + 1,
                  ret + [NextGroup(a, b, i, j)], limit)
  {
    hide MergedGroups, Side, NextGroup;
    var i', j' := if Side(a, b, i, j) == 1 then i else i + 1, if Side(a, b, i, j) == -1 then j else j + 1;
    MergedUnfolds(a, b, i, j, i', j', limit - |ret|);
    var g, rest := NextGroup(a, b, i, j), MergedGroups(a[i'..], b[j'..], limit - |ret| - 1);
    assert ret + ([g] + rest) == (ret + [g]) + rest;
  }

  lemma SoFarDone(shape: seq<bool>, a: seq<GroupCount>, b: seq<GroupCount>, i: nat, j: nat, ret: seq<GroupCount>,
                  limit: nat)
    requires MergeState(shape, a, b, i, j, ret) && SoFar(a, b, i, j, ret, limit)
    requires |ret| == limit || |ret| == |a| + |b| || (i == |a| && j == |b|)
    ensures ret == MergedGroups(a, b, limit)
  {
    hide MergedGroups, Merging, Totalled, Shaped;
    NoneMerged(a[i..], b[j..], limit - |ret|);
    assert ret + [] == ret;
  }

  lemma SideIs(a: seq<GroupCount>, b: seq<GroupCount>, i: nat, j: nat, order: int)
    requires i < |a| && j < |b|
    requires order == -1 ==> LexLess(KeyOf(a[i].group), KeyOf(b[j].group))
    requires order == 1 ==> LexLess(KeyOf(b[j].group), KeyOf(a[i].group))
    requires order != -1 && order != 1 ==> order == 0 && KeyOf(a[i].group) == KeyOf(b[j].group)
    ensures Side(a, b, i, j) == order && NextGroup(a, b, i, j) ==
              if order == -1 then a[i] else if order == 1 then b[j]
              else a[i].(count := (a[i].count + b[j].count) % U64, agg := Wrap(a[i].agg + b[j].agg))
  {
    hide LexLess, KeyOf, Wrap;
    var x, y := KeyOf(a[i].group), KeyOf(b[j].group);
    LexIrreflexive(x);
    if LexLess(x, y) && LexLess(y, x) {
      LexTransitive(x, y, x);
    }
  }

  lemma OneSide(a: seq<GroupCount>, b: seq<GroupCount>, i: nat, j: nat)
    requires i <= |a| && j <= |b| && (i == |a|) != (j == |b|)
    ensures Side(a, b, i, j) == (if j == |b| then -1 else 1)
    ensures NextGroup(a, b, i, j) == if j == |b| then a[i] else b[j]
  {
    hide LexLess, KeyOf, Wrap;
  }

  lemma Shapes(shape: seq<bool>, a: seq<GroupCount>, b: seq<GroupCount>, i: nat, j: nat)
    requires ValidList(shape, a) && ValidList(shape, b) && i < |a| && j < |b|
    ensures Shaped(shape, a[i]) && Shaped(shape, b[j]) && |a[i].group| == |b[j].group|
  {
  }

  lemma StateDone(shape: seq<bool>, a: seq<GroupCount>, b: seq<GroupCount>, i: nat, j: nat, ret: seq<GroupCount>,
                  limit: nat)
    requires MergeState(shape, a, b, i, j, ret)
    requires |ret| <= limit && (|ret| == limit || |ret| == |a| + |b| || (i == |a| && j == |b|))
    ensures IsFirst(Lex(), limit, Elements(Keys(a)) + Elements(Keys(b)), Keys(ret))
    ensures forall m :: 0 <= m < |ret| ==> Totalled(a, b, ret[m]) && Shaped(shape, ret[m])
  {
    hide Totalled, Shaped, LexLess;
    MergingDone(Lex(), Keys(a), Keys(b), i, j, Keys(ret), limit);
  }

  // ----- Totals over shards -----

  /** Each group's count and aggregate, not cut to 64 bits. */
  type Totals = map<Key, (nat, int)>

  ghost function Count(t: Totals, k: Key): nat {
    if k in t then t[k].0 else 0
  }

  ghost function Agg(t: Totals, k: Key): int {
    if k in t then t[k].1 else 0
  }

  ghost function Plus(s: Totals, t: Totals): Totals {
    map k | k in s.Keys + t.Keys :: (Count(s, k) + Count(t, k), Agg(s, k) + Agg(t, k))
  }

  lemma PlusAt(s: Totals, t: Totals, k: Key)
    ensures Count(Plus(s, t), k) == Count(s, k) + Count(t, k) && Agg(Plus(s, t), k) == Agg(s, k) + Agg(t, k)
    ensures k in Plus(s, t) <==> k in s || k in t
  {
  }

  lemma SameTotals(s: Totals, t: Totals)
    requires s.Keys == t.Keys && forall k :: Count(s, k) == Count(t, k) && Agg(s, k) == Agg(t, k)
    ensures s == t
  {
    forall k | k in s ensures s[k] == t[k] {
      assert Count(s, k) == Count(t, k) && Agg(s, k) == Agg(t, k);
    }
  }

  lemma PlusCommutes(s: Totals, t: Totals)
    ensures Plus(s, t) == Plus(t, s)
  {
    hide Plus, Count, Agg;
    forall k ensures Count(Plus(s, t), k) == Count(Plus(t, s), k) && Agg(Plus(s, t), k) == Agg(Plus(t, s), k)
      ensures k in Plus(s, t) <==> k in Plus(t, s) {
      PlusAt(s, t, k);
      PlusAt(t, s, k);
    }
    SameTotals(Plus(s, t), Plus(t, s));
  }

  lemma PlusAssociates(s: Totals, t: Totals, u: Totals)
    ensures Plus(Plus(s, t), u) == Plus(s, Plus(t, u))
  {
    hide Plus, Count, Agg;
    var l, r := Plus(Plus(s, t), u), Plus(s, Plus(t, u));
    forall k ensures Count(l, k) == Count(r, k) && Agg(l, k) == Agg(r, k) && (k in l <==> k in r) {
      PlusAt(s, t, k);
      PlusAt(Plus(s, t), u, k);
      PlusAt(t, u, k);
      PlusAt(s, Plus(t, u), k);
    }
    SameTotals(l, r);
  }

  /** A list of the first groups, with their full totals as 64-bit numbers. */
  ghost predicate Supplied(shape: seq<bool>, limit: nat, t: Totals, list: seq<GroupCount>) {
    && IsFirst(Lex(), limit, t.Keys, Keys(list))
    && forall i :: 0 <= i < |list| ==> Shaped(shape, list[i]) && HasTotals(t, list[i])
  }

  ghost predicate HasTotals(t: Totals, g: GroupCount) {
    g.count == Count(t, KeyOf(g.group)) % U64 && g.agg == Wrap(Agg(t, KeyOf(g.group)))
  }

  lemma SuppliedValid(shape: seq<bool>, limit: nat, t: Totals, list: seq<GroupCount>)
    requires Supplied(shape, limit, t, list)
    ensures ValidList(shape, list)
  {
  }

  /** What a list has at a key that its totals do not have cut off. */
  lemma SuppliedAt(shape: seq<bool>, limit: nat, t: Totals, list: seq<GroupCount>, k: Key)
    requires Supplied(shape, limit, t, list) && (k in t ==> k in Keys(list))
    ensures CountAt(list, k) == Count(t, k) % U64 && AggAt(list, k) == Wrap(Agg(t, k))
  {
    hide KeyOf, LexLess, CountAt, AggAt;
    if k in Keys(list) {
      var i :| 0 <= i < |list| && Keys(list)[i] == k;
      AtIndex(list, i);
      assert HasTotals(t, list[i]);
    } else {
      AtNone(list, k);
    }
  }

  lemma CountsWrap(c: nat, d: nat)
    ensures (c % U64 + d % U64) % U64 == (c + d) % U64
  {
  }

  lemma AggsWrap(x: int, y: int)
    ensures Wrap(Wrap(x) + Wrap(y)) == Wrap(x + y)
  {
  }

  /** Early truncation loses no contribution: merging two lists of first groups
      gives the first groups of the sum, with its full totals. */
  lemma MergedSupplies(shape: seq<bool>, limit: nat, s: Totals, t: Totals, a: seq<GroupCount>, b: seq<GroupCount>,
                       ret: seq<GroupCount>)
    requires Supplied(shape, limit, s, a) && Supplied(shape, limit, t, b)
    requires IsFirst(Lex(), limit, Elements(Keys(a)) + Elements(Keys(b)), Keys(ret))
    requires forall m :: 0 <= m < |ret| ==> Totalled(a, b, ret[m]) && Shaped(shape, ret[m])
    ensures Supplied(shape, limit, Plus(s, t), ret)
  {
    hide KeyOf, LexLess, CountAt, AggAt, IsFirst, Plus, Count, Agg, Wrap, StrictOrder, Shaped, Elements;
    LexIsOrder();
    TruncatedUnion(Lex(), limit, s.Keys, t.Keys, Keys(a), Keys(b), Keys(ret));
    PlusKeys(s, t);
    forall m | 0 <= m < |ret| ensures HasTotals(Plus(s, t), ret[m]) {
      var k := KeyOf(ret[m].group);
      assert Keys(ret)[m] == k;
      if k in s {
        KeptFromPart(Lex(), limit, s.Keys, t.Keys, Keys(a), Keys(b), Keys(ret), k);
      }
      if k in t {
        UnionCommutes(Elements(Keys(a)), Elements(Keys(b)));
        KeptFromPart(Lex(), limit, t.Keys, s.Keys, Keys(b), Keys(a), Keys(ret), k);
      }
      SuppliedAt(shape, limit, s, a, k);
      SuppliedAt(shape, limit, t, b, k);
      PlusAt(s, t, k);
      CountsWrap(Count(s, k), Count(t, k));
      AggsWrap(Agg(s, k), Agg(t, k));
    }
  }

  lemma UnionCommutes(s: set<Key>, t: set<Key>)
    ensures s + t == t + s
  {
  }

  lemma PlusKeys(s: Totals, t: Totals)
    ensures Plus(s, t).Keys == s.Keys + t.Keys
  {
  }

  // ----- Any merge tree -----

  ghost function Total(t: Tree, totals: nat -> Totals): Totals {
    match t
    case Leaf(s) => totals(s)
    case Node(l, r) => Plus(Total(l, totals), Total(r, totals))
  }

  function Shards(t: Tree): (s: seq<nat>)
    ensures s != []
  {
    match t
    case Leaf(s) => [s]
    case Node(l, r) => Shards(l) + Shards(r)
  }

  /** Whatever the merge tree, if each shard supplies its first groups the
      result is the first groups of them all, with the full totals. */
  method MergeGroupTree(t: Tree, supplied: nat -> seq<GroupCount>, limit: nat, ghost shape: seq<bool>,
                        ghost totals: nat -> Totals)
    returns (result: seq<GroupCount>)
    requires forall s :: Supplied(shape, limit, totals(s), supplied(s))
    ensures Supplied(shape, limit, Total(t, totals), result)
  {
    hide Supplied, Plus, IsFirst, Totalled, Shaped;
    match t
    case Leaf(s) => result := supplied(s);
    case Node(l, r) =>
      var a := MergeGroupTree(l, supplied, limit, shape, totals);
      var b := MergeGroupTree(r, supplied, limit, shape, totals);
      SuppliedValid(shape, limit, Total(l, totals), a);
      SuppliedValid(shape, limit, Total(r, totals), b);
      var left := new GroupCount[|a|](i requires 0 <= i < |a| => a[i]);
      assert left[..] == a;
      result := MergeGroupCounts(left, b, limit, shape);
      MergedSupplies(shape, limit, Total(l, totals), Total(r, totals), a, b, result);
  }

  /** The sum of a number over some shards. */
  ghost function SumOver(shards: seq<nat>, f: nat -> int): int {
    if shards == [] then 0 else f(shards[0]) + SumOver(shards[1..], f)
  }

  lemma {:induction false} SumOverConcat(a: seq<nat>, b: seq<nat>, f: nat -> int)
    ensures SumOver(a + b, f) == SumOver(a, f) + SumOver(b, f)
  {
    if a == [] {
      assert a + b == b;
    } else {
      assert (a + b)[1..] == a[1..] + b;
      SumOverConcat(a[1..], b, f);
    }
  }

  ghost function CountIn(totals: nat -> Totals, k: Key): nat -> int {
    (s: nat) => Count(totals(s), k)
  }

  ghost function AggIn(totals: nat -> Totals, k: Key): nat -> int {
    (s: nat) => Agg(totals(s), k)
  }

  /** A group's totals are the sums over all shards, and it has totals if it has
      them in some shard. */
  lemma {:induction false} TotalIsSum(t: Tree, totals: nat -> Totals, k: Key)
    ensures Count(Total(t, totals), k) == SumOver(Shards(t), CountIn(totals, k))
    ensures Agg(Total(t, totals), k) == SumOver(Shards(t), AggIn(totals, k))
    ensures k in Total(t, totals) <==> exists s :: s in Shards(t) && k in totals(s)
  {
    hide Count, Agg, Plus;
    match t
    case Leaf(s) =>
      SumOverOne(s, CountIn(totals, k));
      SumOverOne(s, AggIn(totals, k));
    case Node(l, r) =>
      TotalIsSum(l, totals, k);
      TotalIsSum(r, totals, k);
      PlusAt(Total(l, totals), Total(r, totals), k);
      SumOverConcat(Shards(l), Shards(r), CountIn(totals, k));
      SumOverConcat(Shards(l), Shards(r), AggIn(totals, k));
  }

  lemma SumOverOne(s: nat, f: nat -> int)
    ensures SumOver([s], f) == f(s)
  {
  }

  ghost function PlusOp(): (Totals, Totals) -> Totals {
    (s, t) => Plus(s, t)
  }

  lemma PlusLaws()
    ensures Associative(PlusOp()) && Commutative(PlusOp())
  {
    hide Plus;
    forall s, t ensures Plus(s, t) == Plus(t, s) {
      PlusCommutes(s, t);
    }
    forall s, t, u ensures Plus(Plus(s, t), u) == Plus(s, Plus(t, u)) {
      PlusAssociates(s, t, u);
    }
  }

  lemma {:induction false} TotalIsReduction(t: Tree, totals: nat -> Totals)
    ensures Reduce(PlusOp(), totals, Shards(t)) == Some(Total(t, totals))
  {
    match t
    case Leaf(s) => ReduceOne(PlusOp(), totals, s);
    case Node(l, r) =>
      hide Plus;
      TotalIsReduction(l, totals);
      TotalIsReduction(r, totals);
      PlusLaws();
      ReduceConcat(PlusOp(), totals, Shards(l), Shards(r));
  }

  /** The order and grouping of the merges does not matter: the same shards give
      the same groups, in the same order, with the same counts and aggregates. */
  lemma OrderIndependent(t: Tree, t': Tree, totals: nat -> Totals, shape: seq<bool>, limit: nat, r: seq<GroupCount>,
                         r': seq<GroupCount>)
    requires multiset(Shards(t)) == multiset(Shards(t'))
    requires Supplied(shape, limit, Total(t, totals), r) && Supplied(shape, limit, Total(t', totals), r')
    ensures Keys(r) == Keys(r') && forall i :: 0 <= i < |r| ==> r[i].count == r'[i].count && r[i].agg == r'[i].agg
  {
    hide Plus, IsFirst, LexLess, KeyOf, Wrap;
    TotalIsReduction(t, totals);
    TotalIsReduction(t', totals);
    PlusLaws();
    ReducePermuted(PlusOp(), totals, Shards(t), Shards(t'));
    LexIsOrder();
    FirstUnique(Lex(), limit, Total(t, totals).Keys, Keys(r), Keys(r'));
    forall i | 0 <= i < |r| ensures r[i].count == r'[i].count && r[i].agg == r'[i].agg {
      assert Keys(r)[i] == Keys(r')[i];
      assert HasTotals(Total(t, totals), r[i]) && HasTotals(Total(t, totals), r'[i]);
    }
  }
}
