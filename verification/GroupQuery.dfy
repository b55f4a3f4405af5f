// A group-by over many shards (executor.go): each shard's first groups, from
// its iterator, merged in any order, are the first groups of the whole index.
module GroupQuery {
  import M = GroupMerge
  import T = Truncation
  import opened Bits
  import opened GroupBy
  import opened Lexicographic
  import opened Odometer
  import opened Options

  /** A shard's group in the form in which groups are merged. */
  function AsGroupCount(g: Group): M.GroupCount {
    M.GroupCount(seq(|g.ids|, i requires 0 <= i < |g.ids| => M.FieldRow(g.ids[i], None)), g.count, 0)
  }

  function AsGroupCounts(gs: seq<Group>): (r: seq<M.GroupCount>)
    ensures |r| == |gs| && forall i :: 0 <= i < |gs| ==> r[i] == AsGroupCount(gs[i])
  {
    seq(|gs|, i requires 0 <= i < |gs| => AsGroupCount(gs[i]))
  }

  lemma KeyIsIds(g: Group)
    ensures M.KeyOf(AsGroupCount(g).group) == g.ids
  {
    var k := M.KeyOf(AsGroupCount(g).group);
    assert |k| == |g.ids|;
    assert forall i :: 0 <= i < |k| ==> k[i] == g.ids[i];
  }

  function NoValues(n: nat): seq<bool> {
    seq(n, _ => false)
  }

  /** The totals of one shard: the count of each tuple with common columns. */
  ghost predicate ShardTotals(levels: seq<Level>, filter: Option<set<nat>>, t: M.Totals)
    requires WellFormed(levels)
  {
    && (forall c :: Nonempty(levels, filter, c) ==> Ids(levels, c) in t && t[Ids(levels, c)] == (|Meet(levels, filter, c)|, 0))
    && forall k :: k in t ==> exists c :: Nonempty(levels, filter, c) && Ids(levels, c) == k
  }

  lemma KeysAreIds(gs: seq<Group>, i: nat)
    requires i < |gs|
    ensures M.Keys(AsGroupCounts(gs))[i] == gs[i].ids
  {
    KeyIsIds(gs[i]);
  }

  /** What the shard's iterator promises. */
  ghost predicate FirstGroups(levels: seq<Level>, filter: Option<set<nat>>, limit: nat, results: seq<Group>,
                              tuples: seq<seq<nat>>)
    requires WellFormed(levels)
  {
    && |results| <= limit && Listed(levels, filter, results, tuples)
    && forall c :: Nonempty(levels, filter, c) && c !in tuples ==>
         |results| == limit && forall k :: 0 <= k < |results| ==> LexLess(results[k].ids, Ids(levels, c))
  }

  lemma ListedAt(levels: seq<Level>, filter: Option<set<nat>>, limit: nat, results: seq<Group>, tuples: seq<seq<nat>>,
                 i: nat)
    requires WellFormed(levels) && FirstGroups(levels, filter, limit, results, tuples) && i < |results|
    ensures |results| == |tuples| && Nonempty(levels, filter, tuples[i])
    ensures results[i] == Group(Ids(levels, tuples[i]), |Meet(levels, filter, tuples[i])|)
    ensures forall j :: i < j < |results| ==> LexLess(results[i].ids, results[j].ids)
  {
    hide Meet, Ids, LexLess;
  }

  lemma Unlisted(levels: seq<Level>, filter: Option<set<nat>>, limit: nat, results: seq<Group>, tuples: seq<seq<nat>>,
                 c: seq<nat>)
    requires WellFormed(levels) && FirstGroups(levels, filter, limit, results, tuples) && Nonempty(levels, filter, c)
    requires forall i :: 0 <= i < |results| ==> results[i].ids != Ids(levels, c)
    ensures |results| == limit && forall i :: 0 <= i < |results| ==> LexLess(results[i].ids, Ids(levels, c))
  {
    hide Meet, LexLess;
    assert forall j :: 0 <= j < |tuples| ==> results[j].ids == Ids(levels, tuples[j]);
  }

  lemma IdsFirst(levels: seq<Level>, filter: Option<set<nat>>, limit: nat, results: seq<Group>, tuples: seq<seq<nat>>,
                 t: M.Totals, keys: seq<M.Key>)
    requires WellFormed(levels) && FirstGroups(levels, filter, limit, results, tuples) && ShardTotals(levels, filter, t)
    requires |keys| == |results| && forall i :: 0 <= i < |keys| ==> keys[i] == results[i].ids
    ensures T.IsFirst(M.Lex(), limit, t.Keys, keys)
  {
    hide Meet, Ids, LexLess, FirstGroups;
    forall i, j | 0 <= i < j < |keys| ensures LexLess(keys[i], keys[j]) {
      ListedAt(levels, filter, limit, results, tuples, i);
      ListedAt(levels, filter, limit, results, tuples, j);
    }
    forall i | 0 <= i < |keys| ensures keys[i] in t.Keys {
      ListedAt(levels, filter, limit, results, tuples, i);
    }
    forall x | x in t.Keys && x !in keys
      ensures |keys| == limit && forall i :: 0 <= i < |keys| ==> LexLess(keys[i], x)
    {
      var c :| Nonempty(levels, filter, c) && Ids(levels, c) == x;
      Unlisted(levels, filter, limit, results, tuples, c);
    }
    FirstSize(levels, filter, limit, results, tuples);
  }

  lemma FirstSize(levels: seq<Level>, filter: Option<set<nat>>, limit: nat, results: seq<Group>, tuples: seq<seq<nat>>)
    requires WellFormed(levels) && FirstGroups(levels, filter, limit, results, tuples)
    ensures |results| <= limit
  {
  }

  lemma IdPerLevel(levels: seq<Level>, filter: Option<set<nat>>, c: seq<nat>)
    requires WellFormed(levels) && Nonempty(levels, filter, c)
    ensures |Ids(levels, c)| == |levels|
  {
  }

  /** What a shard's iterator lists is what the merge expects of a shard. */
  lemma ShardSupplies(levels: seq<Level>, filter: Option<set<nat>>, limit: nat, results: seq<Group>,
                      tuples: seq<seq<nat>>, t: M.Totals)
    requires WellFormed(levels) && FirstGroups(levels, filter, limit, results, tuples) && ShardTotals(levels, filter, t)
    requires forall c :: Nonempty(levels, filter, c) ==> |Meet(levels, filter, c)| < U64
    ensures M.Supplied(NoValues(|levels|), limit, t, AsGroupCounts(results))
  {
    hide Meet, Ids, M.KeyOf, LexLess, IsTuple, FirstGroups, Nonempty;
    var list := AsGroupCounts(results);
    forall i | 0 <= i < |results| ensures M.Keys(list)[i] == results[i].ids {
      KeysAreIds(results, i);
    }
    IdsFirst(levels, filter, limit, results, tuples, t, M.Keys(list));
    forall i | 0 <= i < |list| ensures M.Shaped(NoValues(|levels|), list[i]) && M.HasTotals(t, list[i]) {
      KeyIsIds(results[i]);
      ListedAt(levels, filter, limit, results, tuples, i);
      IdPerLevel(levels, filter, tuples[i]);
    }
  }

  /** A shard's first groups, ready to be merged. */
  method ShardGroupCounts(levels: seq<Level>, filter: Option<set<nat>>, limit: nat,
                          ghost t: M.Totals) returns (list: seq<M.GroupCount>)
    requires WellFormed(levels) && levels != [] && ShardTotals(levels, filter, t)
    requires forall c :: Nonempty(levels, filter, c) ==> |Meet(levels, filter, c)| < U64
    ensures M.Supplied(NoValues(|levels|), limit, t, list)
  {
    hide M.Supplied, Listed, Nonempty, ShardTotals, LexLess, Meet, Ids;
    var results;
    ghost var tuples;
    results, tuples := ShardGroups(levels, filter, limit);
    list := AsGroupCounts(results);
    ShardSupplies(levels, filter, limit, results, tuples, t);
  }

  /** One shard's part of the index. */
  datatype Part = Part(levels: seq<Level>, filter: Option<set<nat>>)

  ghost predicate ValidPart(p: Part, fields: nat, t: M.Totals) {
    && WellFormed(p.levels) && |p.levels| == fields && ShardTotals(p.levels, p.filter, t)
    && forall c :: Nonempty(p.levels, p.filter, c) ==> |Meet(p.levels, p.filter, c)| < U64
  }

  // ----- Groups in terms of rows and columns -----

  /** The column is in the row with this id. */
  ghost predicate InRow(level: Level, id: int, c: nat) {
    exists x :: 0 <= x < |level.ids| && x < |level.sets| && level.ids[x] == id && c in level.sets[x]
  }

  /** The column is in one row of each field, by id, and in the filter. */
  ghost predicate InGroup(p: Part, ids: seq<int>, c: nat) {
    && |ids| == |p.levels| && (p.filter.Some? ==> c in p.filter.value)
    && forall j :: 0 <= j < |ids| ==> InRow(p.levels[j], ids[j], c)
  }

  /** The columns of a group in one shard. */
  ghost function GroupColumns(p: Part, ids: seq<int>): set<nat>
    requires p.levels != []
  {
    set x, c | 0 <= x < |p.levels[0].sets| && c in p.levels[0].sets[x] && InGroup(p, ids, c) :: c
  }

  lemma GroupColumnsAre(p: Part, ids: seq<int>, c: nat)
    requires p.levels != []
    ensures c in GroupColumns(p, ids) <==> InGroup(p, ids, c)
  {
    if InGroup(p, ids, c) {
      assert InRow(p.levels[0], ids[0], c);
    }
  }

  lemma RowOnce(levels: seq<Level>, j: nat, x: nat, c: nat)
    requires WellFormed(levels) && j < |levels| && x < |levels[j].ids|
    ensures InRow(levels[j], levels[j].ids[x], c) <==> c in levels[j].sets[x]
  {
  }

  /** A tuple's common columns are those of the group with its ids. */
  lemma MeetIsGroup(p: Part, t: seq<nat>)
    requires WellFormed(p.levels) && IsTuple(p.levels, t) && |t| == |p.levels| > 0
    ensures Meet(p.levels, p.filter, t) == GroupColumns(p, Ids(p.levels, t))
  {
    hide Meet, GroupColumns, InRow;
    forall c: nat ensures c in Meet(p.levels, p.filter, t) <==> c in GroupColumns(p, Ids(p.levels, t)) {
      GroupColumnsAre(p, Ids(p.levels, t), c);
      MeetIs(p.levels, p.filter, t, c);
      forall j | 0 <= j < |t| ensures InRow(p.levels[j], Ids(p.levels, t)[j], c) <==> c in p.levels[j].sets[t[j]] {
        RowOnce(p.levels, j, t[j], c);
      }
    }
  }

  /** A column of a group shows its tuple. */
  lemma TupleOf(p: Part, ids: seq<int>, c: nat) returns (t: seq<nat>)
    requires WellFormed(p.levels) && p.levels != [] && InGroup(p, ids, c)
    ensures IsTuple(p.levels, t) && |t| == |p.levels| && Ids(p.levels, t) == ids
  {
    hide InRow;
    t := seq(|ids|, j requires 0 <= j < |ids| => IndexOf(p.levels[j], ids[j], c));
  }

  ghost function IndexOf(level: Level, id: int, c: nat): (x: nat)
    requires InRow(level, id, c)
    ensures x < |level.ids| && level.ids[x] == id
  {
    var x :| 0 <= x < |level.ids| && x < |level.sets| && level.ids[x] == id && c in level.sets[x];
    x
  }

  /** A shard's totals count the columns of every group. */
  lemma ShardCounts(p: Part, t: M.Totals, ids: seq<int>)
    requires WellFormed(p.levels) && p.levels != [] && ShardTotals(p.levels, p.filter, t)
    ensures M.Count(t, ids) == |GroupColumns(p, ids)| && (ids in t <==> GroupColumns(p, ids) != {})
  {
    hide Meet, GroupColumns, InGroup, Ids, WellFormed, IsTuple;
    if ids in t {
      var tuple :| Nonempty(p.levels, p.filter, tuple) && Ids(p.levels, tuple) == ids;
      MeetIsGroup(p, tuple);
    }
    if c :| c in GroupColumns(p, ids) {
      GroupColumnsAre(p, ids, c);
      var tuple := TupleOf(p, ids, c);
      MeetIsGroup(p, tuple);
      assert Nonempty(p.levels, p.filter, tuple);
    }
  }

  ghost function SizeIn(parts: nat -> Part, ids: seq<int>): nat -> int {
    (s: nat) => if parts(s).levels == [] then 0 else |GroupColumns(parts(s), ids)|
  }

  /** Some of the shards has a column of the group. */
  ghost predicate GroupExists(parts: nat -> Part, shards: seq<nat>, ids: seq<int>) {
    exists s :: s in shards && SizeIn(parts, ids)(s) > 0
  }

  /** The first groups of these shards, by row ids, with the number of their
      columns in all shards as a 64-bit number. */
  ghost predicate FirstGroupsOf(parts: nat -> Part, shards: seq<nat>, limit: nat, list: seq<M.GroupCount>) {
    && |list| <= limit
    && (forall i, j :: 0 <= i < j < |list| ==> LexLess(IdsOf(list[i]), IdsOf(list[j])))
    && (forall i :: 0 <= i < |list| ==> GroupExists(parts, shards, IdsOf(list[i])))
    && (forall i :: 0 <= i < |list| ==> list[i].count == M.SumOver(shards, SizeIn(parts, IdsOf(list[i]))) % U64)
    && forall ids :: GroupExists(parts, shards, ids) && (forall i :: 0 <= i < |list| ==> IdsOf(list[i]) != ids) ==>
         |list| == limit && forall i :: 0 <= i < |list| ==> LexLess(IdsOf(list[i]), ids)
  }

  function IdsOf(g: M.GroupCount): (ids: seq<int>)
    ensures |ids| == |g.group| && forall i :: 0 <= i < |ids| ==> ids[i] == g.group[i].rowID
  {
    seq(|g.group|, i requires 0 <= i < |g.group| => g.group[i].rowID)
  }

  lemma {:induction false} SameSums(shards: seq<nat>, f: nat -> int, g: nat -> int)
    requires forall s: nat :: f(s) == g(s)
    ensures M.SumOver(shards, f) == M.SumOver(shards, g)
  {
    if shards != [] {
      SameSums(shards[1..], f, g);
    }
  }

  lemma TotalsCount(t: T.Tree, parts: nat -> Part, totals: nat -> M.Totals, fields: nat, ids: seq<int>)
    requires fields > 0 && forall s: nat :: ValidPart(parts(s), fields, totals(s))
    ensures M.Count(M.Total(t, totals), ids) == M.SumOver(M.Shards(t), SizeIn(parts, ids))
    ensures ids in M.Total(t, totals) <==> GroupExists(parts, M.Shards(t), ids)
  {
    hide M.Count, M.Total, M.SumOver, M.Shards, GroupColumns, ShardTotals, Nonempty, Meet, WellFormed;
    M.TotalIsSum(t, totals, ids);
    forall s: nat ensures SizeIn(parts, ids)(s) == M.Count(totals(s), ids) && (SizeIn(parts, ids)(s) > 0 <==> ids in totals(s)) {
      assert ValidPart(parts(s), fields, totals(s));
      ShardCounts(parts(s), totals(s), ids);
    }
    SameSums(M.Shards(t), M.CountIn(totals, ids), SizeIn(parts, ids));
  }

  lemma IdsAreKeys(fields: nat, g: M.GroupCount)
    requires M.Shaped(NoValues(fields), g)
    ensures M.KeyOf(g.group) == IdsOf(g)
  {
  }

  /** What the merged totals mean. */
  lemma SuppliedMeans(t: T.Tree, parts: nat -> Part, totals: nat -> M.Totals, fields: nat, limit: nat,
                      list: seq<M.GroupCount>)
    requires fields > 0 && forall s: nat :: ValidPart(parts(s), fields, totals(s))
    requires M.Supplied(NoValues(fields), limit, M.Total(t, totals), list)
    ensures FirstGroupsOf(parts, M.Shards(t), limit, list)
  {
    hide ValidPart, M.Shaped, M.KeyOf, M.Count, M.Agg, M.Total, M.SumOver, M.Shards, GroupExists, SizeIn, LexLess, IdsOf;
    var keys := M.Keys(list);
    forall i | 0 <= i < |list| ensures keys[i] == IdsOf(list[i]) {
      IdsAreKeys(fields, list[i]);
    }
    forall ids: seq<int>
      ensures M.Count(M.Total(t, totals), ids) == M.SumOver(M.Shards(t), SizeIn(parts, ids))
      ensures ids in M.Total(t, totals) <==> GroupExists(parts, M.Shards(t), ids)
    {
      TotalsCount(t, parts, totals, fields, ids);
    }
    forall i | 0 <= i < |list|
      ensures list[i].count == M.SumOver(M.Shards(t), SizeIn(parts, IdsOf(list[i]))) % U64 && GroupExists(parts, M.Shards(t), IdsOf(list[i]))
    {
      assert M.HasTotals(M.Total(t, totals), list[i]);
      assert keys[i] in M.Total(t, totals).Keys;
      IdsAreKeys(fields, list[i]);
    }
  }

  /** Every shard lists its own first groups, and the lists are merged in any
      order. */
  method MergeParts(t: T.Tree, parts: nat -> Part, limit: nat, fields: nat,
                    ghost totals: nat -> M.Totals) returns (list: seq<M.GroupCount>)
    requires fields > 0 && forall s: nat :: ValidPart(parts(s), fields, totals(s))
    ensures M.Supplied(NoValues(fields), limit, M.Total(t, totals), list)
  {
    hide M.Supplied, ShardTotals, Meet, Nonempty, M.Plus, T.IsFirst, M.Totalled, M.Shaped, M.MergedGroups;
    match t
    case Leaf(s) =>
      assert ValidPart(parts(s), fields, totals(s));
      list := ShardGroupCounts(parts(s).levels, parts(s).filter, limit, totals(s));
    case Node(l, r) =>
      var a := MergeParts(l, parts, limit, fields, totals);
      var b := MergeParts(r, parts, limit, fields, totals);
      M.SuppliedValid(NoValues(fields), limit, M.Total(l, totals), a);
      M.SuppliedValid(NoValues(fields), limit, M.Total(r, totals), b);
      var left := new M.GroupCount[|a|](i requires 0 <= i < |a| => a[i]);
      assert left[..] == a;
      list := M.MergeGroupCounts(left, b, limit, NoValues(fields));
      M.MergedSupplies(NoValues(fields), limit, M.Total(l, totals), M.Total(r, totals), a, b, list);
  }

  /** The whole query: whatever the order in which the shards' lists are merged,
      the result is the first groups of all shards together, with the number of
      their columns in all of them. */
  method QueryTree(t: T.Tree, parts: nat -> Part, limit: nat, fields: nat,
                   ghost totals: nat -> M.Totals) returns (list: seq<M.GroupCount>)
    requires fields > 0 && forall s: nat :: ValidPart(parts(s), fields, totals(s))
    ensures FirstGroupsOf(parts, M.Shards(t), limit, list)
  {
    hide FirstGroupsOf, ValidPart, M.Supplied, M.Total;
    list := MergeParts(t, parts, limit, fields, totals);
    SuppliedMeans(t, parts, totals, fields, limit, list);
  }
}
