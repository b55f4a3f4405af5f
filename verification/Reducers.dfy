// What a map/reduce run keeps of its shards when the reducer is associative only
// on the lists it is used for (executor.go).
module Reducers {
  import opened GroupMerge
  import opened Lexicographic
  import M = MapReduce
  import opened Options
  import R = Reduction
  import T = Truncation

  type Shard = R.Shard

  // ----- Any reducer -----

  /** The reducer keeps a meaning: what each shard supplies has it, and reducing
      two values that have it for some shards has it for all of these. */
  ghost predicate Carries<V(!new)>(holds: (multiset<Shard>, V) -> bool, f: (V, V) -> V, val: Shard -> V) {
    && (forall s :: holds(multiset{s}, val(s)))
    && (forall a, b, x, y :: holds(a, x) && holds(b, y) ==> holds(a + b, f(x, y)))
  }

  ghost predicate Carried<V(!new)>(holds: (multiset<Shard>, V) -> bool, s: multiset<Shard>, v: Option<V>) {
    if s == multiset{} then v.None? else v.Some? && holds(s, v.value)
  }

  lemma MergeCarries<V(!new)>(holds: (multiset<Shard>, V) -> bool, f: (V, V) -> V, val: Shard -> V,
                              a: multiset<Shard>, b: multiset<Shard>, x: Option<V>, y: Option<V>)
    requires Carries(holds, f, val) && Carried(holds, a, x) && Carried(holds, b, y)
    ensures Carried(holds, a + b, R.Merge(f, x, y))
  {
    assert a == multiset{} ==> a + b == b;
    assert b == multiset{} ==> a + b == a;
    if a + b == multiset{} {
      assert |a| + |b| == 0;
    }
  }

  lemma {:induction false} ReduceCarries<V(!new)>(holds: (multiset<Shard>, V) -> bool, f: (V, V) -> V,
                                                  val: Shard -> V, s: seq<Shard>)
    requires Carries(holds, f, val)
    ensures Carried(holds, multiset(s), R.Reduce(f, val, s))
  {
    if s != [] {
      var n := |s| - 1;
      ReduceCarries(holds, f, val, s[..n]);
      assert s == s[..n] + [s[n]];
      MergeCarries(holds, f, val, multiset(s[..n]), multiset{s[n]}, R.Reduce(f, val, s[..n]), Some(val(s[n])));
    }
  }

  lemma {:induction false} RunCarries<V(!new)>(holds: (multiset<Shard>, V) -> bool, f: (V, V) -> V, val: Shard -> V,
                                               shards: seq<Shard>,
                                               states: seq<M.State<V>>, events: seq<M.Event<V>>, n: nat)
    requires Carries(holds, f, val) && M.Run(f, val, states, events) && n < |states| && M.Starts(states[0], shards)
    ensures Carried(holds, multiset(states[n].folded), states[n].acc)
  {
    hide Carries, Carried, R.Reduce, R.Merge;
    if n == 0 {
      M.StartAccounts(shards, states[0]);
      ReduceCarries(holds, f, val, []);
      M.ReduceNone(f, val);
    } else {
      RunCarries(holds, f, val, shards, states, events, n - 1);
      var s, e := states[n - 1], events[n - 1];
      assert states[n] == M.Next(f, val, s, e);
      if e.Answer? {
        ReduceCarries(holds, f, val, e.covered);
        MergeCarries(holds, f, val, multiset(s.folded), multiset(e.covered), s.acc, e.v);
        assert multiset(s.folded + e.covered) == multiset(s.folded) + multiset(e.covered);
      }
    }
  }

  /** A returned value, with no partial answer on the way, has the meaning for
      all requested shards. */
  lemma ReturnedCarries<V(!new)>(holds: (multiset<Shard>, V) -> bool, f: (V, V) -> V, val: Shard -> V,
                                 shards: seq<Shard>,
                                 states: seq<M.State<V>>, events: seq<M.Event<V>>, n: nat)
    requires Carries(holds, f, val) && M.Run(f, val, states, events) && n < |states| && M.Starts(states[0], shards)
    requires states[n].status.Returned? && forall i :: 0 <= i < n ==> !M.Partial(states[i], events[i])
    ensures Carried(holds, multiset(shards), states[n].status.value)
  {
    hide Carries, Carried, M.Run, M.Partial;
    RunCarries(holds, f, val, shards, states, events, n);
    M.CompleteIffNoPartialAnswer(f, val, shards, states, events, n);
    M.RunAccounts(f, val, shards, states, events, n);
  }

  // ----- Merging row ids -----

  /** All rows of some shards. */
  ghost function RowsOf(m: multiset<Shard>, rows: Shard -> set<nat>): set<nat> {
    set s, x | s in m && x in rows(s) :: x
  }

  ghost function FirstRows(rows: Shard -> set<nat>, limit: nat): (multiset<Shard>, seq<nat>) -> bool {
    (m, r) => T.IsFirst(T.Less(), limit, RowsOf(m, rows), r)
  }

  function MergeRows(limit: nat): (seq<nat>, seq<nat>) -> seq<nat> {
    (a, b) => T.MergedRows(a, b, limit)
  }

  lemma RowsCarries(rows: Shard -> set<nat>, val: Shard -> seq<nat>, limit: nat)
    requires forall s :: T.IsFirst(T.Less(), limit, rows(s), val(s))
    ensures Carries(FirstRows(rows, limit), MergeRows(limit), val)
  {
    hide T.IsFirst, T.MergedRows;
    var holds := FirstRows(rows, limit);
    forall s ensures holds(multiset{s}, val(s)) {
      assert RowsOf(multiset{s}, rows) == rows(s);
    }
    forall a, b, x, y | holds(a, x) && holds(b, y) ensures holds(a + b, MergeRows(limit)(x, y)) {
      var s, t := RowsOf(a, rows), RowsOf(b, rows);
      assert RowsOf(a + b, rows) == s + t;
      FirstAscends(limit, s, x);
      FirstAscends(limit, t, y);
      T.MergedRowsFirst(x, y, limit);
      T.LessIsOrder();
      T.TruncatedUnion(T.Less(), limit, s, t, x, y, T.MergedRows(x, y, limit));
    }
  }

  lemma FirstAscends(limit: nat, s: set<nat>, r: seq<nat>)
    requires T.IsFirst(T.Less(), limit, s, r)
    ensures T.Ascending(T.Less(), r)
  {
  }

  /** A rows query over the cluster: if each shard supplies its first row ids, a
      returned result is the first row ids of all requested shards, whatever the
      order of answers and the failovers, unless an answer was partial. */
  lemma RowsReturned(rows: Shard -> set<nat>, val: Shard -> seq<nat>, limit: nat, shards: seq<Shard>,
                     states: seq<M.State<seq<nat>>>, events: seq<M.Event<seq<nat>>>, n: nat)
    requires forall s :: T.IsFirst(T.Less(), limit, rows(s), val(s))
    requires M.Run(MergeRows(limit), val, states, events) && n < |states| && M.Starts(states[0], shards)
    requires states[n].status.Returned? && forall i :: 0 <= i < n ==> !M.Partial(states[i], events[i])
    ensures shards != [] ==> states[n].status.value.Some? && T.IsFirst(T.Less(), limit, RowsOf(multiset(shards), rows), states[n].status.value.value)
  {
    hide T.IsFirst, M.Run, M.Starts, M.Partial, MergeRows, Carries;
    RowsCarries(rows, val, limit);
    ReturnedCarries(FirstRows(rows, limit), MergeRows(limit), val, shards, states, events, n);
    if shards != [] {
      assert shards[0] in multiset(shards);
    }
  }

  // ----- Merging groups -----

  function MergeGroups(limit: nat): (seq<GroupCount>, seq<GroupCount>) -> seq<GroupCount> {
    (a, b) => MergedGroups(a, b, limit)
  }

  /** A list of the first groups of some shards, with their full totals. */
  ghost predicate FirstGroupsOf(shape: seq<bool>, limit: nat, totals: Shard -> Totals, m: multiset<Shard>,
                                list: seq<GroupCount>) {
    exists t :: multiset(Shards(t)) == m && Supplied(shape, limit, Total(t, totals), list)
  }

  ghost function FirstGroups(shape: seq<bool>, limit: nat,
                             totals: Shard -> Totals): (multiset<Shard>, seq<GroupCount>) -> bool {
    (m, list) => FirstGroupsOf(shape, limit, totals, m, list)
  }

  lemma GroupsMerge(shape: seq<bool>, limit: nat, totals: Shard -> Totals, m: multiset<Shard>, n: multiset<Shard>,
                    a: seq<GroupCount>, b: seq<GroupCount>)
    requires FirstGroupsOf(shape, limit, totals, m, a) && FirstGroupsOf(shape, limit, totals, n, b)
    ensures FirstGroupsOf(shape, limit, totals, m + n, MergedGroups(a, b, limit))
  {
    hide Supplied, MergedGroups, Plus;
    var s :| multiset(Shards(s)) == m && Supplied(shape, limit, Total(s, totals), a);
    var t :| multiset(Shards(t)) == n && Supplied(shape, limit, Total(t, totals), b);
    SuppliedValid(shape, limit, Total(s, totals), a);
    SuppliedValid(shape, limit, Total(t, totals), b);
    MergedGroupsMerge(shape, a, b, limit);
    MergedSupplies(shape, limit, Total(s, totals), Total(t, totals), a, b, MergedGroups(a, b, limit));
    var both := T.Node(s, t);
    assert Total(both, totals) == Plus(Total(s, totals), Total(t, totals));
    assert multiset(Shards(both)) == m + n;
  }

  lemma GroupsCarries(shape: seq<bool>, limit: nat, totals: Shard -> Totals, val: Shard -> seq<GroupCount>)
    requires forall s :: Supplied(shape, limit, totals(s), val(s))
    ensures Carries(FirstGroups(shape, limit, totals), MergeGroups(limit), val)
  {
    hide Supplied, MergedGroups, FirstGroupsOf;
    var holds := FirstGroups(shape, limit, totals);
    forall s ensures holds(multiset{s}, val(s)) {
      OneShard(shape, limit, totals, s, val(s));
    }
    forall a, b, x, y | holds(a, x) && holds(b, y) ensures holds(a + b, MergeGroups(limit)(x, y)) {
      GroupsMerge(shape, limit, totals, a, b, x, y);
    }
  }

  lemma OneShard(shape: seq<bool>, limit: nat, totals: Shard -> Totals, s: Shard, list: seq<GroupCount>)
    requires Supplied(shape, limit, totals(s), list)
    ensures FirstGroupsOf(shape, limit, totals, multiset{s}, list)
  {
    hide Supplied;
    assert Shards(T.Leaf(s)) == [s] && Total(T.Leaf(s), totals) == totals(s);
  }

  /** A group-by over the cluster: if each shard supplies its first groups, a
      returned result is the first groups of all requested shards with the sums
      of all their counts and aggregates, unless an answer was partial. */
  lemma GroupsReturned(shape: seq<bool>, limit: nat, totals: Shard -> Totals, val: Shard -> seq<GroupCount>,
                       shards: seq<Shard>,
                       states: seq<M.State<seq<GroupCount>>>, events: seq<M.Event<seq<GroupCount>>>, n: nat)
    requires forall s :: Supplied(shape, limit, totals(s), val(s))
    requires M.Run(MergeGroups(limit), val, states, events) && n < |states| && M.Starts(states[0], shards)
    requires states[n].status.Returned? && forall i :: 0 <= i < n ==> !M.Partial(states[i], events[i])
    ensures shards != [] ==>
      && states[n].status.value.Some? && R.Reduce(PlusOp(), totals, shards).Some?
      && Supplied(shape, limit, R.Reduce(PlusOp(), totals, shards).value, states[n].status.value.value)
  {
    hide Supplied, M.Run, M.Starts, M.Partial, MergeGroups, Carries, R.Reduce, Plus, PlusOp, R.Associative, R.Commutative, Total, Shards;
    GroupsCarries(shape, limit, totals, val);
    ReturnedCarries(FirstGroups(shape, limit, totals), MergeGroups(limit), val, shards, states, events, n);
    if shards != [] {
      assert shards[0] in multiset(shards);
      var list := states[n].status.value.value;
      assert FirstGroupsOf(shape, limit, totals, multiset(shards), list);
      var t :| multiset(Shards(t)) == multiset(shards) && Supplied(shape, limit, Total(t, totals), list);
      TotalIsReduction(t, totals);
      PlusLaws();
      R.ReducePermuted(PlusOp(), totals, Shards(t), shards);
    }
  }
}
