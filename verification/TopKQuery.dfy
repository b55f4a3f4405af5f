// A TopK query on one shard (executor.go): the rows by their exact counts.
module TopKQuery {
  import opened Bits
  import opened BsiData
  import opened ContainerMerge
  import opened Options
  import P = Pivot
  import opened RowBuilders
  import opened TopK

  // ----- Bit-sliced rows as sets -----

  /** The columns of a bitmap. */
  function Columns(row: map<nat, Container>): set<nat> {
    set k, v | k in row && v in row[k].bits :: k * KEY_SIZE + v
  }

  lemma ColumnsAre(row: map<nat, Container>, c: nat)
    requires ValidContainers(row)
    ensures c in Columns(row) <==> InBitmap(row, c)
  {
    if c in Columns(row) {
      var k, v :| k in row && v in row[k].bits && c == k * KEY_SIZE + v;
      assert v < KEY_SIZE;
      assert c / KEY_SIZE == k && c % KEY_SIZE == v;
    }
    if InBitmap(row, c) {
      assert c == c / KEY_SIZE * KEY_SIZE + c % KEY_SIZE;
    }
  }

  function AsSets(rows: seq<map<nat, Container>>): (s: P.BSIData)
    ensures |s| == |rows| && forall i :: 0 <= i < |s| ==> s[i] == Columns(rows[i])
  {
    seq(|rows|, i requires 0 <= i < |rows| => Columns(rows[i]))
  }

  /** Built rows and sets of columns mean the same numbers. */
  lemma {:induction false} SameNumbers(rows: seq<map<nat, Container>>, c: nat)
    requires forall i :: 0 <= i < |rows| ==> ValidContainers(rows[i])
    ensures Decode(rows, c) == P.Value(AsSets(rows), c)
  {
    if rows != [] {
      var n := |rows| - 1;
      SameNumbers(rows[..n], c);
      ColumnsAre(rows[n], c);
      assert AsSets(rows)[..n] == AsSets(rows[..n]);
    }
  }

  function Union(bsi: P.BSIData): set<nat> {
    if bsi == [] then {} else Union(bsi[..|bsi| - 1]) + bsi[|bsi| - 1]
  }

  /** The union of the rows is the columns with a number other than zero. */
  lemma {:induction false} UnionIsNonzero(bsi: P.BSIData, c: nat)
    ensures c in Union(bsi) <==> P.Value(bsi, c) > 0
  {
    if bsi != [] {
      UnionIsNonzero(bsi[..|bsi| - 1], c);
    }
  }

  // ----- Containers as positions -----

  /** The containers hold exactly these positions. */
  ghost predicate Holds(items: seq<Item>, positions: set<nat>) {
    forall k: nat, v: nat :: HasBit(items, k, v) <==> v < KEY_SIZE && k * KEY_SIZE + v in positions
  }

  ghost predicate AllHold(fragments: seq<seq<Item>>, storages: seq<set<nat>>) {
    |fragments| == |storages| && forall i :: 0 <= i < |fragments| ==> Holds(fragments[i], storages[i])
  }

  ghost predicate AnyHolds(storages: seq<set<nat>>, p: nat) {
    exists i :: 0 <= i < |storages| && p in storages[i]
  }

  /** The columns of a shard, counted from its first one, that some fragment has
      in the row and that are in the filter. */
  ghost function RowColumns(storages: seq<set<nat>>, shard: nat, filter: Option<set<nat>>, row: nat): (cols: set<nat>)
    ensures forall c: nat :: c in cols <==>
              && c < SHARD_WIDTH && (exists i :: 0 <= i < |storages| && row * SHARD_WIDTH + c in storages[i])
              && (filter.Some? ==> shard * SHARD_WIDTH + c in filter.value)
  {
    set c | 0 <= c < SHARD_WIDTH && AnyHolds(storages, Pos(row, c))
            && (filter.Some? ==> shard * SHARD_WIDTH + c in filter.value)
  }

  /** A row of a shard is as many containers as its width needs. */
  lemma ContainersFit(row: nat, c: nat)
    requires c < SHARD_WIDTH
    ensures CONTAINERS_PER_ROW * KEY_SIZE == SHARD_WIDTH
    ensures var k := row * CONTAINERS_PER_ROW + c / KEY_SIZE;
            && Pos(row, c) == k * KEY_SIZE + c % KEY_SIZE
            && k / CONTAINERS_PER_ROW == row && k % CONTAINERS_PER_ROW == c / KEY_SIZE
  {
  }

  lemma AnyIsIn(fragments: seq<seq<Item>>, storages: seq<set<nat>>, k: nat, v: nat)
    requires AllHold(fragments, storages)
    ensures In(fragments, k, v) <==> v < KEY_SIZE && AnyHolds(storages, k * KEY_SIZE + v)
  {
    hide HasBit;
    if In(fragments, k, v) {
      var i :| 0 <= i < |fragments| && HasBit(fragments[i], k, v);
      assert Holds(fragments[i], storages[i]);
    }
    if v < KEY_SIZE && AnyHolds(storages, k * KEY_SIZE + v) {
      var i :| 0 <= i < |storages| && k * KEY_SIZE + v in storages[i];
      assert Holds(fragments[i], storages[i]);
      assert HasBit(fragments[i], k, v);
    }
  }

  /** The container and the bit of a column in a row. */
  function CellOf(row: nat, c: nat): (nat, nat) {
    (row * CONTAINERS_PER_ROW + c / KEY_SIZE, c % KEY_SIZE)
  }

  ghost function CellsOf(row: nat, cols: set<nat>): set<(nat, nat)> {
    set c | c in cols :: CellOf(row, c)
  }

  lemma CellOfInjective(row: nat, c: nat, c': nat)
    requires CellOf(row, c) == CellOf(row, c')
    ensures c == c'
  {
    assert c == c / KEY_SIZE * KEY_SIZE + c % KEY_SIZE;
  }

  /** As many cells as columns. */
  lemma {:induction false} CellsSize(row: nat, cols: set<nat>)
    ensures |CellsOf(row, cols)| == |cols|
  {
    hide CellOf;
    if cols != {} {
      var c :| c in cols;
      CellsSize(row, cols - {c});
      forall c' | c' in cols && CellOf(row, c') == CellOf(row, c) ensures c' == c {
        CellOfInjective(row, c, c');
      }
      assert CellsOf(row, cols) == CellsOf(row, cols - {c}) + {CellOf(row, c)};
    }
  }

  /** The bits of a row that any fragment has and the filter selects. */
  ghost function RowCells(storages: seq<set<nat>>, shard: nat, filter: Option<set<nat>>, row: nat): set<(nat, nat)> {
    CellsOf(row, RowColumns(storages, shard, filter, row))
  }

  lemma RowCellsAre(storages: seq<set<nat>>, shard: nat, filter: Option<set<nat>>, row: nat, k: nat, v: nat)
    ensures (k, v) in RowCells(storages, shard, filter, row) <==>
            && k / CONTAINERS_PER_ROW == row && v < KEY_SIZE && AnyHolds(storages, k * KEY_SIZE + v)
            && (filter.Some? ==> (shard * CONTAINERS_PER_ROW + k % CONTAINERS_PER_ROW) * KEY_SIZE + v in filter.value)
  {
    var c := k % CONTAINERS_PER_ROW * KEY_SIZE + v;
    if (k, v) in RowCells(storages, shard, filter, row) {
      var c' :| c' in RowColumns(storages, shard, filter, row) && CellOf(row, c') == (k, v);
      ContainersFit(row, c');
    }
    if v < KEY_SIZE && k / CONTAINERS_PER_ROW == row {
      ContainersFit(row, c);
      assert CellOf(row, c) == (k, v);
    }
  }

  lemma RowSize(storages: seq<set<nat>>, shard: nat, filter: Option<set<nat>>, row: nat)
    ensures |RowCells(storages, shard, filter, row)| == |RowColumns(storages, shard, filter, row)|
  {
    CellsSize(row, RowColumns(storages, shard, filter, row));
  }

  // ----- The ranking -----

  /** All rows with a count, by count descending, then by id. */
  ghost predicate IsRanking(storages: seq<set<nat>>, shard: nat, filter: Option<set<nat>>, l: seq<P.Item>) {
    && (forall i :: 0 <= i < |l| ==> l[i].value == |RowColumns(storages, shard, filter, l[i].col)| > 0)
    && (forall r: nat :: |RowColumns(storages, shard, filter, r)| > 0 ==>
          P.Item(|RowColumns(storages, shard, filter, r)|, r) in l)
    && (forall i, j :: 0 <= i < j < |l| ==> P.Before(l[i], l[j]))
  }

  lemma ListingIsRanking(storages: seq<set<nat>>, shard: nat, filter: Option<set<nat>>, bsi: P.BSIData, l: seq<P.Item>)
    requires forall r: nat :: P.Value(bsi, r) == |RowColumns(storages, shard, filter, r)|
    requires P.IsListing(bsi, Union(bsi), 0, l)
    ensures IsRanking(storages, shard, filter, l)
  {
    hide RowColumns, P.Value, P.Before, Union;
    forall i | 0 <= i < |l| ensures l[i].value == |RowColumns(storages, shard, filter, l[i].col)| > 0 {
      UnionIsNonzero(bsi, l[i].col);
    }
    forall r: nat | |RowColumns(storages, shard, filter, r)| > 0
      ensures P.Item(|RowColumns(storages, shard, filter, r)|, r) in l
    {
      UnionIsNonzero(bsi, r);
      assert P.ItemOf(bsi, 0, r) in l;
    }
  }

  /** There is only one such ranking. */
  lemma RankingUnique(storages: seq<set<nat>>, shard: nat, filter: Option<set<nat>>, a: seq<P.Item>, b: seq<P.Item>)
    requires IsRanking(storages, shard, filter, a) && IsRanking(storages, shard, filter, b)
    ensures a == b
  {
    hide RowColumns, P.Before;
    forall x: P.Item ensures x in a <==> x in b {
      if x in a { assert P.Item(|RowColumns(storages, shard, filter, x.col)|, x.col) in b; }
      if x in b { assert P.Item(|RowColumns(storages, shard, filter, x.col)|, x.col) in a; }
    }
    P.SameOrder(a, b);
  }

  /** The pairs of id and count that the visitor collects. */
  method Collect(calls: seq<P.Call>) returns (pairs: seq<P.Item>)
    ensures pairs == P.Flatten(calls)
  {
    hide P.Flatten;
    pairs := [];
    P.FlattenConcat([], []);
    assert calls[..0] == [];
    assert P.Flatten([]) == [] by {
      NothingFlat();
    }
    for i := 0 to |calls|
      invariant pairs == P.Flatten(calls[..i])
    {
      var more: seq<P.Item> := [];
      for j := 0 to |calls[i].cols|
        invariant |more| == j && forall k :: 0 <= k < j ==> more[k] == P.Item(calls[i].value, calls[i].cols[k])
      {
        more := more + [P.Item(calls[i].value, calls[i].cols[j])];
      }
      assert more == P.ItemsAt(calls[i].value, calls[i].cols);
      P.FlattenOne(calls[i]);
      P.FlattenConcat(calls[..i], [calls[i]]);
      assert calls[..i + 1] == calls[..i] + [calls[i]];
      pairs := pairs + more;
    }
    assert calls[..|calls|] == calls;
  }

  lemma NothingFlat()
    ensures P.Flatten([]) == []
  {
  }

  /** The filter passes exactly the bits of the row it was filled from. */
  ghost predicate PassesRow(f: Option<Filter>, shard: nat, filter: Option<set<nat>>)
    requires f.Some? ==> |f.value| == CONTAINERS_PER_ROW
  {
    && (f.Some? <==> filter.Some?)
    && (f.Some? ==> forall k: nat, v: nat ::
          Passes(f, k, v) <==> v < KEY_SIZE && (shard * CONTAINERS_PER_ROW + k % CONTAINERS_PER_ROW) * KEY_SIZE + v in filter.value)
  }

  lemma FragmentCells(fragments: seq<seq<Item>>, storages: seq<set<nat>>, f: Option<Filter>, shard: nat,
                      filter: Option<set<nat>>, row: nat, k: nat, v: nat)
    requires AllHold(fragments, storages) && (f.Some? ==> |f.value| == CONTAINERS_PER_ROW) && PassesRow(f, shard, filter)
    ensures (k, v) in RowCells(storages, shard, filter, row) <==>
            k / CONTAINERS_PER_ROW == row && In(fragments, k, v) && Passes(f, k, v)
  {
    hide AnyHolds, RowCells, AllHold, In;
    RowCellsAre(storages, shard, filter, row, k, v);
    AnyIsIn(fragments, storages, k, v);
  }

  /** A TopK query on one shard: the rows in the order of their exact counts,
      equal counts by id, without the skipped ones, up to the limit.  A row's
      count is the number of its columns that some fragment holds and that are in
      the filter. */
  method TopKShard(fragments: seq<seq<Item>>, filterRow: Option<seq<Item>>, limit: Option<nat>, offset: Option<nat>,
                   ghost shard: nat, ghost storages: seq<set<nat>>, ghost filter: Option<set<nat>>)
    returns (pairs: seq<P.Item>)
    requires AllAscending(fragments) && AllHold(fragments, storages)
    requires forall k: nat :: Has(fragments, k) ==> k <= NO_ROW
    requires filterRow.Some? <==> filter.Some?
    requires filterRow.Some? ==>
               Ascending(filterRow.value) && OfShard(filterRow.value, shard) && Holds(filterRow.value, filter.value)
    ensures exists ranking ::
              IsRanking(storages, shard, filter, ranking) && pairs == P.Take(P.Drop(ranking, offset), limit)
  {
    hide RowCells, RowColumns, IsRanking, PassesRow, Holds, AllHold, AllAscending, Ascending, OfShard, In, Has, Passes, HasBit;
    hide Decode, P.Value, P.Listing, P.IsListing, P.Take, P.Drop, P.Flatten, P.CallsOk, Union;
    var f: Option<Filter> := None;
    if filterRow.Some? {
      var filled := FillFilter(filterRow.value, shard);
      f := Some(filled);
    }
    assert PassesRow(f, shard, filter) by {
      FilledPasses(f, filterRow, shard, filter);
    }
    var rows := TopKFragments(fragments, f);
    var bsi := AsSets(rows);
    forall r: nat ensures P.Value(bsi, r) == |RowColumns(storages, shard, filter, r)| {
      forall k: nat, v: nat
        ensures (k, v) in RowCells(storages, shard, filter, r) <==>
                k / CONTAINERS_PER_ROW == r && In(fragments, k, v) && Passes(f, k, v)
      {
        FragmentCells(fragments, storages, f, shard, filter, r, k, v);
      }
      RowSize(storages, shard, filter, r);
      SameNumbers(rows, r);
    }
    var calls, limit', offset' := P.PivotDescending(bsi, Union(bsi), 0, limit, offset);
    pairs := Collect(calls);
    ghost var ranking := P.Listing(bsi, Union(bsi), 0);
    P.ListingOk(bsi, Union(bsi), 0);
    ListingIsRanking(storages, shard, filter, bsi, ranking);
  }

  lemma FilledPasses(f: Option<Filter>, filterRow: Option<seq<Item>>, shard: nat, filter: Option<set<nat>>)
    requires (filterRow.Some? <==> filter.Some?) && (f.Some? <==> filter.Some?)
    requires f.Some? ==> |f.value| == CONTAINERS_PER_ROW && Holds(filterRow.value, filter.value)
    requires f.Some? ==> forall key: nat, v: nat ::
               Passes(Some(f.value), key, v) <==> HasBit(filterRow.value, shard * CONTAINERS_PER_ROW + key % CONTAINERS_PER_ROW, v)
    ensures PassesRow(f, shard, filter)
  {
    hide HasBit, Passes;
  }
}
