// Counting the bits of every row of a shard into bit-sliced data (bsi.go,
// executor.go).
module TopK {
  import opened Bits
  import opened ContainerMerge
  import opened Options
  import opened RowBuilders

  // ----- The bits of a count -----

  function TrailingZeros(v: nat): nat
    requires v > 0
  {
    if v % 2 == 1 then 0 else 1 + TrailingZeros(v / 2)
  }

  /** The lowest set bit, and what is left without it. */
  lemma {:induction false} LowestBit(v: nat)
    requires v > 0
    ensures Bit(v, TrailingZeros(v)) == 1 && Pow2(TrailingZeros(v)) <= v
    ensures forall j: nat :: Bit(v - Pow2(TrailingZeros(v)), j) == if j == TrailingZeros(v) then 0 else Bit(v, j)
  {
    var i := TrailingZeros(v);
    if v % 2 == 1 {
      assert (v - 1) / 2 == v / 2;
      forall j: nat ensures Bit(v - 1, j) == if j == 0 then 0 else Bit(v, j) {
      }
    } else {
      LowestBit(v / 2);
      var w := v - Pow2(i);
      assert w / 2 == v / 2 - Pow2(i - 1) && w % 2 == 0;
      forall j: nat ensures Bit(w, j) == if j == i then 0 else Bit(v, j) {
        assert j > 0 ==> Bit(w, j) == Bit(w / 2, j - 1) && Bit(v, j) == Bit(v / 2, j - 1);
      }
    }
  }

  // ----- The builder of all rows -----

  class BsiBuilder {
    var builders: seq<RowBuilder>

    ghost predicate Valid()
      reads this, builders
    {
      && (forall i, j :: 0 <= i < j < |builders| ==> builders[i] != builders[j])
      && forall i :: 0 <= i < |builders| ==> builders[i].Valid()
    }

    /** Whether column c has bit i. */
    ghost predicate Has(i: nat, c: nat)
      requires Valid()
      reads this, builders
    {
      i < |builders| && builders[i].Has(c)
    }

    constructor ()
      ensures Valid() && builders == [] && forall i: nat, c: nat :: !Has(i, c)
    {
      builders := [];
    }

    /** Makes room for bit i. */
    method Extend(i: nat)
      requires Valid()
      modifies this
      ensures Valid() && |builders| > i && old(builders) <= builders
      ensures forall k :: |old(builders)| <= k < |builders| ==> fresh(builders[k])
      ensures forall k: nat, c: nat :: Has(k, c) <==> old(Has(k, c))
    {
      while |builders| <= i
        invariant Valid() && old(builders) <= builders
        invariant forall k :: |old(builders)| <= k < |builders| ==> fresh(builders[k])
        invariant forall k: nat, c: nat :: Has(k, c) <==> old(Has(k, c))
        decreases i + 1 - |builders|
      {
        var b := new RowBuilder();
        builders := builders + [b];
      }
    }

    /** Adds a column to the row of bit i. */
    method AddTo(i: nat, col: nat)
      requires Valid() && forall c: nat :: Has(i, c) ==> c < col
      modifies this, builders
      ensures Valid() && forall k :: 0 <= k < |builders| ==> builders[k] in old(builders) || fresh(builders[k])
      ensures forall k: nat, c: nat :: Has(k, c) <==> old(Has(k, c)) || (k == i && c == col)
    {
      hide RowBuilder.Valid, RowBuilder.Has;
      Extend(i);
      assert forall c: nat :: builders[i].Has(c) ==> Has(i, c);
      builders[i].Ascends(col);
      builders[i].Add(col);
    }

    /** Adds a column to the rows of its value's bits; columns must ascend. */
    method Insert(col: nat, val0: nat)
      requires Valid() && forall i: nat, c: nat :: Has(i, c) ==> c < col
      modifies this, builders
      ensures Valid() && forall k :: 0 <= k < |builders| ==> builders[k] in old(builders) || fresh(builders[k])
      ensures forall i: nat, c: nat :: Has(i, c) <==> old(Has(i, c)) || (c == col && Bit(val0, i) == 1)
    {
      hide Bit, TrailingZeros, Pow2, BsiBuilder.Valid, BsiBuilder.Has;
      var val: nat := val0;
      while val != 0
        invariant Valid() && forall k :: 0 <= k < |builders| ==> builders[k] in old(builders) || fresh(builders[k])
        invariant forall i: nat :: Bit(val, i) == 1 ==> Bit(val0, i) == 1
        invariant forall i: nat, c: nat :: Has(i, c) <==> old(Has(i, c)) || (c == col && Bit(val0, i) == 1 && Bit(val, i) == 0)
        decreases val
      {
        var i := TrailingZeros(val);
        LowestBit(val);
        val := val - Pow2(i);
        AddTo(i, col);
      }
      forall i: nat ensures Bit(0, i) == 0 {
        ZeroBit(i);
      }
    }

    /** The finished rows, one for each bit; resets the builder. */
    method Build() returns (rows: seq<map<nat, Container>>)
      requires Valid()
      modifies this, builders
      ensures builders == [] && forall i :: 0 <= i < |rows| ==> ValidContainers(rows[i])
      ensures forall i: nat, c: nat :: old(Has(i, c)) <==> i < |rows| && InBitmap(rows[i], c)
    {
      hide InBitmap, ValidContainers, RowBuilder.Valid, RowBuilder.Has;
      var all := builders;
      builders := [];
      rows := [];
      for i := 0 to |all|
        invariant |rows| == i && builders == [] && forall k :: 0 <= k < i ==> ValidContainers(rows[k])
        invariant forall k :: 0 <= k < i ==> forall c: nat :: InBitmap(rows[k], c) <==> old(all[k].Has(c))
        invariant forall k :: i <= k < |all| ==> all[k].Valid() && forall c: nat :: all[k].Has(c) <==> old(all[k].Has(c))
      {
        var row := all[i].Build();
        rows := rows + [row];
      }
    }
  }

  // ----- What bit-sliced rows say -----

  /** The number a column has in bit-sliced rows. */
  function Decode(rows: seq<map<nat, Container>>, c: nat): nat {
    if rows == [] then 0
    else Decode(rows[..|rows| - 1], c) + (if InBitmap(rows[|rows| - 1], c) then Pow2(|rows| - 1) else 0)
  }

  lemma {:induction false} DecodeLow(rows: seq<map<nat, Container>>, c: nat, v: nat)
    requires forall i :: 0 <= i < |rows| ==> (InBitmap(rows[i], c) <==> Bit(v, i) == 1)
    ensures Decode(rows, c) == Low(v, |rows|)
  {
    if rows != [] {
      DecodeLow(rows[..|rows| - 1], c, v);
      LowBit(v, |rows| - 1);
    }
  }

  lemma SomeHighBit(v: nat, n: nat)
    requires Shr(v, n) > 0
    ensures exists i: nat :: n <= i && Bit(v, i) == 1
  {
    var w := Shr(v, n);
    LowestBit(w);
    ShrShr(v, n, TrailingZeros(w));
    assert Bit(v, n + TrailingZeros(w)) == 1;
  }

  lemma NoHighBits(v: nat, n: nat)
    requires forall i: nat :: n <= i ==> Bit(v, i) == 0
    ensures Low(v, n) == v
  {
    hide Bit, Shr;
    LowBelow(v, n);
    if Shr(v, n) > 0 {
      SomeHighBit(v, n);
    }
  }

  lemma DecodeIs(rows: seq<map<nat, Container>>, c: nat, v: nat)
    requires forall i: nat :: Bit(v, i) == 1 <==> i < |rows| && InBitmap(rows[i], c)
    ensures Decode(rows, c) == v
  {
    hide Bit;
    DecodeLow(rows, c, v);
    forall i: nat | |rows| <= i ensures Bit(v, i) == 0 {
    }
    NoHighBits(v, |rows|);
  }

  // ----- Counting -----

  const CONTAINERS_PER_ROW: nat := 16
  const NO_ROW: nat := 0xFFFF_FFFF_FFFF_FFFF

  /** A filter has a set of columns, or none, for each container of a row. */
  type Filter = seq<Option<set<nat>>>

  /** The bits of a container that a filter selects. */
  function Selected(item: Item, filter: Option<Filter>): set<nat>
    requires filter.Some? ==> |filter.value| == CONTAINERS_PER_ROW
  {
    if filter.None? then item.bits
    else
      match filter.value[item.key % CONTAINERS_PER_ROW]
      case None => {}
      case Some(fc) => item.bits * fc
  }

  /** How many selected bits the containers of a row have. */
  function Total(items: seq<Item>, filter: Option<Filter>, row: nat): nat
    requires filter.Some? ==> |filter.value| == CONTAINERS_PER_ROW
  {
    if items == [] then 0
    else
      var last := items[|items| - 1];
      Total(items[..|items| - 1], filter, row) + (if last.key / CONTAINERS_PER_ROW == row then |Selected(last, filter)| else 0)
  }

  lemma TotalNext(items: seq<Item>, filter: Option<Filter>, k: nat, row: nat)
    requires k < |items| && (filter.Some? ==> |filter.value| == CONTAINERS_PER_ROW)
    ensures Total(items[..k + 1], filter, row) ==
              Total(items[..k], filter, row) + (if items[k].key / CONTAINERS_PER_ROW == row then |Selected(items[k], filter)| else 0)
  {
    assert items[..k + 1][..k] == items[..k] && items[..k + 1][k] == items[k];
  }

  lemma {:induction false} NothingAhead(items: seq<Item>, filter: Option<Filter>, k: nat, row: nat)
    requires k <= |items| && Ascending(items) && (filter.Some? ==> |filter.value| == CONTAINERS_PER_ROW)
    requires k > 0 ==> items[k - 1].key / CONTAINERS_PER_ROW < row
    ensures Total(items[..k], filter, row) == 0
  {
    if k > 0 {
      TotalNext(items, filter, k - 1, row);
      if k > 1 {
        assert items[k - 2].key < items[k - 1].key;
      }
      NothingAhead(items, filter, k - 1, row);
    }
  }

  /** The row of the last container seen; none before the first. */
  ghost predicate AtRow(items: seq<Item>, k: nat, row: nat)
    requires k <= |items|
  {
    row == if k == 0 then NO_ROW else items[k - 1].key / CONTAINERS_PER_ROW
  }

  /** Only rows before the current one have been counted. */
  lemma CountedBefore(items: seq<Item>, filter: Option<Filter>, k: nat, row: nat, c: nat, i: nat)
    requires k <= |items| && Ascending(items) && (filter.Some? ==> |filter.value| == CONTAINERS_PER_ROW)
    requires AtRow(items, k, row) && c != row && Bit(Total(items[..k], filter, c), i) == 1
    ensures c < row
  {
    hide Bit;
    if k == 0 || c > row {
      ZeroBit(i);
      NothingAhead(items, filter, k, c);
    }
  }

  lemma NextRow(items: seq<Item>, k: nat, row: nat)
    requires k < |items| && Ascending(items) && AtRow(items, k, row) && items[k].key <= NO_ROW
    ensures k > 0 ==> row <= items[k].key / CONTAINERS_PER_ROW
    ensures items[k].key / CONTAINERS_PER_ROW != NO_ROW
  {
    if k > 0 {
      assert items[k - 1].key < items[k].key;
    }
  }

  /** Counts the selected bits of every row, given containers in key order. */
  method DoTopK(items: seq<Item>, filter: Option<Filter>) returns (rows: seq<map<nat, Container>>)
    requires Ascending(items) && forall k :: 0 <= k < |items| ==> items[k].key <= NO_ROW
    requires filter.Some? ==> |filter.value| == CONTAINERS_PER_ROW
    ensures forall i :: 0 <= i < |rows| ==> ValidContainers(rows[i])
    ensures forall r: nat :: Decode(rows, r) == Total(items, filter, r)
  {
    hide Bit, Total, Selected, Decode, Ascending, InBitmap, ValidContainers, RowBuilder.Valid, RowBuilder.Has;
    var row: nat, count: nat := NO_ROW, 0;
    var builder := new BsiBuilder();
    NothingYet(items, filter);
    var k := 0;
    while k < |items|
      invariant 0 <= k <= |items| && AtRow(items, k, row) && count == Total(items[..k], filter, row)
      invariant builder.Valid() && fresh(builder) && forall j :: 0 <= j < |builder.builders| ==> fresh(builder.builders[j])
      invariant forall i: nat, c: nat :: builder.Has(i, c) <==> c != row && Bit(Total(items[..k], filter, c), i) == 1
    {
      var item := items[k];
      var keyrow, subkey := item.key / CONTAINERS_PER_ROW, item.key % CONTAINERS_PER_ROW;
      NextRow(items, k, row);
      if keyrow != row {
        forall i: nat, c: nat | builder.Has(i, c) ensures c < row {
          CountedBefore(items, filter, k, row, c, i);
        }
        builder.Insert(row, count);
        NothingAhead(items, filter, k, keyrow);
        forall i: nat ensures Bit(0, i) == 0 {
          ZeroBit(i);
        }
        row, count := keyrow, 0;
      }
      forall c: nat ensures Total(items[..k + 1], filter, c) == Total(items[..k], filter, c) + (if c == row then |Selected(item, filter)| else 0) {
        TotalNext(items, filter, k, c);
      }
      var n := SelectedCount(item, filter);
      count := count + n;
      k := k + 1;
    }
    assert items[..k] == items;
    forall i: nat, c: nat | builder.Has(i, c) ensures c < row {
      CountedBefore(items, filter, k, row, c, i);
    }
    builder.Insert(row, count);
    rows := builder.Build();
    forall r: nat ensures Decode(rows, r) == Total(items, filter, r) {
      DecodeIs(rows, r, Total(items, filter, r));
    }
  }

  method SelectedCount(item: Item, filter: Option<Filter>) returns (n: nat)
    requires filter.Some? ==> |filter.value| == CONTAINERS_PER_ROW
    ensures n == |Selected(item, filter)|
  {
    if filter.Some? {
      var fc := filter.value[item.key % CONTAINERS_PER_ROW];
      if fc.None? {
        return 0;
      }
      n := |item.bits * fc.value|;
    } else {
      n := |item.bits|;
    }
  }

  lemma NothingYet(items: seq<Item>, filter: Option<Filter>)
    requires filter.Some? ==> |filter.value| == CONTAINERS_PER_ROW
    ensures forall c: nat :: Total(items[..0], filter, c) == 0
    ensures forall i: nat :: Bit(0, i) == 0
  {
    forall i: nat ensures Bit(0, i) == 0 {
      ZeroBit(i);
    }
  }

  /** Fills a filter with the containers of a row of one shard. */
  method FillFilter(items: seq<Item>, ghost shard: nat) returns (f: Filter)
    requires Ascending(items) && OfShard(items, shard)
    ensures |f| == CONTAINERS_PER_ROW
    ensures forall key: nat, v: nat :: Passes(Some(f), key, v) <==> HasBit(items, shard * CONTAINERS_PER_ROW + key % CONTAINERS_PER_ROW, v)
  {
    f := seq(CONTAINERS_PER_ROW, i => None);
    for n := 0 to |items|
      invariant |f| == CONTAINERS_PER_ROW
      invariant forall i :: 0 <= i < CONTAINERS_PER_ROW ==> Filled(f[i], items[..n], shard * CONTAINERS_PER_ROW + i)
    {
      var key := items[n].key % CONTAINERS_PER_ROW;
      assert items[n].key == shard * CONTAINERS_PER_ROW + key;
      ghost var before := f;
      f := f[key := Some(items[n].bits)];
      forall i | 0 <= i < CONTAINERS_PER_ROW
        ensures Filled(f[i], items[..n + 1], shard * CONTAINERS_PER_ROW + i)
      {
        FilledNext(before[i], items, n, shard * CONTAINERS_PER_ROW + i);
      }
    }
    assert items[..|items|] == items;
    forall key: nat, v: nat
      ensures Passes(Some(f), key, v) <==> HasBit(items, shard * CONTAINERS_PER_ROW + key % CONTAINERS_PER_ROW, v)
    {
      assert Filled(f[key % CONTAINERS_PER_ROW], items, shard * CONTAINERS_PER_ROW + key % CONTAINERS_PER_ROW);
    }
  }

  /** A slot of the filter holds the container of its key, if there is one. */
  ghost predicate Filled(slot: Option<set<nat>>, items: seq<Item>, key: nat) {
    forall v: nat :: HasBit(items, key, v) <==> v in BitsIn(slot)
  }

  function BitsIn(slot: Option<set<nat>>): set<nat> {
    if slot.Some? then slot.value else {}
  }

  lemma FilledNext(slot: Option<set<nat>>, items: seq<Item>, n: nat, key: nat)
    requires n < |items| && Ascending(items) && Filled(slot, items[..n], key)
    ensures Filled(if items[n].key == key then Some(items[n].bits) else slot, items[..n + 1], key)
  {
    FilledOneMore(items, n);
    if items[n].key != key {
      forall v: nat ensures HasBit(items[..n + 1], key, v) <==> v in BitsIn(slot) {
        assert HasBit(items[..n + 1], key, v) <==> HasBit(items[..n], key, v);
      }
      assert Filled(slot, items[..n + 1], key);
    }
  }

  /** All containers belong to one shard. */
  ghost predicate OfShard(items: seq<Item>, shard: nat) {
    forall j :: 0 <= j < |items| ==> items[j].key / CONTAINERS_PER_ROW == shard
  }

  lemma FilledOneMore(items: seq<Item>, n: nat)
    requires n < |items| && Ascending(items)
    ensures forall k: nat, v: nat :: HasBit(items[..n + 1], k, v) <==> HasBit(items[..n], k, v) || (k == items[n].key && v in items[n].bits)
    ensures forall v: nat :: !HasBit(items[..n], items[n].key, v)
  {
    assert items[..n + 1] == items[..n] + [items[n]];
    forall k: nat, v: nat
      ensures HasBit(items[..n + 1], k, v) <==> HasBit(items[..n], k, v) || (k == items[n].key && v in items[n].bits)
    {
      HasMore(items[..n], items[n], k, v);
    }
  }

  // ----- Counting over several fragments -----

  ghost predicate Passes(filter: Option<Filter>, key: nat, v: nat)
    requires filter.Some? ==> |filter.value| == CONTAINERS_PER_ROW
  {
    filter.Some? ==> filter.value[key % CONTAINERS_PER_ROW].Some? && v in filter.value[key % CONTAINERS_PER_ROW].value
  }

  ghost function Paired(key: nat, bits: set<nat>): set<(nat, nat)> {
    set v | v in bits :: (key, v)
  }

  lemma {:induction false} PairedSize(key: nat, bits: set<nat>)
    ensures |Paired(key, bits)| == |bits|
  {
    if bits != {} {
      var v :| v in bits;
      PairedSize(key, bits - {v});
      assert Paired(key, bits) == Paired(key, bits - {v}) + {(key, v)};
    }
  }

  /** The selected bits of a row: container keys and bits in them. */
  ghost function Cells(items: seq<Item>, filter: Option<Filter>, row: nat): set<(nat, nat)>
    requires filter.Some? ==> |filter.value| == CONTAINERS_PER_ROW
  {
    if items == [] then {}
    else
      var last := items[|items| - 1];
      Cells(items[..|items| - 1], filter, row) + (if last.key / CONTAINERS_PER_ROW == row then Paired(last.key, Selected(last, filter)) else {})
  }

  lemma {:induction false} CellsAre(items: seq<Item>, filter: Option<Filter>, row: nat, k: nat, v: nat)
    requires filter.Some? ==> |filter.value| == CONTAINERS_PER_ROW
    ensures (k, v) in Cells(items, filter, row) <==> k / CONTAINERS_PER_ROW == row && HasBit(items, k, v) && Passes(filter, k, v)
  {
    if items != [] {
      var n := |items| - 1;
      CellsAre(items[..n], filter, row, k, v);
      HasMore(items[..n], items[n], k, v);
      assert items == items[..n] + [items[n]];
    }
  }

  /** A row's total is the number of its selected bits. */
  lemma {:induction false} TotalIsSize(items: seq<Item>, filter: Option<Filter>, row: nat)
    requires Ascending(items) && (filter.Some? ==> |filter.value| == CONTAINERS_PER_ROW)
    ensures Total(items, filter, row) == |Cells(items, filter, row)|
  {
    if items != [] {
      var n := |items| - 1;
      var last := items[n];
      TotalIsSize(items[..n], filter, row);
      PairedSize(last.key, Selected(last, filter));
      var before, more := Cells(items[..n], filter, row), Paired(last.key, Selected(last, filter));
      forall p | p in more ensures p !in before {
        CellsAre(items[..n], filter, row, p.0, p.1);
      }
      assert before !! more;
    }
  }

  /** For every row, the number of its columns that any of the fragments has
      and the filter selects. */
  method TopKFragments(fragments: seq<seq<Item>>, filter: Option<Filter>) returns (rows: seq<map<nat, Container>>)
    requires AllAscending(fragments) && (filter.Some? ==> |filter.value| == CONTAINERS_PER_ROW)
    requires forall k: nat :: Has(fragments, k) ==> k <= NO_ROW
    ensures forall i :: 0 <= i < |rows| ==> ValidContainers(rows[i])
    ensures forall r: nat, cells: set<(nat, nat)> ::
              (forall k: nat, v: nat :: (k, v) in cells <==> k / CONTAINERS_PER_ROW == r && In(fragments, k, v) && Passes(filter, k, v))
              ==> Decode(rows, r) == |cells|
  {
    var items: seq<Item>;
    if |fragments| == 1 {
      items := fragments[0];
      OnlyOne(fragments);
    } else {
      items := MergeAll(fragments);
    }
    KeysBounded(fragments, items);
    rows := DoTopK(items, filter);
    forall r: nat, cells: set<(nat, nat)> |
      forall k: nat, v: nat :: (k, v) in cells <==> k / CONTAINERS_PER_ROW == r && In(fragments, k, v) && Passes(filter, k, v)
      ensures Decode(rows, r) == |cells|
    {
      CellsOfFragments(fragments, items, filter, r, cells);
    }
  }

  lemma OnlyOne(fragments: seq<seq<Item>>)
    requires |fragments| == 1
    ensures forall k: nat :: HasKey(fragments[0], k) <==> Has(fragments, k)
    ensures forall k: nat, v: nat :: HasBit(fragments[0], k, v) <==> In(fragments, k, v)
  {
  }

  lemma KeysBounded(fragments: seq<seq<Item>>, items: seq<Item>)
    requires forall k: nat :: HasKey(items, k) <==> Has(fragments, k)
    requires forall k: nat :: Has(fragments, k) ==> k <= NO_ROW
    ensures forall j :: 0 <= j < |items| ==> items[j].key <= NO_ROW
  {
    forall j | 0 <= j < |items| ensures items[j].key <= NO_ROW {
      assert HasKey(items, items[j].key);
    }
  }

  lemma CellsOfFragments(fragments: seq<seq<Item>>, items: seq<Item>, filter: Option<Filter>, r: nat,
                         cells: set<(nat, nat)>)
    requires Ascending(items) && (filter.Some? ==> |filter.value| == CONTAINERS_PER_ROW)
    requires forall k: nat, v: nat :: HasBit(items, k, v) <==> In(fragments, k, v)
    requires forall k: nat, v: nat :: (k, v) in cells <==> k / CONTAINERS_PER_ROW == r && In(fragments, k, v) && Passes(filter, k, v)
    ensures Total(items, filter, r) == |cells|
  {
    hide HasBit, In, Passes, Total;
    TotalIsSize(items, filter, r);
    forall p: (nat, nat) ensures p in cells <==> p in Cells(items, filter, r) {
      CellsAre(items, filter, r, p.0, p.1);
    }
    assert cells == Cells(items, filter, r);
  }
}
