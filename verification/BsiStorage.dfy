// Writing bit-sliced values (fragment.go): one value at a time, and in bulk
// through buffers that collect each row's bits from both ends.
module BsiStorage {
  import opened Bits
  import opened BsiData

  function Offset(col: nat): (o: nat)
    ensures o < SHARD_WIDTH
  {
    col % SHARD_WIDTH
  }

  function RowOf(p: nat): nat {
    p / SHARD_WIDTH
  }

  lemma PosParts(row: nat, col: nat)
    ensures RowOf(Pos(row, col)) == row && Offset(Pos(row, col)) == Offset(col) && Pos(row, Offset(col)) == Pos(row, col)
  {
  }

  lemma PartsPos(p: nat)
    ensures Pos(RowOf(p), Offset(p)) == p
  {
  }

  // ----- What a write leaves behind -----

  /** Whether a row has its bit set for a column that was given value v. */
  predicate Target(row: nat, v: int, live: bool, signed: bool) {
    if row == EXISTS_ROW then live
    else if row == SIGN_ROW then signed && v < 0
    else Bit(Abs(v), row - OFFSET_ROW) == 1
  }

  ghost predicate Offsets(k: map<nat, int>) {
    forall o :: o in k ==> o < SHARD_WIDTH
  }

  /** The positions set by giving columns (by offset) these values. */
  ghost function Hits(k: map<nat, int>, rows: nat, live: bool, signed: bool): (r: set<nat>)
    requires Offsets(k)
    ensures forall p :: p in r <==> Offset(p) in k && RowOf(p) < rows && Target(RowOf(p), k[Offset(p)], live, signed)
  {
    var hit := set o, row | o in k && 0 <= row < rows && Target(row, k[o], live, signed) :: Pos(row, o);
    forall p ensures p in hit <==> Offset(p) in k && RowOf(p) < rows && Target(RowOf(p), k[Offset(p)], live, signed) {
      hide Target;
      PartsPos(p);
      if p in hit {
        var o, row :| o in k && 0 <= row < rows && Target(row, k[o], live, signed) && Pos(row, o) == p;
        PosParts(row, o);
      }
    }
    hit
  }

  /** Storage after giving columns (by offset) new values in the first rows. */
  ghost function Overlay(s: set<nat>, k: map<nat, int>, rows: nat, live: bool, signed: bool): (r: set<nat>)
    requires Offsets(k)
    ensures forall p :: p in r <==> OverlayAt(s, k, rows, live, signed, p)
  {
    (set p | p in s && !(Offset(p) in k && RowOf(p) < rows)) + Hits(k, rows, live, signed)
  }

  ghost predicate OverlayAt(s: set<nat>, k: map<nat, int>, rows: nat, live: bool, signed: bool, p: nat) {
    if Offset(p) in k && RowOf(p) < rows then Target(RowOf(p), k[Offset(p)], live, signed) else p in s
  }

  /** Giving each column its value, one after the other. */
  ghost function InOrder(s: set<nat>, cols: seq<nat>, vals: seq<int>, n: nat, rows: nat, live: bool,
                         signed: bool): set<nat>
    requires n <= |cols| == |vals|
  {
    if n == 0 then s
    else Overlay(InOrder(s, cols, vals, n - 1, rows, live, signed), map[Offset(cols[n - 1]) := vals[n - 1]], rows, live, signed)
  }

  /** The last value given to each offset by the pairs from n on. */
  ghost function LastFrom(cols: seq<nat>, vals: seq<int>, n: nat): (k: map<nat, int>)
    requires n <= |cols| == |vals|
    ensures Offsets(k)
    decreases |cols| - n
  {
    if n == |cols| then map[]
    else
      var k := LastFrom(cols, vals, n + 1);
      if Offset(cols[n]) in k then k else k[Offset(cols[n]) := vals[n]]
  }

  lemma OverlayTwice(s: set<nat>, m: map<nat, int>, k: map<nat, int>, rows: nat, live: bool, signed: bool)
    requires Offsets(m) && Offsets(k)
    ensures Overlay(Overlay(s, m, rows, live, signed), k, rows, live, signed) == Overlay(s, m + k, rows, live, signed)
  {
    hide Target, Offset, RowOf;
    var twice := Overlay(Overlay(s, m, rows, live, signed), k, rows, live, signed);
    var once := Overlay(s, m + k, rows, live, signed);
    forall p ensures p in twice <==> p in once {
    }
  }

  lemma OverlayNothing(s: set<nat>, rows: nat, live: bool, signed: bool)
    ensures Overlay(s, map[], rows, live, signed) == s
  {
    forall p ensures p in Overlay(s, map[], rows, live, signed) <==> p in s {
    }
  }

  lemma LastStep(cols: seq<nat>, vals: seq<int>, n: nat)
    requires n < |cols| == |vals|
    ensures map[Offset(cols[n]) := vals[n]] + LastFrom(cols, vals, n + 1) == LastFrom(cols, vals, n)
  {
  }

  /** Writing all pairs in order leaves the last value of each column. */
  lemma {:induction false} InOrderIsLast(s: set<nat>, cols: seq<nat>, vals: seq<int>, n: nat, rows: nat, live: bool,
                                         signed: bool)
    requires n <= |cols| == |vals|
    ensures Overlay(InOrder(s, cols, vals, n, rows, live, signed), LastFrom(cols, vals, n), rows, live, signed)
         == Overlay(s, LastFrom(cols, vals, 0), rows, live, signed)
  {
    hide Overlay, OverlayAt, Offset, LastFrom;
    if n > 0 {
      InOrderIsLast(s, cols, vals, n - 1, rows, live, signed);
      LastStep(cols, vals, n - 1);
      OverlayTwice(InOrder(s, cols, vals, n - 1, rows, live, signed), map[Offset(cols[n - 1]) := vals[n - 1]],
        LastFrom(cols, vals, n), rows, live, signed);
    }
  }

  // ----- One transaction's storage, by shard -----

  class Tx {
    var data: map<nat, set<nat>>

    function Storage(shard: nat): set<nat>
      reads this
    {
      if shard in data then data[shard] else {}
    }

    method Contains(shard: nat, p: nat) returns (b: bool)
      ensures b <==> p in Storage(shard)
    {
      b := shard in data && p in data[shard];
    }

    method Add(shard: nat, a: set<nat>) returns (changed: bool)
      modifies this
      ensures data == old(data)[shard := old(Storage(shard)) + a]
      ensures changed <==> !(a <= old(Storage(shard)))
    {
      changed := !(a <= Storage(shard));
      data := data[shard := Storage(shard) + a];
    }

    method Remove(shard: nat, a: set<nat>) returns (changed: bool)
      modifies this
      ensures data == old(data)[shard := old(Storage(shard)) - a]
      ensures changed <==> a * old(Storage(shard)) != {}
    {
      changed := a * Storage(shard) != {};
      data := data[shard := Storage(shard) - a];
    }
  }

  /** Writes one bit; tells whether that changed anything. */
  method PutBit(tx: Tx, shard: nat, p: nat, on: bool) returns (changed: bool)
    modifies tx
    ensures tx.data == old(tx.data)[shard := if on then old(tx.Storage(shard)) + {p} else old(tx.Storage(shard)) - {p}]
    ensures changed <==> (p in old(tx.Storage(shard))) != on
  {
    if on {
      changed := tx.Add(shard, {p});
    } else {
      changed := tx.Remove(shard, {p});
      assert changed <==> p in {p} * old(tx.Storage(shard));
    }
  }

  /** The rows a write has done so far, and whether it changed anything yet. */
  ghost predicate Partly(before: set<nat>, after: set<nat>, col: nat, v: int, done: set<nat>, live: bool,
                         changed: bool) {
    && (forall p :: p in after <==> PartlyAt(before, col, v, done, live, p))
    && (changed <==> before != after)
  }

  ghost predicate PartlyAt(before: set<nat>, col: nat, v: int, done: set<nat>, live: bool, p: nat) {
    if Offset(p) == Offset(col) && RowOf(p) in done then Target(RowOf(p), v, live, live) else p in before
  }

  lemma PartlyMore(before: set<nat>, after: set<nat>, after': set<nat>, col: nat, v: int, done: set<nat>, row: nat,
                   live: bool, changed: bool, c: bool)
    requires Partly(before, after, col, v, done, live, changed) && row !in done
    requires after' == if Target(row, v, live, live) then after + {Pos(row, col)} else after - {Pos(row, col)}
    requires c <==> (Pos(row, col) in after) != Target(row, v, live, live)
    ensures Partly(before, after', col, v, done + {row}, live, changed || c)
  {
    hide Target;
    var q := Pos(row, col);
    PosParts(row, col);
    assert q in after <==> q in before;
    assert q in after' <==> Target(row, v, live, live);
    forall p ensures p in after' <==> PartlyAt(before, col, v, done + {row}, live, p) {
      if Offset(p) == Offset(col) && RowOf(p) == row {
        SamePos(p, row, col);
      } else {
        assert p != q;
      }
    }
    if after != before {
      var p :| (p in after) != (p in before);
      assert (p in after') != (p in before);
    }
  }

  lemma SamePos(p: nat, row: nat, col: nat)
    requires Offset(p) == Offset(col) && RowOf(p) == row
    ensures p == Pos(row, col)
  {
    PartsPos(p);
    PosParts(row, col);
  }

  lemma PartlyStart(before: set<nat>, col: nat, v: int, live: bool)
    ensures Partly(before, before, col, v, {}, live, false)
  {
  }

  lemma PartlyDone(before: set<nat>, after: set<nat>, col: nat, v: int, done: set<nat>, rows: nat, live: bool,
                   changed: bool)
    requires Partly(before, after, col, v, done, live, changed)
    requires forall r: nat :: r in done <==> r < rows
    ensures after == Overlay(before, map[Offset(col) := v], rows, live, live)
    ensures changed <==> before != after
  {
    hide Target, Offset, RowOf;
    var once := Overlay(before, map[Offset(col) := v], rows, live, live);
    forall p ensures p in after <==> p in once {
    }
  }

  method PutRow(tx: Tx, shard: nat, col: nat, row: nat, on: bool, changed0: bool,
                ghost before: set<nat>, ghost v: int, ghost done: set<nat>, ghost live: bool) returns (changed: bool)
    requires Partly(before, tx.Storage(shard), col, v, done, live, changed0)
    requires row !in done && (on <==> Target(row, v, live, live))
    modifies tx
    ensures Partly(before, tx.Storage(shard), col, v, done + {row}, live, changed)
    ensures forall s :: s != shard ==> tx.Storage(s) == old(tx.Storage(s))
  {
    hide Target, Partly, Pos;
    var c := PutBit(tx, shard, Pos(row, col), on);
    PartlyMore(before, old(tx.Storage(shard)), tx.Storage(shard), col, v, done, row, live, changed0, c);
    changed := changed0 || c;
  }

  /** Writes a column's value bits, and its exists and sign rows; clearing writes
      the value bits too, but unsets both other rows.  A column of another shard
      has no position here, so the first row already ends the call. */
  method SetValueBase(tx: Tx, shard: nat, col: nat, d: nat, value: int, clear: bool) returns (changed: bool, ok: bool)
    modifies tx
    ensures ok <==> col / SHARD_WIDTH == shard
    ensures ok ==> tx.Storage(shard) == Overlay(old(tx.Storage(shard)), map[Offset(col) := value], d + 2, !clear, !clear)
    ensures !ok ==> tx.Storage(shard) == old(tx.Storage(shard))
    ensures forall s :: s != shard ==> tx.Storage(s) == old(tx.Storage(s))
    ensures changed <==> tx.Storage(shard) != old(tx.Storage(shard))
  {
    hide Target, Overlay, Offset, RowOf, Partly;
    ok := col / SHARD_WIDTH == shard;
    if !ok {
      return false, false;
    }
    ghost var before := tx.Storage(shard);
    var uvalue := Abs(value);
    changed := false;
    ghost var done: set<nat> := {};
    PartlyStart(before, col, value, !clear);
    for i := 0 to d
      invariant Partly(before, tx.Storage(shard), col, value, done, !clear, changed)
      invariant forall r: nat :: r in done <==> 2 <= r < i + 2
      invariant forall s :: s != shard ==> tx.Storage(s) == old(tx.Storage(s))
    {
      BitTarget(value, i, !clear);
      changed := PutRow(tx, shard, col, OFFSET_ROW + i, Bit(uvalue, i) == 1, changed, before, value, done, !clear);
      done := done + {OFFSET_ROW + i};
    }
    HeadTargets(value, !clear);
    changed := PutRow(tx, shard, col, EXISTS_ROW, !clear, changed, before, value, done, !clear);
    done := done + {EXISTS_ROW};
    changed := PutRow(tx, shard, col, SIGN_ROW, !(value >= 0 || clear), changed, before, value, done, !clear);
    done := done + {SIGN_ROW};
    PartlyDone(before, tx.Storage(shard), col, value, done, d + 2, !clear, changed);
  }

  lemma BitTarget(v: int, i: nat, live: bool)
    ensures Target(OFFSET_ROW + i, v, live, live) <==> Bit(Abs(v), i) == 1
  {
  }

  lemma HeadTargets(v: int, live: bool)
    ensures Target(EXISTS_ROW, v, live, live) <==> live
    ensures Target(SIGN_ROW, v, live, live) <==> live && v < 0
  {
  }

  // ----- The layout -----

  lemma BitIsDigit(v: nat, i: nat)
    ensures Bit(v, i) == v / Pow2(i) % 2
  {
    ShrIsDiv(v, i);
  }

  /** Where a write puts what: row 0 says that the column exists, row 1 that it is
      negative, row 2 + i is bit i of the magnitude, and a row is 2^20 positions. */
  lemma WriteLayout(s: set<nat>, col: nat, value: int, d: nat, clear: bool, row: nat, o: nat)
    requires o < 0x10_0000
    ensures row * 0x10_0000 + o in Overlay(s, map[Offset(col) := value], d + 2, !clear, !clear) <==>
            if o != col % 0x10_0000 || row >= d + 2 then row * 0x10_0000 + o in s
            else if row == 0 then !clear
            else if row == 1 then !clear && value < 0
            else (if value < 0 then -value else value) / Pow2(row - 2) % 2 == 1
  {
    var p := row * 0x10_0000 + o;
    assert Offset(p) == o && RowOf(p) == row;
    if row >= 2 {
      BitIsDigit(Abs(value), row - 2);
    }
  }
}
