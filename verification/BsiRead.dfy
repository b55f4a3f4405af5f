// Reading bit-sliced values back (fragment.go), and what writes do to them.
module BsiRead {
  import opened Bits
  import opened BsiData
  import opened BsiStorage
  import opened Options

  /** The value of a column, if it has one. */
  ghost function Read(f: Fragment, c: nat, d: nat): Option<int> {
    if c in f.Row(EXISTS_ROW) then Some(f.Val(c, d)) else None
  }

  /** No bit is stored at or above row OFFSET_ROW + d. */
  ghost predicate Shallow(s: set<nat>, d: nat) {
    forall p :: p in s ==> RowOf(p) < OFFSET_ROW + d
  }

  /** An existing column is not written as minus zero. */
  ghost predicate Sound(f: Fragment, c: nat, d: nat) {
    c in f.Row(EXISTS_ROW) && c in f.Row(SIGN_ROW) ==> f.Mag(c, d) != 0
  }

  lemma InRow(f: Fragment, row: nat, c: nat)
    ensures c in f.Row(row) <==> f.Owns(c) && Pos(row, c) in f.storage
  {
  }

  /** Reads a column's bits into a signed value; a column of another shard has no
      position here. */
  method Value(tx: Tx, shard: nat, col: nat, d: nat) returns (value: int, exists_: bool, ok: bool)
    ensures ok <==> col / SHARD_WIDTH == shard
    ensures ok ==> Read(Fragment(shard, tx.Storage(shard)), col, d) == if exists_ then Some(value) else None
    ensures !ok ==> value == 0 && !exists_
  {
    ok := col / SHARD_WIDTH == shard;
    if !ok {
      return 0, false, false;
    }
    ghost var f := Fragment(shard, tx.Storage(shard));
    var v := tx.Contains(shard, Pos(EXISTS_ROW, col));
    InRow(f, EXISTS_ROW, col);
    if !v {
      return 0, false, true;
    }
    exists_, value := true, 0;
    for i := 0 to d
      invariant value == f.Mag(col, i)
    {
      v := tx.Contains(shard, Pos(OFFSET_ROW + i, col));
      InRow(f, OFFSET_ROW + i, col);
      if v {
        value := value + Pow2(i);
      }
    }
    v := tx.Contains(shard, Pos(SIGN_ROW, col));
    InRow(f, SIGN_ROW, col);
    if v {
      value := -value;
    }
  }

  // ----- Columns that are not written -----

  lemma {:induction false} SameRowsSameMag(f: Fragment, f': Fragment, c: nat, d: nat)
    requires forall row: nat :: c in f.Row(row) <==> c in f'.Row(row)
    ensures f.Mag(c, d) == f'.Mag(c, d)
  {
    if d > 0 {
      SameRowsSameMag(f, f', c, d - 1);
    }
  }

  lemma OverlayRows(f: Fragment, k: map<nat, int>, rows: nat, live: bool, signed: bool, c: nat, row: nat)
    requires Offsets(k) && f.Owns(c)
    ensures c in Fragment(f.shard, Overlay(f.storage, k, rows, live, signed)).Row(row) <==>
              if Offset(c) in k && row < rows then Target(row, k[Offset(c)], live, signed) else c in f.Row(row)
  {
    hide Target;
    PosParts(row, c);
  }

  /** A write leaves every other column's value alone, at every depth. */
  lemma OthersUnchanged(f: Fragment, k: map<nat, int>, rows: nat, live: bool, signed: bool, c: nat, d: nat)
    requires Offsets(k) && f.Owns(c) && Offset(c) !in k
    ensures Read(Fragment(f.shard, Overlay(f.storage, k, rows, live, signed)), c, d) == Read(f, c, d)
    ensures Sound(Fragment(f.shard, Overlay(f.storage, k, rows, live, signed)), c, d) <==> Sound(f, c, d)
  {
    hide Overlay, Target;
    var f' := Fragment(f.shard, Overlay(f.storage, k, rows, live, signed));
    forall row: nat ensures c in f.Row(row) <==> c in f'.Row(row) {
      OverlayRows(f, k, rows, live, signed, c, row);
    }
    SameRowsSameMag(f, f', c, d);
  }

  // ----- Columns that are written -----

  lemma {:induction false} BitsGiveLow(f: Fragment, c: nat, v: nat, d: nat)
    requires forall i: nat :: i < d ==> (c in f.Row(OFFSET_ROW + i) <==> Bit(v, i) == 1)
    ensures f.Mag(c, d) == Low(v, d)
  {
    if d > 0 {
      BitsGiveLow(f, c, v, d - 1);
      assert c in f.Row(OFFSET_ROW + (d - 1)) <==> Bit(v, d - 1) == 1;
      LowBit(v, d - 1);
    }
  }

  lemma ShallowRow(f: Fragment, d: nat, c: nat, row: nat)
    requires Shallow(f.storage, d) && OFFSET_ROW + d <= row
    ensures c !in f.Row(row)
  {
    PosParts(row, c);
  }

  /** Raising the depth changes no value that was stored at a lower one. */
  lemma {:induction false} DeeperReadsSame(f: Fragment, c: nat, d: nat, d': nat)
    requires Shallow(f.storage, d) && d <= d'
    ensures Read(f, c, d') == Read(f, c, d) && f.Mag(c, d') == f.Mag(c, d)
    ensures Sound(f, c, d') <==> Sound(f, c, d)
    decreases d'
  {
    if d < d' {
      DeeperReadsSame(f, c, d, d' - 1);
      ShallowRow(f, d, c, OFFSET_ROW + d' - 1);
    }
  }

  /** A written column reads back as exactly the value given. */
  lemma WrittenReadsBack(f: Fragment, k: map<nat, int>, d: nat, c: nat)
    requires Offsets(k) && f.Owns(c) && Offset(c) in k && Abs(k[Offset(c)]) < Pow2(d)
    ensures var f' := Fragment(f.shard, Overlay(f.storage, k, d + 2, true, true));
            Read(f', c, d) == Some(k[Offset(c)]) && Sound(f', c, d)
  {
    hide Overlay;
    var f' := Fragment(f.shard, Overlay(f.storage, k, d + 2, true, true));
    var v := k[Offset(c)];
    forall i: nat | i < d ensures c in f'.Row(OFFSET_ROW + i) <==> Bit(Abs(v), i) == 1 {
      OverlayRows(f, k, d + 2, true, true, c, OFFSET_ROW + i);
    }
    BitsGiveLow(f', c, Abs(v), d);
    LowBelow(Abs(v), d);
    OverlayRows(f, k, d + 2, true, true, c, EXISTS_ROW);
    OverlayRows(f, k, d + 2, true, true, c, SIGN_ROW);
  }

  /** A cleared column has no value. */
  lemma ClearedReadsNone(f: Fragment, k: map<nat, int>, rows: nat, signed: bool, c: nat, d: nat)
    requires Offsets(k) && f.Owns(c) && Offset(c) in k && rows > 0
    ensures Read(Fragment(f.shard, Overlay(f.storage, k, rows, false, signed)), c, d) == None
    ensures Sound(Fragment(f.shard, Overlay(f.storage, k, rows, false, signed)), c, d)
  {
    OverlayRows(f, k, rows, false, signed, c, EXISTS_ROW);
  }

  lemma OverlayShallow(s: set<nat>, k: map<nat, int>, d: nat, live: bool, signed: bool)
    requires Offsets(k) && Shallow(s, d)
    ensures Shallow(Overlay(s, k, d + 2, live, signed), d)
  {
    hide Target;
  }

  // ----- A run of writes -----

  /** The last value paired with a column. */
  function LastOf(cols: seq<nat>, vals: seq<int>, c: nat): Option<int>
    requires |cols| == |vals|
  {
    if cols == [] then None
    else if cols[|cols| - 1] == c then Some(vals[|vals| - 1])
    else LastOf(cols[..|cols| - 1], vals[..|vals| - 1], c)
  }

  /** The value of the last pair of the column, if the column occurs. */
  lemma {:induction false} LastOfIs(cols: seq<nat>, vals: seq<int>, c: nat, i: nat)
    requires |cols| == |vals|
    ensures LastOf(cols, vals, c).None? <==> c !in cols
    ensures i < |cols| && cols[i] == c && (forall j :: i < j < |cols| ==> cols[j] != c) ==>
              LastOf(cols, vals, c) == Some(vals[i])
  {
    if cols != [] {
      var n := |cols| - 1;
      LastOfIs(cols[..n], vals[..n], c, i);
      assert cols == cols[..n] + [cols[n]];
    }
  }

  /** What a column holds after a write, or after none. */
  ghost function Now(written: Option<int>, before: Option<int>, live: bool): Option<int> {
    match written
    case None => before
    case Some(v) => if live then Some(v) else None
  }

  lemma OneWriteReads(f: Fragment, col: nat, v: int, d: nat, live: bool, signed: bool, c: nat)
    requires f.Owns(c) && f.Owns(col) && Shallow(f.storage, d) && Abs(v) < Pow2(d) && (live ==> signed)
    ensures var s := Overlay(f.storage, map[Offset(col) := v], d + 2, live, signed);
            && Shallow(s, d) && (Sound(f, c, d) ==> Sound(Fragment(f.shard, s), c, d))
            && Read(Fragment(f.shard, s), c, d) == Now(if c == col then Some(v) else None, Read(f, c, d), live)
  {
    hide Overlay, Shallow, Read, Sound;
    var k := map[Offset(col) := v];
    OverlayShallow(f.storage, k, d, live, signed);
    if c != col {
      DistinctOffsets(c, col);
      OthersUnchanged(f, k, d + 2, live, signed, c, d);
    } else if live {
      WrittenReadsBack(f, k, d, c);
    } else {
      ClearedReadsNone(f, k, d + 2, signed, c, d);
    }
  }

  lemma {:induction false} InOrderReads(f: Fragment, cols: seq<nat>, vals: seq<int>, n: nat, d: nat, live: bool, c: nat)
    requires n <= |cols| == |vals| && f.Owns(c) && Shallow(f.storage, d)
    requires forall i :: 0 <= i < |cols| ==> f.Owns(cols[i]) && Abs(vals[i]) < Pow2(d)
    ensures var s := InOrder(f.storage, cols, vals, n, d + 2, live, true);
            && Shallow(s, d) && (Sound(f, c, d) ==> Sound(Fragment(f.shard, s), c, d))
            && Read(Fragment(f.shard, s), c, d) == Now(LastOf(cols[..n], vals[..n], c), Read(f, c, d), live)
  {
    hide Overlay, Shallow, Read, Sound;
    if n > 0 {
      InOrderReads(f, cols, vals, n - 1, d, live, c);
      OneWriteReads(Fragment(f.shard, InOrder(f.storage, cols, vals, n - 1, d + 2, live, true)), cols[n - 1], vals[n - 1], d, live, true, c);
      assert cols[..n][..n - 1] == cols[..n - 1] && vals[..n][..n - 1] == vals[..n - 1];
    }
  }

  lemma DistinctOffsets(a: nat, b: nat)
    requires a != b && a / SHARD_WIDTH == b / SHARD_WIDTH
    ensures Offset(a) != Offset(b)
  {
    if Pos(EXISTS_ROW, a) == Pos(EXISTS_ROW, b) {
      PosInjective(EXISTS_ROW, a, EXISTS_ROW, b);
    }
  }
}
