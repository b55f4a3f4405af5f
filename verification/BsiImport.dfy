// Bulk import of bit-sliced values (fragment.go): the pairs are read from the
// back in batches, and each row's bits are staged in one buffer that grows
// from the front with bits to set and from the back with bits to clear.
module BsiImport {
  import opened Bits
  import opened BsiData
  import opened BsiStorage

  const MAX_BATCH: nat := 65536

  // ----- Buffers -----

  function Front(buf: array2<nat>, row: nat, n: nat): set<nat>
    requires row < buf.Length0 && n <= buf.Length1
    reads buf
  {
    set j | 0 <= j < n :: buf[row, j]
  }

  function Back(buf: array2<nat>, row: nat, n: nat): set<nat>
    requires row < buf.Length0 && n <= buf.Length1
    reads buf
  {
    set j | n <= j < buf.Length1 :: buf[row, j]
  }

  /** The positions of a row to be set, or to be cleared, for some columns. */
  ghost function Staged(k: map<nat, int>, row: nat, live: bool, on: bool): set<nat> {
    set o | o in k && Target(row, k[o], live, true) == on :: Pos(row, o)
  }

  /** The two ends of a row's buffer hold each column's bit once. */
  ghost predicate Ends(front: set<nat>, back: set<nat>, toSet: nat, toClear: nat, size: nat, row: nat,
                       k: map<nat, int>, live: bool) {
    && toSet <= toClear <= size && toSet + (size - toClear) == |k|
    && front == Staged(k, row, live, true)
    && back == Staged(k, row, live, false)
  }

  ghost predicate RowStaged(buf: array2<nat>, row: nat, toSet: nat, toClear: nat, k: map<nat, int>, live: bool)
    requires row < buf.Length0
    reads buf
  {
    && toSet <= buf.Length1 && toClear <= buf.Length1
    && Ends(Front(buf, row, toSet), Back(buf, row, toClear), toSet, toClear, buf.Length1, row, k, live)
  }

  lemma StagedMore(k: map<nat, int>, o: nat, v: int, row: nat, live: bool, on: bool)
    requires o !in k
    ensures Staged(k[o := v], row, live, on) == Staged(k, row, live, on) + (if Target(row, v, live, true) == on then {Pos(row, o)} else {})
  {
    hide Target;
    var k' := k[o := v];
    assert forall q :: q in k ==> q in k' && k'[q] == k[q];
  }

  lemma EndsMore(front: set<nat>, back: set<nat>, toSet: nat, toClear: nat, size: nat, row: nat, k: map<nat, int>,
                 live: bool, o: nat, v: int)
    requires Ends(front, back, toSet, toClear, size, row, k, live) && |k| < size && o !in k
    ensures toSet < toClear
    ensures Target(row, v, live, true) ==> Ends(front + {Pos(row, o)}, back, toSet + 1, toClear, size, row, k[o := v], live)
    ensures !Target(row, v, live, true) ==> Ends(front, back + {Pos(row, o)}, toSet, toClear - 1, size, row, k[o := v], live)
  {
    hide Target, Pos, Staged;
    StagedMore(k, o, v, row, live, true);
    StagedMore(k, o, v, row, live, false);
  }

  twostate predicate OthersKept(buf: array2<nat>, row: nat)
    reads buf
  {
    && (forall r: nat, n: nat :: r < buf.Length0 && r != row && n <= buf.Length1 ==> Front(buf, r, n) == old(Front(buf, r, n)))
    && (forall r: nat, n: nat :: r < buf.Length0 && r != row && n <= buf.Length1 ==> Back(buf, r, n) == old(Back(buf, r, n)))
  }

  method PushFront(buf: array2<nat>, row: nat, n: nat, end: nat, p: nat)
    requires row < buf.Length0 && n < end <= buf.Length1
    modifies buf
    ensures Front(buf, row, n + 1) == old(Front(buf, row, n)) + {p}
    ensures Back(buf, row, end) == old(Back(buf, row, end))
    ensures OthersKept(buf, row)
  {
    ghost var front, back := Front(buf, row, n), Back(buf, row, end);
    buf[row, n] := p;
    assert forall j :: 0 <= j < n ==> buf[row, j] == old(buf[row, j]);
    assert forall j :: end <= j < buf.Length1 ==> buf[row, j] == old(buf[row, j]);
    assert forall x :: x in Front(buf, row, n + 1) <==> x in front || x == buf[row, n];
    assert forall i, j :: 0 <= i < buf.Length0 && i != row && 0 <= j < buf.Length1 ==> buf[i, j] == old(buf[i, j]);
  }

  method PushBack(buf: array2<nat>, row: nat, n: nat, end: nat, p: nat)
    requires row < buf.Length0 && n < end <= buf.Length1
    modifies buf
    ensures Front(buf, row, n) == old(Front(buf, row, n))
    ensures Back(buf, row, end - 1) == old(Back(buf, row, end)) + {p}
    ensures OthersKept(buf, row)
  {
    ghost var front, back := Front(buf, row, n), Back(buf, row, end);
    buf[row, end - 1] := p;
    assert forall j :: 0 <= j < n ==> buf[row, j] == old(buf[row, j]);
    assert forall j :: end <= j < buf.Length1 ==> buf[row, j] == old(buf[row, j]);
    assert forall x :: x in Back(buf, row, end - 1) <==> x in back || x == buf[row, end - 1];
    assert forall i, j :: 0 <= i < buf.Length0 && i != row && 0 <= j < buf.Length1 ==> buf[i, j] == old(buf[i, j]);
  }

  /** Stages one bit of one row: the two ends meet only when the buffer is full. */
  method StageBit(buf: array2<nat>, row: nat, toSet0: nat, toClear0: nat, p: nat, on: bool,
                  ghost k: map<nat, int>, ghost o: nat, ghost v: int, ghost live: bool) returns (toSet: nat, toClear: nat)
    requires row < buf.Length0 && RowStaged(buf, row, toSet0, toClear0, k, live)
    requires |k| < buf.Length1 && o !in k && p == Pos(row, o) && (on <==> Target(row, v, live, true))
    modifies buf
    ensures RowStaged(buf, row, toSet, toClear, k[o := v], live)
    ensures OthersKept(buf, row)
  {
    hide Target, Pos, Front, Back, OthersKept, Ends;
    toSet, toClear := toSet0, toClear0;
    EndsMore(Front(buf, row, toSet), Back(buf, row, toClear), toSet, toClear, buf.Length1, row, k, live, o, v);
    if on {
      PushFront(buf, row, toSet, toClear, p);
      toSet := toSet + 1;
    } else {
      PushBack(buf, row, toSet, toClear, p);
      toClear := toClear - 1;
    }
  }

  // ----- One pair, all rows -----

  /** What a row holds when a pair has been staged in the first rows. */
  ghost function Given(r: nat, row: nat, k: map<nat, int>, k': map<nat, int>): map<nat, int> {
    if r < row then k' else k
  }

  ghost predicate AllStaged(buf: array2<nat>, toSet: seq<nat>, toClear: seq<nat>, row: nat, k: map<nat, int>,
                            k': map<nat, int>, live: bool)
    reads buf
  {
    && |toSet| == |toClear| == buf.Length0
    && forall r :: 0 <= r < buf.Length0 ==> RowStaged(buf, r, toSet[r], toClear[r], Given(r, row, k, k'), live)
  }

  /** Stages one more row of a pair. */
  method StageRow(buf: array2<nat>, toSet0: seq<nat>, toClear0: seq<nat>, row: nat, p: nat, on: bool,
                  ghost k: map<nat, int>, ghost o: nat, ghost v: int, ghost live: bool) returns (toSet: seq<nat>, toClear: seq<nat>)
    requires row < buf.Length0 && AllStaged(buf, toSet0, toClear0, row, k, k[o := v], live)
    requires |k| < buf.Length1 && o !in k && p == Pos(row, o) && (on <==> Target(row, v, live, true))
    modifies buf
    ensures AllStaged(buf, toSet, toClear, row + 1, k, k[o := v], live)
  {
    hide Target, Pos, Ends, Front, Back;
    var s, c := StageBit(buf, row, toSet0[row], toClear0[row], p, on, k, o, v, live);
    toSet, toClear := toSet0[row := s], toClear0[row := c];
  }

  lemma BitsTarget(v: int, i: nat, live: bool)
    ensures Target(OFFSET_ROW + i, v, live, true) <==> Shr(Abs(v), i) % 2 == 1
    ensures Shr(Abs(v), i) / 2 == Shr(Abs(v), i + 1)
  {
    ShrHalf(Abs(v), i);
  }

  lemma NextPos(row: nat, o: nat)
    ensures Pos(row, o) + SHARD_WIDTH == Pos(row + 1, o)
  {
  }

  method StagePair(buf: array2<nat>, toSet0: seq<nat>, toClear0: seq<nat>, column: nat, value0: int, d: nat,
                   clear: bool,
                   ghost k: map<nat, int>) returns (toSet: seq<nat>, toClear: seq<nat>)
    requires buf.Length0 == d + 2 && AllStaged(buf, toSet0, toClear0, 0, k, k[column := value0], !clear)
    requires |k| < buf.Length1 && column !in k && column < SHARD_WIDTH
    modifies buf
    ensures AllStaged(buf, toSet, toClear, d + 2, k, k[column := value0], !clear)
  {
    hide Target, AllStaged, Pos, Bit;
    var columnID, value := column, Abs(value0);
    assert columnID == Pos(0, column) by {
      FirstPos(column);
    }
    ImportTargets(value0, !clear);
    toSet, toClear := StageRow(buf, toSet0, toClear0, EXISTS_ROW, columnID, !clear, k, column, value0, !clear);
    NextPos(0, column);
    columnID := columnID + SHARD_WIDTH;
    toSet, toClear := StageRow(buf, toSet, toClear, SIGN_ROW, columnID, value0 < 0, k, column, value0, !clear);
    NextPos(1, column);
    columnID := columnID + SHARD_WIDTH;
    for j := 0 to d
      invariant value == Shr(Abs(value0), j) && columnID == Pos(OFFSET_ROW + j, column)
      invariant AllStaged(buf, toSet, toClear, OFFSET_ROW + j, k, k[column := value0], !clear)
    {
      BitsTarget(value0, j, !clear);
      toSet, toClear := StageRow(buf, toSet, toClear, OFFSET_ROW + j, columnID, value % 2 == 1, k, column, value0, !clear);
      NextPos(OFFSET_ROW + j, column);
      columnID := columnID + SHARD_WIDTH;
      value := value / 2;
    }
  }

  lemma FirstPos(column: nat)
    requires column < SHARD_WIDTH
    ensures Pos(0, column) == column
  {
  }

  lemma ImportTargets(v: int, live: bool)
    ensures Target(EXISTS_ROW, v, live, true) <==> live
    ensures Target(SIGN_ROW, v, live, true) <==> v < 0
  {
  }

  // ----- One batch -----

  ghost predicate Sorted(cols: seq<nat>) {
    forall i, j :: 0 <= i < j < |cols| ==> cols[i] <= cols[j]
  }

  ghost predicate OneShard(cols: seq<nat>) {
    forall i, j :: 0 <= i < j < |cols| ==> cols[i] / SHARD_WIDTH == cols[j] / SHARD_WIDTH
  }

  /** Pairs of the same column, as the buffers see columns, are neighbours. */
  ghost predicate Adjacent(cols: seq<nat>) {
    forall i, j, k :: 0 <= i <= j <= k < |cols| && Offset(cols[i]) == Offset(cols[k]) ==> Offset(cols[j]) == Offset(cols[i])
  }

  /** Sorting the pairs of a shard puts equal columns together. */
  lemma SortedIsAdjacent(cols: seq<nat>)
    requires Sorted(cols) && OneShard(cols)
    ensures Adjacent(cols)
  {
    forall i, j, k | 0 <= i <= j <= k < |cols| && Offset(cols[i]) == Offset(cols[k])
      ensures Offset(cols[j]) == Offset(cols[i])
    {
      SameOffset(cols[i], cols[k]);
    }
  }

  /** The column seen last, or something that is no column's offset. */
  ghost predicate Previous(cols: seq<nat>, n: nat, prev: nat)
    requires n <= |cols|
  {
    if n < |cols| then prev == Offset(cols[n]) else |cols| > 0 ==> prev == cols[n - 1] + 1
  }

  /** A column seen before is the one seen last. */
  lemma {:induction false} SeenIsPrevious(cols: seq<nat>, vals: seq<int>, n: nat, prev: nat)
    requires n < |cols| == |vals| && Adjacent(cols) && Previous(cols, n + 1, prev)
    ensures Offset(cols[n]) in LastFrom(cols, vals, n + 1) <==> Offset(cols[n]) == prev
  {
    LastKeys(cols, vals, n + 1);
    if Offset(cols[n]) in LastFrom(cols, vals, n + 1) {
      var j :| n + 1 <= j < |cols| && Offset(cols[j]) == Offset(cols[n]);
      assert n <= n + 1 <= j;
    }
  }

  lemma SameOffset(a: nat, b: nat)
    requires Offset(a) == Offset(b) && a / SHARD_WIDTH == b / SHARD_WIDTH
    ensures a == b
  {
    assert Pos(EXISTS_ROW, a) == Pos(EXISTS_ROW, b);
    PosInjective(EXISTS_ROW, a, EXISTS_ROW, b);
  }

  lemma {:induction false} LastKeys(cols: seq<nat>, vals: seq<int>, n: nat)
    requires n <= |cols| == |vals|
    ensures forall o :: o in LastFrom(cols, vals, n) <==> exists j :: n <= j < |cols| && Offset(cols[j]) == o
    decreases |cols| - n
  {
    if n < |cols| {
      LastKeys(cols, vals, n + 1);
    }
  }

  lemma StagedStart(buf: array2<nat>, toSet: seq<nat>, toClear: seq<nat>, live: bool)
    requires |toSet| == |toClear| == buf.Length0
    requires forall r :: 0 <= r < buf.Length0 ==> toSet[r] == 0 && toClear[r] == buf.Length1
    ensures AllStaged(buf, toSet, toClear, 0, map[], map[], live)
  {
    hide Target, Pos;
  }

  lemma StagedNext(buf: array2<nat>, toSet: seq<nat>, toClear: seq<nat>, k: map<nat, int>, k': map<nat, int>,
                   k'': map<nat, int>, live: bool)
    requires AllStaged(buf, toSet, toClear, buf.Length0, k, k', live)
    ensures AllStaged(buf, toSet, toClear, 0, k', k'', live)
  {
    hide RowStaged;
  }

  lemma StagedAny(buf: array2<nat>, toSet: seq<nat>, toClear: seq<nat>, k: map<nat, int>, k': map<nat, int>,
                  k'': map<nat, int>, live: bool)
    requires AllStaged(buf, toSet, toClear, 0, k, k', live)
    ensures AllStaged(buf, toSet, toClear, 0, k, k'', live)
  {
    hide RowStaged;
  }

  /** What a batch has collected: the last values not in any later batch. */
  ghost predicate Collected(cols: seq<nat>, vals: seq<int>, n: nat, i: nat, k: map<nat, int>)
    requires i <= n <= |cols| == |vals|
  {
    && (forall o :: o in k ==> o !in LastFrom(cols, vals, n)) && |k| <= n - i
    && LastFrom(cols, vals, n) + k == LastFrom(cols, vals, i)
  }

  lemma LastUnfolds(cols: seq<nat>, vals: seq<int>, i: nat)
    requires i < |cols| == |vals|
    ensures var k, o := LastFrom(cols, vals, i + 1), Offset(cols[i]);
            LastFrom(cols, vals, i) == if o in k then k else k[o := vals[i]]
  {
  }

  lemma UpdateRight(m: map<nat, int>, k: map<nat, int>, o: nat, v: int)
    ensures m + k[o := v] == (m + k)[o := v]
  {
    var a, b := m + k[o := v], (m + k)[o := v];
    assert forall x :: x in a <==> x in b;
    assert forall x :: x in a ==> a[x] == b[x];
  }

  lemma CollectedMore(cols: seq<nat>, vals: seq<int>, n: nat, i: nat, k: map<nat, int>)
    requires i < n <= |cols| == |vals| && Collected(cols, vals, n, i + 1, k)
    ensures Offset(cols[i]) in LastFrom(cols, vals, i + 1) ==> Collected(cols, vals, n, i, k)
    ensures Offset(cols[i]) !in LastFrom(cols, vals, i + 1) ==>
              Offset(cols[i]) !in k && Collected(cols, vals, n, i, k[Offset(cols[i]) := vals[i]])
  {
    hide LastFrom, Offset;
    LastUnfolds(cols, vals, i);
    if Offset(cols[i]) !in LastFrom(cols, vals, i + 1) {
      UpdateRight(LastFrom(cols, vals, n), k, Offset(cols[i]), vals[i]);
    }
  }

  lemma CollectedNone(cols: seq<nat>, vals: seq<int>, n: nat)
    requires n <= |cols| == |vals|
    ensures Collected(cols, vals, n, n, map[])
  {
    hide LastFrom;
    assert LastFrom(cols, vals, n) + map[] == LastFrom(cols, vals, n);
  }

  /** The next pair of a batch: new exactly when its column is not the last one seen. */
  lemma NextPair(cols: seq<nat>, vals: seq<int>, n: nat, i: nat, prev: nat, k: map<nat, int>)
    requires i < n <= |cols| == |vals| && Adjacent(cols) && Previous(cols, i + 1, prev) && Collected(cols, vals, n, i + 1, k)
    ensures Previous(cols, i, Offset(cols[i])) && |k| < n - i
    ensures Offset(cols[i]) == prev ==> Collected(cols, vals, n, i, k)
    ensures Offset(cols[i]) != prev ==> Offset(cols[i]) !in k && Collected(cols, vals, n, i, k[Offset(cols[i]) := vals[i]])
  {
    hide LastFrom, Adjacent;
    SeenIsPrevious(cols, vals, i, prev);
    CollectedMore(cols, vals, n, i, k);
  }

  /** Stages the pair of one new column. */
  method StageNew(buf: array2<nat>, toSet0: seq<nat>, toClear0: seq<nat>, column: nat, value: int, d: nat,
                  clear: bool, ghost k: map<nat, int>)
    returns (toSet: seq<nat>, toClear: seq<nat>)
    requires buf.Length0 == d + 2 && AllStaged(buf, toSet0, toClear0, 0, k, k, !clear)
    requires |k| < buf.Length1 && column !in k && column < SHARD_WIDTH
    modifies buf
    ensures AllStaged(buf, toSet, toClear, 0, k[column := value], k[column := value], !clear)
  {
    hide AllStaged;
    StagedAny(buf, toSet0, toClear0, k, k, k[column := value], !clear);
    toSet, toClear := StagePair(buf, toSet0, toClear0, column, value, d, clear, k);
    StagedNext(buf, toSet, toClear, k, k[column := value], k[column := value], !clear);
  }

  method FillBatch(buf: array2<nat>, cols: seq<nat>, vals: seq<int>, n: nat, downTo: nat, prev0: nat, d: nat,
                   clear: bool)
    returns (toSet: seq<nat>, toClear: seq<nat>, prev: nat, ghost k: map<nat, int>)
    requires downTo <= n <= |cols| == |vals| && Adjacent(cols) && Previous(cols, n, prev0)
    requires buf.Length0 == d + 2 && n - downTo <= buf.Length1
    modifies buf
    ensures AllStaged(buf, toSet, toClear, 0, k, k, !clear) && Collected(cols, vals, n, downTo, k)
    ensures Previous(cols, downTo, prev)
  {
    hide AllStaged, LastFrom, Adjacent, Collected, Previous, Offset;
    toSet, toClear, prev, k := seq(d + 2, _ => 0), seq(d + 2, _ => buf.Length1), prev0, map[];
    StagedStart(buf, toSet, toClear, !clear);
    CollectedNone(cols, vals, n);
    var i := n;
    while i > downTo
      invariant downTo <= i <= n && Previous(cols, i, prev)
      invariant AllStaged(buf, toSet, toClear, 0, k, k, !clear) && Collected(cols, vals, n, i, k)
    {
      NextPair(cols, vals, n, i - 1, prev, k);
      i := i - 1;
      var columnID, value := Offset(cols[i]), vals[i];
      if columnID != prev {
        prev := columnID;
        toSet, toClear := StageNew(buf, toSet, toClear, columnID, value, d, clear, k);
        k := k[columnID := value];
      }
    }
  }

  /** Adding one row's set bits and removing its clear bits. */
  lemma OverlayRow(s: set<nat>, k: map<nat, int>, row: nat, live: bool)
    requires Offsets(k)
    ensures Overlay(s, k, row + 1, live, true) == Overlay(s, k, row, live, true) + Staged(k, row, live, true) - Staged(k, row, live, false)
  {
    hide Target;
    var before, after := Overlay(s, k, row, live, true), Overlay(s, k, row + 1, live, true);
    var ons, offs := Staged(k, row, live, true), Staged(k, row, live, false);
    forall p ensures p in after <==> (p in before || p in ons) && p !in offs {
      StagedAt(k, row, live, true, p);
      StagedAt(k, row, live, false, p);
    }
  }

  lemma StagedAt(k: map<nat, int>, row: nat, live: bool, on: bool, p: nat)
    requires Offsets(k)
    ensures p in Staged(k, row, live, on) <==> RowOf(p) == row && Offset(p) in k && Target(row, k[Offset(p)], live, true) == on
  {
    hide Target;
    PartsPos(p);
    if p in Staged(k, row, live, on) {
      var o :| o in k && Target(row, k[o], live, true) == on && Pos(row, o) == p;
      PosParts(row, o);
    }
  }

  method ImportPositions(tx: Tx, shard: nat, toSet: set<nat>, toClear: set<nat>)
    modifies tx
    ensures tx.Storage(shard) == old(tx.Storage(shard)) + toSet - toClear
    ensures forall s :: s != shard ==> tx.Storage(s) == old(tx.Storage(s))
  {
    if toSet != {} {
      var _ := tx.Add(shard, toSet);
    }
    if toClear != {} {
      var _ := tx.Remove(shard, toClear);
    }
  }

  method ImportRows(tx: Tx, shard: nat, buf: array2<nat>, toSet: seq<nat>, toClear: seq<nat>, ghost k: map<nat, int>,
                    ghost live: bool)
    requires Offsets(k) && AllStaged(buf, toSet, toClear, 0, k, k, live)
    modifies tx
    ensures tx.Storage(shard) == Overlay(old(tx.Storage(shard)), k, buf.Length0, live, true)
    ensures forall s :: s != shard ==> tx.Storage(s) == old(tx.Storage(s))
  {
    hide Target, Overlay, Staged, Front, Back;
    ghost var before := tx.Storage(shard);
    OverlayNoRows(before, k, live);
    for i := 0 to buf.Length0
      invariant AllStaged(buf, toSet, toClear, 0, k, k, live)
      invariant tx.Storage(shard) == Overlay(before, k, i, live, true)
      invariant forall s :: s != shard ==> tx.Storage(s) == old(tx.Storage(s))
    {
      assert RowStaged(buf, i, toSet[i], toClear[i], k, live);
      OverlayRow(before, k, i, live);
      ImportPositions(tx, shard, Front(buf, i, toSet[i]), Back(buf, i, toClear[i]));
    }
  }

  lemma OverlayNoRows(s: set<nat>, k: map<nat, int>, live: bool)
    requires Offsets(k)
    ensures Overlay(s, k, 0, live, true) == s
  {
    forall p ensures p in Overlay(s, k, 0, live, true) <==> p in s {
    }
  }

  // ----- The whole import -----

  /** Importing pairs, with equal columns together, is writing them in order, but
      for the sign row when clearing.  It is writing them one at a time if and
      only if the pairs are not cleared or no column's last value is negative.
      A length mismatch is refused before anything is written. */
  method ImportValue(tx: Tx, shard: nat, columnIDs: seq<nat>, values: seq<int>, d: nat, clear: bool) returns (ok: bool)
    requires |columnIDs| == |values| ==> |columnIDs| > 0 && Adjacent(columnIDs)
    modifies tx
    ensures ok <==> |columnIDs| == |values|
    ensures ok ==> tx.Storage(shard) == InOrder(old(tx.Storage(shard)), columnIDs, values, |columnIDs|, d + 2, !clear, true)
    ensures ok ==> (tx.Storage(shard) == InOrder(old(tx.Storage(shard)), columnIDs, values, |columnIDs|, d + 2, !clear, !clear)
                    <==> !clear || NoLastNegative(columnIDs, values))
    ensures !ok ==> tx.Storage(shard) == old(tx.Storage(shard))
    ensures forall s :: s != shard ==> tx.Storage(s) == old(tx.Storage(s))
  {
    hide Target, Overlay, LastFrom, AllStaged, Adjacent, InOrder, NoLastNegative, Previous, Collected, Offset;
    if |columnIDs| != |values| {
      return false;
    }
    ok := true;
    ghost var before := tx.Storage(shard);
    var batchSize := if |columnIDs| > MAX_BATCH then MAX_BATCH else |columnIDs|;
    var buf := new nat[d + 2, batchSize];
    var prev := columnIDs[|columnIDs| - 1] + 1;
    var n := |columnIDs|;
    PreviousStart(columnIDs);
    LastNone(columnIDs, values);
    OverlayNothing(before, d + 2, !clear, true);
    while n > 0
      invariant 0 <= n <= |columnIDs| && Previous(columnIDs, n, prev)
      invariant tx.Storage(shard) == Overlay(before, LastFrom(columnIDs, values, n), d + 2, !clear, true)
      invariant forall s :: s != shard ==> tx.Storage(s) == old(tx.Storage(s))
    {
      var downTo := if n < batchSize then 0 else n - batchSize;
      var toSet, toClear;
      ghost var k;
      toSet, toClear, prev, k := FillBatch(buf, columnIDs, values, n, downTo, prev, d, clear);
      OverlayBatch(before, columnIDs, values, n, downTo, k, d + 2, !clear);
      ImportRows(tx, shard, buf, toSet, toClear, k, !clear);
      n := downTo;
    }
    ImportedIs(before, columnIDs, values, d + 2, clear);
  }

  lemma PreviousStart(cols: seq<nat>)
    requires cols != []
    ensures Previous(cols, |cols|, cols[|cols| - 1] + 1)
  {
  }

  lemma ImportedIs(s: set<nat>, cols: seq<nat>, vals: seq<int>, rows: nat, clear: bool)
    requires |cols| == |vals| && rows >= 2
    ensures var imported := Overlay(s, LastFrom(cols, vals, 0), rows, !clear, true);
            && imported == InOrder(s, cols, vals, |cols|, rows, !clear, true)
            && (imported == InOrder(s, cols, vals, |cols|, rows, !clear, !clear) <==> !clear || NoLastNegative(cols, vals))
  {
    hide Overlay, LastFrom, InOrder, NoLastNegative;
    LastNone(cols, vals);
    InOrderIsLast(s, cols, vals, |cols|, rows, !clear, true);
    OverlayNothing(InOrder(s, cols, vals, |cols|, rows, !clear, true), rows, !clear, true);
    if clear {
      BulkClearIff(s, cols, vals, rows);
    }
  }

  /** The single writer, pair by pair. */
  method WriteOneByOne(tx: Tx, shard: nat, columnIDs: seq<nat>, values: seq<int>, d: nat, clear: bool)
    requires |columnIDs| == |values| && forall i :: 0 <= i < |columnIDs| ==> columnIDs[i] / SHARD_WIDTH == shard
    modifies tx
    ensures tx.Storage(shard) == InOrder(old(tx.Storage(shard)), columnIDs, values, |columnIDs|, d + 2, !clear, !clear)
    ensures forall s :: s != shard ==> tx.Storage(s) == old(tx.Storage(s))
  {
    hide Overlay;
    for i := 0 to |columnIDs|
      invariant tx.Storage(shard) == InOrder(old(tx.Storage(shard)), columnIDs, values, i, d + 2, !clear, !clear)
      invariant forall s :: s != shard ==> tx.Storage(s) == old(tx.Storage(s))
    {
      var changed, ok := SetValueBase(tx, shard, columnIDs[i], d, values[i], clear);
    }
  }

  // ----- Clearing in bulk -----

  /** No later pair has the column of pair i. */
  ghost predicate LastOfColumn(cols: seq<nat>, i: nat)
    requires i < |cols|
  {
    forall j :: i < j < |cols| ==> Offset(cols[j]) != Offset(cols[i])
  }

  ghost predicate NoLastNegative(cols: seq<nat>, vals: seq<int>)
    requires |cols| == |vals|
  {
    forall i: nat :: i < |cols| && LastOfColumn(cols, i) ==> vals[i] >= 0
  }

  lemma {:induction false} LastValues(cols: seq<nat>, vals: seq<int>, n: nat, o: nat, v: int)
    requires n <= |cols| == |vals|
    ensures (o in LastFrom(cols, vals, n) && LastFrom(cols, vals, n)[o] == v)
       <==> exists i: nat :: n <= i < |cols| && LastOfColumn(cols, i) && Offset(cols[i]) == o && vals[i] == v
    decreases |cols| - n
  {
    hide Offset;
    if n < |cols| {
      LastValues(cols, vals, n + 1, o, v);
      LastKeys(cols, vals, n + 1);
      assert LastOfColumn(cols, n) <==> Offset(cols[n]) !in LastFrom(cols, vals, n + 1);
    }
  }

  lemma NoLastNegativeIs(cols: seq<nat>, vals: seq<int>)
    requires |cols| == |vals|
    ensures NoLastNegative(cols, vals) <==> forall o :: o in LastFrom(cols, vals, 0) ==> LastFrom(cols, vals, 0)[o] >= 0
  {
    hide LastFrom, LastOfColumn, Offset;
    var k := LastFrom(cols, vals, 0);
    if NoLastNegative(cols, vals) {
      forall o | o in k ensures k[o] >= 0 {
        LastValues(cols, vals, 0, o, k[o]);
      }
    }
    if forall o :: o in k ==> k[o] >= 0 {
      forall i: nat | i < |cols| && LastOfColumn(cols, i) ensures vals[i] >= 0 {
        LastValues(cols, vals, 0, Offset(cols[i]), vals[i]);
      }
    }
  }

  /** The two ways to clear differ in the sign rows of negative values only. */
  lemma SignsAgreeIff(s: set<nat>, k: map<nat, int>, rows: nat)
    requires Offsets(k) && rows >= 2
    ensures Overlay(s, k, rows, false, true) == Overlay(s, k, rows, false, false) <==> forall o :: o in k ==> k[o] >= 0
  {
    var bulk, single := Overlay(s, k, rows, false, true), Overlay(s, k, rows, false, false);
    if forall o :: o in k ==> k[o] >= 0 {
      forall p ensures p in bulk <==> p in single {
      }
    } else {
      var o :| o in k && k[o] < 0;
      PosParts(SIGN_ROW, o);
      assert Offset(o) == o;
      assert Pos(SIGN_ROW, o) in bulk && Pos(SIGN_ROW, o) !in single;
    }
  }

  /** Clearing in bulk leaves the storage of clearing one at a time if and only if
      no column's last value is negative. */
  lemma BulkClearIff(s: set<nat>, cols: seq<nat>, vals: seq<int>, rows: nat)
    requires |cols| == |vals| && rows >= 2
    ensures InOrder(s, cols, vals, |cols|, rows, false, true) == InOrder(s, cols, vals, |cols|, rows, false, false)
       <==> NoLastNegative(cols, vals)
  {
    hide Overlay, LastFrom, InOrder, NoLastNegative;
    LastNone(cols, vals);
    InOrderIsLast(s, cols, vals, |cols|, rows, false, true);
    InOrderIsLast(s, cols, vals, |cols|, rows, false, false);
    OverlayNothing(InOrder(s, cols, vals, |cols|, rows, false, true), rows, false, true);
    OverlayNothing(InOrder(s, cols, vals, |cols|, rows, false, false), rows, false, false);
    SignsAgreeIff(s, LastFrom(cols, vals, 0), rows);
    NoLastNegativeIs(cols, vals);
  }

  /** Clearing minus one in bulk leaves the sign bit set; clearing it singly does not. */
  lemma BulkClearLeavesSign(s: set<nat>, c: nat, d: nat)
    ensures Pos(SIGN_ROW, c) in InOrder(s, [c], [-1], 1, d + 2, false, true)
    ensures Pos(SIGN_ROW, c) !in InOrder(s, [c], [-1], 1, d + 2, false, false)
  {
    PosParts(SIGN_ROW, c);
    assert InOrder(s, [c], [-1], 1, d + 2, false, true) == Overlay(s, map[Offset(c) := -1], d + 2, false, true);
    assert InOrder(s, [c], [-1], 1, d + 2, false, false) == Overlay(s, map[Offset(c) := -1], d + 2, false, false);
  }

  lemma LastNone(cols: seq<nat>, vals: seq<int>)
    requires |cols| == |vals|
    ensures LastFrom(cols, vals, |cols|) == map[]
  {
  }

  lemma OverlayBatch(s: set<nat>, cols: seq<nat>, vals: seq<int>, n: nat, downTo: nat, k: map<nat, int>, rows: nat,
                     live: bool)
    requires downTo <= n <= |cols| == |vals| && Collected(cols, vals, n, downTo, k)
    ensures Offsets(k)
    ensures Overlay(Overlay(s, LastFrom(cols, vals, n), rows, live, true), k, rows, live, true)
         == Overlay(s, LastFrom(cols, vals, downTo), rows, live, true)
  {
    hide Overlay, LastFrom;
    var all := LastFrom(cols, vals, downTo);
    assert forall o :: o in k ==> o in all;
    OverlayTwice(s, LastFrom(cols, vals, n), k, rows, live, true);
  }
}
