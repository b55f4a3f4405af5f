// Bit-sliced integers in one shard (fragment.go): an exists row, a sign row
// and one row per magnitude bit, all kept as positions in one bitmap.
module BsiData {
  import opened Bits

  const SHARD_WIDTH: nat := 0x10_0000

  const EXISTS_ROW: nat := 0
  const SIGN_ROW: nat := 1
  const OFFSET_ROW: nat := 2

  function Abs(v: int): nat {
    if v < 0 then -v else v
  }

  /** Where a bit of a row is stored. */
  function Pos(row: nat, col: nat): nat {
    row * SHARD_WIDTH + col % SHARD_WIDTH
  }

  /** Within a shard, a position tells its row and column. */
  lemma PosInjective(row: nat, col: nat, row': nat, col': nat)
    requires col / SHARD_WIDTH == col' / SHARD_WIDTH
    requires Pos(row, col) == Pos(row', col')
    ensures row == row' && col == col'
  {
  }

  /** One shard's storage, as a transaction sees it. */
  datatype Fragment = Fragment(shard: nat, storage: set<nat>) {

    predicate Owns(col: nat) {
      col / SHARD_WIDTH == shard
    }

    /** The columns whose bit is set in a row. */
    function Row(row: nat): (r: set<nat>)
      ensures forall c :: c in r <==> Owns(c) && Pos(row, c) in storage
    {
      set c | shard * SHARD_WIDTH <= c < (shard + 1) * SHARD_WIDTH && Pos(row, c) in storage
    }

    /** The magnitude written in the lowest d value rows. */
    function Mag(col: nat, d: nat): nat {
      if d == 0 then 0 else Mag(col, d - 1) + (if col in Row(OFFSET_ROW + d - 1) then Pow2(d - 1) else 0)
    }

    /** The signed value of a column at depth d. */
    function Val(col: nat, d: nat): int {
      if col in Row(SIGN_ROW) then -(Mag(col, d) as int) else Mag(col, d)
    }

    /** No existing column is written as minus zero. */
    ghost predicate NoNegativeZero(d: nat) {
      forall c :: c in Row(EXISTS_ROW) && c in Row(SIGN_ROW) ==> Mag(c, d) != 0
    }
  }

  lemma {:induction false} MagBound(f: Fragment, c: nat, d: nat)
    ensures f.Mag(c, d) < Pow2(d)
  {
    if d > 0 {
      MagBound(f, c, d - 1);
    }
  }

  /** The low bits of a magnitude are the lower rows. */
  lemma {:induction false} MagLow(f: Fragment, c: nat, i: nat, d: nat)
    requires i <= d
    ensures Low(f.Mag(c, d), i) == f.Mag(c, i)
    decreases d
  {
    MagBound(f, c, i);
    LowBelow(f.Mag(c, i), i);
    if i < d {
      MagLow(f, c, i, d - 1);
      if c in f.Row(OFFSET_ROW + d - 1) {
        LowPlusPow(f.Mag(c, d - 1), i, d - 1);
      }
    }
  }

  /** Adding a high power of two leaves the low bits alone. */
  lemma {:induction false} LowPlusPow(v: nat, i: nat, n: nat)
    requires i <= n
    ensures Low(v + Pow2(n), i) == Low(v, i)
    decreases i
  {
    if i > 0 {
      assert (v + Pow2(n)) / 2 == v / 2 + Pow2(n - 1) && (v + Pow2(n)) % 2 == v % 2;
      LowPlusPow(v / 2, i - 1, n - 1);
    }
  }

  /** A column is in a value row exactly when its magnitude has that bit. */
  lemma MagBit(f: Fragment, c: nat, i: nat, d: nat)
    requires i < d
    ensures c in f.Row(OFFSET_ROW + i) <==> Bit(f.Mag(c, d), i) == 1
  {
    MagLow(f, c, i, d);
    MagLow(f, c, i + 1, d);
    LowBit(f.Mag(c, d), i);
  }
}
