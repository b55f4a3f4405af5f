// Operations on an integer field (field.go) and runs of them.
module FieldRuns {
  import opened Bits
  import opened BsiData
  import opened BsiField
  import opened BsiImport
  import opened BsiRead
  import opened BsiStorage
  import opened Options

  function Larger(a: nat, b: nat): nat {
    if a > b then a else b
  }

  /** Value i is the first one out of range. */
  ghost predicate FirstOut(vals: seq<int>, min: int, max: int, i: nat) {
    i < |vals| && !(min <= vals[i] <= max) && forall j :: 0 <= j < i ==> min <= vals[j] <= max
  }

  ghost predicate FirstIsHigh(vals: seq<int>, min: int, max: int) {
    exists i: nat :: FirstOut(vals, min, max, i) && vals[i] > max
  }

  ghost predicate FirstIsLow(vals: seq<int>, min: int, max: int) {
    exists i: nat :: FirstOut(vals, min, max, i) && vals[i] <= max
  }

  /** The error for values, if any: the first one out of range decides. */
  ghost predicate RangeAnswers(vals: seq<int>, min: int, max: int, e: Error) {
    && (e == NoError || e == TooHigh || e == TooLow)
    && (e == NoError <==> InRange(vals, min, max))
    && (e == TooHigh <==> FirstIsHigh(vals, min, max))
    && (e == TooLow <==> FirstIsLow(vals, min, max))
  }

  lemma OutAt(vals: seq<int>, min: int, max: int, i: nat)
    requires FirstOut(vals, min, max, i)
    ensures RangeAnswers(vals, min, max, if vals[i] > max then TooHigh else TooLow)
  {
    forall j: nat | FirstOut(vals, min, max, j) ensures j == i {
    }
  }

  lemma NoneOut(vals: seq<int>, min: int, max: int)
    requires InRange(vals, min, max)
    ensures RangeAnswers(vals, min, max, NoError)
  {
  }

  /** An import of at least one column can go ahead. */
  ghost predicate Importable(cols: seq<nat>, vals: seq<int>, min: int, max: int, shard: nat) {
    cols != [] && |vals| == |cols| && InRange(vals, min, max) && cols[0] / SHARD_WIDTH == shard
  }

  /** The error an import reports, if any. */
  ghost predicate ImportAnswers(cols: seq<nat>, vals: seq<int>, min: int, max: int, shard: nat, e: Error) {
    && (e == NoError <==> cols == [] || Importable(cols, vals, min, max, shard))
    && (e == Mismatch <==> cols != [] && |vals| != |cols|)
    && (e == TooHigh <==> cols != [] && |vals| == |cols| && FirstIsHigh(vals, min, max))
    && (e == TooLow <==> cols != [] && |vals| == |cols| && FirstIsLow(vals, min, max))
    && (e == WrongShard <==>
          cols != [] && |vals| == |cols| && InRange(vals, min, max) && cols[0] / SHARD_WIDTH != shard)
  }

  /** The errors, said of the values one by one: the first one out of range
      decides between too high and too low. */
  lemma ImportErrorIs(cols: seq<nat>, vals: seq<int>, min: int, max: int, shard: nat, e: Error)
    requires ImportAnswers(cols, vals, min, max, shard, e) && cols != []
    ensures e == Mismatch <==> |vals| != |cols|
    ensures |vals| == |cols| ==>
              (e == NoError <==> cols[0] / SHARD_WIDTH == shard && forall i :: 0 <= i < |vals| ==> min <= vals[i] <= max)
    ensures |vals| == |cols| ==>
              (e == TooHigh <==> exists i :: 0 <= i < |vals| && vals[i] > max &&
                                   forall j :: 0 <= j < i ==> min <= vals[j] <= max)
    ensures |vals| == |cols| ==>
              (e == TooLow <==> exists i :: 0 <= i < |vals| && vals[i] < min && vals[i] <= max &&
                                  forall j :: 0 <= j < i ==> min <= vals[j] <= max)
  {
    if i :| 0 <= i < |vals| && vals[i] > max && forall j :: 0 <= j < i ==> min <= vals[j] <= max {
      assert FirstOut(vals, min, max, i);
    }
    if i :| 0 <= i < |vals| && vals[i] < min && vals[i] <= max && forall j :: 0 <= j < i ==> min <= vals[j] <= max {
      assert FirstOut(vals, min, max, i);
    }
  }

  /** Between two bounds, a value needs no more bits than one of them. */
  lemma DepthBetween(lo: int, v: int, hi: int)
    requires lo <= v <= hi
    ensures BitDepth(v) <= Larger(BitDepth(lo), BitDepth(hi))
  {
    var d := Larger(BitDepth(lo), BitDepth(hi));
    BitLenBound(Abs(lo), d);
    BitLenBound(Abs(hi), d);
    BitLenBound(Abs(v), d);
  }

  /** The depth is what it was, or what one of the values needs, and enough for all. */
  ghost predicate DepthFor(vals: seq<int>, base: int, before: nat, after: nat) {
    && after >= before
    && (forall i :: 0 <= i < |vals| ==> BitDepth(vals[i] - base) <= after)
    && (after == before || exists i :: 0 <= i < |vals| && BitDepth(vals[i] - base) == after)
  }

  /** The new depth is determined. */
  lemma DepthUnique(vals: seq<int>, base: int, before: nat, after: nat, after': nat)
    requires DepthFor(vals, base, before, after) && DepthFor(vals, base, before, after')
    ensures after == after'
  {
    hide BitDepth;
  }

  class Field {
    const min: int
    const max: int
    var bitDepth: nat
    var optionDepth: nat

    /** A field over a transaction that stores nothing holds nothing. */
    constructor (min: int, max: int, depth: nat, ghost tx: Tx)
      ensures this.min == min && this.max == max && bitDepth == optionDepth == depth
      ensures tx.data == map[] ==> Valid(tx) && forall c: nat :: Of(tx).At(c) == None
    {
      this.min, this.max := min, max;
      bitDepth, optionDepth := depth, depth;
      new;
      if tx.data == map[] {
        EmptyIsValid(Of(tx));
      }
    }

    function Base(): int {
      BsiBase(min, max)
    }

    ghost function Of(tx: Tx): (w: View)
      reads this, tx
      ensures w.Base() == Base() && w.min == min && w.max == max && w.depth == bitDepth && w.data == tx.data
      ensures forall s: nat :: w.Shard(s) == Fragment(s, tx.Storage(s))
    {
      View(min, max, bitDepth, tx.data)
    }

    ghost predicate Valid(tx: Tx)
      reads this, tx
    {
      bitDepth == optionDepth && Of(tx).Valid()
    }

    method CacheBitDepth(tx: Tx, bd: nat)
      requires Valid(tx)
      modifies this
      ensures Valid(tx) && bitDepth == Larger(old(bitDepth), bd)
      ensures forall c: nat :: Of(tx).At(c) == old(Of(tx)).At(c)
    {
      if optionDepth < bd {
        optionDepth := bd;
      }
      if bitDepth < bd {
        bitDepth := bd;
      }
      Deeper(old(Of(tx)), bitDepth);
    }

    method Value(tx: Tx, col: nat) returns (value: int, exists_: bool)
      ensures Of(tx).At(col) == if exists_ then Some(value) else None
    {
      var ok;
      value, exists_, ok := BsiRead.Value(tx, col / SHARD_WIDTH, col, bitDepth);
      if !exists_ {
        return 0, false;
      }
      value := value + Base();
    }

    /** Out of range is refused; anything else is what the column then holds. */
    method SetValue(tx: Tx, col: nat, value: int) returns (changed: bool, err: Error)
      requires Valid(tx)
      modifies this, tx
      ensures Valid(tx) && (err == TooLow <==> value < min) && (err == TooHigh <==> min <= value && max < value)
      ensures err == NoError <==> min <= value <= max
      ensures bitDepth == if err == NoError then Larger(old(bitDepth), BitDepth(value - Base())) else old(bitDepth)
      ensures forall c: nat :: Of(tx).At(c) == if c == col && err == NoError then Some(value) else old(Of(tx)).At(c)
      ensures !changed ==> forall c: nat :: Of(tx).At(c) == old(Of(tx)).At(c)
    {
      hide View.At, View.Valid, BitDepth, Pow2;
      var baseValue := value - Base();
      if value < min {
        return false, TooLow;
      } else if value > max {
        return false, TooHigh;
      }
      RaiseForOne(tx, value, baseValue);
      changed := Store(tx, col, baseValue);
      err := NoError;
    }

    method RaiseForOne(tx: Tx, value: int, baseValue: int)
      requires Valid(tx) && min <= value <= max && baseValue == value - Base()
      modifies this
      ensures Valid(tx) && bitDepth == Larger(old(bitDepth), BitDepth(baseValue)) && Abs(baseValue) < Pow2(bitDepth)
      ensures forall c: nat :: Of(tx).At(c) == old(Of(tx)).At(c)
    {
      hide View.At, View.Valid, BitDepth, Pow2;
      BaseSide(min, max, value);
      if BitDepth(baseValue) > bitDepth {
        var uvalue: nat := if value < 0 then -baseValue else baseValue;
        SameDepth(baseValue, uvalue);
        bitDepth, optionDepth := BitLen(uvalue), BitLen(uvalue);
      }
      DepthFits(baseValue, bitDepth);
      Deeper(old(Of(tx)), bitDepth);
    }

    method Store(tx: Tx, col: nat, baseValue: int) returns (changed: bool)
      requires Valid(tx) && Abs(baseValue) < Pow2(bitDepth) && min <= baseValue + Base() <= max
      modifies tx
      ensures Valid(tx)
      ensures forall c: nat :: Of(tx).At(c) == if c == col then Some(baseValue + Base()) else old(Of(tx)).At(c)
      ensures !changed ==> forall c: nat :: Of(tx).At(c) == old(Of(tx)).At(c)
    {
      hide View.At, View.Valid, Overlay, Pow2;
      var ok;
      changed, ok := SetValueBase(tx, col / SHARD_WIDTH, col, bitDepth, baseValue, false);
      OneWrite(old(Of(tx)), Of(tx), col, baseValue, true);
      SameShards(old(Of(tx)), Of(tx), col / SHARD_WIDTH, changed);
    }

    /** The column then holds nothing; tells whether it held something. */
    method ClearValue(tx: Tx, col: nat) returns (changed: bool)
      requires Valid(tx)
      modifies tx
      ensures Valid(tx) && (changed <==> old(Of(tx)).At(col).Some?)
      ensures forall c: nat :: Of(tx).At(c) == if c == col then None else old(Of(tx)).At(c)
    {
      hide Overlay;
      ghost var w := Of(tx);
      var value, exists_, ok := BsiRead.Value(tx, col / SHARD_WIDTH, col, bitDepth);
      if !exists_ {
        return false;
      }
      ValueFits(w.Shard(col / SHARD_WIDTH), col, bitDepth);
      changed, ok := SetValueBase(tx, col / SHARD_WIDTH, col, bitDepth, value, true);
      OneWrite(w, Of(tx), col, value, false);
      SameShards(w, Of(tx), col / SHARD_WIDTH, changed);
    }

    /** Range and extremes of the values, in one pass. */
    method Extremes(values: array<int>) returns (lo: int, hi: int, err: Error)
      requires values.Length > 0
      ensures RangeAnswers(values[..], min, max, err)
      ensures err == NoError ==> lo in values[..] && hi in values[..] && InRange(values[..], lo, hi)
    {
      lo, hi := values[0], values[0];
      var i := 0;
      while i < values.Length
        invariant 0 <= i <= values.Length && lo in values[..] && hi in values[..]
        invariant InRange(values[..i], min, max) && InRange(values[..i], lo, hi)
      {
        assert forall j :: 0 <= j < i ==> values[..][j] == values[..i][j];
        if values[i] > max {
          OutAt(values[..], min, max, i);
          return lo, hi, TooHigh;
        } else if values[i] < min {
          OutAt(values[..], min, max, i);
          return lo, hi, TooLow;
        }
        if values[i] > hi {
          hi := values[i];
        }
        if values[i] < lo {
          lo := values[i];
        }
        i := i + 1;
      }
      assert values[..i] == values[..];
      NoneOut(values[..], min, max);
      err := NoError;
    }

    /** Raises the depth to what the values need. */
    method RaiseFor(tx: Tx, ghost vals: seq<int>, lo: int, hi: int)
      requires Valid(tx) && lo in vals && hi in vals && InRange(vals, lo, hi)
      modifies this
      ensures Valid(tx) && DepthFor(vals, Base(), old(bitDepth), bitDepth)
      ensures forall c: nat :: Of(tx).At(c) == old(Of(tx)).At(c)
    {
      var requiredDepth := Larger(BitDepth(lo - Base()), BitDepth(hi - Base()));
      if requiredDepth > bitDepth {
        bitDepth, optionDepth := requiredDepth, requiredDepth;
      }
      DepthEnough(vals, Base(), lo, hi, old(bitDepth));
      Deeper(old(Of(tx)), bitDepth);
    }

    method Shift(values: array<int>)
      modifies values
      ensures values[..] == Shifted(old(values[..]), Base())
    {
      if Base() != 0 {
        var i := 0;
        while i < values.Length
          invariant 0 <= i <= values.Length
          invariant forall j :: 0 <= j < i ==> values[j] == old(values[j]) - Base()
          invariant forall j :: i <= j < values.Length ==> values[j] == old(values[j])
        {
          values[i] := values[i] - Base();
          i := i + 1;
        }
      }
    }

    /** Imports pairs of one shard, with equal columns together: the last pair of
        a column is what it then holds. The caller's values are left base-relative. */
    method ImportValue(tx: Tx, cols: seq<nat>, values: array<int>, shard: nat, clear: bool) returns (err: Error)
      requires Valid(tx) && Adjacent(cols) && OneShard(cols)
      modifies this, tx, values
      ensures Valid(tx) && ImportAnswers(cols, old(values[..]), min, max, shard, err)
      ensures cols != [] && (err == NoError || err == WrongShard) ==> DepthFor(old(values[..]), Base(), old(bitDepth), bitDepth)
      ensures cols == [] || (err != NoError && err != WrongShard) ==> bitDepth == old(bitDepth)
      ensures cols != [] && err == NoError ==> values[..] == Shifted(old(values[..]), Base())
      ensures forall c: nat :: Of(tx).At(c) ==
                if cols == [] || err != NoError then old(Of(tx)).At(c) else ImportLater(old(Of(tx)), cols, old(values[..]), !clear, c)
    {
      hide FirstIsHigh, FirstIsLow, InOrder, View.At, View.Valid, BitDepth, LastOf, Pow2;
      if cols == [] {
        return NoError;
      }
      if values.Length != |cols| {
        return Mismatch;
      }
      ghost var w, vals := Of(tx), values[..];
      var lo, hi;
      lo, hi, err := Extremes(values);
      if err != NoError {
        return;
      }
      RaiseFor(tx, vals, lo, hi);
      if cols[0] / SHARD_WIDTH != shard {
        return WrongShard;
      }
      ghost var deep := Of(tx);
      Shift(values);
      var ok := BsiImport.ImportValue(tx, shard, cols, values[..], bitDepth, clear);
      AllFit(vals, Base(), bitDepth);
      assert InShard(cols, shard);
      ManyWrites(deep, Of(tx), cols, vals, !clear, shard);
    }
  }

  lemma SameDepth(v: int, u: nat)
    requires u == v || u == -v
    ensures BitDepth(v) == BitLen(u)
  {
  }

  /** Unchanged storage holds the same values. */
  lemma SameShards(w: View, w': View, sh: nat, changed: bool)
    requires Replaced(w, w', sh, w'.Shard(sh).storage)
    requires changed <==> w'.Shard(sh).storage != w.Shard(sh).storage
    ensures !changed ==> forall c: nat :: w'.At(c) == w.At(c)
  {
    if !changed {
      forall c: nat ensures w'.At(c) == w.At(c) {
        assert w'.Shard(c / SHARD_WIDTH) == w.Shard(c / SHARD_WIDTH);
      }
    }
  }

  lemma DepthEnough(vals: seq<int>, base: int, lo: int, hi: int, before: nat)
    requires lo in vals && hi in vals && InRange(vals, lo, hi)
    ensures DepthFor(vals, base, before, Larger(before, Larger(BitDepth(lo - base), BitDepth(hi - base))))
  {
    forall i | 0 <= i < |vals|
      ensures BitDepth(vals[i] - base) <= Larger(BitDepth(lo - base), BitDepth(hi - base))
    {
      DepthBetween(lo - base, vals[i] - base, hi - base);
    }
    hide BitDepth;
    var i :| 0 <= i < |vals| && vals[i] == lo;
    var j :| 0 <= j < |vals| && vals[j] == hi;
  }

  lemma AllFit(vals: seq<int>, base: int, d: nat)
    requires forall i :: 0 <= i < |vals| ==> BitDepth(vals[i] - base) <= d
    ensures forall i :: 0 <= i < |vals| ==> Abs(vals[i] - base) < Pow2(d)
  {
    forall i | 0 <= i < |vals|
      ensures Abs(vals[i] - base) < Pow2(d)
    {
      DepthFits(vals[i] - base, d);
    }
  }

  // ----- Runs -----

  datatype Op =
    | Set(col: nat, value: int)
    | Clear(col: nat)
    | Import(cols: seq<nat>, vals: seq<int>, shard: nat, clear: bool)
    | CacheDepth(bd: nat)

  ghost predicate ValidOp(op: Op) {
    op.Import? ==> Adjacent(op.cols) && OneShard(op.cols)
  }

  /** What one operation, if accepted, says a column holds. */
  ghost function Says(op: Op, min: int, max: int, c: nat): Option<Option<int>> {
    match op
    case Set(col, value) => if c == col && min <= value <= max then Some(Some(value)) else None
    case Clear(col) => if c == col then Some(None) else None
    case CacheDepth(_) => None
    case Import(cols, vals, shard, clear) =>
      if cols == [] || |vals| != |cols| || cols[0] / SHARD_WIDTH != shard then None
      else if exists i :: 0 <= i < |vals| && !(min <= vals[i] <= max) then None
      else
        match LastOf(cols, vals, c)
        case None => None
        case Some(v) => Some(if clear then None else Some(v))
  }

  /** What the last operation that says anything about a column says. */
  ghost function LastSaid(ops: seq<Op>, min: int, max: int, c: nat, initial: Option<int>): Option<int> {
    if ops == [] then initial
    else
      match Says(ops[|ops| - 1], min, max, c)
      case Some(held) => held
      case None => LastSaid(ops[..|ops| - 1], min, max, c, initial)
  }

  /** One operation of a run. */
  method Perform(f: Field, tx: Tx, op: Op)
    requires f.Valid(tx) && ValidOp(op)
    modifies f, tx
    ensures f.Valid(tx) && f.bitDepth >= old(f.bitDepth)
    ensures forall c: nat :: f.Of(tx).At(c) ==
              match Says(op, f.min, f.max, c) case Some(held) => held case None => old(f.Of(tx)).At(c)
  {
    match op
    case Set(col, value) => var _, _ := f.SetValue(tx, col, value);
    case Clear(col) => var _ := f.ClearValue(tx, col);
    case CacheDepth(bd) => f.CacheBitDepth(tx, bd);
    case Import(cols, vals, shard, clear) =>
      var values := new int[|vals|](i requires 0 <= i < |vals| => vals[i]);
      assert values[..] == vals;
      var _ := f.ImportValue(tx, cols, values, shard, clear);
  }

  /** After any run, the depth has not shrunk and every column holds exactly
      what was last written to it, or nothing if it was cleared since. */
  method Run(f: Field, tx: Tx, ops: seq<Op>)
    requires f.Valid(tx) && forall i :: 0 <= i < |ops| ==> ValidOp(ops[i])
    modifies f, tx
    ensures f.Valid(tx) && f.bitDepth >= old(f.bitDepth)
    ensures forall c: nat :: f.Of(tx).At(c) == LastSaid(ops, f.min, f.max, c, old(f.Of(tx)).At(c))
  {
    hide Says, Field.Valid;
    var n := 0;
    while n < |ops|
      invariant 0 <= n <= |ops| && f.Valid(tx) && f.bitDepth >= old(f.bitDepth)
      invariant forall c: nat :: f.Of(tx).At(c) == LastSaid(ops[..n], f.min, f.max, c, old(f.Of(tx)).At(c))
    {
      Perform(f, tx, ops[n]);
      assert ops[..n + 1][..n] == ops[..n];
      n := n + 1;
    }
    assert ops[..n] == ops;
  }
}
