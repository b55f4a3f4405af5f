// Building a bitmap from ascending values (bsi.go): the values of one key are
// collected in a list, which turns into a bit mask when it grows too long.
module RowBuilders {
  import opened Bits
  import opened Options

  const ARRAY_MAX_SIZE: nat := 4096
  const KEY_SIZE: nat := 65536
  const WORDS: nat := 1024

  /** A stored container: its low 16-bit values, and their stored number. */
  datatype Container = Container(bits: set<nat>, n: nat)

  // ----- Bit masks -----

  function WithBit(w: nat, i: nat): nat {
    if Bit(w, i) == 1 then w else w + Pow2(i)
  }

  lemma {:induction false} AddedBit(w: nat, i: nat, j: nat)
    requires Bit(w, i) == 0
    ensures Bit(w + Pow2(i), j) == if i == j then 1 else Bit(w, j)
  {
    if i == 0 {
      assert (w + 1) / 2 == w / 2;
    } else {
      assert (w + Pow2(i)) / 2 == w / 2 + Pow2(i - 1) && (w + Pow2(i)) % 2 == w % 2;
      if j > 0 {
        AddedBit(w / 2, i - 1, j - 1);
      }
    }
  }

  lemma WithBitBits(w: nat, i: nat, j: nat)
    ensures Bit(WithBit(w, i), j) == if i == j then 1 else Bit(w, j)
  {
    if Bit(w, i) == 0 {
      AddedBit(w, i, j);
    }
  }

  predicate InMask(mask: seq<nat>, v: nat)
    requires |mask| == WORDS && v < KEY_SIZE
  {
    Bit(mask[v / 64], v % 64) == 1
  }

  function MaskBits(mask: seq<nat>): (s: set<nat>)
    requires |mask| == WORDS
    ensures forall v: nat :: v in s <==> v < KEY_SIZE && InMask(mask, v)
  {
    set v | 0 <= v < KEY_SIZE && InMask(mask, v)
  }

  function MaskWith(mask: seq<nat>, v: nat): (m: seq<nat>)
    requires |mask| == WORDS && v < KEY_SIZE
    ensures |m| == WORDS
  {
    mask[v / 64 := WithBit(mask[v / 64], v % 64)]
  }

  lemma MaskWithBits(mask: seq<nat>, v: nat)
    requires |mask| == WORDS && v < KEY_SIZE
    ensures MaskBits(MaskWith(mask, v)) == MaskBits(mask) + {v}
  {
    hide Bit, WithBit;
    var m := MaskWith(mask, v);
    forall u | 0 <= u < KEY_SIZE ensures InMask(m, u) <==> InMask(mask, u) || u == v {
      WithBitBits(mask[v / 64], v % 64, u % 64);
    }
  }

  method EmptyMask() returns (mask: seq<nat>)
    ensures |mask| == WORDS && MaskBits(mask) == {}
  {
    mask := seq(WORDS, _ => 0);
    forall v | 0 <= v < KEY_SIZE ensures !InMask(mask, v) {
      ZeroBit(v % 64);
    }
  }

  lemma {:induction false} ZeroBit(i: nat)
    ensures Bit(0, i) == 0
  {
    if i > 0 {
      ZeroBit(i - 1);
    }
  }

  // ----- Arrays -----

  ghost predicate SortedArray(a: seq<nat>) {
    (forall i, j :: 0 <= i < j < |a| ==> a[i] < a[j]) && forall i :: 0 <= i < |a| ==> a[i] < KEY_SIZE
  }

  function ArrayBits(a: seq<nat>): set<nat> {
    set v | v in a
  }

  lemma {:induction false} ArrayBitsSize(a: seq<nat>)
    requires SortedArray(a)
    ensures |ArrayBits(a)| == |a|
  {
    if a != [] {
      var n := |a| - 1;
      ArrayBitsSize(a[..n]);
      assert ArrayBits(a) == ArrayBits(a[..n]) + {a[n]};
    }
  }

  /** The mask of a list's values. */
  method MaskOf(a: seq<nat>) returns (mask: seq<nat>)
    requires SortedArray(a)
    ensures |mask| == WORDS && MaskBits(mask) == ArrayBits(a)
  {
    mask := EmptyMask();
    for i := 0 to |a|
      invariant |mask| == WORDS && MaskBits(mask) == ArrayBits(a[..i])
    {
      MaskWithBits(mask, a[i]);
      mask := MaskWith(mask, a[i]);
      assert a[..i + 1] == a[..i] + [a[i]];
    }
    assert a[..|a|] == a;
  }

  // ----- The builder -----

  ghost predicate ValidContainers(bm: map<nat, Container>) {
    forall k :: k in bm ==> bm[k].n == |bm[k].bits| && forall v :: v in bm[k].bits ==> v < KEY_SIZE
  }

  predicate InBitmap(bm: map<nat, Container>, v: nat) {
    v / KEY_SIZE in bm && v % KEY_SIZE in bm[v / KEY_SIZE].bits
  }

  class RowBuilder {
    var bm: map<nat, Container>
    var mask: Option<seq<nat>>
    var values: seq<nat>
    var key: nat
    var n: nat

    ghost predicate Valid()
      reads this
    {
      && ValidContainers(bm) && SortedArray(values)
      && (mask.Some? ==> values == [] && |mask.value| == WORDS && n == |MaskBits(mask.value)|)
    }

    /** The values collected for the current key. */
    ghost function Current(): set<nat>
      requires Valid()
      reads this
    {
      if mask.Some? then MaskBits(mask.value) else ArrayBits(values)
    }

    ghost predicate Has(v: nat)
      requires Valid()
      reads this
    {
      InBitmap(bm, v) || (v / KEY_SIZE == key && v % KEY_SIZE in Current())
    }

    constructor ()
      ensures Valid() && forall v: nat :: !Has(v)
    {
      bm, mask, values, key, n := map[], None, [], 0, 0;
    }

    /** The current key's container, taken out of the builder. */
    method TakeCurrent() returns (c: Option<Container>)
      requires Valid()
      modifies this`mask, this`values
      ensures Valid() && mask.None? && values == []
      ensures c.None? ==> old(Current()) == {}
      ensures c.Some? ==> c.value == Container(old(Current()), |old(Current())|)
    {
      if mask.Some? {
        c := Some(Container(MaskBits(mask.value), n));
        mask := None;
      } else if |values| > 0 {
        ArrayBitsSize(values);
        c := Some(Container(ArrayBits(values), |values|));
        values := [];
      } else {
        c := None;
      }
    }

    /** Moves the current key's values into the bitmap; none are lost. */
    method FlushKey()
      requires Valid()
      modifies this`bm, this`mask, this`values
      ensures Valid() && mask.None? && values == []
      ensures forall v: nat :: Has(v) <==> old(Has(v))
    {
      hide InBitmap, ValidContainers, SortedArray, ArrayBits;
      ghost var current, before := Current(), bm;
      CurrentSmall(mask, values);
      var taken := TakeCurrent();
      CurrentSmall(None, []);
      if taken.None? {
        return;
      }
      var c := taken.value;
      if key in bm {
        var bits := c.bits + bm[key].bits;
        c := Container(bits, |bits|);
      }
      bm := bm[key := c];
      Flushed(before, bm, key, current);
    }

    /** Adds a low value to the current key. */
    method AddLow(low: nat)
      requires Valid() && low < KEY_SIZE && (mask.None? && values != [] ==> values[|values| - 1] < low)
      modifies this`mask, this`values, this`n
      ensures Valid() && Current() == old(Current()) + {low}
    {
      hide InMask, ValidContainers, ArrayBits, SortedArray;
      NoBits();
      if mask.Some? {
        var m := mask.value;
        MaskWithBits(m, low);
        OneMore(MaskBits(m), low);
        if !InMask(m, low) {
          n := n + 1;
        }
        mask := Some(MaskWith(m, low));
        return;
      }
      ghost var before := values;
      values := values + [low];
      Appended(before, low);
      if |values| >= ARRAY_MAX_SIZE {
        var m := MaskOf(values);
        ArrayBitsSize(values);
        n := |values|;
        values := [];
        mask := Some(m);
      }
    }

    /** Ascending values ascend within their key. */
    lemma Ascends(v: nat)
      requires Valid() && forall u: nat :: Has(u) ==> u < v
      ensures key == v / KEY_SIZE && mask.None? && values != [] ==> values[|values| - 1] < v % KEY_SIZE
    {
      if key == v / KEY_SIZE && mask.None? && values != [] {
        var low := values[|values| - 1];
        var u := key * KEY_SIZE + low;
        assert u / KEY_SIZE == key && u % KEY_SIZE == low;
        assert Has(u);
      }
    }

    /** Adds a value; within a key, values must ascend. */
    method Add(v: nat)
      requires Valid() && (key == v / KEY_SIZE && mask.None? && values != [] ==> values[|values| - 1] < v % KEY_SIZE)
      modifies this
      ensures Valid() && forall u: nat :: Has(u) <==> old(Has(u)) || u == v
    {
      hide InBitmap, SortedArray, ArrayBits, ValidContainers;
      var vkey := v / KEY_SIZE;
      if key != vkey {
        FlushKey();
        CurrentSmall(None, []);
        key := vkey;
      }
      AddLow(v % KEY_SIZE);
    }

    /** The finished bitmap, with every stored count right; resets the builder. */
    method Build() returns (row: map<nat, Container>)
      requires Valid()
      modifies this
      ensures ValidContainers(row) && forall v: nat :: InBitmap(row, v) <==> old(Has(v))
      ensures Valid() && forall v: nat :: !Has(v)
    {
      FlushKey();
      row := bm;
      bm := map[];
    }
  }

  lemma Flushed(before: map<nat, Container>, after: map<nat, Container>, key: nat, current: set<nat>)
    requires ValidContainers(before) && key in after && after == before[key := after[key]]
    requires forall v :: v in current ==> v < KEY_SIZE
    requires after[key].bits == current + (if key in before then before[key].bits else {}) && after[key].n == |after[key].bits|
    ensures ValidContainers(after)
    ensures forall v: nat :: InBitmap(after, v) <==> InBitmap(before, v) || (v / KEY_SIZE == key && v % KEY_SIZE in current)
  {
  }

  lemma CurrentSmall(mask: Option<seq<nat>>, values: seq<nat>)
    requires SortedArray(values) && (mask.Some? ==> |mask.value| == WORDS)
    ensures forall v :: v in ArrayBits(values) ==> v < KEY_SIZE
    ensures ArrayBits([]) == {} && SortedArray([])
  {
  }

  lemma Appended(a: seq<nat>, low: nat)
    requires SortedArray(a) && low < KEY_SIZE && (a != [] ==> a[|a| - 1] < low)
    ensures SortedArray(a + [low]) && ArrayBits(a + [low]) == ArrayBits(a) + {low}
  {
    forall i | 0 <= i < |a| ensures a[i] < low {
      assert i < |a| - 1 ==> a[i] < a[|a| - 1];
    }
  }

  lemma NoBits()
    ensures SortedArray([]) && ArrayBits([]) == {}
  {
  }

  lemma OneMore(s: set<nat>, v: nat)
    ensures |s + {v}| == |s| + (if v in s then 0 else 1)
  {
    if v in s {
      assert s + {v} == s;
    }
  }
}
