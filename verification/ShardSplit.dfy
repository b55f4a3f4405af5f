// Splitting an import request by shard (handler.go): an in-place radix
// partition of parallel arrays, one byte of the column ID at a time.
module ShardSplit {
  import opened Bits
  import BsiData
  import opened MinHeap

  /** Columns per shard are 2^EXPONENT. */
  const EXPONENT: nat := 20

  /** One imported bit; absent row IDs or timestamps read as 0. */
  datatype Entry = Entry(col: nat, row: nat, time: int)

  function ShardOf(e: Entry): nat {
    Shr(e.col, EXPONENT)
  }

  /** The shard of a column, by the width of a shard. */
  lemma ShardIs(e: Entry)
    ensures ShardOf(e) == e.col / BsiData.SHARD_WIDTH
  {
    ShrIsDiv(e.col, EXPONENT);
    ShardPower();
  }

  function BucketOf(e: Entry, shift: nat): (b: nat)
    ensures b < 256
  {
    Shr(e.col, shift) % 256
  }

  /** One output: a part of the request's arrays holding one shard. */
  datatype Slice = Slice(shard: nat, lo: nat, hi: nat)

  class ImportRequest {
    const columnIDs: array<nat>
    const rowIDs: array?<nat>
    const timestamps: array?<int>

    constructor (columnIDs: array<nat>, rowIDs: array?<nat>, timestamps: array?<int>)
      ensures this.columnIDs == columnIDs && this.rowIDs == rowIDs && this.timestamps == timestamps
    {
      this.columnIDs, this.rowIDs, this.timestamps := columnIDs, rowIDs, timestamps;
    }

    ghost predicate Valid() {
      && (rowIDs != null ==> rowIDs.Length == columnIDs.Length && rowIDs != columnIDs)
      && (timestamps != null ==> timestamps.Length == columnIDs.Length)
    }

    ghost function Repr(): set<object?> {
      {columnIDs as object?, rowIDs as object?, timestamps as object?}
    }

    ghost function At(i: nat): Entry
      requires Valid() && i < columnIDs.Length
      reads Repr()
    {
      Entry(columnIDs[i], if rowIDs != null then rowIDs[i] else 0, if timestamps != null then timestamps[i] else 0)
    }

    /** The request as one sequence of entries. */
    ghost function Entries(): (s: seq<Entry>)
      requires Valid()
      reads Repr()
      ensures |s| == columnIDs.Length && forall i :: 0 <= i < |s| ==> s[i] == At(i)
    {
      seq(columnIDs.Length, (i: int) requires 0 <= i < columnIDs.Length reads Repr() => At(i))
    }

    /** Exchanges two entries, in every array that is present. */
    method Swap(i: nat, j: nat)
      requires Valid() && i < columnIDs.Length && j < columnIDs.Length
      modifies Repr()
      ensures Entries() == Swapped(old(Entries()), i, j)
    {
      columnIDs[i], columnIDs[j] := columnIDs[j], columnIDs[i];
      if rowIDs != null {
        rowIDs[i], rowIDs[j] := rowIDs[j], rowIDs[i];
      }
      if timestamps != null {
        timestamps[i], timestamps[j] := timestamps[j], timestamps[i];
      }
    }
  }

  // ----- Counting -----

  /** How many of the entries from a to b go into bucket w. */
  function Count(s: seq<Entry>, a: nat, b: nat, shift: nat, w: nat): nat
    requires a <= b <= |s|
  {
    if a == b then 0 else Count(s, a, b - 1, shift, w) + (if BucketOf(s[b - 1], shift) == w then 1 else 0)
  }

  /** All entries from a to b go into bucket w. */
  ghost predicate AllIn(s: seq<Entry>, a: nat, b: nat, shift: nat, w: nat)
    requires a <= b <= |s|
  {
    forall i :: a <= i < b ==> BucketOf(s[i], shift) == w
  }

  lemma {:induction false} CountSplit(s: seq<Entry>, a: nat, m: nat, b: nat, shift: nat, w: nat)
    requires a <= m <= b <= |s|
    ensures Count(s, a, b, shift, w) == Count(s, a, m, shift, w) + Count(s, m, b, shift, w)
    decreases b
  {
    if m < b {
      CountSplit(s, a, m, b - 1, shift, w);
    }
  }

  lemma {:induction false} CountSame(s: seq<Entry>, t: seq<Entry>, a: nat, b: nat, shift: nat, w: nat)
    requires a <= b <= |s| && |t| == |s|
    requires forall i :: a <= i < b ==> BucketOf(s[i], shift) == BucketOf(t[i], shift)
    ensures Count(s, a, b, shift, w) == Count(t, a, b, shift, w)
  {
    if a < b {
      CountSame(s, t, a, b - 1, shift, w);
    }
  }

  lemma {:induction false} CountAll(s: seq<Entry>, a: nat, b: nat, shift: nat, w: nat, v: nat)
    requires a <= b <= |s| && AllIn(s, a, b, shift, v)
    ensures Count(s, a, b, shift, w) == if v == w then b - a else 0
  {
    if a < b {
      CountAll(s, a, b - 1, shift, w, v);
    }
  }

  /** A full bucket and one more of its entries elsewhere exceed the count. */
  lemma CountExceeds(s: seq<Entry>, lo: nat, hi: nat, a: nat, b: nat, j: nat, shift: nat, w: nat)
    requires lo <= a <= b <= hi <= |s| && lo <= j < hi && !(a <= j < b)
    requires AllIn(s, a, b, shift, w) && BucketOf(s[j], shift) == w
    ensures Count(s, lo, hi, shift, w) > b - a
  {
    CountAll(s, a, b, shift, w, w);
    CountSplit(s, lo, a, hi, shift, w);
    CountSplit(s, a, b, hi, shift, w);
    if j < a {
      CountSplit(s, lo, j, a, shift, w);
      CountSplit(s, j, j + 1, a, shift, w);
    } else {
      CountSplit(s, b, j, hi, shift, w);
      CountSplit(s, j, j + 1, hi, shift, w);
    }
  }

  function One(s: seq<Entry>, i: nat, shift: nat, w: nat): nat
    requires i < |s|
  {
    if BucketOf(s[i], shift) == w then 1 else 0
  }

  /** A count, with two positions taken out. */
  lemma CountAround(s: seq<Entry>, lo: nat, p: nat, q: nat, hi: nat, shift: nat, w: nat)
    requires lo <= p < q < hi <= |s|
    ensures Count(s, lo, hi, shift, w) ==
            Count(s, lo, p, shift, w) + One(s, p, shift, w) + Count(s, p + 1, q, shift, w) + One(s, q, shift, w) + Count(s, q + 1, hi, shift, w)
  {
    CountSplit(s, lo, p, hi, shift, w);
    CountSplit(s, p, p + 1, hi, shift, w);
    CountSplit(s, p + 1, q, hi, shift, w);
    CountSplit(s, q, q + 1, hi, shift, w);
    assert Count(s, p, p + 1, shift, w) == One(s, p, shift, w);
    assert Count(s, q, q + 1, shift, w) == One(s, q, shift, w);
  }

  lemma CountSwapped(s: seq<Entry>, lo: nat, hi: nat, p: nat, q: nat, shift: nat, w: nat)
    requires lo <= p < q < hi <= |s|
    ensures Count(Swapped(s, p, q), lo, hi, shift, w) == Count(s, lo, hi, shift, w)
  {
    var t := Swapped(s, p, q);
    hide Count, BucketOf;
    CountAround(s, lo, p, q, hi, shift, w);
    CountAround(t, lo, p, q, hi, shift, w);
    CountSame(s, t, lo, p, shift, w);
    CountSame(s, t, p + 1, q, shift, w);
    CountSame(s, t, q + 1, hi, shift, w);
  }

  lemma {:induction false} CountBound(s: seq<Entry>, a: nat, b: nat, shift: nat, n: nat)
    requires a <= b <= |s|
    ensures SumCounts(s, a, b, shift, n) <= b - a
    ensures n >= 256 ==> SumCounts(s, a, b, shift, n) == b - a
  {
    if a == b {
      SumCountsEmpty(s, a, shift, n);
    } else {
      CountBound(s, a, b - 1, shift, n);
      SumCountsSnoc(s, a, b, shift, n);
    }
  }

  /** The entries in the first n buckets. */
  function SumCounts(s: seq<Entry>, a: nat, b: nat, shift: nat, n: nat): nat
    requires a <= b <= |s|
  {
    if n == 0 then 0 else SumCounts(s, a, b, shift, n - 1) + Count(s, a, b, shift, n - 1)
  }

  lemma {:induction false} SumCountsEmpty(s: seq<Entry>, a: nat, shift: nat, n: nat)
    requires a <= |s|
    ensures SumCounts(s, a, a, shift, n) == 0
  {
    if n > 0 {
      SumCountsEmpty(s, a, shift, n - 1);
    }
  }

  lemma {:induction false} SumCountsSnoc(s: seq<Entry>, a: nat, b: nat, shift: nat, n: nat)
    requires a < b <= |s|
    ensures SumCounts(s, a, b, shift, n) == SumCounts(s, a, b - 1, shift, n) + (if BucketOf(s[b - 1], shift) < n then 1 else 0)
  {
    if n > 0 {
      SumCountsSnoc(s, a, b, shift, n - 1);
    }
  }

  lemma {:induction false} SumCountsMonotone(s: seq<Entry>, a: nat, b: nat, shift: nat, m: nat, n: nat)
    requires a <= b <= |s| && m <= n
    ensures SumCounts(s, a, b, shift, m) <= SumCounts(s, a, b, shift, n)
    ensures m < n ==> SumCounts(s, a, b, shift, m) + Count(s, a, b, shift, m) <= SumCounts(s, a, b, shift, n)
  {
    if m < n {
      SumCountsMonotone(s, a, b, shift, m, n - 1);
    }
  }

  // ----- Bits above a byte -----

  ghost predicate SameAbove(s: seq<Entry>, lo: nat, hi: nat, n: nat)
    requires lo <= hi <= |s|
  {
    forall i, j :: lo <= i < hi && lo <= j < hi ==> Shr(s[i].col, n) == Shr(s[j].col, n)
  }

  lemma ByteSplit(v: nat, shift: nat)
    ensures Shr(v, shift) == 256 * Shr(v, shift + 8) + Shr(v, shift) % 256
  {
    ShrShr(v, shift, 8);
    ByteShift(Shr(v, shift));
  }

  lemma ByteShift(x: nat)
    ensures Shr(x, 8) == x / 256
  {
    NibbleShift(x);
    NibbleShift(x / 16);
    ShrShr(x, 4, 4);
  }

  lemma NibbleShift(x: nat)
    ensures Shr(x, 4) == x / 16
  {
    assert Shr(x, 4) == Shr(x / 2, 3) == Shr(x / 2 / 2, 2) == Shr(x / 2 / 2 / 2, 1) == Shr(x / 2 / 2 / 2 / 2, 0);
    assert x / 2 / 2 == x / 4;
    assert x / 4 / 2 / 2 == x / 16;
  }

  /** One bucket of entries that agree above the byte agree above the shift. */
  lemma SameInBucket(s: seq<Entry>, a: nat, b: nat, shift: nat, w: nat)
    requires a <= b <= |s| && SameAbove(s, a, b, shift + 8) && AllIn(s, a, b, shift, w)
    ensures SameAbove(s, a, b, shift)
  {
    forall i, j | a <= i < b && a <= j < b
      ensures Shr(s[i].col, shift) == Shr(s[j].col, shift)
    {
      ByteSplit(s[i].col, shift);
      ByteSplit(s[j].col, shift);
      assert BucketOf(s[i], shift) == BucketOf(s[j], shift);
    }
  }

  lemma SameHigher(s: seq<Entry>, a: nat, b: nat, m: nat, n: nat)
    requires a <= b <= |s| && SameAbove(s, a, b, m) && m <= n
    ensures SameAbove(s, a, b, n)
  {
    forall i, j | a <= i < b && a <= j < b
      ensures Shr(s[i].col, n) == Shr(s[j].col, n)
    {
      ShrShr(s[i].col, m, n - m);
      ShrShr(s[j].col, m, n - m);
    }
  }

  // ----- The bucket layout -----

  /** The bounds of the 256 buckets: adjacent, as wide as their counts. */
  ghost predicate Layout(s: seq<Entry>, lo: nat, hi: nat, shift: nat, orig: seq<nat>, ends: seq<nat>)
    requires lo <= hi <= |s|
  {
    && |orig| == |ends| == 256 && orig[0] == lo && ends[255] == hi
    && (forall w :: 0 <= w < 256 ==> ends[w] == orig[w] + Count(s, lo, hi, shift, w))
    && (forall w :: 0 <= w < 255 ==> ends[w] == orig[w + 1])
  }

  lemma {:induction false} LayoutOrder(s: seq<Entry>, lo: nat, hi: nat, shift: nat, orig: seq<nat>, ends: seq<nat>,
                                       v: nat, w: nat)
    requires lo <= hi <= |s| && Layout(s, lo, hi, shift, orig, ends) && v < w < 256
    ensures ends[v] <= orig[w]
  {
    if v + 1 < w {
      LayoutOrder(s, lo, hi, shift, orig, ends, v, w - 1);
    }
  }

  lemma LayoutBounds(s: seq<Entry>, lo: nat, hi: nat, shift: nat, orig: seq<nat>, ends: seq<nat>, w: nat)
    requires lo <= hi <= |s| && Layout(s, lo, hi, shift, orig, ends) && w < 256
    ensures lo <= orig[w] <= ends[w] <= hi
  {
    if w > 0 {
      LayoutOrder(s, lo, hi, shift, orig, ends, 0, w);
    }
    if w < 255 {
      LayoutOrder(s, lo, hi, shift, orig, ends, w, 255);
    }
  }

  /** Buckets below b are complete; every bucket is right up to `starts`. */
  ghost predicate Sorting(s: seq<Entry>, lo: nat, hi: nat, shift: nat, orig: seq<nat>, ends: seq<nat>,
                          starts: seq<nat>, b: nat)
    requires lo <= hi <= |s|
  {
    && b <= 256 && |starts| == |orig| == |ends| == 256
    && Layout(s, lo, hi, shift, orig, ends)
    && (forall w :: 0 <= w < 256 ==> orig[w] <= starts[w] <= ends[w] <= hi)
    && (forall w :: 0 <= w < 256 ==> AllIn(s, orig[w], starts[w], shift, w))
    && (forall w :: 0 <= w < b ==> AllIn(s, orig[w], ends[w], shift, w))
  }

  /** An entry out of place belongs to a later bucket with room left. */
  lemma WantHasRoom(s: seq<Entry>, lo: nat, hi: nat, shift: nat, orig: seq<nat>, ends: seq<nat>, starts: seq<nat>,
                    b: nat, j: nat)
    requires lo <= hi <= |s| && Sorting(s, lo, hi, shift, orig, ends, starts, b)
    requires b < 256 && orig[b] <= j < ends[b] && BucketOf(s[j], shift) != b
    ensures var w := BucketOf(s[j], shift); b < w && j < starts[w] < ends[w] <= hi
    ensures lo <= j < hi
  {
    hide Count, BucketOf;
    var w := BucketOf(s[j], shift);
    LayoutBounds(s, lo, hi, shift, orig, ends, b);
    LayoutBounds(s, lo, hi, shift, orig, ends, w);
    if w < b {
      LayoutOrder(s, lo, hi, shift, orig, ends, w, b);
      CountExceeds(s, lo, hi, orig[w], ends[w], j, shift, w);
      assert false;
    }
    LayoutOrder(s, lo, hi, shift, orig, ends, b, w);
    if starts[w] == ends[w] {
      CountExceeds(s, lo, hi, orig[w], ends[w], j, shift, w);
    }
  }

  /** Sending the entry to its bucket keeps everything sorted so far. */
  lemma SwapStep(s: seq<Entry>, lo: nat, hi: nat, shift: nat, orig: seq<nat>, ends: seq<nat>, starts: seq<nat>,
                 b: nat, j: nat, w: nat)
    requires lo <= hi <= |s| && Sorting(s, lo, hi, shift, orig, ends, starts, b)
    requires b < 256 && orig[b] <= j < ends[b] && w == BucketOf(s[j], shift) && w != b
    requires AllIn(s, orig[b], j, shift, b)
    ensures b < w && j < starts[w] < ends[w] <= hi
    ensures Sorting(Swapped(s, j, starts[w]), lo, hi, shift, orig, ends, starts[w := starts[w] + 1], b)
    ensures AllIn(Swapped(s, j, starts[w]), orig[b], j, shift, b)
  {
    WantHasRoom(s, lo, hi, shift, orig, ends, starts, b, j);
    SwapKeepsLayout(s, lo, hi, shift, orig, ends, j, starts[w]);
    AllInAway(s, orig[b], j, shift, b, j, starts[w]);
    forall v | 0 <= v < 256
      ensures AllIn(Swapped(s, j, starts[w]), orig[v], if v == w then starts[w] + 1 else starts[v], shift, v)
      ensures v < b ==> AllIn(Swapped(s, j, starts[w]), orig[v], ends[v], shift, v)
    {
      SwapStaysIn(s, lo, hi, shift, orig, ends, starts, b, j, w, v);
    }
    StillSorting(s, Swapped(s, j, starts[w]), lo, hi, shift, orig, ends, starts, b, w);
  }

  lemma StillSorting(s: seq<Entry>, t: seq<Entry>, lo: nat, hi: nat, shift: nat, orig: seq<nat>, ends: seq<nat>,
                     starts: seq<nat>, b: nat, w: nat)
    requires lo <= hi <= |s| == |t| && Sorting(s, lo, hi, shift, orig, ends, starts, b)
    requires w < 256 && starts[w] < ends[w] && Layout(t, lo, hi, shift, orig, ends)
    requires forall v :: 0 <= v < 256 ==> AllIn(t, orig[v], if v == w then starts[w] + 1 else starts[v], shift, v)
    requires forall v :: 0 <= v < b ==> AllIn(t, orig[v], ends[v], shift, v)
    ensures Sorting(t, lo, hi, shift, orig, ends, starts[w := starts[w] + 1], b)
  {
    hide AllIn, Layout;
  }

  lemma SwapStaysIn(s: seq<Entry>, lo: nat, hi: nat, shift: nat, orig: seq<nat>, ends: seq<nat>, starts: seq<nat>,
                    b: nat, j: nat, w: nat, v: nat)
    requires lo <= hi <= |s| && Sorting(s, lo, hi, shift, orig, ends, starts, b)
    requires b < w < 256 && v < 256 && orig[b] <= j < ends[b] && BucketOf(s[j], shift) == w
    requires starts[w] < ends[w]
    ensures AllIn(Swapped(s, j, starts[w]), orig[v], if v == w then starts[w] + 1 else starts[v], shift, v)
    ensures v < b ==> AllIn(Swapped(s, j, starts[w]), orig[v], ends[v], shift, v)
  {
    var d := starts[w];
    if v != b {
      Apart(s, lo, hi, shift, orig, ends, b, v, j);
    }
    if v == w {
      AllInGrow(s, orig[w], d, shift, w, j);
    } else {
      Apart(s, lo, hi, shift, orig, ends, w, v, d);
      AllInAway(s, orig[v], starts[v], shift, v, j, d);
      if v < b {
        AllInAway(s, orig[v], ends[v], shift, v, j, d);
      }
    }
  }

  lemma SwapKeepsLayout(s: seq<Entry>, lo: nat, hi: nat, shift: nat, orig: seq<nat>, ends: seq<nat>, j: nat, d: nat)
    requires lo <= j < d < hi <= |s| && Layout(s, lo, hi, shift, orig, ends)
    ensures Layout(Swapped(s, j, d), lo, hi, shift, orig, ends)
  {
    hide Count, Swapped;
    forall v | 0 <= v < 256
      ensures Count(Swapped(s, j, d), lo, hi, shift, v) == Count(s, lo, hi, shift, v)
    {
      CountSwapped(s, lo, hi, j, d, shift, v);
    }
  }

  /** A position in one bucket is in no other. */
  lemma Apart(s: seq<Entry>, lo: nat, hi: nat, shift: nat, orig: seq<nat>, ends: seq<nat>, u: nat, v: nat, x: nat)
    requires lo <= hi <= |s| && Layout(s, lo, hi, shift, orig, ends)
    requires u < 256 && v < 256 && u != v && orig[u] <= x < ends[u]
    ensures !(orig[v] <= x < ends[v])
  {
    if u < v {
      LayoutOrder(s, lo, hi, shift, orig, ends, u, v);
    } else {
      LayoutOrder(s, lo, hi, shift, orig, ends, v, u);
    }
  }

  lemma AllInAway(s: seq<Entry>, a: nat, e: nat, shift: nat, v: nat, j: nat, d: nat)
    requires a <= e <= |s| && AllIn(s, a, e, shift, v)
    requires j < |s| && d < |s| && !(a <= j < e) && !(a <= d < e)
    ensures AllIn(Swapped(s, j, d), a, e, shift, v)
  {
  }

  lemma AllInGrow(s: seq<Entry>, a: nat, d: nat, shift: nat, v: nat, j: nat)
    requires a <= d < |s| && AllIn(s, a, d, shift, v)
    requires j < |s| && !(a <= j <= d) && BucketOf(s[j], shift) == v
    ensures AllIn(Swapped(s, j, d), a, d + 1, shift, v)
  {
  }

  /** What one pass may change: it permutes [lo, hi) and moves nothing outside. */
  ghost predicate Rearranged(s: seq<Entry>, t: seq<Entry>, lo: nat, hi: nat)
    requires lo <= hi <= |s|
  {
    |t| == |s| && t[..lo] == s[..lo] && t[hi..] == s[hi..] && multiset(t[lo..hi]) == multiset(s[lo..hi])
  }

  lemma SwapRearranges(s: seq<Entry>, lo: nat, hi: nat, i: nat, j: nat)
    requires lo <= i < hi <= |s| && lo <= j < hi
    ensures Rearranged(s, Swapped(s, i, j), lo, hi)
  {
    hide Swapped;
    SwapPermutes(s[lo..hi], i - lo, j - lo, hi - lo);
    SwapInside(s, lo, hi, i, j);
    WholeSlice(s[lo..hi]);
    WholeSlice(Swapped(s[lo..hi], i - lo, j - lo));
  }

  lemma SwapInside(s: seq<Entry>, lo: nat, hi: nat, i: nat, j: nat)
    requires lo <= i < hi <= |s| && lo <= j < hi
    ensures Swapped(s, i, j)[lo..hi] == Swapped(s[lo..hi], i - lo, j - lo)
    ensures Swapped(s, i, j)[..lo] == s[..lo] && Swapped(s, i, j)[hi..] == s[hi..]
  {
  }

  lemma WholeSlice(s: seq<Entry>)
    ensures s[..|s|] == s
  {
  }

  lemma RearrangedTrans(s: seq<Entry>, t: seq<Entry>, u: seq<Entry>, lo: nat, hi: nat)
    requires lo <= hi <= |s| && Rearranged(s, t, lo, hi) && Rearranged(t, u, lo, hi)
    ensures Rearranged(s, u, lo, hi)
  {
  }

  /** Rearranging a part rearranges the whole. */
  lemma RearrangedPart(s: seq<Entry>, t: seq<Entry>, lo: nat, a: nat, b: nat, hi: nat)
    requires lo <= a <= b <= hi <= |s| && Rearranged(s, t, a, b)
    ensures Rearranged(s, t, lo, hi)
  {
    ThreeParts(s, lo, a, b, hi);
    ThreeParts(t, lo, a, b, hi);
  }

  lemma ThreeParts(s: seq<Entry>, lo: nat, a: nat, b: nat, hi: nat)
    requires lo <= a <= b <= hi <= |s|
    ensures s[lo..hi] == s[..a][lo..] + s[a..b] + s[b..][..hi - b]
    ensures s[hi..] == s[b..][hi - b..] && s[..lo] == s[..a][..lo]
  {
  }

  /** Every entry of the part was there before. */
  lemma RearrangedMember(s: seq<Entry>, t: seq<Entry>, lo: nat, hi: nat, i: nat) returns (j: nat)
    requires lo <= i < hi <= |s| && Rearranged(s, t, lo, hi)
    ensures lo <= j < hi && s[j] == t[i]
  {
    assert t[i] == t[lo..hi][i - lo];
    assert t[i] in multiset(t[lo..hi]);
    assert t[i] in multiset(s[lo..hi]);
    var k :| 0 <= k < |s[lo..hi]| && s[lo..hi][k] == t[i];
    j := lo + k;
  }

  // ----- One pass -----

  /** Counts the entries of each bucket and turns the counts into bounds. */
  method Bounds(ir: ImportRequest, lo: nat, hi: nat, shift: nat) returns (starts: seq<nat>, ends: seq<nat>)
    requires ir.Valid() && lo <= hi <= ir.columnIDs.Length
    ensures Sorting(ir.Entries(), lo, hi, shift, starts, ends, starts, 0)
  {
    hide Count, Sorting;
    ghost var s := ir.Entries();
    var counts := CountBuckets(ir, lo, hi, shift);
    assert ir.Entries() == s && forall w :: 0 <= w < 256 ==> counts[w] == Count(s, lo, hi, shift, w);
    var total := lo;
    starts, ends := [], [];
    for i := 0 to 256
      invariant |starts| == |ends| == i && total == lo + SumCounts(s, lo, hi, shift, i)
      invariant forall w :: 0 <= w < i ==> starts[w] == lo + SumCounts(s, lo, hi, shift, w)
      invariant forall w :: 0 <= w < i ==> ends[w] == lo + SumCounts(s, lo, hi, shift, w + 1)
    {
      starts := starts + [total];
      assert SumCounts(s, lo, hi, shift, i + 1) == SumCounts(s, lo, hi, shift, i) + counts[i];
      total := total + counts[i];
      ends := ends + [total];
    }
    CountBound(s, lo, hi, shift, 256);
    BoundsAreLayout(s, lo, hi, shift, starts, ends);
  }

  method CountBuckets(ir: ImportRequest, lo: nat, hi: nat, shift: nat) returns (counts: seq<nat>)
    requires ir.Valid() && lo <= hi <= ir.columnIDs.Length
    ensures |counts| == 256 && forall w :: 0 <= w < 256 ==> counts[w] == Count(ir.Entries(), lo, hi, shift, w)
  {
    ghost var s := ir.Entries();
    var buckets := new nat[256](i => 0);
    var i := lo;
    while i < hi
      invariant lo <= i <= hi
      invariant forall w :: 0 <= w < 256 ==> buckets[w] == Count(s, lo, i, shift, w)
    {
      var b := Shr(ir.columnIDs[i], shift) % 256;
      assert b == BucketOf(s[i], shift);
      buckets[b] := buckets[b] + 1;
      i := i + 1;
    }
    counts := buckets[..];
    assert ir.Entries() == s;
  }

  lemma BoundsAreLayout(s: seq<Entry>, lo: nat, hi: nat, shift: nat, orig: seq<nat>, ends: seq<nat>)
    requires lo <= hi <= |s| && |orig| == |ends| == 256
    requires forall w :: 0 <= w < 256 ==> orig[w] == lo + SumCounts(s, lo, hi, shift, w)
    requires forall w :: 0 <= w < 256 ==> ends[w] == lo + SumCounts(s, lo, hi, shift, w + 1)
    requires SumCounts(s, lo, hi, shift, 256) == hi - lo
    ensures Sorting(s, lo, hi, shift, orig, ends, orig, 0)
  {
    assert SumCounts(s, lo, hi, shift, 0) == 0;
    forall w | 0 <= w < 256
      ensures orig[w] <= ends[w] <= hi
    {
      SumCountsMonotone(s, lo, hi, shift, w + 1, 256);
    }
    assert Layout(s, lo, hi, shift, orig, ends);
  }

  ghost function Room(starts: seq<nat>, ends: seq<nat>, n: nat): int
    requires n <= |starts| && n <= |ends|
  {
    if n == 0 then 0 else Room(starts, ends, n - 1) + (ends[n - 1] as int - starts[n - 1])
  }

  lemma {:induction false} RoomShrinks(starts: seq<nat>, ends: seq<nat>, n: nat, w: nat)
    requires n <= |starts| && n <= |ends| && w < |starts|
    ensures Room(starts[w := starts[w] + 1], ends, n) == Room(starts, ends, n) - (if w < n then 1 else 0)
  {
    if n > 0 {
      RoomShrinks(starts, ends, n - 1, w);
    }
  }

  lemma {:induction false} RoomNonNegative(starts: seq<nat>, ends: seq<nat>, n: nat)
    requires n <= |starts| && n <= |ends| && forall w :: 0 <= w < n ==> starts[w] <= ends[w]
    ensures Room(starts, ends, n) >= 0
  {
    if n > 0 {
      RoomNonNegative(starts, ends, n - 1);
    }
  }

  lemma SortingRoom(s: seq<Entry>, lo: nat, hi: nat, shift: nat, orig: seq<nat>, ends: seq<nat>, starts: seq<nat>,
                    b: nat)
    requires lo <= hi <= |s| && Sorting(s, lo, hi, shift, orig, ends, starts, b)
    ensures Room(starts, ends, 256) >= 0
  {
    RoomNonNegative(starts, ends, 256);
  }

  /** Sends the entries at j to their buckets until one belongs at j. */
  method Settle(ir: ImportRequest, lo: nat, hi: nat, shift: nat, ghost orig: seq<nat>, ghost ends: seq<nat>,
                starts0: seq<nat>, b: nat, j: nat)
    returns (starts: seq<nat>)
    requires ir.Valid() && lo <= hi <= ir.columnIDs.Length && b < 256
    requires |orig| == |ends| == |starts0| == 256
    requires Sorting(ir.Entries(), lo, hi, shift, orig, ends, starts0, b)
    requires lo <= orig[b] <= j < ends[b] <= hi && AllIn(ir.Entries(), orig[b], j, shift, b)
    modifies ir.Repr()
    ensures |starts| == 256 && Sorting(ir.Entries(), lo, hi, shift, orig, ends, starts, b)
    ensures AllIn(ir.Entries(), orig[b], j + 1, shift, b)
    ensures Rearranged(old(ir.Entries()), ir.Entries(), orig[b], hi)
  {
    hide Sorting, Layout, Count, Room;
    ghost var s0 := ir.Entries();
    starts := starts0;
    var want := Shr(ir.columnIDs[j], shift) % 256;
    while want != b
      invariant want == BucketOf(ir.Entries()[j], shift)
      invariant |starts| == 256
      invariant Sorting(ir.Entries(), lo, hi, shift, orig, ends, starts, b)
      invariant AllIn(ir.Entries(), orig[b], j, shift, b)
      invariant Rearranged(s0, ir.Entries(), orig[b], hi)
      decreases Room(starts, ends, 256)
    {
      ghost var s := ir.Entries();
      SwapStep(s, lo, hi, shift, orig, ends, starts, b, j, want);
      RoomShrinks(starts, ends, 256, want);
      SortingRoom(s, lo, hi, shift, orig, ends, starts, b);
      var dst := starts[want];
      SwapRearranges(s, orig[b], hi, j, dst);
      RearrangedTrans(s0, s, Swapped(s, j, dst), orig[b], hi);
      ir.Swap(j, dst);
      starts := starts[want := starts[want] + 1];
      want := Shr(ir.columnIDs[j], shift) % 256;
    }
  }

  /** Completes one bucket, touching nothing before it. */
  method FillBucket(ir: ImportRequest, lo: nat, hi: nat, shift: nat, orig: seq<nat>, ends: seq<nat>,
                    starts0: seq<nat>, b: nat)
    returns (starts: seq<nat>)
    requires ir.Valid() && lo <= hi <= ir.columnIDs.Length && b < 256
    requires Sorting(ir.Entries(), lo, hi, shift, orig, ends, starts0, b)
    modifies ir.Repr()
    ensures Sorting(ir.Entries(), lo, hi, shift, orig, ends, starts, b + 1)
    ensures Rearranged(old(ir.Entries()), ir.Entries(), orig[b], hi)
  {
    ghost var s0 := ir.Entries();
    starts := starts0;
    LayoutBounds(s0, lo, hi, shift, orig, ends, b);
    assert |orig| == |ends| == |starts| == 256 && AllIn(s0, orig[b], orig[b], shift, b) && Rearranged(s0, s0, orig[b], hi);
    hide Sorting, AllIn, Rearranged;
    var j := orig[b];
    while j < ends[b]
      invariant orig[b] <= j <= ends[b] && |starts| == 256
      invariant Sorting(ir.Entries(), lo, hi, shift, orig, ends, starts, b)
      invariant AllIn(ir.Entries(), orig[b], j, shift, b)
      invariant Rearranged(s0, ir.Entries(), orig[b], hi)
    {
      ghost var s := ir.Entries();
      starts := Settle(ir, lo, hi, shift, orig, ends, starts, b, j);
      RearrangedTrans(s0, s, ir.Entries(), orig[b], hi);
      j := j + 1;
    }
    NextBucket(ir.Entries(), lo, hi, shift, orig, ends, starts, b);
  }

  lemma NextBucket(s: seq<Entry>, lo: nat, hi: nat, shift: nat, orig: seq<nat>, ends: seq<nat>, starts: seq<nat>,
                   b: nat)
    requires lo <= hi <= |s| && b < 256 && Sorting(s, lo, hi, shift, orig, ends, starts, b)
    requires AllIn(s, orig[b], ends[b], shift, b)
    ensures Sorting(s, lo, hi, shift, orig, ends, starts, b + 1)
  {
    hide AllIn, Layout;
  }

  // ----- The outputs -----

  /** The slice is non-empty and holds entries of its shard only. */
  ghost predicate SliceOk(s: seq<Entry>, sl: Slice, k: nat) {
    && sl.shard == k && sl.lo < sl.hi <= |s|
    && forall i :: sl.lo <= i < sl.hi ==> ShardOf(s[i]) == k
  }

  /** `out` adds to `into` one slice per shard of [lo, hi), and each position
      lies in the slice of its shard. */
  ghost predicate Covers(s: seq<Entry>, lo: nat, hi: nat, into: map<nat, Slice>, out: map<nat, Slice>)
    requires lo <= hi <= |s|
  {
    && (forall k :: k in into ==> k in out && out[k] == into[k])
    && (forall k :: k in out && k !in into ==> lo <= out[k].lo && out[k].hi <= hi && SliceOk(s, out[k], k))
    && (forall i :: lo <= i < hi ==> Placed(s, i, into, out))
  }

  ghost predicate Placed(s: seq<Entry>, i: nat, into: map<nat, Slice>, out: map<nat, Slice>)
    requires i < |s|
  {
    ShardOf(s[i]) in out && ShardOf(s[i]) !in into && out[ShardOf(s[i])].lo <= i < out[ShardOf(s[i])].hi
  }

  lemma CoversJoin(s: seq<Entry>, lo: nat, m: nat, hi: nat, into: map<nat, Slice>, mid: map<nat, Slice>,
                   out: map<nat, Slice>)
    requires lo <= m <= hi <= |s|
    requires Covers(s, lo, m, into, mid) && Covers(s, m, hi, mid, out)
    ensures Covers(s, lo, hi, into, out)
  {
    forall i | lo <= i < hi
      ensures Placed(s, i, into, out)
    {
      if i < m {
        assert Placed(s, i, into, mid);
      } else {
        assert Placed(s, i, mid, out);
      }
    }
  }

  /** Changing other positions does not matter. */
  lemma CoversSame(s: seq<Entry>, t: seq<Entry>, lo: nat, hi: nat, into: map<nat, Slice>, out: map<nat, Slice>)
    requires lo <= hi <= |s| == |t| && Covers(s, lo, hi, into, out)
    requires forall i :: lo <= i < hi ==> s[i] == t[i]
    ensures Covers(t, lo, hi, into, out)
  {
    forall i | lo <= i < hi
      ensures Placed(t, i, into, out)
    {
      assert Placed(s, i, into, out);
    }
  }

  /** The shard determines the bucket. */
  lemma BucketOfShard(e: Entry, shift: nat)
    requires shift >= EXPONENT
    ensures BucketOf(e, shift) == Shr(ShardOf(e), shift - EXPONENT) % 256
  {
    ShrShr(e.col, EXPONENT, shift - EXPONENT);
  }

  function Clamp(shift: int): nat {
    if shift < EXPONENT then EXPONENT else shift
  }

  /** The shards of the part are new to the map. */
  ghost predicate NewShards(s: seq<Entry>, lo: nat, hi: nat, into: map<nat, Slice>)
    requires lo <= hi <= |s|
  {
    forall i :: lo <= i < hi ==> ShardOf(s[i]) !in into
  }

  /** The added outputs belong to buckets below b. */
  ghost predicate BelowBucket(into: map<nat, Slice>, out: map<nat, Slice>, shift: nat, b: nat)
    requires shift >= EXPONENT
  {
    forall k :: k in out && k !in into ==> Shr(k, shift - EXPONENT) % 256 < b
  }

  lemma NewInBucket(s: seq<Entry>, a: nat, e: nat, into: map<nat, Slice>, out: map<nat, Slice>, shift: nat, b: nat)
    requires shift >= EXPONENT && a <= e <= |s| && AllIn(s, a, e, shift, b)
    requires NewShards(s, a, e, into) && BelowBucket(into, out, shift, b)
    ensures NewShards(s, a, e, out)
  {
    forall i | a <= i < e
      ensures ShardOf(s[i]) !in out
    {
      BucketOfShard(s[i], shift);
    }
  }

  lemma BelowNextBucket(s: seq<Entry>, a: nat, e: nat, into: map<nat, Slice>, mid: map<nat, Slice>,
                        out: map<nat, Slice>, shift: nat, b: nat)
    requires shift >= EXPONENT && a <= e <= |s| && AllIn(s, a, e, shift, b)
    requires BelowBucket(into, mid, shift, b) && Covers(s, a, e, mid, out)
    ensures BelowBucket(into, out, shift, b + 1)
  {
    forall k | k in out && k !in into
      ensures Shr(k, shift - EXPONENT) % 256 < b + 1
    {
      if k !in mid {
        var i := out[k].lo;
        assert SliceOk(s, out[k], k);
        BucketOfShard(s[i], shift);
      }
    }
  }

  /** A rearrangement keeps what holds of all entries of the part. */
  lemma RearrangedKeeps(s: seq<Entry>, t: seq<Entry>, lo: nat, hi: nat, n: nat, shift: nat, b: nat,
                        into: map<nat, Slice>)
    requires lo <= hi <= |s| && Rearranged(s, t, lo, hi)
    ensures SameAbove(s, lo, hi, n) ==> SameAbove(t, lo, hi, n)
    ensures NewShards(s, lo, hi, into) ==> NewShards(t, lo, hi, into)
    ensures AllIn(s, lo, hi, shift, b) ==> AllIn(t, lo, hi, shift, b)
  {
    forall i | lo <= i < hi
      ensures exists j :: lo <= j < hi && s[j] == t[i]
    {
      var j := RearrangedMember(s, t, lo, hi, i);
    }
  }

  ghost function End(orig: seq<nat>, b: nat, hi: nat): nat
    requires |orig| == 256 && b <= 256
  {
    if b < 256 then orig[b] else hi
  }

  lemma BucketEnd(s: seq<Entry>, lo: nat, hi: nat, shift: nat, orig: seq<nat>, ends: seq<nat>, starts: seq<nat>,
                  b: nat, w: nat)
    requires lo <= hi <= |s| && Sorting(s, lo, hi, shift, orig, ends, starts, b) && w < 256
    ensures |orig| == |ends| == |starts| == 256 && orig[0] == lo
    ensures lo <= orig[w] <= ends[w] <= hi && ends[w] == End(orig, w + 1, hi)
    ensures w < b ==> AllIn(s, orig[w], ends[w], shift, w)
  {
    LayoutBounds(s, lo, hi, shift, orig, ends, w);
  }

  /** Between two buckets: the buckets below b are complete and recorded. */
  ghost predicate Progress(s0: seq<Entry>, s: seq<Entry>, lo: nat, hi: nat, shift: nat, orig: seq<nat>,
                           ends: seq<nat>, starts: seq<nat>, b: nat,
                           into: map<nat, Slice>, out: map<nat, Slice>)
    requires lo <= hi <= |s0| == |s| && shift >= EXPONENT
  {
    && Sorting(s, lo, hi, shift, orig, ends, starts, b)
    && Rearranged(s0, s, lo, hi)
    && lo <= End(orig, b, hi) <= hi
    && Covers(s, lo, End(orig, b, hi), into, out)
    && BelowBucket(into, out, shift, b)
  }

  lemma ProgressStarts(s: seq<Entry>, lo: nat, hi: nat, shift: nat, orig: seq<nat>, ends: seq<nat>,
                       into: map<nat, Slice>)
    requires lo <= hi <= |s| && shift >= EXPONENT && Sorting(s, lo, hi, shift, orig, ends, orig, 0)
    ensures Progress(s, s, lo, hi, shift, orig, ends, orig, 0, into, into)
  {
    BucketEnd(s, lo, hi, shift, orig, ends, orig, 0, 0);
  }

  /** A completed bucket agrees above the shift and its shards are new. */
  lemma BucketReady(s0: seq<Entry>, s1: seq<Entry>, s2: seq<Entry>, lo: nat, hi: nat, shift: nat, orig: seq<nat>,
                    ends: seq<nat>,
                    starts0: seq<nat>, starts: seq<nat>, b: nat, into: map<nat, Slice>, mid: map<nat, Slice>)
    requires lo <= hi <= |s0| == |s1| == |s2| && shift >= EXPONENT && b < 256
    requires SameAbove(s0, lo, hi, shift + 8) && NewShards(s0, lo, hi, into)
    requires Progress(s0, s1, lo, hi, shift, orig, ends, starts0, b, into, mid)
    requires Sorting(s2, lo, hi, shift, orig, ends, starts, b + 1) && Rearranged(s1, s2, orig[b], hi)
    ensures lo <= orig[b] <= ends[b] <= hi
    ensures SameAbove(s2, orig[b], ends[b], shift) && NewShards(s2, orig[b], ends[b], mid)
    ensures Covers(s2, lo, orig[b], into, mid) && Rearranged(s0, s2, lo, hi)
  {
    hide Sorting, SameAbove, NewShards, Covers, BelowBucket, AllIn, Rearranged;
    BucketEnd(s2, lo, hi, shift, orig, ends, starts, b + 1, b);
    PrefixSame(s1, s2, orig[b], hi);
    RearrangedPart(s1, s2, lo, orig[b], hi, hi);
    RearrangedTrans(s0, s1, s2, lo, hi);
    RearrangedKeeps(s0, s2, lo, hi, shift + 8, shift, b, into);
    CoversSame(s1, s2, lo, orig[b], into, mid);
    PartOf(s2, lo, orig[b], ends[b], hi, shift + 8, into);
    NewInBucket(s2, orig[b], ends[b], into, mid, shift, b);
    SameInBucket(s2, orig[b], ends[b], shift, b);
  }

  lemma BucketDone(s0: seq<Entry>, s2: seq<Entry>, s3: seq<Entry>, lo: nat, hi: nat, shift: nat, orig: seq<nat>,
                   ends: seq<nat>,
                   starts: seq<nat>, b: nat, into: map<nat, Slice>, mid: map<nat, Slice>, out: map<nat, Slice>)
    requires lo <= hi <= |s0| == |s2| == |s3| && shift >= EXPONENT && b < 256
    requires Sorting(s2, lo, hi, shift, orig, ends, starts, b + 1) && Rearranged(s0, s2, lo, hi)
    requires lo <= orig[b] <= ends[b] <= hi && Covers(s2, lo, orig[b], into, mid) && BelowBucket(into, mid, shift, b)
    requires Rearranged(s2, s3, orig[b], ends[b]) && Covers(s3, orig[b], ends[b], mid, out)
    ensures Progress(s0, s3, lo, hi, shift, orig, ends, starts, b + 1, into, out)
  {
    hide Sorting, Covers, BelowBucket, AllIn, Rearranged;
    RecursionKeeps(s2, s3, lo, hi, shift, orig, ends, starts, b);
    BucketEnd(s3, lo, hi, shift, orig, ends, starts, b + 1, b);
    RearrangedPart(s2, s3, lo, orig[b], ends[b], hi);
    RearrangedTrans(s0, s2, s3, lo, hi);
    PrefixSame(s2, s3, orig[b], ends[b]);
    CoversSame(s2, s3, lo, orig[b], into, mid);
    CoversJoin(s3, lo, orig[b], ends[b], into, mid, out);
    BelowNextBucket(s3, orig[b], ends[b], into, mid, out, shift, b);
  }

  lemma ProgressParts(s0: seq<Entry>, s: seq<Entry>, lo: nat, hi: nat, shift: nat, orig: seq<nat>, ends: seq<nat>,
                      starts: seq<nat>, b: nat,
                      into: map<nat, Slice>, out: map<nat, Slice>)
    requires lo <= hi <= |s0| == |s| && shift >= EXPONENT
    requires Progress(s0, s, lo, hi, shift, orig, ends, starts, b, into, out)
    ensures |orig| == |ends| == |starts| == 256 && Sorting(s, lo, hi, shift, orig, ends, starts, b)
    ensures BelowBucket(into, out, shift, b)
    ensures b == 256 ==> Rearranged(s0, s, lo, hi) && Covers(s, lo, hi, into, out)
  {
  }

  /** Splits a part of the request into shards, in place, and records them. */
  method SortToShardsInto(ir: ImportRequest, lo: nat, hi: nat, shift0: int,
                          into: map<nat, Slice>) returns (out: map<nat, Slice>)
    requires ir.Valid() && lo <= hi <= ir.columnIDs.Length
    requires SameAbove(ir.Entries(), lo, hi, Clamp(shift0) + 8)
    requires NewShards(ir.Entries(), lo, hi, into)
    modifies ir.Repr()
    ensures Rearranged(old(ir.Entries()), ir.Entries(), lo, hi)
    ensures Covers(ir.Entries(), lo, hi, into, out)
    decreases Clamp(shift0), 2
  {
    hide Sorting, Covers, Rearranged, Progress, SameAbove, NewShards;
    ghost var s0 := ir.Entries();
    var shift := Clamp(shift0);
    var orig, ends := Bounds(ir, lo, hi, shift);
    var starts := orig;
    out := into;
    ProgressStarts(s0, lo, hi, shift, orig, ends, into);
    var b := 0;
    while b < 256
      invariant 0 <= b <= 256
      invariant Progress(s0, ir.Entries(), lo, hi, shift, orig, ends, starts, b, into, out)
    {
      starts, out := SortBucket(ir, lo, hi, shift, orig, ends, starts, b, s0, into, out);
      b := b + 1;
    }
    ProgressParts(s0, ir.Entries(), lo, hi, shift, orig, ends, starts, 256, into, out);
  }

  /** One bucket: completes it, then records it or splits it further. */
  method SortBucket(ir: ImportRequest, lo: nat, hi: nat, shift: nat, orig: seq<nat>, ends: seq<nat>,
                    starts0: seq<nat>, b: nat,
                    ghost s0: seq<Entry>, ghost into: map<nat, Slice>, mid: map<nat, Slice>)
    returns (starts: seq<nat>, out: map<nat, Slice>)
    requires ir.Valid() && lo <= hi <= ir.columnIDs.Length && b < 256 && shift >= EXPONENT
    requires |s0| == ir.columnIDs.Length && SameAbove(s0, lo, hi, shift + 8) && NewShards(s0, lo, hi, into)
    requires Progress(s0, ir.Entries(), lo, hi, shift, orig, ends, starts0, b, into, mid)
    modifies ir.Repr()
    ensures Progress(s0, ir.Entries(), lo, hi, shift, orig, ends, starts, b + 1, into, out)
    decreases shift, 1
  {
    hide Sorting, Covers, Rearranged, Progress, SameAbove, NewShards, BelowBucket;
    ghost var s1 := ir.Entries();
    ProgressParts(s0, s1, lo, hi, shift, orig, ends, starts0, b, into, mid);
    starts := FillBucket(ir, lo, hi, shift, orig, ends, starts0, b);
    ghost var s2 := ir.Entries();
    BucketReady(s0, s1, s2, lo, hi, shift, orig, ends, starts0, starts, b, into, mid);
    out := Emit(ir, orig[b], ends[b], shift, mid);
    BucketDone(s0, s2, ir.Entries(), lo, hi, shift, orig, ends, starts, b, into, mid, out);
  }

  /** Records a complete bucket as one shard, or splits it further. */
  method Emit(ir: ImportRequest, start: nat, end: nat, shift: nat, mid: map<nat, Slice>) returns (out: map<nat, Slice>)
    requires ir.Valid() && start <= end <= ir.columnIDs.Length && shift >= EXPONENT
    requires SameAbove(ir.Entries(), start, end, shift) && NewShards(ir.Entries(), start, end, mid)
    modifies ir.Repr()
    ensures Rearranged(old(ir.Entries()), ir.Entries(), start, end)
    ensures Covers(ir.Entries(), start, end, mid, out)
    decreases shift, 0
  {
    ghost var s := ir.Entries();
    out := mid;
    if end <= start {
      NothingCovered(s, start, mid);
    } else if shift == EXPONENT {
      var shard := Shr(ir.columnIDs[start], EXPONENT);
      CoversOne(s, start, end, mid, shard);
      out := mid[shard := Slice(shard, start, end)];
    } else {
      var nextShift := Clamp(shift - 8);
      SameHigher(s, start, end, shift, nextShift + 8);
      out := SortToShardsInto(ir, start, end, nextShift, mid);
    }
  }

  lemma PrefixSame(s: seq<Entry>, t: seq<Entry>, m: nat, hi: nat)
    requires m <= hi <= |s| && Rearranged(s, t, m, hi)
    ensures |t| == |s| && forall i :: 0 <= i < m ==> s[i] == t[i]
  {
    forall i | 0 <= i < m
      ensures s[i] == t[i]
    {
      assert s[..m][i] == t[..m][i];
    }
  }

  lemma PartOf(s: seq<Entry>, lo: nat, a: nat, e: nat, hi: nat, n: nat, into: map<nat, Slice>)
    requires lo <= a <= e <= hi <= |s| && SameAbove(s, lo, hi, n) && NewShards(s, lo, hi, into)
    ensures SameAbove(s, a, e, n) && NewShards(s, a, e, into)
  {
  }

  lemma NothingCovered(s: seq<Entry>, m: nat, mid: map<nat, Slice>)
    requires m <= |s|
    ensures Covers(s, m, m, mid, mid)
  {
  }

  lemma CoversOne(s: seq<Entry>, a: nat, e: nat, mid: map<nat, Slice>, shard: nat)
    requires a < e <= |s| && SameAbove(s, a, e, EXPONENT) && NewShards(s, a, e, mid)
    requires shard == ShardOf(s[a])
    ensures Covers(s, a, e, mid, mid[shard := Slice(shard, a, e)])
  {
    forall i | a <= i < e
      ensures ShardOf(s[i]) == shard
    {
      assert Shr(s[i].col, EXPONENT) == Shr(s[a].col, EXPONENT);
    }
  }

  /** Rearranging a complete bucket keeps all buckets as they are. */
  lemma RecursionKeeps(s: seq<Entry>, t: seq<Entry>, lo: nat, hi: nat, shift: nat, orig: seq<nat>, ends: seq<nat>,
                       starts: seq<nat>, b: nat)
    requires lo <= hi <= |s| && b < 256 && Sorting(s, lo, hi, shift, orig, ends, starts, b + 1)
    requires orig[b] <= ends[b] <= |s| && Rearranged(s, t, orig[b], ends[b])
    ensures |t| == |s| && Sorting(t, lo, hi, shift, orig, ends, starts, b + 1)
  {
    RearrangedKeeps(s, t, orig[b], ends[b], 0, shift, b, map[]);
    BucketsSame(s, t, orig[b], ends[b], shift, b);
    SameBucketsSorting(s, t, lo, hi, shift, orig, ends, starts, b + 1);
  }

  lemma SameBucketsSorting(s: seq<Entry>, t: seq<Entry>, lo: nat, hi: nat, shift: nat, orig: seq<nat>, ends: seq<nat>,
                           starts: seq<nat>, b: nat)
    requires lo <= hi <= |s| == |t| && Sorting(s, lo, hi, shift, orig, ends, starts, b)
    requires forall i :: 0 <= i < |s| ==> BucketOf(t[i], shift) == BucketOf(s[i], shift)
    ensures Sorting(t, lo, hi, shift, orig, ends, starts, b)
  {
    hide BucketOf, AllIn, Count;
    forall w | 0 <= w < 256
      ensures Count(t, lo, hi, shift, w) == Count(s, lo, hi, shift, w)
      ensures AllIn(t, orig[w], starts[w], shift, w)
      ensures w < b ==> AllIn(t, orig[w], ends[w], shift, w)
    {
      CountSame(s, t, lo, hi, shift, w);
      AllInSame(s, t, orig[w], starts[w], shift, w);
      AllInSame(s, t, orig[w], ends[w], shift, w);
    }
  }

  lemma AllInSame(s: seq<Entry>, t: seq<Entry>, a: nat, e: nat, shift: nat, w: nat)
    requires a <= e <= |s| == |t|
    requires forall i :: 0 <= i < |s| ==> BucketOf(t[i], shift) == BucketOf(s[i], shift)
    ensures AllIn(s, a, e, shift, w) ==> AllIn(t, a, e, shift, w)
  {
  }

  lemma BucketsSame(s: seq<Entry>, t: seq<Entry>, a: nat, e: nat, shift: nat, b: nat)
    requires a <= e <= |s| && Rearranged(s, t, a, e) && AllIn(s, a, e, shift, b) && AllIn(t, a, e, shift, b)
    ensures forall i :: 0 <= i < |s| ==> BucketOf(t[i], shift) == BucketOf(s[i], shift)
  {
    forall i | 0 <= i < |s|
      ensures BucketOf(t[i], shift) == BucketOf(s[i], shift)
    {
      if i < a {
        assert t[..a][i] == s[..a][i];
      } else if i >= e {
        assert t[e..][i - e] == s[e..][i - e];
      }
    }
  }

  // ----- The whole request -----

  /** The mask fits into n bits exactly when the first i columns agree above. */
  ghost predicate MaskFits(s: seq<Entry>, i: nat, mask: nat, n: nat)
    requires i <= |s|
  {
    BitLen(mask) <= n <==> SameAbove(s, 0, i, n)
  }

  /** The bits in which neighbouring columns differ. */
  method DiffMask(ir: ImportRequest) returns (mask: nat)
    requires ir.Valid() && ir.columnIDs.Length > 0
    ensures forall n: nat :: MaskFits(ir.Entries(), ir.columnIDs.Length, mask, n)
  {
    hide SameAbove;
    ghost var s := ir.Entries();
    mask := 0;
    var prev := ir.columnIDs[0];
    var i := 1;
    forall n: nat ensures MaskFits(s, 1, 0, n) {
      SameSingle(s, n);
    }
    while i < ir.columnIDs.Length
      invariant 1 <= i <= ir.columnIDs.Length
      invariant prev == s[i - 1].col
      invariant forall n: nat :: MaskFits(s, i, mask, n)
    {
      var r := ir.columnIDs[i];
      var next, wider := i + 1, Or(mask, Xor(r, prev));
      forall n: nat
        ensures MaskFits(s, next, wider, n)
      {
        assert MaskFits(s, i, mask, n);
        OrBitLen(mask, Xor(r, prev), n);
        XorBitLen(r, prev, n);
        SameOneMore(s, i, n);
      }
      mask, prev, i := wider, r, next;
    }
  }

  lemma SameSingle(s: seq<Entry>, n: nat)
    requires |s| >= 1
    ensures SameAbove(s, 0, 1, n)
  {
  }

  lemma SameOneMore(s: seq<Entry>, i: nat, n: nat)
    requires 1 <= i < |s|
    ensures SameAbove(s, 0, i + 1, n) <==> SameAbove(s, 0, i, n) && Shr(s[i].col, n) == Shr(s[i - 1].col, n)
  {
    if SameAbove(s, 0, i, n) && Shr(s[i].col, n) == Shr(s[i - 1].col, n) {
      forall a, b | 0 <= a < i + 1 && 0 <= b < i + 1
        ensures Shr(s[a].col, n) == Shr(s[b].col, n)
      {
        assert a < i ==> Shr(s[a].col, n) == Shr(s[i - 1].col, n);
        assert b < i ==> Shr(s[b].col, n) == Shr(s[i - 1].col, n);
      }
    }
  }

  /** Splits a request into one slice per shard.  The arrays are permuted in
      place, and every entry lies in the slice of its shard. */
  method SortToShards(ir: ImportRequest) returns (result: map<nat, Slice>)
    requires ir.Valid()
    modifies ir.Repr()
    ensures multiset(ir.Entries()) == multiset(old(ir.Entries()))
    ensures Covers(ir.Entries(), 0, |ir.Entries()|, map[], result)
  {
    if ir.columnIDs.Length == 0 {
      return map[];
    }
    ghost var s := ir.Entries();
    var mask := DiffMask(ir);
    var bitsRemaining := BitLen(mask);
    assert MaskFits(ir.Entries(), ir.columnIDs.Length, mask, bitsRemaining);
    if bitsRemaining <= EXPONENT {
      var shard := Shr(ir.columnIDs[0], EXPONENT);
      SameHigher(s, 0, |s|, bitsRemaining, EXPONENT);
      CoversOne(s, 0, |s|, map[], shard);
      return map[shard := Slice(shard, 0, ir.columnIDs.Length)];
    }
    SameHigher(s, 0, |s|, bitsRemaining, Clamp(bitsRemaining - 8) + 8);
    result := SortToShardsInto(ir, 0, ir.columnIDs.Length, bitsRemaining - 8, map[]);
    assert ir.Entries() == ir.Entries()[0..|s|] && s == s[0..|s|];
  }

  /** The outputs are a partition of the input: the slice of shard k holds each
      entry of that shard exactly as often as the request did, and nothing
      else; a shard without a slice has no entries. */
  lemma SlicesPartition(s0: seq<Entry>, s: seq<Entry>, result: map<nat, Slice>, k: nat, e: Entry)
    requires multiset(s) == multiset(s0) && Covers(s, 0, |s|, map[], result)
    ensures k in result ==> result[k].shard == k && result[k].lo <= result[k].hi <= |s|
    ensures k in result ==>
              multiset(s[result[k].lo..result[k].hi])[e] == if e.col / BsiData.SHARD_WIDTH == k then multiset(s0)[e] else 0
    ensures k !in result && e.col / BsiData.SHARD_WIDTH == k ==> e !in s0
  {
    ShardIs(e);
    if k in result {
      assert SliceOk(s, result[k], k);
      var lo, hi := result[k].lo, result[k].hi;
      assert s == s[..lo] + s[lo..hi] + s[hi..];
      assert multiset(s)[e] == multiset(s[..lo])[e] + multiset(s[lo..hi])[e] + multiset(s[hi..])[e];
      if ShardOf(e) == k {
        OutsideSlice(s, result, k, e);
      } else {
        assert e !in s[lo..hi];
      }
    }
    forall i | 0 <= i < |s|
      ensures ShardOf(s[i]) in result
    {
      assert Placed(s, i, map[], result);
    }
    assert e in s0 <==> e in multiset(s0);
    assert e in s <==> e in multiset(s);
  }

  lemma OutsideSlice(s: seq<Entry>, result: map<nat, Slice>, k: nat, e: Entry)
    requires Covers(s, 0, |s|, map[], result) && k in result && ShardOf(e) == k
    requires result[k].lo <= result[k].hi <= |s|
    ensures e !in s[..result[k].lo] && e !in s[result[k].hi..]
  {
    forall i | 0 <= i < |s| && s[i] == e
      ensures result[k].lo <= i < result[k].hi
    {
      assert Placed(s, i, map[], result);
    }
  }

  /** Slices of different shards do not overlap. */
  lemma SlicesDisjoint(s: seq<Entry>, result: map<nat, Slice>, k: nat, m: nat, i: nat)
    requires Covers(s, 0, |s|, map[], result) && k in result && m in result && i < |s|
    requires result[k].lo <= i < result[k].hi && result[m].lo <= i < result[m].hi
    ensures k == m
  {
    assert SliceOk(s, result[k], k) && SliceOk(s, result[m], m);
    assert ShardOf(s[i]) == k;
  }
}
