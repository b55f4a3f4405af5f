// Ranges of 64-bit IDs, the in-place reservation of the narrowest ranges and
// the coalescing merge of returned ranges (idalloc.go).
module IdRanges {
  import opened Bits
  import opened MinHeap
  import opened Options

  const MAX_U64: int := U64 - 1

  type uint64 = x: int | 0 <= x < U64

  /** An inclusive range of IDs. */
  datatype IDRange = IDRange(First: uint64, Last: uint64) {
    predicate Forward() {
      First <= Last
    }

    /** One less than the number of IDs, as the source's 64-bit subtraction. */
    function Width(): uint64 {
      if First <= Last then Last - First else Last - First + U64
    }

    predicate Contains(id: int) {
      First <= id <= Last
    }
  }

  predicate AllForward(rs: seq<IDRange>) {
    forall i :: 0 <= i < |rs| ==> rs[i].Forward()
  }

  // ----- Sums over the ranges of a list -----

  function Sum(f: IDRange -> nat, rs: seq<IDRange>): nat {
    if rs == [] then 0 else f(rs[0]) + Sum(f, rs[1..])
  }

  /** How many IDs a range holds. */
  const Size: IDRange -> nat := (r: IDRange) => if r.Forward() then r.Last - r.First + 1 else 0

  /** Whether a range holds one particular ID. */
  function Hit(id: int): IDRange -> nat {
    (r: IDRange) => if r.Contains(id) then 1 else 0
  }

  function Total(rs: seq<IDRange>): nat {
    Sum(Size, rs)
  }

  /** How many ranges of the list hold the ID. */
  function Occ(rs: seq<IDRange>, id: int): nat {
    Sum(Hit(id), rs)
  }

  lemma SumOne(f: IDRange -> nat, r: IDRange)
    ensures Sum(f, [r]) == f(r)
  {
    assert [r][1..] == [];
  }

  lemma {:induction false} SumConcat(f: IDRange -> nat, a: seq<IDRange>, b: seq<IDRange>)
    ensures Sum(f, a + b) == Sum(f, a) + Sum(f, b)
  {
    if a == [] {
      assert a + b == b;
    } else {
      assert (a + b)[1..] == a[1..] + b;
      SumConcat(f, a[1..], b);
    }
  }

  /** A sum does not depend on the order of the ranges. */
  lemma {:induction false} SumPermuted(f: IDRange -> nat, a: seq<IDRange>, b: seq<IDRange>)
    requires multiset(a) == multiset(b)
    ensures Sum(f, a) == Sum(f, b)
  {
    if a == [] {
      assert |b| == |multiset(b)| == 0;
    } else {
      var x := a[0];
      assert a == [x] + a[1..];
      assert x in multiset(b);
      var j :| 0 <= j < |b| && b[j] == x;
      var rest := b[..j] + b[j + 1..];
      assert b == b[..j] + ([x] + b[j + 1..]);
      assert multiset(a[1..]) == multiset(a) - multiset{x};
      assert multiset(rest) == multiset(b) - multiset{x};
      SumPermuted(f, a[1..], rest);
      SumConcat(f, b[..j], b[j + 1..]);
      SumConcat(f, b[..j], [x] + b[j + 1..]);
      SumConcat(f, [x], b[j + 1..]);
    }
  }

  lemma {:induction false} OccPositive(rs: seq<IDRange>, id: int)
    ensures Occ(rs, id) > 0 <==> exists i :: 0 <= i < |rs| && rs[i].Contains(id)
  {
    if rs != [] {
      OccPositive(rs[1..], id);
      if Occ(rs[1..], id) > 0 {
        var i :| 0 <= i < |rs[1..]| && rs[1..][i].Contains(id);
        assert rs[i + 1].Contains(id);
      }
      if i :| 0 <= i < |rs| && rs[i].Contains(id) {
        if i > 0 {
          assert rs[1..][i - 1].Contains(id);
        }
      }
    }
  }

  // ----- The number of IDs in a duplicate-free list -----

  ghost function Interval(lo: int, hi: int): (s: set<int>)
    ensures forall x :: x in s <==> lo <= x <= hi
    decreases hi - lo
  {
    if lo <= hi then Interval(lo, hi - 1) + {hi} else {}
  }

  lemma {:induction false} IntervalSize(lo: int, hi: int)
    requires lo <= hi + 1
    ensures |Interval(lo, hi)| == hi + 1 - lo
    decreases hi - lo
  {
    if lo <= hi {
      IntervalSize(lo, hi - 1);
    }
  }

  ghost function IdSet(rs: seq<IDRange>): set<int> {
    set id | 0 <= id < U64 && Occ(rs, id) > 0
  }

  ghost predicate NoDuplicates(rs: seq<IDRange>) {
    forall id :: Occ(rs, id) <= 1
  }

  /** Where no ID occurs twice, the sum of the sizes counts the IDs. */
  lemma {:induction false} TotalIsCardinality(rs: seq<IDRange>)
    requires AllForward(rs) && NoDuplicates(rs)
    ensures Total(rs) == |IdSet(rs)|
  {
    if rs == [] {
      assert IdSet(rs) == {};
    } else {
      IdSetSplit(rs);
      TotalIsCardinality(rs[1..]);
      IntervalSize(rs[0].First, rs[0].Last);
    }
  }

  lemma IdSetSplit(rs: seq<IDRange>)
    requires rs != [] && AllForward(rs) && NoDuplicates(rs)
    ensures NoDuplicates(rs[1..])
    ensures IdSet(rs) == Interval(rs[0].First, rs[0].Last) + IdSet(rs[1..])
    ensures Interval(rs[0].First, rs[0].Last) !! IdSet(rs[1..])
  {
    var head, tail := rs[0], rs[1..];
    forall id
      ensures Occ(rs, id) == Hit(id)(head) + Occ(tail, id) <= 1
    {
      assert Occ(rs, id) <= 1;
    }
  }

  /** A duplicate-free list that leaves out 0 never holds 2^64 IDs. */
  lemma TotalBelow2To64(rs: seq<IDRange>)
    requires AllForward(rs) && NoDuplicates(rs) && Occ(rs, 0) == 0
    ensures Total(rs) <= MAX_U64
  {
    TotalIsCardinality(rs);
    IntervalSize(1, MAX_U64);
    assert IdSet(rs) <= Interval(1, MAX_U64);
    var ids, all := IdSet(rs), Interval(1, MAX_U64);
    assert all == ids + (all - ids);
  }

  // ----- Reading a list of ranges as one sequence of IDs -----

  /** The p-th ID of the list. */
  function FlatAt(rs: seq<IDRange>, p: nat): int
    requires AllForward(rs) && p < Total(rs)
  {
    if p < Size(rs[0]) then rs[0].First + p else FlatAt(rs[1..], p - Size(rs[0]))
  }

  /** The list without its first n IDs. */
  function DropIds(rs: seq<IDRange>, n: nat): (kept: seq<IDRange>)
    requires AllForward(rs)
    ensures AllForward(kept)
  {
    if rs == [] || n == 0 then rs
    else if n < Size(rs[0]) then [IDRange(rs[0].First + n, rs[0].Last)] + rs[1..]
    else DropIds(rs[1..], n - Size(rs[0]))
  }

  /** The first n IDs of the list. */
  function TakeIds(rs: seq<IDRange>, n: nat): (taken: seq<IDRange>)
    requires AllForward(rs)
    ensures AllForward(taken)
  {
    if rs == [] || n == 0 then []
    else if n < Size(rs[0]) then [IDRange(rs[0].First, rs[0].First + n - 1)]
    else [rs[0]] + TakeIds(rs[1..], n - Size(rs[0]))
  }

  /** Dropping n IDs leaves the others in place, n positions earlier. */
  lemma {:induction false} DropShifts(rs: seq<IDRange>, n: nat)
    requires AllForward(rs)
    ensures Total(DropIds(rs, n)) == if n <= Total(rs) then Total(rs) - n else 0
    ensures forall p: nat :: p < Total(DropIds(rs, n)) ==>
              p + n < Total(rs) && FlatAt(DropIds(rs, n), p) == FlatAt(rs, p + n)
  {
    if rs == [] || n == 0 {
    } else if n < Size(rs[0]) {
      assert DropIds(rs, n)[1..] == rs[1..];
    } else {
      DropShifts(rs[1..], n - Size(rs[0]));
    }
  }

  /** Taking n IDs keeps exactly those positions. */
  lemma {:induction false} TakeKeeps(rs: seq<IDRange>, n: nat)
    requires AllForward(rs)
    ensures Total(TakeIds(rs, n)) == if n <= Total(rs) then n else Total(rs)
    ensures forall p: nat :: p < Total(TakeIds(rs, n)) ==> FlatAt(TakeIds(rs, n), p) == FlatAt(rs, p)
  {
    if rs == [] || n == 0 {
    } else if n < Size(rs[0]) {
      SumOne(Size, TakeIds(rs, n)[0]);
    } else {
      TakeKeeps(rs[1..], n - Size(rs[0]));
      assert TakeIds(rs, n)[1..] == TakeIds(rs[1..], n - Size(rs[0]));
    }
  }

  lemma DropNone(rs: seq<IDRange>)
    requires AllForward(rs)
    ensures DropIds(rs, 0) == rs
  {
  }

  /** The taken and the dropped part together hold what the list held. */
  lemma {:induction false} TakeDropOcc(rs: seq<IDRange>, n: nat, id: int)
    requires AllForward(rs)
    ensures Occ(TakeIds(rs, n), id) + Occ(DropIds(rs, n), id) == Occ(rs, id)
  {
    if rs == [] || n == 0 {
    } else if n < Size(rs[0]) {
      assert DropIds(rs, n)[1..] == rs[1..];
      SumOne(Hit(id), TakeIds(rs, n)[0]);
    } else {
      TakeDropOcc(rs[1..], n - Size(rs[0]), id);
      assert TakeIds(rs, n)[1..] == TakeIds(rs[1..], n - Size(rs[0]));
    }
  }

  /** Appending ranges leaves the positions of the present IDs alone. */
  lemma {:induction false} FlatAppend(a: seq<IDRange>, b: seq<IDRange>, p: nat)
    requires AllForward(a) && AllForward(b) && p < Total(a)
    ensures Total(a + b) == Total(a) + Total(b)
    ensures FlatAt(a + b, p) == FlatAt(a, p)
  {
    SumConcat(Size, a, b);
    assert (a + b)[1..] == a[1..] + b;
    if p >= Size(a[0]) {
      FlatAppend(a[1..], b, p - Size(a[0]));
    }
  }

  // ----- Reserving from the available ranges -----

  const WidthOf: IDRange -> int := (r: IDRange) => r.Width()

  /** How a reservation split the available ranges: the first `whole` entries
      of `reserved` were consumed entirely, narrowest first and none wider than
      a range left over; at most one more range was cut, at its front, and it was
      the narrowest one left. */
  ghost predicate NarrowestFirst(was: multiset<IDRange>, reserved: seq<IDRange>, whole: nat, unused: seq<IDRange>) {
    && whole <= |reserved| <= whole + 1
    && (forall i, j :: 0 <= i <= j < whole ==> reserved[i].Width() <= reserved[j].Width())
    && (whole == |reserved| ==> LeftOver(was, reserved, unused))
    && (whole < |reserved| ==>
          && unused != [] && reserved[whole].Forward() && unused[0].Forward()
          && reserved[whole].Last + 1 == unused[0].First
          && (forall j :: 0 < j < |unused| ==> unused[0].Last - reserved[whole].First <= unused[j].Width())
          && LeftOver(was, reserved[..whole], unused[0 := IDRange(reserved[whole].First, unused[0].Last)]))
  }

  ghost predicate LeftOver(was: multiset<IDRange>, taken: seq<IDRange>, rest: seq<IDRange>) {
    && multiset(taken) + multiset(rest) == was
    && (forall i, j :: 0 <= i < |taken| && 0 <= j < |rest| ==> taken[i].Width() <= rest[j].Width())
  }

  /** Turns the array into a heap by inserting its entries one at a time. */
  method Heapify(avail: array<IDRange>)
    modifies avail
    ensures IsHeap(avail[..], WidthOf, avail.Length)
    ensures multiset(avail[..]) == old(multiset(avail[..]))
  {
    var i := 0;
    while i < avail.Length
      invariant i <= avail.Length
      invariant IsHeap(avail[..], WidthOf, i)
      invariant multiset(avail[..]) == old(multiset(avail[..]))
    {
      ghost var s := avail[..];
      SiftUp(avail, WidthOf, i + 1, i);
      PermutesAll(s, avail[..], i + 1);
      i := i + 1;
    }
  }

  lemma PermutesAll<T>(s: seq<T>, t: seq<T>, n: nat)
    requires n <= |s| && Permutes(s, t, n)
    ensures multiset(s) == multiset(t)
  {
    assert s == s[..n] + s[n..];
    assert t == t[..n] + t[n..];
  }

  /** Removes the root: the last entry takes its place and sinks. */
  method PopRoot(avail: array<IDRange>, n: nat)
    requires 0 < n <= avail.Length
    requires IsHeap(avail[..], WidthOf, n)
    modifies avail
    ensures IsHeap(avail[..], WidthOf, n - 1)
    ensures multiset(avail[..n - 1]) + multiset{old(avail[0])} == old(multiset(avail[..n]))
  {
    ghost var s := avail[..];
    avail[0] := avail[n - 1];
    ghost var t := avail[..];
    PoppedHeap(s, n);
    SiftDown(avail, WidthOf, n - 1);
    assert avail[..n - 1] == avail[..][..n - 1];
  }

  lemma PoppedHeap(s: seq<IDRange>, n: nat)
    requires 0 < n <= |s| && IsHeap(s, WidthOf, n)
    ensures HeapButDown(s[0 := s[n - 1]], WidthOf, n - 1, 0)
    ensures multiset(s[0 := s[n - 1]][..n - 1]) + multiset{s[0]} == multiset(s[..n])
  {
    var t := s[0 := s[n - 1]];
    forall i | 1 <= i < n - 1 && Parent(i) != 0
      ensures Above(t, WidthOf, i)
    {
      assert Above(s, WidthOf, i);
    }
    if n == 1 {
      assert s[..1] == [s[0]];
    } else {
      var mid := s[1..n - 1];
      assert s[..n] == [s[0]] + mid + [s[n - 1]];
      assert t[..n - 1] == [s[n - 1]] + mid;
    }
  }

  /** Takes `count` IDs out of the available ranges, in place.  On success the
      first n entries of the array are what remains; it fails exactly when too
      few IDs are available, and then reports how many are missing. */
  method ReserveIDs(avail: array<IDRange>, count: uint64)
    returns (ok: bool, reserved: seq<IDRange>, n: nat, missing: uint64, ghost whole: nat)
    requires AllForward(avail[..])
    modifies avail
    ensures ok <==> count <= old(Total(avail[..]))
    ensures !ok ==> missing == count - old(Total(avail[..]))
    ensures ok ==> n <= avail.Length && Total(reserved) == count
    ensures ok ==> NarrowestFirst(old(multiset(avail[..])), reserved, whole, avail[..n])
    ensures ok ==> whole <= |reserved| <= whole + 1
    ensures ok ==> forall i, j :: 0 <= i <= j < whole ==> reserved[i].Width() <= reserved[j].Width()
    ensures ok ==> forall i, j :: 0 <= i < whole && 0 < j < n ==> reserved[i].Width() <= avail[j].Width()
  {
    Heapify(avail);
    PermutedForward(old(avail[..]), avail[..]);
    SumPermuted(Size, old(avail[..]), avail[..]);
    reserved, n, missing := ConsumeWhole(avail, count);
    whole := |reserved|;
    if missing > 0 && n > 0 {
      ghost var taken, before := reserved, avail[..n];
      RootSize(before);
      var cut := IDRange(avail[0].First, avail[0].First + missing - 1);
      avail[0] := IDRange(avail[0].First + missing, avail[0].Last);
      reserved := reserved + [cut];
      assert reserved[..whole] == taken;
      assert avail[..n][0 := IDRange(cut.First, avail[0].Last)] == before;
      SumConcat(Size, taken, [cut]);
      SumOne(Size, cut);
      missing := 0;
    }
    ok := missing == 0;
  }

  /** Consumes whole ranges, narrowest first, while they fit into `count`. */
  method ConsumeWhole(avail: array<IDRange>, count: uint64)
    returns (reserved: seq<IDRange>, n: nat, left: uint64)
    requires AllForward(avail[..]) && IsHeap(avail[..], WidthOf, avail.Length)
    modifies avail
    ensures n <= avail.Length
    ensures AllForward(reserved) && AllForward(avail[..n])
    ensures Consuming(old(multiset(avail[..])), reserved, avail[..n])
    ensures left + Total(reserved) == count
    ensures left == 0 || n == 0 || left - 1 < avail[0].Width()
    ensures forall i :: 0 <= i < n ==> avail[0].Width() <= avail[i].Width()
    ensures Total(reserved) + Total(avail[..n]) == old(Total(avail[..]))
  {
    left, n, reserved := count, avail.Length, [];
    ghost var was := avail[..];
    assert avail[..n] == was && Total(reserved) == 0;
    assert Consuming(multiset(was), reserved, was) && AllForward(reserved);
    hide Sum, Consuming, AllForward;
    while left > 0 && n > 0 && left - 1 >= avail[0].Width()
      invariant n <= avail.Length
      invariant IsHeap(avail[..], WidthOf, n)
      invariant AllForward(reserved) && AllForward(avail[..n])
      invariant Consuming(multiset(was), reserved, avail[..n])
      invariant left + Total(reserved) == count && left < U64
      decreases n
    {
      ghost var before := avail[..n];
      ghost var taken := reserved;
      var root := avail[0];
      HeapRootNarrowest(avail[..], n);
      left := left - (root.Width() + 1);
      reserved := reserved + [root];
      PopRoot(avail, n);
      n := n - 1;
      ConsumeRoot(multiset(was), taken, before, root, avail[..n]);
    }
    ConsumingTotals(was, reserved, avail[..n]);
    if n > 0 {
      HeapRootNarrowest(avail[..], n);
    }
  }

  lemma ConsumingTotals(was: seq<IDRange>, taken: seq<IDRange>, rest: seq<IDRange>)
    requires Consuming(multiset(was), taken, rest)
    ensures Total(taken) + Total(rest) == Total(was)
  {
    AppendIsWas(multiset(was), taken, rest);
    SumConcat(Size, taken, rest);
    SumPermuted(Size, taken + rest, was);
  }

  lemma RootSize(rs: seq<IDRange>)
    requires rs != [] && AllForward(rs)
    ensures Size(rs[0]) == rs[0].Width() + 1 <= Total(rs)
  {
  }

  /** What holds between consuming one narrowest range and the next. */
  ghost predicate Consuming(was: multiset<IDRange>, taken: seq<IDRange>, rest: seq<IDRange>) {
    && (forall i, j :: 0 <= i <= j < |taken| ==> taken[i].Width() <= taken[j].Width())
    && LeftOver(was, taken, rest)
  }

  lemma HeapRootNarrowest(s: seq<IDRange>, n: nat)
    requires 0 < n <= |s| && IsHeap(s, WidthOf, n)
    ensures forall i :: 0 <= i < n ==> s[0].Width() <= s[..n][i].Width()
  {
    forall i | 0 <= i < n
      ensures s[0].Width() <= s[i].Width()
    {
      RootIsLeast(s, WidthOf, n, i);
    }
  }

  lemma AllForwardParts(a: seq<IDRange>, b: seq<IDRange>)
    requires AllForward(a + b)
    ensures AllForward(a) && AllForward(b)
  {
    forall i | 0 <= i < |a| ensures a[i].Forward() {
      assert (a + b)[i] == a[i];
    }
    forall i | 0 <= i < |b| ensures b[i].Forward() {
      assert (a + b)[|a| + i] == b[i];
    }
  }

  lemma AppendIsWas(was: multiset<IDRange>, taken: seq<IDRange>, rest: seq<IDRange>)
    requires multiset(taken) + multiset(rest) == was
    ensures multiset(taken + rest) == was
  {
  }

  /** Every entry of the one list is an entry of the other. */
  lemma MultisetMember(a: seq<IDRange>, b: seq<IDRange>, i: nat) returns (j: nat)
    requires i < |a| && multiset(a) <= multiset(b)
    ensures j < |b| && b[j] == a[i]
  {
    assert a[i] in multiset(a);
    assert a[i] in multiset(b);
    j :| 0 <= j < |b| && b[j] == a[i];
  }

  lemma PermutedForward(a: seq<IDRange>, b: seq<IDRange>)
    requires AllForward(a) && multiset(a) == multiset(b)
    ensures AllForward(b)
  {
    forall i | 0 <= i < |b| ensures b[i].Forward() {
      var j := MultisetMember(b, a, i);
    }
  }

  /** Consuming the narrowest range keeps the loop's facts. */
  lemma ConsumeRoot(was: multiset<IDRange>, taken: seq<IDRange>, before: seq<IDRange>, root: IDRange,
                    after: seq<IDRange>)
    requires AllForward(taken) && AllForward(before) && Consuming(was, taken, before)
    requires before != [] && before[0] == root
    requires forall i :: 0 <= i < |before| ==> root.Width() <= before[i].Width()
    requires multiset(after) + multiset{root} == multiset(before)
    ensures AllForward(taken + [root]) && AllForward(after) && Consuming(was, taken + [root], after)
    ensures Total(taken + [root]) == Total(taken) + root.Width() + 1
  {
    hide Sum;
    SumConcat(Size, taken, [root]);
    SumOne(Size, root);
    assert multiset(taken + [root]) == multiset(taken) + multiset{root};
    forall i | 0 <= i < |after|
      ensures after[i].Forward() && root.Width() <= after[i].Width()
    {
      var j := MultisetMember(after, before, i);
    }
    forall i, j | 0 <= i < |taken + [root]| && 0 <= j < |after|
      ensures (taken + [root])[i].Width() <= after[j].Width()
    {
      assert i < |taken| ==> taken[i].Width() <= before[0].Width();
    }
    forall i, j | 0 <= i <= j < |taken + [root]|
      ensures (taken + [root])[i].Width() <= (taken + [root])[j].Width()
    {
      assert i < |taken| ==> taken[i].Width() <= before[0].Width();
    }
  }

  /** The split neither loses nor duplicates an ID, and keeps ranges forward. */
  lemma ReserveConserves(was: seq<IDRange>, reserved: seq<IDRange>, whole: nat, unused: seq<IDRange>, id: int)
    requires AllForward(was)
    requires NarrowestFirst(multiset(was), reserved, whole, unused)
    ensures AllForward(reserved) && AllForward(unused)
    ensures Occ(reserved, id) + Occ(unused, id) == Occ(was, id)
  {
    if whole == |reserved| {
      SplitConserves(was, reserved, unused, id);
    } else {
      var cut := reserved[whole];
      var joined := unused[0 := IDRange(cut.First, unused[0].Last)];
      SplitConserves(was, reserved[..whole], joined, id);
      assert reserved == reserved[..whole] + [cut];
      SumConcat(Hit(id), reserved[..whole], [cut]);
      assert joined[1..] == unused[1..];
      SumOne(Hit(id), cut);
      forall i | 0 <= i < |unused| ensures unused[i].Forward() {
        assert i > 0 ==> joined[i] == unused[i];
      }
      forall i | 0 <= i < |reserved| ensures reserved[i].Forward() {
        assert i < whole ==> reserved[..whole][i] == reserved[i];
      }
    }
  }

  lemma SplitConserves(was: seq<IDRange>, taken: seq<IDRange>, rest: seq<IDRange>, id: int)
    requires AllForward(was) && multiset(taken) + multiset(rest) == multiset(was)
    ensures AllForward(taken) && AllForward(rest)
    ensures Occ(taken, id) + Occ(rest, id) == Occ(was, id)
  {
    AppendIsWas(multiset(was), taken, rest);
    SumPermuted(Hit(id), taken + rest, was);
    SumConcat(Hit(id), taken, rest);
    PermutedForward(was, taken + rest);
    AllForwardParts(taken, rest);
  }

  // ----- Returning ranges to the available list -----

  predicate SortedByFirst(rs: seq<IDRange>) {
    forall i, j :: 0 <= i < j < |rs| ==> rs[i].First <= rs[j].First
  }

  /** Sorting by the first ID.  The library sort leaves the order of equal
      entries open; equal first IDs always end in the overlap error below. */
  function Sorted(rs: seq<IDRange>): (s: seq<IDRange>)
    ensures SortedByFirst(s) && multiset(s) == multiset(rs)
  {
    if rs == [] then []
    else
      assert rs == [rs[0]] + rs[1..];
      Insert(rs[0], Sorted(rs[1..]))
  }

  function Insert(r: IDRange, s: seq<IDRange>): (t: seq<IDRange>)
    requires SortedByFirst(s)
    ensures SortedByFirst(t) && multiset(t) == multiset(s) + multiset{r}
  {
    if s == [] then [r]
    else if r.First <= s[0].First then [r] + s
    else
      var t := Insert(r, s[1..]);
      InsertBehind(r, s, t);
      [s[0]] + t
  }

  lemma InsertBehind(r: IDRange, s: seq<IDRange>, t: seq<IDRange>)
    requires s != [] && SortedByFirst(s) && s[0].First < r.First
    requires SortedByFirst(t) && multiset(t) == multiset(s[1..]) + multiset{r}
    ensures SortedByFirst([s[0]] + t) && multiset([s[0]] + t) == multiset(s) + multiset{r}
  {
    assert s == [s[0]] + s[1..];
    assert multiset(t) == multiset(s[1..] + [r]);
    forall i | 0 <= i < |t| ensures s[0].First <= t[i].First {
      var j := MultisetMember(t, s[1..] + [r], i);
    }
  }

  /** Each range ends before the next begins. */
  ghost predicate Chain(rs: seq<IDRange>) {
    && AllForward(rs)
    && (forall i, j :: 0 <= i < j < |rs| ==> rs[i].Last < rs[j].First)
  }

  /** Sorted, disjoint, and no two ranges could be joined into one. */
  ghost predicate NormalForm(rs: seq<IDRange>) {
    && AllForward(rs)
    && (forall i, j :: 0 <= i < j < |rs| ==> rs[i].Last + 1 < rs[j].First)
  }

  lemma {:induction false} ChainNoDuplicates(rs: seq<IDRange>, id: int)
    requires Chain(rs)
    ensures Occ(rs, id) <= 1
  {
    if rs != [] {
      ChainNoDuplicates(rs[1..], id);
      if rs[0].Contains(id) && Occ(rs[1..], id) > 0 {
        OccPositive(rs[1..], id);
        assert false;
      }
    }
  }

  lemma {:induction false} TwiceHit(rs: seq<IDRange>, i: nat, j: nat, id: int)
    requires i < j < |rs| && rs[i].Contains(id) && rs[j].Contains(id)
    ensures Occ(rs, id) >= 2
  {
    if i == 0 {
      assert rs[1..][j - 1] == rs[j];
      OccPositive(rs[1..], id);
    } else {
      TwiceHit(rs[1..], i - 1, j - 1, id);
    }
  }

  /** A normal form is determined by the IDs it holds. */
  lemma {:induction false} NormalFormUnique(a: seq<IDRange>, b: seq<IDRange>)
    requires NormalForm(a) && NormalForm(b)
    requires forall id :: Occ(a, id) == Occ(b, id)
    ensures a == b
  {
    if a == [] || b == [] {
      if a != [] { OccPositive(a, a[0].First); assert a[0].Contains(a[0].First); }
      if b != [] { OccPositive(b, b[0].First); assert b[0].Contains(b[0].First); }
    } else {
      HeadsAgree(a, b);
      HeadsAgree(b, a);
      forall id ensures Occ(a[1..], id) == Occ(b[1..], id) {
        assert Occ(a, id) == Occ(b, id);
      }
      NormalFormUnique(a[1..], b[1..]);
      assert a == [a[0]] + a[1..] && b == [b[0]] + b[1..];
    }
  }

  lemma HeadsAgree(a: seq<IDRange>, b: seq<IDRange>)
    requires a != [] && b != [] && NormalForm(a) && NormalForm(b)
    requires forall id :: Occ(a, id) == Occ(b, id)
    ensures b[0].First <= a[0].First && (a[0].First == b[0].First ==> a[0].Last <= b[0].Last)
  {
    OccPositive(a, a[0].First);
    assert a[0].Contains(a[0].First);
    OccPositive(b, a[0].First);
    var i :| 0 <= i < |b| && b[i].Contains(a[0].First);
    assert i > 0 ==> b[0].Last + 1 < b[i].First;
    if a[0].First == b[0].First && b[0].Last < a[0].Last {
      var id := b[0].Last + 1;
      assert a[0].Contains(id);
      OccPositive(a, id);
      OccPositive(b, id);
    }
  }

  /** Joins two lists of ranges.  It fails exactly when an ID would occur
      twice; otherwise the result is the normal form of the union. */
  method MergeIDs(main: seq<IDRange>, returned: seq<IDRange>) returns (r: Option<seq<IDRange>>)
    requires AllForward(main) && AllForward(returned)
    ensures r.None? <==> !NoDuplicates(main + returned)
    ensures r.Some? ==> NormalForm(r.value) && forall id :: Occ(r.value, id) == Occ(main + returned, id)
  {
    var both := main + returned;
    if |main| == 0 && |returned| == 0 {
      return Some([]);
    }
    var sorted := Sorted(both);
    SortedKeeps(both, sorted);
    var a := new IDRange[|sorted|](i requires 0 <= i < |sorted| => sorted[i]);
    assert a[..] == sorted;
    var ok, i := Coalesce(a);
    r := if ok then Some(a[..i]) else None;
  }

  /** The coalescing pass over ranges sorted by their first ID, in place. */
  method Coalesce(a: array<IDRange>) returns (ok: bool, i: nat)
    requires a.Length > 0 && AllForward(a[..]) && SortedByFirst(a[..])
    modifies a
    ensures ok <==> NoDuplicates(old(a[..]))
    ensures ok ==> i <= a.Length && NormalForm(a[..i])
    ensures ok ==> forall id :: Occ(a[..i], id) == Occ(old(a[..]), id)
  {
    hide Sum;
    ghost var sorted := a[..];
    i := 1;
    var k := 1;
    MergeStart(sorted);
    assert a[..1] == sorted[..1];
    while k < a.Length
      invariant 1 <= i <= k <= a.Length == |sorted|
      invariant a[k..] == sorted[k..]
      invariant Merged(sorted[..k], a[..i])
    {
      var v, prev := a[k], a[i - 1];
      assert v == a[k..][0] == sorted[k];
      ghost var before := a[..i];
      ghost var rest := a[k + 1..];
      assert rest == sorted[k + 1..];
      assert prev == before[|before| - 1];
      if v.First == prev.First || v.First <= prev.Last {
        OverlapFound(sorted, k, before);
        return false, i;
      } else if v.First == prev.Last + 1 {
        MergeJoin(sorted, k, before);
        a[i - 1] := IDRange(prev.First, v.Last);
        assert a[..i] == before[i - 1 := IDRange(prev.First, v.Last)];
      } else {
        MergeAppend(sorted, k, before);
        a[i] := v;
        i := i + 1;
        assert a[..i] == before + [v];
      }
      k := k + 1;
      assert a[k..] == rest;
    }
    assert sorted[..k] == sorted;
    MergedAll(sorted, a[..i]);
    ok := true;
  }

  lemma OverlapFound(sorted: seq<IDRange>, k: nat, done: seq<IDRange>)
    requires 1 <= k < |sorted| && SortedByFirst(sorted) && AllForward(sorted)
    requires Merged(sorted[..k], done)
    requires sorted[k].First <= done[|done| - 1].Last
    ensures !NoDuplicates(sorted)
  {
    assert sorted[..k][k - 1] == sorted[k - 1];
    TwiceHit(sorted, k - 1, k, sorted[k].First);
  }

  lemma MergedAll(sorted: seq<IDRange>, done: seq<IDRange>)
    requires Merged(sorted, done)
    ensures NoDuplicates(sorted) && NormalForm(done)
    ensures forall id :: Occ(done, id) == Occ(sorted, id)
  {
    forall id ensures Occ(sorted, id) <= 1 {
      ChainNoDuplicates(sorted, id);
    }
  }

  lemma SortedKeeps(rs: seq<IDRange>, s: seq<IDRange>)
    requires multiset(s) == multiset(rs) && AllForward(rs)
    ensures AllForward(s) && forall id :: Occ(s, id) == Occ(rs, id)
  {
    PermutedForward(rs, s);
    forall id ensures Occ(s, id) == Occ(rs, id) {
      SumPermuted(Hit(id), s, rs);
    }
  }

  /** `done` is the normal form of the sorted prefix read so far. */
  ghost predicate Merged(read: seq<IDRange>, done: seq<IDRange>) {
    && read != [] && done != [] && Chain(read) && NormalForm(done)
    && done[|done| - 1].Last == read[|read| - 1].Last
    && forall id :: Occ(done, id) == Occ(read, id)
  }

  lemma MergeStart(sorted: seq<IDRange>)
    requires sorted != [] && AllForward(sorted)
    ensures Merged(sorted[..1], sorted[..1])
  {
  }

  lemma ChainExtend(sorted: seq<IDRange>, k: nat)
    requires 1 <= k < |sorted| && Chain(sorted[..k]) && sorted[k].Forward()
    requires sorted[k - 1].Last < sorted[k].First
    ensures Chain(sorted[..k + 1])
    ensures forall id :: Occ(sorted[..k + 1], id) == Occ(sorted[..k], id) + Hit(id)(sorted[k])
  {
    var s := sorted[..k + 1];
    forall i, j | 0 <= i < j < k + 1 ensures s[i].Last < s[j].First {
      assert sorted[..k][i] == s[i];
      if j == k {
        assert sorted[..k][k - 1] == sorted[k - 1];
        assert i < k - 1 ==> sorted[..k][i].Last < sorted[..k][k - 1].First <= sorted[..k][k - 1].Last;
      } else {
        assert sorted[..k][j] == s[j];
      }
    }
    forall i | 0 <= i < k + 1 ensures s[i].Forward() {
      assert i < k ==> sorted[..k][i] == s[i];
    }
    forall id ensures Occ(s, id) == Occ(sorted[..k], id) + Hit(id)(sorted[k]) {
      assert s == sorted[..k] + [sorted[k]];
      SumConcat(Hit(id), sorted[..k], [sorted[k]]);
      SumOne(Hit(id), sorted[k]);
    }
  }

  lemma MergeJoin(sorted: seq<IDRange>, k: nat, done: seq<IDRange>)
    requires 1 <= k < |sorted| && Merged(sorted[..k], done) && sorted[k].Forward()
    requires sorted[k].First == done[|done| - 1].Last + 1
    ensures Merged(sorted[..k + 1], done[|done| - 1 := IDRange(done[|done| - 1].First, sorted[k].Last)])
  {
    assert sorted[..k][k - 1] == sorted[k - 1];
    ChainExtend(sorted, k);
    var m := |done| - 1;
    var prev, v := done[m], sorted[k];
    var joined := IDRange(prev.First, v.Last);
    var now := done[m := joined];
    assert done == done[..m] + [prev] && now == done[..m] + [joined];
    forall id ensures Occ(now, id) == Occ(sorted[..k + 1], id) {
      SumConcat(Hit(id), done[..m], [prev]);
      SumConcat(Hit(id), done[..m], [joined]);
      SumOne(Hit(id), prev);
      SumOne(Hit(id), joined);
    }
  }

  lemma MergeAppend(sorted: seq<IDRange>, k: nat, done: seq<IDRange>)
    requires 1 <= k < |sorted| && Merged(sorted[..k], done) && sorted[k].Forward()
    requires sorted[k].First > done[|done| - 1].Last + 1
    ensures Merged(sorted[..k + 1], done + [sorted[k]])
  {
    assert sorted[..k][k - 1] == sorted[k - 1];
    ChainExtend(sorted, k);
    var m := |done| - 1;
    forall i | 0 <= i < |done| ensures done[i].Last + 1 < sorted[k].First {
      assert i < m ==> done[i].Last + 1 < done[m].First <= done[m].Last;
    }
    forall id ensures Occ(done + [sorted[k]], id) == Occ(sorted[..k + 1], id) {
      SumConcat(Hit(id), done, [sorted[k]]);
      SumOne(Hit(id), sorted[k]);
    }
  }
}
