// The in-place binary min-heap used both by the ID allocator (over range
// widths) and by the container merge (over container keys).  The two copies in
// the source run the same comparisons and swaps, so they are modelled once,
// over an arbitrary integer key.
module MinHeap {

  function Parent(i: int): (p: nat)
    requires 1 <= i
    ensures p < i
  {
    (i - 1) / 2
  }

  /** Entry i is no smaller than its parent. */
  ghost predicate Above<T>(s: seq<T>, key: T -> int, i: nat)
    requires 1 <= i < |s|
  {
    key(s[Parent(i)]) <= key(s[i])
  }

  /** Entry i is no smaller than its grandparent. */
  ghost predicate FarAbove<T>(s: seq<T>, key: T -> int, i: nat)
    requires 1 <= i < |s|
  {
    1 <= Parent(i) ==> key(s[Parent(Parent(i))]) <= key(s[i])
  }

  /** The first n entries form a min-heap: no entry is below its parent. */
  ghost predicate IsHeap<T>(s: seq<T>, key: T -> int, n: nat)
    requires n <= |s|
  {
    forall i :: 1 <= i < n ==> Above(s, key, i)
  }

  /** A heap except that the entry at `hole` may be smaller than its parent. */
  ghost predicate HeapButUp<T>(s: seq<T>, key: T -> int, n: nat, hole: nat)
    requires n <= |s|
  {
    && (forall i :: 1 <= i < n && i != hole ==> Above(s, key, i))
    && (forall i :: 1 <= i < n && Parent(i) == hole ==> FarAbove(s, key, i))
  }

  /** A heap except that the entry at `hole` may be larger than its children. */
  ghost predicate HeapButDown<T>(s: seq<T>, key: T -> int, n: nat, hole: nat)
    requires n <= |s|
  {
    && (forall i :: 1 <= i < n && Parent(i) != hole ==> Above(s, key, i))
    && (forall i :: 1 <= i < n && Parent(i) == hole ==> FarAbove(s, key, i))
  }

  /** In a heap the root carries the least key. */
  lemma {:induction false} RootIsLeast<T>(s: seq<T>, key: T -> int, n: nat, i: nat)
    requires i < n <= |s| && IsHeap(s, key, n)
    ensures key(s[0]) <= key(s[i])
  {
    if i > 0 {
      assert Above(s, key, i);
      RootIsLeast(s, key, n, Parent(i));
    }
  }

  ghost function Swapped<T>(s: seq<T>, i: nat, j: nat): (t: seq<T>)
    requires i < |s| && j < |s|
    ensures |t| == |s|
  {
    s[i := s[j]][j := s[i]]
  }

  /** Exchanging two entries of a prefix permutes that prefix. */
  lemma SwapPermutes<T>(s: seq<T>, i: nat, j: nat, n: nat)
    requires i < n <= |s| && j < n
    ensures multiset(Swapped(s, i, j)[..n]) == multiset(s[..n])
    ensures Swapped(s, i, j)[n..] == s[n..]
  {
    assert Swapped(s, i, j)[..n] == Swapped(s[..n], i, j);
    var t := s[..n];
    assert multiset(t[i := t[j]]) == multiset(t) - multiset{t[i]} + multiset{t[j]};
  }

  /** The first n entries are a rearrangement and the rest is untouched. */
  ghost predicate Permutes<T>(s: seq<T>, t: seq<T>, n: nat)
    requires n <= |s|
  {
    |t| == |s| && multiset(s[..n]) == multiset(t[..n]) && s[n..] == t[n..]
  }

  method Swap<T>(a: array<T>, i: nat, j: nat)
    requires i < a.Length && j < a.Length
    modifies a
    ensures a[..] == Swapped(old(a[..]), i, j)
  {
    a[i], a[j] := a[j], a[i];
  }

  /** Moves the entry at `start` towards the root until its parent is no
      larger.  Only the first n entries are touched, and they are permuted. */
  method SiftUp<T>(a: array<T>, key: T -> int, n: nat, start: nat)
    requires start < n <= a.Length
    requires HeapButUp(a[..], key, n, start)
    modifies a
    ensures IsHeap(a[..], key, n)
    ensures Permutes(old(a[..]), a[..], n)
  {
    var i: nat := start;
    while i != 0 && key(a[Parent(i)]) > key(a[i])
      invariant i < n
      invariant HeapButUp(a[..], key, n, i)
      invariant Permutes(old(a[..]), a[..], n)
    {
      ghost var s := a[..];
      SwapPermutes(s, Parent(i), i, n);
      UpStep(s, key, n, i);
      Swap(a, Parent(i), i);
      i := Parent(i);
    }
    UpDone(a[..], key, n, i);
  }

  lemma UpDone<T>(s: seq<T>, key: T -> int, n: nat, i: nat)
    requires i < n <= |s|
    requires HeapButUp(s, key, n, i)
    requires i != 0 ==> key(s[Parent(i)]) <= key(s[i])
    ensures IsHeap(s, key, n)
  {
    forall k | 1 <= k < n
      ensures Above(s, key, k)
    {
    }
  }

  lemma UpStep<T>(s: seq<T>, key: T -> int, n: nat, i: nat)
    requires 1 <= i < n <= |s|
    requires HeapButUp(s, key, n, i)
    requires key(s[Parent(i)]) > key(s[i])
    ensures HeapButUp(Swapped(s, Parent(i), i), key, n, Parent(i))
  {
    var p := Parent(i);
    var t := Swapped(s, p, i);
    forall k | 1 <= k < n && k != p
      ensures Above(t, key, k)
    {
      if k != i {
        assert Above(s, key, k);
        assert Parent(k) == i ==> FarAbove(s, key, k);
      }
    }
    forall k | 1 <= k < n && Parent(k) == p
      ensures FarAbove(t, key, k)
    {
      if p >= 1 {
        assert Above(s, key, p);
        assert k != i ==> Above(s, key, k);
      }
    }
  }

  /** Moves the entry at the root towards the leaves, each time exchanging it
      with its smaller child. */
  method SiftDown<T>(a: array<T>, key: T -> int, n: nat)
    requires n <= a.Length
    requires HeapButDown(a[..], key, n, 0)
    modifies a
    ensures IsHeap(a[..], key, n)
    ensures Permutes(old(a[..]), a[..], n)
  {
    var i: nat := 0;
    var settled := n == 0;
    while !settled
      invariant settled || i < n
      invariant if settled then IsHeap(a[..], key, n) else HeapButDown(a[..], key, n, i)
      invariant Permutes(old(a[..]), a[..], n)
      decreases !settled, n - i
    {
      var min := SmallestOfThree(a, key, n, i);
      if min == i {
        DownDone(a[..], key, n, i);
        settled := true;
      } else {
        ghost var s := a[..];
        SwapPermutes(s, min, i, n);
        DownStep(s, key, n, i, min);
        Swap(a, min, i);
        i := min;
      }
    }
  }

  /** The index of the least key among entry i and its children, preferring
      the entry itself, then the left child. */
  method SmallestOfThree<T>(a: array<T>, key: T -> int, n: nat, i: nat) returns (min: nat)
    requires i < n <= a.Length
    ensures min < n && (min == i || min == 2 * i + 1 || min == 2 * i + 2)
    ensures min != i ==> key(a[min]) < key(a[i])
    ensures forall k :: k < n && (k == i || k == 2 * i + 1 || k == 2 * i + 2) ==> key(a[min]) <= key(a[k])
  {
    var l, r := 2 * i + 1, 2 * i + 2;
    min := i;
    if l < n && key(a[l]) < key(a[min]) {
      min := l;
    }
    if r < n && key(a[r]) < key(a[min]) {
      min := r;
    }
  }

  lemma DownDone<T>(s: seq<T>, key: T -> int, n: nat, i: nat)
    requires n <= |s| && i < |s|
    requires HeapButDown(s, key, n, i)
    requires 2 * i + 1 < n ==> key(s[i]) <= key(s[2 * i + 1])
    requires 2 * i + 2 < n ==> key(s[i]) <= key(s[2 * i + 2])
    ensures IsHeap(s, key, n)
  {
    forall k | 1 <= k < n
      ensures Above(s, key, k)
    {
      if Parent(k) == i {
        assert k == 2 * i + 1 || k == 2 * i + 2;
      }
    }
  }

  lemma DownStep<T>(s: seq<T>, key: T -> int, n: nat, i: nat, min: nat)
    requires min < n <= |s| && (min == 2 * i + 1 || min == 2 * i + 2)
    requires HeapButDown(s, key, n, i)
    requires key(s[min]) < key(s[i])
    requires forall k :: k < n && (k == 2 * i + 1 || k == 2 * i + 2) ==> key(s[min]) <= key(s[k])
    ensures HeapButDown(Swapped(s, min, i), key, n, min)
  {
    var t := Swapped(s, min, i);
    forall k | 1 <= k < n && Parent(k) != min
      ensures Above(t, key, k)
    {
      if Parent(k) == i {
        assert k == 2 * i + 1 || k == 2 * i + 2;
      } else {
        assert Above(s, key, k);
        assert Parent(min) == i;
        assert k == i ==> FarAbove(s, key, min);
      }
    }
    forall k | 1 <= k < n && Parent(k) == min
      ensures FarAbove(t, key, k)
    {
      assert Above(s, key, k);
    }
  }
}
