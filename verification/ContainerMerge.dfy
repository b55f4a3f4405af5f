// The k-way container merge (executor.go): a binary heap over the iterators'
// next keys, with the popped nodes left in the tail of the heap's own array.
module ContainerMerge {
  import opened MinHeap

  /** A container of a bitmap: its key, and the low bits it holds. */
  datatype Item = Item(key: nat, bits: set<nat>)

  datatype Node = Node(key: nat, idx: nat)

  function KeyOf(n: Node): int {
    n.key
  }

  ghost predicate Ascending(items: seq<Item>) {
    forall j, k :: 0 <= j < k < |items| ==> items[j].key < items[k].key
  }

  ghost predicate AllAscending(rest: seq<seq<Item>>) {
    forall i :: 0 <= i < |rest| ==> Ascending(rest[i])
  }

  // ----- What the merge should yield -----

  ghost predicate HasKey(items: seq<Item>, key: nat) {
    exists j :: 0 <= j < |items| && items[j].key == key
  }

  ghost predicate HasBit(items: seq<Item>, key: nat, v: nat) {
    exists j :: 0 <= j < |items| && items[j].key == key && v in items[j].bits
  }

  ghost predicate Has(rest: seq<seq<Item>>, key: nat) {
    exists i :: 0 <= i < |rest| && HasKey(rest[i], key)
  }

  ghost predicate In(rest: seq<seq<Item>>, key: nat, v: nat) {
    exists i :: 0 <= i < |rest| && HasBit(rest[i], key, v)
  }

  /** Iterator i stands at this key. */
  ghost predicate HeadIs(rest: seq<seq<Item>>, i: nat, key: nat) {
    i < |rest| && rest[i] != [] && rest[i][0].key == key
  }

  ghost predicate Least(rest: seq<seq<Item>>, key: nat) {
    && (exists i: nat :: HeadIs(rest, i, key))
    && forall i :: 0 <= i < |rest| && rest[i] != [] ==> key <= rest[i][0].key
  }

  /** Every iterator at the key moves on. */
  ghost predicate Advanced(rest: seq<seq<Item>>, after: seq<seq<Item>>, key: nat) {
    |after| == |rest| && forall i :: 0 <= i < |rest| ==> after[i] == if HeadIs(rest, i, key) then rest[i][1..] else rest[i]
  }

  /** The bits of all containers the iterators have at the key. */
  ghost predicate HeadBits(rest: seq<seq<Item>>, key: nat, bits: set<nat>) {
    forall v :: v in bits <==> exists i: nat :: HeadIs(rest, i, key) && v in rest[i][0].bits
  }

  lemma HeadGone(items: seq<Item>, key: nat, k: nat, v: nat)
    requires Ascending(items) && items != [] && items[0].key == key
    ensures Ascending(items[1..])
    ensures HasKey(items[1..], k) <==> HasKey(items, k) && k != key
    ensures HasBit(items[1..], k, v) <==> HasBit(items, k, v) && k != key
    ensures HasKey(items, key) && (HasBit(items, key, v) <==> v in items[0].bits)
  {
    assert forall j :: 0 <= j < |items| - 1 ==> items[1..][j] == items[j + 1];
    assert forall j :: 0 < j < |items| ==> items[j] == items[1..][j - 1] && items[j].key > key;
  }

  lemma NotYet(items: seq<Item>, key: nat, k: nat, v: nat)
    requires Ascending(items) && (items != [] ==> key <= items[0].key)
    ensures HasKey(items, k) ==> key <= k
    ensures HasBit(items, k, v) ==> HasKey(items, k)
    ensures HasKey(items, key) ==> items != [] && items[0].key == key
  {
    assert forall j :: 0 < j < |items| ==> items[0].key < items[j].key;
  }

  lemma OneAdvances(rest: seq<seq<Item>>, after: seq<seq<Item>>, key: nat, i: nat, k: nat, v: nat)
    requires AllAscending(rest) && Least(rest, key) && Advanced(rest, after, key) && i < |rest|
    ensures Ascending(after[i])
    ensures HasKey(after[i], k) <==> HasKey(rest[i], k) && k != key
    ensures HasBit(after[i], k, v) <==> HasBit(rest[i], k, v) && k != key
    ensures HasBit(rest[i], key, v) <==> HeadIs(rest, i, key) && v in rest[i][0].bits
    ensures HasKey(rest[i], k) ==> key <= k
    ensures HasKey(rest[i], key) <==> HeadIs(rest, i, key)
  {
    hide Ascending, HasKey, HasBit;
    NotYet(rest[i], key, k, v);
    NotYet(rest[i], key, key, v);
    if HeadIs(rest, i, key) {
      HeadGone(rest[i], key, k, v);
    }
  }

  /** One step yields the least key with the union of all its containers, and
      leaves exactly the other keys. */
  lemma StepYields(rest: seq<seq<Item>>, after: seq<seq<Item>>, key: nat, bits: set<nat>)
    requires AllAscending(rest) && Least(rest, key) && Advanced(rest, after, key) && HeadBits(rest, key, bits)
    ensures AllAscending(after) && Has(rest, key)
    ensures forall v: nat :: v in bits <==> In(rest, key, v)
    ensures forall k: nat :: Has(after, k) <==> Has(rest, k) && k != key
    ensures forall k: nat, v: nat :: In(after, k, v) <==> In(rest, k, v) && k != key
    ensures forall k: nat :: Has(rest, k) ==> key <= k
  {
    hide Ascending, HasKey, HasBit, Advanced;
    SameLength(rest, after, key);
    forall i: nat, k: nat | i < |rest|
      ensures HasKey(after[i], k) <==> HasKey(rest[i], k) && k != key
      ensures HasKey(rest[i], k) ==> key <= k
    {
      OneAdvances(rest, after, key, i, k, 0);
    }
    forall i: nat | i < |rest|
      ensures Ascending(after[i]) && (HasKey(rest[i], key) <==> HeadIs(rest, i, key))
    {
      OneAdvances(rest, after, key, i, key, 0);
    }
    forall i: nat, k: nat, v: nat | i < |rest|
      ensures HasBit(after[i], k, v) <==> HasBit(rest[i], k, v) && k != key
    {
      OneAdvances(rest, after, key, i, k, v);
    }
    forall i: nat, v: nat | i < |rest|
      ensures HasBit(rest[i], key, v) <==> HeadIs(rest, i, key) && v in rest[i][0].bits
    {
      OneAdvances(rest, after, key, i, key, v);
    }
  }

  lemma SameLength(rest: seq<seq<Item>>, after: seq<seq<Item>>, key: nat)
    requires Advanced(rest, after, key)
    ensures |after| == |rest|
  {
  }

  // ----- The heap -----

  /** The node an iterator outside `out` has in the heap. */
  ghost predicate Belongs(nd: Node, rest: seq<seq<Item>>, out: set<nat>) {
    nd.idx !in out && HeadIs(rest, nd.idx, nd.key)
  }

  /** The heap holds exactly one node for each iterator that is not out and has
      something left. */
  ghost predicate Holds(nodes: multiset<Node>, rest: seq<seq<Item>>, out: set<nat>) {
    forall nd :: nodes[nd] == if Belongs(nd, rest, out) then 1 else 0
  }

  lemma PushHolds(nodes: multiset<Node>, rest: seq<seq<Item>>, rest': seq<seq<Item>>, out: set<nat>, idx: nat)
    requires Holds(nodes, rest, out) && idx in out && idx < |rest| == |rest'| && rest' == rest[idx := rest'[idx]]
    ensures rest'[idx] == [] ==> Holds(nodes, rest', out - {idx})
    ensures rest'[idx] != [] ==> Holds(nodes + multiset{Node(rest'[idx][0].key, idx)}, rest', out - {idx})
  {
    forall nd: Node ensures nodes[nd] == if Belongs(nd, rest, out) then 1 else 0 {
    }
    forall nd: Node | nd.idx != idx ensures Belongs(nd, rest', out - {idx}) <==> Belongs(nd, rest, out) {
    }
  }

  method Push(heap: array<Node>, n: nat, node: Node)
    requires n < heap.Length && IsHeap(heap[..], KeyOf, n)
    modifies heap
    ensures IsHeap(heap[..], KeyOf, n + 1)
    ensures multiset(heap[..n + 1]) == old(multiset(heap[..n])) + multiset{node}
    ensures heap[n + 1..] == old(heap[n + 1..])
  {
    ghost var before := heap[..];
    heap[n] := node;
    assert heap[..n] == before[..n] && heap[..n + 1] == heap[..n] + [node];
    assert heap[..][n + 1..] == before[n + 1..];
    ghost var mid := heap[..];
    assert mid[..n + 1] == heap[..n + 1];
    LastMayRise(before, mid, n);
    SiftUp(heap, KeyOf, n + 1, n);
    assert heap[..n + 1] == heap[..][..n + 1] && heap[n + 1..] == heap[..][n + 1..];
  }

  lemma LastMayRise(s: seq<Node>, t: seq<Node>, n: nat)
    requires n < |s| == |t| && IsHeap(s, KeyOf, n) && t[..n] == s[..n]
    ensures HeapButUp(t, KeyOf, n + 1, n)
  {
    forall i | 1 <= i < n + 1 && i != n ensures Above(t, KeyOf, i) {
      assert Above(s, KeyOf, i);
      assert t[i] == t[..n][i] && t[Parent(i)] == t[..n][Parent(i)];
    }
  }

  /** Removes all nodes with the least key; they are left in the array behind
      the shortened heap. */
  method Pop(heap: array<Node>, m: nat) returns (n: nat)
    requires m <= heap.Length && IsHeap(heap[..], KeyOf, m)
    modifies heap
    ensures n <= m && IsHeap(heap[..], KeyOf, n) && (m > 0 ==> n < m)
    ensures multiset(heap[..m]) == old(multiset(heap[..m]))
    ensures forall i :: n <= i < m ==> heap[i].key == heap[n].key
    ensures n < m ==> forall i :: 0 <= i < n ==> heap[n].key < heap[i].key
  {
    n := m;
    if m == 0 {
      return;
    }
    var key := heap[0].key;
    AllFromRoot(heap[..], m);
    while n > 0 && heap[0].key == key
      invariant 0 <= n <= m && IsHeap(heap[..], KeyOf, n) && multiset(heap[..m]) == old(multiset(heap[..m]))
      invariant n == m ==> heap[0].key == key
      invariant forall i :: n <= i < m ==> heap[i].key == key
      invariant AllFrom(heap[..][..n], key)
    {
      PopOne(heap, m, n, key);
      n := n - 1;
    }
    if n > 0 {
      AllFromRoot(heap[..], n);
      assert heap[..][..n][0] == heap[0];
      forall i | 0 <= i < n ensures key < heap[i].key {
        assert heap[..][..n][i] == heap[i];
      }
    }
  }

  /** Exchanges the root with the last node and lets that one sink. */
  method PopOne(heap: array<Node>, m: nat, n: nat, ghost key: int)
    requires 0 < n <= m <= heap.Length && IsHeap(heap[..], KeyOf, n) && AllFrom(heap[..][..n], key)
    modifies heap
    ensures IsHeap(heap[..], KeyOf, n - 1) && AllFrom(heap[..][..n - 1], key)
    ensures heap[n - 1] == old(heap[0]) && forall i :: n <= i < heap.Length ==> heap[i] == old(heap[i])
    ensures multiset(heap[..m]) == old(multiset(heap[..m]))
  {
    ghost var s := heap[..];
    Swap(heap, 0, n - 1);
    RootMaySink(s, n);
    ghost var t := heap[..];
    SiftDown(heap, KeyOf, n - 1);
    PoppedOne(s, t, heap[..], n, m, key);
    assert heap[..m] == heap[..][..m] && s[..m] == old(heap[..m]);
  }

  ghost predicate AllFrom(nodes: seq<Node>, k: int) {
    forall i :: 0 <= i < |nodes| ==> k <= nodes[i].key
  }

  lemma AllFromRoot(s: seq<Node>, n: nat)
    requires 0 < n <= |s| && IsHeap(s, KeyOf, n)
    ensures AllFrom(s[..n], s[0].key)
  {
    forall i | 0 <= i < n ensures s[0].key <= s[..n][i].key {
      RootIsLeast(s, KeyOf, n, i);
    }
  }

  /** Permuting a shorter prefix permutes a longer one. */
  lemma LongerPermutes(t: seq<Node>, u: seq<Node>, n: nat, m: nat)
    requires n <= m <= |t| && Permutes(t, u, n)
    ensures multiset(u[..m]) == multiset(t[..m]) && forall i :: n <= i < |t| ==> u[i] == t[i]
  {
    forall i | n <= i < |t| ensures u[i] == t[i] {
      assert u[i] == u[n..][i - n] && t[i] == t[n..][i - n];
    }
    assert u[..m] == u[..n] + u[n..m] && t[..m] == t[..n] + t[n..m] && u[n..m] == t[n..m];
  }

  lemma SwappedFrom(s: seq<Node>, n: nat, key: int)
    requires 0 < n <= |s| && AllFrom(s[..n], key)
    ensures AllFrom(Swapped(s, 0, n - 1)[..n - 1], key)
  {
    var t := Swapped(s, 0, n - 1);
    forall j | 0 <= j < n - 1 ensures key <= t[j].key {
      assert s[..n][if j == 0 then n - 1 else j] == t[j];
    }
  }

  lemma PoppedOne(s: seq<Node>, t: seq<Node>, u: seq<Node>, n: nat, m: nat, key: int)
    requires 0 < n <= m <= |s| && t == Swapped(s, 0, n - 1) && Permutes(t, u, n - 1) && AllFrom(s[..n], key)
    ensures u[n - 1] == s[0] && AllFrom(u[..n - 1], key) && multiset(u[..m]) == multiset(s[..m])
    ensures forall i :: n <= i < |s| ==> u[i] == s[i]
  {
    hide AllFrom;
    LongerPermutes(t, u, n - 1, m);
    SwapPermutes(s, 0, n - 1, m);
    SwappedFrom(s, n, key);
    AllFromPermuted(t[..n - 1], u[..n - 1], key);
  }

  lemma AllFromPermuted(a: seq<Node>, b: seq<Node>, key: int)
    requires AllFrom(a, key) && multiset(a) == multiset(b)
    ensures AllFrom(b, key)
  {
    forall i | 0 <= i < |b| ensures key <= b[i].key {
      assert b[i] in multiset(a);
    }
  }

  lemma RootMaySink(s: seq<Node>, n: nat)
    requires 0 < n <= |s| && IsHeap(s, KeyOf, n)
    ensures HeapButDown(Swapped(s, 0, n - 1), KeyOf, n - 1, 0)
  {
    var t := Swapped(s, 0, n - 1);
    forall i | 1 <= i < n - 1 && Parent(i) != 0 ensures Above(t, KeyOf, i) {
      assert Above(s, KeyOf, i);
    }
  }

  // ----- One step of the merge -----

  /** What popping the least key means for the iterators: the popped nodes are
      those at the least key, one for each iterator there. */
  ghost predicate PoppedAll(popped: seq<Node>, rest: seq<seq<Item>>, key: nat) {
    && (forall j :: 0 <= j < |popped| ==> popped[j].key == key && HeadIs(rest, popped[j].idx, key))
    && (forall j, k :: 0 <= j < k < |popped| ==> popped[j].idx != popped[k].idx)
    && (forall i: nat :: HeadIs(rest, i, key) ==> Node(key, i) in popped)
  }

  ghost function Indices(nodes: seq<Node>): set<nat> {
    set nd | nd in nodes :: nd.idx
  }

  lemma PopSplits(front: seq<Node>, popped: seq<Node>, rest: seq<seq<Item>>, key: nat)
    requires Holds(multiset(front + popped), rest, {}) && popped != []
    requires forall j :: 0 <= j < |popped| ==> popped[j].key == key
    requires forall j :: 0 <= j < |front| ==> key < front[j].key
    ensures PoppedAll(popped, rest, key) && Least(rest, key) && Holds(multiset(front), rest, Indices(popped))
  {
    var nodes := multiset(front + popped);
    assert nodes == multiset(front) + multiset(popped);
    forall j | 0 <= j < |popped| ensures HeadIs(rest, popped[j].idx, key) {
      assert popped[j] in nodes;
    }
    forall j, k | 0 <= j < k < |popped| ensures popped[j].idx != popped[k].idx {
      assert nodes[popped[j]] <= 1;
      if popped[j] == popped[k] {
        Twice(popped, j, k);
      }
    }
    forall i: nat | i < |rest| && rest[i] != []
      ensures key <= rest[i][0].key && (HeadIs(rest, i, key) ==> Node(key, i) in popped)
    {
      var nd := Node(rest[i][0].key, i);
      assert Belongs(nd, rest, {});
      assert nd in nodes;
      assert nd in front || nd in popped;
    }
    assert HeadIs(rest, popped[0].idx, key);
    forall nd: Node ensures multiset(front)[nd] == if Belongs(nd, rest, Indices(popped)) then 1 else 0 {
      FrontOnly(front, popped, rest, key, nd);
    }
  }

  lemma PopSplitsAt(s: seq<Node>, n: nat, m: nat, rest: seq<seq<Item>>, key: nat)
    requires n <= m <= |s| && (m > 0 ==> n < m) && Holds(multiset(s[..m]), rest, {})
    requires forall i :: n <= i < m ==> s[i].key == key
    requires n < m ==> forall i :: 0 <= i < n ==> key < s[i].key
    ensures n == m ==> forall i :: 0 <= i < |rest| ==> rest[i] == []
    ensures n < m ==> PoppedAll(s[n..m], rest, key) && Least(rest, key) && Holds(multiset(s[..n]), rest, Indices(s[n..m]))
  {
    hide Holds, Least, PoppedAll, Indices;
    if n == m {
      NothingHeld(multiset(s[..m]), rest);
    } else {
      assert s[..m] == s[..n] + s[n..m];
      PopSplits(s[..n], s[n..m], rest, key);
    }
  }

  lemma Twice(s: seq<Node>, j: nat, k: nat)
    requires j < k < |s| && s[j] == s[k]
    ensures multiset(s)[s[j]] >= 2
  {
    assert s == s[..j] + [s[j]] + s[j + 1..k] + [s[k]] + s[k + 1..];
  }

  lemma FrontOnly(front: seq<Node>, popped: seq<Node>, rest: seq<seq<Item>>, key: nat, nd: Node)
    requires Holds(multiset(front) + multiset(popped), rest, {})
    requires forall j :: 0 <= j < |popped| ==> popped[j].key == key && HeadIs(rest, popped[j].idx, key)
    requires forall j :: 0 <= j < |front| ==> key < front[j].key
    requires forall i: nat :: HeadIs(rest, i, key) ==> Node(key, i) in popped
    ensures multiset(front)[nd] == if Belongs(nd, rest, Indices(popped)) then 1 else 0
  {
    var nodes := multiset(front) + multiset(popped);
    assert nodes[nd] == if Belongs(nd, rest, {}) then 1 else 0;
    if nd.idx in Indices(popped) {
      var p :| p in popped && p.idx == nd.idx;
      assert nd in front ==> nd in nodes;
    } else {
      assert nd !in popped;
    }
  }

  /** What is left of an iterator from which some items were fetched. */
  ghost predicate Fetched(input: seq<Item>, pos: nat, rest: seq<Item>) {
    if rest == [] then pos == |input| else 1 <= pos <= |input| && rest == input[pos - 1..]
  }

  /** The positions and kept containers fit what is left, for iterators that
      are not out. */
  ghost predicate Sides(inputs: seq<seq<Item>>, pos: seq<nat>, c: seq<set<nat>>, rest: seq<seq<Item>>, out: set<nat>) {
    && |inputs| == |pos| == |c| == |rest|
    && forall i: nat :: i < |rest| && i !in out ==> Side(inputs[i], pos[i], c[i], rest[i])
  }

  ghost predicate Side(input: seq<Item>, pos: nat, c: set<nat>, rest: seq<Item>) {
    Fetched(input, pos, rest) && (rest != [] ==> c == rest[0].bits)
  }

  lemma SidesPush(inputs: seq<seq<Item>>, pos: seq<nat>, c: seq<set<nat>>, rest: seq<seq<Item>>, out: set<nat>,
                  idx: nat,
                  pos': seq<nat>, c': seq<set<nat>>)
    requires Sides(inputs, pos, c, rest, out) && idx < |inputs| && pos[idx] <= |inputs[idx]|
    requires if pos[idx] == |inputs[idx]| then pos' == pos && c' == c
             else pos' == pos[idx := pos[idx] + 1] && c' == c[idx := inputs[idx][pos[idx]].bits]
    ensures Sides(inputs, pos', c', rest[idx := inputs[idx][pos[idx]..]], out - {idx})
  {
    FetchedNext(inputs[idx], pos[idx]);
    hide Fetched;
  }

  ghost function Upto(n: nat): (s: set<nat>)
    ensures forall k: nat :: k in s <==> k < n
  {
    if n == 0 then {} else Upto(n - 1) + {n - 1}
  }

  class Mergerator {
    const inputs: seq<seq<Item>>
    const heap: array<Node>
    var n: nat
    var pos: seq<nat>
    var c: seq<set<nat>>
    var key: nat
    var container: set<nat>
    ghost var rest: seq<seq<Item>>

    ghost predicate Shaped()
      reads this`n, this`pos, this`c, this`rest
    {
      |inputs| == heap.Length == |pos| == |c| == |rest| && n <= heap.Length
    }

    /** All is well, but for iterators whose next node is not in the heap. */
    ghost predicate But(out: set<nat>)
      reads this`n, this`pos, this`c, this`rest, heap
    {
      && Shaped() && Sides(inputs, pos, c, rest, out)
      && IsHeap(heap[..], KeyOf, n) && Holds(multiset(heap[..n]), rest, out)
    }

    ghost predicate Valid()
      reads this, heap
    {
      But({}) && AllAscending(rest)
    }

    /** Puts an iterator's next node, if there is one, back onto the heap. */
    method Pusherate(idx: nat, ghost out: set<nat>)
      requires But(out) && idx in out && idx < |inputs| && pos[idx] <= |inputs[idx]| && n < heap.Length
      modifies this`n, this`pos, this`c, this`rest, heap
      ensures Shaped() && But(out - {idx}) && n <= old(n) + 1
      ensures rest == old(rest)[idx := inputs[idx][old(pos[idx])..]]
      ensures forall i :: 0 <= i < |pos| && i != idx ==> pos[i] == old(pos[i]) && c[i] == old(c[i])
      ensures forall i :: old(n) < i < heap.Length ==> heap[i] == old(heap[i])
    {
      hide Holds, IsHeap, Sides;
      ghost var pos0, c0, rest0 := pos, c, rest;
      rest := rest[idx := inputs[idx][pos[idx]..]];
      PushHolds(multiset(heap[..n]), rest0, rest, out, idx);
      if pos[idx] == |inputs[idx]| {
        SidesPush(inputs, pos0, c0, rest0, out, idx, pos, c);
        return;
      }
      var item := inputs[idx][pos[idx]];
      pos := pos[idx := pos[idx] + 1];
      c := c[idx := item.bits];
      SidesPush(inputs, pos0, c0, rest0, out, idx, pos, c);
      Push(heap, n, Node(item.key, idx));
      n := n + 1;
    }

    constructor (inputs: seq<seq<Item>>)
      requires AllAscending(inputs)
      ensures Valid() && fresh(heap) && this.inputs == inputs && rest == inputs
    {
      this.inputs := inputs;
      heap := new Node[|inputs|](_ => Node(0, 0));
      n := 0;
      pos := seq(|inputs|, _ => 0);
      c := seq(|inputs|, _ => {});
      rest := inputs;
      new;
      ghost var out := Upto(|inputs|);
      var i := 0;
      while i < |inputs|
        invariant 0 <= i <= |inputs| && n <= i && But(out) && rest == inputs
        invariant forall k: nat :: k in out <==> i <= k < |inputs|
        invariant forall k :: i <= k < |inputs| ==> pos[k] == 0
      {
        Pusherate(i, out);
        out := out - {i};
        i := i + 1;
      }
      assert out == {};
    }

    /** Yields the least key left, with the union of all its containers; false
        when nothing is left.  A popped node is read before a pushed one can
        take its place in the array. */
    method Next() returns (more: bool)
      requires Valid()
      modifies this, heap
      ensures Valid() && (more <==> exists i :: 0 <= i < |old(rest)| && old(rest)[i] != [])
      ensures !more ==> rest == old(rest)
      ensures more ==> Least(old(rest), key) && HeadBits(old(rest), key, container) && Advanced(old(rest), rest, key)
    {
      hide Mergerator.But, Indices, Least, HeadBits, Advanced, Midway, PoppedAll, AllAscending, HeadIs;
      var m, least;
      ghost var popped;
      m, least, popped := PopLeast();
      if n == m {
        return false;
      }
      var bits := Collect(m, popped, rest, least);
      key, container := least, bits;
      MidwayEnd(inputs, old(rest), rest, pos, c, popped, least, bits);
      LeastIsLeft(old(rest), least);
      more := true;
    }

    method PopLeast() returns (m: nat, least: nat, ghost popped: seq<Node>)
      requires Valid()
      modifies this`n, heap
      ensures Shaped() && n <= m <= heap.Length && popped == heap[n..m]
      ensures n == m ==> Valid() && forall i :: 0 <= i < |rest| ==> rest[i] == []
      ensures n < m ==> But(Indices(popped)) && PoppedAll(popped, rest, least) && Least(rest, least)
      ensures n < m ==> Midway(inputs, rest, rest, pos, c, popped, 0, {})
    {
      hide Holds, Least, Midway, PoppedAll, AllAscending, Sides, Indices, IsHeap;
      m := n;
      n := Pop(heap, m);
      popped := heap[n..m];
      least := 0;
      if n < m {
        least := heap[n].key;
      }
      PopSplitsAt(heap[..], n, m, rest, least);
      assert heap[..][n..m] == popped && heap[..][..n] == heap[..n] && heap[..][..m] == heap[..m];
      MidwayStart(inputs, rest, pos, c, popped, Indices(popped));
    }

    /** Reads the popped nodes, uniting containers and refilling the heap. */
    method Collect(m: nat, ghost popped: seq<Node>, ghost rest0: seq<seq<Item>>,
                   ghost least: nat) returns (bits: set<nat>)
      requires Shaped() && n < m <= heap.Length && popped == heap[n..m] && But(Indices(popped)) && PoppedAll(popped, rest0, least)
      requires Midway(inputs, rest0, rest, pos, c, popped, 0, {})
      modifies this`n, this`pos, this`c, this`rest, heap
      ensures Shaped() && But({}) && Midway(inputs, rest0, rest, pos, c, popped, |popped|, bits)
    {
      hide Midway, PoppedAll, Indices, Mergerator.But;
      var first, j := n, n;
      var container: set<nat>, started := {}, false;
      assert popped[0..] == popped;
      while j < m
        invariant Shaped() && first <= j <= m && n <= j && |popped| == m - first
        invariant forall k :: j <= k < m ==> heap[k] == popped[k - first]
        invariant But(Indices(popped[j - first..])) && Midway(inputs, rest0, rest, pos, c, popped, j - first, container)
        invariant !started ==> container == {}
      {
        var node := heap[j];
        MidwayAt(inputs, rest0, rest, pos, c, popped, j - first, container, least);
        ghost var before := container;
        if started {
          container := container + c[node.idx];
        } else {
          container, started := c[node.idx], true;
        }
        assert container == before + c[node.idx];
        ghost var pos0, c0, restBefore := pos, c, rest;
        OneLess(popped, j - first, rest0, least);
        Pusherate(node.idx, Indices(popped[j - first..]));
        MidwayStep(inputs, rest0, restBefore, rest, pos0, pos, c0, c, popped, j - first, least, before);
        j := j + 1;
      }
      bits := container;
      assert popped[m - first..] == [];
      NoIndices();
    }
  }

  lemma NoIndices()
    ensures Indices([]) == {}
  {
  }

  lemma LeastIsLeft(rest: seq<seq<Item>>, key: nat)
    requires Least(rest, key)
    ensures exists i :: 0 <= i < |rest| && rest[i] != []
  {
  }

  /** The next popped node leaves the others. */
  lemma OneLess(popped: seq<Node>, j: nat, rest: seq<seq<Item>>, key: nat)
    requires j < |popped| && PoppedAll(popped, rest, key)
    ensures popped[j].idx in Indices(popped[j..])
    ensures Indices(popped[j..]) - {popped[j].idx} == Indices(popped[j + 1..])
  {
    assert popped[j..] == [popped[j]] + popped[j + 1..];
    forall nd | nd in popped[j + 1..] ensures nd.idx != popped[j].idx {
      var k :| 0 <= k < |popped[j + 1..]| && popped[j + 1..][k] == nd;
      assert nd == popped[j + 1 + k];
    }
  }

  lemma FetchedNext(input: seq<Item>, pos: nat)
    requires pos <= |input|
    ensures Fetched(input, if pos < |input| then pos + 1 else pos, input[pos..])
  {
  }

  lemma NothingHeld(nodes: multiset<Node>, rest: seq<seq<Item>>)
    requires nodes == multiset{} && Holds(nodes, rest, {})
    ensures forall i :: 0 <= i < |rest| ==> rest[i] == []
  {
    forall i | 0 <= i < |rest| ensures rest[i] == [] {
      if rest[i] != [] {
        assert Belongs(Node(rest[i][0].key, i), rest, {});
      }
    }
  }

  /** Iterator i is one of the first j popped. */
  ghost predicate Moved(popped: seq<Node>, j: nat, i: nat)
    requires j <= |popped|
  {
    exists k :: 0 <= k < j && popped[k].idx == i
  }

  /** After the first j popped nodes: their iterators have moved on and their
      bits are collected; the others are as they were. */
  ghost predicate Midway(inputs: seq<seq<Item>>, rest0: seq<seq<Item>>, rest: seq<seq<Item>>, pos: seq<nat>,
                         c: seq<set<nat>>,
                         popped: seq<Node>, j: nat, bits: set<nat>) {
    && j <= |popped| && |inputs| == |rest0| == |rest| == |pos| == |c|
    && (forall i: nat :: i < |rest| ==> MidwayOne(inputs[i], rest0[i], rest[i], pos[i], c[i], Moved(popped, j, i)))
    && (forall v :: v in bits <==> exists k :: 0 <= k < j && BitOf(rest0, popped[k].idx, v))
  }

  ghost predicate MidwayOne(input: seq<Item>, rest0: seq<Item>, rest: seq<Item>, pos: nat, c: set<nat>, moved: bool) {
    if moved then rest0 != [] && rest == rest0[1..]
    else rest == rest0 && Side(input, pos, c, rest)
  }

  ghost predicate BitOf(rest: seq<seq<Item>>, i: nat, v: nat) {
    i < |rest| && rest[i] != [] && v in rest[i][0].bits
  }

  lemma MidwayStart(inputs: seq<seq<Item>>, rest: seq<seq<Item>>, pos: seq<nat>, c: seq<set<nat>>, popped: seq<Node>,
                    out: set<nat>)
    requires Sides(inputs, pos, c, rest, {})
    ensures Midway(inputs, rest, rest, pos, c, popped, 0, {}) && Sides(inputs, pos, c, rest, out)
  {
    hide Fetched;
  }

  lemma MidwayAt(inputs: seq<seq<Item>>, rest0: seq<seq<Item>>, rest: seq<seq<Item>>, pos: seq<nat>, c: seq<set<nat>>,
                 popped: seq<Node>, j: nat, bits: set<nat>, key: nat)
    requires Midway(inputs, rest0, rest, pos, c, popped, j, bits) && j < |popped| && PoppedAll(popped, rest0, key)
    ensures var idx := popped[j].idx;
            idx < |rest0| == |inputs| == |pos| == |c| && pos[idx] <= |inputs[idx]| && rest0[idx] != [] && c[idx] == rest0[idx][0].bits
  {
    var idx := popped[j].idx;
    assert HeadIs(rest0, idx, key) && !Moved(popped, j, idx);
    assert MidwayOne(inputs[idx], rest0[idx], rest[idx], pos[idx], c[idx], Moved(popped, j, idx));
  }

  lemma MidwayStep(inputs: seq<seq<Item>>, rest0: seq<seq<Item>>, rest: seq<seq<Item>>, rest': seq<seq<Item>>,
                   pos: seq<nat>, pos': seq<nat>,
                   c: seq<set<nat>>, c': seq<set<nat>>, popped: seq<Node>, j: nat, key: nat, bits: set<nat>)
    requires Midway(inputs, rest0, rest, pos, c, popped, j, bits) && j < |popped| && PoppedAll(popped, rest0, key)
    requires |pos'| == |c'| == |rest| && popped[j].idx < |rest| && pos[popped[j].idx] <= |inputs[popped[j].idx]|
    requires rest' == rest[popped[j].idx := inputs[popped[j].idx][pos[popped[j].idx]..]]
    requires forall i :: 0 <= i < |pos| && i != popped[j].idx ==> pos'[i] == pos[i] && c'[i] == c[i]
    ensures Midway(inputs, rest0, rest', pos', c', popped, j + 1, bits + c[popped[j].idx])
  {
    hide Fetched;
    var idx := popped[j].idx;
    MidwayAt(inputs, rest0, rest, pos, c, popped, j, bits, key);
    forall i: nat | i < |rest|
      ensures MidwayOne(inputs[i], rest0[i], rest'[i], pos'[i], c'[i], Moved(popped, j + 1, i))
    {
      assert MidwayOne(inputs[i], rest0[i], rest[i], pos[i], c[i], Moved(popped, j, i));
      assert Moved(popped, j + 1, i) <==> Moved(popped, j, i) || i == idx;
      if i == idx {
        assert !Moved(popped, j, idx);
        TailFetched(inputs[i], pos[i], rest[i]);
      }
    }
    forall v ensures v in bits + c[idx] <==> exists k :: 0 <= k < j + 1 && BitOf(rest0, popped[k].idx, v) {
      assert v in c[idx] <==> BitOf(rest0, popped[j].idx, v);
    }
  }

  lemma TailFetched(input: seq<Item>, pos: nat, rest: seq<Item>)
    requires Fetched(input, pos, rest) && rest != []
    ensures input[pos..] == rest[1..]
  {
  }

  lemma MidwayEnd(inputs: seq<seq<Item>>, rest0: seq<seq<Item>>, rest: seq<seq<Item>>, pos: seq<nat>, c: seq<set<nat>>,
                  popped: seq<Node>, key: nat, bits: set<nat>)
    requires Midway(inputs, rest0, rest, pos, c, popped, |popped|, bits) && PoppedAll(popped, rest0, key) && AllAscending(rest0)
    ensures Advanced(rest0, rest, key) && HeadBits(rest0, key, bits) && AllAscending(rest)
  {
    hide Fetched;
    forall i: nat ensures HeadIs(rest0, i, key) <==> Moved(popped, |popped|, i) {
      if HeadIs(rest0, i, key) {
        var k :| 0 <= k < |popped| && popped[k] == Node(key, i);
      }
    }
    forall i: nat | i < |rest0| ensures rest[i] == if HeadIs(rest0, i, key) then rest0[i][1..] else rest0[i] {
      assert MidwayOne(inputs[i], rest0[i], rest[i], pos[i], c[i], Moved(popped, |popped|, i));
    }
    forall v ensures v in bits <==> exists i: nat :: HeadIs(rest0, i, key) && v in rest0[i][0].bits {
      if k :| 0 <= k < |popped| && BitOf(rest0, popped[k].idx, v) {
        assert HeadIs(rest0, popped[k].idx, key);
      }
      if i: nat :| HeadIs(rest0, i, key) && v in rest0[i][0].bits {
        var k :| 0 <= k < |popped| && popped[k].idx == i;
        assert BitOf(rest0, popped[k].idx, v);
      }
    }
  }

  // ----- The whole merge -----

  ghost function Left(rest: seq<seq<Item>>): nat {
    if rest == [] then 0 else |rest[0]| + Left(rest[1..])
  }

  lemma {:induction false} LeftLess(rest: seq<seq<Item>>, after: seq<seq<Item>>)
    requires |after| == |rest| && forall i :: 0 <= i < |rest| ==> |after[i]| <= |rest[i]|
    ensures Left(after) <= Left(rest)
    ensures (exists i :: 0 <= i < |rest| && |after[i]| < |rest[i]|) ==> Left(after) < Left(rest)
  {
    if rest != [] {
      LeftLess(rest[1..], after[1..]);
      if i :| 0 < i < |rest| && |after[i]| < |rest[i]| {
        assert |after[1..][i - 1]| < |rest[1..][i - 1]|;
      }
    }
  }

  lemma AdvancedLess(rest: seq<seq<Item>>, after: seq<seq<Item>>, key: nat)
    requires Least(rest, key) && Advanced(rest, after, key)
    ensures Left(after) < Left(rest)
  {
    var i: nat :| HeadIs(rest, i, key);
    assert |after[i]| < |rest[i]|;
    LeftLess(rest, after);
  }

  /** What has been yielded, and what is left, make up the inputs. */
  ghost predicate Yielded(inputs: seq<seq<Item>>, out: seq<Item>, rest: seq<seq<Item>>) {
    && Ascending(out)
    && (forall k: nat :: Has(inputs, k) <==> HasKey(out, k) || Has(rest, k))
    && (forall k: nat, v: nat :: In(inputs, k, v) <==> HasBit(out, k, v) || In(rest, k, v))
    && (forall k: nat, j :: Has(rest, k) && 0 <= j < |out| ==> out[j].key < k)
  }

  lemma YieldStart(inputs: seq<seq<Item>>)
    ensures Yielded(inputs, [], inputs)
  {
    hide Has, In;
  }

  lemma HasMore(out: seq<Item>, item: Item, k: nat, v: nat)
    ensures HasKey(out + [item], k) <==> HasKey(out, k) || k == item.key
    ensures HasBit(out + [item], k, v) <==> HasBit(out, k, v) || (k == item.key && v in item.bits)
  {
    var all := out + [item];
    assert all[|out|] == item;
    assert forall j :: 0 <= j < |out| ==> all[j] == out[j];
  }

  lemma YieldMore(inputs: seq<seq<Item>>, out: seq<Item>, rest: seq<seq<Item>>, after: seq<seq<Item>>, key: nat,
                  bits: set<nat>)
    requires Yielded(inputs, out, rest) && AllAscending(rest)
    requires Least(rest, key) && Advanced(rest, after, key) && HeadBits(rest, key, bits)
    ensures Yielded(inputs, out + [Item(key, bits)], after)
  {
    hide Has, In, HasKey, HasBit, Least, Advanced, HeadBits, AllAscending;
    StepYields(rest, after, key, bits);
    var item := Item(key, bits);
    forall k: nat ensures Has(inputs, k) <==> HasKey(out + [item], k) || Has(after, k) {
      HasMore(out, item, k, 0);
    }
    forall k: nat, v: nat ensures In(inputs, k, v) <==> HasBit(out + [item], k, v) || In(after, k, v) {
      HasMore(out, item, k, v);
    }
  }

  /** The merge yields every key of the inputs once, in strictly ascending
      order, each with the union of all containers that have it. */
  method MergeAll(inputs: seq<seq<Item>>) returns (out: seq<Item>)
    requires AllAscending(inputs)
    ensures Ascending(out)
    ensures forall k: nat :: HasKey(out, k) <==> Has(inputs, k)
    ensures forall k: nat, v: nat :: HasBit(out, k, v) <==> In(inputs, k, v)
  {
    hide HasKey, HasBit, Least, Advanced, HeadBits, AllAscending, Mergerator.But;
    var m := new Mergerator(inputs);
    out := [];
    YieldStart(inputs);
    var more := m.Next();
    ghost var before := inputs;
    while more
      invariant m.Valid() && fresh(m) && fresh(m.heap) && AllAscending(before) && Yielded(inputs, out, before)
      invariant more ==> Least(before, m.key) && HeadBits(before, m.key, m.container) && Advanced(before, m.rest, m.key)
      invariant !more ==> forall i :: 0 <= i < |before| ==> before[i] == []
      decreases Left(before), more
    {
      YieldMore(inputs, out, before, m.rest, m.key, m.container);
      AdvancedLess(before, m.rest, m.key);
      out := out + [Item(m.key, m.container)];
      before := m.rest;
      more := m.Next();
    }
    NothingLeft(before);
  }

  lemma NothingLeft(rest: seq<seq<Item>>)
    requires forall i :: 0 <= i < |rest| ==> rest[i] == []
    ensures forall k: nat :: !Has(rest, k)
    ensures forall k: nat, v: nat :: !In(rest, k, v)
  {
  }
}
