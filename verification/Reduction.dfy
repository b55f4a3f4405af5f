// Reducing per-shard results with an associative, commutative operation, in
// whatever order and grouping the answers arrive.
module Reduction {
  import opened Options

  type Shard = nat

  ghost predicate Associative<V(!new)>(f: (V, V) -> V) {
    forall x, y, z :: f(f(x, y), z) == f(x, f(y, z))
  }

  ghost predicate Commutative<V(!new)>(f: (V, V) -> V) {
    forall x, y :: f(x, y) == f(y, x)
  }

  /** The source's reduce step: nothing has been reduced before the first. */
  function Combine<V>(f: (V, V) -> V, acc: Option<V>, v: V): Option<V> {
    if acc.None? then Some(v) else Some(f(acc.value, v))
  }

  /** The reduction of the shards' values from left to right. */
  function Reduce<V>(f: (V, V) -> V, val: Shard -> V, s: seq<Shard>): Option<V> {
    if s == [] then None else Combine(f, Reduce(f, val, s[..|s| - 1]), val(s[|s| - 1]))
  }

  function Merge<V>(f: (V, V) -> V, a: Option<V>, b: Option<V>): Option<V> {
    if b.None? then a else Combine(f, a, b.value)
  }

  /** Reducing two lists one after the other is reducing their reductions. */
  lemma {:induction false} ReduceConcat<V(!new)>(f: (V, V) -> V, val: Shard -> V, a: seq<Shard>, b: seq<Shard>)
    requires Associative(f)
    ensures Reduce(f, val, a + b) == Merge(f, Reduce(f, val, a), Reduce(f, val, b))
  {
    if b == [] {
      assert a + b == a;
    } else {
      var b' := b[..|b| - 1];
      assert (a + b)[..|a + b| - 1] == a + b';
      ReduceConcat(f, val, a, b');
    }
  }

  /** The reduction depends on the shards only, not on their order. */
  lemma {:induction false} ReducePermuted<V(!new)>(f: (V, V) -> V, val: Shard -> V, a: seq<Shard>, b: seq<Shard>)
    requires Associative(f) && Commutative(f)
    requires multiset(a) == multiset(b)
    ensures Reduce(f, val, a) == Reduce(f, val, b)
  {
    hide Associative, Commutative;
    if a == [] {
      assert |multiset(b)| == 0;
    } else {
      var x := a[|a| - 1];
      var a' := a[..|a| - 1];
      assert a == a' + [x];
      assert x in multiset(b);
      var j :| 0 <= j < |b| && b[j] == x;
      var p, q := b[..j], b[j + 1..];
      assert b == p + ([x] + q);
      assert multiset(p + q) == multiset(b) - multiset{x};
      ReducePermuted(f, val, a', p + q);
      ReduceConcat(f, val, p, q);
      ReduceConcat(f, val, p, [x] + q);
      ReduceConcat(f, val, [x], q);
      ReduceOne(f, val, x);
      MoveLast(f, Reduce(f, val, p), Reduce(f, val, q), val(x));
    }
  }

  lemma ReduceOne<V>(f: (V, V) -> V, val: Shard -> V, x: Shard)
    ensures Reduce(f, val, [x]) == Some(val(x))
  {
    assert [x][..0] == [];
  }

  lemma MoveLast<V(!new)>(f: (V, V) -> V, p: Option<V>, q: Option<V>, x: V)
    requires Associative(f) && Commutative(f)
    ensures Combine(f, Merge(f, p, q), x) == Merge(f, p, Merge(f, Some(x), q))
  {
    if p.Some? && q.Some? {
      assert f(f(p.value, q.value), x) == f(p.value, f(q.value, x));
      assert f(q.value, x) == f(x, q.value);
    }
  }

  /** Reducing one more shard: its value comes second. */
  lemma ReduceMore<V>(f: (V, V) -> V, val: Shard -> V, s: seq<Shard>, x: Shard)
    ensures Reduce(f, val, []) == None && Reduce(f, val, s + [x]).Some?
    ensures s == [] ==> Reduce(f, val, s + [x]) == Some(val(x))
    ensures s != [] ==> Reduce(f, val, s).Some? && Reduce(f, val, s + [x]).value == f(Reduce(f, val, s).value, val(x))
  {
    assert (s + [x])[..|s|] == s;
  }
}
