// The local mapper (executor.go): jobs are handed to a worker pool, answers
// come back in any order, and the results are reduced as they arrive.
module MapperLocal {
  import opened Options
  import opened Reduction

  /** What the surroundings decide: whether the executor had shut down before the
      call, how many jobs were handed over before the context ended or the
      executor shut down, in which order the answers came, which jobs failed, and
      from which answer on the context had ended. */
  datatype Env = Env(down: bool, sent: nat, order: seq<nat>, fails: nat -> bool, doneFrom: nat)

  function Indices(n: nat): (s: seq<nat>)
    ensures |s| == n && forall i :: 0 <= i < n ==> s[i] == i
  {
    if n == 0 then [] else Indices(n - 1) + [n - 1]
  }

  ghost predicate Possible(env: Env, shards: seq<Shard>) {
    env.sent <= |shards| && multiset(env.order) == multiset(Indices(env.sent))
  }

  predicate InRange(order: seq<nat>, n: nat) {
    forall i :: 0 <= i < |order| ==> order[i] < n
  }

  /** The shards at the given indices. */
  function At(shards: seq<Shard>, order: seq<nat>): (s: seq<Shard>)
    requires InRange(order, |shards|)
    ensures |s| == |order| && forall i :: 0 <= i < |s| ==> s[i] == shards[order[i]]
  {
    seq(|order|, (i: int) requires 0 <= i < |order| => shards[order[i]])
  }

  lemma OrderInRange(env: Env, shards: seq<Shard>)
    requires Possible(env, shards)
    ensures |env.order| == env.sent
    ensures InRange(env.order, env.sent) && InRange(env.order, |shards|)
  {
    assert |multiset(env.order)| == |multiset(Indices(env.sent))|;
    forall i | 0 <= i < |env.order|
      ensures env.order[i] < env.sent
    {
      assert env.order[i] in multiset(env.order);
      assert env.order[i] in multiset(Indices(env.sent));
    }
  }

  function Min(a: nat, b: nat): nat {
    if a < b then a else b
  }

  /** The shards whose results were reduced, when no job failed. */
  ghost function Folded(env: Env, shards: seq<Shard>): seq<Shard>
    requires Possible(env, shards)
  {
    OrderInRange(env, shards);
    At(shards, env.order)[..Min(env.doneFrom, env.sent)]
  }

  /** Reduces the answers.  It reports an error exactly when the executor was down
      already or a job that was handed over failed; otherwise the result is the
      reduction of the shards answered before the context ended. */
  method Run<V>(f: (V, V) -> V, val: Shard -> V, shards: seq<Shard>, env: Env) returns (result: Option<V>, failed: bool)
    requires Possible(env, shards)
    ensures failed <==> env.down || exists i :: 0 <= i < env.sent && env.fails(i)
    ensures !failed ==> result == Reduce(f, val, Folded(env, shards))
  {
    hide At, Indices;
    if env.down {
      return None, true;
    }
    OrderInRange(env, shards);
    ghost var answered := At(shards, env.order);
    var expected := env.sent;
    var k := 0;
    result, failed := None, false;
    while expected > 0
      invariant k + expected == env.sent
      invariant 0 <= k <= env.sent == |env.order|
      invariant failed <==> exists i :: 0 <= i < k && env.fails(env.order[i])
      invariant !failed ==> result == Reduce(f, val, answered[..Min(env.doneFrom, k)])
    {
      var job := env.order[k];
      expected := expected - 1;
      if env.fails(job) {
        failed := true;
      } else if k < env.doneFrom {
        assert answered[..k + 1][..k] == answered[..k];
        result := Combine(f, result, val(shards[job]));
      }
      k := k + 1;
    }
    FailsSomewhere(env, shards);
  }

  lemma FailsSomewhere(env: Env, shards: seq<Shard>)
    requires Possible(env, shards)
    ensures (exists i :: 0 <= i < |env.order| && env.fails(env.order[i])) <==> exists i :: 0 <= i < env.sent && env.fails(i)
  {
    OrderInRange(env, shards);
    forall i | 0 <= i < env.sent && env.fails(i)
      ensures exists j :: 0 <= j < |env.order| && env.fails(env.order[j])
    {
      assert Indices(env.sent)[i] == i;
      assert i in multiset(Indices(env.sent));
      assert i in multiset(env.order);
      var j :| 0 <= j < |env.order| && env.order[j] == i;
    }
  }

  lemma {:induction false} AtPermuted(shards: seq<Shard>, a: seq<nat>, b: seq<nat>)
    requires InRange(a, |shards|) && InRange(b, |shards|)
    requires multiset(a) == multiset(b)
    ensures multiset(At(shards, a)) == multiset(At(shards, b))
  {
    hide At;
    if a == [] {
      assert |multiset(b)| == 0;
    } else {
      var m := |a| - 1;
      assert a[m] in multiset(b);
      var j :| 0 <= j < |b| && b[j] == a[m];
      Without(a, m, |shards|);
      Without(b, j, |shards|);
      AtPermuted(shards, a[..m] + a[m + 1..], b[..j] + b[j + 1..]);
      AtWithout(shards, a, m);
      AtWithout(shards, b, j);
    }
  }

  lemma Without(a: seq<nat>, j: nat, n: nat)
    requires j < |a| && InRange(a, n)
    ensures InRange(a[..j] + a[j + 1..], n)
    ensures multiset(a[..j] + a[j + 1..]) == multiset(a) - multiset{a[j]}
  {
    var rest := a[..j] + a[j + 1..];
    forall i | 0 <= i < |rest|
      ensures rest[i] < n
    {
      assert rest[i] == a[if i < j then i else i + 1];
    }
    assert a == a[..j] + [a[j]] + a[j + 1..];
    assert multiset(a) == multiset(a[..j]) + multiset{a[j]} + multiset(a[j + 1..]);
  }

  lemma AtWithout(shards: seq<Shard>, b: seq<nat>, j: nat)
    requires InRange(b, |shards|) && j < |b|
    ensures multiset(At(shards, b)) == multiset(At(shards, b[..j] + b[j + 1..])) + multiset{shards[b[j]]}
  {
    hide At;
    var s := At(shards, b);
    assert s == s[..j] + [s[j]] + s[j + 1..];
    assert At(shards, b[..j] + b[j + 1..]) == s[..j] + s[j + 1..];
  }

  lemma {:induction false} AtIndices(shards: seq<Shard>, n: nat)
    requires n <= |shards|
    ensures At(shards, Indices(n)) == shards[..n]
  {
    if n > 0 {
      AtIndices(shards, n - 1);
      assert Indices(n)[..n - 1] == Indices(n - 1);
    }
  }

  /** Without an error, every shard was reduced exactly once if and only if all
      jobs were handed over and the context outlived the answers.  A shutdown
      in between yields a partial result and no error. */
  lemma CompleteIffUndisturbed(env: Env, shards: seq<Shard>)
    requires Possible(env, shards)
    ensures multiset(Folded(env, shards)) == multiset(shards) <==> env.sent == |shards| && env.doneFrom >= env.sent
  {
    OrderInRange(env, shards);
    if env.sent == |shards| && env.doneFrom >= env.sent {
      assert Folded(env, shards) == At(shards, env.order);
      AtPermuted(shards, env.order, Indices(env.sent));
      AtIndices(shards, env.sent);
      assert shards[..|shards|] == shards;
    } else {
      assert |Folded(env, shards)| < |shards|;
      assert |multiset(Folded(env, shards))| < |multiset(shards)|;
    }
  }

  /** An undisturbed local run returns the reduction of its shards, in whatever
      order the workers answer. */
  lemma UndisturbedReducesAll<V(!new)>(f: (V, V) -> V, val: Shard -> V, shards: seq<Shard>, env: Env)
    requires Associative(f) && Commutative(f)
    requires Possible(env, shards) && env.sent == |shards| && env.doneFrom >= env.sent
    ensures Reduce(f, val, Folded(env, shards)) == Reduce(f, val, shards)
  {
    CompleteIffUndisturbed(env, shards);
    ReducePermuted(f, val, Folded(env, shards), shards);
  }

  /** A shutdown after the first of two jobs: no error, yet half the answer. */
  lemma ShutdownLosesShards()
    ensures var env := Env(false, 1, [0], (i: nat) => false, 2);
            Possible(env, [3, 4]) && Folded(env, [3, 4]) == [3]
  {
    assert Indices(1) == [0];
    var env := Env(false, 1, [0], (i: nat) => false, 2);
    assert At([3, 4], [0])[..1] == [3];
  }
}
