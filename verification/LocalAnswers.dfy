// Where partial answers come from (executor.go): a node answers with what its
// local mapper got to, and the coordinator cannot tell.
module LocalAnswers {
  import L = MapperLocal
  import M = MapReduce
  import opened Options
  import opened Reduction

  /** All jobs were handed over, and the context outlived the answers. */
  ghost predicate Undisturbed(env: L.Env, shards: seq<Shard>) {
    env.sent == |shards| && env.doneFrom >= env.sent
  }

  /** The local mapper reduces no shard that it was not given, and none twice. */
  lemma FoldedWithin(env: L.Env, shards: seq<Shard>)
    requires L.Possible(env, shards)
    ensures multiset(L.Folded(env, shards)) <= multiset(shards)
  {
    L.OrderInRange(env, shards);
    var answered, m := L.At(shards, env.order), L.Min(env.doneFrom, env.sent);
    assert answered == answered[..m] + answered[m..];
    L.AtPermuted(shards, env.order, L.Indices(env.sent));
    L.AtIndices(shards, env.sent);
    assert shards == shards[..env.sent] + shards[env.sent..];
  }

  /** What a node's local mapper returns without an error is a possible answer;
      it is partial exactly when the mapper was disturbed. */
  lemma LocalAnswer<V(!new)>(f: (V, V) -> V, val: Shard -> V, s: M.State<V>, i: nat, env: L.Env)
    requires s.status.Running? && s.expected > 0 && i < |s.tasks| && L.Possible(env, s.tasks[i].shards)
    ensures var folded := L.Folded(env, s.tasks[i].shards);
            var e := M.Answer(i, folded, Reduce(f, val, folded));
            M.Enabled(f, val, s, e) && (M.Partial(s, e) <==> !Undisturbed(env, s.tasks[i].shards))
  {
    hide Reduce;
    FoldedWithin(env, s.tasks[i].shards);
    L.CompleteIffUndisturbed(env, s.tasks[i].shards);
  }

  /** The answer of step k is what a local mapper returns in these surroundings. */
  ghost predicate Local<V(!new)>(s: M.State<V>, e: M.Event<V>, env: L.Env) {
    e.Answer? ==> e.i < |s.tasks| && L.Possible(env, s.tasks[e.i].shards) && e.covered == L.Folded(env, s.tasks[e.i].shards)
  }

  ghost predicate Disturbed<V(!new)>(s: M.State<V>, e: M.Event<V>, env: L.Env) {
    e.Answer? && e.i < |s.tasks| && !Undisturbed(env, s.tasks[e.i].shards)
  }

  /** A query that returns has reduced every requested shard exactly once if and
      only if no local mapper that answered was disturbed. */
  lemma CompleteIffNoneDisturbed<V(!new)>(f: (V, V) -> V, val: Shard -> V, shards: seq<Shard>,
                                          states: seq<M.State<V>>, events: seq<M.Event<V>>,
                                          n: nat, envs: seq<L.Env>)
    requires M.Run(f, val, states, events) && n < |states| && M.Starts(states[0], shards) && states[n].status.Returned?
    requires |envs| == |events| && forall k :: 0 <= k < |events| ==> Local(states[k], events[k], envs[k])
    ensures multiset(states[n].folded) == multiset(shards) <==> forall k :: 0 <= k < n ==> !Disturbed(states[k], events[k], envs[k])
  {
    hide M.Run, M.Starts;
    M.CompleteIffNoPartialAnswer(f, val, shards, states, events, n);
    assert |states| == |events| + 1 by {
      Lengths(f, val, states, events);
    }
    forall k | 0 <= k < n ensures M.Partial(states[k], events[k]) <==> Disturbed(states[k], events[k], envs[k]) {
      assert Local(states[k], events[k], envs[k]);
      if events[k].Answer? {
        L.CompleteIffUndisturbed(envs[k], states[k].tasks[events[k].i].shards);
      }
    }
  }

  lemma Lengths<V(!new)>(f: (V, V) -> V, val: Shard -> V, states: seq<M.State<V>>, events: seq<M.Event<V>>)
    requires M.Run(f, val, states, events)
    ensures |states| == |events| + 1
  {
  }

  // ----- A partial answer that is returned -----

  function OneOwner(): M.Snapshot {
    s => [M.Replica(1, M.Started)]
  }

  lemma AllPicked(n: M.Node)
    ensures M.PickedFor([1], OneOwner(), [3, 4], n) == if n == 1 then [3, 4] else []
  {
    assert [3, 4][..1] == [3] && [3][..0] == [];
    assert M.PickedFor([1], OneOwner(), [3], n) == if n == 1 then [3] else [];
  }

  lemma OneTask<V(!new)>()
    ensures M.Starts(M.Start<V>([1], OneOwner(), [3, 4], [1], 2), [3, 4])
    ensures M.Start<V>([1], OneOwner(), [3, 4], [1], 2).tasks == [M.Task(1, [3, 4], false, {}, M.Nodes([1]))]
  {
    hide M.PickedFor, M.Starts, M.Nodes;
    forall n: M.Node ensures M.PickedFor([1], OneOwner(), [3, 4], n) == if n == 1 then [3, 4] else [] {
      AllPicked(n);
    }
    StartsIs(M.Start<V>([1], OneOwner(), [3, 4], [1], 2), [3, 4], [1], OneOwner(), [1], 2);
  }

  lemma StartsIs<V(!new)>(s: M.State<V>, shards: seq<Shard>, nodes: seq<M.Node>, snap: M.Snapshot, order: seq<M.Node>,
                          replicas: nat)
    requires M.StartsWith(s, shards, nodes, snap, order, replicas)
    ensures M.Starts(s, shards)
  {
  }

  /** One node, two shards; its executor shuts down after one job was handed
      over.  The query returns that shard's value and no error. */
  lemma DisturbedAnswerReturns<V(!new)>(f: (V, V) -> V, val: Shard -> V)
    returns (states: seq<M.State<V>>, events: seq<M.Event<V>>, env: L.Env)
    ensures M.Run(f, val, states, events) && M.Starts(states[0], [3, 4]) && |events| == 2
    ensures Local(states[0], events[0], env) && Disturbed(states[0], events[0], env)
    ensures states[2].status == M.Returned(Some(val(3))) && states[2].folded == [3]
  {
    hide M.Launch, M.Starts, M.PickedFor;
    env := L.Env(false, 1, [0], i => false, 1);
    OneTask<V>();
    var s0 := M.Start<V>([1], OneOwner(), [3, 4], [1], 2);
    assert L.Indices(1) == [0];
    assert L.Folded(env, [3, 4]) == [3];
    assert Reduce(f, val, [3]) == Some(val(3)) by {
      assert [3][..0] == [];
    }
    var e0: M.Event<V> := M.Answer(0, [3], Some(val(3)));
    LocalAnswer(f, val, s0, 0, env);
    var s1 := M.Next(f, val, s0, e0);
    states, events := [s0, s1, M.Next(f, val, s1, M.Finish)], [e0, M.Finish];
  }
}
