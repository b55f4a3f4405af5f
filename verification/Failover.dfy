// When a query survives nodes that refuse connections (executor.go).
module Failover {
  import opened MapReduce
  import opened Options
  import opened Reduction

  /** How a call starts, with its replica count. */
  ghost predicate BeginsWith<V(!new)>(s: State<V>, shards: seq<Shard>, replicas: nat) {
    exists nodes, snap, order :: StartsWith(s, shards, nodes, snap, order, replicas)
  }

  lemma BeginStarts<V(!new)>(s: State<V>, shards: seq<Shard>, replicas: nat)
    requires BeginsWith(s, shards, replicas)
    ensures Starts(s, shards) && !s.poisoned && s.status.Running?
    ensures forall i :: 0 <= i < |s.tasks| ==> (s.tasks[i].last <==> replicas == 1) && s.tasks[i].tried == {}
  {
    var nodes, snap, order :| StartsWith(s, shards, nodes, snap, order, replicas);
  }

  // ----- Retries are last attempts -----

  /** A request is a last attempt exactly when there is one replica, or when its
      shards were refused before. */
  ghost predicate LastIffRetried(tasks: seq<Task>, replicas: nat) {
    forall i :: 0 <= i < |tasks| ==> (tasks[i].last <==> replicas == 1 || tasks[i].tried != {})
  }

  lemma DropKeeps(tasks: seq<Task>, i: nat, replicas: nat)
    requires i < |tasks| && LastIffRetried(tasks, replicas)
    ensures LastIffRetried(Drop(tasks, i), replicas)
  {
    var rest := Drop(tasks, i);
    forall j | 0 <= j < |rest| ensures rest[j].last <==> replicas == 1 || rest[j].tried != {} {
      assert rest[j] == tasks[if j < i then j else j + 1];
    }
  }

  lemma StepLast<V(!new)>(f: (V, V) -> V, val: Shard -> V, s: State<V>, e: Event<V>, replicas: nat)
    requires Enabled(f, val, s, e) && LastIffRetried(s.tasks, replicas)
    ensures LastIffRetried(Next(f, val, s, e).tasks, replicas)
  {
    hide Reduce, Placeable, Enumerates, PickedFor;
    if e.Answer? || e.TooMuchMemory? || e.Refused? {
      DropKeeps(s.tasks, e.i, replicas);
    }
  }

  /** In every run. */
  lemma {:induction false} RunLast<V(!new)>(f: (V, V) -> V, val: Shard -> V, shards: seq<Shard>,
                                            states: seq<State<V>>, events: seq<Event<V>>, replicas: nat, n: nat)
    requires Run(f, val, states, events) && n < |states| && BeginsWith(states[0], shards, replicas)
    ensures LastIffRetried(states[n].tasks, replicas)
  {
    hide Next, Enabled, BeginsWith;
    if n == 0 {
      BeginStarts(states[0], shards, replicas);
    } else {
      RunLast(f, val, shards, states, events, replicas, n - 1);
      StepLast(f, val, states[n - 1], events[n - 1], replicas);
    }
  }

  // ----- When the call succeeds -----

  /** An error that the group keeps: a result too large, or the refusal of a
      request sent as a last attempt. */
  ghost predicate Fatal<V(!new)>(s: State<V>, e: Event<V>) {
    || (e.Refused? && e.i < |s.tasks| && s.tasks[e.i].last)
    || e.TooMuchMemory?
  }

  lemma {:induction false} PoisonedIffFatal<V(!new)>(f: (V, V) -> V, val: Shard -> V, shards: seq<Shard>,
                                                     states: seq<State<V>>, events: seq<Event<V>>, replicas: nat,
                                                     n: nat)
    requires Run(f, val, states, events) && n < |states| && states[n].status.Running? && BeginsWith(states[0], shards, replicas)
    ensures states[n].poisoned <==> exists i :: 0 <= i < n && Fatal(states[i], events[i])
  {
    hide BeginsWith, Next, Enabled, Fatal;
    if n == 0 {
      BeginStarts(states[0], shards, replicas);
    } else {
      StepPoisons(f, val, states[n - 1], events[n - 1]);
      PoisonedIffFatal(f, val, shards, states, events, replicas, n - 1);
    }
  }

  lemma StepPoisons<V(!new)>(f: (V, V) -> V, val: Shard -> V, s: State<V>, e: Event<V>)
    requires Enabled(f, val, s, e)
    ensures s.status.Running?
    ensures Next(f, val, s, e).status.Running? ==> (Next(f, val, s, e).poisoned <==> s.poisoned || Fatal(s, e))
  {
    hide Reduce, Launch, Placeable, Enumerates, Without, Merge;
  }

  /** The refusal of a request whose shards were never refused before, where
      there are replicas to turn to. */
  ghost predicate Survivable<V(!new)>(s: State<V>, e: Event<V>, replicas: nat) {
    e.Refused? && e.i < |s.tasks| && s.tasks[e.i].tried == {} && replicas != 1
  }

  /** Once nothing is expected any more, the call returns if and only if no
      result was too large and every refusal was the first of its shards, with
      replicas to turn to. */
  lemma ReturnsIffRefusalsSurvivable<V(!new)>(f: (V, V) -> V, val: Shard -> V, shards: seq<Shard>,
                                              states: seq<State<V>>, events: seq<Event<V>>, replicas: nat, n: nat)
    requires Run(f, val, states, events) && n < |events| && events[n].Finish? && BeginsWith(states[0], shards, replicas)
    ensures states[n + 1].status.Returned? <==>
            forall i :: 0 <= i < n ==> !events[i].TooMuchMemory? && (events[i].Refused? ==> Survivable(states[i], events[i], replicas))
  {
    PoisonedIffFatal(f, val, shards, states, events, replicas, n);
    forall i | 0 <= i < n
      ensures Fatal(states[i], events[i]) <==>
              events[i].TooMuchMemory? || (events[i].Refused? && !Survivable(states[i], events[i], replicas))
    {
      RunLast(f, val, shards, states, events, replicas, i);
      assert Enabled(f, val, states[i], events[i]);
    }
    assert states[n + 1] == Next(f, val, states[n], events[n]);
  }

  // ----- When a call ends without a result -----

  /** Some node refused step k's request. */
  ghost predicate RefusedBy<V(!new)>(s: State<V>, e: Event<V>, n: Node) {
    e.Refused? && e.i < |s.tasks| && s.tasks[e.i].node == n
  }

  /** The nodes left are those of the start that never refused. */
  lemma {:induction false} RunNodes<V(!new)>(f: (V, V) -> V, val: Shard -> V, states: seq<State<V>>,
                                             events: seq<Event<V>>, n: nat, node: Node)
    requires Run(f, val, states, events) && n < |states|
    ensures node in states[n].nodes <==>
            node in states[0].nodes && forall k :: 0 <= k < n ==> !RefusedBy(states[k], events[k], node)
  {
    if n > 0 {
      RunNodes(f, val, states, events, n - 1, node);
      assert Enabled(f, val, states[n - 1], events[n - 1]);
      StepNodes(f, val, states[n - 1], events[n - 1], node);
    }
  }

  lemma StepNodes<V(!new)>(f: (V, V) -> V, val: Shard -> V, s: State<V>, e: Event<V>, node: Node)
    requires Enabled(f, val, s, e)
    ensures node in Next(f, val, s, e).nodes <==> node in s.nodes && !RefusedBy(s, e, node)
  {
    hide Placeable, Enumerates, Launch, Reduce, Without;
    if e.Refused? {
      WithoutNodes(s.nodes, s.tasks[e.i].node);
      assert node in Nodes(Without(s.nodes, s.tasks[e.i].node)) <==> node in Nodes(s.nodes) - {s.tasks[e.i].node};
    }
  }

  /** A shard of a refused request has no owner left: each one is not among the
      nodes, or the refusing one, or unavailable. */
  ghost predicate NowhereToGo<V(!new)>(s: State<V>, e: Event<V>, sh: Shard) {
    && e.Refused? && e.i < |s.tasks| && sh in s.tasks[e.i].shards
    && forall j :: 0 <= j < |e.snap(sh)| ==>
         var owner := e.snap(sh)[j];
         owner.node !in s.nodes || owner.node == s.tasks[e.i].node || owner.state == Unavailable
  }

  /** A call that is still running fails at this step exactly when a healthy node
      reports an error, the context ends, a refused shard has no owner left, or
      it finishes after an error that was not survivable. */
  lemma FailsIff<V(!new)>(f: (V, V) -> V, val: Shard -> V, s: State<V>, e: Event<V>)
    requires Enabled(f, val, s, e)
    ensures Next(f, val, s, e).status.Failed? <==>
            || e.OtherError? || e.ContextDone?
            || (exists sh :: NowhereToGo(s, e, sh))
            || (e.Finish? && s.poisoned)
  {
    hide Enumerates, Launch, Reduce, Without;
    if e.Refused? {
      RefusalFails(s, e);
    }
  }

  lemma RefusalFails<V(!new)>(s: State<V>, e: Event<V>)
    requires e.Refused? && e.i < |s.tasks|
    ensures !Placeable(Without(s.nodes, s.tasks[e.i].node), e.snap, s.tasks[e.i].shards) <==> exists sh :: NowhereToGo(s, e, sh)
  {
    hide Without, Pick, AssignedTo;
    var t := s.tasks[e.i];
    var left := Without(s.nodes, t.node);
    forall sh | sh in t.shards
      ensures Pick(left, e.snap(sh)).None? <==> NowhereToGo(s, e, sh)
    {
      PickIs(left, e.snap(sh), 0);
      forall n ensures n in left <==> n in s.nodes && n != t.node {
        WithoutNodes(s.nodes, t.node);
        assert n in Nodes(left) <==> n in Nodes(s.nodes) - {t.node};
      }
    }
    if !Placeable(left, e.snap, t.shards) {
      var i :| 0 <= i < |t.shards| && Pick(left, e.snap(t.shards[i])).None?;
      assert NowhereToGo(s, e, t.shards[i]);
    }
    if sh :| NowhereToGo(s, e, sh) {
      var i :| 0 <= i < |t.shards| && t.shards[i] == sh;
    }
  }

  // ----- The same, in terms of shards -----

  ghost predicate Distinct(shards: seq<Shard>) {
    forall sh :: multiset(shards)[sh] <= 1
  }

  /** Step k is the refusal of a request for a shard. */
  ghost predicate RefusedAt<V(!new)>(states: seq<State<V>>, events: seq<Event<V>>, k: nat, sh: Shard) {
    && k < |events| && k < |states| && events[k].Refused? && events[k].i < |states[k].tasks|
    && sh in states[k].tasks[events[k].i].shards
  }

  ghost predicate RefusedBefore<V(!new)>(states: seq<State<V>>, events: seq<Event<V>>, n: nat, sh: Shard) {
    exists k: nat :: k < n && RefusedAt(states, events, k, sh)
  }

  lemma {:induction false} InOutstanding(tasks: seq<Task>, j: nat, sh: Shard)
    requires j < |tasks| && sh in tasks[j].shards
    ensures sh in Outstanding(tasks)
  {
    if j > 0 {
      InOutstanding(tasks[1..], j - 1, sh);
    }
  }

  /** Distinct shards are each in one open request at most. */
  lemma InOneRequest<V(!new)>(shards: seq<Shard>, s: State<V>, i: nat, j: nat, sh: Shard)
    requires Accounts(shards, s) && Distinct(shards) && i < |s.tasks| && j < |s.tasks| && i != j && sh in s.tasks[j].shards
    ensures sh !in s.tasks[i].shards
  {
    hide Outstanding;
    OutstandingDrop(s.tasks, i);
    var rest := Drop(s.tasks, i);
    assert rest[if j < i then j else j - 1] == s.tasks[j];
    InOutstanding(rest, if j < i then j else j - 1, sh);
    assert multiset(Outstanding(s.tasks))[sh] <= multiset(shards)[sh] <= 1;
    assert multiset(Outstanding(rest))[sh] >= 1;
  }

  lemma {:induction false} PickedAreShards(nodes: seq<Node>, snap: Snapshot, shards: seq<Shard>, n: Node, sh: Shard)
    requires sh in PickedFor(nodes, snap, shards, n)
    ensures sh in shards
  {
    var front := shards[..|shards| - 1];
    if sh in PickedFor(nodes, snap, front, n) {
      PickedAreShards(nodes, snap, front, n, sh);
    }
  }

  /** Where an open request comes from: it was open before, or it retries a
      shard that was just refused. */
  lemma Origin<V(!new)>(f: (V, V) -> V, val: Shard -> V, s: State<V>, e: Event<V>, j: nat,
                        sh: Shard) returns (was: Option<nat>)
    requires Enabled(f, val, s, e) && Next(f, val, s, e).status.Running?
    requires j < |Next(f, val, s, e).tasks| && sh in Next(f, val, s, e).tasks[j].shards
    ensures was.Some? ==> was.value < |s.tasks| && s.tasks[was.value] == Next(f, val, s, e).tasks[j]
    ensures was.Some? && e.Refused? ==> was.value != e.i
    ensures was.None? ==> e.Refused? && sh in s.tasks[e.i].shards && Next(f, val, s, e).tasks[j].tried != {}
  {
    hide Reduce, Placeable, Enumerates, PickedFor;
    var t := Next(f, val, s, e).tasks[j];
    if j < |s.tasks| - 1 {
      was := Some(if j < e.i then j else j + 1);
    } else {
      var left := Without(s.nodes, s.tasks[e.i].node);
      var more := Launch(left, e.snap, s.tasks[e.i].shards, e.order, true, s.tasks[e.i].tried + {s.tasks[e.i].node});
      assert t == more[j - (|s.tasks| - 1)];
      assert s.tasks[e.i].node in t.tried;
      PickedAreShards(left, e.snap, s.tasks[e.i].shards, t.node, sh);
      was := None;
    }
  }

  /** An open request's shards were refused before exactly when it is a retry. */
  lemma {:induction false} TriedIffRefused<V(!new)>(f: (V, V) -> V, val: Shard -> V, shards: seq<Shard>,
                                                    states: seq<State<V>>, events: seq<Event<V>>, replicas: nat,
                                                    n: nat, j: nat, sh: Shard)
    requires Run(f, val, states, events) && n < |states| && BeginsWith(states[0], shards, replicas) && Distinct(shards)
    requires states[n].status.Running? && j < |states[n].tasks| && sh in states[n].tasks[j].shards
    ensures states[n].tasks[j].tried != {} <==> RefusedBefore(states, events, n, sh)
  {
    hide BeginsWith, Accounts, Distinct, Next, Enabled;
    BeginStarts(states[0], shards, replicas);
    if n > 0 {
      var s, e := states[n - 1], events[n - 1];
      WasRunning(f, val, s, e);
      var was := Origin(f, val, s, e, j, sh);
      if was.Some? {
        TriedIffRefused(f, val, shards, states, events, replicas, n - 1, was.value, sh);
        if e.Refused? {
          RunAccounts(f, val, shards, states, events, n - 1);
          assert e.i < |s.tasks|;
          InOneRequest(shards, s, e.i, was.value, sh);
        }
        assert !RefusedAt(states, events, n - 1, sh);
      } else {
        assert RefusedAt(states, events, n - 1, sh);
      }
    }
  }

  lemma WasRunning<V(!new)>(f: (V, V) -> V, val: Shard -> V, s: State<V>, e: Event<V>)
    requires Enabled(f, val, s, e)
    ensures s.status.Running? && (e.Refused? ==> e.i < |s.tasks|)
  {
  }

  /** A refused request is a first attempt exactly when none of its shards was
      refused before. */
  lemma FirstIffNotRefused<V(!new)>(f: (V, V) -> V, val: Shard -> V, shards: seq<Shard>, states: seq<State<V>>,
                                    events: seq<Event<V>>, replicas: nat, k: nat)
    requires Run(f, val, states, events) && k < |events| && events[k].Refused? && BeginsWith(states[0], shards, replicas) && Distinct(shards)
    ensures Survivable(states[k], events[k], replicas) <==>
            replicas != 1 && forall sh :: RefusedAt(states, events, k, sh) ==> !RefusedBefore(states, events, k, sh)
  {
    hide BeginsWith, Accounts, Distinct, Next, Enabled, RefusedBefore;
    BeginStarts(states[0], shards, replicas);
    WasRunning(f, val, states[k], events[k]);
    RunAccounts(f, val, shards, states, events, k);
    var i := events[k].i;
    HasShards(shards, states[k], i);
    forall sh | sh in states[k].tasks[i].shards
      ensures RefusedAt(states, events, k, sh) && (states[k].tasks[i].tried != {} <==> RefusedBefore(states, events, k, sh))
    {
      TriedIffRefused(f, val, shards, states, events, replicas, k, i, sh);
    }
    var sh := states[k].tasks[i].shards[0];
    assert sh in states[k].tasks[i].shards;
  }

  lemma HasShards<V(!new)>(shards: seq<Shard>, s: State<V>, i: nat)
    requires Accounts(shards, s) && i < |s.tasks|
    ensures s.tasks[i].shards != []
  {
  }

  /** Once nothing is expected any more, a call for distinct shards returns if
      and only if no result was too large, nothing was refused when there is one
      replica only, and no shard was refused twice. */
  lemma ReturnsIffNoShardRefusedTwice<V(!new)>(f: (V, V) -> V, val: Shard -> V, shards: seq<Shard>,
                                               states: seq<State<V>>, events: seq<Event<V>>, replicas: nat, n: nat)
    requires Run(f, val, states, events) && n < |events| && events[n].Finish? && BeginsWith(states[0], shards, replicas) && Distinct(shards)
    ensures states[n + 1].status.Returned? <==>
            && (forall i :: 0 <= i < n ==> !events[i].TooMuchMemory?)
            && (replicas == 1 ==> forall i :: 0 <= i < n ==> !events[i].Refused?)
            && (forall j: nat, k: nat, sh :: j < k < n && RefusedAt(states, events, j, sh) ==> !RefusedAt(states, events, k, sh))
  {
    hide BeginsWith, Distinct, Survivable;
    ReturnsIffRefusalsSurvivable(f, val, shards, states, events, replicas, n);
    hide Run;
    forall k: nat | k < n && events[k].Refused?
      ensures Survivable(states[k], events[k], replicas) <==>
              replicas != 1 && forall sh :: RefusedAt(states, events, k, sh) ==> !RefusedBefore(states, events, k, sh)
    {
      FirstIffNotRefused(f, val, shards, states, events, replicas, k);
    }
    RefusedTwice(states, events, n);
  }

  lemma RefusedTwice<V(!new)>(states: seq<State<V>>, events: seq<Event<V>>, n: nat)
    ensures (forall j: nat, k: nat, sh :: j < k < n && RefusedAt(states, events, j, sh) ==> !RefusedAt(states, events, k, sh))
       <==> forall k: nat, sh :: k < n && RefusedAt(states, events, k, sh) ==> !RefusedBefore(states, events, k, sh)
  {
    hide RefusedAt;
  }

  // ----- Two refusals, one answer, no result -----

  /** Three nodes own the shard, and are all up. */
  function Owners(): Snapshot {
    (s: Shard) => [Replica(1, Started), Replica(2, Started), Replica(3, Started)]
  }

  /** The first of the owners that is left gets the shard. */
  lemma OneNode(nodes: seq<Node>, n: Node, rest: seq<Node>, last: bool, tried: set<Node>)
    requires nodes == [n] + rest && 1 <= n <= 3 && forall m :: m in rest ==> m > n
    ensures Placeable(nodes, Owners(), [7]) && Enumerates(nodes, Owners(), [7], [n])
    ensures Launch(nodes, Owners(), [7], [n], last, tried) == [Task(n, [7], last, tried, Nodes(nodes))]
  {
    var owners := Owners()(7);
    assert owners[1..] == [Replica(2, Started), Replica(3, Started)] && owners[1..][1..] == [Replica(3, Started)];
    assert Pick(nodes, owners) == Some(n) by {
      assert Pick(nodes, owners[1..][1..]) == Pick(nodes, [Replica(3, Started)]);
    }
    forall m: Node ensures PickedFor(nodes, Owners(), [7], m) == if m == n then [7] else [] {
      assert [7][..0] == [];
    }
  }

  ghost function WithTask<V(!new)>(nodes: seq<Node>, t: Task, poisoned: bool): State<V> {
    State(nodes, [t], 1, None, poisoned, Running, [], [], multiset{})
  }

  lemma FirstRefusal<V(!new)>(f: (V, V) -> V, val: Shard -> V, n: Node, rest: seq<Node>, nodes: seq<Node>, t: Task,
                              poisoned: bool)
    requires t.node < n <= 3 && t.shards == [7] && Without(nodes, t.node) == [n] + rest && forall m :: m in rest ==> m > n
    ensures var e: Event<V> := Refused(0, Owners(), [n]);
            && Enabled(f, val, WithTask(nodes, t, poisoned), e)
            && Next(f, val, WithTask(nodes, t, poisoned), e)
               == WithTask([n] + rest, Task(n, [7], true, t.tried + {t.node}, Nodes([n] + rest)), poisoned || t.last)
  {
    hide Launch, Placeable, Enumerates, Without;
    OneNode([n] + rest, n, rest, true, t.tried + {t.node});
    assert Drop([t], 0) == [];
  }

  /** Three owners, the first two refuse, the third answers for the shard: all is
      reduced, and the call fails. */
  lemma TwoRefusalsFail<V(!new)>(f: (V, V) -> V, val: Shard -> V) returns (states: seq<State<V>>, events: seq<Event<V>>)
    ensures Run(f, val, states, events) && BeginsWith(states[0], [7], 3)
    ensures |events| == 4 && events[0].Refused? && events[1].Refused? && events[2] == Answer(0, [7], Some(val(7))) && events[3] == Finish
    ensures states[4].status == Failed && states[4].folded == [7] && states[4].acc == Some(val(7))
  {
    hide Launch, Placeable, Enumerates, Next, Enabled, Reduce, PickedFor, Run, BeginsWith, Without, Nodes, Owners;
    var t0 := Task(1, [7], false, {}, Nodes([1, 2, 3]));
    var t1 := Task(2, [7], true, {} + {1}, Nodes([2, 3]));
    var t2 := Task(3, [7], true, {} + {1} + {2}, Nodes([3]));
    var s0, s1, s2 := WithTask<V>([1, 2, 3], t0, false), WithTask<V>([2, 3], t1, false), WithTask<V>([3], t2, true);
    Removed();
    FirstRefusal(f, val, 2, [3], [1, 2, 3], t0, false);
    FirstRefusal(f, val, 3, [], [2, 3], t1, false);
    var e0: Event<V>, e1: Event<V> := Refused(0, Owners(), [2]), Refused(0, Owners(), [3]);
    assert [2] + [3] == [2, 3] && [3] + [] == [3];
    assert Next(f, val, s0, e0) == s1;
    assert Next(f, val, s1, e1) == s2;
    var e2: Event<V> := Answer(0, [7], Some(val(7)));
    var s3, s4 := LastAnswer(f, val, s2, t2);
    states, events := [s0, s1, s2, s3, s4], [e0, e1, e2, Finish];
    RunOfFour(f, val, s0, e0, s1, e1, s2, e2, s3, Finish, s4);
    BeginsHere(s0, t0);
  }

  lemma RunOfFour<V(!new)>(f: (V, V) -> V, val: Shard -> V, s0: State<V>, e0: Event<V>, s1: State<V>, e1: Event<V>,
                           s2: State<V>,
                           e2: Event<V>, s3: State<V>, e3: Event<V>, s4: State<V>)
    requires Enabled(f, val, s0, e0) && s1 == Next(f, val, s0, e0) && Enabled(f, val, s1, e1) && s2 == Next(f, val, s1, e1)
    requires Enabled(f, val, s2, e2) && s3 == Next(f, val, s2, e2) && Enabled(f, val, s3, e3) && s4 == Next(f, val, s3, e3)
    ensures Run(f, val, [s0, s1, s2, s3, s4], [e0, e1, e2, e3])
  {
    hide Next, Enabled;
  }

  lemma Removed()
    ensures Without([1, 2, 3], 1) == [2, 3] && Without([2, 3], 2) == [3]
  {
    assert [1, 2, 3][1..] == [2, 3] && [2, 3][1..] == [3] && [3][1..] == [];
    assert Without([3], 1) == [3] && Without([3], 2) == [3];
    assert Without([2, 3], 1) == [2] + Without([3], 1);
  }

  lemma BeginsHere<V(!new)>(s: State<V>, t: Task)
    requires t == Task(1, [7], false, {}, Nodes([1, 2, 3])) && s == WithTask<V>([1, 2, 3], t, false)
    ensures BeginsWith(s, [7], 3)
  {
    hide Launch, Placeable, Enumerates;
    assert [1, 2, 3] == [1] + [2, 3];
    OneNode([1, 2, 3], 1, [2, 3], false, {});
    assert StartsWith(s, [7], [1, 2, 3], Owners(), [1], 3);
  }

  lemma LastAnswer<V(!new)>(f: (V, V) -> V, val: Shard -> V, s: State<V>, t: Task) returns (s': State<V>, s'': State<V>)
    requires s == WithTask<V>([3], t, true) && t.shards == [7]
    ensures var e: Event<V> := Answer(0, [7], Some(val(7)));
            Enabled(f, val, s, e) && s' == Next(f, val, s, e)
    ensures Enabled<V>(f, val, s', Finish) && s'' == Next<V>(f, val, s', Finish)
    ensures s''.status == Failed && s''.folded == [7] && s''.acc == Some(val(7))
  {
    ReduceOne(f, val, 7);
    hide Reduce;
    var e: Event<V> := Answer(0, [7], Some(val(7)));
    s' := Next(f, val, s, e);
    s'' := Next(f, val, s', Finish);
  }
}
