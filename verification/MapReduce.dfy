// Map/reduce over the cluster with failover (executor.go): the assignment of
// shards to nodes, and the coordinator's protocol as a state machine whose steps
// are the responses it receives.
module MapReduce {
  import opened Options
  import opened Reduction

  type Node = nat

  datatype NodeState = Started | Unknown | Unavailable

  /** One owner of a shard, in the cluster snapshot of the moment. */
  datatype Replica = Replica(node: Node, state: NodeState)

  type Snapshot = Shard -> seq<Replica>

  // ----- Assigning shards to nodes -----

  predicate Usable(nodes: seq<Node>, r: Replica) {
    r.node in nodes && r.state != Unavailable
  }

  /** The first usable owner of the shard. */
  function Pick(nodes: seq<Node>, owners: seq<Replica>): Option<Node> {
    if owners == [] then None
    else if Usable(nodes, owners[0]) then Some(owners[0].node)
    else Pick(nodes, owners[1..])
  }

  /** The shards of a list that are assigned to one node, in order. */
  function PickedFor(nodes: seq<Node>, snap: Snapshot, shards: seq<Shard>, n: Node): seq<Shard> {
    if shards == [] then []
    else
      var front, s := shards[..|shards| - 1], shards[|shards| - 1];
      PickedFor(nodes, snap, front, n) + (if Pick(nodes, snap(s)) == Some(n) then [s] else [])
  }

  ghost predicate Placeable(nodes: seq<Node>, snap: Snapshot, shards: seq<Shard>) {
    forall i :: 0 <= i < |shards| ==> Pick(nodes, snap(shards[i])).Some?
  }

  /** Node n is the first owner that is among the nodes and not unavailable. */
  ghost predicate AssignedTo(nodes: seq<Node>, owners: seq<Replica>, n: Node) {
    exists j :: 0 <= j < |owners| && FirstAt(nodes, owners, n, j)
  }

  ghost predicate FirstAt(nodes: seq<Node>, owners: seq<Replica>, n: Node, j: nat)
    requires j < |owners|
  {
    && owners[j].node == n && n in nodes && (owners[j].state == Started || owners[j].state == Unknown)
    && forall i :: 0 <= i < j ==> owners[i].node !in nodes || owners[i].state == Unavailable
  }

  /** No owner is among the nodes and started, or of unknown state. */
  ghost predicate Ownerless(nodes: seq<Node>, owners: seq<Replica>) {
    forall j :: 0 <= j < |owners| ==> owners[j].node !in nodes || owners[j].state == Unavailable
  }

  /** Assigned: some owner is the node, usable, and behind unusable ones only.
      Not assigned at all: no owner is among the nodes and started or unknown. */
  lemma AssignedIs(nodes: seq<Node>, owners: seq<Replica>, n: Node)
    ensures AssignedTo(nodes, owners, n) <==>
            exists j :: 0 <= j < |owners| && owners[j].node == n && n in nodes
              && (owners[j].state == Started || owners[j].state == Unknown)
              && forall i :: 0 <= i < j ==>
                   owners[i].node !in nodes || !(owners[i].state == Started || owners[i].state == Unknown)
    ensures !Ownerless(nodes, owners) <==>
            exists j :: 0 <= j < |owners| && owners[j].node in nodes && (owners[j].state == Started || owners[j].state == Unknown)
  {
    if j :| 0 <= j < |owners| && owners[j].node == n && n in nodes
            && (owners[j].state == Started || owners[j].state == Unknown)
            && forall i :: 0 <= i < j ==>
                 owners[i].node !in nodes || !(owners[i].state == Started || owners[i].state == Unknown) {
      assert FirstAt(nodes, owners, n, j);
    }
    if AssignedTo(nodes, owners, n) {
      var j :| 0 <= j < |owners| && FirstAt(nodes, owners, n, j);
      assert owners[j].node == n;
    }
  }

  /** What picking an owner means. */
  lemma {:induction false} PickIs(nodes: seq<Node>, owners: seq<Replica>, n: Node)
    ensures Pick(nodes, owners) == Some(n) <==> AssignedTo(nodes, owners, n)
    ensures Pick(nodes, owners) == None <==> Ownerless(nodes, owners)
  {
    if owners != [] {
      var tail := owners[1..];
      PickIs(nodes, tail, n);
      if Usable(nodes, owners[0]) {
        if owners[0].node == n {
          assert FirstAt(nodes, owners, n, 0);
        }
      } else {
        if AssignedTo(nodes, tail, n) {
          var j :| 0 <= j < |tail| && FirstAt(nodes, tail, n, j);
          forall i | 0 <= i < j + 1
            ensures owners[i].node !in nodes || owners[i].state == Unavailable
          {
            assert i > 0 ==> owners[i] == tail[i - 1];
          }
          assert FirstAt(nodes, owners, n, j + 1);
        }
        if AssignedTo(nodes, owners, n) {
          var j :| 0 <= j < |owners| && FirstAt(nodes, owners, n, j);
          assert FirstAt(nodes, tail, n, j - 1);
        }
        assert Ownerless(nodes, owners) <==> Ownerless(nodes, tail) by {
          forall j | 0 < j < |owners| ensures owners[j] == tail[j - 1] {
          }
        }
      }
    }
  }

  /** How often a node is given a shard. */
  ghost function TimesGiven(m: map<Node, seq<Shard>>, n: Node, s: Shard): nat {
    if n in m then multiset(m[n])[s] else 0
  }

  lemma {:induction false} PickedForCounts(nodes: seq<Node>, snap: Snapshot, shards: seq<Shard>, n: Node, s: Shard)
    ensures multiset(PickedFor(nodes, snap, shards, n))[s]
         == if AssignedTo(nodes, snap(s), n) then multiset(shards)[s] else 0
  {
    hide AssignedTo;
    if shards != [] {
      var front, last := shards[..|shards| - 1], shards[|shards| - 1];
      PickedForCounts(nodes, snap, front, n, s);
      PickIs(nodes, snap(last), n);
      assert shards == front + [last];
    }
  }

  /** Groups shards by node.  It fails exactly when a shard has no owner among the
      nodes that is started or of unknown state; otherwise each node gets every
      shard of which it is the first such owner as often as requested, and no
      other, in the order of the request; only nodes with shards appear. */
  method ShardsByNode(nodes: seq<Node>, snap: Snapshot, shards: seq<Shard>) returns (r: Option<map<Node, seq<Shard>>>)
    ensures r.None? <==> exists i :: 0 <= i < |shards| && Ownerless(nodes, snap(shards[i]))
    ensures r.Some? ==> forall n, s ::
              TimesGiven(r.value, n, s) == if AssignedTo(nodes, snap(s), n) then multiset(shards)[s] else 0
    ensures r.Some? ==> Grouped(nodes, snap, shards, r.value)
  {
    hide Ownerless, AssignedTo;
    var m: map<Node, seq<Shard>> := map[];
    for i := 0 to |shards|
      invariant Placeable(nodes, snap, shards[..i])
      invariant Grouped(nodes, snap, shards[..i], m)
    {
      var shard := shards[i];
      assert shards[..i + 1] == shards[..i] + [shard];
      var picked := FirstUsable(nodes, snap(shard));
      if picked.None? {
        PickIs(nodes, snap(shard), 0);
        assert Ownerless(nodes, snap(shards[i]));
        return None;
      }
      GroupOneMore(nodes, snap, shards[..i], shard, picked.value, m);
      m := m[picked.value := (if picked.value in m then m[picked.value] else []) + [shard]];
    }
    assert shards[..|shards|] == shards;
    r := Some(m);
    forall i | 0 <= i < |shards| ensures !Ownerless(nodes, snap(shards[i])) {
      PickIs(nodes, snap(shards[i]), 0);
    }
    forall n, s ensures TimesGiven(m, n, s) == if AssignedTo(nodes, snap(s), n) then multiset(shards)[s] else 0 {
      PickedForCounts(nodes, snap, shards, n, s);
    }
  }

  /** The map holds each node's shards. */
  ghost predicate Grouped(nodes: seq<Node>, snap: Snapshot, shards: seq<Shard>, m: map<Node, seq<Shard>>) {
    && (forall n :: n in m <==> PickedFor(nodes, snap, shards, n) != [])
    && (forall n :: n in m ==> m[n] == PickedFor(nodes, snap, shards, n))
  }

  lemma GroupOneMore(nodes: seq<Node>, snap: Snapshot, shards: seq<Shard>, s: Shard, n: Node, m: map<Node, seq<Shard>>)
    requires Grouped(nodes, snap, shards, m) && Pick(nodes, snap(s)) == Some(n)
    ensures Grouped(nodes, snap, shards + [s], m[n := (if n in m then m[n] else []) + [s]])
  {
    assert (shards + [s])[..|shards|] == shards;
  }

  method FirstUsable(nodes: seq<Node>, owners: seq<Replica>) returns (picked: Option<Node>)
    ensures picked == Pick(nodes, owners)
  {
    for j := 0 to |owners|
      invariant Pick(nodes, owners) == Pick(nodes, owners[j..])
    {
      if owners[j].node in nodes && (owners[j].state == Started || owners[j].state == Unknown) {
        return Some(owners[j].node);
      }
      assert owners[j..][1..] == owners[j + 1..];
    }
    picked := None;
  }

  lemma {:induction false} PickUsable(nodes: seq<Node>, owners: seq<Replica>)
    ensures Pick(nodes, owners).Some? ==> Pick(nodes, owners).value in nodes
  {
    if owners != [] && !Usable(nodes, owners[0]) {
      PickUsable(nodes, owners[1..]);
    }
  }

  // ----- The coordinator -----

  /** An outstanding request.  `tried` and `avail` are history: the nodes its
      shards already failed on, and the nodes left when it was sent. */
  datatype Task = Task(node: Node, shards: seq<Shard>, last: bool, tried: set<Node>, avail: set<Node>)

  datatype Status<V> = Running | Returned(value: Option<V>) | Failed

  /** `poisoned` records that a goroutine of the group returned an error: the
      deferred wait then replaces any later success.  The shards reduced, lost to
      the memory limit, and missing from an answer are history. */
  datatype State<V> = State(nodes: seq<Node>, tasks: seq<Task>, expected: int, acc: Option<V>, poisoned: bool,
                            status: Status<V>, folded: seq<Shard>, lost: seq<Shard>, missed: multiset<Shard>)

  /** What the coordinator can see next about outstanding request i.  An answer
      is the reduction of some of the request's shards, not always of all: a node
      that shuts down answers with those it got to. */
  datatype Event<V> =
    | Answer(i: nat, covered: seq<Shard>, v: Option<V>)
    | Refused(i: nat, snap: Snapshot, order: seq<Node>)
    | OtherError(i: nat)
    | TooMuchMemory(i: nat)
    | ContextDone
    | Finish

  function Nodes(nodes: seq<Node>): set<Node> {
    set n | n in nodes
  }

  function Without(nodes: seq<Node>, n: Node): seq<Node> {
    if nodes == [] then []
    else (if nodes[0] == n then [] else [nodes[0]]) + Without(nodes[1..], n)
  }

  /** The requests a mapper call sends, one per node, in any order. */
  function Launch(nodes: seq<Node>, snap: Snapshot, shards: seq<Shard>, order: seq<Node>, last: bool,
                  tried: set<Node>): seq<Task> {
    seq(|order|, (i: int) requires 0 <= i < |order| =>
      Task(order[i], PickedFor(nodes, snap, shards, order[i]), last, tried, Nodes(nodes)))
  }

  /** `order` lists each node that gets shards exactly once. */
  ghost predicate Enumerates(nodes: seq<Node>, snap: Snapshot, shards: seq<Shard>, order: seq<Node>) {
    && (forall i, j :: 0 <= i < j < |order| ==> order[i] != order[j])
    && (forall n :: n in order <==> PickedFor(nodes, snap, shards, n) != [])
  }

  function Start<V>(nodes: seq<Node>, snap: Snapshot, shards: seq<Shard>, order: seq<Node>, replicas: nat): State<V> {
    State(nodes, Launch(nodes, snap, shards, order, replicas == 1, {}), |shards|, None, false, Running, [], [], multiset{})
  }

  function Drop<T>(s: seq<T>, i: nat): seq<T>
    requires i < |s|
  {
    s[..i] + s[i + 1..]
  }

  ghost predicate Enabled<V(!new)>(f: (V, V) -> V, val: Shard -> V, s: State<V>, e: Event<V>) {
    && s.status.Running?
    && match e
       case Answer(i, covered, v) =>
         && s.expected > 0 && i < |s.tasks|
         && multiset(covered) <= multiset(s.tasks[i].shards) && v == Reduce(f, val, covered)
       case Refused(i, snap, order) =>
         && s.expected > 0 && i < |s.tasks|
         && Enumerates(Without(s.nodes, s.tasks[i].node), snap, s.tasks[i].shards, order)
       case OtherError(i) => s.expected > 0 && i < |s.tasks|
       case TooMuchMemory(i) => i < |s.tasks|
       case ContextDone => s.expected > 0
       case Finish => s.expected <= 0
  }

  /** One turn of the coordinator's loop. */
  ghost function Next<V(!new)>(f: (V, V) -> V, val: Shard -> V, s: State<V>, e: Event<V>): State<V>
    requires Enabled(f, val, s, e)
  {
    match e
    case Answer(i, covered, v) =>
      var t := s.tasks[i];
      s.(tasks := Drop(s.tasks, i), expected := s.expected - |t.shards|, acc := Merge(f, s.acc, v),
         folded := s.folded + covered, missed := s.missed + (multiset(t.shards) - multiset(covered)))
    case Refused(i, snap, order) =>
      var t := s.tasks[i];
      var left := Without(s.nodes, t.node);
      if Placeable(left, snap, t.shards) then
        s.(nodes := left, poisoned := s.poisoned || t.last,
           tasks := Drop(s.tasks, i) + Launch(left, snap, t.shards, order, true, t.tried + {t.node}))
      else s.(nodes := left, status := Failed)
    case OtherError(i) => s.(status := Failed)
    case TooMuchMemory(i) =>
      s.(tasks := Drop(s.tasks, i), lost := s.lost + s.tasks[i].shards, poisoned := true)
    case ContextDone => s.(status := Failed)
    case Finish => s.(status := if s.poisoned then Failed else Returned(s.acc))
  }

  ghost predicate Run<V(!new)>(f: (V, V) -> V, val: Shard -> V, states: seq<State<V>>, events: seq<Event<V>>) {
    && |states| == |events| + 1
    && forall i :: 0 <= i < |events| ==> Enabled(f, val, states[i], events[i]) && states[i + 1] == Next(f, val, states[i], events[i])
  }

  ghost predicate Starts<V(!new)>(s: State<V>, shards: seq<Shard>) {
    exists nodes, snap, order, replicas :: StartsWith(s, shards, nodes, snap, order, replicas)
  }

  ghost predicate StartsWith<V(!new)>(s: State<V>, shards: seq<Shard>, nodes: seq<Node>, snap: Snapshot,
                                      order: seq<Node>, replicas: nat) {
    && Placeable(nodes, snap, shards)
    && Enumerates(nodes, snap, shards, order)
    && s == Start<V>(nodes, snap, shards, order, replicas)
  }

  // ----- The invariant -----

  function Outstanding(tasks: seq<Task>): seq<Shard> {
    if tasks == [] then [] else tasks[0].shards + Outstanding(tasks[1..])
  }

  ghost predicate TaskOk(nodes: seq<Node>, t: Task) {
    && t.shards != [] && t.node in t.avail && t.node !in t.tried
    && Nodes(nodes) <= t.avail
    && Nodes(nodes) !! t.tried
  }

  /** Where the requested shards are, and what is known of the open requests. */
  ghost predicate Accounts<V(!new)>(shards: seq<Shard>, s: State<V>) {
    && multiset(shards) == multiset(s.folded) + multiset(Outstanding(s.tasks)) + multiset(s.lost) + s.missed
    && s.expected == |Outstanding(s.tasks)| + |s.lost|
    && (s.lost != [] ==> s.poisoned)
    && (forall i :: 0 <= i < |s.tasks| ==> TaskOk(s.nodes, s.tasks[i]))
    && (s.status.Returned? ==> !s.poisoned && s.expected <= 0 && s.status.value == s.acc)
  }

  ghost predicate Inv<V(!new)>(f: (V, V) -> V, val: Shard -> V, shards: seq<Shard>, s: State<V>) {
    Accounts(shards, s) && s.acc == Reduce(f, val, s.folded)
  }

  lemma {:induction false} OutstandingConcat(a: seq<Task>, b: seq<Task>)
    ensures Outstanding(a + b) == Outstanding(a) + Outstanding(b)
  {
    if a == [] {
      assert a + b == b;
    } else {
      assert (a + b)[1..] == a[1..] + b;
      OutstandingConcat(a[1..], b);
    }
  }

  /** Taking one request away takes its shards away. */
  lemma OutstandingDrop(tasks: seq<Task>, i: nat)
    requires i < |tasks|
    ensures multiset(Outstanding(tasks)) == multiset(Outstanding(Drop(tasks, i))) + multiset(tasks[i].shards)
    ensures |Outstanding(tasks)| == |Outstanding(Drop(tasks, i))| + |tasks[i].shards|
  {
    assert tasks == tasks[..i] + ([tasks[i]] + tasks[i + 1..]);
    OutstandingConcat(tasks[..i], [tasks[i]] + tasks[i + 1..]);
    OutstandingConcat([tasks[i]], tasks[i + 1..]);
    OutstandingConcat(tasks[..i], tasks[i + 1..]);
    assert Outstanding([tasks[i]]) == tasks[i].shards;
  }

  // ----- Launching distributes every shard exactly once -----

  /** All shards picked for the nodes of a list. */
  function PickedForAll(nodes: seq<Node>, snap: Snapshot, shards: seq<Shard>, order: seq<Node>): seq<Shard> {
    if order == [] then [] else PickedFor(nodes, snap, shards, order[0]) + PickedForAll(nodes, snap, shards, order[1..])
  }

  lemma {:induction false} LaunchOutstanding(nodes: seq<Node>, snap: Snapshot, shards: seq<Shard>, order: seq<Node>,
                                             last: bool, tried: set<Node>)
    ensures Outstanding(Launch(nodes, snap, shards, order, last, tried)) == PickedForAll(nodes, snap, shards, order)
  {
    if order != [] {
      LaunchOutstanding(nodes, snap, shards, order[1..], last, tried);
      assert Launch(nodes, snap, shards, order, last, tried)[1..] == Launch(nodes, snap, shards, order[1..], last, tried);
    }
  }

  /** One more shard lands in the list of its node only. */
  lemma {:induction false} PickedForAllSnoc(nodes: seq<Node>, snap: Snapshot, shards: seq<Shard>, s: Shard,
                                            order: seq<Node>, n: Node)
    requires Pick(nodes, snap(s)) == Some(n)
    requires forall i, j :: 0 <= i < j < |order| ==> order[i] != order[j]
    ensures multiset(PickedForAll(nodes, snap, shards + [s], order)) ==
            multiset(PickedForAll(nodes, snap, shards, order)) + (if n in order then multiset{s} else multiset{})
    ensures |PickedForAll(nodes, snap, shards + [s], order)| ==
            |PickedForAll(nodes, snap, shards, order)| + (if n in order then 1 else 0)
  {
    if order != [] {
      assert (shards + [s])[..|shards|] == shards;
      PickedForAllSnoc(nodes, snap, shards, s, order[1..], n);
    }
  }

  lemma {:induction false} PickedForAllIsAll(nodes: seq<Node>, snap: Snapshot, shards: seq<Shard>, order: seq<Node>)
    requires Placeable(nodes, snap, shards)
    requires forall i, j :: 0 <= i < j < |order| ==> order[i] != order[j]
    requires forall i :: 0 <= i < |shards| ==> Pick(nodes, snap(shards[i])).value in order
    ensures multiset(PickedForAll(nodes, snap, shards, order)) == multiset(shards)
    ensures |PickedForAll(nodes, snap, shards, order)| == |shards|
  {
    if shards == [] {
      NothingPicked(nodes, snap, order);
    } else {
      var front, s := shards[..|shards| - 1], shards[|shards| - 1];
      assert shards == front + [s];
      PickedForAllIsAll(nodes, snap, front, order);
      PickedForAllSnoc(nodes, snap, front, s, order, Pick(nodes, snap(s)).value);
    }
  }

  lemma {:induction false} NothingPicked(nodes: seq<Node>, snap: Snapshot, order: seq<Node>)
    ensures PickedForAll(nodes, snap, [], order) == []
  {
    if order != [] {
      NothingPicked(nodes, snap, order[1..]);
    }
  }

  lemma {:induction false} PickedForHas(nodes: seq<Node>, snap: Snapshot, shards: seq<Shard>, i: nat)
    requires i < |shards| && Pick(nodes, snap(shards[i])).Some?
    ensures PickedFor(nodes, snap, shards, Pick(nodes, snap(shards[i])).value) != []
  {
    if i < |shards| - 1 {
      PickedForHas(nodes, snap, shards[..|shards| - 1], i);
    }
  }

  lemma {:induction false} PickedForNode(nodes: seq<Node>, snap: Snapshot, shards: seq<Shard>, n: Node)
    requires PickedFor(nodes, snap, shards, n) != []
    ensures n in nodes
  {
    var front, s := shards[..|shards| - 1], shards[|shards| - 1];
    if Pick(nodes, snap(s)) == Some(n) {
      PickUsable(nodes, snap(s));
    } else {
      PickedForNode(nodes, snap, front, n);
    }
  }

  /** A mapper call sends out each shard exactly once, to usable nodes. */
  lemma LaunchCovers(nodes: seq<Node>, snap: Snapshot, shards: seq<Shard>, order: seq<Node>, last: bool,
                     tried: set<Node>)
    requires Placeable(nodes, snap, shards) && Enumerates(nodes, snap, shards, order)
    requires Nodes(nodes) !! tried
    ensures var ts := Launch(nodes, snap, shards, order, last, tried);
            && multiset(Outstanding(ts)) == multiset(shards)
            && |Outstanding(ts)| == |shards|
    ensures forall t :: t in Launch(nodes, snap, shards, order, last, tried) ==> TaskOk(nodes, t)
  {
    LaunchOutstanding(nodes, snap, shards, order, last, tried);
    forall i | 0 <= i < |shards|
      ensures Pick(nodes, snap(shards[i])).value in order
    {
      PickedForHas(nodes, snap, shards, i);
    }
    PickedForAllIsAll(nodes, snap, shards, order);
    forall t | t in Launch(nodes, snap, shards, order, last, tried)
      ensures TaskOk(nodes, t)
    {
      assert t.node in order;
      PickedForNode(nodes, snap, shards, t.node);
    }
  }

  lemma {:induction false} WithoutNodes(nodes: seq<Node>, n: Node)
    ensures Nodes(Without(nodes, n)) == Nodes(nodes) - {n}
  {
    if nodes != [] {
      WithoutNodes(nodes[1..], n);
      assert Nodes(nodes) == {nodes[0]} + Nodes(nodes[1..]);
      var w := Without(nodes[1..], n);
      if nodes[0] == n {
        assert Without(nodes, n) == w;
      } else {
        assert Without(nodes, n) == [nodes[0]] + w;
        assert Nodes([nodes[0]] + w) == {nodes[0]} + Nodes(w);
      }
    }
  }

  // ----- Every step keeps the invariant -----

  lemma StartAccounts<V(!new)>(shards: seq<Shard>, s: State<V>)
    requires Starts(s, shards)
    ensures Accounts(shards, s) && s.acc == None && s.folded == []
  {
    var nodes, snap, order, replicas :| StartsWith(s, shards, nodes, snap, order, replicas);
    LaunchCovers(nodes, snap, shards, order, replicas == 1, {});
    assert forall i :: 0 <= i < |s.tasks| ==> s.tasks[i] in s.tasks;
  }

  lemma AnswerAccounts<V(!new)>(f: (V, V) -> V, val: Shard -> V, shards: seq<Shard>, s: State<V>, e: Event<V>)
    requires Accounts(shards, s) && Enabled(f, val, s, e) && e.Answer?
    ensures Accounts(shards, Next(f, val, s, e))
  {
    hide Outstanding, Reduce;
    OutstandingDrop(s.tasks, e.i);
    var part := multiset(s.tasks[e.i].shards);
    assert multiset(s.folded + e.covered) == multiset(s.folded) + multiset(e.covered);
    assert part == multiset(e.covered) + (part - multiset(e.covered));
  }

  lemma LostAccounts<V(!new)>(f: (V, V) -> V, val: Shard -> V, shards: seq<Shard>, s: State<V>, i: nat)
    requires Accounts(shards, s) && Enabled(f, val, s, TooMuchMemory(i))
    ensures Accounts(shards, Next(f, val, s, TooMuchMemory(i)))
  {
    hide Outstanding, Reduce;
    OutstandingDrop(s.tasks, i);
  }

  lemma RefusedAccounts<V(!new)>(f: (V, V) -> V, val: Shard -> V, shards: seq<Shard>, s: State<V>, i: nat,
                                 snap: Snapshot, order: seq<Node>)
    requires Accounts(shards, s) && Enabled(f, val, s, Refused(i, snap, order))
    ensures Accounts(shards, Next(f, val, s, Refused(i, snap, order)))
  {
    hide Outstanding, Reduce, Launch, Without, Placeable, Enumerates;
    var t := s.tasks[i];
    var left := Without(s.nodes, t.node);
    WithoutNodes(s.nodes, t.node);
    assert TaskOk(s.nodes, t);
    if Placeable(left, snap, t.shards) {
      var more := Launch(left, snap, t.shards, order, true, t.tried + {t.node});
      LaunchCovers(left, snap, t.shards, order, true, t.tried + {t.node});
      OutstandingDrop(s.tasks, i);
      OutstandingConcat(Drop(s.tasks, i), more);
      var now := Drop(s.tasks, i) + more;
      forall j | 0 <= j < |now|
        ensures TaskOk(left, now[j])
      {
        if j >= |s.tasks| - 1 {
          assert now[j] in more;
        } else {
          var was := if j < i then j else j + 1;
          assert now[j] == s.tasks[was];
          assert TaskOk(s.nodes, s.tasks[was]);
        }
      }
    }
  }

  lemma StepAccounts<V(!new)>(f: (V, V) -> V, val: Shard -> V, shards: seq<Shard>, s: State<V>, e: Event<V>)
    requires Accounts(shards, s) && Enabled(f, val, s, e)
    ensures Accounts(shards, Next(f, val, s, e))
  {
    match e
    case Answer(i, covered, v) => AnswerAccounts(f, val, shards, s, e);
    case Refused(i, snap, order) => RefusedAccounts(f, val, shards, s, i, snap, order);
    case TooMuchMemory(i) => LostAccounts(f, val, shards, s, i);
    case OtherError(i) =>
    case ContextDone =>
    case Finish =>
  }

  /** In every run: the requested shards are those already reduced, outstanding,
      lost to the memory limit or missing from an answer; `expected` counts what
      is outstanding or lost; and no shard sits at a node it already failed on. */
  lemma {:induction false} RunAccounts<V(!new)>(f: (V, V) -> V, val: Shard -> V, shards: seq<Shard>,
                                                states: seq<State<V>>, events: seq<Event<V>>, n: nat)
    requires Run(f, val, states, events) && n < |states| && Starts(states[0], shards)
    ensures Accounts(shards, states[n])
  {
    hide Accounts, Next, Enabled;
    if n == 0 {
      StartAccounts(shards, states[0]);
    } else {
      RunAccounts(f, val, shards, states, events, n - 1);
      StepAccounts(f, val, shards, states[n - 1], events[n - 1]);
    }
  }

  /** In every run, moreover, what has been accumulated is the reduction of the
      shards reduced so far. */
  lemma {:induction false} RunKeepsInv<V(!new)>(f: (V, V) -> V, val: Shard -> V, shards: seq<Shard>,
                                                states: seq<State<V>>, events: seq<Event<V>>, n: nat)
    requires Associative(f) && Run(f, val, states, events) && n < |states|
    requires Starts(states[0], shards)
    ensures Inv(f, val, shards, states[n])
  {
    hide Accounts, Reduce, Associative;
    RunAccounts(f, val, shards, states, events, n);
    if n == 0 {
      StartAccounts(shards, states[0]);
      ReduceNone(f, val);
    } else {
      RunKeepsInv(f, val, shards, states, events, n - 1);
      var s, e := states[n - 1], events[n - 1];
      if e.Answer? {
        ReduceConcat(f, val, s.folded, e.covered);
      }
    }
  }

  lemma ReduceNone<V>(f: (V, V) -> V, val: Shard -> V)
    ensures Reduce(f, val, []) == None
  {
  }

  // ----- When a returned result is complete -----

  /** An answer that leaves out shards of its request. */
  ghost predicate Partial<V(!new)>(s: State<V>, e: Event<V>) {
    e.Answer? && e.i < |s.tasks| && multiset(e.covered) != multiset(s.tasks[e.i].shards)
  }

  lemma {:induction false} MissedIffPartial<V(!new)>(f: (V, V) -> V, val: Shard -> V, shards: seq<Shard>,
                                                     states: seq<State<V>>, events: seq<Event<V>>, n: nat)
    requires Run(f, val, states, events) && n < |states| && Starts(states[0], shards)
    ensures states[n].missed == multiset{} <==> forall i :: 0 <= i < n ==> !Partial(states[i], events[i])
  {
    if n > 0 {
      MissedIffPartial(f, val, shards, states, events, n - 1);
      var s, e := states[n - 1], events[n - 1];
      assert states[n] == Next(f, val, s, e);
      if e.Answer? {
        NothingMissed(s.missed, multiset(e.covered), multiset(s.tasks[e.i].shards));
      }
    }
  }

  lemma NothingMissed(missed: multiset<Shard>, covered: multiset<Shard>, all: multiset<Shard>)
    requires covered <= all
    ensures missed + (all - covered) == multiset{} <==> missed == multiset{} && covered == all
  {
    assert all == covered + (all - covered);
    if missed + (all - covered) == multiset{} {
      assert |missed| + |all - covered| == 0;
    }
  }

  /** What was reduced for a result that is returned: every requested shard
      exactly once if and only if no answer was partial. */
  lemma CompleteIffNoPartialAnswer<V(!new)>(f: (V, V) -> V, val: Shard -> V, shards: seq<Shard>,
                                            states: seq<State<V>>, events: seq<Event<V>>, n: nat)
    requires Run(f, val, states, events) && n < |states|
    requires Starts(states[0], shards) && states[n].status.Returned?
    ensures multiset(states[n].folded) == multiset(shards) <==> forall i :: 0 <= i < n ==> !Partial(states[i], events[i])
  {
    hide Partial;
    RunAccounts(f, val, shards, states, events, n);
    MissedIffPartial(f, val, shards, states, events, n);
    var s := states[n];
    assert multiset(shards) == multiset(s.folded) + s.missed by {
      assert Outstanding(s.tasks) == [] && s.lost == [];
    }
    if multiset(s.folded) == multiset(shards) {
      assert |s.missed| == 0;
    }
  }

  /** A returned result is the reduction of what was answered; if no answer was
      partial, of every requested shard exactly once, whatever order the answers
      came in and whichever nodes failed. */
  lemma SuccessIsComplete<V(!new)>(f: (V, V) -> V, val: Shard -> V, shards: seq<Shard>, states: seq<State<V>>,
                                   events: seq<Event<V>>, n: nat)
    requires Associative(f) && Commutative(f) && Run(f, val, states, events) && n < |states|
    requires Starts(states[0], shards) && states[n].status.Returned?
    ensures states[n].status.value == Reduce(f, val, states[n].folded)
    ensures (forall i :: 0 <= i < n ==> !Partial(states[i], events[i])) ==> states[n].status.value == Reduce(f, val, shards)
  {
    hide Partial, Reduce;
    RunKeepsInv(f, val, shards, states, events, n);
    CompleteIffNoPartialAnswer(f, val, shards, states, events, n);
    if multiset(states[n].folded) == multiset(shards) {
      ReducePermuted(f, val, states[n].folded, shards);
    }
  }

  // ----- Termination -----

  function Measure(tasks: seq<Task>): nat {
    if tasks == [] then 0 else |tasks[0].shards| * (|tasks[0].avail| + 1) + Measure(tasks[1..])
  }

  lemma {:induction false} MeasureConcat(a: seq<Task>, b: seq<Task>)
    ensures Measure(a + b) == Measure(a) + Measure(b)
  {
    if a == [] {
      assert a + b == b;
    } else {
      assert (a + b)[1..] == a[1..] + b;
      MeasureConcat(a[1..], b);
    }
  }

  lemma MeasureDrop(tasks: seq<Task>, i: nat)
    requires i < |tasks|
    ensures Measure(tasks) == Measure(Drop(tasks, i)) + |tasks[i].shards| * (|tasks[i].avail| + 1)
  {
    assert tasks == tasks[..i] + ([tasks[i]] + tasks[i + 1..]);
    MeasureConcat(tasks[..i], [tasks[i]] + tasks[i + 1..]);
    MeasureConcat([tasks[i]], tasks[i + 1..]);
    MeasureConcat(tasks[..i], tasks[i + 1..]);
  }

  lemma {:induction false} MeasureLaunched(tasks: seq<Task>, avail: set<Node>)
    requires forall i :: 0 <= i < |tasks| ==> tasks[i].avail == avail
    ensures Measure(tasks) == |Outstanding(tasks)| * (|avail| + 1)
  {
    if tasks != [] {
      MeasureLaunched(tasks[1..], avail);
      var a, b, c := |tasks[0].shards|, |Outstanding(tasks[1..])|, |avail| + 1;
      assert (a + b) * c == a * c + b * c;
    }
  }

  ghost function Rank<V(!new)>(s: State<V>): nat {
    if s.status.Running? then Measure(s.tasks) + 1 else 0
  }

  /** Every step decreases a measure, so every run ends: failures can only
      move shards to ever fewer nodes. */
  lemma StepDecreases<V(!new)>(f: (V, V) -> V, val: Shard -> V, shards: seq<Shard>, s: State<V>, e: Event<V>)
    requires Accounts(shards, s) && Enabled(f, val, s, e)
    ensures Rank(Next(f, val, s, e)) < Rank(s)
  {
    hide Measure, Outstanding, Launch;
    if e.Answer? || e.TooMuchMemory? {
      MeasureDrop(s.tasks, e.i);
      assert TaskOk(s.nodes, s.tasks[e.i]);
      Positive(|s.tasks[e.i].shards|, |s.tasks[e.i].avail| + 1);
    } else if e.Refused? && Next(f, val, s, e).status.Running? {
      assert TaskOk(s.nodes, s.tasks[e.i]);
      RetryDecreases(s.nodes, s.tasks, e.i, e.snap, e.order);
    }
  }

  lemma RetryDecreases(nodes: seq<Node>, tasks: seq<Task>, i: nat, snap: Snapshot, order: seq<Node>)
    requires i < |tasks| && TaskOk(nodes, tasks[i])
    requires Placeable(Without(nodes, tasks[i].node), snap, tasks[i].shards)
    requires Enumerates(Without(nodes, tasks[i].node), snap, tasks[i].shards, order)
    ensures Measure(Drop(tasks, i) + Launch(Without(nodes, tasks[i].node), snap, tasks[i].shards, order, true, tasks[i].tried + {tasks[i].node}))
            < Measure(tasks)
  {
    hide Measure, Outstanding, Launch, Placeable, Enumerates, Nodes;
    var t := tasks[i];
    var left := Without(nodes, t.node);
    WithoutNodes(nodes, t.node);
    LaunchMeasure(left, snap, t.shards, order, t.tried + {t.node});
    MeasureDrop(tasks, i);
    MeasureConcat(Drop(tasks, i), Launch(left, snap, t.shards, order, true, t.tried + {t.node}));
    ProperSubsetSize(Nodes(left), t.avail, t.node);
    LessTimes(|t.shards|, |Nodes(left)| + 1, |t.avail| + 1);
  }

  lemma LaunchMeasure(nodes: seq<Node>, snap: Snapshot, shards: seq<Shard>, order: seq<Node>, tried: set<Node>)
    requires Placeable(nodes, snap, shards) && Enumerates(nodes, snap, shards, order) && Nodes(nodes) !! tried
    ensures Measure(Launch(nodes, snap, shards, order, true, tried)) == |shards| * (|Nodes(nodes)| + 1)
  {
    LaunchCovers(nodes, snap, shards, order, true, tried);
    MeasureLaunched(Launch(nodes, snap, shards, order, true, tried), Nodes(nodes));
  }

  lemma Positive(a: nat, b: nat)
    requires a > 0 && b > 0
    ensures a * b > 0
  {
  }

  lemma LessTimes(a: nat, b: nat, c: nat)
    requires a > 0 && b < c
    ensures a * b < a * c
  {
  }

  lemma ProperSubsetSize(a: set<Node>, b: set<Node>, n: Node)
    requires a <= b && n in b && n !in a
    ensures |a| < |b|
  {
    assert b == (a + {n}) + (b - (a + {n}));
  }

  lemma StartRank<V(!new)>(s: State<V>, shards: seq<Shard>)
    requires Starts(s, shards)
    ensures Rank(s) == |shards| * (|Nodes(s.nodes)| + 1) + 1
  {
    var nodes, snap, order, replicas :| StartsWith(s, shards, nodes, snap, order, replicas);
    LaunchCovers(nodes, snap, shards, order, replicas == 1, {});
    MeasureLaunched(s.tasks, Nodes(nodes));
  }

  /** A run makes at most one step per shard and node, plus one per shard and
      one to return. */
  lemma {:induction false} RunsEnd<V(!new)>(f: (V, V) -> V, val: Shard -> V, shards: seq<Shard>,
                                            states: seq<State<V>>, events: seq<Event<V>>, n: nat)
    requires Run(f, val, states, events) && n < |states| && Starts(states[0], shards)
    ensures n + Rank(states[n]) <= |shards| * (|Nodes(states[0].nodes)| + 1) + 1
  {
    hide Next, Enabled, Rank, Accounts;
    if n == 0 {
      StartRank(states[0], shards);
    } else {
      RunsEnd(f, val, shards, states, events, n - 1);
      RunAccounts(f, val, shards, states, events, n - 1);
      StepDecreases(f, val, shards, states[n - 1], events[n - 1]);
    }
  }
}
