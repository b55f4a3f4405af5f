// Laws over every run of the ID allocator on one index.
module IdAllocRuns {
  import opened IdAllocSpec
  import opened IdCodec
  import opened IdRanges
  import opened Options

  /** One call for a client key, with its outcome. */
  datatype Op =
    | DoReserve(key: Bytes, session: Session, offset: uint64, count: uint64, ranges: seq<IDRange>)
    | DoCommit(key: Bytes, session: Session, count: uint64)
    | DoReset
    | RefusedReserve(key: Bytes, session: Session, offset: uint64, count: uint64, error: Error)
    | RefusedCommit(key: Bytes, session: Session, count: uint64, error: Error)

  ghost predicate Step(s: State, op: Op, s': State) {
    match op
    case DoReserve(key, session, offset, count, ranges) =>
      && AllForward(HeldBy(s, EntryOf(key)).ranges)
      && ReserveError(s, EntryOf(key), session, offset, count).None?
      && Reserved(s, s', EntryOf(key), session, offset, count, ranges)
    case DoCommit(key, session, count) =>
      && CommitError(s, EntryOf(key), session, count).None?
      && AllForward(s.res[EntryOf(key)].ranges)
      && Committed(s, s', EntryOf(key), session, count)
    case DoReset => s' == INIT
    case RefusedReserve(key, session, offset, count, error) =>
      && AllForward(HeldBy(s, EntryOf(key)).ranges)
      && ReserveError(s, EntryOf(key), session, offset, count) == Some(error)
      && s' == s
    case RefusedCommit(key, session, count, error) =>
      CommitError(s, EntryOf(key), session, count) == Some(error) && s' == s
  }

  ghost predicate Run(states: seq<State>, ops: seq<Op>) {
    && |states| == |ops| + 1
    && states[0] == INIT
    && forall i :: 0 <= i < |ops| ==> Step(states[i], ops[i], states[i + 1])
  }

  lemma StepKeepsInv(s: State, op: Op, s': State)
    requires Inv(s) && Step(s, op, s')
    ensures Inv(s')
    ensures op != DoReset ==> forall id :: id in s.retired ==> id in s'.retired
  {
    match op
    case DoReserve(key, session, offset, count, ranges) =>
      ReserveKeepsForward(s, s', EntryOf(key), session, offset, count, ranges);
      forall id
        ensures Owned(s', id) && (id in s.retired ==> id in s'.retired)
      {
        assert Owned(s, id);
        ReserveMovesOwner(s, s', EntryOf(key), session, offset, count, ranges, id);
      }
    case DoCommit(key, session, count) =>
      CommitKeepsForward(s, s', EntryOf(key), session, count);
      forall id
        ensures Owned(s', id) && (id in s.retired ==> id in s'.retired)
      {
        assert Owned(s, id);
        CommitMovesOwner(s, s', EntryOf(key), session, count, id);
      }
    case DoReset => InitInv();
    case RefusedReserve(key, session, offset, count, error) =>
    case RefusedCommit(key, session, count, error) =>
  }

  /** In every reachable state each ID from 1 to 2^64-1 is in exactly one of the
      central list, one key's reservation and the retired set. */
  lemma {:induction false} EveryIdHasOneOwner(states: seq<State>, ops: seq<Op>, n: nat)
    requires Run(states, ops) && n < |states|
    ensures Inv(states[n])
  {
    if n == 0 {
      InitInv();
    } else {
      EveryIdHasOneOwner(states, ops, n - 1);
      StepKeepsInv(states[n - 1], ops[n - 1], states[n]);
    }
  }

  ghost predicate NoResetBetween(ops: seq<Op>, i: nat, j: nat)
    requires i <= j <= |ops|
  {
    forall m :: i <= m < j ==> ops[m] != DoReset
  }

  lemma {:induction false} RetiredStaysRetired(states: seq<State>, ops: seq<Op>, i: nat, j: nat, id: int)
    requires Run(states, ops) && i <= j < |states| && NoResetBetween(ops, i, j)
    requires id in states[i].retired
    ensures id in states[j].retired
    decreases j
  {
    if i < j {
      RetiredStaysRetired(states, ops, i, j - 1, id);
      EveryIdHasOneOwner(states, ops, j - 1);
      StepKeepsInv(states[j - 1], ops[j - 1], states[j]);
    }
  }

  /** A retired ID is never handed out again before a reset. */
  lemma RetiredNeverHandedOut(states: seq<State>, ops: seq<Op>, i: nat, j: nat, id: int)
    requires Run(states, ops) && i <= j < |ops| && NoResetBetween(ops, i, j)
    requires id in states[i].retired && ops[j].DoReserve?
    ensures Occ(ops[j].ranges, id) == 0
  {
    RetiredStaysRetired(states, ops, i, j, id);
    EveryIdHasOneOwner(states, ops, j);
    assert Owned(states[j], id);
    var DoReserve(key, session, offset, count, ranges) := ops[j];
    ReserveMovesOwner(states[j], states[j + 1], EntryOf(key), session, offset, count, ranges, id);
  }

  /** The IDs a call commits. */
  ghost function Spent(s: State, op: Op): seq<IDRange> {
    if op.DoCommit? && AllForward(HeldBy(s, EntryOf(op.key)).ranges)
    then TakeIds(HeldBy(s, EntryOf(op.key)).ranges, op.count) else []
  }

  /** No ID is committed twice before a reset, by whatever keys and sessions. */
  lemma NeverCommittedTwice(states: seq<State>, ops: seq<Op>, i: nat, j: nat, id: int)
    requires Run(states, ops) && i < j < |ops| && NoResetBetween(ops, i, j)
    requires Occ(Spent(states[i], ops[i]), id) > 0
    ensures Occ(Spent(states[j], ops[j]), id) == 0
  {
    EveryIdHasOneOwner(states, ops, i);
    assert Owned(states[i], id);
    CommitMovesOwner(states[i], states[i + 1], EntryOf(ops[i].key), ops[i].session, ops[i].count, id);
    RetiredStaysRetired(states, ops, i + 1, j, id);
    EveryIdHasOneOwner(states, ops, j);
    assert Owned(states[j], id);
    if ops[j].DoCommit? {
      CommitMovesOwner(states[j], states[j + 1], EntryOf(ops[j].key), ops[j].session, ops[j].count, id);
    }
  }

  /** What a call hands out is reserved for its client key and for no other. */
  lemma HandedOutToOneKey(states: seq<State>, ops: seq<Op>, j: nat, other: Bytes, id: int)
    requires Run(states, ops) && j < |ops| && ops[j].DoReserve?
    requires Occ(ops[j].ranges, id) > 0 && other != ops[j].key
    ensures Occ(HeldBy(states[j + 1], EntryOf(ops[j].key)).ranges, id) == 1
    ensures Occ(HeldBy(states[j + 1], EntryOf(other)).ranges, id) == 0
    ensures Occ(FreeList(states[j + 1]), id) == 0
  {
    EveryIdHasOneOwner(states, ops, j);
    assert Owned(states[j], id);
    var s := states[j + 1];
    var DoReserve(key, session, offset, count, ranges) := ops[j];
    ReserveMovesOwner(states[j], s, EntryOf(key), session, offset, count, ranges, id);
    EntriesDiffer(other, key);
    assert Share(s, Key(EntryOf(other)), id) == 0 && Share(s, Central, id) == 0;
  }

  // ----- Offset control -----

  /** The reservation is under offset control. */
  ghost predicate Controlled(s: State, key: Bytes) {
    HeldBy(s, EntryOf(key)).offset != MAX_U64
  }

  /** Offset `o` has an ID in the reservation. */
  ghost predicate HasId(r: Reservation, o: nat) {
    r.offset <= o < r.offset + Total(r.ranges)
  }

  ghost function IdAt(r: Reservation, o: nat): int
    requires AllForward(r.ranges) && HasId(r, o)
  {
    FlatAt(r.ranges, o - r.offset)
  }

  /** The base only moves forward, and an offset it has not passed keeps its
      ID. */
  ghost predicate KeepsIdAt(r: Reservation, r': Reservation, o: nat)
    requires AllForward(r.ranges) && AllForward(r'.ranges)
  {
    && r.offset <= r'.offset
    && (HasId(r, o) && r'.offset <= o ==> HasId(r', o) && IdAt(r', o) == IdAt(r, o))
  }

  /** Dropping as many IDs as the base advances. */
  lemma AdvanceKeepsIdAt(r: Reservation, r': Reservation, o: nat)
    requires AllForward(r.ranges) && r.offset <= r'.offset
    requires r'.ranges == DropIds(r.ranges, r'.offset - r.offset)
    ensures KeepsIdAt(r, r', o)
  {
    hide Sum;
    DropShifts(r.ranges, r'.offset - r.offset);
  }

  lemma ExtendKeepsIdAt(r: Reservation, r': Reservation, count: uint64, list: seq<IDRange>, left: seq<IDRange>, o: nat)
    requires AllForward(r.ranges) && AllForward(list) && r'.offset == r.offset
    requires Extends(r.ranges, r'.ranges, count, list, left)
    ensures AllForward(r'.ranges) && KeepsIdAt(r, r', o)
  {
    var extra := r'.ranges[|r.ranges|..];
    assert r'.ranges == r.ranges + extra;
    ExtendConserves(r.ranges, r'.ranges, count, list, left, 0);
    AllForwardParts(r.ranges, extra);
    if HasId(r, o) {
      FlatAppend(r.ranges, extra, o - r.offset);
    }
  }

  /** Rolling forward and extending keep the IDs of the remaining offsets. */
  lemma ReserveKeepsIdAt(s: State, s': State, k: Bytes, session: Session, offset: uint64, count: uint64,
                         ranges: seq<IDRange>, o: nat)
    requires WellFormed(s) && WellFormed(s') && Reserved(s, s', k, session, offset, count, ranges)
    requires HeldBy(s, k).offset <= offset < MAX_U64
    ensures KeepsIdAt(HeldBy(s, k), HeldBy(s', k), o)
  {
    var r, rolled := HeldBy(s, k), Reservation(Kept(s, k, offset), offset, session);
    assert rolled.ranges == DropIds(r.ranges, offset - r.offset);
    AdvanceKeepsIdAt(r, rolled, o);
    if Total(rolled.ranges) < count {
      ExtendKeepsIdAt(rolled, s'.res[k], count, FreeList(s), s'.avail.value, o);
    }
  }

  /** The ID at an offset survives one call, while the offset is not passed. */
  lemma StepKeepsIdAt(s: State, op: Op, s': State, key: Bytes, o: nat)
    requires WellFormed(s) && WellFormed(s') && Step(s, op, s') && op != DoReset
    requires Controlled(s, key) && Controlled(s', key)
    ensures KeepsIdAt(HeldBy(s, EntryOf(key)), HeldBy(s', EntryOf(key)), o)
  {
    if op.DoReserve? && op.key == key {
      ReserveKeepsIdAt(s, s', EntryOf(key), op.session, op.offset, op.count, op.ranges, o);
    } else if op.DoCommit? && op.key == key {
      AdvanceKeepsIdAt(s.res[EntryOf(key)], s'.res[EntryOf(key)], o);
    } else {
      if op.DoReserve? || op.DoCommit? {
        EntriesDiffer(key, op.key);
      }
      assert HeldBy(s', EntryOf(key)) == HeldBy(s, EntryOf(key));
    }
  }

  ghost predicate ControlledBetween(states: seq<State>, key: Bytes, i: nat, j: nat)
    requires i <= j < |states|
  {
    forall m :: i <= m <= j ==> Controlled(states[m], key)
  }

  /** Over any run, the ID of a message offset never changes while the offset
      stays at or above the reservation's base. */
  lemma {:induction false} IdOfOffsetIsStable(states: seq<State>, ops: seq<Op>, key: Bytes, i: nat, j: nat, o: nat)
    requires Run(states, ops) && i <= j < |states| && NoResetBetween(ops, i, j)
    requires ControlledBetween(states, key, i, j)
    ensures AllForward(HeldBy(states[i], EntryOf(key)).ranges) && AllForward(HeldBy(states[j], EntryOf(key)).ranges)
    ensures KeepsIdAt(HeldBy(states[i], EntryOf(key)), HeldBy(states[j], EntryOf(key)), o)
    decreases j
  {
    hide Step, Sum, FlatAt, Owned;
    EveryIdHasOneOwner(states, ops, i);
    EveryIdHasOneOwner(states, ops, j);
    if i < j {
      EveryIdHasOneOwner(states, ops, j - 1);
      StepKeepsIdAt(states[j - 1], ops[j - 1], states[j], key, o);
      IdOfOffsetIsStable(states, ops, key, i, j - 1, o);
    }
  }

  /** Asking again for the same offset and count, in any session, cannot fail,
      returns the same ranges and takes nothing further from the list. */
  lemma RepeatIsIdempotent(s: State, s': State, s'': State, k: Bytes, session: Session, again: Session,
                           offset: uint64, count: uint64, ranges: seq<IDRange>, ranges': seq<IDRange>)
    requires WellFormed(s) && WellFormed(s') && again != NO_SESSION
    requires Reserved(s, s', k, session, offset, count, ranges)
    ensures ReserveError(s', k, again, offset, count).None?
    ensures Reserved(s', s'', k, again, offset, count, ranges') ==>
              && ranges' == ranges && Total(ranges) == count
              && s'' == s'.(res := s'.res[k := s'.res[k].(lock := again)])
  {
    hide Sum, Extends, TakenFrom, AllForward, IdsOf;
    ReserveKeepsForward(s, s', k, session, offset, count, ranges);
    var held := s'.res[k].ranges;
    HeldCovers(s, s', k, session, offset, count, ranges);
    DropNone(held);
    assert Kept(s', k, offset) == held;
    if Reserved(s', s'', k, again, offset, count, ranges') {
      NothingTaken(held);
      assert s''.retired == s'.retired;
    }
  }

  /** What is handed out are the first IDs of what is held. */
  lemma HeldCovers(s: State, s': State, k: Bytes, session: Session, offset: uint64, count: uint64,
                   ranges: seq<IDRange>)
    requires WellFormed(s) && WellFormed(s') && Reserved(s, s', k, session, offset, count, ranges)
    ensures AllForward(s'.res[k].ranges) && count <= Total(s'.res[k].ranges)
    ensures ranges == TakeIds(s'.res[k].ranges, count)
  {
    ReserveKeepsForward(s, s', k, session, offset, count, ranges);
    if Total(Kept(s, k, offset)) < count {
      TakeAll(ranges, count);
    }
  }

  lemma NothingTaken(rs: seq<IDRange>)
    requires AllForward(rs)
    ensures IdsOf(TakeIds(rs, 0)) == iset{}
  {
  }

  lemma {:induction false} TakeAll(rs: seq<IDRange>, n: nat)
    requires AllForward(rs) && n == Total(rs)
    ensures TakeIds(rs, n) == rs
  {
    if rs != [] {
      TakeAll(rs[1..], n - Size(rs[0]));
    }
  }
}
