// What the ID allocator answers, told from the calls made before alone
// (idalloc.go): who may commit, which calls are refused and how, and where the
// handed-out IDs go.
module IdAllocHistory {
  import opened Bits
  import opened IdAllocRuns
  import opened IdAllocSpec
  import opened IdCodec
  import opened IdRanges
  import opened Options

  // ----- The account of a key -----

  /** What the calls so far left of a key's reservation: the session that used it
      last, the offset of its first ID, and how many IDs it holds. */
  datatype Account = Closed | Open(session: Session, base: nat, held: nat)

  function BaseOf(a: Account): nat {
    if a.Open? then a.base else 0
  }

  function HeldOf(a: Account): nat {
    if a.Open? then a.held else 0
  }

  function Minus(a: nat, b: nat): nat {
    if a < b then 0 else a - b
  }

  /** How many held IDs a reservation at `offset` keeps. */
  function Remaining(a: Account, offset: nat): nat {
    if offset == MAX_U64 then HeldOf(a) else Minus(HeldOf(a), Minus(offset, BaseOf(a)))
  }

  /** A successful call for the key moves its account; a reset closes it. */
  function Booking(was: Account, op: Op, key: Bytes): Account {
    if op.DoReset? then Closed
    else if op.DoReserve? && op.key == key then
      var kept := Remaining(was, op.offset);
      Open(op.session, op.offset, if kept < op.count then op.count else kept)
    else if op.DoCommit? && op.key == key then
      if BaseOf(was) == MAX_U64 then Closed
      else Open(op.session, BaseOf(was) + op.count, Minus(HeldOf(was), op.count))
    else was
  }

  function AccountOf(ops: seq<Op>, key: Bytes): Account {
    if ops == [] then Closed else Booking(AccountOf(ops[..|ops| - 1], key), ops[|ops| - 1], key)
  }

  /** A successful call for the key. */
  predicate Touches(op: Op, key: Bytes) {
    (op.DoReserve? || op.DoCommit?) && op.key == key
  }

  /** The state agrees with the account. */
  ghost predicate Booked(s: State, key: Bytes, a: Account) {
    && (EntryOf(key) in s.res <==> a.Open?)
    && AllForward(HeldBy(s, EntryOf(key)).ranges)
    && HeldBy(s, EntryOf(key)).offset == BaseOf(a)
    && Total(HeldBy(s, EntryOf(key)).ranges) == HeldOf(a)
    && (a.Open? ==> HeldBy(s, EntryOf(key)).lock == a.session)
  }

  lemma KeptIsRemaining(s: State, key: Bytes, offset: uint64, a: Account)
    requires Booked(s, key, a)
    ensures Total(Kept(s, EntryOf(key), offset)) == Remaining(a, offset)
  {
    DropShifts(HeldBy(s, EntryOf(key)).ranges, Skip(HeldBy(s, EntryOf(key)), offset));
  }

  lemma ReserveBooks(s: State, op: Op, s': State, key: Bytes, a: Account)
    requires WellFormed(s) && Step(s, op, s') && Booked(s, key, a) && op.DoReserve? && op.key == key
    ensures Booked(s', key, Booking(a, op, key))
  {
    hide DropIds, TakeIds;
    var DoReserve(_, session, offset, count, ranges) := op;
    var k := EntryOf(key);
    KeptIsRemaining(s, key, offset, a);
    ReserveKeepsForward(s, s', k, session, offset, count, ranges);
    assert AllForward(s'.res[k].ranges);
    if Total(Kept(s, k, offset)) < count {
      ExtendConserves(Kept(s, k, offset), ranges, count, FreeList(s), s'.avail.value, 0);
    }
  }

  lemma CommitBooks(s: State, op: Op, s': State, key: Bytes, a: Account)
    requires WellFormed(s) && Step(s, op, s') && Booked(s, key, a) && op.DoCommit? && op.key == key
    ensures Booked(s', key, Booking(a, op, key))
  {
    DropShifts(s.res[EntryOf(key)].ranges, op.count);
  }

  lemma OthersBooked(s: State, op: Op, s': State, key: Bytes, a: Account)
    requires Step(s, op, s') && Booked(s, key, a) && !op.DoReset? && !Touches(op, key)
    ensures Booked(s', key, a)
  {
    if op.DoReserve? || op.DoCommit? {
      EntriesDiffer(key, op.key);
    }
    assert HeldBy(s', EntryOf(key)) == HeldBy(s, EntryOf(key));
  }

  lemma StepBooks(s: State, op: Op, s': State, key: Bytes, a: Account)
    requires WellFormed(s) && Step(s, op, s') && Booked(s, key, a)
    ensures Booked(s', key, Booking(a, op, key))
  {
    hide Booked, WellFormed, Remaining;
    if op.DoReset? {
      NothingBooked(key);
    } else if !Touches(op, key) {
      OthersBooked(s, op, s', key, a);
    } else if op.DoReserve? {
      ReserveBooks(s, op, s', key, a);
    } else {
      CommitBooks(s, op, s', key, a);
    }
  }

  /** In every run the stored reservations are what the calls so far make them. */
  lemma {:induction false} RunBooks(states: seq<State>, ops: seq<Op>, n: nat, key: Bytes)
    requires Run(states, ops) && n < |states|
    ensures Booked(states[n], key, AccountOf(ops[..n], key))
  {
    hide Booked, Booking, Step, Owned;
    if n == 0 {
      NothingBooked(key);
    } else {
      RunBooks(states, ops, n - 1, key);
      EveryIdHasOneOwner(states, ops, n - 1);
      StepBooks(states[n - 1], ops[n - 1], states[n], key, AccountOf(ops[..n - 1], key));
      assert ops[..n][..n - 1] == ops[..n - 1];
    }
  }

  lemma NothingBooked(key: Bytes)
    ensures Booked(INIT, key, Closed)
  {
  }

  // ----- The outcome of every call -----

  /** Which error a commit reports, if any. */
  ghost predicate CommitAnswers(a: Account, session: Session, count: nat, answer: Option<Error>) {
    && (answer == Some(BrokenSession) <==> session == NO_SESSION)
    && (answer == Some(NothingToCommit) <==> session != NO_SESSION && a.Closed?)
    && (answer == Some(LockCollision) <==> session != NO_SESSION && a.Open? && session != a.session)
    && (answer == Some(OffsetOverflow) <==>
          session != NO_SESSION && a.Open? && session == a.session && a.base != MAX_U64 && a.base + count >= MAX_U64)
    && (answer == Some(Overcommitted) <==>
          && session != NO_SESSION && a.Open? && session == a.session
          && (a.base == MAX_U64 || a.base + count < MAX_U64) && a.held < count)
    && (answer == None <==>
          && session != NO_SESSION && a.Open? && session == a.session
          && (a.base == MAX_U64 || a.base + count < MAX_U64) && count <= a.held)
  }

  /** Which error a reservation reports, if any, with `free` unreserved IDs. */
  ghost predicate ReserveAnswers(a: Account, free: nat, session: Session, offset: uint64, count: uint64,
                                 answer: Option<Error>) {
    var desync := offset != MAX_U64 && offset < BaseOf(a);
    var missing := count - Remaining(a, offset) - free;
    && (answer == Some(BrokenSession) <==> session == NO_SESSION)
    && (session != NO_SESSION ==>
          && (desync ==> answer.Some? && answer.value.OffsetDesync?
                         && answer.value.requested == offset && answer.value.base == BaseOf(a))
          && (!desync && missing > 0 ==> answer == Some(InsufficientIDs(missing)))
          && (!desync && missing <= 0 ==> answer == None))
  }

  function AnswerOf(op: Op): Option<Error> {
    match op
    case RefusedReserve(key, session, offset, count, error) => Some(error)
    case RefusedCommit(key, session, count, error) => Some(error)
    case _ => None
  }

  /** A commit succeeds, or reports each error, exactly as the calls before say. */
  lemma CommitOutcome(states: seq<State>, ops: seq<Op>, n: nat)
    requires Run(states, ops) && n < |ops| && (ops[n].DoCommit? || ops[n].RefusedCommit?)
    ensures CommitAnswers(AccountOf(ops[..n], ops[n].key), ops[n].session, ops[n].count, AnswerOf(ops[n]))
  {
    hide AccountOf, Committed;
    RunBooks(states, ops, n, ops[n].key);
    assert Step(states[n], ops[n], states[n + 1]);
  }

  /** A reservation succeeds, or reports each error, exactly as the calls before
      and the number of unreserved IDs say. */
  lemma ReserveOutcome(states: seq<State>, ops: seq<Op>, n: nat)
    requires Run(states, ops) && n < |ops| && (ops[n].DoReserve? || ops[n].RefusedReserve?)
    ensures ReserveAnswers(AccountOf(ops[..n], ops[n].key), Total(FreeList(states[n])), ops[n].session, ops[n].offset,
                           ops[n].count, AnswerOf(ops[n]))
  {
    hide AccountOf, Reserved, Remaining;
    var a := AccountOf(ops[..n], ops[n].key);
    RunBooks(states, ops, n, ops[n].key);
    KeptIsRemaining(states[n], ops[n].key, ops[n].offset, a);
    assert Step(states[n], ops[n], states[n + 1]);
  }

  // ----- Who may commit -----

  /** Call j is the latest successful one for the key before call n, with no
      reset in between. */
  ghost predicate Latest(ops: seq<Op>, n: nat, key: Bytes, j: nat)
    requires n <= |ops|
  {
    j < n && Touches(ops[j], key) && forall m :: j < m < n ==> !Touches(ops[m], key) && !ops[m].DoReset?
  }

  /** An open account belongs to the session of the latest call. */
  lemma {:induction false} SessionOfLatest(ops: seq<Op>, n: nat, key: Bytes)
    requires n <= |ops| && AccountOf(ops[..n], key).Open?
    ensures exists j: nat :: Latest(ops, n, key, j) && ops[j].session == AccountOf(ops[..n], key).session
  {
    hide Remaining;
    assert ops[..n][..n - 1] == ops[..n - 1];
    if Touches(ops[n - 1], key) {
      assert Latest(ops, n, key, n - 1);
    } else {
      SessionOfLatest(ops, n - 1, key);
      var j: nat :| Latest(ops, n - 1, key, j) && ops[j].session == AccountOf(ops[..n - 1], key).session;
      assert Latest(ops, n, key, j);
    }
  }

  /** Only the session of the latest successful call for the key may commit. */
  lemma CommitsBySameSession(states: seq<State>, ops: seq<Op>, n: nat)
    requires Run(states, ops) && n < |ops| && ops[n].DoCommit?
    ensures exists j: nat :: Latest(ops, n, ops[n].key, j) && ops[j].session == ops[n].session
  {
    CommitOutcome(states, ops, n);
    SessionOfLatest(ops, n, ops[n].key);
  }

  /** Why a commit is refused, in terms of the calls before it: the session is
      missing; nothing is open for the key; the latest call was another
      session's; the offset would run over; more is committed than held. */
  lemma CommitRefusedWhy(states: seq<State>, ops: seq<Op>, n: nat)
    requires Run(states, ops) && n < |ops| && ops[n].RefusedCommit?
    ensures var a := AccountOf(ops[..n], ops[n].key);
            match ops[n].error
            case BrokenSession => ops[n].session == NO_SESSION
            case NothingToCommit => a.Closed?
            case LockCollision => exists j: nat :: Latest(ops, n, ops[n].key, j) && ops[j].session != ops[n].session
            case OffsetOverflow => a.Open? && a.base != MAX_U64 && a.base + ops[n].count > MAX_U64 - 1
            case Overcommitted => a.Open? && ops[n].count > a.held
            case _ => false
  {
    CommitOutcome(states, ops, n);
    if AccountOf(ops[..n], ops[n].key).Open? {
      SessionOfLatest(ops, n, ops[n].key);
    }
    KnownErrors(states, ops, n);
  }

  lemma KnownErrors(states: seq<State>, ops: seq<Op>, n: nat)
    requires Run(states, ops) && n < |ops| && ops[n].RefusedCommit?
    ensures ops[n].error in {BrokenSession, NothingToCommit, LockCollision, OffsetOverflow, Overcommitted}
  {
    assert Step(states[n], ops[n], states[n + 1]);
  }

  // ----- Where handed-out IDs go -----

  /** The client is given the first IDs of what is then reserved for it. */
  lemma HandsOutTheFirst(states: seq<State>, ops: seq<Op>, n: nat, p: nat)
    requires Run(states, ops) && n < |ops| && ops[n].DoReserve? && p < ops[n].count
    ensures AllForward(ops[n].ranges) && Total(ops[n].ranges) == ops[n].count
    ensures var held := HeldBy(states[n + 1], EntryOf(ops[n].key)).ranges;
            AllForward(held) && p < Total(held) && FlatAt(ops[n].ranges, p) == FlatAt(held, p)
  {
    hide FlatAt, Sum, DropIds, TakeIds, Extends;
    EveryIdHasOneOwner(states, ops, n);
    EveryIdHasOneOwner(states, ops, n + 1);
    var s, s' := states[n], states[n + 1];
    var DoReserve(key, session, offset, count, ranges) := ops[n];
    var k := EntryOf(key);
    assert Step(s, ops[n], s');
    ReserveKeepsForward(s, s', k, session, offset, count, ranges);
    if Total(Kept(s, k, offset)) >= count {
      TakeKeeps(Kept(s, k, offset), count);
    }
  }

  /** A commit retires exactly the first IDs of the reservation. */
  lemma CommitRetiresTheFirst(states: seq<State>, ops: seq<Op>, n: nat, id: int)
    requires Run(states, ops) && n < |ops| && ops[n].DoCommit?
    ensures var held := HeldBy(states[n], EntryOf(ops[n].key)).ranges;
            && AllForward(held) && ops[n].count <= Total(held)
            && (id in states[n + 1].retired <==>
                  id in states[n].retired || Listed(held, ops[n].count, id))
  {
    hide FlatAt, Sum, DropIds, TakeIds, AccountOf;
    EveryIdHasOneOwner(states, ops, n);
    RunBooks(states, ops, n, ops[n].key);
    CommitOutcome(states, ops, n);
    assert Step(states[n], ops[n], states[n + 1]);
    var held, count := HeldBy(states[n], EntryOf(ops[n].key)).ranges, ops[n].count;
    TakeKeeps(held, count);
    InFlat(TakeIds(held, count), id);
    forall p: nat | p < count
      ensures FlatAt(TakeIds(held, count), p) == FlatAt(held, p)
    {
    }
    assert Listed(TakeIds(held, count), count, id) <==> Listed(held, count, id);
  }

  /** The ID is among the first n of the list. */
  ghost predicate Listed(rs: seq<IDRange>, n: nat, id: int)
    requires AllForward(rs) && n <= Total(rs)
  {
    exists p: nat :: p < n && FlatAt(rs, p) == id
  }

  /** A list lists an ID exactly at some position. */
  lemma {:induction false} InFlat(rs: seq<IDRange>, id: int)
    requires AllForward(rs)
    ensures Occ(rs, id) > 0 <==> Listed(rs, Total(rs), id)
  {
    if rs != [] {
      var tail, size := rs[1..], Size(rs[0]);
      InFlat(tail, id);
      if Hit(id)(rs[0]) > 0 {
        var p: nat := id - rs[0].First;
        assert p < Total(rs) && FlatAt(rs, p) == id;
      } else if Listed(tail, Total(tail), id) {
        var p: nat :| p < Total(tail) && FlatAt(tail, p) == id;
        assert p + size < Total(rs) && FlatAt(rs, p + size) == id;
      } else {
        forall p: nat | p < Total(rs)
          ensures FlatAt(rs, p) != id
        {
          assert p >= size ==> FlatAt(rs, p) == FlatAt(tail, p - size);
        }
      }
    }
  }

  /** The key holds the ID, or it is retired. */
  ghost predicate KeptOrRetired(s: State, key: Bytes, id: int) {
    Occ(HeldBy(s, EntryOf(key)).ranges, id) > 0 || id in s.retired
  }

  lemma StepKeepsOrRetires(s: State, op: Op, s': State, key: Bytes, id: int)
    requires Inv(s) && Step(s, op, s') && !op.DoReset? && (op.DoCommit? ==> op.key != key)
    requires KeptOrRetired(s, key, id)
    ensures KeptOrRetired(s', key, id)
  {
    hide Sum, DropIds, TakeIds, Extends;
    if op.DoReserve? && op.key == key {
      var r := HeldBy(s, EntryOf(key));
      var added := ReserveShares(s, s', EntryOf(key), op.session, op.offset, op.count, op.ranges, id);
      TakeDropOcc(r.ranges, Skip(r, op.offset), id);
    } else if op.DoReserve? || op.DoCommit? {
      EntriesDiffer(key, op.key);
    }
  }

  lemma {:induction false} KeepsOrRetires(states: seq<State>, ops: seq<Op>, i: nat, j: nat, key: Bytes, id: int)
    requires Run(states, ops) && i <= j < |states| && NoResetBetween(ops, i, j)
    requires forall m :: i <= m < j && ops[m].DoCommit? ==> ops[m].key != key
    requires KeptOrRetired(states[i], key, id)
    ensures KeptOrRetired(states[j], key, id)
    decreases j
  {
    hide KeptOrRetired, Step;
    if i < j {
      KeepsOrRetires(states, ops, i, j - 1, key, id);
      EveryIdHasOneOwner(states, ops, j - 1);
      StepKeepsOrRetires(states[j - 1], ops[j - 1], states[j], key, id);
    }
  }

  /** The same ID is handed to two client keys only if the first one committed in
      between, or the index was reset. */
  lemma SharedOnlyAfterCommit(states: seq<State>, ops: seq<Op>, i: nat, j: nat, id: int)
    requires Run(states, ops) && i < j < |ops| && ops[i].DoReserve? && ops[j].DoReserve?
    requires ops[i].key != ops[j].key && Occ(ops[i].ranges, id) > 0 && Occ(ops[j].ranges, id) > 0
    ensures exists m :: i < m < j && (ops[m].DoReset? || (ops[m].DoCommit? && ops[m].key == ops[i].key))
  {
    hide Step;
    if forall m :: i < m < j ==> !ops[m].DoReset? && (ops[m].DoCommit? ==> ops[m].key != ops[i].key) {
      HandedOutToOneKey(states, ops, i, ops[j].key, id);
      KeepsOrRetires(states, ops, i + 1, j, ops[i].key, id);
      Handed(states, ops, j, id);
      HandedOutToOneKey(states, ops, j, ops[i].key, id);
      var op := ops[j];
      assert Step(states[j], op, states[j + 1]);
      EveryIdHasOneOwner(states, ops, j);
      StepKeepsOrRetires(states[j], op, states[j + 1], ops[i].key, id);
    }
  }

  lemma Handed(states: seq<State>, ops: seq<Op>, j: nat, id: int)
    requires Run(states, ops) && j < |ops| && ops[j].DoReserve? && Occ(ops[j].ranges, id) > 0
    ensures id !in states[j + 1].retired
  {
    EveryIdHasOneOwner(states, ops, j);
    assert Owned(states[j], id);
    var DoReserve(key, session, offset, count, ranges) := ops[j];
    ReserveMovesOwner(states[j], states[j + 1], EntryOf(key), session, offset, count, ranges, id);
    assert Share(states[j + 1], Retired, id) == 0;
  }
}
