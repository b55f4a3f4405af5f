// The ID allocator itself: buckets of encoded entries, rewritten by atomic
// updates (idalloc.go).  A failing update leaves the store as it was.
module IdAllocator {
  import opened Bits
  import opened IdAllocHistory
  import opened IdAllocRuns
  import opened IdAllocSpec
  import opened IdCodec
  import opened IdRanges
  import opened Options

  type Bucket = map<Bytes, Bytes>

  function Get(bkt: Bucket, k: Bytes): Option<Bytes> {
    if k in bkt then Some(bkt[k]) else None
  }

  /** The bucket stores exactly this state (history aside). */
  ghost predicate Represents(bkt: Bucket, s: State) {
    && AVAIL !in s.res
    && bkt.Keys == s.res.Keys + (if s.avail.Some? then {AVAIL} else {})
    && (s.avail.Some? ==> bkt[AVAIL] == RangesImage(s.avail.value))
    && forall k :: k in s.res ==> bkt[k] == ReservationImage(s.res[k])
  }

  lemma EmptyBucket()
    ensures Represents(map[], INIT)
  {
  }

  /** Discards the first n IDs of a list; `left` IDs could not be discarded. */
  method DropFirst(ranges: seq<IDRange>, n: uint64) returns (rest: seq<IDRange>, left: uint64)
    requires AllForward(ranges)
    ensures rest == DropIds(ranges, n)
    ensures left == if n <= Total(ranges) then 0 else n - Total(ranges)
  {
    rest, left := ranges, n;
    while left > 0 && |rest| > 0
      invariant AllForward(rest)
      invariant DropIds(rest, left) == DropIds(ranges, n)
      invariant Total(rest) - left == Total(ranges) - n
    {
      var w := rest[0].Width();
      if left - 1 < w {
        rest := [IDRange(rest[0].First + left, rest[0].Last)] + rest[1..];
        return rest, 0;
      }
      left := left - (w + 1);
      rest := rest[1..];
    }
  }

  /** Counts the IDs of a list, unless there are 2^64 or more. */
  method CountIDs(ranges: seq<IDRange>) returns (r: Option<uint64>)
    requires AllForward(ranges)
    ensures r == if Total(ranges) < U64 then Some(Total(ranges)) else None
  {
    var sum: uint64 := 0;
    for i := 0 to |ranges|
      invariant sum == Total(ranges[..i])
    {
      assert ranges == ranges[..i] + [ranges[i]] + ranges[i + 1..];
      SumConcat(Size, ranges[..i] + [ranges[i]], ranges[i + 1..]);
      SumConcat(Size, ranges[..i], [ranges[i]]);
      SumOne(Size, ranges[i]);
      assert ranges[..i + 1] == ranges[..i] + [ranges[i]];
      if sum + ranges[i].Width() + 1 >= U64 {
        return None;
      }
      sum := sum + ranges[i].Width() + 1;
    }
    assert ranges[..|ranges|] == ranges;
    r := Some(sum);
  }

  /** The first n IDs of a list. */
  method TakeFirst(ranges: seq<IDRange>, n: uint64) returns (taken: seq<IDRange>)
    requires AllForward(ranges)
    ensures taken == TakeIds(ranges, n)
  {
    var left := n;
    taken := [];
    for i := 0 to |ranges|
      invariant 0 <= left < U64
      invariant TakeIds(ranges, n) == taken + TakeIds(ranges[i..], left)
    {
      if left == 0 {
        return;
      }
      var r := ranges[i];
      assert ranges[i..][1..] == ranges[i + 1..];
      if left - 1 < r.Width() {
        taken := taken + [IDRange(r.First, r.First + left - 1)];
        return;
      }
      taken := taken + [r];
      left := left - (r.Width() + 1);
    }
  }

  /** Takes IDs from the stored central list, or from all IDs if there is none
      yet, and stores what is left. */
  method DoReserveIDs(bkt: Bucket, count: uint64,
                      ghost s: State) returns (r: Result<seq<IDRange>>, bkt': Bucket, ghost left: seq<IDRange>)
    requires Represents(bkt, s) && WellFormed(s)
    ensures count > Total(FreeList(s)) ==> r == Err(InsufficientIDs(count - Total(FreeList(s))))
    ensures count <= Total(FreeList(s)) ==>
              && r.Ok? && Total(r.value) == count && AllForward(left)
              && TakenFrom(FreeList(s), r.value, left)
              && bkt' == bkt[AVAIL := RangesImage(left)]
  {
    bkt', left := bkt, [];
    var list := [IDRange(1, MAX_U64)];
    if AVAIL in bkt {
      var d := DecodeRanges(bkt[AVAIL]);
      assert AllForward(s.avail.value);
      RangesImageInjective(d.value, s.avail.value);
      list := d.value;
    }
    assert list == FreeList(s);
    var avail := new IDRange[|list|](i requires 0 <= i < |list| => list[i]);
    assert avail[..] == list;
    var ok, reserved, n, missing, whole := ReserveIDs(avail, count);
    if !ok {
      return Err(InsufficientIDs(missing)), bkt, [];
    }
    left := avail[..n];
    ReserveConserves(list, reserved, whole, left, 0);
    var encoded := EncodeRanges(avail[..n]);
    bkt' := bkt[AVAIL := encoded.value];
    r := Ok(reserved);
  }

  /** Returns ranges to the stored central list. */
  method DoReleaseIDs(bkt: Bucket, ranges: seq<IDRange>,
                      ghost s: State) returns (r: Result<Bucket>, ghost joined: seq<IDRange>)
    requires Represents(bkt, s) && WellFormed(s) && AllForward(ranges)
    ensures s.avail.None? ==> r == Err(NoAvailableList)
    ensures s.avail.Some? && !NoDuplicates(s.avail.value + ranges) ==> r == Err(UnexpectedOverlap)
    ensures s.avail.Some? && NoDuplicates(s.avail.value + ranges) ==>
              && NormalForm(joined) && Joins(joined, s.avail.value, ranges)
              && r == Ok(bkt[AVAIL := RangesImage(joined)])
  {
    joined := [];
    if AVAIL !in bkt {
      return Err(NoAvailableList), [];
    }
    var d := DecodeRanges(bkt[AVAIL]);
    assert AllForward(s.avail.value);
    RangesImageInjective(d.value, s.avail.value);
    var merged := MergeIDs(d.value, ranges);
    if merged.None? {
      return Err(UnexpectedOverlap), [];
    }
    joined := merged.value;
    forall id ensures Occ(joined, id) == Occ(s.avail.value, id) + Occ(ranges, id) {
      SumConcat(Hit(id), s.avail.value, ranges);
    }
    var encoded := EncodeRanges(merged.value);
    r := Ok(bkt[AVAIL := encoded.value]);
  }

  /** Reads a key's stored reservation. */
  method Fetch(bkt: Bucket, k: Bytes, ghost s: State) returns (res: Reservation)
    requires Represents(bkt, s) && WellFormed(s) && k != AVAIL
    ensures res == HeldBy(s, k) && AllForward(HeldBy(s, k).ranges)
    ensures k in bkt <==> k in s.res
  {
    var d := DecodeReservation(Get(bkt, k));
    if k in s.res {
      assert AllForward(s.res[k].ranges);
      ReservationImageInjective(d.value, s.res[k]);
    }
    res := d.value;
  }

  lemma StoreReservation(bkt: Bucket, s: State, k: Bytes, res: Reservation, retired: iset<int>)
    requires Represents(bkt, s) && k != AVAIL
    ensures Represents(bkt[k := ReservationImage(res)], State(s.avail, s.res[k := res], retired))
  {
  }

  /** Brings the kept ranges up to `count` IDs: `handed` goes to the client,
      `held` into the reservation, `avail` is the central list afterwards. */
  method FillUp(bkt: Bucket, kept: seq<IDRange>, count: uint64, ghost s: State)
    returns (handed: Result<seq<IDRange>>, held: seq<IDRange>, bkt': Bucket, ghost avail: Option<seq<IDRange>>)
    requires Represents(bkt, s) && WellFormed(s) && AllForward(kept) && Total(kept) < U64
    ensures Total(kept) + Total(FreeList(s)) < count ==>
              handed == Err(InsufficientIDs(count - Total(kept) - Total(FreeList(s))))
    ensures count <= Total(kept) ==>
              handed == Ok(TakeIds(kept, count)) && held == kept && avail == s.avail && bkt' == bkt
    ensures Total(kept) < count <= Total(kept) + Total(FreeList(s)) ==>
              && handed == Ok(held) && avail.Some? && AllForward(held)
              && Extends(kept, held, count, FreeList(s), avail.value)
              && bkt' == bkt[AVAIL := RangesImage(avail.value)]
  {
    held, bkt', avail := kept, bkt, s.avail;
    var counted := CountIDs(kept);
    var preReserved := counted.value;
    if preReserved == count {
      TakeAll(kept, count);
      handed := Ok(kept);
    } else if preReserved > count {
      var prefix := TakeFirst(kept, count);
      handed := Ok(prefix);
    } else {
      var more, b, left := DoReserveIDs(bkt, count - preReserved, s);
      if more.Err? {
        return Err(more.error), kept, bkt, s.avail;
      }
      bkt', avail, held := b, Some(left), kept + more.value;
      assert held[|kept|..] == more.value;
      ExtendConserves(kept, held, count, FreeList(s), left, 0);
      handed := Ok(held);
    }
  }

  lemma StoreList(bkt: Bucket, s: State, list: seq<IDRange>)
    requires Represents(bkt, s)
    ensures Represents(bkt[AVAIL := RangesImage(list)], s.(avail := Some(list)))
  {
  }

  /** What the update stores is a successful reservation. */
  lemma ReserveStores(s: State, k: Bytes, session: Session, offset: uint64, count: uint64,
                      handed: seq<IDRange>, held: seq<IDRange>, avail: Option<seq<IDRange>>)
    requires AllForward(HeldBy(s, k).ranges)
    requires count <= Total(Kept(s, k, offset)) ==>
               handed == TakeIds(Kept(s, k, offset), count) && held == Kept(s, k, offset) && avail == s.avail
    requires Total(Kept(s, k, offset)) < count ==>
               handed == held && avail.Some? && Extends(Kept(s, k, offset), held, count, FreeList(s), avail.value)
    ensures Reserved(s, AfterReserve(s, k, session, offset, held, avail), k, session, offset, count, handed)
  {
    hide Sum, DropIds, TakeIds, Extends;
  }

  ghost function AfterReserve(s: State, k: Bytes, session: Session, offset: uint64, held: seq<IDRange>,
                              avail: Option<seq<IDRange>>): State
    requires AllForward(HeldBy(s, k).ranges)
  {
    State(avail, s.res[k := Reservation(held, offset, session)],
          s.retired + IdsOf(TakeIds(HeldBy(s, k).ranges, Skip(HeldBy(s, k), offset))))
  }

  /** The reservation inside one update: the bucket it would store. */
  method ReserveTx(bkt: Bucket, k: Bytes, session: Session, offset: uint64, count: uint64, ghost s: State)
    returns (r: Result<seq<IDRange>>, bkt': Bucket, ghost s': State)
    requires Represents(bkt, s) && Inv(s) && k != AVAIL && session != NO_SESSION
    ensures ReserveError(s, k, session, offset, count).Some? ==>
              r == Err(ReserveError(s, k, session, offset, count).value)
    ensures ReserveError(s, k, session, offset, count).Some? ==> s' == s
    ensures ReserveError(s, k, session, offset, count).None? ==>
              r.Ok? && Represents(bkt', s') && Reserved(s, s', k, session, offset, count, r.value)
  {
    hide Sum, DropIds, TakeIds, Owned, Reserved, Extends, Represents, AllForward;
    bkt', s' := bkt, s;
    var res := Fetch(bkt, k, s);
    var kept := res.ranges;
    if offset != MAX_U64 && offset != res.offset {
      if offset < res.offset {
        return Err(OffsetDesync(offset, res.offset)), bkt, s;
      }
      var rolled, excess := DropFirst(res.ranges, offset - res.offset);
      kept := rolled;
    }
    DropNone(res.ranges);
    assert kept == Kept(s, k, offset);
    KeptBelow2To64(s, k, Skip(res, offset));
    var handed, held, b, avail := FillUp(bkt, kept, count, s);
    if handed.Err? {
      return handed, bkt, s;
    }
    if Total(kept) < count {
      StoreList(bkt, s, avail.value);
    }
    var entry := Reservation(held, offset, session);
    var encoded := EncodeReservation(entry);
    s' := AfterReserve(s, k, session, offset, held, avail);
    StoreReservation(b, s.(avail := avail), k, entry, s'.retired);
    ReserveStores(s, k, session, offset, count, handed.value, held, avail);
    bkt' := b[k := encoded.value];
    r := handed;
  }

  lemma DeleteReservation(bkt: Bucket, s: State, k: Bytes, retired: iset<int>)
    requires Represents(bkt, s) && k != AVAIL
    ensures Represents(bkt - {k}, State(s.avail, s.res - {k}, retired))
  {
    assert (bkt - {k}).Keys == bkt.Keys - {k};
    assert (s.res - {k}).Keys == s.res.Keys - {k};
  }

  /** Ends a reservation without offset control: what is left returns to the
      central list and the entry is deleted. */
  method EndReservation(bkt: Bucket, k: Bytes, count: uint64, rest: seq<IDRange>, ghost s: State,
                        ghost retired: iset<int>)
    returns (bkt': Bucket, ghost s': State)
    requires Represents(bkt, s) && Inv(s) && k in s.res
    requires rest == DropIds(s.res[k].ranges, count)
    ensures Represents(bkt', s')
    ensures s'.res == s.res - {k} && s'.retired == retired
    ensures Released(FreeList(s), rest, s.avail, s'.avail)
  {
    bkt' := bkt;
    ghost var avail := s.avail;
    if |rest| > 0 {
      ReleaseIsSafe(s, k, count);
      var released, joined := DoReleaseIDs(bkt, rest, s);
      bkt', avail := released.value, Some(joined);
      StoreList(bkt, s, joined);
    }
    DeleteReservation(bkt', s.(avail := avail), k, retired);
    bkt' := bkt' - {k};
    s' := State(avail, s.res - {k}, retired);
  }

  ghost function AfterCommit(s: State, k: Bytes, session: Session, count: uint64): State
    requires k in s.res && AllForward(s.res[k].ranges) && s.res[k].offset + count < MAX_U64
  {
    State(s.avail, s.res[k := Reservation(DropIds(s.res[k].ranges, count), s.res[k].offset + count, session)],
          s.retired + IdsOf(TakeIds(s.res[k].ranges, count)))
  }

  /** The commit inside one update. */
  method CommitTx(bkt: Bucket, k: Bytes, session: Session, count: uint64, ghost s: State)
    returns (r: Result<Bucket>, ghost s': State)
    requires Represents(bkt, s) && Inv(s) && k != AVAIL && session != NO_SESSION
    ensures CommitError(s, k, session, count).Some? ==> r == Err(CommitError(s, k, session, count).value)
    ensures CommitError(s, k, session, count).Some? ==> s' == s
    ensures CommitError(s, k, session, count).None? ==>
              r.Ok? && Represents(r.value, s') && Committed(s, s', k, session, count)
  {
    hide Sum, DropIds, TakeIds, Owned, Released, Represents, AllForward;
    s' := s;
    var res := Fetch(bkt, k, s);
    if k !in bkt {
      return Err(NothingToCommit), s;
    }
    if res.lock != session {
      return Err(LockCollision), s;
    }
    var offset := res.offset;
    if offset != MAX_U64 {
      if count > (MAX_U64 - 1) - offset {
        return Err(OffsetOverflow), s;
      }
      offset := offset + count;
    }
    var ranges, n := DropFirst(res.ranges, count);
    if n > 0 {
      return Err(Overcommitted), s;
    }
    if offset == MAX_U64 {
      var b;
      b, s' := EndReservation(bkt, k, count, ranges, s, s.retired + IdsOf(TakeIds(res.ranges, count)));
      return Ok(b), s';
    }
    var entry := Reservation(ranges, offset, session);
    var encoded := EncodeReservation(entry);
    s' := AfterCommit(s, k, session, count);
    StoreReservation(bkt, s, k, entry, s'.retired);
    r := Ok(bkt[k := encoded.value]);
  }

  datatype IDAllocKey = IDAllocKey(index: Bytes, key: Bytes)

  function ErrorIn<T>(r: Result<T>): Option<Error> {
    if r.Err? then Some(r.error) else None
  }

  /** A reservation with its outcome, as a call of the history. */
  function Reserving(key: Bytes, session: Session, offset: uint64, count: uint64, r: Result<seq<IDRange>>): Op {
    match r
    case Ok(ranges) => DoReserve(key, session, offset, count, ranges)
    case Err(e) => RefusedReserve(key, session, offset, count, e)
  }

  function Committing(key: Bytes, session: Session, count: uint64, r: Result<()>): Op {
    match r
    case Ok(_) => DoCommit(key, session, count)
    case Err(e) => RefusedCommit(key, session, count, e)
  }

  /** The calls made for one index, and the states they led through. */
  datatype Trail = Trail(states: seq<State>, ops: seq<Op>)

  ghost const NO_CALLS := Trail([INIT], [])

  ghost function TrailIn(trails: map<Bytes, Trail>, index: Bytes): Trail {
    if index in trails then trails[index] else NO_CALLS
  }

  function BucketIn(db: map<Bytes, Bucket>, index: Bytes): Bucket {
    if index in db then db[index] else map[]
  }

  /** The calls are a run, and the bucket stores the state it ended in. */
  ghost predicate Tracks(bkt: Bucket, t: Trail) {
    Run(t.states, t.ops) && Represents(bkt, t.states[|t.ops|])
  }

  ghost predicate Stores(db: map<Bytes, Bucket>, trails: map<Bytes, Trail>) {
    forall i :: Tracks(BucketIn(db, i), TrailIn(trails, i))
  }

  lemma NothingStored()
    ensures Stores(map[], map[])
  {
    EmptyBucket();
  }

  lemma TracksAll(db: map<Bytes, Bucket>, trails: map<Bytes, Trail>, index: Bytes)
    requires Stores(db, trails)
    ensures Tracks(BucketIn(db, index), TrailIn(trails, index))
  {
  }

  /** The index is in a state that its calls led to, and every ID has one owner. */
  lemma Current(bkt: Bucket, t: Trail)
    requires Tracks(bkt, t)
    ensures |t.states| == |t.ops| + 1 && Represents(bkt, t.states[|t.ops|]) && Inv(t.states[|t.ops|])
  {
    EveryIdHasOneOwner(t.states, t.ops, |t.ops|);
  }

  lemma ExtendedTracks(bkt: Bucket, t: Trail, op: Op, bkt': Bucket, s: State)
    requires Tracks(bkt, t) && Step(t.states[|t.ops|], op, s) && Represents(bkt', s)
    ensures Tracks(bkt', Trail(t.states + [s], t.ops + [op]))
  {
    hide Step, Represents;
  }

  /** One call more for one index. */
  lemma StoreCall(db: map<Bytes, Bucket>, trails: map<Bytes, Trail>, index: Bytes, db': map<Bytes, Bucket>, t: Trail)
    requires Stores(db, trails) && Tracks(BucketIn(db', index), t)
    requires forall i :: i != index ==> BucketIn(db', i) == BucketIn(db, i)
    ensures Stores(db', trails[index := t])
  {
    hide Tracks;
    forall i ensures Tracks(BucketIn(db', i), TrailIn(trails[index := t], i)) {
      assert Tracks(BucketIn(db, i), TrailIn(trails, i));
    }
  }

  lemma ReserveSteps(s: State, s': State, key: Bytes, session: Session, offset: uint64, count: uint64,
                     r: Result<seq<IDRange>>)
    requires AllForward(HeldBy(s, EntryOf(key)).ranges)
    requires var e := ReserveError(s, EntryOf(key), session, offset, count);
             if e.Some? then r == Err(e.value) && s' == s
             else r.Ok? && Reserved(s, s', EntryOf(key), session, offset, count, r.value)
    ensures Step(s, Reserving(key, session, offset, count, r), s')
  {
    hide Reserved;
  }

  lemma CommitSteps(s: State, s': State, key: Bytes, session: Session, count: uint64, r: Result<()>)
    requires WellFormed(s)
    requires var e := CommitError(s, EntryOf(key), session, count);
             if e.Some? then r == Err(e.value) && s' == s
             else r.Ok? && Committed(s, s', EntryOf(key), session, count)
    ensures Step(s, Committing(key, session, count, r), s')
  {
    hide Committed;
  }

  /** The outcome of a call that joins the history. */
  lemma ReserveAnswered(bkt: Bucket, t: Trail, key: Bytes, session: Session, offset: uint64, count: uint64,
                        r: Result<seq<IDRange>>)
    requires Tracks(bkt, t) && |t.ops| > 0 && t.ops[|t.ops| - 1] == Reserving(key, session, offset, count, r)
    ensures ReserveAnswers(AccountOf(t.ops[..|t.ops| - 1], key), Total(FreeList(t.states[|t.ops| - 1])),
                           session, offset, count, ErrorIn(r))
  {
    hide ReserveAnswers, AccountOf, Represents;
    ReserveOutcome(t.states, t.ops, |t.ops| - 1);
  }

  lemma CommitAnswered(bkt: Bucket, t: Trail, key: Bytes, session: Session, count: uint64, r: Result<()>)
    requires Tracks(bkt, t) && |t.ops| > 0 && t.ops[|t.ops| - 1] == Committing(key, session, count, r)
    ensures CommitAnswers(AccountOf(t.ops[..|t.ops| - 1], key), session, count, ErrorIn(r))
  {
    hide CommitAnswers, AccountOf, Represents;
    CommitOutcome(t.states, t.ops, |t.ops| - 1);
  }

  /** A reservation in a bucket: it goes by the calls before and joins them. */
  method ReserveIn(bkt: Bucket, key: Bytes, session: Session, offset: uint64, count: uint64, ghost t: Trail)
    returns (r: Result<seq<IDRange>>, bkt': Bucket, ghost t': Trail)
    requires Tracks(bkt, t)
    ensures Tracks(bkt', t') && t.states <= t'.states
    ensures t'.ops == t.ops + [Reserving(key, session, offset, count, r)]
    ensures ReserveAnswers(AccountOf(t.ops, key), Total(FreeList(t.states[|t.ops|])), session, offset, count, ErrorIn(r))
    ensures r.Err? ==> bkt' == bkt
  {
    hide *;
    Current(bkt, t);
    EntriesDiffer(key, key);
    ghost var s := t.states[|t.ops|];
    ghost var s' := s;
    Forward(s, EntryOf(key));
    bkt' := bkt;
    if session == NO_SESSION {
      r := Err(BrokenSession);
      NoSession(s, EntryOf(key), offset, count);
    } else {
      var b;
      r, b, s' := ReserveTx(bkt, EntryOf(key), session, offset, count, s);
      bkt' := if r.Ok? then b else bkt;
    }
    ReserveSteps(s, s', key, session, offset, count, r);
    ghost var op := Reserving(key, session, offset, count, r);
    t' := Trail(t.states + [s'], t.ops + [op]);
    ExtendedTracks(bkt, t, op, bkt', s');
    ReserveAnswered(bkt', t', key, session, offset, count, r);
    assert t'.ops[..|t'.ops| - 1] == t.ops && t'.states[|t.ops|] == s;
  }

  lemma Forward(s: State, k: Bytes)
    requires Inv(s)
    ensures WellFormed(s) && AllForward(HeldBy(s, k).ranges)
  {
  }

  lemma NoSession(s: State, k: Bytes, offset: uint64, count: uint64)
    requires AllForward(HeldBy(s, k).ranges)
    ensures ReserveError(s, k, NO_SESSION, offset, count) == Some(BrokenSession)
    ensures CommitError(s, k, NO_SESSION, count) == Some(BrokenSession)
  {
  }

  /** A commit in a bucket, likewise. */
  method CommitIn(bkt: Bucket, key: Bytes, session: Session, count: uint64, ghost t: Trail)
    returns (r: Result<()>, bkt': Bucket, ghost t': Trail)
    requires Tracks(bkt, t)
    ensures Tracks(bkt', t') && t.states <= t'.states
    ensures t'.ops == t.ops + [Committing(key, session, count, r)]
    ensures CommitAnswers(AccountOf(t.ops, key), session, count, ErrorIn(r))
    ensures r.Err? ==> bkt' == bkt
  {
    hide *;
    Current(bkt, t);
    EntriesDiffer(key, key);
    ghost var s := t.states[|t.ops|];
    ghost var s' := s;
    Forward(s, EntryOf(key));
    bkt' := bkt;
    if session == NO_SESSION {
      r := Err(BrokenSession);
      NoSession(s, EntryOf(key), 0, count);
    } else {
      var tx;
      tx, s' := CommitTx(bkt, EntryOf(key), session, count, s);
      r := if tx.Ok? then Ok(()) else Err(tx.error);
      bkt' := if tx.Ok? then tx.value else bkt;
    }
    CommitSteps(s, s', key, session, count, r);
    ghost var op := Committing(key, session, count, r);
    t' := Trail(t.states + [s'], t.ops + [op]);
    ExtendedTracks(bkt, t, op, bkt', s');
    CommitAnswered(bkt', t', key, session, count, r);
    assert t'.ops[..|t'.ops| - 1] == t.ops;
  }

  class IdAllocator {
    var db: map<Bytes, Bucket>
    /** The calls made so far, index by index. */
    ghost var trails: map<Bytes, Trail>

    ghost predicate Valid()
      reads this
    {
      Stores(db, trails)
    }

    /** The calls made for an index so far. */
    ghost function History(index: Bytes): seq<Op>
      reads this
    {
      TrailIn(trails, index).ops
    }

    /** The state these calls led to. */
    ghost function StateOf(index: Bytes): State
      requires Valid()
      reads this
    {
      TracksAll(db, trails, index);
      TrailIn(trails, index).states[|History(index)|]
    }

    /** Nothing but one index's history and last state changes. */
    twostate predicate OneCall(index: Bytes, op: Op)
      reads this
    {
      && (forall i :: i != index ==> TrailIn(trails, i) == old(TrailIn(trails, i)))
      && History(index) == old(History(index)) + [op]
      && old(TrailIn(trails, index).states) <= TrailIn(trails, index).states
    }

    constructor ()
      ensures Valid() && forall i :: History(i) == []
    {
      db, trails := map[], map[];
      new;
      NothingStored();
    }

    /** Reserves `count` IDs for a key.  Whether it succeeds, and the error if
        not, follows from the calls before.  The call joins the history of its
        index; no other index changes. */
    method Reserve(key: IDAllocKey, session: Session, offset: uint64, count: uint64) returns (r: Result<seq<IDRange>>)
      requires Valid()
      modifies this
      ensures Valid() && OneCall(key.index, Reserving(key.key, session, offset, count, r))
      ensures ReserveAnswers(AccountOf(old(History(key.index)), key.key), Total(FreeList(old(StateOf(key.index)))),
                             session, offset, count, ErrorIn(r))
      ensures r.Err? ==> db == old(db)
    {
      hide Represents, Stores, Tracks, ReserveAnswers, AccountOf, FreeList, Sum;
      TracksAll(db, trails, key.index);
      var bkt;
      ghost var t';
      r, bkt, t' := ReserveIn(BucketIn(db, key.index), key.key, session, offset, count, TrailIn(trails, key.index));
      var db' := if r.Ok? then db[key.index := bkt] else db;
      StoreCall(db, trails, key.index, db', t');
      db, trails := db', trails[key.index := t'];
    }

    /** Commits the first `count` IDs of a key's reservation. */
    method Commit(key: IDAllocKey, session: Session, count: uint64) returns (r: Result<()>)
      requires Valid()
      modifies this
      ensures Valid() && OneCall(key.index, Committing(key.key, session, count, r))
      ensures CommitAnswers(AccountOf(old(History(key.index)), key.key), session, count, ErrorIn(r))
      ensures r.Err? ==> db == old(db)
    {
      hide Represents, Stores, Tracks, CommitAnswers, AccountOf;
      TracksAll(db, trails, key.index);
      var bkt;
      ghost var t';
      r, bkt, t' := CommitIn(BucketIn(db, key.index), key.key, session, count, TrailIn(trails, key.index));
      var db' := if r.Ok? then db[key.index := bkt] else db;
      StoreCall(db, trails, key.index, db', t');
      db, trails := db', trails[key.index := t'];
    }

    /** Forgets everything about one index. */
    method Reset(index: Bytes)
      requires Valid()
      modifies this
      ensures Valid() && OneCall(index, DoReset) && index !in db
    {
      hide Represents, Stores, Tracks;
      ghost var t := TrailIn(trails, index);
      TracksAll(db, trails, index);
      Current(BucketIn(db, index), t);
      EmptyBucket();
      ghost var t' := Trail(t.states + [INIT], t.ops + [DoReset]);
      ExtendedTracks(BucketIn(db, index), t, DoReset, map[], INIT);
      var db' := if index in db then db - {index} else db;
      StoreCall(db, trails, index, db', t');
      db, trails := db', trails[index := t'];
    }
  }
}
