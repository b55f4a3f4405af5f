// What the ID allocator does to one index's bucket, on decoded values, and the
// laws that hold over every run of reservations, commits and resets.
module IdAllocSpec {
  import opened Bits
  import opened IdCodec
  import opened IdRanges
  import opened Options

  /** One index's bucket.  `avail` is the central list once it has been stored;
      `res` maps a stored key to its reservation; `retired` is history: the IDs
      that were committed or rolled past since the last reset. */
  datatype State = State(avail: Option<seq<IDRange>>, res: map<Bytes, Reservation>, retired: iset<int>)

  // ----- The entries of a bucket -----

  /** The entry holding the central list. */
  const AVAIL: Bytes := [1]

  /** The entry holding a client key's reservation. */
  function EntryOf(key: Bytes): Bytes {
    key + [0]
  }

  /** Every client key has an entry of its own, and none has the central list's. */
  lemma EntriesDiffer(a: Bytes, b: Bytes)
    ensures EntryOf(a) != AVAIL == [1] && EntryOf(a)[..|a|] == a && EntryOf(a)[|a|..] == [0]
    ensures EntryOf(a) == EntryOf(b) ==> a == b
  {
    assert EntryOf(a)[|a|] == 0 && |EntryOf(a)| == |a| + 1;
    assert EntryOf(a)[..|a|] == a && EntryOf(b)[..|b|] == b;
  }

  ghost const INIT := State(None, map[], iset{})

  /** The central list; before the first reservation it is every ID but 0. */
  function FreeList(s: State): seq<IDRange> {
    if s.avail.Some? then s.avail.value else [IDRange(1, MAX_U64)]
  }

  function HeldBy(s: State, k: Bytes): Reservation {
    if k in s.res then s.res[k] else EMPTY
  }

  ghost predicate WellFormed(s: State) {
    && AllForward(FreeList(s))
    && forall k :: k in s.res ==> AllForward(s.res[k].ranges)
  }

  ghost function IdsOf(rs: seq<IDRange>): iset<int> {
    iset id | Occ(rs, id) > 0
  }

  // ----- The steps -----

  /** How far a reservation at `offset` moves the reservation's base. */
  function Skip(r: Reservation, offset: uint64): nat {
    if offset != MAX_U64 && offset > r.offset then offset - r.offset else 0
  }

  /** What survives moving the reservation's base to `offset`. */
  function Kept(s: State, k: Bytes, offset: uint64): seq<IDRange>
    requires AllForward(HeldBy(s, k).ranges)
  {
    DropIds(HeldBy(s, k).ranges, Skip(HeldBy(s, k), offset))
  }

  function ReserveError(s: State, k: Bytes, session: Session, offset: uint64, count: uint64): Option<Error>
    requires AllForward(HeldBy(s, k).ranges)
  {
    if session == NO_SESSION then Some(BrokenSession)
    else if offset != MAX_U64 && offset < HeldBy(s, k).offset then Some(OffsetDesync(offset, HeldBy(s, k).offset))
    else if Total(Kept(s, k, offset)) + Total(FreeList(s)) < count then
      Some(InsufficientIDs(count - Total(Kept(s, k, offset)) - Total(FreeList(s))))
    else None
  }

  /** A successful reservation: IDs below the offset are retired, the rest of
      the reservation is kept in order, and what is missing is appended. */
  ghost predicate Reserved(s: State, s': State, k: Bytes, session: Session, offset: uint64, count: uint64,
                           ranges: seq<IDRange>)
    requires AllForward(HeldBy(s, k).ranges)
  {
    && k in s'.res
    && s'.res == s.res[k := Reservation(s'.res[k].ranges, offset, session)]
    && s'.retired == s.retired + IdsOf(TakeIds(HeldBy(s, k).ranges, Skip(HeldBy(s, k), offset)))
    && if Total(Kept(s, k, offset)) >= count then
         && s'.avail == s.avail
         && s'.res[k].ranges == Kept(s, k, offset)
         && ranges == TakeIds(Kept(s, k, offset), count)
       else
         && s'.avail.Some?
         && ranges == s'.res[k].ranges
         && Extends(Kept(s, k, offset), ranges, count, FreeList(s), s'.avail.value)
  }

  /** `ranges` is `kept` followed by ranges split off the list, so that it
      holds `count` IDs. */
  ghost predicate Extends(kept: seq<IDRange>, ranges: seq<IDRange>, count: uint64, list: seq<IDRange>,
                          left: seq<IDRange>) {
    && kept <= ranges
    && Total(ranges[|kept|..]) + Total(kept) == count
    && TakenFrom(list, ranges[|kept|..], left)
  }

  /** The taken ranges were split off the list, narrowest first. */
  ghost predicate TakenFrom(list: seq<IDRange>, taken: seq<IDRange>, left: seq<IDRange>) {
    exists whole :: NarrowestFirst(multiset(list), taken, whole, left)
  }

  function CommitError(s: State, k: Bytes, session: Session, count: uint64): Option<Error> {
    if session == NO_SESSION then Some(BrokenSession)
    else if k !in s.res then Some(NothingToCommit)
    else if s.res[k].lock != session then Some(LockCollision)
    else if s.res[k].offset != MAX_U64 && s.res[k].offset + count > MAX_U64 - 1 then Some(OffsetOverflow)
    else if count > Total(s.res[k].ranges) then Some(Overcommitted)
    else None
  }

  /** A successful commit: the first `count` IDs are retired.  Under offset
      control the rest stays reserved; otherwise it returns to the list. */
  ghost predicate Committed(s: State, s': State, k: Bytes, session: Session, count: uint64)
    requires k in s.res && AllForward(s.res[k].ranges)
  {
    && s'.retired == s.retired + IdsOf(TakeIds(s.res[k].ranges, count))
    && if s.res[k].offset != MAX_U64 then
         && s.res[k].offset + count < MAX_U64
         && s'.avail == s.avail
         && s'.res == s.res[k := Reservation(DropIds(s.res[k].ranges, count), s.res[k].offset + count, session)]
       else
         && s'.res == s.res - {k}
         && Released(FreeList(s), DropIds(s.res[k].ranges, count), s.avail, s'.avail)
  }

  /** The left-over ranges were merged into the central list. */
  ghost predicate Released(list: seq<IDRange>, rest: seq<IDRange>, was: Option<seq<IDRange>>,
                           now: Option<seq<IDRange>>) {
    if rest == [] then now == was
    else now.Some? && NormalForm(now.value) && Joins(now.value, list, rest)
  }

  /** The joined list holds exactly the IDs of the two lists. */
  ghost predicate Joins(joined: seq<IDRange>, a: seq<IDRange>, b: seq<IDRange>) {
    forall id :: Occ(joined, id) == Occ(a, id) + Occ(b, id)
  }

  // ----- Every ID has exactly one owner -----

  datatype Owner = Central | Key(k: Bytes) | Retired

  /** How often the owner lists the ID. */
  ghost function Share(s: State, o: Owner, id: int): nat {
    match o
    case Central => Occ(FreeList(s), id)
    case Key(k) => Occ(HeldBy(s, k).ranges, id)
    case Retired => if id in s.retired then 1 else 0
  }

  ghost predicate OwnedBy(s: State, o: Owner, id: int) {
    Share(s, o, id) == 1 && forall o' :: o' != o ==> Share(s, o', id) == 0
  }

  ghost predicate Owned(s: State, id: int) {
    if 1 <= id < U64 then exists o :: OwnedBy(s, o, id) else forall o :: Share(s, o, id) == 0
  }

  ghost predicate Inv(s: State) {
    WellFormed(s) && forall id :: Owned(s, id)
  }

  lemma InitInv()
    ensures Inv(INIT)
  {
    forall id
      ensures Owned(INIT, id)
    {
      assert Share(INIT, Central, id) == if 1 <= id < U64 then 1 else 0 by {
        SumOne(Hit(id), IDRange(1, MAX_U64));
      }
      assert forall o :: o != Central ==> Share(INIT, o, id) == 0;
      if 1 <= id < U64 {
        assert OwnedBy(INIT, Central, id);
      }
    }
  }

  /** Moving an ID between the central list, one key and the retired set keeps
      it with exactly one owner, as long as the three shares add up the same. */
  lemma MoveKeepsOwner(s: State, s': State, k: Bytes, id: int)
    requires Owned(s, id)
    requires forall k' :: k' != k ==> Share(s', Key(k'), id) == Share(s, Key(k'), id)
    requires Moved(s', k, id) == Moved(s, k, id)
    ensures Owned(s', id)
  {
    if 1 <= id < U64 {
      var o :| OwnedBy(s, o, id);
      OneShare(s, k, o, id);
      if o == Central || o == Key(k) || o == Retired {
        var o' := if Share(s', Central, id) == 1 then Central else if Share(s', Key(k), id) == 1 then Key(k) else Retired;
        forall x | x != o'
          ensures Share(s', x, id) == 0
        {
          assert x.Key? && x.k != k ==> Share(s, x, id) == 0;
        }
        assert OwnedBy(s', o', id);
      } else {
        assert OwnedBy(s', o, id);
      }
    } else {
      assert Share(s, Central, id) == 0 && Share(s, Key(k), id) == 0 && Share(s, Retired, id) == 0;
      forall o ensures Share(s', o, id) == 0 {
        assert Share(s, o, id) == 0;
      }
    }
  }

  ghost function Moved(s: State, k: Bytes, id: int): nat {
    Share(s, Central, id) + Share(s, Key(k), id) + Share(s, Retired, id)
  }

  lemma OneShare(s: State, k: Bytes, o: Owner, id: int)
    requires OwnedBy(s, o, id)
    ensures Moved(s, k, id) == if o == Central || o == Key(k) || o == Retired then 1 else 0
  {
    assert o != Central ==> Share(s, Central, id) == 0;
    assert o != Key(k) ==> Share(s, Key(k), id) == 0;
    assert o != Retired ==> Share(s, Retired, id) == 0;
  }

  lemma MovedAtMostOne(s: State, k: Bytes, id: int)
    requires Owned(s, id)
    ensures Moved(s, k, id) <= 1
  {
    if 1 <= id < U64 {
      var o :| OwnedBy(s, o, id);
      OneShare(s, k, o, id);
    } else {
      assert Share(s, Central, id) == 0 && Share(s, Key(k), id) == 0 && Share(s, Retired, id) == 0;
    }
  }

  lemma OwnerFromShare(s: State, o: Owner, id: int)
    requires Owned(s, id) && Share(s, o, id) > 0
    ensures 1 <= id < U64 && OwnedBy(s, o, id)
  {
    if 1 <= id < U64 {
      var x :| OwnedBy(s, x, id);
      assert x != o ==> Share(s, o, id) == 0;
    }
  }

  /** What one reservation does to the owner of one ID. */
  lemma ReserveMovesOwner(s: State, s': State, k: Bytes, session: Session, offset: uint64, count: uint64,
                          ranges: seq<IDRange>, id: int)
    requires WellFormed(s) && Owned(s, id)
    requires Reserved(s, s', k, session, offset, count, ranges)
    ensures Owned(s', id)
    ensures id in s.retired ==> id in s'.retired
    ensures Occ(ranges, id) > 0 ==> OwnedBy(s', Key(k), id) && id !in s.retired
  {
    hide Sum, DropIds, TakeIds, AllForward;
    var added := ReserveShares(s, s', k, session, offset, count, ranges, id);
    TakeDropOcc(HeldBy(s, k).ranges, Skip(HeldBy(s, k), offset), id);
    MovedAtMostOne(s, k, id);
    forall k' | k' != k
      ensures Share(s', Key(k'), id) == Share(s, Key(k'), id)
    {
    }
    MoveKeepsOwner(s, s', k, id);
    if Occ(ranges, id) > 0 {
      OwnerFromShare(s', Key(k), id);
      assert Share(s', Retired, id) == 0;
    }
  }

  /** The shares after a reservation; `added` counts the newly reserved ones. */
  lemma ReserveShares(s: State, s': State, k: Bytes, session: Session, offset: uint64, count: uint64,
                      ranges: seq<IDRange>, id: int)
    returns (added: nat)
    requires WellFormed(s)
    requires Reserved(s, s', k, session, offset, count, ranges)
    ensures
      var r := HeldBy(s, k);
      var n := Skip(r, offset);
      && Share(s', Central, id) + added == Share(s, Central, id)
      && Share(s', Key(k), id) == Occ(DropIds(r.ranges, n), id) + added
      && Share(s', Retired, id) == (if id in s.retired || Occ(TakeIds(r.ranges, n), id) > 0 then 1 else 0)
      && Occ(ranges, id) <= Share(s', Key(k), id)
  {
    var kept := Kept(s, k, offset);
    if Total(kept) >= count {
      added := 0;
      TakeDropOcc(kept, count, id);
    } else {
      ExtendConserves(kept, ranges, count, FreeList(s), s'.avail.value, id);
      added := Occ(ranges, id) - Occ(kept, id);
    }
  }

  /** Extending a reservation: the new IDs come from the list. */
  lemma ExtendConserves(kept: seq<IDRange>, ranges: seq<IDRange>, count: uint64, list: seq<IDRange>,
                        left: seq<IDRange>, id: int)
    requires AllForward(kept) && AllForward(list)
    requires Extends(kept, ranges, count, list, left)
    ensures AllForward(ranges) && AllForward(left) && Total(ranges) == count
    ensures Occ(kept, id) <= Occ(ranges, id)
    ensures Occ(ranges, id) + Occ(left, id) == Occ(kept, id) + Occ(list, id)
  {
    var extra := ranges[|kept|..];
    assert ranges == kept + extra;
    var whole :| NarrowestFirst(multiset(list), extra, whole, left);
    ReserveConserves(list, extra, whole, left, id);
    SumConcat(Hit(id), kept, extra);
    SumConcat(Size, kept, extra);
  }

  lemma ReserveKeepsForward(s: State, s': State, k: Bytes, session: Session, offset: uint64, count: uint64,
                            ranges: seq<IDRange>)
    requires WellFormed(s)
    requires Reserved(s, s', k, session, offset, count, ranges)
    ensures WellFormed(s') && AllForward(ranges) && Total(ranges) == count
  {
    var kept := Kept(s, k, offset);
    if Total(kept) >= count {
      TakeKeeps(kept, count);
    } else {
      ExtendConserves(kept, ranges, count, FreeList(s), s'.avail.value, 0);
    }
    forall x | x in s'.res
      ensures AllForward(s'.res[x].ranges)
    {
    }
  }

  /** What one commit does to the owner of one ID. */
  lemma CommitMovesOwner(s: State, s': State, k: Bytes, session: Session, count: uint64, id: int)
    requires WellFormed(s) && Owned(s, id) && k in s.res
    requires Committed(s, s', k, session, count)
    ensures Owned(s', id)
    ensures id in s.retired ==> id in s'.retired
    ensures Occ(TakeIds(s.res[k].ranges, count), id) > 0 ==> id !in s.retired && id in s'.retired
  {
    hide DropIds, TakeIds;
    var r := s.res[k];
    var rest := DropIds(r.ranges, count);
    var spent := TakeIds(r.ranges, count);
    TakeDropOcc(r.ranges, count, id);
    forall k' | k' != k
      ensures Share(s', Key(k'), id) == Share(s, Key(k'), id)
    {
    }
    var back := if r.offset == MAX_U64 then Occ(rest, id) else 0;
    assert Share(s', Central, id) == Share(s, Central, id) + back;
    assert Share(s', Key(k), id) == Occ(rest, id) - back;
    MovedAtMostOne(s, k, id);
    MoveKeepsOwner(s, s', k, id);
  }

  lemma CommitKeepsForward(s: State, s': State, k: Bytes, session: Session, count: uint64)
    requires WellFormed(s) && k in s.res
    requires Committed(s, s', k, session, count)
    ensures WellFormed(s')
  {
    DropShifts(s.res[k].ranges, count);
  }

  // ----- Consequences that rule out the internal errors -----

  lemma KeyListBounds(s: State, k: Bytes)
    requires Inv(s)
    ensures NoDuplicates(HeldBy(s, k).ranges) && Occ(HeldBy(s, k).ranges, 0) == 0
  {
    forall id
      ensures Occ(HeldBy(s, k).ranges, id) <= 1
    {
      assert Owned(s, id);
      assert Share(s, Key(k), id) <= 1;
    }
    assert Owned(s, 0);
    assert Share(s, Key(k), 0) == 0;
  }

  /** The count of already reserved IDs never overflows. */
  lemma KeptBelow2To64(s: State, k: Bytes, n: nat)
    requires Inv(s)
    ensures Total(DropIds(HeldBy(s, k).ranges, n)) <= MAX_U64
  {
    KeyListBounds(s, k);
    var rs := HeldBy(s, k).ranges;
    TotalBelow2To64(rs);
    DropShifts(rs, n);
  }

  /** Releasing what is left of a reservation never overlaps the central list,
      and that list has been stored before. */
  lemma ReleaseIsSafe(s: State, k: Bytes, n: nat)
    requires Inv(s)
    ensures var rest := DropIds(HeldBy(s, k).ranges, n);
            NoDuplicates(FreeList(s) + rest) && (rest != [] ==> s.avail.Some?)
  {
    hide DropIds, TakeIds;
    var rs := HeldBy(s, k).ranges;
    var rest := DropIds(rs, n);
    DropShifts(rs, n);
    forall id
      ensures Occ(FreeList(s) + rest, id) <= 1
      ensures Occ(FreeList(s), id) + Occ(rest, id) <= 1
    {
      SumConcat(Hit(id), FreeList(s), rest);
      TakeDropOcc(rs, n, id);
      assert Owned(s, id);
      assert Share(s, Key(k), id) + Share(s, Central, id) <= 1;
    }
    if rest != [] && s.avail.None? {
      var id := rest[0].First;
      OccPositive(rest, id);
      assert rest[0].Contains(id);
      SumOne(Hit(id), IDRange(1, MAX_U64));
      TakeDropOcc(rs, n, 0);
      KeyListBounds(s, k);
      assert false;
    }
  }
}
