// The stored form of ID ranges and reservations: little-endian 64-bit words
// (idalloc.go).  Encoding and decoding are inverse to each other.
module IdCodec {
  import opened Bits
  import opened IdRanges
  import opened Options

  type byte = x: int | 0 <= x < 256
  type Bytes = seq<byte>
  const U256: int := 0x1_0000000000000000_0000000000000000_0000000000000000_0000000000000000

  /** A session key: 32 bytes, read as one number. */
  type Session = x: int | 0 <= x < U256

  const NO_SESSION: Session := 0

  datatype Error =
    | WrongRangeSize | BackwardsRange | WrongRangesSize | InvalidEntry
    | BrokenSession | OffsetDesync(requested: uint64, base: uint64)
    | ImpossiblyLarge | InsufficientIDs(missing: uint64)
    | NothingToCommit | LockCollision | OffsetOverflow | Overcommitted
    | NoAvailableList | UnexpectedOverlap

  datatype Result<T> = Ok(value: T) | Err(error: Error)

  /** A key's reservation: its ranges, the offset its first ID belongs to, and
      the session that may commit it. */
  datatype Reservation = Reservation(ranges: seq<IDRange>, offset: uint64, lock: Session)

  const EMPTY := Reservation([], 0, NO_SESSION)

  // ----- Words -----

  function Pow256(n: nat): (p: nat)
    ensures p > 0
  {
    if n == 0 then 1 else 256 * Pow256(n - 1)
  }

  function PutWord(v: nat, n: nat): (b: Bytes)
    ensures |b| == n
  {
    if n == 0 then [] else [v % 256] + PutWord(v / 256, n - 1)
  }

  function GetWord(b: Bytes): (v: nat)
    ensures v < Pow256(|b|)
  {
    if b == [] then 0 else b[0] + 256 * GetWord(b[1..])
  }

  lemma {:induction false} GetPut(v: nat, n: nat)
    requires v < Pow256(n)
    ensures GetWord(PutWord(v, n)) == v
  {
    if n > 0 {
      GetPut(v / 256, n - 1);
      assert PutWord(v, n)[1..] == PutWord(v / 256, n - 1);
    }
  }

  lemma {:induction false} PutGet(b: Bytes)
    ensures PutWord(GetWord(b), |b|) == b
  {
    if b != [] {
      PutGet(b[1..]);
      assert b == [b[0]] + b[1..];
    }
  }

  lemma EightBytes()
    ensures Pow256(8) == U64
  {
    assert Pow256(4) == 0x1_0000_0000;
  }

  lemma ThirtyTwoBytes()
    ensures Pow256(32) == U256
  {
    EightBytes();
    Pow256Adds(8, 8);
    Pow256Adds(8, 16);
    Pow256Adds(8, 24);
  }

  lemma {:induction false} Pow256Adds(m: nat, n: nat)
    ensures Pow256(m + n) == Pow256(m) * Pow256(n)
  {
    if m > 0 {
      Pow256Adds(m - 1, n);
    }
  }

  function PutUint64(v: uint64): Bytes {
    PutWord(v, 8)
  }

  function Uint64(b: Bytes): uint64
    requires |b| == 8
  {
    EightBytes();
    GetWord(b)
  }

  lemma Uint64RoundTrip(v: uint64)
    ensures Uint64(PutUint64(v)) == v
  {
    EightBytes();
    GetPut(v, 8);
  }

  // ----- Ranges -----

  function EncodeRange(r: IDRange): (b: Bytes)
    ensures |b| == 16
  {
    PutUint64(r.First) + PutUint64(r.Last)
  }

  function DecodeRange(b: Bytes): Result<IDRange> {
    if |b| != 16 then Err(WrongRangeSize)
    else
      var first, last := Uint64(b[..8]), Uint64(b[8..]);
      if last < first then Err(BackwardsRange) else Ok(IDRange(first, last))
  }

  lemma RangeRoundTrip(r: IDRange)
    requires r.Forward()
    ensures DecodeRange(EncodeRange(r)) == Ok(r)
  {
    Uint64RoundTrip(r.First);
    Uint64RoundTrip(r.Last);
    assert EncodeRange(r)[..8] == PutUint64(r.First) && EncodeRange(r)[8..] == PutUint64(r.Last);
  }

  lemma RangeCanonical(b: Bytes)
    requires DecodeRange(b).Ok?
    ensures DecodeRange(b).value.Forward() && EncodeRange(DecodeRange(b).value) == b
  {
    PutGet(b[..8]);
    PutGet(b[8..]);
    assert b == b[..8] + b[8..];
  }

  function RangesImage(rs: seq<IDRange>): (b: Bytes)
    ensures |b| == 16 * |rs|
  {
    if rs == [] then [] else RangesImage(rs[..|rs| - 1]) + EncodeRange(rs[|rs| - 1])
  }

  lemma {:induction false} RangesImageSlot(rs: seq<IDRange>, i: nat)
    requires i < |rs|
    ensures RangesImage(rs)[16 * i..16 * i + 16] == EncodeRange(rs[i])
  {
    if i < |rs| - 1 {
      RangesImageSlot(rs[..|rs| - 1], i);
      var front := RangesImage(rs[..|rs| - 1]);
      assert RangesImage(rs)[16 * i..16 * i + 16] == front[16 * i..16 * i + 16];
    }
  }

  /** Writes the ranges one after the other, refusing a backwards one. */
  method EncodeRanges(rs: seq<IDRange>) returns (r: Result<Bytes>)
    ensures r == if AllForward(rs) then Ok(RangesImage(rs)) else Err(BackwardsRange)
  {
    var data: Bytes := [];
    for i := 0 to |rs|
      invariant AllForward(rs[..i])
      invariant data == RangesImage(rs[..i])
    {
      if rs[i].Last < rs[i].First {
        return Err(BackwardsRange);
      }
      data := data + EncodeRange(rs[i]);
      assert rs[..i + 1][..i] == rs[..i];
    }
    assert rs[..|rs|] == rs;
    r := Ok(data);
  }

  /** Reads back a list of ranges: it succeeds exactly on the image of a list
      of forward ranges, and then returns that list. */
  method DecodeRanges(data: Bytes) returns (r: Result<seq<IDRange>>)
    ensures r.Ok? ==> AllForward(r.value) && RangesImage(r.value) == data
    ensures r.Err? ==> forall rs :: AllForward(rs) ==> RangesImage(rs) != data
    ensures r.Err? ==> r.error == if |data| % 16 != 0 then WrongRangesSize else BackwardsRange
  {
    hide PutWord, GetWord, Pow256;
    if |data| % 16 != 0 {
      return Err(WrongRangesSize);
    }
    var ranges: seq<IDRange> := [];
    for i := 0 to |data| / 16
      invariant |ranges| == i && AllForward(ranges)
      invariant RangesImage(ranges) == data[..16 * i]
    {
      var slot := data[16 * i..][..16];
      var one := DecodeRange(slot);
      if one.Err? {
        NotAnImage(data, i);
        return Err(one.error);
      }
      RangeCanonical(slot);
      assert data[..16 * i + 16] == data[..16 * i] + slot;
      assert (ranges + [one.value])[..i] == ranges;
      ranges := ranges + [one.value];
    }
    assert data[..|data|] == data;
    r := Ok(ranges);
  }

  lemma NotAnImage(data: Bytes, i: nat)
    requires 16 * i + 16 <= |data| && DecodeRange(data[16 * i..][..16]).Err?
    ensures forall rs :: AllForward(rs) ==> RangesImage(rs) != data
  {
    hide PutWord, GetWord, EncodeRange, RangesImage, DecodeRange;
    assert data[16 * i..][..16] == data[16 * i..16 * i + 16];
    forall rs | AllForward(rs)
      ensures RangesImage(rs) != data
    {
      if RangesImage(rs) == data {
        RangesImageSlot(rs, i);
        RangeRoundTrip(rs[i]);
        assert false;
      }
    }
  }

  /** Different lists have different images. */
  lemma {:induction false} RangesImageInjective(a: seq<IDRange>, b: seq<IDRange>)
    requires AllForward(a) && AllForward(b) && RangesImage(a) == RangesImage(b)
    ensures a == b
  {
    forall i | 0 <= i < |a|
      ensures a[i] == b[i]
    {
      RangesImageSlot(a, i);
      RangesImageSlot(b, i);
      RangeRoundTrip(a[i]);
      RangeRoundTrip(b[i]);
    }
  }

  // ----- Reservations -----

  function ReservationImage(res: Reservation): Bytes {
    PutUint64(res.offset) + PutWord(res.lock, 32) + RangesImage(res.ranges)
  }

  method EncodeReservation(res: Reservation) returns (r: Result<Bytes>)
    ensures r == if AllForward(res.ranges) then Ok(ReservationImage(res)) else Err(BackwardsRange)
  {
    var rdat := EncodeRanges(res.ranges);
    if rdat.Err? {
      return Err(rdat.error);
    }
    r := Ok(PutUint64(res.offset) + PutWord(res.lock, 32) + rdat.value);
  }

  /** Reads back a reservation; a missing entry reads as the empty one. */
  method DecodeReservation(data: Option<Bytes>) returns (r: Result<Reservation>)
    ensures data.None? ==> r == Ok(EMPTY)
    ensures data.Some? && r.Ok? ==> AllForward(r.value.ranges) && ReservationImage(r.value) == data.value
    ensures data.Some? && r.Err? ==> forall res: Reservation :: AllForward(res.ranges) ==> ReservationImage(res) != data.value
    ensures data.Some? && r.Err? ==>
              r.error == if |data.value| < 40 then InvalidEntry
                         else if (|data.value| - 40) % 16 != 0 then WrongRangesSize else BackwardsRange
  {
    hide PutWord, GetWord, Pow256;
    match data
    case None =>
      r := Ok(EMPTY);
    case Some(d) =>
      if |d| < 40 {
        return Err(InvalidEntry);
      }
      var ranges := DecodeRanges(d[40..]);
      if ranges.Err? {
        forall res: Reservation | AllForward(res.ranges)
          ensures ReservationImage(res) != d
        {
          assert ReservationImage(res)[40..] == RangesImage(res.ranges);
        }
        return Err(ranges.error);
      }
      PutGet(d[..8]);
      PutGet(d[8..40]);
      ThirtyTwoBytes();
      assert d == d[..8] + d[8..40] + d[40..];
      r := Ok(Reservation(ranges.value, Uint64(d[..8]), GetWord(d[8..40])));
  }

  /** Different reservations have different images. */
  lemma ReservationImageInjective(a: Reservation, b: Reservation)
    requires AllForward(a.ranges) && AllForward(b.ranges)
    requires ReservationImage(a) == ReservationImage(b)
    ensures a == b
  {
    var d := ReservationImage(a);
    assert d[..8] == PutUint64(a.offset) == PutUint64(b.offset);
    assert d[8..40] == PutWord(a.lock, 32) == PutWord(b.lock, 32);
    ThirtyTwoBytes();
    GetPut(a.lock, 32);
    GetPut(b.lock, 32);
    assert d[40..] == RangesImage(a.ranges) == RangesImage(b.ranges);
    Uint64RoundTrip(a.offset);
    Uint64RoundTrip(b.offset);
    RangesImageInjective(a.ranges, b.ranges);
  }

  // ----- The layout, byte by byte -----

  /** Byte i of a word is its i-th digit to base 256, lowest first. */
  lemma {:induction false} ByteOfWord(v: nat, n: nat, i: nat)
    requires i < n
    ensures PutWord(v, n)[i] == v / Pow256(i) % 256
  {
    if i > 0 {
      ByteOfWord(v / 256, n - 1, i - 1);
      DivDiv(v, 256, Pow256(i - 1));
    }
  }

  /** An entry: the offset, the session, then first and last ID of each range, as
      words of 8, 32, 8 and 8 bytes, lowest byte first. */
  lemma EntryLayout(res: Reservation, i: nat, j: nat)
    ensures var b := ReservationImage(res);
            && |b| == 40 + 16 * |res.ranges|
            && (i < 8 ==> b[i] == res.offset / Pow256(i) % 256)
            && (i < 32 ==> b[8 + i] == res.lock / Pow256(i) % 256)
            && (i < 8 && j < |res.ranges| ==>
                  && b[40 + 16 * j + i] == res.ranges[j].First / Pow256(i) % 256
                  && b[48 + 16 * j + i] == res.ranges[j].Last / Pow256(i) % 256)
  {
    hide PutWord, Pow256;
    var b := ReservationImage(res);
    assert b[40..] == RangesImage(res.ranges);
    if i < 8 {
      ByteOfWord(res.offset, 8, i);
      if j < |res.ranges| {
        RangesImageSlot(res.ranges, j);
        ByteOfWord(res.ranges[j].First, 8, i);
        ByteOfWord(res.ranges[j].Last, 8, i);
        var slot := RangesImage(res.ranges)[16 * j..16 * j + 16];
        assert b[40 + 16 * j + i] == slot[i] && b[48 + 16 * j + i] == slot[8 + i];
      }
    }
    if i < 32 {
      ByteOfWord(res.lock, 32, i);
    }
  }

  /** The missing session is the one of 32 zero bytes. */
  lemma NoSessionIsZero(session: Session)
    ensures session == NO_SESSION <==> forall i :: 0 <= i < 32 ==> PutWord(session, 32)[i] == 0
  {
    hide PutWord, Pow256;
    ThirtyTwoBytes();
    GetPut(session, 32);
    AllZero(PutWord(session, 32));
    GetPut(0, 32);
    if session == NO_SESSION {
      forall i | 0 <= i < 32 ensures PutWord(session, 32)[i] == 0 {
        ByteOfWord(session, 32, i);
      }
    }
  }

  lemma {:induction false} AllZero(b: Bytes)
    ensures (forall i :: 0 <= i < |b| ==> b[i] == 0) ==> GetWord(b) == 0
  {
    if b != [] {
      AllZero(b[1..]);
    }
  }
}
