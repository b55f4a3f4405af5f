// The group-by iterator (executor.go): one row iterator per field, advanced
// like an odometer, with running intersections cached per level.
module GroupBy {
  import opened Lexicographic
  import opened Odometer
  import opened Options

  datatype Entry = Entry(row: set<nat>, id: nat)

  datatype Group = Group(ids: seq<nat>, count: nat)

  /** What the iterator keeps for the last level of a tuple: the running
      intersection, but the bare row in the last level of several. */
  ghost function Kept(levels: seq<Level>, filter: Option<set<nat>>, t: seq<nat>): set<nat>
    requires WellFormed(levels) && IsTuple(levels, t) && t != []
  {
    if |t| == |levels| && |t| > 1 then levels[|t| - 1].sets[t[|t| - 1]] else Meet(levels, filter, t)
  }

  /** The first levels are at a tuple. */
  ghost predicate Settled(levels: seq<Level>, filter: Option<set<nat>>, cur: seq<nat>, rows: seq<Entry>, t: seq<nat>) {
    && WellFormed(levels) && IsTuple(levels, t) && |cur| == |rows| == |levels|
    && forall j :: 0 <= j < |t| ==> SettledAt(levels, filter, cur[j], rows[j], t[..j + 1])
  }

  ghost predicate SettledAt(levels: seq<Level>, filter: Option<set<nat>>, cur: nat, entry: Entry, t: seq<nat>)
    requires WellFormed(levels) && IsTuple(levels, t) && t != []
  {
    cur == t[|t| - 1] + 1 && entry == Entry(Kept(levels, filter, t), levels[|t| - 1].ids[t[|t| - 1]])
  }

  /** One more level, at its row x. */
  lemma SettledMore(levels: seq<Level>, filter: Option<set<nat>>, cur: seq<nat>, rows: seq<Entry>, p: seq<nat>, x: nat)
    requires Settled(levels, filter, cur, rows, p) && IsTuple(levels, p + [x])
    requires cur[|p|] == x + 1 && rows[|p|] == Entry(Kept(levels, filter, p + [x]), levels[|p|].ids[x])
    ensures Settled(levels, filter, cur, rows, p + [x])
  {
    hide Kept;
    var t := p + [x];
    forall j | 0 <= j < |t|
      ensures SettledAt(levels, filter, cur[j], rows[j], t[..j + 1])
    {
      if j < |p| {
        assert t[..j + 1] == p[..j + 1];
      } else {
        assert t[..j + 1] == t;
      }
    }
  }

  /** Fewer levels, of an iterator that changed only behind them. */
  lemma SettledLess(levels: seq<Level>, filter: Option<set<nat>>, cur: seq<nat>, rows: seq<Entry>, t: seq<nat>,
                    cur': seq<nat>, rows': seq<Entry>, k: nat)
    requires Settled(levels, filter, cur, rows, t) && k <= |t| && |cur'| == |rows'| == |levels|
    requires cur'[..k] == cur[..k] && rows'[..k] == rows[..k]
    ensures Settled(levels, filter, cur', rows', t[..k])
  {
    hide Kept;
    forall j | 0 <= j < k
      ensures SettledAt(levels, filter, cur'[j], rows'[j], t[..k][..j + 1])
    {
      assert cur'[j] == cur'[..k][j] && rows'[j] == rows'[..k][j];
      assert t[..k][..j + 1] == t[..j + 1];
    }
  }

  lemma KeptCovers(levels: seq<Level>, filter: Option<set<nat>>, t: seq<nat>)
    requires WellFormed(levels) && IsTuple(levels, t) && t != []
    ensures Meet(levels, filter, t) <= Kept(levels, filter, t)
  {
    MeetShrinks(levels, filter, t);
  }

  /** How Kept follows from the level before. */
  lemma KeptStep(levels: seq<Level>, filter: Option<set<nat>>, p: seq<nat>, x: nat)
    requires WellFormed(levels) && IsTuple(levels, p + [x])
    ensures IsTuple(levels, p)
    ensures var row := levels[|p|].sets[x];
            Kept(levels, filter, p + [x]) ==
              if p == [] then (if filter.Some? then row * filter.value else row)
              else if |p| + 1 == |levels| then row
              else row * Kept(levels, filter, p)
  {
    var t := p + [x];
    assert t[..|p|] == p && t[|p|] == x;
    Split(levels, t);
  }

  /** How far a level has been searched from a on: t is settled, and nothing
      behind a, up to and including t, has a common column. */
  ghost predicate Searched(levels: seq<Level>, filter: Option<set<nat>>, a: seq<nat>, t: seq<nat>) {
    && WellFormed(levels) && IsTuple(levels, a) && IsTuple(levels, t) && |a| == |t| > 0
    && Rank(levels, a) <= Rank(levels, t) && NoneBetween(levels, filter, a, t)
    && (Rank(levels, a) < Rank(levels, t) ==> Meet(levels, filter, t) == {})
  }

  /** b is the next tuple to look at after t, and so after a. */
  lemma SearchedTo(levels: seq<Level>, filter: Option<set<nat>>, a: seq<nat>, t: seq<nat>, b: seq<nat>)
    requires Searched(levels, filter, a, t) && IsTuple(levels, b) && |b| == |a|
    requires Rank(levels, t) < Rank(levels, b) && NoneBetween(levels, filter, t, b)
    ensures Rank(levels, a) < Rank(levels, b) && NoneBetween(levels, filter, a, b)
    ensures Kept(levels, filter, b) == {} ==> Searched(levels, filter, a, b)
  {
    hide Rank, Kept, Meet, NoneBetween;
    Joined(levels, filter, a, t, b);
    KeptCovers(levels, filter, b);
  }

  /** Moving the last level on: to its next row, or to its first row behind the
      next tuple of the levels before. */
  lemma MovedOn(levels: seq<Level>, filter: Option<set<nat>>, t: seq<nat>, q: seq<nat>, wrapped: bool)
    requires WellFormed(levels) && IsTuple(levels, t) && 0 < |t| && |q| == |t| - 1 && IsTuple(levels, q)
    requires !wrapped ==> q == t[..|q|] && t[|q|] + 1 < |levels[|q|].ids|
    requires wrapped ==> q != [] && t[|q|] + 1 == |levels[|q|].ids|
    requires wrapped ==> Rank(levels, t[..|q|]) < Rank(levels, q) && NoneBetween(levels, filter, t[..|q|], q)
    ensures var b := q + [if wrapped then 0 else t[|q|] + 1];
            IsTuple(levels, b) && Rank(levels, t) < Rank(levels, b) && NoneBetween(levels, filter, t, b)
  {
    hide Rank, NoneBetween, Meet;
    Split(levels, t);
    if wrapped {
      Carry(levels, filter, t[..|q|], q, t[|q|]);
    } else {
      NextDigit(levels, filter, q, t[|q|]);
    }
  }

  class GroupByIterator {
    const levels: seq<Level>
    const filter: Option<set<nat>>
    var cur: seq<nat>
    var rows: seq<Entry>
    var done: bool
    ghost var at: seq<nat>

    ghost predicate Valid()
      reads this
    {
      && WellFormed(levels) && levels != [] && |cur| == |rows| == |levels|
      && (!done ==> |at| == |levels| && Settled(levels, filter, cur, rows, at))
    }

    /** A row iterator's step: only iterators behind the first start over. */
    method IterNext(i: nat) returns (row: Option<set<nat>>, id: nat, wrapped: bool)
      requires WellFormed(levels) && i < |levels| == |cur|
      modifies this`cur
      ensures wrapped <==> old(cur[i]) >= |levels[i].ids|
      ensures row.None? <==> wrapped && (i == 0 || |levels[i].ids| == 0)
      ensures row.None? ==> cur == old(cur)
      ensures row.Some? ==>
        var x := if wrapped then 0 else old(cur[i]);
        row.value == levels[i].sets[x] && id == levels[i].ids[x] && cur == old(cur)[i := x + 1]
    {
      wrapped := false;
      if cur[i] >= |levels[i].ids| {
        wrapped := true;
        if i == 0 || |levels[i].ids| == 0 {
          return None, 0, true;
        }
        cur := cur[i := 0];
      }
      row, id := Some(levels[i].sets[cur[i]]), levels[i].ids[cur[i]];
      cur := cur[i := cur[i] + 1];
    }

    /** Stores a level's new row, intersected with what is kept before it. */
    method Place(i: nat, nr: set<nat>, id: nat, ghost q: seq<nat>, ghost x: nat)
      requires i < |levels| && |q| == i && IsTuple(levels, q + [x]) && Settled(levels, filter, cur, rows, q)
      requires cur[i] == x + 1 && nr == levels[i].sets[x] && id == levels[i].ids[x]
      modifies this`rows
      ensures rows == old(rows)[i := Entry(Kept(levels, filter, q + [x]), id)]
      ensures Settled(levels, filter, cur, rows, q + [x])
    {
      hide Kept, Meet;
      KeptStep(levels, filter, q, x);
      var row;
      if i == 0 && filter.Some? {
        row := nr * filter.value;
      } else if i == 0 || i == |rows| - 1 {
        row := nr;
      } else {
        assert SettledAt(levels, filter, cur[i - 1], rows[i - 1], q[..i]);
        assert q[..i] == q;
        row := nr * rows[i - 1].row;
      }
      rows := rows[i := Entry(row, id)];
      SettledLess(levels, filter, cur, old(rows), q, cur, rows, i);
      assert q[..i] == q;
      SettledMore(levels, filter, cur, rows, q, x);
    }

    ghost predicate Behind(cur0: seq<nat>, rows0: seq<Entry>, i: nat)
      reads this
    {
      && |cur| == |rows| == |cur0| == |rows0| == |levels|
      && forall j :: i < j < |levels| ==> cur[j] == cur0[j] && rows[j] == rows0[j]
    }

    /** Moves level i on by one row; when it starts over, moves the levels
        before it on first. */
    method Step(i: nat, ghost t: seq<nat>) returns (ghost b: seq<nat>)
      requires i < |levels| && !done && |t| == i + 1 && Settled(levels, filter, cur, rows, t)
      modifies this`cur, this`rows, this`done
      ensures Behind(old(cur), old(rows), i)
      ensures done ==> NoneAfter(levels, filter, t)
      ensures !done ==> Settled(levels, filter, cur, rows, b) && |b| == i + 1 && rows[i].row == Kept(levels, filter, b)
      ensures !done ==> Rank(levels, t) < Rank(levels, b) && NoneBetween(levels, filter, t, b)
      decreases i, 0
    {
      hide Rank, NoneBetween, NoneAfter, Meet, Kept, SettledAt;
      LastCursor(levels, filter, cur, rows, t);
      b := t;
      var nr, id, wrapped := IterNext(i);
      if nr.None? {
        done := true;
        LevelEnds(levels, filter, t, [], false);
        return;
      }
      ghost var q := t[..i];
      SettledLess(levels, filter, old(cur), old(rows), t, cur, rows, i);
      if wrapped && i != 0 {
        q := NextAtIdx(i - 1, t[..i]);
        if done {
          LevelEnds(levels, filter, t, t[..i], true);
          return;
        }
      }
      MovedOn(levels, filter, t, q, wrapped);
      ghost var x := if wrapped then 0 else t[i] + 1;
      Place(i, nr.value, id, q, x);
      b := q + [x];
    }

    /** Moves the first i + 1 levels on from tuple a to a later tuple b, past
        nothing but tuples without a common column. */
    method NextAtIdx(i: nat, ghost a: seq<nat>) returns (ghost b: seq<nat>)
      requires i < |levels| && !done && |a| == i + 1 && Settled(levels, filter, cur, rows, a)
      modifies this`cur, this`rows, this`done
      ensures Behind(old(cur), old(rows), i)
      ensures done ==> NoneAfter(levels, filter, a)
      ensures !done ==> Settled(levels, filter, cur, rows, b) && |b| == i + 1
      ensures !done ==> Rank(levels, a) < Rank(levels, b) && NoneBetween(levels, filter, a, b)
      decreases i, 1
    {
      hide Rank, NoneBetween, NoneAfter, Meet, Kept, SettledAt, Searched;
      ghost var t := a;
      StartSearch(levels, filter, a);
      while true
        invariant !done && |t| == i + 1 && Settled(levels, filter, cur, rows, t) && Behind(old(cur), old(rows), i)
        invariant Searched(levels, filter, a, t)
        decreases Size(levels, i + 1) - Rank(levels, t)
      {
        b := Step(i, t);
        if done {
          SearchEnds(levels, filter, a, t);
          return;
        }
        SearchedTo(levels, filter, a, t, b);
        RankBelowSize(levels, b);
        if rows[i].row != {} {
          return;
        }
        t := b;
      }
    }

    /** Every field starts at its first row; one without rows ends it all. */
    constructor (levels: seq<Level>, filter: Option<set<nat>>)
      requires WellFormed(levels) && levels != []
      ensures Valid() && this.levels == levels && this.filter == filter
      ensures done <==> exists i :: 0 <= i < |levels| && levels[i].ids == []
      ensures !done ==> at == Zeros(|levels|)
    {
      this.levels, this.filter := levels, filter;
      cur, rows, done, at := Zeros(|levels|), seq(|levels|, _ => Entry({}, 0)), false, [];
      new;
      FirstRows();
      if !done {
        at := Zeros(|levels|);
        IntersectRows();
      }
    }

    /** Every level is at its first row, not yet intersected. */
    ghost predicate Raw(i: nat)
      requires WellFormed(levels) && i <= |levels| == |cur| == |rows|
      reads this
    {
      forall j :: 0 <= j < i ==> levels[j].ids != [] && cur[j] == 1 && rows[j] == Entry(levels[j].sets[0], levels[j].ids[0])
    }

    method FirstRows()
      requires WellFormed(levels) && !done && |cur| == |rows| == |levels| && forall j :: 0 <= j < |levels| ==> cur[j] == 0
      modifies this`cur, this`rows, this`done
      ensures |cur| == |rows| == |levels| && (done <==> exists i :: 0 <= i < |levels| && levels[i].ids == [])
      ensures !done ==> Raw(|levels|)
    {
      var i := 0;
      while i < |levels|
        invariant 0 <= i <= |levels| && !done && |cur| == |rows| == |levels| && Raw(i)
        invariant forall j :: i <= j < |levels| ==> cur[j] == 0
      {
        var row, id, _ := IterNext(i);
        if row.None? {
          assert levels[i].ids == [];
          done := true;
          return;
        }
        rows := rows[i := Entry(row.value, id)];
        i := i + 1;
      }
    }

    method IntersectRows()
      requires WellFormed(levels) && levels != [] && |cur| == |rows| == |levels| && Raw(|levels|)
      modifies this`rows
      ensures |rows| == |levels| && Settled(levels, filter, cur, rows, Zeros(|levels|))
    {
      hide Kept, SettledAt, IsTuple;
      ghost var raw := rows;
      if filter.Some? {
        rows := rows[0 := Entry(rows[0].row * filter.value, rows[0].id)];
      }
      FirstLevel(levels, filter, cur, rows);
      var i := 1;
      while i < |levels| - 1
        invariant 1 <= i && (i < |levels| || i == |levels| == 1) && |rows| == |levels|
        invariant forall j :: i <= j < |levels| ==> rows[j] == raw[j]
        invariant Settled(levels, filter, cur, rows, Zeros(i))
      {
        ghost var before := rows;
        SameEntry(levels, filter, cur, rows, i - 1);
        rows := rows[i := Entry(rows[i].row * rows[i - 1].row, rows[i].id)];
        NextZero(levels, filter, cur, before, rows, i);
        i := i + 1;
      }
      if |levels| > 1 {
        NextZero(levels, filter, cur, rows, rows, i);
      }
    }

    /** How many columns the current tuple has in common. */
    method Count() returns (n: nat)
      requires Valid() && !done
      ensures n == |Meet(levels, filter, at)|
    {
      hide Kept, Meet;
      LastEntries(levels, filter, cur, rows, at);
      if |rows| == 1 {
        n := |rows[|rows| - 1].row|;
      } else {
        n := |rows[|rows| - 1].row * rows[|rows| - 2].row|;
      }
    }

    method CurrentIds() returns (group: seq<nat>)
      requires Valid() && !done
      ensures group == Ids(levels, at)
    {
      group := [];
      for i := 0 to |rows|
        invariant |group| == i && forall j :: 0 <= j < i ==> group[j] == levels[j].ids[at[j]]
      {
        assert SettledAt(levels, filter, cur[i], rows[i], at[..i + 1]);
        group := group + [rows[i].id];
      }
    }

    /** The first tuple c from the current one on that has common columns, with
        their number; then the iterator is behind c, past nothing that counts. */
    method Next() returns (ret: Option<Group>, ghost c: seq<nat>)
      requires Valid()
      modifies this
      ensures Valid() && (ret.None? ==> done)
      ensures old(done) ==> ret.None?
      ensures ret.None? && !old(done) ==> NoneFromOn(levels, filter, old(at))
      ensures ret.Some? ==> |c| == |levels| && IsTuple(levels, c)
      ensures ret.Some? ==> Found(levels, filter, old(at), c) && ret.value == Group(Ids(levels, c), |Meet(levels, filter, c)|)
      ensures ret.Some? && done ==> NoneAfter(levels, filter, c)
      ensures ret.Some? && !done ==> Rank(levels, c) < Rank(levels, at) && NoneBetween(levels, filter, c, at)
    {
      hide Kept, SettledAt, Meet, Rank, NoneBetween, NoneAfter, NoneFrom, NoneFromOn, Ids;
      ghost var a := at;
      c := at;
      if !done {
        ReachesSelf(levels, filter, a);
      }
      while true
        invariant Valid() && (old(done) ==> done) && (!old(done) ==> |a| == |levels| && IsTuple(levels, a))
        invariant done && !old(done) ==> NoneFromOn(levels, filter, a)
        invariant !done ==> Reaches(levels, filter, a, at) && Rank(levels, at) < Size(levels, |levels|)
        decreases if done then 0 else 1 + Size(levels, |levels|) - Rank(levels, at)
      {
        if done {
          return None, c;
        }
        var count := Count();
        c := at;
        if count == 0 {
          at := NextAtIdx(|rows| - 1, at);
          Passed(levels, filter, a, c, at, done);
        } else {
          var group := CurrentIds();
          ret := Some(Group(group, count));
          at := NextAtIdx(|rows| - 1, at);
          return;
        }
      }
    }
  }

  lemma NextZero(levels: seq<Level>, filter: Option<set<nat>>, cur: seq<nat>, before: seq<Entry>, rows: seq<Entry>,
                 i: nat)
    requires Settled(levels, filter, cur, before, Zeros(i)) && 0 < i < |levels| == |rows| && cur[i] == 1
    requires forall j :: 0 <= j <= i ==> levels[j].ids != []
    requires rows[..i] == before[..i] && rows[i].id == levels[i].ids[0]
    requires rows[i].row == if i + 1 == |levels| then levels[i].sets[0] else levels[i].sets[0] * Kept(levels, filter, Zeros(i))
    ensures Settled(levels, filter, cur, rows, Zeros(i + 1))
  {
    hide Kept, SettledAt;
    SettledLess(levels, filter, cur, before, Zeros(i), cur, rows, i);
    assert Zeros(i)[..i] == Zeros(i);
    ZeroStep(levels, filter, i);
    SettledMore(levels, filter, cur, rows, Zeros(i), 0);
  }

  lemma StartSearch(levels: seq<Level>, filter: Option<set<nat>>, a: seq<nat>)
    requires WellFormed(levels) && IsTuple(levels, a) && a != []
    ensures Searched(levels, filter, a, a)
  {
  }

  lemma LastCursor(levels: seq<Level>, filter: Option<set<nat>>, cur: seq<nat>, rows: seq<Entry>, t: seq<nat>)
    requires Settled(levels, filter, cur, rows, t) && t != []
    ensures cur[|t| - 1] == t[|t| - 1] + 1 <= |levels[|t| - 1].ids|
  {
    assert SettledAt(levels, filter, cur[|t| - 1], rows[|t| - 1], t[..|t| - 1 + 1]);
    assert t[..|t| - 1 + 1] == t;
  }

  /** A level ends at its last row, when it is the first or when nothing is
      left in the levels before it. */
  lemma LevelEnds(levels: seq<Level>, filter: Option<set<nat>>, t: seq<nat>, p: seq<nat>, more: bool)
    requires WellFormed(levels) && IsTuple(levels, t) && t != [] && t[|t| - 1] + 1 == |levels[|t| - 1].ids|
    requires more ==> |t| > 1 && p == t[..|t| - 1] && NoneAfter(levels, filter, p)
    requires !more ==> |t| == 1
    ensures NoneAfter(levels, filter, t)
  {
    hide Rank, NoneAfter, Meet;
    Split(levels, t);
    if more {
      CarryEnds(levels, filter, p, t[|t| - 1]);
    } else {
      assert t == [t[0]];
      FirstLevelEnds(levels, filter, t[0]);
    }
  }

  lemma SearchEnds(levels: seq<Level>, filter: Option<set<nat>>, a: seq<nat>, t: seq<nat>)
    requires Searched(levels, filter, a, t) && NoneAfter(levels, filter, t)
    ensures NoneAfter(levels, filter, a)
  {
    hide Rank, NoneBetween, NoneAfter, Meet;
    JoinedEnd(levels, filter, a, t);
  }

  function Zeros(n: nat): (z: seq<nat>)
    ensures |z| == n && forall i :: 0 <= i < n ==> z[i] == 0
  {
    seq(n, _ => 0)
  }

  lemma ZeroStep(levels: seq<Level>, filter: Option<set<nat>>, i: nat)
    requires WellFormed(levels) && 0 < i < |levels| && forall j :: 0 <= j <= i ==> levels[j].ids != []
    ensures Zeros(i + 1) == Zeros(i) + [0] && IsTuple(levels, Zeros(i)) && IsTuple(levels, Zeros(i) + [0])
    ensures Kept(levels, filter, Zeros(i) + [0]) ==
              if i + 1 == |levels| then levels[i].sets[0] else levels[i].sets[0] * Kept(levels, filter, Zeros(i))
  {
    assert Zeros(i + 1) == Zeros(i) + [0];
    KeptStep(levels, filter, Zeros(i), 0);
  }

  lemma FirstLevel(levels: seq<Level>, filter: Option<set<nat>>, cur: seq<nat>, rows: seq<Entry>)
    requires WellFormed(levels) && levels != [] && |cur| == |rows| == |levels| && levels[0].ids != [] && cur[0] == 1
    requires rows[0] == Entry(if filter.Some? then levels[0].sets[0] * filter.value else levels[0].sets[0], levels[0].ids[0])
    ensures Settled(levels, filter, cur, rows, Zeros(1))
  {
    assert Zeros(1) == [0] && [0][..1] == [0];
  }

  lemma SameEntry(levels: seq<Level>, filter: Option<set<nat>>, cur: seq<nat>, rows: seq<Entry>, i: nat)
    requires i < |levels| && Settled(levels, filter, cur, rows, Zeros(i + 1))
    ensures rows[i].row == Kept(levels, filter, Zeros(i + 1))
  {
    assert SettledAt(levels, filter, cur[i], rows[i], Zeros(i + 1)[..i + 1]);
    assert Zeros(i + 1)[..i + 1] == Zeros(i + 1);
  }

  lemma LastEntries(levels: seq<Level>, filter: Option<set<nat>>, cur: seq<nat>, rows: seq<Entry>, t: seq<nat>)
    requires Settled(levels, filter, cur, rows, t) && |t| == |levels| > 0
    ensures Meet(levels, filter, t) == if |rows| == 1 then rows[0].row else rows[|rows| - 1].row * rows[|rows| - 2].row
  {
    var n := |t| - 1;
    assert SettledAt(levels, filter, cur[n], rows[n], t[..n + 1]);
    assert t[..n + 1] == t;
    if n > 0 {
      assert SettledAt(levels, filter, cur[n - 1], rows[n - 1], t[..n - 1 + 1]);
      assert t[..n - 1 + 1] == t[..n];
    }
  }

  /** From a on, up to but not including b, no tuple has a common column. */
  ghost predicate NoneFrom(levels: seq<Level>, filter: Option<set<nat>>, a: seq<nat>, b: seq<nat>)
    requires WellFormed(levels) && IsTuple(levels, a) && IsTuple(levels, b) && |a| == |b| > 0
  {
    forall c :: IsTuple(levels, c) && |c| == |a| && Rank(levels, a) <= Rank(levels, c) < Rank(levels, b) ==> Meet(levels, filter, c) == {}
  }

  ghost predicate NoneFromOn(levels: seq<Level>, filter: Option<set<nat>>, a: seq<nat>)
    requires WellFormed(levels) && IsTuple(levels, a) && a != []
  {
    forall c :: IsTuple(levels, c) && |c| == |a| && Rank(levels, a) <= Rank(levels, c) ==> Meet(levels, filter, c) == {}
  }

  ghost predicate Reaches(levels: seq<Level>, filter: Option<set<nat>>, a: seq<nat>, t: seq<nat>)
    requires WellFormed(levels)
  {
    && IsTuple(levels, a) && IsTuple(levels, t) && |a| == |t| == |levels| > 0
    && Rank(levels, a) <= Rank(levels, t) && NoneFrom(levels, filter, a, t)
  }

  /** c is the first tuple from a on with a common column. */
  ghost predicate Found(levels: seq<Level>, filter: Option<set<nat>>, a: seq<nat>, c: seq<nat>)
    requires WellFormed(levels)
  {
    Reaches(levels, filter, a, c) && Meet(levels, filter, c) != {}
  }

  lemma ReachesSelf(levels: seq<Level>, filter: Option<set<nat>>, a: seq<nat>)
    requires WellFormed(levels) && IsTuple(levels, a) && |a| == |levels| > 0
    ensures Reaches(levels, filter, a, a) && Rank(levels, a) < Size(levels, |levels|)
  {
    RankBelowSize(levels, a);
  }

  /** Passing an empty tuple. */
  lemma Passed(levels: seq<Level>, filter: Option<set<nat>>, a: seq<nat>, t: seq<nat>, b: seq<nat>, done: bool)
    requires WellFormed(levels) && Reaches(levels, filter, a, t) && Meet(levels, filter, t) == {}
    requires done ==> NoneAfter(levels, filter, t)
    requires !done ==> IsTuple(levels, b) && |b| == |t| && Rank(levels, t) < Rank(levels, b) && NoneBetween(levels, filter, t, b)
    ensures done ==> NoneFromOn(levels, filter, a)
    ensures !done ==> Reaches(levels, filter, a, b) && Rank(levels, b) < Size(levels, |levels|)
  {
    hide Meet, Rank, IsTuple, WellFormed;
    if !done {
      RankBelowSize(levels, b);
    }
    forall c | IsTuple(levels, c) && |c| == |a| && Rank(levels, a) <= Rank(levels, c) && (done || Rank(levels, c) < Rank(levels, b))
      ensures Meet(levels, filter, c) == {}
    {
      if Rank(levels, c) == Rank(levels, t) {
        RankInjective(levels, c, t);
      }
    }
  }

  // ----- All groups of a shard -----

  ghost predicate Nonempty(levels: seq<Level>, filter: Option<set<nat>>, c: seq<nat>)
    requires WellFormed(levels)
  {
    IsTuple(levels, c) && |c| == |levels| > 0 && Meet(levels, filter, c) != {}
  }

  /** The groups are those of the tuples, in strictly ascending order. */
  ghost predicate Listed(levels: seq<Level>, filter: Option<set<nat>>, results: seq<Group>, tuples: seq<seq<nat>>)
    requires WellFormed(levels)
  {
    && |results| == |tuples|
    && (forall k :: 0 <= k < |tuples| ==>
          Nonempty(levels, filter, tuples[k]) && results[k] == Group(Ids(levels, tuples[k]), |Meet(levels, filter, tuples[k])|))
    && (forall k, l :: 0 <= k < l < |tuples| ==> LexLess(tuples[k], tuples[l]) && LexLess(results[k].ids, results[l].ids))
  }

  /** Every tuple before b (or every one, at the end) with a common column is listed. */
  ghost predicate Complete(levels: seq<Level>, filter: Option<set<nat>>, tuples: seq<seq<nat>>, done: bool, b: seq<nat>)
    requires WellFormed(levels) && (!done ==> IsTuple(levels, b))
  {
    forall c :: Nonempty(levels, filter, c) && (done || Rank(levels, c) < Rank(levels, b)) ==> c in tuples
  }

  /** Every tuple up to and including c is listed, so the next one found, or
      the end, is the next to list. */
  lemma StillComplete(levels: seq<Level>, filter: Option<set<nat>>, tuples: seq<seq<nat>>, c: seq<nat>, done: bool,
                      at: seq<nat>, more: bool, c': seq<nat>)
    requires WellFormed(levels) && Nonempty(levels, filter, c) && Complete(levels, filter, tuples, false, c)
    requires done ==> NoneAfter(levels, filter, c) && !more
    requires !done ==> IsTuple(levels, at) && |at| == |levels| && Rank(levels, c) < Rank(levels, at) && NoneBetween(levels, filter, c, at)
    requires !done && !more ==> NoneFromOn(levels, filter, at)
    requires !done && more ==> Found(levels, filter, at, c')
    ensures Complete(levels, filter, tuples + [c], !more, c')
    ensures more ==> Rank(levels, c) < Rank(levels, c')
  {
    hide Meet, Rank, IsTuple, WellFormed;
    forall d | Nonempty(levels, filter, d) && (!more || Rank(levels, d) < Rank(levels, c'))
      ensures d in tuples + [c]
    {
      if Rank(levels, d) == Rank(levels, c) {
        RankInjective(levels, d, c);
      }
    }
  }

  lemma ListedMore(levels: seq<Level>, filter: Option<set<nat>>, results: seq<Group>, tuples: seq<seq<nat>>,
                   c: seq<nat>)
    requires WellFormed(levels) && Listed(levels, filter, results, tuples) && Nonempty(levels, filter, c)
    requires forall k :: 0 <= k < |tuples| ==> Rank(levels, tuples[k]) < Rank(levels, c)
    ensures Listed(levels, filter, results + [Group(Ids(levels, c), |Meet(levels, filter, c)|)], tuples + [c])
  {
    hide Meet, Rank, WellFormed, LexLess, Ids;
    forall k | 0 <= k < |tuples|
      ensures LexLess(tuples[k], c) && LexLess(results[k].ids, Ids(levels, c))
    {
      RankIsLexOrder(levels, tuples[k], c);
      IdsOrder(levels, tuples[k], c);
    }
  }

  /** The next group in hand: everything before it is listed, nothing behind it. */
  ghost predicate InHand(levels: seq<Level>, filter: Option<set<nat>>, tuples: seq<seq<nat>>, ret: Option<Group>,
                         c: seq<nat>)
    requires WellFormed(levels)
  {
    if ret.None? then Complete(levels, filter, tuples, true, c)
    else
      && Nonempty(levels, filter, c) && Complete(levels, filter, tuples, false, c)
      && ret.value == Group(Ids(levels, c), |Meet(levels, filter, c)|)
      && forall k :: 0 <= k < |tuples| ==> IsTuple(levels, tuples[k]) && Rank(levels, tuples[k]) < Rank(levels, c)
  }

  /** The first groups of a shard, up to the limit: in strict order of their
      row ids, exactly those with common columns, each once, with its count. */
  method ShardGroups(levels: seq<Level>, filter: Option<set<nat>>,
                     limit: nat) returns (results: seq<Group>, ghost tuples: seq<seq<nat>>)
    requires WellFormed(levels) && levels != []
    ensures |results| <= limit && Listed(levels, filter, results, tuples)
    ensures forall c :: Nonempty(levels, filter, c) && c !in tuples ==>
              |results| == limit && forall k :: 0 <= k < |results| ==> LexLess(results[k].ids, Ids(levels, c))
  {
    hide Meet, Rank, LexLess, Ids, Complete, Listed, NoneAfter, NoneBetween, NoneFromOn, InHand, SettledAt, Found, Nonempty;
    var iter := new GroupByIterator(levels, filter);
    results, tuples := [], [];
    ghost var none := iter.done;
    var ret; ghost var c;
    ret, c := iter.Next();
    FirstInHand(levels, filter, none, ret, c);
    while ret.Some? && |results| < limit
      invariant iter.levels == levels && iter.filter == filter && iter.Valid()
      invariant |results| <= limit && Listed(levels, filter, results, tuples) && InHand(levels, filter, tuples, ret, c)
      invariant ret.Some? ==> IsTuple(levels, c) && |c| == |levels|
      invariant ret.Some? && iter.done ==> NoneAfter(levels, filter, c)
      invariant ret.Some? && !iter.done ==> Rank(levels, c) < Rank(levels, iter.at) && NoneBetween(levels, filter, c, iter.at)
      decreases limit - |results|
    {
      ghost var done, at, c0, ret0, results0 := iter.done, iter.at, c, ret, results;
      results := results + [ret.value];
      ret, c := iter.Next();
      NextInHand(levels, filter, results0, tuples, ret0.value, c0, done, at, ret, c);
      tuples := tuples + [c0];
    }
    Remaining(levels, filter, results, tuples, ret, c);
  }

  lemma FirstInHand(levels: seq<Level>, filter: Option<set<nat>>, none: bool, ret: Option<Group>, c: seq<nat>)
    requires WellFormed(levels) && levels != []
    requires none <==> exists i :: 0 <= i < |levels| && levels[i].ids == []
    requires none ==> ret.None?
    requires !none && ret.None? ==> NoneFromOn(levels, filter, Zeros(|levels|))
    requires !none && ret.Some? ==> Found(levels, filter, Zeros(|levels|), c)
    requires ret.Some? ==> IsTuple(levels, c) && c != [] && ret.value == Group(Ids(levels, c), |Meet(levels, filter, c)|)
    ensures Listed(levels, filter, [], []) && InHand(levels, filter, [], ret, c)
  {
    hide Meet, Ids;
    if none {
      var i :| 0 <= i < |levels| && levels[i].ids == [];
      forall d | IsTuple(levels, d) ensures |d| <= i {
      }
    } else {
      RankZeros(levels, |levels|);
    }
  }

  lemma {:induction false} RankZeros(levels: seq<Level>, n: nat)
    requires n <= |levels| && forall i :: 0 <= i < n ==> levels[i].ids != []
    ensures Rank(levels, Zeros(n)) == 0
  {
    if n > 0 {
      RankZeros(levels, n - 1);
      assert Zeros(n)[..n - 1] == Zeros(n - 1);
    }
  }

  lemma NextInHand(levels: seq<Level>, filter: Option<set<nat>>, results: seq<Group>, tuples: seq<seq<nat>>,
                   gc: Group, c: seq<nat>,
                   done: bool, at: seq<nat>, ret: Option<Group>, c': seq<nat>)
    requires WellFormed(levels) && Listed(levels, filter, results, tuples) && InHand(levels, filter, tuples, Some(gc), c)
    requires done ==> NoneAfter(levels, filter, c) && ret.None?
    requires !done ==> IsTuple(levels, at) && |at| == |levels| && Rank(levels, c) < Rank(levels, at) && NoneBetween(levels, filter, c, at)
    requires !done && ret.None? ==> NoneFromOn(levels, filter, at)
    requires !done && ret.Some? ==> Found(levels, filter, at, c')
    requires ret.Some? ==> IsTuple(levels, c') && c' != [] && ret.value == Group(Ids(levels, c'), |Meet(levels, filter, c')|)
    ensures Listed(levels, filter, results + [gc], tuples + [c]) && InHand(levels, filter, tuples + [c], ret, c')
  {
    hide Meet, Ids, Rank, LexLess, Complete, Listed, NoneAfter, NoneBetween, NoneFromOn, NoneFrom;
    ListedMore(levels, filter, results, tuples, c);
    StillComplete(levels, filter, tuples, c, done, at, ret.Some?, c');
  }

  /** Whatever is not listed comes later, and only because of the limit. */
  lemma Remaining(levels: seq<Level>, filter: Option<set<nat>>, results: seq<Group>, tuples: seq<seq<nat>>,
                  ret: Option<Group>, c: seq<nat>)
    requires WellFormed(levels) && Listed(levels, filter, results, tuples) && InHand(levels, filter, tuples, ret, c)
    ensures forall d :: Nonempty(levels, filter, d) && d !in tuples ==>
              ret.Some? && forall k :: 0 <= k < |results| ==> LexLess(results[k].ids, Ids(levels, d))
  {
    hide Meet, Ids, Rank, LexLess;
    forall d | Nonempty(levels, filter, d) && d !in tuples
      ensures ret.Some? && forall k :: 0 <= k < |results| ==> LexLess(results[k].ids, Ids(levels, d))
    {
      forall k | 0 <= k < |results|
        ensures LexLess(results[k].ids, Ids(levels, d))
      {
        RankIsLexOrder(levels, tuples[k], d);
        IdsOrder(levels, tuples[k], d);
      }
    }
  }
}
