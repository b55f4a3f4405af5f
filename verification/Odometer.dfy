// The tuples of rows that a group-by walks through, in lexicographic order.
module Odometer {
  import opened Lexicographic
  import opened Options

  /** The rows of one field in a shard: ids, ascending, and their columns. */
  datatype Level = Level(ids: seq<nat>, sets: seq<set<nat>>)

  ghost predicate WellFormed(levels: seq<Level>) {
    forall i :: 0 <= i < |levels| ==>
      && |levels[i].ids| == |levels[i].sets|
      && forall j, k :: 0 <= j < k < |levels[i].ids| ==> levels[i].ids[j] < levels[i].ids[k]
  }

  /** One row of each of the first |t| levels, by index. */
  ghost predicate IsTuple(levels: seq<Level>, t: seq<nat>) {
    |t| <= |levels| && forall j :: 0 <= j < |t| ==> t[j] < |levels[j].ids|
  }

  /** The columns that are in all rows of a tuple, and in the filter. */
  ghost function Meet(levels: seq<Level>, filter: Option<set<nat>>, t: seq<nat>): set<nat>
    requires WellFormed(levels) && IsTuple(levels, t) && t != []
  {
    var n := |t| - 1;
    var row := levels[n].sets[t[n]];
    if n > 0 then row * Meet(levels, filter, t[..n])
    else if filter.Some? then row * filter.value
    else row
  }

  // ----- Order -----

  /** Which tuple of its length this is, in lexicographic order. */
  ghost function Rank(levels: seq<Level>, t: seq<nat>): nat
    requires IsTuple(levels, t)
  {
    if t == [] then 0
    else
      var n := |t| - 1;
      Rank(levels, t[..n]) * |levels[n].ids| + t[n]
  }

  /** Digits compare like the numbers they write. */
  lemma DigitOrder(p: nat, x: nat, q: nat, y: nat, n: nat)
    requires x < n && y < n
    ensures p * n + x < q * n + y <==> p < q || (p == q && x < y)
    ensures p * n + x == q * n + y <==> p == q && x == y
  {
    if p < q {
      assert (p + 1) * n <= q * n;
    } else if q < p {
      assert (q + 1) * n <= p * n;
    }
  }

  lemma {:induction false} RankInjective(levels: seq<Level>, a: seq<nat>, b: seq<nat>)
    requires IsTuple(levels, a) && IsTuple(levels, b) && |a| == |b| && Rank(levels, a) == Rank(levels, b)
    ensures a == b
  {
    if a != [] {
      var n := |a| - 1;
      DigitOrder(Rank(levels, a[..n]), a[n], Rank(levels, b[..n]), b[n], |levels[n].ids|);
      RankInjective(levels, a[..n], b[..n]);
      assert a == a[..n] + [a[n]] && b == b[..n] + [b[n]];
    }
  }

  /** Lexicographic order, decided at the last place. */
  lemma {:induction false} LexByLast(a: seq<nat>, b: seq<nat>)
    requires |a| == |b| > 0
    ensures var n := |a| - 1; LexLess(a, b) <==> LexLess(a[..n], b[..n]) || (a[..n] == b[..n] && a[n] < b[n])
  {
    var n := |a| - 1;
    if n > 0 {
      LexByLast(a[1..], b[1..]);
      assert a[..n][1..] == a[1..][..n - 1] && b[..n][1..] == b[1..][..n - 1];
      assert a[..n] == [a[0]] + a[..n][1..] && b[..n] == [b[0]] + b[..n][1..];
    }
  }

  lemma {:induction false} RankIsLexOrder(levels: seq<Level>, a: seq<nat>, b: seq<nat>)
    requires IsTuple(levels, a) && IsTuple(levels, b) && |a| == |b|
    ensures Rank(levels, a) < Rank(levels, b) <==> LexLess(a, b)
  {
    if a != [] {
      var n := |a| - 1;
      LexByLast(a, b);
      RankIsLexOrder(levels, a[..n], b[..n]);
      if Rank(levels, a[..n]) == Rank(levels, b[..n]) {
        RankInjective(levels, a[..n], b[..n]);
      }
      DigitOrder(Rank(levels, a[..n]), a[n], Rank(levels, b[..n]), b[n], |levels[n].ids|);
    }
  }

  /** The row ids of a tuple. */
  function Ids(levels: seq<Level>, t: seq<nat>): (ids: seq<nat>)
    requires IsTuple(levels, t)
    ensures |ids| == |t| && forall j :: 0 <= j < |t| ==> ids[j] == levels[j].ids[t[j]]
  {
    seq(|t|, j requires 0 <= j < |t| => levels[j].ids[t[j]])
  }

  /** Ids ascend, so tuples are ordered as their ids are. */
  lemma {:induction false} IdsOrder(levels: seq<Level>, a: seq<nat>, b: seq<nat>)
    requires WellFormed(levels) && IsTuple(levels, a) && IsTuple(levels, b) && |a| == |b| && LexLess(a, b)
    ensures LexLess(Ids(levels, a), Ids(levels, b))
  {
    if a[0] == b[0] {
      assert WellFormed(levels[1..]);
      IdsOrder(levels[1..], a[1..], b[1..]);
      assert Ids(levels, a)[1..] == Ids(levels[1..], a[1..]) && Ids(levels, b)[1..] == Ids(levels[1..], b[1..]);
    }
  }

  /** How many tuples of the first k levels there are. */
  ghost function Size(levels: seq<Level>, k: nat): nat
    requires k <= |levels|
  {
    if k == 0 then 1 else Size(levels, k - 1) * |levels[k - 1].ids|
  }

  lemma {:induction false} RankBelowSize(levels: seq<Level>, t: seq<nat>)
    requires IsTuple(levels, t)
    ensures Rank(levels, t) < Size(levels, |t|)
  {
    if t != [] {
      var n := |t| - 1;
      RankBelowSize(levels, t[..n]);
      DigitOrder(Rank(levels, t[..n]), t[n], Size(levels, n), 0, |levels[n].ids|);
    }
  }

  // ----- Stretches of tuples with nothing in common -----

  /** All tuples of a's length behind a, up to b, have no common column. */
  ghost predicate NoneBetween(levels: seq<Level>, filter: Option<set<nat>>, a: seq<nat>, b: seq<nat>)
    requires WellFormed(levels) && IsTuple(levels, a) && IsTuple(levels, b) && |a| == |b| > 0
  {
    forall c :: IsTuple(levels, c) && |c| == |a| && Rank(levels, a) < Rank(levels, c) < Rank(levels, b) ==> Meet(levels, filter, c) == {}
  }

  ghost predicate NoneAfter(levels: seq<Level>, filter: Option<set<nat>>, a: seq<nat>)
    requires WellFormed(levels) && IsTuple(levels, a) && a != []
  {
    forall c :: IsTuple(levels, c) && |c| == |a| && Rank(levels, a) < Rank(levels, c) ==> Meet(levels, filter, c) == {}
  }

  lemma MeetShrinks(levels: seq<Level>, filter: Option<set<nat>>, t: seq<nat>)
    requires WellFormed(levels) && IsTuple(levels, t) && t != []
    ensures Meet(levels, filter, t) <= levels[|t| - 1].sets[t[|t| - 1]]
    ensures |t| > 1 ==> Meet(levels, filter, t) <= Meet(levels, filter, t[..|t| - 1])
  {
  }

  lemma RankUnfold(levels: seq<Level>, p: seq<nat>, x: nat)
    requires IsTuple(levels, p + [x])
    ensures IsTuple(levels, p) && x < |levels[|p|].ids|
    ensures Rank(levels, p + [x]) == Rank(levels, p) * |levels[|p|].ids| + x
  {
    assert (p + [x])[..|p|] == p && (p + [x])[|p|] == x;
    forall j | 0 <= j < |p| ensures p[j] < |levels[j].ids| {
      assert (p + [x])[j] == p[j];
    }
  }

  /** The next row of the last level: nothing lies between. */
  lemma NextDigit(levels: seq<Level>, filter: Option<set<nat>>, p: seq<nat>, x: nat)
    requires WellFormed(levels) && IsTuple(levels, p + [x]) && IsTuple(levels, p + [x + 1])
    ensures Rank(levels, p + [x + 1]) == Rank(levels, p + [x]) + 1
    ensures NoneBetween(levels, filter, p + [x], p + [x + 1])
  {
    hide Rank, IsTuple, WellFormed, Meet;
    RankUnfold(levels, p, x);
    RankUnfold(levels, p, x + 1);
  }

  lemma Split(levels: seq<Level>, c: seq<nat>)
    requires IsTuple(levels, c) && c != []
    ensures c == c[..|c| - 1] + [c[|c| - 1]] && IsTuple(levels, c[..|c| - 1])
  {
  }

  /** A tuple between the last one under p and the first one under q. */
  lemma BetweenCarry(levels: seq<Level>, p: seq<nat>, q: seq<nat>, x: nat, c: seq<nat>)
    requires |p| == |q| < |levels| && x + 1 == |levels[|p|].ids| && |c| == |p| + 1 && IsTuple(levels, c)
    requires IsTuple(levels, p + [x]) && IsTuple(levels, q + [0]) && Rank(levels, p + [x]) < Rank(levels, c) < Rank(levels, q + [0])
    ensures IsTuple(levels, p) && IsTuple(levels, q) && Rank(levels, p) < Rank(levels, c[..|p|]) < Rank(levels, q)
  {
    hide Rank, IsTuple;
    var n := |levels[|p|].ids|;
    Split(levels, c);
    RankUnfold(levels, p, x);
    RankUnfold(levels, q, 0);
    RankUnfold(levels, c[..|p|], c[|p|]);
    DigitOrder(Rank(levels, p), x, Rank(levels, c[..|p|]), c[|p|], n);
    DigitOrder(Rank(levels, c[..|p|]), c[|p|], Rank(levels, q), 0, n);
  }

  /** The last level wraps and the one before moves on. */
  lemma Carry(levels: seq<Level>, filter: Option<set<nat>>, p: seq<nat>, q: seq<nat>, x: nat)
    requires WellFormed(levels) && 0 < |p| == |q| < |levels| && x + 1 == |levels[|p|].ids|
    requires IsTuple(levels, p) && IsTuple(levels, q) && IsTuple(levels, p + [x]) && IsTuple(levels, q + [0])
    requires Rank(levels, p) < Rank(levels, q) && NoneBetween(levels, filter, p, q)
    ensures Rank(levels, p + [x]) < Rank(levels, q + [0]) && NoneBetween(levels, filter, p + [x], q + [0])
  {
    hide Rank, IsTuple, WellFormed;
    RankUnfold(levels, p, x);
    RankUnfold(levels, q, 0);
    DigitOrder(Rank(levels, p), x, Rank(levels, q), 0, |levels[|p|].ids|);
    forall c | IsTuple(levels, c) && |c| == |p| + 1 && Rank(levels, p + [x]) < Rank(levels, c) < Rank(levels, q + [0])
      ensures Meet(levels, filter, c) == {}
    {
      BetweenCarry(levels, p, q, x, c);
      Split(levels, c);
      assert Meet(levels, filter, c[..|p|]) == {};
      MeetShrinks(levels, filter, c);
    }
  }

  /** The last level wraps and nothing is left before it. */
  lemma CarryEnds(levels: seq<Level>, filter: Option<set<nat>>, p: seq<nat>, x: nat)
    requires WellFormed(levels) && 0 < |p| < |levels| && x + 1 == |levels[|p|].ids|
    requires IsTuple(levels, p) && IsTuple(levels, p + [x]) && NoneAfter(levels, filter, p)
    ensures NoneAfter(levels, filter, p + [x])
  {
    hide Rank, IsTuple, WellFormed;
    RankUnfold(levels, p, x);
    forall c | IsTuple(levels, c) && |c| == |p| + 1 && Rank(levels, p + [x]) < Rank(levels, c)
      ensures Meet(levels, filter, c) == {}
    {
      Split(levels, c);
      RankUnfold(levels, c[..|p|], c[|p|]);
      DigitOrder(Rank(levels, p), x, Rank(levels, c[..|p|]), c[|p|], |levels[|p|].ids|);
      assert Meet(levels, filter, c[..|p|]) == {};
      MeetShrinks(levels, filter, c);
    }
  }

  lemma FirstLevelEnds(levels: seq<Level>, filter: Option<set<nat>>, x: nat)
    requires WellFormed(levels) && |levels| > 0 && x + 1 == |levels[0].ids| && IsTuple(levels, [x])
    ensures NoneAfter(levels, filter, [x])
  {
    hide Meet;
    forall c | IsTuple(levels, c) && |c| == 1
      ensures Rank(levels, c) <= Rank(levels, [x])
    {
      assert c == [] + [c[0]] && [x] == [] + [x];
      RankUnfold(levels, [], c[0]);
      RankUnfold(levels, [], x);
    }
  }

  lemma Joined(levels: seq<Level>, filter: Option<set<nat>>, a: seq<nat>, t: seq<nat>, b: seq<nat>)
    requires WellFormed(levels) && IsTuple(levels, a) && IsTuple(levels, t) && IsTuple(levels, b) && |a| == |t| == |b| > 0
    requires NoneBetween(levels, filter, a, t) && NoneBetween(levels, filter, t, b)
    requires Rank(levels, a) < Rank(levels, t) ==> Meet(levels, filter, t) == {}
    ensures NoneBetween(levels, filter, a, b)
  {
    hide Rank, Meet, IsTuple, WellFormed;
    forall c | IsTuple(levels, c) && |c| == |a| && Rank(levels, a) < Rank(levels, c) < Rank(levels, b)
      ensures Meet(levels, filter, c) == {}
    {
      if Rank(levels, c) == Rank(levels, t) {
        RankInjective(levels, c, t);
      }
    }
  }

  lemma JoinedEnd(levels: seq<Level>, filter: Option<set<nat>>, a: seq<nat>, t: seq<nat>)
    requires WellFormed(levels) && IsTuple(levels, a) && IsTuple(levels, t) && |a| == |t| > 0
    requires NoneBetween(levels, filter, a, t) && NoneAfter(levels, filter, t)
    requires Rank(levels, a) < Rank(levels, t) ==> Meet(levels, filter, t) == {}
    ensures NoneAfter(levels, filter, a)
  {
    hide Rank, Meet, IsTuple, WellFormed;
    forall c | IsTuple(levels, c) && |c| == |a| && Rank(levels, a) < Rank(levels, c)
      ensures Meet(levels, filter, c) == {}
    {
      if Rank(levels, c) == Rank(levels, t) {
        RankInjective(levels, c, t);
      }
    }
  }

  /** A column is common to a tuple if it is in every one of its rows and in the
      filter, if there is one. */
  lemma {:induction false} MeetIs(levels: seq<Level>, filter: Option<set<nat>>, t: seq<nat>, c: nat)
    requires WellFormed(levels) && IsTuple(levels, t) && t != []
    ensures c in Meet(levels, filter, t) <==>
            && (filter.Some? ==> c in filter.value)
            && forall j :: 0 <= j < |t| ==> c in levels[j].sets[t[j]]
  {
    var n := |t| - 1;
    if n > 0 {
      MeetIs(levels, filter, t[..n], c);
    }
  }
}
