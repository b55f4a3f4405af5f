// An integer field (field.go): values are kept relative to a base, at a bit
// depth that grows as larger values arrive.
module BsiField {
  import opened Bits
  import opened BsiData
  import opened BsiImport
  import opened BsiRead
  import opened BsiStorage
  import opened Options

  datatype Error = NoError | TooLow | TooHigh | Mismatch | WrongShard

  function BsiBase(min: int, max: int): int {
    if min > 0 then min else if max < 0 then max else 0
  }

  /** The base is the value in range that is nearest to zero. */
  lemma BaseIsNearestZero(min: int, max: int, v: int)
    requires min <= v <= max
    ensures min <= BsiBase(min, max) <= max && Abs(BsiBase(min, max)) <= Abs(v)
  {
  }

  /** Values in range sit on one side of the base, and 64 bits hold the
      difference whenever they hold the bounds. */
  lemma BaseSide(min: int, max: int, v: int)
    requires min <= v <= max
    ensures v < 0 ==> v - BsiBase(min, max) <= 0
    ensures v >= 0 ==> v - BsiBase(min, max) >= 0
    ensures -0x8000_0000_0000_0000 <= min && max < 0x8000_0000_0000_0000 ==>
              -0x8000_0000_0000_0000 <= v - BsiBase(min, max) < 0x8000_0000_0000_0000
  {
  }

  /** The bits needed for a magnitude. */
  function BitDepth(v: int): nat {
    BitLen(Abs(v))
  }

  lemma DepthFits(v: int, d: nat)
    requires BitDepth(v) <= d
    ensures Abs(v) < Pow2(d)
  {
    BitLenBound(Abs(v), d);
  }

  function Shifted(vals: seq<int>, base: int): (s: seq<int>)
    ensures |s| == |vals| && forall i :: 0 <= i < |s| ==> s[i] == vals[i] - base
  {
    seq(|vals|, i requires 0 <= i < |vals| => vals[i] - base)
  }

  lemma {:induction false} LastShifted(cols: seq<nat>, vals: seq<int>, base: int, c: nat)
    requires |cols| == |vals|
    ensures LastOf(cols, Shifted(vals, base), c) ==
            match LastOf(cols, vals, c) case None => None case Some(v) => Some(v - base)
  {
    if cols != [] {
      assert Shifted(vals, base)[..|vals| - 1] == Shifted(vals[..|vals| - 1], base);
      LastShifted(cols[..|cols| - 1], vals[..|vals| - 1], base, c);
    }
  }

  lemma {:induction false} LastIsOneOf(cols: seq<nat>, vals: seq<int>, c: nat)
    requires |cols| == |vals| && LastOf(cols, vals, c).Some?
    ensures exists i :: 0 <= i < |cols| && cols[i] == c && vals[i] == LastOf(cols, vals, c).value
  {
    var n := |cols| - 1;
    if cols[n] == c {
      assert vals[n] == LastOf(cols, vals, c).value;
    } else {
      LastIsOneOf(cols[..n], vals[..n], c);
      var i :| 0 <= i < n && cols[..n][i] == c && vals[..n][i] == LastOf(cols, vals, c).value;
      assert cols[i] == c && vals[i] == LastOf(cols, vals, c).value;
    }
  }

  ghost predicate InRange(vals: seq<int>, min: int, max: int) {
    forall i :: 0 <= i < |vals| ==> min <= vals[i] <= max
  }

  // ----- What a field holds -----

  /** The bounds and depth of a field, and its storage by shard. */
  datatype View = View(min: int, max: int, depth: nat, data: map<nat, set<nat>>) {
    function Base(): int {
      BsiBase(min, max)
    }

    ghost function Shard(s: nat): Fragment {
      Fragment(s, if s in data then data[s] else {})
    }

    /** What the field holds for a column. */
    ghost function At(c: nat): Option<int> {
      match Read(Shard(c / SHARD_WIDTH), c, depth)
      case None => None
      case Some(v) => Some(v + Base())
    }

    ghost predicate Held(c: nat) {
      && Sound(Shard(c / SHARD_WIDTH), c, depth)
      && (At(c).Some? ==> min <= At(c).value <= max)
    }

    /** Nothing is stored above the depth, nothing is written as minus zero,
        and every value is in range. */
    ghost predicate Valid() {
      && (forall s: nat :: Shallow(Shard(s).storage, depth))
      && (forall c: nat :: Held(c))
    }
  }

  /** A field that stores nothing. */
  lemma EmptyIsValid(w: View)
    requires w.data == map[]
    ensures w.Valid() && forall c: nat :: w.At(c) == None
  {
  }

  lemma ShallowDeeper(s: set<nat>, d: nat, d': nat)
    requires Shallow(s, d) && d <= d'
    ensures Shallow(s, d')
  {
  }

  /** Raising the depth moves no value. */
  lemma Deeper(w: View, d: nat)
    requires w.Valid() && w.depth <= d
    ensures w.(depth := d).Valid() && forall c: nat :: w.(depth := d).At(c) == w.At(c)
  {
    hide Read, Sound, Shallow;
    var w' := w.(depth := d);
    forall c: nat ensures w'.At(c) == w.At(c) && w'.Held(c) {
      assert w.Held(c);
      DeeperReadsSame(w.Shard(c / SHARD_WIDTH), c, w.depth, d);
    }
    forall s: nat ensures Shallow(w'.Shard(s).storage, d) {
      assert w'.Shard(s) == w.Shard(s);
      ShallowDeeper(w.Shard(s).storage, w.depth, d);
    }
  }

  /** Only one shard's storage is replaced. */
  ghost predicate Replaced(w: View, w': View, sh: nat, s: set<nat>) {
    && w' == w.(data := w'.data) && w'.Shard(sh).storage == s
    && forall x: nat :: x != sh ==> w'.Shard(x) == w.Shard(x)
  }

  /** If one shard keeps to the rules, and its columns hold what they should. */
  lemma ReplacedValid(w: View, w': View, sh: nat, s: set<nat>)
    requires w.Valid() && Replaced(w, w', sh, s) && Shallow(s, w.depth)
    requires forall c: nat :: c / SHARD_WIDTH == sh ==> w'.Held(c)
    ensures w'.Valid() && forall c: nat :: c / SHARD_WIDTH != sh ==> w'.At(c) == w.At(c)
  {
    hide Read, Sound, Shallow;
    forall c: nat ensures w'.Held(c) {
      assert w.Held(c);
    }
    forall x: nat ensures Shallow(w'.Shard(x).storage, w'.depth) {
      assert Shallow(w.Shard(x).storage, w.depth);
    }
  }

  ghost function OneLater(w: View, col: nat, v: int, live: bool, c: nat): Option<int> {
    if c != col then w.At(c) else if live then Some(v + w.Base()) else None
  }

  /** What one write does to every column. */
  lemma OneWrite(w: View, w': View, col: nat, v: int, live: bool)
    requires w.Valid() && Abs(v) < Pow2(w.depth) && (live ==> w.min <= v + w.Base() <= w.max)
    requires var sh := col / SHARD_WIDTH;
             Replaced(w, w', sh, Overlay(w.Shard(sh).storage, map[Offset(col) := v], w.depth + 2, live, live))
    ensures w'.Valid() && forall c: nat :: w'.At(c) == OneLater(w, col, v, live, c)
  {
    hide Read, Sound, Shallow, Overlay;
    var sh := col / SHARD_WIDTH;
    var f := w.Shard(sh);
    forall c: nat | c / SHARD_WIDTH == sh
      ensures w'.At(c) == OneLater(w, col, v, live, c) && w'.Held(c)
    {
      assert w.Held(c);
      OneWriteReads(f, col, v, w.depth, live, live, c);
    }
    OverlayShallow(f.storage, map[Offset(col) := v], w.depth, live, live);
    ReplacedValid(w, w', sh, w'.Shard(sh).storage);
  }

  ghost function ImportLater(w: View, cols: seq<nat>, vals: seq<int>, live: bool, c: nat): Option<int>
    requires |cols| == |vals|
  {
    Now(LastOf(cols, vals, c), w.At(c), live)
  }

  ghost predicate InShard(cols: seq<nat>, sh: nat) {
    forall i :: 0 <= i < |cols| ==> cols[i] / SHARD_WIDTH == sh
  }

  lemma ImportedColumn(w: View, w': View, cols: seq<nat>, vals: seq<int>, live: bool, sh: nat, c: nat)
    requires w.Valid() && |cols| == |vals| && InRange(vals, w.min, w.max) && InShard(cols, sh) && c / SHARD_WIDTH == sh
    requires forall i :: 0 <= i < |vals| ==> Abs(vals[i] - w.Base()) < Pow2(w.depth)
    requires Replaced(w, w', sh, InOrder(w.Shard(sh).storage, cols, Shifted(vals, w.Base()), |cols|, w.depth + 2, live, true))
    ensures w'.At(c) == ImportLater(w, cols, vals, live, c) && w'.Held(c) && Shallow(w'.Shard(sh).storage, w.depth)
  {
    hide Read, Sound, Shallow, InOrder, LastOf;
    assert w.Held(c);
    var stored := Shifted(vals, w.Base());
    InOrderReads(w.Shard(sh), cols, stored, |cols|, w.depth, live, c);
    assert cols[..|cols|] == cols && stored[..|cols|] == stored;
    LastShifted(cols, vals, w.Base(), c);
    if LastOf(cols, vals, c).Some? {
      LastIsOneOf(cols, vals, c);
    }
  }

  /** What a bulk write does to every column. */
  lemma ManyWrites(w: View, w': View, cols: seq<nat>, vals: seq<int>, live: bool, sh: nat)
    requires w.Valid() && |cols| == |vals| && InRange(vals, w.min, w.max) && InShard(cols, sh)
    requires forall i :: 0 <= i < |vals| ==> Abs(vals[i] - w.Base()) < Pow2(w.depth)
    requires Replaced(w, w', sh, InOrder(w.Shard(sh).storage, cols, Shifted(vals, w.Base()), |cols|, w.depth + 2, live, true))
    ensures w'.Valid() && forall c: nat :: w'.At(c) == ImportLater(w, cols, vals, live, c)
  {
    hide Read, Sound, Shallow, InOrder, LastOf;
    forall c: nat | c / SHARD_WIDTH == sh
      ensures w'.At(c) == ImportLater(w, cols, vals, live, c) && w'.Held(c) && Shallow(w'.Shard(sh).storage, w.depth)
    {
      ImportedColumn(w, w', cols, vals, live, sh, c);
    }
    assert sh * SHARD_WIDTH / SHARD_WIDTH == sh;
    ReplacedValid(w, w', sh, w'.Shard(sh).storage);
    forall c: nat | c / SHARD_WIDTH != sh ensures w'.At(c) == ImportLater(w, cols, vals, live, c) {
      NotThere(cols, vals, c, sh);
    }
  }

  lemma NotThere(cols: seq<nat>, vals: seq<int>, c: nat, sh: nat)
    requires |cols| == |vals| && InShard(cols, sh) && c / SHARD_WIDTH != sh
    ensures LastOf(cols, vals, c) == None
  {
    if LastOf(cols, vals, c).Some? {
      LastIsOneOf(cols, vals, c);
    }
  }

  lemma ValueFits(f: Fragment, c: nat, d: nat)
    ensures Abs(f.Val(c, d)) < Pow2(d)
  {
    MagBound(f, c, d);
  }
}
