// A LIKE plan means what its pattern means: always when skipped text is
// counted in runes, and exactly for which patterns when counted in bytes.
module LikeMeaning {
  import opened Like

  // ----- Tokens of a pattern -----

  function Concat(tokens: seq<string>): string {
    if tokens == [] then [] else tokens[0] + Concat(tokens[1..])
  }

  ghost predicate Homogeneous(t: string, placeholders: bool) {
    t != [] && forall i :: 0 <= i < |t| ==> IsPlaceholder(t[i]) == placeholders
  }

  /** Runs of placeholders and of other runes alternate. */
  ghost predicate Alternating(tokens: seq<string>) {
    tokens != [] ==>
      && (Homogeneous(tokens[0], true) || Homogeneous(tokens[0], false))
      && Alternating(tokens[1..])
      && (|tokens| > 1 && Homogeneous(tokens[0], true) ==> Homogeneous(tokens[1], false))
  }

  lemma FirstToken(p: string)
    requires p != []
    ensures Tokens(p) != [] && Homogeneous(Tokens(p)[0], IsPlaceholder(p[0]))
    ensures Tokens(p)[0] <= p && Tokens(p)[1..] == Tokens(p[|Tokens(p)[0]|..])
    ensures var n := |Tokens(p)[0]|; n < |p| ==> IsPlaceholder(p[n]) != IsPlaceholder(p[0])
  {
    assert Tokens(p)[1..] == Tokens(p[RunLength(p, IsPlaceholder(p[0]))..]);
  }

  lemma {:induction false} TokensOk(p: string)
    ensures Concat(Tokens(p)) == p && Alternating(Tokens(p))
    decreases |p|
  {
    hide Tokens;
    if p != [] {
      FirstToken(p);
      var t, rest := Tokens(p)[0], p[|Tokens(p)[0]|..];
      TokensOk(rest);
      assert p == t + rest;
      if rest != [] {
        FirstToken(rest);
      } else {
        assert Tokens(rest) == Tokens(p)[1..];
        NoTokens();
      }
    } else {
      NoTokens();
    }
  }

  // ----- The meaning of one token -----

  lemma {:induction false} MatchesLiteral(s: string, rest: string, k: string)
    requires forall i :: 0 <= i < |s| ==> !IsPlaceholder(s[i])
    ensures Matches(s + rest, k) <==> s <= k && Matches(rest, k[|s|..])
  {
    if s == [] {
      assert s + rest == rest && k[0..] == k;
    } else {
      var p := s + rest;
      assert p[0] == s[0] && p[1..] == s[1..] + rest;
      if k != [] {
        MatchesLiteral(s[1..], rest, k[1..]);
        assert s <= k <==> s[0] == k[0] && s[1..] <= k[1..] by {
          if s[0] == k[0] && s[1..] <= k[1..] {
            assert s == [s[0]] + s[1..] && k == [k[0]] + k[1..];
          }
        }
        assert s <= k ==> k[1..][|s[1..]|..] == k[|s|..];
      }
    }
  }

  lemma {:induction false} UnderscoresOnly(t: string)
    requires Homogeneous(t, true) && !HasPercent(t)
    ensures Underscores(t) == |t| && forall i :: 0 <= i < |t| ==> t[i] == '_'
  {
    forall i | 0 <= i < |t|
      ensures t[i] == '_'
    {
      assert t[i] != '%';
    }
    AllUnderscores(t);
  }

  lemma {:induction false} AllUnderscores(t: string)
    requires forall i :: 0 <= i < |t| ==> t[i] == '_'
    ensures Underscores(t) == |t|
  {
    if t != [] {
      AllUnderscores(t[1..]);
    }
  }

  lemma {:induction false} MatchesRunes(t: string, rest: string, k: string)
    requires forall i :: 0 <= i < |t| ==> t[i] == '_'
    ensures Matches(t + rest, k) <==> |t| <= |k| && Matches(rest, k[|t|..])
  {
    if t == [] {
      assert t + rest == rest && k[0..] == k;
    } else {
      var p := t + rest;
      assert p[0] == '_' && p[1..] == t[1..] + rest;
      if k != [] {
        MatchesRunes(t[1..], rest, k[1..]);
        assert |t| <= |k| ==> k[1..][|t[1..]|..] == k[|t|..];
      }
    }
  }

  /** Something from position n on matches the rest. */
  ghost predicate From(rest: string, k: string, n: nat) {
    exists j :: n <= j <= |k| && Matches(rest, k[j..])
  }

  lemma FromShift(rest: string, k: string, i: nat, n: nat)
    requires i <= |k|
    ensures From(rest, k[i..], n) <==> From(rest, k, i + n)
  {
    if j :| n <= j <= |k[i..]| && Matches(rest, k[i..][j..]) {
      assert k[i..][j..] == k[i + j..];
    }
    if j :| i + n <= j <= |k| && Matches(rest, k[j..]) {
      assert k[i..][j - i..] == k[j..];
    }
  }

  lemma {:induction false} MatchesPercent(t: string, rest: string, k: string)
    requires Homogeneous(t, true) && HasPercent(t)
    ensures Matches(t + rest, k) <==> From(rest, k, Underscores(t))
    decreases |t|, 1
  {
    var p := t + rest;
    assert p[0] == t[0] && p[1..] == t[1..] + rest;
    if t[0] == '_' {
      assert HasPercent(t[1..]) by {
        var i :| 0 <= i < |t| && t[i] == '%';
        assert t[1..][i - 1] == '%';
      }
      if k != [] {
        MatchesPercent(t[1..], rest, k[1..]);
        FromShift(rest, k, 1, Underscores(t[1..]));
      }
    } else {
      PercentAnyRun(p, k);
      LeadingPercent(t, rest, k);
    }
  }

  /** The runes behind a leading `%`. */
  lemma {:induction false} LeadingPercent(t: string, rest: string, k: string)
    requires Homogeneous(t, true) && t[0] == '%'
    ensures (exists i :: 0 <= i <= |k| && Matches(t[1..] + rest, k[i..])) <==> From(rest, k, Underscores(t))
    decreases |t|, 0
  {
    var n := Underscores(t);
    assert n == Underscores(t[1..]);
    forall i | 0 <= i <= |k|
      ensures Matches(t[1..] + rest, k[i..]) ==> From(rest, k, n)
    {
      TailFrom(t[1..], rest, k[i..]);
      FromShift(rest, k, i, n);
      if From(rest, k, i + n) {
        var j :| i + n <= j <= |k| && Matches(rest, k[j..]);
      }
    }
    if From(rest, k, n) {
      var j :| n <= j <= |k| && Matches(rest, k[j..]);
      TailReaches(t[1..], rest, k, j);
    }
  }

  lemma {:induction false} TailFrom(t: string, rest: string, k: string)
    requires t == [] || Homogeneous(t, true)
    ensures Matches(t + rest, k) ==> From(rest, k, Underscores(t))
    decreases |t|, 2
  {
    if t != [] && HasPercent(t) {
      MatchesPercent(t, rest, k);
    } else {
      if t != [] {
        UnderscoresOnly(t);
      }
      MatchesRunes(t, rest, k);
    }
  }

  /** Any end far enough away can be reached by starting the tail late. */
  lemma {:induction false} TailReaches(t: string, rest: string, k: string, j: nat)
    requires t == [] || Homogeneous(t, true)
    requires Underscores(t) <= j <= |k| && Matches(rest, k[j..])
    ensures exists i :: 0 <= i <= |k| && Matches(t + rest, k[i..])
    decreases |t|, 2
  {
    var i := j - Underscores(t);
    assert k[i..][Underscores(t)..] == k[j..];
    if t != [] && HasPercent(t) {
      MatchesPercent(t, rest, k[i..]);
    } else {
      if t != [] {
        UnderscoresOnly(t);
      }
      MatchesRunes(t, rest, k[i..]);
    }
    assert Matches(t + rest, k[i..]);
  }

  // ----- The plan means what the pattern means -----

  lemma OptimizedTail(step: Step, rest: seq<Step>)
    requires rest != []
    ensures Optimized([step] + rest) == [step] + Optimized(rest)
  {
    var all := [step] + rest;
    assert all[|all| - 1] == rest[|rest| - 1];
  }

  lemma OptimizedAlone(step: Step)
    ensures Optimized([step]) == [if step.SkipThrough? then Suffix(step.str, step.n) else step]
  {
  }

  lemma StepsOfTokens(tokens: seq<string>)
    requires tokens != []
    ensures FirstStep(tokens).SkipThrough? ==> |tokens| >= 2 && Steps(tokens) == [FirstStep(tokens)] + Steps(tokens[2..])
    ensures !FirstStep(tokens).SkipThrough? ==> Steps(tokens) == [FirstStep(tokens)] + Steps(tokens[1..])
  {
    hide HasPercent, Underscores;
  }

  lemma StepsEmpty(tokens: seq<string>)
    ensures Steps(tokens) == [] <==> tokens == []
  {
    if tokens != [] {
      StepsOfTokens(tokens);
    }
  }

  /** Counted in runes, a token list's plan accepts what its text matches. */
  lemma {:induction false} PlanMeaning(tokens: seq<string>, k: string)
    requires Alternating(tokens)
    ensures Meaning(Optimized(Steps(tokens)), k, false) <==> Matches(Concat(tokens), k)
    decreases |tokens|
  {
    if tokens != [] {
      var t := tokens[0];
      var step := FirstStep(tokens);
      StepsOfTokens(tokens);
      if step.SkipThrough? {
        ThroughMeaning(tokens, k);
      } else if step.MinLength? {
        assert tokens[1..] == [] && Concat(tokens) == t + [];
        OptimizedAlone(step);
        MatchesPercent(t, [], k);
        FromEmpty(k, step.n);
      } else {
        OneStepMeaning(tokens, k);
      }
    }
  }

  lemma FromEmpty(k: string, n: nat)
    ensures From([], k, n) <==> n <= |k|
  {
    assert k[|k|..] == [];
    if n <= |k| {
      assert n <= |k| <= |k| && Matches([], k[|k|..]);
    }
  }

  lemma {:induction false} OneStepMeaning(tokens: seq<string>, k: string)
    requires tokens != [] && Alternating(tokens)
    requires FirstStep(tokens).Prefix? || FirstStep(tokens).SkipN?
    ensures Meaning(Optimized(Steps(tokens)), k, false) <==> Matches(Concat(tokens), k)
    decreases |tokens|, 0
  {
    var t, step, rest := tokens[0], FirstStep(tokens), tokens[1..];
    StepsOfTokens(tokens);
    var n := |t|;
    if step.SkipN? {
      assert Homogeneous(t, true) by {
        UnderscoreIsPlaceholder(t);
      }
      UnderscoresOnly(t);
      MatchesRunes(t, Concat(rest), k);
    } else {
      assert Homogeneous(t, false) by {
        if Homogeneous(t, true) {
          UnderscoresOnly(t);
        }
      }
      MatchesLiteral(t, Concat(rest), k);
    }
    if rest == [] {
      OptimizedAlone(step);
    } else {
      StepsEmpty(rest);
      OptimizedTail(step, Steps(rest));
    }
    var steps := Optimized(Steps(tokens));
    assert steps[0] == step && steps[1..] == Optimized(Steps(rest));
    if n <= |k| {
      PlanMeaning(rest, k[n..]);
    }
  }

  lemma {:induction false} UnderscoreIsPlaceholder(t: string)
    requires Underscores(t) > 0
    ensures exists i :: 0 <= i < |t| && t[i] == '_'
  {
    if t[0] != '_' {
      UnderscoreIsPlaceholder(t[1..]);
      var i :| 0 <= i < |t[1..]| && t[1..][i] == '_';
      assert t[i + 1] == '_';
    } else {
      assert t[0] == '_';
    }
  }

  /** A placeholder run with a `%`, and the literal run behind it. */
  lemma ThroughTokens(tokens: seq<string>)
    requires tokens != [] && Alternating(tokens) && FirstStep(tokens).SkipThrough?
    ensures |tokens| >= 2 && FirstStep(tokens) == SkipThrough(tokens[1], Underscores(tokens[0]))
    ensures Homogeneous(tokens[0], true) && HasPercent(tokens[0]) && Homogeneous(tokens[1], false)
    ensures Concat(tokens) == tokens[0] + (tokens[1] + Concat(tokens[2..]))
    ensures Alternating(tokens[2..])
  {
    hide Homogeneous, Underscores;
    var t := tokens[0];
    assert Homogeneous(t, true) by {
      PercentIsPlaceholder(t);
    }
    assert tokens[1..][1..] == tokens[2..] && tokens[1..][0] == tokens[1];
    assert Alternating(tokens[1..]);
  }

  lemma PercentIsPlaceholder(t: string)
    requires HasPercent(t)
    ensures !Homogeneous(t, false)
  {
    var i :| 0 <= i < |t| && t[i] == '%';
  }

  lemma SuffixAlone(s: string, n: nat, k: string)
    ensures Meaning([Suffix(s, n)], k, false) <==> |s| + n <= |k| && k[|k| - |s|..] == s
  {
  }

  lemma {:induction false} ThroughMeaning(tokens: seq<string>, k: string)
    requires tokens != [] && Alternating(tokens) && FirstStep(tokens).SkipThrough?
    ensures Meaning(Optimized(Steps(tokens)), k, false) <==> Matches(Concat(tokens), k)
    decreases |tokens|, 0
  {
    hide Meaning, Optimized, Steps, Matches, Concat, Alternating, FirstStep, HasPercent, Homogeneous, Underscores, From;
    ThroughTokens(tokens);
    var s, rest, n := tokens[1], tokens[2..], Underscores(tokens[0]);
    StepsOfTokens(tokens);
    MatchesPercent(tokens[0], s + Concat(rest), k);
    FromLiteral(s, Concat(rest), k, n);
    StepsEmpty(rest);
    if rest == [] {
      assert Steps(tokens) == [SkipThrough(s, n)];
      OptimizedAlone(SkipThrough(s, n));
      SuffixMeaning(s, n, k);
      SuffixAlone(s, n, k);
      NoConcat();
    } else {
      ThroughRest(s, n, rest, k);
    }
  }

  lemma NoConcat()
    ensures Concat([]) == []
  {
  }

  lemma {:induction false} ThroughRest(s: string, n: nat, rest: seq<string>, k: string)
    requires rest != [] && Alternating(rest)
    ensures Meaning(Optimized([SkipThrough(s, n)] + Steps(rest)), k, false)
       <==> HitFrom(s, Concat(rest), k, n)
    decreases |rest| + 1, 0
  {
    hide Meaning, Optimized, Steps, Matches, Concat, Alternating;
    StepsEmpty(rest);
    OptimizedTail(SkipThrough(s, n), Steps(rest));
    var steps := Optimized([SkipThrough(s, n)] + Steps(rest));
    assert steps[0] == SkipThrough(s, n) && steps[1..] == Optimized(Steps(rest));
    forall j: nat | Occurs(s, k, j)
      ensures Meaning(steps[1..], k[j + |s|..], false) <==> Hit(s, Concat(rest), k, j)
    {
      PlanMeaning(rest, k[j + |s|..]);
    }
    ThroughStep(steps, s, n, Concat(rest), k);
  }

  lemma ThroughUnfolds(steps: seq<Step>, s: string, n: nat, k: string, bytes: bool)
    requires steps != [] && steps[0] == SkipThrough(s, n)
    ensures Meaning(steps, k, bytes)
       <==> exists j: nat :: SkipsTo(s, n, k, j, bytes) && Meaning(steps[1..], k[j + |s|..], bytes)
  {
    hide SkipsTo;
  }

  lemma ThroughStep(steps: seq<Step>, s: string, n: nat, tail: string, k: string)
    requires steps != [] && steps[0] == SkipThrough(s, n)
    requires forall j: nat :: Occurs(s, k, j) ==> (Meaning(steps[1..], k[j + |s|..], false) <==> Hit(s, tail, k, j))
    ensures Meaning(steps, k, false) <==> HitFrom(s, tail, k, n)
  {
    hide Meaning, Matches, ByteLen;
    ThroughUnfolds(steps, s, n, k, false);
    if j: nat :| SkipsTo(s, n, k, j, false) && Meaning(steps[1..], k[j + |s|..], false) {
      assert Hit(s, tail, k, j);
    }
    if j: nat :| n <= j && Hit(s, tail, k, j) {
      assert SkipsTo(s, n, k, j, false);
    }
  }

  /** The literal occurs at j and the rest matches behind it. */
  ghost predicate Hit(s: string, tail: string, k: string, j: nat) {
    Occurs(s, k, j) && Matches(tail, k[j + |s|..])
  }

  ghost predicate HitFrom(s: string, tail: string, k: string, n: nat) {
    exists j: nat :: n <= j && Hit(s, tail, k, j)
  }

  lemma FromLiteral(s: string, tail: string, k: string, n: nat)
    requires Homogeneous(s, false)
    ensures From(s + tail, k, n) <==> HitFrom(s, tail, k, n)
  {
    forall j: nat | j <= |k|
      ensures Matches(s + tail, k[j..]) <==> Hit(s, tail, k, j)
    {
      MatchesLiteral(s, tail, k[j..]);
      OccursIsPrefix(s, k, j);
    }
    if From(s + tail, k, n) {
      var j :| n <= j <= |k| && Matches(s + tail, k[j..]);
      assert Hit(s, tail, k, j);
    }
    if j: nat :| n <= j && Hit(s, tail, k, j) {
      assert Matches(s + tail, k[j..]);
    }
  }

  lemma OccursIsPrefix(s: string, k: string, j: nat)
    requires j <= |k|
    ensures Occurs(s, k, j) <==> s <= k[j..]
    ensures Occurs(s, k, j) ==> k[j..][|s|..] == k[j + |s|..]
  {
    if j + |s| <= |k| {
      assert k[j..j + |s|] == k[j..][..|s|];
    }
  }

  lemma SuffixMeaning(s: string, n: nat, k: string)
    ensures (|s| + n <= |k| && k[|k| - |s|..] == s) <==> HitFrom(s, [], k, n)
  {
    if |s| + n <= |k| && k[|k| - |s|..] == s {
      var j := |k| - |s|;
      assert k[j..j + |s|] == k[j..];
      assert k[j + |s|..] == [];
      assert Hit(s, [], k, j);
    }
    if j: nat :| n <= j && Hit(s, [], k, j) {
      assert j + |s| == |k| && k[j..j + |s|] == k[j..];
    }
  }

  /** Counted in runes, the plan of a pattern accepts exactly its matches. */
  lemma PlanMeansPattern(p: string, k: string)
    ensures Meaning(Plan(p), k, false) <==> Matches(p, k)
  {
    TokensOk(p);
    PlanMeaning(Tokens(p), k);
  }

  lemma {:induction false} StepsValid(tokens: seq<string>)
    requires Alternating(tokens)
    ensures ValidSteps(Steps(tokens))
    decreases |tokens|
  {
    if tokens != [] {
      StepsOfTokens(tokens);
      if FirstStep(tokens).SkipThrough? {
        assert Alternating(tokens[1..]) && tokens[1..][1..] == tokens[2..];
        StepsValid(tokens[2..]);
      } else {
        StepsValid(tokens[1..]);
      }
    }
  }

  lemma PlanValid(p: string)
    ensures ValidSteps(Plan(p))
  {
    TokensOk(p);
    StepsValid(Tokens(p));
  }

  // ----- Bytes and runes -----

  predicate Narrow(k: string) {
    forall i :: 0 <= i < |k| ==> Width(k[i]) == 1
  }

  lemma AsciiIsNarrow(k: string)
    requires forall i :: 0 <= i < |k| ==> k[i] as int < 0x80
    ensures Narrow(k)
  {
  }

  /** A step before the end skips a run that must have two runes or more. */
  predicate CountsBytes(steps: seq<Step>) {
    steps != [] &&
    match steps[0]
    case SkipThrough(s, n) => n >= 2 || CountsBytes(steps[1..])
    case Prefix(s) => CountsBytes(steps[1..])
    case SkipN(n) => CountsBytes(steps[1..])
    case Suffix(s, n) => false
    case MinLength(n) => false
  }

  lemma {:induction false} NarrowByteLen(k: string)
    requires Narrow(k)
    ensures ByteLen(k) == |k|
  {
    if k != [] {
      NarrowByteLen(k[..|k| - 1]);
    }
  }

  lemma SkipsAgree(s: string, n: nat, k: string, j: nat)
    requires Narrow(k) || n <= 1
    ensures SkipsTo(s, n, k, j, true) <==> SkipsTo(s, n, k, j, false)
    ensures SkipsTo(s, n, k, j, true) ==> Occurs(s, k, j)
  {
    if Occurs(s, k, j) {
      if Narrow(k) {
        NarrowByteLen(k[..j]);
      } else if j == 0 {
        NoBytes(k);
      }
    }
  }

  lemma ThroughAgree(steps: seq<Step>, s: string, n: nat, k: string)
    requires steps != [] && steps[0] == SkipThrough(s, n) && (Narrow(k) || n <= 1)
    requires forall j: nat :: Occurs(s, k, j) ==>
               (Meaning(steps[1..], k[j + |s|..], true) <==> Meaning(steps[1..], k[j + |s|..], false))
    ensures Meaning(steps, k, true) <==> Meaning(steps, k, false)
  {
    hide SkipsTo, Occurs, Narrow, Meaning;
    ThroughUnfolds(steps, s, n, k, true);
    ThroughUnfolds(steps, s, n, k, false);
    if j: nat :| SkipsTo(s, n, k, j, true) && Meaning(steps[1..], k[j + |s|..], true) {
      SkipsAgree(s, n, k, j);
    }
    if j: nat :| SkipsTo(s, n, k, j, false) && Meaning(steps[1..], k[j + |s|..], false) {
      SkipsAgree(s, n, k, j);
    }
  }

  lemma StepsAgree(steps: seq<Step>, k: string, n: nat)
    requires steps != [] && !steps[0].SkipThrough?
    requires steps[0].Prefix? ==> n == |steps[0].str|
    requires steps[0].SkipN? ==> n == steps[0].n
    requires n <= |k| ==> (Meaning(steps[1..], k[n..], true) <==> Meaning(steps[1..], k[n..], false))
    ensures Meaning(steps, k, true) <==> Meaning(steps, k, false)
  {
  }

  /** Where bytes and runes cannot differ, neither do the two meanings. */
  lemma {:induction false} MeaningsAgree(steps: seq<Step>, k: string)
    requires Narrow(k) || !CountsBytes(steps)
    ensures Meaning(steps, k, true) <==> Meaning(steps, k, false)
    decreases |steps|
  {
    if steps != [] {
      MoreAgree(steps, k);
    }
  }

  lemma {:induction false} MoreAgree(steps: seq<Step>, k: string)
    requires steps != [] && (Narrow(k) || !CountsBytes(steps))
    ensures Meaning(steps, k, true) <==> Meaning(steps, k, false)
    decreases |steps|, 0
  {
    hide Meaning;
    match steps[0]
    case SkipThrough(s, n) =>
      forall j: nat | Occurs(s, k, j)
        ensures Meaning(steps[1..], k[j + |s|..], true) <==> Meaning(steps[1..], k[j + |s|..], false)
      {
        MeaningsAgree(steps[1..], k[j + |s|..]);
      }
      ThroughAgree(steps, s, n, k);
    case Prefix(s) => MoreAgreeAt(steps, k, |s|);
    case SkipN(n) => MoreAgreeAt(steps, k, n);
    case Suffix(s, n) => StepsAgree(steps, k, |k| + 1);
    case MinLength(n) => StepsAgree(steps, k, |k| + 1);
  }

  lemma {:induction false} MoreAgreeAt(steps: seq<Step>, k: string, n: nat)
    requires steps != [] && (steps[0] == SkipN(n) || (steps[0].Prefix? && |steps[0].str| == n))
    requires Narrow(k) || !CountsBytes(steps)
    ensures Meaning(steps, k, true) <==> Meaning(steps, k, false)
    decreases |steps|, 0, 0
  {
    hide Meaning;
    if n <= |k| {
      MeaningsAgree(steps[1..], k[n..]);
    }
    StepsAgree(steps, k, n);
  }

  // ----- A key on which they differ -----

  const WIDE: char := '\U{1F600}'

  function Fill(c: char, n: nat): (s: string)
    ensures |s| == n && forall i :: 0 <= i < n ==> s[i] == c
  {
    if n == 0 then [] else Fill(c, n - 1) + [c]
  }

  lemma {:induction false} WideFill(n: nat)
    ensures ByteLen(Fill(WIDE, n)) == 4 * n
  {
    if n > 0 {
      WideFill(n - 1);
      assert Fill(WIDE, n)[..n - 1] == Fill(WIDE, n - 1);
    }
  }

  /** A key the matcher accepts, with as few runes as bytes allow. */
  function ShortKey(steps: seq<Step>): string {
    if steps == [] then []
    else
      match steps[0]
      case Prefix(s) => s + ShortKey(steps[1..])
      case SkipN(n) => Fill('a', n) + ShortKey(steps[1..])
      case SkipThrough(s, n) => Fill(WIDE, (n + 3) / 4) + (s + ShortKey(steps[1..]))
      case Suffix(s, n) => Fill('a', n) + s
      case MinLength(n) => Fill('a', n)
  }

  /** The fewest runes the steps really need. */
  function Need(steps: seq<Step>): nat {
    if steps == [] then 0
    else
      match steps[0]
      case Prefix(s) => |s| + Need(steps[1..])
      case SkipN(n) => n + Need(steps[1..])
      case SkipThrough(s, n) => n + |s| + Need(steps[1..])
      case Suffix(s, n) => n + |s|
      case MinLength(n) => n
  }

  lemma ThroughShort(steps: seq<Step>, s: string, n: nat, tail: string)
    requires steps != [] && steps[0] == SkipThrough(s, n) && Meaning(steps[1..], tail, true)
    ensures Meaning(steps, Fill(WIDE, (n + 3) / 4) + (s + tail), true)
  {
    hide ByteLen, Fill;
    var j := (n + 3) / 4;
    var k := Fill(WIDE, j) + (s + tail);
    WideFill(j);
    assert k[..j] == Fill(WIDE, j) && k[j..j + |s|] == s && k[j + |s|..] == tail;
    assert SkipsTo(s, n, k, j, true);
  }

  lemma PlainShort(steps: seq<Step>, head: string, tail: string)
    requires steps != [] && (steps[0] == Prefix(head) || steps[0] == SkipN(|head|))
    requires Meaning(steps[1..], tail, true)
    ensures Meaning(steps, head + tail, true)
  {
    assert (head + tail)[|head|..] == tail;
  }

  lemma LastShort(steps: seq<Step>)
    requires steps != [] && (steps[0].Suffix? || steps[0].MinLength?)
    ensures Meaning(steps, ShortKey(steps), true)
  {
    var k := ShortKey(steps);
    if steps[0].Suffix? {
      assert k[|k| - |steps[0].str|..] == steps[0].str;
    }
  }

  lemma {:induction false} ShortKeyAccepted(steps: seq<Step>)
    ensures Meaning(steps, ShortKey(steps), true)
    decreases |steps|
  {
    if steps != [] {
      MoreAccepted(steps);
    }
  }

  lemma {:induction false} MoreAccepted(steps: seq<Step>)
    requires steps != []
    ensures Meaning(steps, ShortKey(steps), true)
    decreases |steps|, 0
  {
    hide Meaning, Fill;
    ShortKeyAccepted(steps[1..]);
    match steps[0]
    case Prefix(s) => PlainShort(steps, s, ShortKey(steps[1..]));
    case SkipN(n) => PlainShort(steps, Fill('a', n), ShortKey(steps[1..]));
    case SkipThrough(s, n) => ThroughShort(steps, s, n, ShortKey(steps[1..]));
    case Suffix(s, n) => LastShort(steps);
    case MinLength(n) => LastShort(steps);
  }

  lemma {:induction false} ShortKeyIsShort(steps: seq<Step>)
    ensures |ShortKey(steps)| <= Need(steps)
    ensures CountsBytes(steps) ==> |ShortKey(steps)| < Need(steps)
    decreases |steps|
  {
    if steps != [] && !steps[0].Suffix? && !steps[0].MinLength? {
      ShortKeyIsShort(steps[1..]);
    }
  }

  lemma {:induction false} MeaningNeeds(steps: seq<Step>, k: string)
    requires Meaning(steps, k, false)
    ensures Need(steps) <= |k|
    decreases |steps|
  {
    if steps != [] {
      match steps[0]
      case Prefix(s) => MeaningNeeds(steps[1..], k[|s|..]);
      case SkipN(n) => MeaningNeeds(steps[1..], k[n..]);
      case SkipThrough(s, n) =>
        var j: nat :| SkipsTo(s, n, k, j, false) && Meaning(steps[1..], k[j + |s|..], false);
        MeaningNeeds(steps[1..], k[j + |s|..]);
      case Suffix(s, n) =>
      case MinLength(n) =>
    }
  }

  // ----- The patterns whose plan counts bytes -----

  /** The placeholders in [i, j) hold a `%` and two or more `_`, a literal rune
      follows them, and behind that another placeholder. */
  predicate WideRunAt(p: string, i: nat, j: nat, k: nat) {
    && i < j < k < |p|
    && (forall m :: i <= m < j ==> IsPlaceholder(p[m]))
    && HasPercent(p[i..j]) && Underscores(p[i..j]) >= 2
    && !IsPlaceholder(p[j]) && IsPlaceholder(p[k])
  }

  ghost predicate WideRun(p: string) {
    exists i: nat, j: nat, k: nat :: WideRunAt(p, i, j, k)
  }

  lemma WideRunShift(t: string, rest: string, i: nat, j: nat, k: nat)
    requires i <= j <= k
    ensures WideRunAt(t + rest, |t| + i, |t| + j, |t| + k) <==> WideRunAt(rest, i, j, k)
  {
    hide HasPercent, Underscores, IsPlaceholder;
    var p := t + rest;
    if k < |rest| {
      assert p[|t| + i..|t| + j] == rest[i..j];
      assert forall m: nat :: m < |rest| ==> p[|t| + m] == rest[m];
      forall m | i <= m < j && WideRunAt(p, |t| + i, |t| + j, |t| + k)
        ensures IsPlaceholder(rest[m])
      {
        assert IsPlaceholder(p[|t| + m]);
      }
    }
  }

  lemma WideRunBehind(t: string, rest: string)
    requires WideRun(rest)
    ensures WideRun(t + rest)
  {
    hide WideRunAt;
    var i: nat, j: nat, k: nat :| WideRunAt(rest, i, j, k);
    assert i <= j <= k by {
      InOrder(rest, i, j, k);
    }
    WideRunShift(t, rest, i, j, k);
  }

  lemma InOrder(p: string, i: nat, j: nat, k: nat)
    requires WideRunAt(p, i, j, k)
    ensures i < j < k < |p| && IsPlaceholder(p[i]) && !IsPlaceholder(p[j]) && IsPlaceholder(p[k])
  {
  }

  lemma WideRunInRest(t: string, rest: string, i: nat, j: nat, k: nat)
    requires WideRunAt(t + rest, i, j, k) && |t| <= i
    ensures WideRun(rest)
  {
    hide WideRunAt;
    InOrder(t + rest, i, j, k);
    WideRunShift(t, rest, i - |t|, j - |t|, k - |t|);
  }

  /** A literal run hides none. */
  lemma WideRunAfterLiteral(t: string, rest: string)
    requires Homogeneous(t, false)
    ensures WideRun(t + rest) <==> WideRun(rest)
  {
    hide WideRunAt;
    if i: nat, j: nat, k: nat :| WideRunAt(t + rest, i, j, k) {
      InOrder(t + rest, i, j, k);
      assert |t| <= i;
      WideRunInRest(t, rest, i, j, k);
    }
    if WideRun(rest) {
      WideRunBehind(t, rest);
    }
  }

  lemma {:induction false} UnderscoresFrom(t: string, i: nat)
    requires i <= |t|
    ensures Underscores(t[i..]) <= Underscores(t)
    ensures HasPercent(t[i..]) ==> HasPercent(t)
  {
    if i > 0 {
      UnderscoresFrom(t[1..], i - 1);
      assert t[1..][i - 1..] == t[i..];
      if m :| 0 <= m < |t[1..]| && t[1..][m] == '%' {
        assert t[m + 1] == '%';
      }
    } else {
      assert t[0..] == t;
    }
  }

  /** A wide run that begins in the leading placeholders ends with them. */
  lemma RunEnds(t: string, rest: string, i: nat, j: nat, k: nat)
    requires Homogeneous(t, true) && (rest != [] ==> !IsPlaceholder(rest[0]))
    requires WideRunAt(t + rest, i, j, k) && i < |t|
    ensures j == |t|
  {
    hide HasPercent, Underscores;
    var p := t + rest;
    forall m | 0 <= m < |t|
      ensures IsPlaceholder(p[m])
    {
      assert p[m] == t[m];
    }
    assert |t| < |p| ==> p[|t|] == rest[0];
  }

  /** The first placeholder run is wide, or a later one is. */
  lemma WideRunAfterPlaceholders(t: string, rest: string)
    requires Homogeneous(t, true) && (rest != [] ==> !IsPlaceholder(rest[0]))
    ensures WideRun(t + rest)
       <==> WideRun(rest) || (HasPercent(t) && Underscores(t) >= 2 && HasPlaceholder(rest))
  {
    hide HasPercent, Underscores;
    var p := t + rest;
    if i: nat, j: nat, k: nat :| WideRunAt(p, i, j, k) {
      if |t| <= i {
        WideRunInRest(t, rest, i, j, k);
      } else {
        RunEnds(t, rest, i, j, k);
        assert p[i..j] == t[i..];
        UnderscoresFrom(t, i);
        assert IsPlaceholder(rest[k - |t|]);
      }
    }
    if WideRun(rest) {
      WideRunBehind(t, rest);
    } else if HasPercent(t) && Underscores(t) >= 2 && HasPlaceholder(rest) {
      var k :| 0 <= k < |rest| && IsPlaceholder(rest[k]);
      assert p[0..|t|] == t && p[|t|] == rest[0] && p[|t| + k] == rest[k];
      assert WideRunAt(p, 0, |t|, |t| + k);
    }
  }

  predicate HasPlaceholder(p: string) {
    exists k :: 0 <= k < |p| && IsPlaceholder(p[k])
  }

  /** The plan counts bytes for exactly the patterns with a wide run. */
  lemma {:induction false} CountsBytesIff(p: string)
    ensures CountsBytes(Plan(p)) <==> WideRun(p)
    decreases |p|
  {
    hide Tokens, Steps, Optimized, FirstStep, CountsBytes, WideRun, HasPercent, Underscores, HasPlaceholder;
    if p == [] {
      NoTokens();
      NoSteps();
      NothingWide();
    } else {
      FirstToken(p);
      var t := Tokens(p)[0];
      var rest := p[|t|..];
      assert p == t + rest;
      if IsPlaceholder(p[0]) {
        WideRunAfterPlaceholders(t, rest);
        if HasPercent(t) {
          BytesAfterPercent(p, t, rest);
        } else {
          CountsBytesIff(rest);
          OneStepBytes(p, t, rest);
        }
      } else {
        WideRunAfterLiteral(t, rest);
        CountsBytesIff(rest);
        OneStepBytes(p, t, rest);
      }
    }
  }

  lemma NothingWide()
    ensures !WideRun([]) && !CountsBytes(Optimized([]))
  {
  }

  lemma OneStepBytes(p: string, t: string, rest: string)
    requires p != [] && Tokens(p) != [] && t == Tokens(p)[0] && Tokens(p)[1..] == Tokens(rest)
    requires Homogeneous(t, false) || (Homogeneous(t, true) && !HasPercent(t))
    ensures CountsBytes(Plan(p)) <==> CountsBytes(Plan(rest))
  {
    hide Tokens, Steps, Optimized;
    var step := FirstStep(Tokens(p));
    assert !HasPercent(t) by {
      if HasPercent(t) {
        PercentIsPlaceholder(t);
      }
    }
    StepsOfTokens(Tokens(p));
    StepsEmpty(Tokens(rest));
    if Tokens(rest) == [] {
      OptimizedAlone(step);
      NothingWide();
      assert [step] + [] == [step];
    } else {
      OptimizedTail(step, Steps(Tokens(rest)));
      assert ([step] + Plan(rest))[1..] == Plan(rest);
    }
  }

  lemma AllLiteral(t: string)
    requires Homogeneous(t, false)
    ensures !HasPlaceholder(t) && !WideRun(t)
  {
    hide WideRunAt;
    if i: nat, j: nat, k: nat :| WideRunAt(t, i, j, k) {
      InOrder(t, i, j, k);
    }
  }

  lemma {:induction false} BytesAfterPercent(p: string, t: string, rest: string)
    requires p != [] && Tokens(p) != [] && t == Tokens(p)[0] && Tokens(p)[1..] == Tokens(rest) && |rest| < |p|
    requires HasPercent(t) && (rest != [] ==> !IsPlaceholder(rest[0]))
    ensures CountsBytes(Plan(p)) <==> WideRun(rest) || (Underscores(t) >= 2 && HasPlaceholder(rest))
    decreases |p|, 0
  {
    hide Tokens, Steps, Optimized, CountsBytes, WideRun, HasPercent, Underscores, HasPlaceholder;
    var tokens, n := Tokens(p), Underscores(t);
    StepsOfTokens(tokens);
    if rest == [] {
      NoTokens();
      NoSteps();
      OptimizedAlone(MinLength(n));
      assert [MinLength(n)] + [] == [MinLength(n)];
      LastBytes(MinLength(n));
      NoPlaceholder();
      NothingWide();
    } else {
      FirstToken(rest);
      var s := Tokens(rest)[0];
      var rest2 := rest[|s|..];
      assert rest == s + rest2 && tokens[1] == s;
      assert tokens[2..] == Tokens(rest)[1..];
      WideRunAfterLiteral(s, rest2);
      var step := SkipThrough(s, n);
      if rest2 == [] {
        NoTokens();
        NoSteps();
        OptimizedAlone(step);
        assert [step] + [] == [step] && s + [] == s;
        LastBytes(Suffix(s, n));
        AllLiteral(s);
      } else {
        CountsBytesIff(rest2);
        FirstToken(rest2);
        StepsEmpty(Tokens(rest2));
        OptimizedTail(step, Steps(Tokens(rest2)));
        ThroughBytes(s, n, Plan(rest2));
        PlaceholderAt(rest, |s|);
      }
    }
  }

  lemma LastBytes(step: Step)
    requires step.MinLength? || step.Suffix?
    ensures !CountsBytes([step])
  {
  }

  lemma ThroughBytes(s: string, n: nat, steps: seq<Step>)
    ensures CountsBytes([SkipThrough(s, n)] + steps) <==> n >= 2 || CountsBytes(steps)
  {
    assert ([SkipThrough(s, n)] + steps)[1..] == steps;
  }

  lemma NoPlaceholder()
    ensures !HasPlaceholder([])
  {
  }

  lemma PlaceholderAt(p: string, k: nat)
    requires k < |p| && IsPlaceholder(p[k])
    ensures HasPlaceholder(p)
  {
  }

  /** The matcher is right for every key if and only if the pattern has no run of
      placeholders with a `%` and two or more `_` before a literal that a further
      placeholder follows. */
  lemma RightForAllKeysIff(p: string)
    ensures (forall k :: Meaning(Plan(p), k, true) <==> Matches(p, k)) <==> !WideRun(p)
  {
    hide Plan, WideRun;
    CountsBytesIff(p);
    if CountsBytes(Plan(p)) {
      var k := ShortKey(Plan(p));
      ShortKeyAccepted(Plan(p));
      ShortKeyIsShort(Plan(p));
      PlanMeansPattern(p, k);
      if Matches(p, k) {
        MeaningNeeds(Plan(p), k);
      }
    } else {
      forall k
        ensures Meaning(Plan(p), k, true) <==> Matches(p, k)
      {
        MeaningsAgree(Plan(p), k);
        PlanMeansPattern(p, k);
      }
    }
  }

  lemma TokensOfExample()
    ensures Tokens("__%b%") == ["__%", "b", "%"]
  {
    hide Tokens;
    var p := "__%b%";
    TokensUnfold(p, true, 3);
    assert p[..3] == "__%" && p[3..] == "b%";
    TokensUnfold("b%", false, 1);
    assert "b%"[..1] == "b" && "b%"[1..] == "%";
    TokensUnfold("%", true, 1);
    assert "%"[..1] == "%" && "%"[1..] == "";
    NoTokens();
  }

  lemma PlanOfExample()
    ensures Plan("__%b%") == [SkipThrough("b", 2), MinLength(0)]
  {
    hide Tokens, Steps;
    TokensOfExample();
    var tokens := ["__%", "b", "%"];
    assert "__%"[2] == '%' && "__%"[1..] == "_%" && "_%"[1..] == "%";
    assert FirstStep(tokens) == SkipThrough("b", 2);
    StepsOfTokens(tokens);
    assert tokens[2..] == ["%"] && "%"[0] == '%';
    assert FirstStep(["%"]) == MinLength(0);
    StepsOfTokens(["%"]);
    assert ["%"][1..] == [];
    NoSteps();
  }

  /** Two required runes, one wide rune: accepted all the same. */
  lemma WideRuneFoolsTwoUnderscores()
    ensures !Matches("__%b%", [WIDE, 'b']) && Meaning(Plan("__%b%"), [WIDE, 'b'], true)
  {
    PlanOfExample();
    hide Plan, Tokens, Steps;
    var k := [WIDE, 'b'];
    assert k[1..] == ['b'] && k[2..] == [] && ['b'][1..] == [];
    assert "__%b%"[1..] == "_%b%" && "_%b%"[1..] == "%b%";
    assert !Matches("%b%", []) by {
      assert "%b%"[1..] == "b%";
    }
    assert k[..1] == [WIDE];
    ByteLenOne(WIDE);
    assert SkipsTo("b", 2, k, 1, true);
    assert k[1 + |"b"|..] == [];
  }

  /** Planning and matching: right for every key of single-byte runes, and for
      every key at all unless the pattern has a wide run. */
  method MatchPattern(pattern: string, key: string) returns (r: bool)
    ensures r <==> Meaning(Plan(pattern), key, true)
    ensures Narrow(key) || !WideRun(pattern) ==> (r <==> Matches(pattern, key))
  {
    hide WideRun;
    var steps := PlanLike(pattern);
    PlanValid(pattern);
    CountsBytesIff(pattern);
    r := MatchLike(key, steps);
    PlanMeansPattern(pattern, key);
    if Narrow(key) || !CountsBytes(Plan(pattern)) {
      MeaningsAgree(Plan(pattern), key);
    }
  }
}
