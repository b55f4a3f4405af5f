// LIKE patterns (like.go): tokenizing, planning and matching.  Keys are valid
// UTF-8 text, read as runes; where the source counts bytes, so does the model.
module Like {

  predicate IsPlaceholder(c: char) {
    c == '%' || c == '_'
  }

  /** The length of a rune in UTF-8. */
  function Width(c: char): (w: nat)
    ensures 1 <= w <= 4
  {
    var n := c as int;
    if n < 0x80 then 1 else if n < 0x800 then 2 else if n < 0x1_0000 then 3 else 4
  }

  function ByteLen(s: string): (n: nat)
    ensures n >= |s|
  {
    if s == [] then 0 else ByteLen(s[..|s| - 1]) + Width(s[|s| - 1])
  }

  // ----- The meaning of a pattern -----

  /** `%` stands for any run of runes, `_` for one rune. */
  predicate Matches(p: string, k: string)
    decreases |p| + |k|
  {
    if p == [] then k == []
    else if p[0] == '%' then Matches(p[1..], k) || (k != [] && Matches(p, k[1..]))
    else k != [] && (p[0] == '_' || p[0] == k[0]) && Matches(p[1..], k[1..])
  }

  /** Said with a choice of where the run ends. */
  lemma {:induction false} PercentAnyRun(p: string, k: string)
    requires p != [] && p[0] == '%'
    ensures Matches(p, k) <==> exists j :: 0 <= j <= |k| && Matches(p[1..], k[j..])
    decreases |k|
  {
    if Matches(p[1..], k) {
      assert k[0..] == k;
    }
    if k != [] {
      PercentAnyRun(p, k[1..]);
      if Matches(p, k[1..]) {
        var j :| 0 <= j <= |k[1..]| && Matches(p[1..], k[1..][j..]);
        assert k[1..][j..] == k[j + 1..];
      }
      if j :| 0 <= j <= |k| && Matches(p[1..], k[j..]) {
        if j > 0 {
          assert k[1..][j - 1..] == k[j..];
        } else {
          assert k[0..] == k;
        }
      }
    } else {
      assert forall j :: 0 <= j <= |k| ==> k[j..] == k;
    }
  }

  // ----- Tokens -----

  /** How many leading runes are placeholders (or are not). */
  function RunLength(p: string, placeholders: bool): (n: nat)
    ensures n <= |p|
    ensures forall i :: 0 <= i < n ==> IsPlaceholder(p[i]) == placeholders
    ensures n < |p| ==> IsPlaceholder(p[n]) != placeholders
  {
    if p == [] || IsPlaceholder(p[0]) != placeholders then 0 else 1 + RunLength(p[1..], placeholders)
  }

  /** Maximal runs of placeholders and of other runes, alternating. */
  function Tokens(p: string): seq<string>
    decreases |p|
  {
    if p == [] then []
    else
      var n := RunLength(p, IsPlaceholder(p[0]));
      [p[..n]] + Tokens(p[n..])
  }

  method TokenizeLike(like0: string) returns (tokens: seq<string>)
    ensures tokens == Tokens(like0)
  {
    hide Tokens;
    NoTokens();
    var like := like0;
    tokens := [];
    while like != []
      invariant tokens + Tokens(like) == Tokens(like0)
      decreases |like|
    {
      var token: string;
      var i := IndexAnyPlaceholder(like);
      if i == 0 {
        var j := 1;
        while j < |like| && (like[j] == '%' || like[j] == '_')
          invariant 1 <= j <= |like| && forall k :: 0 <= k < j ==> IsPlaceholder(like[k])
        {
          j := j + 1;
        }
        TokensUnfold(like, true, j);
        token, like := like[..j], like[j..];
      } else if i == -1 {
        TokensUnfold(like, false, |like|);
        assert like[..|like|] == like && like[|like|..] == [];
        token, like := like, [];
      } else {
        TokensUnfold(like, false, i);
        token, like := like[..i], like[i..];
      }
      tokens := tokens + [token];
    }
  }

  lemma {:induction false} RunIs(p: string, placeholders: bool, n: nat)
    requires n <= |p| && forall i :: 0 <= i < n ==> IsPlaceholder(p[i]) == placeholders
    requires n < |p| ==> IsPlaceholder(p[n]) != placeholders
    ensures RunLength(p, placeholders) == n
  {
  }

  lemma TokensUnfold(p: string, placeholders: bool, n: nat)
    requires 0 < n <= |p| && forall i :: 0 <= i < n ==> IsPlaceholder(p[i]) == placeholders
    requires n < |p| ==> IsPlaceholder(p[n]) != placeholders
    ensures Tokens(p) == [p[..n]] + Tokens(p[n..])
  {
    RunIs(p, placeholders, n);
  }

  lemma NoTokens()
    ensures Tokens([]) == []
  {
  }

  method IndexAnyPlaceholder(s: string) returns (i: int)
    ensures -1 <= i < |s|
    ensures i >= 0 ==> IsPlaceholder(s[i])
    ensures forall k :: 0 <= k < (if i < 0 then |s| else i) ==> !IsPlaceholder(s[k])
  {
    for k := 0 to |s|
      invariant forall j :: 0 <= j < k ==> !IsPlaceholder(s[j])
    {
      if IsPlaceholder(s[k]) {
        return k;
      }
    }
    i := -1;
  }

  // ----- Plans -----

  datatype Step =
    | Prefix(str: string)
    | SkipN(n: nat)
    | SkipThrough(str: string, n: nat)
    | Suffix(str: string, n: nat)
    | MinLength(n: nat)

  predicate HasPercent(t: string) {
    exists i :: 0 <= i < |t| && t[i] == '%'
  }

  function Underscores(t: string): nat {
    if t == [] then 0 else (if t[0] == '_' then 1 else 0) + Underscores(t[1..])
  }

  /** The step for the first token; after a `%` it also takes the second. */
  function FirstStep(tokens: seq<string>): Step
    requires tokens != []
  {
    var t, n := tokens[0], Underscores(tokens[0]);
    if HasPercent(t) && |tokens| > 1 then SkipThrough(tokens[1], n)
    else if HasPercent(t) then MinLength(n)
    else if n > 0 then SkipN(n)
    else Prefix(t)
  }

  /** The steps of a token list, before the suffix optimization. */
  function Steps(tokens: seq<string>): seq<Step> {
    if tokens == [] then []
    else
      var step := FirstStep(tokens);
      [step] + Steps(tokens[if step.SkipThrough? then 2 else 1..])
  }

  function Optimized(steps: seq<Step>): seq<Step> {
    if steps != [] && steps[|steps| - 1].SkipThrough? then
      steps[|steps| - 1 := Suffix(steps[|steps| - 1].str, steps[|steps| - 1].n)]
    else steps
  }

  function Plan(p: string): seq<Step> {
    Optimized(Steps(Tokens(p)))
  }

  method PlanLike(like: string) returns (steps: seq<Step>)
    ensures steps == Plan(like)
  {
    hide Steps, FirstStep, Tokens;
    var tokens := TokenizeLike(like);
    steps := [];
    NoSteps();
    assert tokens[0..] == tokens;
    var merged := false;
    for i := 0 to |tokens|
      invariant merged ==> i < |tokens|
      invariant steps + Steps(tokens[if merged then i + 1 else i..]) == Steps(tokens)
    {
      if merged {
        merged := false;
      } else {
        var step := Convert(tokens, i);
        merged := step.SkipThrough?;
        StepsUnfold(tokens, i);
        steps := steps + [step];
      }
    }
    assert tokens[|tokens|..] == [];
    if |steps| > 0 && steps[|steps| - 1].SkipThrough? {
      steps := steps[|steps| - 1 := Suffix(steps[|steps| - 1].str, steps[|steps| - 1].n)];
    }
  }

  lemma NoSteps()
    ensures Steps([]) == []
  {
  }

  method Convert(tokens: seq<string>, i: nat) returns (step: Step)
    requires i < |tokens|
    ensures step == FirstStep(tokens[i..])
    ensures step.SkipThrough? ==> i + 1 < |tokens|
  {
    var t := tokens[i];
    var hasPercent, underscores := HasPercent(t), Underscores(t);
    if hasPercent && i + 1 < |tokens| {
      step := SkipThrough(tokens[i + 1], underscores);
    } else if hasPercent {
      step := MinLength(underscores);
    } else if underscores > 0 {
      step := SkipN(underscores);
    } else {
      step := Prefix(t);
    }
  }

  lemma StepsUnfold(tokens: seq<string>, i: nat)
    requires i < |tokens|
    ensures var step := FirstStep(tokens[i..]);
            var next := if step.SkipThrough? then i + 2 else i + 1;
            next <= |tokens| && Steps(tokens[i..]) == [step] + Steps(tokens[next..])
  {
    var step := FirstStep(tokens[i..]);
    assert tokens[i..][if step.SkipThrough? then 2 else 1..] == tokens[if step.SkipThrough? then i + 2 else i + 1..];
  }

  // ----- The meaning of a plan -----

  predicate Occurs(s: string, k: string, j: nat)
    ensures Occurs(s, k, j) ==> j + |s| <= |k|
  {
    j + |s| <= |k| && k[j..j + |s|] == s
  }

  /** A skip-through step is met at j: the string occurs there, and what was
      skipped is long enough, counted in bytes or in runes. */
  predicate SkipsTo(s: string, n: nat, k: string, j: nat, bytes: bool)
    ensures SkipsTo(s, n, k, j, bytes) ==> j + |s| <= |k|
  {
    Occurs(s, k, j) && (if bytes then ByteLen(k[..j]) else j) >= n
  }

  /** What the steps accept. */
  ghost predicate Meaning(steps: seq<Step>, k: string, bytes: bool)
    decreases |steps|
  {
    if steps == [] then k == []
    else
      match steps[0]
      case Prefix(s) => s <= k && Meaning(steps[1..], k[|s|..], bytes)
      case SkipN(n) => n <= |k| && Meaning(steps[1..], k[n..], bytes)
      case SkipThrough(s, n) =>
        exists j: nat :: SkipsTo(s, n, k, j, bytes) && Meaning(steps[1..], k[j + |s|..], bytes)
      case Suffix(s, n) => |s| + n <= |k| && k[|k| - |s|..] == s
      case MinLength(n) => n <= |k|
  }

  // ----- The matcher -----

  /** The first occurrence of a string, or -1. */
  method Index(k: string, s: string) returns (j: int)
    ensures -1 <= j <= |k|
    ensures j >= 0 ==> Occurs(s, k, j)
    ensures forall i: nat :: Occurs(s, k, i) ==> 0 <= j <= i
  {
    for i := 0 to |k| + 1
      invariant forall m: nat :: m < i ==> !Occurs(s, k, m)
    {
      if Occurs(s, k, i) {
        return i;
      }
    }
    j := -1;
  }

  ghost predicate ValidSteps(steps: seq<Step>) {
    forall i :: 0 <= i < |steps| && steps[i].SkipThrough? ==> steps[i].str != []
  }

  lemma {:induction false} ByteLenConcat(a: string, b: string)
    ensures ByteLen(a + b) == ByteLen(a) + ByteLen(b)
  {
    if b == [] {
      assert a + b == a;
    } else {
      assert (a + b)[..|a + b| - 1] == a + b[..|b| - 1];
      ByteLenConcat(a, b[..|b| - 1]);
    }
  }

  lemma NoBytes(k: string)
    ensures ByteLen(k[..0]) == 0
  {
  }

  lemma ByteLenOne(c: char)
    ensures ByteLen([c]) == Width(c)
  {
    assert [c][..0] == [];
  }

  lemma ByteLenPrefix(k: string, i: nat, j: nat)
    requires i <= j <= |k|
    ensures ByteLen(k[..i]) <= ByteLen(k[..j])
    ensures ByteLen(k[..j]) == ByteLen(k[..i]) + ByteLen(k[i..j])
  {
    assert k[..j] == k[..i] + k[i..j];
    ByteLenConcat(k[..i], k[i..j]);
  }

  /** Skips until enough bytes are behind: the next position q such that every
      occurrence with enough in front of it is at q or later. */
  method SkipAhead(k: string, s: string, n: nat) returns (q: int)
    requires s != []
    ensures -1 <= q <= |k|
    ensures q >= 0 ==> forall j: nat :: SkipsTo(s, n, k, j, true) <==> q <= j && Occurs(s, k, j)
    ensures q < 0 ==> forall j: nat :: !SkipsTo(s, n, k, j, true)
  {
    hide ByteLen, Occurs;
    q := 0;
    var skipped := 0;
    NoBytes(k);
    while skipped < n
      invariant 0 <= q <= |k| && skipped == ByteLen(k[..q])
      invariant forall j: nat :: j < q && Occurs(s, k, j) ==> ByteLen(k[..j]) < n
      decreases |k| - q
    {
      var j := Index(k[q..], s);
      if j == -1 {
        NoneLeft(s, k, q);
        return -1;
      }
      FirstIsNext(s, k, q, j);
      if j == 0 {
        ByteLenPrefix(k, q, q + 1);
        assert k[q..q + 1] == [k[q]];
        ByteLenOne(k[q]);
        skipped := skipped + Width(k[q]);
        q := q + 1;
      } else {
        ByteLenPrefix(k, q, q + j);
        assert k[q..][..j] == k[q..q + j];
        skipped := skipped + ByteLen(k[q..][..j]);
        q := q + j;
      }
    }
    forall j: nat | Occurs(s, k, j)
      ensures SkipsTo(s, n, k, j, true) <==> q <= j
    {
      if q <= j {
        ByteLenPrefix(k, q, j);
      }
    }
  }

  /** Occurrences in the rest of a key are the later occurrences in the key. */
  lemma OccursShift(s: string, k: string, q: nat)
    requires q <= |k|
    ensures forall i: nat :: Occurs(s, k[q..], i) <==> Occurs(s, k, q + i)
  {
    forall i: nat
      ensures Occurs(s, k[q..], i) <==> Occurs(s, k, q + i)
    {
      if i + |s| <= |k[q..]| {
        assert k[q..][i..i + |s|] == k[q + i..q + i + |s|];
      }
    }
  }

  /** Matches a key against a plan, backtracking over the occurrences of a
      skip-through string.  Lengths of skipped text are counted in bytes. */
  method MatchLike(key: string, steps: seq<Step>) returns (r: bool)
    requires ValidSteps(steps)
    ensures r <==> Meaning(steps, key, true)
    decreases |steps|, 1
  {
    var k := key;
    for i := 0 to |steps|
      invariant Meaning(steps, key, true) <==> Meaning(steps[i..], k, true)
    {
      var step := steps[i];
      assert steps[i..][0] == step && steps[i..][1..] == steps[i + 1..];
      match step
      case Prefix(s) =>
        if !(s <= k) {
          return false;
        }
        k := k[|s|..];
      case SkipN(n) =>
        var ok, rest := SkipRunes(k, n);
        if !ok {
          return false;
        }
        k := rest;
      case SkipThrough(s, n) =>
        r := MatchThrough(k, step, steps[i + 1..]);
        return;
      case Suffix(s, n) =>
        if |k| < |s| || k[|k| - |s|..] != s {
          return false;
        }
        return |k| - |s| >= n;
      case MinLength(n) =>
        return |k| >= n;
    }
    r := k == [];
  }

  method SkipRunes(key: string, n: nat) returns (ok: bool, rest: string)
    ensures ok <==> n <= |key|
    ensures ok ==> rest == key[n..]
  {
    rest := key;
    for j := 0 to n
      invariant j <= |key| && rest == key[j..]
    {
      if rest == [] {
        return false, rest;
      }
      rest := rest[1..];
    }
    ok := true;
  }

  /** Tries the occurrences of the string one after the other. */
  method MatchThrough(key: string, step: Step, remaining: seq<Step>) returns (r: bool)
    requires step.SkipThrough? && step.str != [] && ValidSteps(remaining)
    ensures r <==> exists j: nat :: SkipsTo(step.str, step.n, key, j, true) && Meaning(remaining, key[j + |step.str|..], true)
    decreases |remaining| + 1, 0
  {
    hide Meaning, SkipsTo, ByteLen, Occurs;
    var s := step.str;
    var q := SkipAhead(key, s, step.n);
    if q < 0 {
      return false;
    }
    var p: nat := q;
    while true
      invariant q <= p <= |key|
      invariant forall j: nat :: j < p && SkipsTo(s, step.n, key, j, true) ==> !Meaning(remaining, key[j + |s|..], true)
      decreases |key| - p
    {
      var j := Index(key[p..], s);
      if j == -1 {
        NoneLeft(s, key, p);
        return false;
      }
      FirstIsNext(s, key, p, j);
      p := p + j;
      var matched := MatchLike(key[p + |s|..], remaining);
      if matched {
        assert SkipsTo(s, step.n, key, p, true);
        return true;
      }
      p := p + 1;
    }
  }

  lemma NoneLeft(s: string, k: string, p: nat)
    requires p <= |k| && forall i: nat :: !Occurs(s, k[p..], i)
    ensures forall j: nat :: Occurs(s, k, j) ==> j < p
  {
    OccursShift(s, k, p);
    forall j: nat | p <= j
      ensures !Occurs(s, k, j)
    {
      assert Occurs(s, k[p..], j - p) <==> Occurs(s, k, p + (j - p));
    }
  }

  lemma FirstIsNext(s: string, k: string, p: nat, j: nat)
    requires p <= |k| && Occurs(s, k[p..], j) && forall i: nat :: Occurs(s, k[p..], i) ==> j <= i
    ensures Occurs(s, k, p + j)
    ensures forall m: nat :: p <= m < p + j ==> !Occurs(s, k, m)
  {
    OccursShift(s, k, p);
    forall m: nat | p <= m < p + j
      ensures !Occurs(s, k, m)
    {
      assert Occurs(s, k[p..], m - p) <==> Occurs(s, k, p + (m - p));
    }
  }

  /** A rune takes the fewest bytes whose payload holds it: 7, 11, 16 or 21 bits
      (section 3 of RFC 3629). */
  lemma WidthIsLeast(c: char)
    ensures var payload := [0, 0x80, 0x800, 0x1_0000, 0x20_0000];
            payload[Width(c) - 1] <= c as int < payload[Width(c)]
  {
  }
}
