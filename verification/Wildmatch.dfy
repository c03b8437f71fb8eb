/** Wildcard matching for directory listings: the single-backtrack loop against the recursive
    meaning of `*` and `?`, on case-folded text. */
module Wildmatch {
  import opened Wire

  /** The meaning of a pattern: `*` is any run of characters, `?` is any one character. */
  predicate Glob(pattern: string, name: string)
    decreases |pattern| + |name|
  {
    if pattern == [] then name == []
    else if pattern[0] == '*' then Glob(pattern[1..], name) || (name != [] && Glob(pattern, name[1..]))
    else name != [] && (pattern[0] == '?' || pattern[0] == name[0]) && Glob(pattern[1..], name[1..])
  }

  predicate Accepts(pattern: string, p: nat, name: string, n: nat)
    requires p < |pattern| && n < |name|
  {
    pattern[p] == name[n] || pattern[p] == '?'
  }

  /** The loop as a function: positions in both strings, the last star and where it restarts. */
  predicate Scan(pattern: string, name: string, p: nat, n: nat, star: Option<nat>, restart: nat)
    requires p <= |pattern| && n <= |name| && restart <= n
    requires star.Some? ==> star.value < p
    decreases |pattern| - (if star.Some? then star.value + 1 else 0), |name| - restart, |name| - n, |pattern| - p
  {
    if n < |name| then
      if p < |pattern| && Accepts(pattern, p, name, n) then Scan(pattern, name, p + 1, n + 1, star, restart)
      else if p < |pattern| && pattern[p] == '*' then Scan(pattern, name, p + 1, n, Some(p), n)
      else if star.Some? then Scan(pattern, name, star.value + 1, restart + 1, star, restart + 1)
      else false
    else AllStars(pattern[p..])
  }

  predicate AllStars(s: string) {
    forall i :: 0 <= i < |s| ==> s[i] == '*'
  }

  lemma {:induction false} GlobEmptyName(pattern: string)
    ensures Glob(pattern, []) <==> AllStars(pattern)
  {
    if pattern != [] {
      GlobEmptyName(pattern[1..]);
      assert pattern == [pattern[0]] + pattern[1..];
    }
  }

  /** A star's tail may start anywhere in the name. */
  lemma {:induction false} GlobStar(pattern: string, name: string)
    requires pattern != [] && pattern[0] == '*'
    ensures Glob(pattern, name) <==> exists k :: 0 <= k <= |name| && Glob(pattern[1..], name[k..])
    decreases |name|
  {
    if name == [] {
      assert name[0..] == name;
    } else {
      GlobStar(pattern, name[1..]);
      assert name[0..] == name;
      if Glob(pattern, name[1..]) {
        var k :| 0 <= k <= |name[1..]| && Glob(pattern[1..], name[1..][k..]);
        assert name[1..][k..] == name[k + 1..];
      }
      if k :| 1 <= k <= |name| && Glob(pattern[1..], name[k..]) {
        assert name[1..][k - 1..] == name[k..];
      }
    }
  }

  /** Earlier stars never need revisiting: if the text up to a later star has been matched and the
      pattern from that star on matches some suffix, it matches every longer suffix too. */
  lemma GlobStarGrows(pattern: string, name: string, m: nat, n: nat)
    requires pattern != [] && pattern[0] == '*' && m <= n <= |name|
    requires Glob(pattern, name[n..])
    ensures Glob(pattern, name[m..])
  {
    GlobStar(pattern, name[n..]);
    GlobStar(pattern, name[m..]);
    var k :| 0 <= k <= |name[n..]| && Glob(pattern[1..], name[n..][k..]);
    assert name[m..][n - m + k..] == name[n..][k..];
  }

  /** A star-free prefix of the pattern consumes exactly its own length. */
  lemma {:induction false} GlobLiteralPrefix(segment: string, rest: string, name: string)
    requires '*' !in segment && Glob(segment + rest, name)
    ensures |segment| <= |name| && Glob(rest, name[|segment|..])
  {
    if segment == [] {
      assert segment + rest == rest && name[0..] == name;
    } else {
      assert (segment + rest)[0] == segment[0];
      assert (segment + rest)[1..] == segment[1..] + rest;
      GlobLiteralPrefix(segment[1..], rest, name[1..]);
      assert name[1..][|segment| - 1..] == name[|segment|..];
    }
  }

  /** Between the last star and the current position the pattern is literal and matched in step. */
  predicate InStep(pattern: string, p: nat, n: nat, star: Option<nat>, restart: nat)
    requires p <= |pattern|
  {
    star.Some? ==>
      && star.value < p && pattern[star.value] == '*'
      && restart <= n && n - restart == p - star.value - 1
      && '*' !in pattern[star.value + 1..p]
  }

  /** What is left to hope for: a match here, or the last star swallowing more. */
  ghost predicate Hope(pattern: string, name: string, p: nat, n: nat, star: Option<nat>, restart: nat)
    requires p <= |pattern| && n <= |name| && (star.Some? ==> star.value < p)
  {
    || Glob(pattern[p..], name[n..])
    || (star.Some? && exists k :: restart < k <= |name| && Glob(pattern[star.value + 1..], name[k..]))
  }

  /** Restarting the last star later brings the scan to the current pattern position later. */
  lemma LaterRestart(pattern: string, name: string, p: nat, n: nat, star: nat, restart: nat, k: nat)
    requires p <= |pattern| && n <= |name| && star < p
    requires InStep(pattern, p, n, Some(star), restart)
    requires restart < k <= |name| && Glob(pattern[star + 1..], name[k..])
    ensures k + (n - restart) <= |name| && Glob(pattern[p..], name[k + (n - restart)..])
  {
    var segment := pattern[star + 1..p];
    assert pattern[star + 1..] == segment + pattern[p..];
    GlobLiteralPrefix(segment, pattern[p..], name[k..]);
    assert name[k..][|segment|..] == name[k + |segment|..];
  }

  lemma CharacterAccepted(pattern: string, name: string, p: nat, n: nat, star: Option<nat>, restart: nat)
    requires '*' !in name && p < |pattern| && n < |name| && Accepts(pattern, p, name, n)
    requires (star.Some? ==> star.value < p) && InStep(pattern, p, n, star, restart)
    ensures Hope(pattern, name, p, n, star, restart) <==> Hope(pattern, name, p + 1, n + 1, star, restart)
    ensures InStep(pattern, p + 1, n + 1, star, restart)
  {
    hide Glob, InStep;
    assert name[n] in name;
    assert pattern[p] != '*';
    GlobCharacter(pattern[p..], name[n..]);
    assert pattern[p..][1..] == pattern[p + 1..] && name[n..][1..] == name[n + 1..];
    StaysInStep(pattern, p, n, star, restart);
  }

  lemma GlobCharacter(pattern: string, name: string)
    requires pattern != [] && pattern[0] != '*' && name != []
    ensures Glob(pattern, name) <==> Accepts(pattern, 0, name, 0) && Glob(pattern[1..], name[1..])
  {
  }

  lemma StaysInStep(pattern: string, p: nat, n: nat, star: Option<nat>, restart: nat)
    requires p < |pattern| && pattern[p] != '*' && InStep(pattern, p, n, star, restart)
    ensures InStep(pattern, p + 1, n + 1, star, restart)
  {
    if star.Some? { assert pattern[star.value + 1..p + 1] == pattern[star.value + 1..p] + [pattern[p]]; }
  }

  lemma StarRestarted(pattern: string, name: string, p: nat, n: nat, star: nat, restart: nat)
    requires star < p <= |pattern| && n < |name| && restart <= n
    requires p < |pattern| ==> !Accepts(pattern, p, name, n) && pattern[p] != '*'
    ensures Hope(pattern, name, p, n, Some(star), restart)
        <==> Hope(pattern, name, star + 1, restart + 1, Some(star), restart + 1)
  {
    assert !Glob(pattern[p..], name[n..]);
  }

  lemma NameExhausted(pattern: string, name: string, p: nat, star: Option<nat>, restart: nat)
    requires p <= |pattern| && restart <= |name|
    requires (star.Some? ==> star.value < p) && InStep(pattern, p, |name|, star, restart)
    ensures AllStars(pattern[p..]) <==> Hope(pattern, name, p, |name|, star, restart)
  {
    assert name[|name|..] == [];
    GlobEmptyName(pattern[p..]);
    if star.Some? && exists k :: restart < k <= |name| && Glob(pattern[star.value + 1..], name[k..]) {
      var k :| restart < k <= |name| && Glob(pattern[star.value + 1..], name[k..]);
      LaterRestart(pattern, name, p, |name|, star.value, restart, k);
    }
  }

  lemma {:induction false} ScanMeansHope(pattern: string, name: string, p: nat, n: nat, star: Option<nat>, restart: nat)
    requires '*' !in name && p <= |pattern| && n <= |name| && restart <= n
    requires star.Some? ==> star.value < p
    requires InStep(pattern, p, n, star, restart)
    ensures Scan(pattern, name, p, n, star, restart) <==> Hope(pattern, name, p, n, star, restart)
    decreases |pattern| - (if star.Some? then star.value + 1 else 0), |name| - restart, |name| - n, |pattern| - p
  {
    hide Glob, Hope;
    if n == |name| {
      NameExhausted(pattern, name, p, star, restart);
    } else if p < |pattern| && Accepts(pattern, p, name, n) {
      CharacterAccepted(pattern, name, p, n, star, restart);
      ScanMeansHope(pattern, name, p + 1, n + 1, star, restart);
    } else if p < |pattern| && pattern[p] == '*' {
      StarFound(pattern, name, p, n, star, restart);
      ScanMeansHope(pattern, name, p + 1, n, Some(p), n);
    } else if star.Some? {
      StarRestarted(pattern, name, p, n, star.value, restart);
      ScanMeansHope(pattern, name, star.value + 1, restart + 1, star, restart + 1);
    } else {
      NoHope(pattern, name, p, n, restart);
    }
  }

  lemma NoHope(pattern: string, name: string, p: nat, n: nat, restart: nat)
    requires p <= |pattern| && n < |name| && (p < |pattern| ==> !Accepts(pattern, p, name, n) && pattern[p] != '*')
    ensures !Hope(pattern, name, p, n, None, restart)
  {
  }

  /** At a new star the older star can be forgotten. */
  lemma StarFound(pattern: string, name: string, p: nat, n: nat, star: Option<nat>, restart: nat)
    requires p < |pattern| && pattern[p] == '*' && n <= |name| && restart <= n
    requires (star.Some? ==> star.value < p) && InStep(pattern, p, n, star, restart)
    ensures Hope(pattern, name, p, n, star, restart) <==> Hope(pattern, name, p + 1, n, Some(p), n)
  {
    hide Glob;
    GlobStar(pattern[p..], name[n..]);
    assert pattern[p..][1..] == pattern[p + 1..];
    if Hope(pattern, name, p, n, star, restart) {
      if !Glob(pattern[p..], name[n..]) {
        var k :| restart < k <= |name| && Glob(pattern[star.value + 1..], name[k..]);
        LaterRestart(pattern, name, p, n, star.value, restart, k);
        GlobStarGrows(pattern[p..], name, n, k + (n - restart));
      }
      var j :| 0 <= j <= |name[n..]| && Glob(pattern[p + 1..], name[n..][j..]);
      assert name[n..][j..] == name[n + j..];
    }
    if Hope(pattern, name, p + 1, n, Some(p), n) {
      if Glob(pattern[p + 1..], name[n..]) {
        assert name[n..][0..] == name[n..];
      } else {
        var k :| n < k <= |name| && Glob(pattern[p + 1..], name[k..]);
        assert name[n..][k - n..] == name[k..];
      }
    }
  }

  /** The scan decides the pattern's meaning for every name that has no `*`. */
  lemma ScanIsGlob(pattern: string, name: string)
    requires '*' !in name
    ensures Scan(pattern, name, 0, 0, None, 0) <==> Glob(pattern, name)
  {
    ScanMeansHope(pattern, name, 0, 0, None, 0);
    assert pattern[0..] == pattern && name[0..] == name;
  }

  // ----- names containing a star -----

  function Questions(n: nat): (s: string)
    ensures |s| == n && forall i :: 0 <= i < n ==> s[i] == '?'
  {
    seq(n, _ => '?')
  }

  lemma {:induction false} QuestionsMatch(name: string)
    ensures Glob(Questions(|name|), name)
  {
    if name != [] {
      QuestionsMatch(name[1..]);
      assert Questions(|name|)[1..] == Questions(|name[1..]|);
    }
  }

  lemma {:induction false} QuestionsPrefix(i: nat, rest: string, name: string)
    requires i <= |name| && Glob(rest, name[i..])
    ensures Glob(Questions(i) + rest, name)
  {
    if i == 0 {
      assert Questions(0) + rest == rest && name[0..] == name;
    } else {
      assert name[1..][i - 1..] == name[i..];
      QuestionsPrefix(i - 1, rest, name[1..]);
      assert (Questions(i) + rest)[1..] == Questions(i - 1) + rest;
    }
  }

  lemma {:induction false} LockStepFails(pattern: string, name: string, j: nat)
    requires |pattern| == |name| + 1 && pattern[|name|] == '?' && j <= |name|
    requires forall i :: 0 <= i < |name| ==> Accepts(pattern, i, name, i)
    ensures !Scan(pattern, name, j, j, None, 0)
    decreases |name| - j
  {
    if j < |name| {
      LockStepFails(pattern, name, j + 1);
    } else {
      assert pattern[j..][0] == '?';
    }
  }

  /** The loop meets the meaning of patterns for a name exactly when the name has no `*`: a literal
      star in the name is consumed by the pattern's star as an ordinary character. */
  lemma ScanCorrectExactlyWithoutStar(name: string)
    ensures (forall pattern :: Scan(pattern, name, 0, 0, None, 0) <==> Glob(pattern, name)) <==> '*' !in name
  {
    if '*' !in name {
      forall pattern ensures Scan(pattern, name, 0, 0, None, 0) <==> Glob(pattern, name) {
        ScanIsGlob(pattern, name);
      }
    } else {
      var i :| 0 <= i < |name| && name[i] == '*';
      var tail := Questions(|name| - i);
      var pattern := Questions(i) + (['*'] + tail);
      QuestionsMatch(name[i..]);
      assert (['*'] + tail)[1..] == tail;
      assert Glob(['*'] + tail, name[i..]);
      QuestionsPrefix(i, ['*'] + tail, name);
      LockStepFails(pattern, name, 0);
      assert Glob(pattern, name) && !Scan(pattern, name, 0, 0, None, 0);
    }
  }

  // ----- the loop -----

  /** Each character replaced by its lower-case form, which may be several characters. */
  function Folded(s: string, lower: char -> string): string {
    if s == "" then "" else lower(s[0]) + Folded(s[1..], lower)
  }

  /** Folding brings in no star unless some character folds to one, and leaves a star or question mark as it is. */
  lemma {:induction false} FoldedStars(s: string, lower: char -> string)
    requires forall c :: '*' in lower(c) ==> c == '*'
    ensures '*' in Folded(s, lower) ==> '*' in s
  {
    if s != "" { FoldedStars(s[1..], lower); }
  }

  /** `matches`: both arguments are folded, then scanned. */
  method Matches(pattern: string, name: string, lower: char -> string) returns (r: bool)
    ensures r == Scan(Folded(pattern, lower), Folded(name, lower), 0, 0, None, 0)
    ensures (forall c :: '*' in lower(c) ==> c == '*') && '*' !in name ==>
              r == Glob(Folded(pattern, lower), Folded(name, lower))
  {
    var foldedPattern := Fold(pattern, lower);
    var foldedName := Fold(name, lower);
    r := MatchesFolded(foldedPattern, foldedName);
    if (forall c :: '*' in lower(c) ==> c == '*') && '*' !in name { FoldedStars(name, lower); }
  }

  method Fold(s: string, lower: char -> string) returns (r: string)
    ensures r == Folded(s, lower)
  {
    r := "";
    for i := 0 to |s|
      invariant r + Folded(s[i..], lower) == Folded(s, lower)
    {
      assert s[i..][0] == s[i] && s[i..][1..] == s[i + 1..];
      r := r + lower(s[i]);
    }
  }

  lemma StarsFrom(pattern: string, i: nat)
    requires i <= |pattern|
    ensures AllStars(pattern[i..]) <==> i == |pattern| || (pattern[i] == '*' && AllStars(pattern[i + 1..]))
  {
    if i < |pattern| { assert pattern[i..] == [pattern[i]] + pattern[i + 1..]; }
  }

  method MatchesFolded(pattern: string, name: string) returns (r: bool)
    ensures r == Scan(pattern, name, 0, 0, None, 0)
    ensures '*' !in name ==> r == Glob(pattern, name)
  {
    hide Glob, AllStars;
    if '*' !in name { ScanIsGlob(pattern, name); }
    var patternIndex: nat, nameIndex: nat := 0, 0;
    var starIndex: Option<nat> := None;
    var matchIndex: nat := 0;
    while nameIndex < |name|
      invariant patternIndex <= |pattern| && nameIndex <= |name| && matchIndex <= nameIndex
      invariant starIndex.Some? ==> starIndex.value < patternIndex
      invariant Scan(pattern, name, 0, 0, None, 0)
          == Scan(pattern, name, patternIndex, nameIndex, starIndex, matchIndex)
      decreases |pattern| - (if starIndex.Some? then starIndex.value + 1 else 0), |name| - matchIndex,
          |name| - nameIndex, |pattern| - patternIndex
    {
      if patternIndex < |pattern| && (pattern[patternIndex] == name[nameIndex] || pattern[patternIndex] == '?') {
        patternIndex := patternIndex + 1;
        nameIndex := nameIndex + 1;
      } else if patternIndex < |pattern| && pattern[patternIndex] == '*' {
        starIndex := Some(patternIndex);
        matchIndex := nameIndex;
        patternIndex := patternIndex + 1;
      } else if starIndex.Some? {
        patternIndex := starIndex.value + 1;
        matchIndex := matchIndex + 1;
        nameIndex := matchIndex;
      } else {
        return false;
      }
    }
    while patternIndex < |pattern| && pattern[patternIndex] == '*'
      invariant patternIndex <= |pattern|
      invariant Scan(pattern, name, 0, 0, None, 0) == AllStars(pattern[patternIndex..])
    {
      StarsFrom(pattern, patternIndex);
      patternIndex := patternIndex + 1;
    }
    StarsFrom(pattern, patternIndex);
    return patternIndex == |pattern|;
  }
}
