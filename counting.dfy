/** `count_word` and `count_substring`: the number of matches `re.findall`
    reports for a literal framed by `\b ... \b` or by `\B ... \B`. The
    literal is read as plain text (as if escaped). */
module Counting {

  import opened Strings

  /** The zero-width assertion written on both sides of the literal. */
  datatype Anchor = WordBoundary | NonBoundary

  /** Index `i` holds a word character; positions outside the text do not. */
  predicate WordAt(t: string, i: int)
  {
    0 <= i < |t| && IsWordChar(t[i])
  }

  /** Position `i` (between `t[i - 1]` and `t[i]`) separates a word character
      from a non-word character, the edges of the text counting as non-word. */
  predicate IsBoundary(t: string, i: int)
  {
    WordAt(t, i - 1) != WordAt(t, i)
  }

  /** `\b` holds at a boundary; `\B` holds elsewhere, except that the engine
      never lets `\B` hold inside an empty text (the `re` engine of Python up
      to 3.13; from 3.14 on `\B` holds there too). */
  predicate AnchorHolds(a: Anchor, t: string, i: int)
  {
    match a
    case WordBoundary => IsBoundary(t, i)
    case NonBoundary => |t| > 0 && !IsBoundary(t, i)
  }

  /** At the edges of the text, `\b` holds next to a word character and `\B`
      next to a non-word character; in an empty text neither holds. */
  lemma AnchorsAtEdges(t: string)
    ensures AnchorHolds(WordBoundary, t, 0) <==> |t| > 0 && IsWordChar(t[0])
    ensures AnchorHolds(WordBoundary, t, |t|) <==> |t| > 0 && IsWordChar(t[|t| - 1])
    ensures AnchorHolds(NonBoundary, t, 0) <==> |t| > 0 && !IsWordChar(t[0])
    ensures AnchorHolds(NonBoundary, t, |t|) <==> |t| > 0 && !IsWordChar(t[|t| - 1])
  {
  }

  /** Inside a non-empty text, at every position exactly one of `\b` and `\B`
      holds; between two characters, `\b` holds exactly when one of them is
      a word character and the other is not. */
  lemma AnchorsComplement(t: string, i: int)
    requires |t| > 0
    ensures AnchorHolds(NonBoundary, t, i) <==> !AnchorHolds(WordBoundary, t, i)
    ensures 0 < i < |t| ==>
      (AnchorHolds(WordBoundary, t, i) <==> IsWordChar(t[i - 1]) != IsWordChar(t[i]))
  {
  }

  /** The framed literal matches `t` at position `p`. */
  predicate MatchAt(a: Anchor, w: string, t: string, p: nat)
  {
    OccursAt(w, t, p) && AnchorHolds(a, t, p) && AnchorHolds(a, t, p + |w|)
  }

  /** How far the scan moves on after a match at a position: past the match,
      or one position on after an empty match. */
  function Step(w: string): (n: nat)
    ensures n >= 1 && (w != [] ==> n == |w|)
  {
    if w == [] then 1 else |w|
  }

  /** The positions `re.findall` reports when it scans from `p`: a match is
      reported and skipped over, any other position is passed by one. */
  function MatchPositions(a: Anchor, w: string, t: string, p: nat): (ps: seq<nat>)
    requires p <= |t| + 1
    ensures ps != [] ==> p <= ps[0]
    decreases |t| + 1 - p
  {
    if p > |t| then []
    else if MatchAt(a, w, t, p) then [p] + MatchPositions(a, w, t, p + Step(w))
    else MatchPositions(a, w, t, p + 1)
  }

  /** Every position in `ps` is a match at or after `p`. */
  ghost predicate AllMatchesFrom(a: Anchor, w: string, t: string, p: nat, ps: seq<nat>)
  {
    forall k :: 0 <= k < |ps| ==> p <= ps[k] <= |t| && MatchAt(a, w, t, ps[k])
  }

  /** Each position in `ps` is at least `step` past the one before it. */
  ghost predicate Spaced(ps: seq<nat>, step: nat)
  {
    forall k :: 0 < k < |ps| ==> ps[k - 1] + step <= ps[k]
  }

  /** A match at `p` in front of matches from `p + step` on, spaced `step`
      apart, keeps both properties. */
  lemma ReportedCons(a: Anchor, w: string, t: string, p: nat, rest: seq<nat>)
    requires p <= |t| && MatchAt(a, w, t, p)
    requires AllMatchesFrom(a, w, t, p + Step(w), rest) && Spaced(rest, Step(w))
    ensures AllMatchesFrom(a, w, t, p, [p] + rest) && Spaced([p] + rest, Step(w))
  {
    var ps := [p] + rest;
    forall k | 0 <= k < |ps| ensures p <= ps[k] <= |t| && MatchAt(a, w, t, ps[k]) {
      if k > 0 { assert ps[k] == rest[k - 1]; }
    }
    forall k | 0 < k < |ps| ensures ps[k - 1] + Step(w) <= ps[k] {
      assert ps[k] == rest[k - 1];
      if k > 1 { assert ps[k - 1] == rest[k - 2]; }
    }
  }

  /** Matches from `p + 1` on are matches from `p` on. */
  lemma MatchesFromEarlier(a: Anchor, w: string, t: string, p: nat, ps: seq<nat>)
    requires AllMatchesFrom(a, w, t, p + 1, ps)
    ensures AllMatchesFrom(a, w, t, p, ps)
  {
  }

  /** Every reported position is a match at or after `p`, and the positions
      increase without overlapping. */
  lemma {:induction false} MatchPositionsSound(a: Anchor, w: string, t: string, p: nat)
    requires p <= |t| + 1
    ensures AllMatchesFrom(a, w, t, p, MatchPositions(a, w, t, p))
    ensures Spaced(MatchPositions(a, w, t, p), Step(w))
    decreases |t| + 1 - p
  {
    if p <= |t| {
      if MatchAt(a, w, t, p) {
        ScanMatch(a, w, t, p);
        MatchPositionsSound(a, w, t, p + Step(w));
        ReportedCons(a, w, t, p, MatchPositions(a, w, t, p + Step(w)));
      } else {
        ScanMiss(a, w, t, p);
        MatchPositionsSound(a, w, t, p + 1);
        MatchesFromEarlier(a, w, t, p, MatchPositions(a, w, t, p + 1));
      }
    }
  }

  /** Position `q` lies inside one of the reported matches. */
  predicate Covered(ps: seq<nat>, q: nat, step: nat)
  {
    exists k :: 0 <= k < |ps| && ps[k] <= q < ps[k] + step
  }

  /** A position inside the first reported match is covered. */
  lemma CoveredByFirst(p: nat, rest: seq<nat>, q: nat, step: nat)
    requires p <= q < p + step
    ensures Covered([p] + rest, q, step)
  {
    assert ([p] + rest)[0] == p;
  }

  /** A position covered by the later reported matches is still covered with
      one more match in front. */
  lemma CoveredByRest(p: nat, rest: seq<nat>, q: nat, step: nat)
    requires Covered(rest, q, step)
    ensures Covered([p] + rest, q, step)
  {
    var k :| 0 <= k < |rest| && rest[k] <= q < rest[k] + step;
    assert ([p] + rest)[k + 1] == rest[k];
  }

  /** The scan is leftmost and greedy: every match at or after `p` is either
      reported or overlaps a reported match that starts further left. */
  lemma {:induction false} MatchPositionsComplete(a: Anchor, w: string, t: string, p: nat, q: nat)
    requires p <= |t| + 1 && p <= q && MatchAt(a, w, t, q)
    ensures Covered(MatchPositions(a, w, t, p), q, Step(w))
    decreases |t| + 1 - p, 1
  {
    if p == q || MatchAt(a, w, t, p) {
      CoveredAfterMatch(a, w, t, p, q);
    } else {
      ScanMiss(a, w, t, p);
      MatchPositionsComplete(a, w, t, p + 1, q);
    }
  }

  /** The step of `MatchPositionsComplete` where the scan reports a match at
      `p`: `q` lies in that match or in one reported after it. */
  lemma {:induction false} CoveredAfterMatch(a: Anchor, w: string, t: string, p: nat, q: nat)
    requires p <= |t| && p <= q && MatchAt(a, w, t, p) && MatchAt(a, w, t, q)
    ensures Covered(MatchPositions(a, w, t, p), q, Step(w))
    decreases |t| + 1 - p, 0
  {
    ScanMatch(a, w, t, p);
    var rest := MatchPositions(a, w, t, p + Step(w));
    if p + Step(w) <= q {
      MatchPositionsComplete(a, w, t, p + Step(w), q);
      CoveredByRest(p, rest, q, Step(w));
    } else {
      CoveredByFirst(p, rest, q, Step(w));
    }
  }

  /** Reported matches of a non-empty literal fit side by side in what is
      left of the text after `p`. */
  lemma {:induction false} MatchPositionsFit(a: Anchor, w: string, t: string, p: nat)
    requires p <= |t| && w != []
    ensures |MatchPositions(a, w, t, p)| * |w| <= |t| - p
    decreases |t| - p
  {
    if MatchAt(a, w, t, p) {
      ScanMatch(a, w, t, p);
      MatchPositionsFit(a, w, t, p + |w|);
      var n := |MatchPositions(a, w, t, p + |w|)|;
      MulSucc(n, |w|);
    } else {
      ScanMiss(a, w, t, p);
      if p < |t| {
        MatchPositionsFit(a, w, t, p + 1);
      } else {
        assert MatchPositions(a, w, t, p + 1) == [];
      }
    }
  }

  /** One step of the scan where a match is reported. */
  lemma ScanMatch(a: Anchor, w: string, t: string, p: nat)
    requires p <= |t| && MatchAt(a, w, t, p)
    ensures MatchPositions(a, w, t, p) == [p] + MatchPositions(a, w, t, p + Step(w))
  {
  }

  /** One step of the scan past a position where nothing matches. */
  lemma ScanMiss(a: Anchor, w: string, t: string, p: nat)
    requires p <= |t| && !MatchAt(a, w, t, p)
    ensures MatchPositions(a, w, t, p) == MatchPositions(a, w, t, p + 1)
  {
  }

  /** One step of the scan past an occurrence that the anchors reject. */
  lemma ScanMissAnchor(a: Anchor, w: string, t: string, p: nat)
    requires p <= |t| && !(AnchorHolds(a, t, p) && AnchorHolds(a, t, p + |w|))
    ensures MatchPositions(a, w, t, p) == MatchPositions(a, w, t, p + 1)
  {
  }

  /** The scan of a non-empty literal passes over every position that does
      not hold the literal's first character. */
  lemma {:induction false} ScanSkipsToFirstChar(a: Anchor, w: string, t: string, p: nat, q: nat)
    requires w != [] && p <= q <= |t| + 1
    requires forall k :: p <= k < q && k < |t| ==> t[k] != w[0]
    ensures MatchPositions(a, w, t, p) == MatchPositions(a, w, t, q)
    decreases q - p
  {
    if p < q {
      OccurrenceChar(w, t, p, 0);
      ScanSkipsToFirstChar(a, w, t, p + 1, q);
    }
  }

  /** The scan of a literal of two or more characters passes over every
      position where the text does not start with the literal's first two
      characters. */
  lemma {:induction false} ScanSkipsMismatchedPairs(a: Anchor, w: string, t: string, p: nat, q: nat)
    requires |w| >= 2 && p <= q <= |t| + 1
    requires forall k :: p <= k < q && k + 1 < |t| ==> t[k] != w[0] || t[k + 1] != w[1]
    ensures MatchPositions(a, w, t, p) == MatchPositions(a, w, t, q)
    decreases q - p
  {
    if p < q {
      OccurrenceChar(w, t, p, 0);
      OccurrenceChar(w, t, p, 1);
      ScanSkipsMismatchedPairs(a, w, t, p + 1, q);
    }
  }

  /** Distributing a product over a successor. */
  lemma MulSucc(n: nat, m: nat)
    ensures (n + 1) * m == n * m + m
  {
  }

  /** Multiplying by a natural number keeps the order. */
  lemma MulLe(a: nat, b: nat, c: nat)
    requires a <= b
    ensures a * c <= b * c
  {
    assert b * c == a * c + (b - a) * c;
  }

  /** If `n` pieces of length `m` fit into `len`, then `n` is at most
      `len / m`, and it is zero when `len < m`. */
  lemma CountBound(n: nat, m: nat, len: nat)
    requires m > 0 && n * m <= len
    ensures n <= len / m
    ensures len < m ==> n == 0
  {
    var d := len / m;
    assert len == d * m + len % m;
    if n > d {
      MulLe(d + 1, n, m);
    }
  }

  /** `count_word`: the number of non-overlapping occurrences of `word` with
      a word boundary on both sides. */
  function CountWord(word: string, text: string): (n: nat)
    ensures word != [] ==> n <= |text| / |word|
    ensures |text| < |word| ==> n == 0
  {
    var ps := MatchPositions(WordBoundary, word, text, 0);
    if word != [] then
      MatchPositionsFit(WordBoundary, word, text, 0);
      CountBound(|ps|, |word|, |text|);
      |ps|
    else |ps|
  }

  /** `count_substring`: the number of non-overlapping occurrences of
      `substring` with no word boundary on either side. */
  function CountSubstring(substring: string, text: string): (n: nat)
    ensures substring != [] ==> n <= |text| / |substring|
    ensures |text| < |substring| ==> n == 0
  {
    var ps := MatchPositions(NonBoundary, substring, text, 0);
    if substring != [] then
      MatchPositionsFit(NonBoundary, substring, text, 0);
      CountBound(|ps|, |substring|, |text|);
      |ps|
    else |ps|
  }

  /** A literal made of word characters: the arguments the counters are meant
      for, where `\b`/`\B` reduce to a test of the neighbouring characters. */
  predicate IsWord(w: string)
  {
    w != [] && All(w, IsWordChar)
  }

  /** For a word, `\b word \b` matches exactly where the occurrence is not
      preceded and not followed by a word character. */
  lemma WordMatchIff(w: string, t: string, p: nat)
    requires IsWord(w)
    ensures MatchAt(WordBoundary, w, t, p) <==>
      OccursAt(w, t, p) &&
      (p == 0 || !IsWordChar(t[p - 1])) &&
      (p + |w| == |t| || !IsWordChar(t[p + |w|]))
  {
    if OccursAt(w, t, p) {
      assert t[p] == w[0] && t[p + |w| - 1] == w[|w| - 1];
    }
  }

  /** For a word, `\B word \B` matches exactly where the occurrence is both
      preceded and followed by a word character, so never at the start or end
      of the text nor at the edge of a word. */
  lemma SubstringMatchIff(w: string, t: string, p: nat)
    requires IsWord(w)
    ensures MatchAt(NonBoundary, w, t, p) <==>
      OccursAt(w, t, p) &&
      0 < p && IsWordChar(t[p - 1]) &&
      p + |w| < |t| && IsWordChar(t[p + |w|])
  {
    if OccursAt(w, t, p) {
      assert t[p] == w[0] && t[p + |w| - 1] == w[|w| - 1];
    }
  }

  /** Each character of an occurrence is the pattern's character. */
  lemma OccurrenceChar(w: string, t: string, p: nat, k: int)
    ensures OccursAt(w, t, p) && 0 <= k < |w| ==> t[p + k] == w[k]
  {
    if OccursAt(w, t, p) && 0 <= k < |w| {
      assert t[p..p + |w|][k] == t[p + k];
    }
  }

  /** Left of a non-word character `c`, the framed word matches in
      `a + [c] + b` exactly where it matches in `a` alone. */
  lemma MatchLeftOfSeparator(an: Anchor, w: string, a: string, c: char, b: string, p: nat)
    requires IsWord(w) && !IsWordChar(c) && p <= |a|
    ensures MatchAt(an, w, a + [c] + b, p) <==> MatchAt(an, w, a, p)
  {
    var t := a + [c] + b;
    assert forall i :: -1 <= i <= |a| ==> (WordAt(t, i) <==> WordAt(a, i));
    OccurrenceChar(w, t, p, |a| - p);
    if p + |w| <= |a| {
      assert t[p..p + |w|] == a[p..p + |w|];
    }
  }

  /** Right of a non-word character `c`, the framed word matches in
      `a + [c] + b` exactly where it matches in `b` alone. */
  lemma MatchRightOfSeparator(an: Anchor, w: string, a: string, c: char, b: string, q: nat)
    requires IsWord(w) && !IsWordChar(c)
    ensures MatchAt(an, w, a + [c] + b, |a| + 1 + q) <==> MatchAt(an, w, b, q)
  {
    var t := a + [c] + b;
    assert forall i :: -1 <= i <= |b| ==> (WordAt(t, |a| + 1 + i) <==> WordAt(b, i));
    if q + |w| <= |b| {
      assert t[|a| + 1 + q..|a| + 1 + q + |w|] == b[q..q + |w|];
    }
  }

  /** Scanning `a + [c] + b` from `p` inside `a` reports as many matches as
      scanning `a` from `p` and then `a + [c] + b` from just after `c`. */
  lemma {:induction false} ScanLeftOfSeparator(an: Anchor, w: string, a: string, c: char, b: string, p: nat)
    requires IsWord(w) && !IsWordChar(c) && p <= |a| + 1
    ensures |MatchPositions(an, w, a + [c] + b, p)| ==
      |MatchPositions(an, w, a, p)| + |MatchPositions(an, w, a + [c] + b, |a| + 1)|
    decreases |a| + 1 - p
  {
    if p <= |a| {
      MatchLeftOfSeparator(an, w, a, c, b, p);
      if MatchAt(an, w, a, p) {
        ScanLeftOfSeparator(an, w, a, c, b, p + |w|);
      } else {
        ScanLeftOfSeparator(an, w, a, c, b, p + 1);
      }
    }
  }

  /** Scanning `a + [c] + b` from after `c` reports as many matches as
      scanning `b` alone. */
  lemma {:induction false} ScanRightOfSeparator(an: Anchor, w: string, a: string, c: char, b: string, q: nat)
    requires IsWord(w) && !IsWordChar(c) && q <= |b| + 1
    ensures |MatchPositions(an, w, a + [c] + b, |a| + 1 + q)| == |MatchPositions(an, w, b, q)|
    decreases |b| + 1 - q
  {
    if q <= |b| {
      MatchRightOfSeparator(an, w, a, c, b, q);
      if MatchAt(an, w, b, q) {
        ScanRightOfSeparator(an, w, a, c, b, q + |w|);
      } else {
        ScanRightOfSeparator(an, w, a, c, b, q + 1);
      }
    }
  }

  /** No match of a framed word spans a non-word character, so both counts
      add up over the two sides of one. */
  lemma CountsSplitAtNonWord(w: string, a: string, c: char, b: string)
    requires IsWord(w) && !IsWordChar(c)
    ensures CountWord(w, a + [c] + b) == CountWord(w, a) + CountWord(w, b)
    ensures CountSubstring(w, a + [c] + b) == CountSubstring(w, a) + CountSubstring(w, b)
  {
    ScanLeftOfSeparator(WordBoundary, w, a, c, b, 0);
    ScanRightOfSeparator(WordBoundary, w, a, c, b, 0);
    ScanLeftOfSeparator(NonBoundary, w, a, c, b, 0);
    ScanRightOfSeparator(NonBoundary, w, a, c, b, 0);
  }

  /** Both counts add up over a text cut just after a non-word character. */
  lemma CountsAddAfterNonWord(w: string, a: string, b: string)
    requires IsWord(w) && a != [] && !IsWordChar(a[|a| - 1])
    ensures CountWord(w, a + b) == CountWord(w, a) + CountWord(w, b)
    ensures CountSubstring(w, a + b) == CountSubstring(w, a) + CountSubstring(w, b)
  {
    var front, c := a[..|a| - 1], a[|a| - 1];
    assert a == front + [c] + [];
    assert a + b == front + [c] + b;
    CountsSplitAtNonWord(w, front, c, []);
    CountsSplitAtNonWord(w, front, c, b);
  }

  /** A text holding no word character has no match of a framed word. */
  lemma NoWordCharsNoMatches(an: Anchor, w: string, t: string, p: nat)
    requires IsWord(w) && p <= |t| + 1
    requires forall k :: 0 <= k < |t| ==> !IsWordChar(t[k])
    ensures MatchPositions(an, w, t, p) == []
  {
    ScanSkipsToFirstChar(an, w, t, p, |t| + 1);
  }

  /** A literal whose first character does not occur in the text is counted
      zero times by both counters. */
  lemma FirstCharAbsent(w: string, t: string)
    requires w != [] && w[0] !in t
    ensures CountWord(w, t) == 0 && CountSubstring(w, t) == 0
  {
    ScanSkipsToFirstChar(WordBoundary, w, t, 0, |t| + 1);
    ScanSkipsToFirstChar(NonBoundary, w, t, 0, |t| + 1);
  }

  /** In one word followed by separators, `\b w \b` matches once when the
      word is `w` and never otherwise: it counts whole words only. */
  lemma CountWordOfOneWord(w: string, r: string, seps: string)
    requires IsWord(w) && IsWord(r)
    requires forall k :: 0 <= k < |seps| ==> !IsWordChar(seps[k])
    ensures CountWord(w, r + seps) == if r == w then 1 else 0
  {
    var t := r + seps;
    forall q | 1 <= q <= |t| ensures !MatchAt(WordBoundary, w, t, q) {
      WordMatchIff(w, t, q);
      OccurrenceChar(w, t, q, 0);
      OccurrenceChar(w, t, q, |r| - q);
    }
    NoLaterMatches(WordBoundary, w, t, 1);
    WordMatchIff(w, t, 0);
    OccurrenceChar(w, t, 0, |r|);
    OccurrenceChar(w, t, 0, |w|);
    if r == w {
      assert t[..|w|] == w;
      assert MatchAt(WordBoundary, w, t, 0);
      NoLaterMatches(WordBoundary, w, t, |w|);
    } else {
      if |w| < |r| {
        assert IsWordChar(t[|w|]);
      } else if |w| == |r| {
        assert t[..|w|] == r;
      }
      assert !MatchAt(WordBoundary, w, t, 0);
    }
  }

  /** Scanning from `p` finds nothing when nothing matches from `p` on. */
  lemma {:induction false} NoLaterMatches(an: Anchor, w: string, t: string, p: nat)
    requires p <= |t| + 1
    requires forall q :: p <= q <= |t| ==> !MatchAt(an, w, t, q)
    ensures MatchPositions(an, w, t, p) == []
    decreases |t| + 1 - p
  {
    if p <= |t| {
      NoLaterMatches(an, w, t, p + 1);
    }
  }

  /** Separators after a word add nothing to the count of `\B w \B`. */
  lemma CountSubstringOfOneWord(w: string, r: string, seps: string)
    requires IsWord(w)
    requires forall k :: 0 <= k < |seps| ==> !IsWordChar(seps[k])
    ensures CountSubstring(w, r + seps) == CountSubstring(w, r)
  {
    if seps == [] {
      assert r + seps == r;
    } else {
      assert r + seps == r + [seps[0]] + seps[1..];
      CountsSplitAtNonWord(w, r, seps[0], seps[1..]);
      NoWordCharsNoMatches(NonBoundary, w, seps[1..], 0);
    }
  }

  /** A text cut into its words, each with the run of non-word characters
      that follows it. */
  datatype Words = End | Then(word: string, after: string, rest: Words)

  /** The text the words spell, left to right. */
  function Text(ws: Words): string
  {
    match ws
    case End => []
    case Then(r, s, rest) => r + s + Text(rest)
  }

  /** The cut is along word edges: each word is non-empty, each separator run
      holds no word character, and only the last run may be empty. */
  predicate Tokenised(ws: Words)
  {
    match ws
    case End => true
    case Then(r, s, rest) =>
      IsWord(r) && (forall k :: 0 <= k < |s| ==> !IsWordChar(s[k]))
      && (rest.Then? ==> s != []) && Tokenised(rest)
  }

  /** How many of the words are `w`. */
  function Occurrences(w: string, ws: Words): nat
  {
    match ws
    case End => 0
    case Then(r, _, rest) => (if r == w then 1 else 0) + Occurrences(w, rest)
  }

  /** The `count_substring` counts of `w` inside each word, added up. */
  function InnerCounts(w: string, ws: Words): nat
  {
    match ws
    case End => 0
    case Then(r, _, rest) => CountSubstring(w, r) + InnerCounts(w, rest)
  }

  /** Over a text cut into words: `count_word` counts the words equal to `w`,
      and `count_substring` adds up what it finds inside each word. */
  lemma {:induction false} CountsOverWords(w: string, ws: Words)
    requires IsWord(w) && Tokenised(ws)
    ensures CountWord(w, Text(ws)) == Occurrences(w, ws)
    ensures CountSubstring(w, Text(ws)) == InnerCounts(w, ws)
  {
    match ws
    case End =>
    case Then(r, s, rest) =>
      CountsOverWords(w, rest);
      CountWordOfOneWord(w, r, s);
      CountSubstringOfOneWord(w, r, s);
      var head := r + s;
      if rest.End? {
        assert Text(ws) == head + [];
        assert head + [] == head;
      } else {
        assert head[|head| - 1] == s[|s| - 1];
        CountsAddAfterNonWord(w, head, Text(rest));
      }
  }
}
