/** `extract_emails`: every non-overlapping match of `[\w.-]+@[\w.-]+`,
    scanned left to right as `re.findall` does. */
module Emails {

  import opened Wrappers
  import opened Strings

  /** The `[\w.-]` class. */
  predicate IsEmailChar(c: char) { IsWordChar(c) || c == '.' || c == '-' }

  /** `[\w.-]+@[\w.-]+` matches `s[start..end]`, with its `@` at index `at`. */
  predicate EmailShape(s: string, start: nat, at: nat, end: nat)
  {
    start < at && at + 1 < end <= |s| && s[at] == '@'
    && (forall k :: start <= k < at ==> IsEmailChar(s[k]))
    && (forall k :: at < k < end ==> IsEmailChar(s[k]))
  }

  /** Where one match lies in the scanned string. */
  datatype Span = Span(start: nat, at: nat, end: nat)

  /** Any match at `start` has its `@` where the run of class characters from
      `start` ends, and ends no later than the run after that `@`. */
  lemma ShapeFollowsRuns(s: string, start: nat)
    requires start <= |s|
    ensures forall at: nat, end: nat :: EmailShape(s, start, at, end) ==>
      at == RunEnd(s, start, IsEmailChar) && end <= RunEnd(s, at + 1, IsEmailChar)
  {
    forall at: nat, end: nat | EmailShape(s, start, at, end)
      ensures at == RunEnd(s, start, IsEmailChar) && end <= RunEnd(s, at + 1, IsEmailChar)
    {
      RunEndIsDetermined(s, start, at, IsEmailChar);
    }
  }

  /** The match the engine makes when it tries the pattern at `start`: the
      greedy run of class characters, an `@`, and the greedy run after it.
      `MatchAtIsLongest` shows that this is what the engine's backtracking
      settles on. */
  function MatchAt(s: string, start: nat): (r: Option<Span>)
    requires start <= |s|
    ensures r.Some? ==> r.value.start == start && EmailShape(s, start, r.value.at, r.value.end)
    ensures r.Some? ==> r.value.end == |s| || !IsEmailChar(s[r.value.end])
  {
    var at := RunEnd(s, start, IsEmailChar);
    if start < at && at < |s| && s[at] == '@' then
      var end := RunEnd(s, at + 1, IsEmailChar);
      if at + 1 < end then Some(Span(start, at, end))
      else None
    else None
  }

  /** Both runs are greedy; `@` is outside the class, so backtracking the
      first run never meets another `@` and only the longest run can be
      followed by one. The engine's match at `start` is therefore the longest
      of all matches that start there, and there is none when it fails. */
  lemma MatchAtIsLongest(s: string, start: nat)
    requires start <= |s|
    ensures var r := MatchAt(s, start);
      (r.Some? ==> EmailShape(s, start, r.value.at, r.value.end)) &&
      (r.Some? ==> forall at: nat, end: nat :: EmailShape(s, start, at, end) ==> at == r.value.at && end <= r.value.end) &&
      (r.None? <==> forall at: nat, end: nat :: !EmailShape(s, start, at, end))
  {
    ShapeFollowsRuns(s, start);
    var at := RunEnd(s, start, IsEmailChar);
    if start < at && at < |s| && s[at] == '@' {
      var end := RunEnd(s, at + 1, IsEmailChar);
      if at + 1 < end {
        assert EmailShape(s, start, at, end);
      }
    }
  }

  /** Inside a run of class characters, a failed attempt rules out an attempt
      one position further on: both see the same run and the same `@`. */
  lemma NoMatchAfterFailure(s: string, p: nat)
    requires p < |s| && IsEmailChar(s[p]) && MatchAt(s, p).None?
    ensures MatchAt(s, p + 1).None?
  {
    assert RunEnd(s, p, IsEmailChar) == RunEnd(s, p + 1, IsEmailChar);
  }

  /** The matches `re.findall` reports when it scans from `p`: a match is
      reported and the scan resumes where it ends; otherwise the scan moves
      on by one position. */
  function Spans(s: string, p: nat): (spans: seq<Span>)
    requires p <= |s|
    ensures spans != [] ==> p <= spans[0].start
    decreases |s| - p
  {
    if p == |s| then []
    else match MatchAt(s, p)
      case Some(m) => [m] + Spans(s, m.end)
      case None => Spans(s, p + 1)
  }

  /** After a match, the next attempt fails: the match stops at the end of
      the text or before a character that cannot start a run. */
  lemma NoMatchAtEnd(s: string, m: Span)
    requires m.start <= |s| && MatchAt(s, m.start) == Some(m)
    ensures m.end <= |s| && MatchAt(s, m.end).None?
  {
  }

  /** One step of the scan where the attempt at `p` succeeds. */
  lemma ScanHit(s: string, p: nat, m: Span)
    requires p < |s| && MatchAt(s, p) == Some(m)
    ensures Spans(s, p) == [m] + Spans(s, m.end)
  {
  }

  /** One step of the scan past a position where the attempt fails. */
  lemma ScanMiss(s: string, p: nat)
    requires p < |s| && MatchAt(s, p).None?
    ensures Spans(s, p) == Spans(s, p + 1)
  {
  }

  /** Every span in `spans` is the engine's match at its start, which lies at
      or after `p` and inside `s`. */
  ghost predicate EngineMatchesFrom(s: string, p: nat, spans: seq<Span>)
  {
    forall k :: 0 <= k < |spans| ==>
      p <= spans[k].start < |s| && MatchAt(s, spans[k].start) == Some(spans[k])
  }

  /** The engine's match at `p` in front of matches from its end on. */
  lemma EngineMatchesCons(s: string, p: nat, m: Span, rest: seq<Span>)
    requires p < |s| && MatchAt(s, p) == Some(m) && EngineMatchesFrom(s, m.end, rest)
    ensures EngineMatchesFrom(s, p, [m] + rest)
  {
    var spans := [m] + rest;
    forall k | 0 < k < |spans|
      ensures p <= spans[k].start < |s| && MatchAt(s, spans[k].start) == Some(spans[k])
    {
      assert spans[k] == rest[k - 1];
    }
  }

  /** Matches from `p + 1` on are matches from `p` on. */
  lemma EngineMatchesEarlier(s: string, p: nat, spans: seq<Span>)
    requires EngineMatchesFrom(s, p + 1, spans)
    ensures EngineMatchesFrom(s, p, spans)
  {
  }

  /** Each reported match is the engine's match at its start. */
  lemma {:induction false} SpansAreMatches(s: string, p: nat)
    requires p <= |s|
    ensures EngineMatchesFrom(s, p, Spans(s, p))
    decreases |s| - p
  {
    if p < |s| {
      match MatchAt(s, p)
      case Some(m) =>
        ScanHit(s, p, m);
        SpansAreMatches(s, m.end);
        EngineMatchesCons(s, p, m, Spans(s, m.end));
      case None =>
        ScanMiss(s, p);
        SpansAreMatches(s, p + 1);
        EngineMatchesEarlier(s, p, Spans(s, p + 1));
    }
  }

  /** The reported matches come in order and do not touch. */
  lemma {:induction false} SpansAreOrdered(s: string, p: nat)
    requires p <= |s|
    ensures forall k :: 0 < k < |Spans(s, p)| ==> Spans(s, p)[k - 1].end < Spans(s, p)[k].start
    decreases |s| - p
  {
    if p < |s| {
      var spans := Spans(s, p);
      match MatchAt(s, p)
      case Some(m) =>
        var rest := Spans(s, m.end);
        assert spans == [m] + rest;
        SpansAreOrdered(s, m.end);
        if rest != [] {
          NoMatchAtEnd(s, m);
          assert rest == Spans(s, m.end + 1);
        }
        forall k | 0 < k < |spans| ensures spans[k] == rest[k - 1] { }
      case None =>
        assert spans == Spans(s, p + 1);
        SpansAreOrdered(s, p + 1);
    }
  }

  /** Every span in `spans` starts at `p` or after a character outside the
      class. */
  predicate StartsAfterGap(s: string, p: nat, spans: seq<Span>)
  {
    forall k :: 0 <= k < |spans| ==>
      spans[k].start == p || (0 < spans[k].start <= |s| && !IsEmailChar(s[spans[k].start - 1]))
  }

  /** The step of `SpansAreMaximal` after a reported match. */
  lemma MaximalAfterMatch(s: string, p: nat, m: Span)
    requires p < |s| && MatchAt(s, p) == Some(m)
    requires StartsAfterGap(s, m.end, Spans(s, m.end))
    ensures StartsAfterGap(s, p, Spans(s, p))
  {
    var rest := Spans(s, m.end);
    ScanHit(s, p, m);
    SpansAreMatches(s, m.end);
    NoMatchAtEnd(s, m);
    GapWhereAttemptFails(s, m.end, p, rest);
    GapCons(s, p, m, rest);
  }

  /** The reported match at `p` in front of spans that start after a gap. */
  lemma GapCons(s: string, p: nat, m: Span, rest: seq<Span>)
    requires m.start == p && StartsAfterGap(s, p, rest)
    ensures StartsAfterGap(s, p, [m] + rest)
  {
    var spans := [m] + rest;
    forall k | 0 < k < |spans|
      ensures spans[k].start == p || (0 < spans[k].start <= |s| && !IsEmailChar(s[spans[k].start - 1]))
    {
      assert spans[k] == rest[k - 1];
    }
  }

  /** The step of `SpansAreMaximal` past a position where nothing matches. */
  lemma MaximalAfterMiss(s: string, p: nat)
    requires p < |s| && MatchAt(s, p).None?
    requires StartsAfterGap(s, p + 1, Spans(s, p + 1))
    ensures StartsAfterGap(s, p, Spans(s, p))
  {
    ScanMiss(s, p);
    var spans := Spans(s, p + 1);
    if IsEmailChar(s[p]) {
      NoMatchAfterFailure(s, p);
      SpansAreMatches(s, p + 1);
      GapWhereAttemptFails(s, p + 1, p, spans);
    } else {
      GapAfterOutsider(s, p, spans);
    }
  }

  /** When the attempt at `q` fails, no span from `q` on starts at `q`, so
      each starts after a gap, whatever position the scan is said to start
      from. */
  lemma GapWhereAttemptFails(s: string, q: nat, p: nat, spans: seq<Span>)
    requires q <= |s| && MatchAt(s, q).None?
    requires EngineMatchesFrom(s, q, spans) && StartsAfterGap(s, q, spans)
    ensures StartsAfterGap(s, p, spans)
  {
    forall k | 0 <= k < |spans|
      ensures 0 < spans[k].start <= |s| && !IsEmailChar(s[spans[k].start - 1])
    {
      assert MatchAt(s, spans[k].start).Some?;
    }
  }

  /** A span starting right after a character outside the class starts after
      a gap. */
  lemma GapAfterOutsider(s: string, p: nat, spans: seq<Span>)
    requires p < |s| && !IsEmailChar(s[p]) && StartsAfterGap(s, p + 1, spans)
    ensures StartsAfterGap(s, p, spans)
  {
  }

  /** No reported match can be extended to the left: it starts where the
      scan started or after a character outside the class. */
  lemma {:induction false} SpansAreMaximal(s: string, p: nat)
    requires p <= |s|
    ensures StartsAfterGap(s, p, Spans(s, p))
    decreases |s| - p
  {
    if p < |s| {
      match MatchAt(s, p)
      case Some(m) =>
        SpansAreMaximal(s, m.end);
        MaximalAfterMatch(s, p, m);
      case None =>
        SpansAreMaximal(s, p + 1);
        MaximalAfterMiss(s, p);
    }
  }

  /** The scan passes over a stretch without `@` that ends at the end of
      the text or just after a character outside the class: every attempt
      in it stops inside the stretch, short of any `@`. */
  lemma {:induction false} SpansSkipStretch(s: string, p: nat, q: nat)
    requires p <= q <= |s|
    requires q == |s| || (p < q && !IsEmailChar(s[q - 1]))
    requires forall k :: p <= k < q ==> s[k] != '@'
    ensures Spans(s, p) == Spans(s, q)
    decreases q - p
  {
    if p < q {
      var at := RunEnd(s, p, IsEmailChar);
      assert at < q ==> s[at] != '@';
      assert MatchAt(s, p).None?;
      assert Spans(s, p) == Spans(s, p + 1);
      if p + 1 < q || q == |s| {
        SpansSkipStretch(s, p + 1, q);
      }
    }
  }

  /** The engine's match at `start` when the run from `start` reaches an `@`
      at `at` and the run after it ends at `end`. */
  lemma MatchAtOfRuns(s: string, start: nat, at: nat, end: nat)
    requires start < at && at + 1 < end <= |s| && s[at] == '@'
    requires forall k :: start <= k < at ==> IsEmailChar(s[k])
    requires forall k :: at < k < end ==> IsEmailChar(s[k])
    requires end == |s| || !IsEmailChar(s[end])
    ensures MatchAt(s, start) == Some(Span(start, at, end))
  {
    RunEndIsDetermined(s, start, at, IsEmailChar);
    RunEndIsDetermined(s, at + 1, end, IsEmailChar);
  }

  /** Position `q` lies inside one of the spans in `spans`. */
  ghost predicate InsideSome(spans: seq<Span>, q: nat)
  {
    exists k :: 0 <= k < |spans| && spans[k].start <= q < spans[k].end
  }

  /** A position inside the spans after `m` is inside the spans of `[m] + rest`. */
  lemma InsideCons(m: Span, rest: seq<Span>, q: nat)
    requires InsideSome(rest, q)
    ensures InsideSome([m] + rest, q)
  {
    var k :| 0 <= k < |rest| && rest[k].start <= q < rest[k].end;
    assert ([m] + rest)[k + 1] == rest[k];
  }

  /** Nothing that matches is passed over: a match that starts at or after
      the scan start `p` starts inside one of the reported matches, either
      the one reported at its own start or an earlier one that overlaps it. */
  lemma {:induction false} SpansComplete(s: string, p: nat, q: nat)
    requires p <= q < |s| && MatchAt(s, q).Some?
    ensures InsideSome(Spans(s, p), q)
    decreases q - p
  {
    match MatchAt(s, p)
    case Some(m) =>
      ScanHit(s, p, m);
      if m.end <= q {
        SpansComplete(s, m.end, q);
        InsideCons(m, Spans(s, m.end), q);
      } else {
        assert Spans(s, p)[0] == m;
      }
    case None =>
      ScanMiss(s, p);
      SpansComplete(s, p + 1, q);
  }

  /** Every match of the pattern anywhere in `s`, whatever its `@` and end,
      starts inside a reported match. */
  lemma EveryMatchStartsInsideSpan(s: string)
    ensures forall start: nat, at: nat, end: nat :: EmailShape(s, start, at, end) ==>
      InsideSome(Spans(s, 0), start)
  {
    forall start: nat, at: nat, end: nat | EmailShape(s, start, at, end)
      ensures InsideSome(Spans(s, 0), start)
    {
      MatchAtIsLongest(s, start);
      SpansComplete(s, 0, start);
    }
  }

  /** `t` is one `@` with a non-empty run of `[\w.-]` on each side of it. */
  predicate IsEmailToken(t: string)
  {
    exists at :: 0 < at < |t| - 1 && t[at] == '@' && forall k :: 0 <= k < |t| && k != at ==> IsEmailChar(t[k])
  }

  /** Some `@` in `s` has a `[\w.-]` character on both sides. */
  predicate HasSeam(s: string)
  {
    exists i :: 0 < i < |s| - 1 && s[i] == '@' && IsEmailChar(s[i - 1]) && IsEmailChar(s[i + 1])
  }

  /** A scan that starts before a seam finds at least one match. */
  lemma {:induction false} SeamFound(s: string, p: nat, i: nat)
    requires p < i < |s| - 1 && s[i] == '@' && IsEmailChar(s[i - 1]) && IsEmailChar(s[i + 1])
    ensures Spans(s, p) != []
    decreases i - p
  {
    if MatchAt(s, p).None? {
      if p + 1 < i {
        SeamFound(s, p + 1, i);
      } else {
        MatchAtIsLongest(s, p);
        assert EmailShape(s, p, i, i + 2);
      }
    }
  }

  /** A scan of the whole string finds a match exactly when some `@` has a
      `[\w.-]` character on both sides. */
  lemma SpansEmptyIff(s: string)
    ensures Spans(s, 0) == [] <==> !HasSeam(s)
  {
    var spans := Spans(s, 0);
    if spans != [] {
      SpansAreMatches(s, 0);
      MatchAtIsLongest(s, spans[0].start);
      assert s[spans[0].at] == '@' && IsEmailChar(s[spans[0].at - 1]) && IsEmailChar(s[spans[0].at + 1]);
    } else if HasSeam(s) {
      var i :| 0 < i < |s| - 1 && s[i] == '@' && IsEmailChar(s[i - 1]) && IsEmailChar(s[i + 1]);
      SeamFound(s, 0, i);
    }
  }

  /** The matched slice of `s` is a token of the expected shape. */
  lemma SpanIsToken(s: string, m: Span)
    requires m.start <= |s| && MatchAt(s, m.start) == Some(m)
    ensures m.start <= m.end <= |s| && IsEmailToken(s[m.start..m.end])
  {
    MatchAtIsLongest(s, m.start);
    var t := s[m.start..m.end];
    assert 0 < m.at - m.start < |t| - 1 && t[m.at - m.start] == '@';
  }

  /** Every reported match is a slice of `s` that is a token. */
  lemma SpansAreTokens(s: string)
    ensures forall k :: 0 <= k < |Spans(s, 0)| ==>
      Spans(s, 0)[k].start < Spans(s, 0)[k].end <= |s| &&
      IsEmailToken(s[Spans(s, 0)[k].start..Spans(s, 0)[k].end])
  {
    var spans := Spans(s, 0);
    SpansAreMatches(s, 0);
    forall k | 0 <= k < |spans|
      ensures spans[k].start < spans[k].end <= |s| && IsEmailToken(s[spans[k].start..spans[k].end])
    {
      SpanIsToken(s, spans[k]);
    }
  }

  /** The tokens `extract_emails` returns: the matched slices of `s`, left to
      right; each is one `@` between two non-empty `[\w.-]` runs, and there
      are none exactly when no `@` has such characters on both sides; and
      every match of the pattern in `s` starts inside the span of a returned
      token, so no match is missed beyond those that overlap a reported one. */
  function ExtractEmails(s: string): (tokens: seq<string>)
    ensures |tokens| == |Spans(s, 0)|
    ensures forall k :: 0 <= k < |tokens| ==>
      Spans(s, 0)[k].start < Spans(s, 0)[k].end <= |s| &&
      tokens[k] == s[Spans(s, 0)[k].start..Spans(s, 0)[k].end]
    ensures forall k :: 0 <= k < |tokens| ==> IsEmailToken(tokens[k])
    ensures tokens == [] <==> !HasSeam(s)
    ensures forall start: nat, at: nat, end: nat :: EmailShape(s, start, at, end) ==>
      InsideSome(Spans(s, 0), start)
  {
    var spans := Spans(s, 0);
    SpansAreTokens(s);
    SpansEmptyIff(s);
    EveryMatchStartsInsideSpan(s);
    seq(|spans|, k requires 0 <= k < |spans| && spans[k].start <= spans[k].end <= |s| =>
      s[spans[k].start..spans[k].end])
  }

  /** Text without any `@` yields no tokens. */
  lemma NoAtNoEmails(s: string)
    requires '@' !in s
    ensures ExtractEmails(s) == []
  {
  }
}
