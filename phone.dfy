/** `split_number`: the leftmost match of
    `([0-9]{1,3})[\- ]([0-9]{1,3})[\- ]([0-9]{4,10})`, returned as its three
    groups, or no result when nothing matches. */
module Phone {

  import opened Wrappers
  import opened Strings

  /** The `[\- ]` class. */
  predicate IsSeparator(c: char) { c == '-' || c == ' ' }

  /** The pattern matches `t` at `p` with groups of `a`, `b` and `c` digits:
      `a` digits, a separator, `b` digits, a separator, `c` digits. */
  predicate PhoneShape(t: string, p: nat, a: nat, b: nat, c: nat)
  {
    1 <= a <= 3 && 1 <= b <= 3 && 4 <= c <= 10 && p + a + b + c + 2 <= |t|
    && (forall k :: p <= k < p + a ==> IsDigit(t[k]))
    && IsSeparator(t[p + a])
    && (forall k :: p + a + 1 <= k < p + a + 1 + b ==> IsDigit(t[k]))
    && IsSeparator(t[p + a + 1 + b])
    && (forall k :: p + a + b + 2 <= k < p + a + b + 2 + c ==> IsDigit(t[k]))
  }

  /** Lengths of the three groups of one match. */
  datatype GroupLengths = GroupLengths(country: nat, area: nat, number: nat)

  /** In a match at `p`, the first two groups are whole digit runs (a
      separator follows each), and the third lies within the run after the
      second separator. */
  lemma ShapeFollowsRuns(t: string, p: nat, a: nat, b: nat, c: nat)
    requires PhoneShape(t, p, a, b, c)
    ensures p + a == RunEnd(t, p, IsDigit)
    ensures p + a + 1 + b == RunEnd(t, p + a + 1, IsDigit)
    ensures p + a + b + 2 + c <= RunEnd(t, p + a + b + 2, IsDigit)
  {
    RunEndIsDetermined(t, p, p + a, IsDigit);
    RunEndIsDetermined(t, p + a + 1, p + a + 1 + b, IsDigit);
  }

  /** Every match at `p` has first groups of `a` and `b` digits and a third
      group of at most `c` digits. */
  ghost predicate LongestAt(t: string, p: nat, a: nat, b: nat, c: nat)
  {
    forall a': nat, b': nat, c': nat :: PhoneShape(t, p, a', b', c') ==> a' == a && b' == b && c' <= c
  }

  /** The pattern matches nowhere before `p`. */
  ghost predicate NoMatchBefore(t: string, p: nat)
  {
    forall q: nat, a: nat, b: nat, c: nat :: q < p ==> !PhoneShape(t, q, a, b, c)
  }

  /** The match the engine makes when it tries the pattern at `p`: the digit
      run, a separator, the next digit run, a separator, and up to ten digits
      of the run after it. `MatchAtIsLongest` shows that this is what the
      engine's backtracking settles on. */
  function MatchAt(t: string, p: nat): (r: Option<GroupLengths>)
    requires p <= |t|
    ensures r.Some? ==> PhoneShape(t, p, r.value.country, r.value.area, r.value.number)
  {
    var a := RunEnd(t, p, IsDigit) - p;
    if !(1 <= a <= 3 && p + a < |t| && IsSeparator(t[p + a])) then None
    else
      var q := p + a + 1;
      var b := RunEnd(t, q, IsDigit) - q;
      if !(1 <= b <= 3 && q + b < |t| && IsSeparator(t[q + b])) then None
      else
        var n := RunEnd(t, q + b + 1, IsDigit) - (q + b + 1);
        if n < 4 then None
        else
          var c := if n < 10 then n else 10;
          Some(GroupLengths(a, b, c))
  }

  /** A shorter first or second group would be followed by a digit rather
      than a separator, so backtracking cannot help there; the third group is
      greedy up to ten digits. The engine's match at `p` is therefore the one
      with the longest third group, there is no other choice for the first
      two, and there is none when it fails. */
  lemma MatchAtIsLongest(t: string, p: nat)
    requires p <= |t|
    ensures var r := MatchAt(t, p);
      (r.Some? ==> LongestAt(t, p, r.value.country, r.value.area, r.value.number)) &&
      (r.None? <==> forall a: nat, b: nat, c: nat :: !PhoneShape(t, p, a, b, c))
  {
    forall a: nat, b: nat, c: nat | PhoneShape(t, p, a, b, c)
      ensures MatchAt(t, p).Some?
      ensures MatchAt(t, p).value.country == a && MatchAt(t, p).value.area == b
      ensures c <= MatchAt(t, p).value.number
    {
      ShapeGivesMatch(t, p, a, b, c);
    }
  }

  /** Any match at `p` makes the engine's attempt there succeed, with the
      same first two groups and a third group at least as long. */
  lemma ShapeGivesMatch(t: string, p: nat, a: nat, b: nat, c: nat)
    requires PhoneShape(t, p, a, b, c)
    ensures MatchAt(t, p).Some?
    ensures MatchAt(t, p).value.country == a && MatchAt(t, p).value.area == b
    ensures c <= MatchAt(t, p).value.number
  {
    ShapeFollowsRuns(t, p, a, b, c);
  }

  /** Where the leftmost match starts, and its group lengths. */
  datatype PhoneMatch = PhoneMatch(start: nat, lengths: GroupLengths)

  /** Every attempt at a position from `p` up to (not including) `q` fails. */
  ghost predicate MissesBetween(t: string, p: nat, q: nat)
  {
    q <= |t| + 1 && forall k :: p <= k < q ==> MatchAt(t, k).None?
  }

  /** A failed attempt at `p` extends a stretch of failures that starts
      right after it. */
  lemma MissesExtend(t: string, p: nat, q: nat)
    requires p <= |t| && MatchAt(t, p).None? && MissesBetween(t, p + 1, q)
    ensures MissesBetween(t, p, q)
  {
  }

  /** The leftmost position at or after `p` where the pattern matches: every
      attempt before it fails, and when there is none every attempt up to the
      end of the text fails. */
  function Find(t: string, p: nat): (r: Option<PhoneMatch>)
    requires p <= |t|
    ensures r.Some? ==> p <= r.value.start <= |t| && MatchAt(t, r.value.start) == Some(r.value.lengths)
    ensures r.Some? ==> MissesBetween(t, p, r.value.start)
    ensures r.None? ==> MissesBetween(t, p, |t| + 1)
    decreases |t| - p
  {
    match MatchAt(t, p)
    case Some(g) => Some(PhoneMatch(p, g))
    case None =>
      if p == |t| then None
      else
        var r := Find(t, p + 1);
        MissesExtend(t, p, if r.Some? then r.value.start else |t| + 1);
        r
  }

  /** The three parts of a phone number, as digit strings. */
  datatype PhoneParts = PhoneParts(country: string, area: string, number: string)

  /** `g` is what the leftmost match, starting at `p`, captures: the groups
      are the slices of `t` the pattern reads there, no match starts earlier,
      and no other match at `p` has a longer third group. */
  ghost predicate LeftmostMatch(t: string, p: nat, g: PhoneParts)
  {
    PhoneShape(t, p, |g.country|, |g.area|, |g.number|)
    && g.country == t[p..p + |g.country|]
    && g.area == t[p + |g.country| + 1..p + |g.country| + 1 + |g.area|]
    && g.number == t[p + |g.country| + |g.area| + 2..p + |g.country| + |g.area| + 2 + |g.number|]
    && NoMatchBefore(t, p)
    && LongestAt(t, p, |g.country|, |g.area|, |g.number|)
  }

  /** A slice cut at two single characters is the three pieces around them
      joined by those characters. */
  lemma ThreeFields(t: string, i: nat, j: nat, j': nat, k: nat, k': nat, e: nat)
    requires i <= j < k < e <= |t| && j' == j + 1 && k' == k + 1
    ensures t[i..e] == t[i..j] + [t[j]] + t[j'..k] + [t[k]] + t[k'..e]
  {
    var x, y, z := t[i..j], t[j'..k], t[k'..e];
    assert t[k..e] == [t[k]] + z;
    assert t[j'..e] == y + t[k..e];
    assert t[j..e] == [t[j]] + t[j'..e];
    assert t[i..e] == x + t[j..e];
    assert x + ([t[j]] + (y + ([t[k]] + z))) == x + [t[j]] + y + [t[k]] + z;
  }

  /** A stretch of digits, sliced out, is a digit string. */
  lemma DigitSlice(t: string, i: nat, j: nat)
    requires i <= j <= |t| && forall k :: i <= k < j ==> IsDigit(t[k])
    ensures All(t[i..j], IsDigit)
  {
    assert forall k :: 0 <= k < j - i ==> t[i..j][k] == t[i + k];
  }

  /** The groups a match captures: digit strings of the match's lengths,
      which the pattern bounds to 1-3, 1-3 and 4-10 characters. */
  function Groups(t: string, m: PhoneMatch): (g: PhoneParts)
    requires PhoneShape(t, m.start, m.lengths.country, m.lengths.area, m.lengths.number)
    ensures |g.country| == m.lengths.country && |g.area| == m.lengths.area && |g.number| == m.lengths.number
    ensures 1 <= |g.country| <= 3 && 1 <= |g.area| <= 3 && 4 <= |g.number| <= 10
    ensures All(g.country, IsDigit) && All(g.area, IsDigit) && All(g.number, IsDigit)
  {
    var p, a, b, c := m.start, m.lengths.country, m.lengths.area, m.lengths.number;
    DigitSlice(t, p, p + a);
    DigitSlice(t, p + a + 1, p + a + 1 + b);
    DigitSlice(t, p + a + b + 2, p + a + b + 2 + c);
    PhoneParts(t[p..p + a], t[p + a + 1..p + a + 1 + b], t[p + a + b + 2..p + a + b + 2 + c])
  }

  /** The groups, joined by the two separators the match read, spell exactly
      the matched text: nothing of the match is lost. */
  lemma GroupsSpellMatch(t: string, m: PhoneMatch)
    requires PhoneShape(t, m.start, m.lengths.country, m.lengths.area, m.lengths.number)
    ensures var p, a, b, g := m.start, m.lengths.country, m.lengths.area, Groups(t, m);
      t[p..p + a + b + 2 + m.lengths.number] ==
        g.country + [t[p + a]] + g.area + [t[p + a + 1 + b]] + g.number
  {
    var p, a, b, c := m.start, m.lengths.country, m.lengths.area, m.lengths.number;
    SpellParts(t, Groups(t, m), p, a, b, c);
  }

  /** Three parts cut out of `t` around two single characters spell the
      stretch they cover. */
  lemma SpellParts(t: string, g: PhoneParts, p: nat, a: nat, b: nat, c: nat)
    requires p + a + b + 2 + c <= |t|
    requires g == PhoneParts(t[p..p + a], t[p + a + 1..p + a + 1 + b], t[p + a + b + 2..p + a + b + 2 + c])
    ensures t[p..p + a + b + 2 + c] == g.country + [t[p + a]] + g.area + [t[p + a + 1 + b]] + g.number
  {
    ThreeFields(t, p, p + a, p + a + 1, p + a + 1 + b, p + a + b + 2, p + a + b + 2 + c);
  }

  /** When the scan finds nothing, the pattern matches nowhere in `t`. */
  lemma NotFoundMeansNoMatch(t: string)
    requires Find(t, 0).None?
    ensures forall p: nat, a: nat, b: nat, c: nat :: !PhoneShape(t, p, a, b, c)
  {
    forall p: nat, a: nat, b: nat, c: nat ensures !PhoneShape(t, p, a, b, c) {
      if p <= |t| {
        assert MatchAt(t, p).None?;
        MatchAtIsLongest(t, p);
      }
    }
  }

  /** Where every attempt before `p` fails, the pattern matches nowhere
      before `p`. */
  lemma NoShapeBefore(t: string, p: nat)
    requires p <= |t| && forall q :: 0 <= q < p ==> MatchAt(t, q).None?
    ensures NoMatchBefore(t, p)
  {
    forall q: nat, a: nat, b: nat, c: nat | q < p ensures !PhoneShape(t, q, a, b, c) {
      assert MatchAt(t, q).None?;
      MatchAtIsLongest(t, q);
    }
  }

  /** The groups of a match that is leftmost and longest are what
      `LeftmostMatch` describes. */
  lemma GroupsOfLeftmost(t: string, m: PhoneMatch)
    requires PhoneShape(t, m.start, m.lengths.country, m.lengths.area, m.lengths.number)
    requires NoMatchBefore(t, m.start)
    requires LongestAt(t, m.start, m.lengths.country, m.lengths.area, m.lengths.number)
    ensures LeftmostMatch(t, m.start, Groups(t, m))
  {
  }

  /** What the scan finds is the leftmost match, with the engine's groups. */
  lemma FoundIsLeftmost(t: string, m: PhoneMatch)
    requires Find(t, 0) == Some(m)
    ensures PhoneShape(t, m.start, m.lengths.country, m.lengths.area, m.lengths.number)
    ensures LeftmostMatch(t, m.start, Groups(t, m))
  {
    var p := m.start;
    assert MatchAt(t, p) == Some(m.lengths);
    MatchAtIsLongest(t, p);
    NoShapeBefore(t, p);
    GroupsOfLeftmost(t, m);
  }

  /** A match at the very start of the text is the leftmost one, so its
      groups are the result. */
  lemma SplitNumberAtStart(t: string, g: GroupLengths)
    requires MatchAt(t, 0) == Some(g)
    ensures SplitNumber(t) == Some(Groups(t, PhoneMatch(0, g)))
  {
    assert Find(t, 0) == Some(PhoneMatch(0, g));
  }

  /** The captured groups are digit strings of the lengths the pattern allows. */
  lemma GroupsAreDigits(t: string, p: nat, g: PhoneParts)
    requires LeftmostMatch(t, p, g)
    ensures All(g.country, IsDigit) && 1 <= |g.country| <= 3
    ensures All(g.area, IsDigit) && 1 <= |g.area| <= 3
    ensures All(g.number, IsDigit) && 4 <= |g.number| <= 10
  {
    var a, b := |g.country|, |g.area|;
    assert forall k :: 0 <= k < |g.country| ==> g.country[k] == t[p + k];
    assert forall k :: 0 <= k < |g.area| ==> g.area[k] == t[p + a + 1 + k];
    assert forall k :: 0 <= k < |g.number| ==> g.number[k] == t[p + a + b + 2 + k];
  }

  /** `split_number`: the groups of the leftmost match, or `None` (where the
      source fails on the missing match) when the pattern matches nowhere. The
      groups are digit strings of 1-3, 1-3 and 4-10 characters, leading zeros
      kept. */
  function SplitNumber(t: string): (r: Option<PhoneParts>)
    ensures r.None? <==> forall p: nat, a: nat, b: nat, c: nat :: !PhoneShape(t, p, a, b, c)
    ensures r.Some? ==> exists p: nat :: LeftmostMatch(t, p, r.value)
    ensures r.Some? ==>
      All(r.value.country, IsDigit) && 1 <= |r.value.country| <= 3 &&
      All(r.value.area, IsDigit) && 1 <= |r.value.area| <= 3 &&
      All(r.value.number, IsDigit) && 4 <= |r.value.number| <= 10
  {
    match Find(t, 0)
    case None =>
      NotFoundMeansNoMatch(t);
      None
    case Some(m) =>
      FoundIsLeftmost(t, m);
      GroupsAreDigits(t, m.start, Groups(t, m));
      Some(Groups(t, m))
  }
}
