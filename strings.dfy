/** Character classes and scanning primitives shared by the recognisers.
    Word characters are the ASCII letters, digits and `_` (the `\w` class
    restricted to ASCII). */
module Strings {

  import opened Wrappers

  predicate IsDigit(c: char) { '0' <= c <= '9' }

  predicate IsLetter(c: char) { 'a' <= c <= 'z' || 'A' <= c <= 'Z' }

  /** The `\w` class. */
  predicate IsWordChar(c: char) { IsDigit(c) || IsLetter(c) || c == '_' }

  /** The `[0-9a-fA-F]` class. */
  predicate IsHexDigit(c: char) { IsDigit(c) || 'a' <= c <= 'f' || 'A' <= c <= 'F' }

  /** Every character of `s` is in the class `P`. */
  predicate All(s: string, P: char -> bool)
  {
    forall k :: 0 <= k < |s| ==> P(s[k])
  }

  /** The end of the longest run of characters in the class `P` that starts at
      index `i`: everything in `[i, j)` is in the class, and `s[j]` (if any) is
      not. */
  function RunEnd(s: string, i: nat, P: char -> bool): (j: nat)
    requires i <= |s|
    ensures i <= j <= |s|
    ensures forall k :: i <= k < j ==> P(s[k])
    ensures j == |s| || !P(s[j])
    decreases |s| - i
  {
    if i == |s| || !P(s[i]) then i else RunEnd(s, i + 1, P)
  }

  /** A run of class characters that ends at a non-class character (or at the
      end) is the maximal run: the end of the run is determined. */
  lemma RunEndIsDetermined(s: string, i: nat, j: nat, P: char -> bool)
    requires i <= j <= |s|
    requires forall k :: i <= k < j ==> P(s[k])
    requires j == |s| || !P(s[j])
    ensures RunEnd(s, i, P) == j
  {
  }

  /** `pat` occurs in `s` starting at index `i`. */
  predicate OccursAt(pat: string, s: string, i: nat)
  {
    i + |pat| <= |s| && s[i..i + |pat|] == pat
  }

  /** The leftmost occurrence of `pat` in `s` at or after index `i`, as a
      regular-expression search for a literal pattern reports it. */
  function Search(pat: string, s: string, i: nat): (r: Option<nat>)
    ensures r.Some? ==> i <= r.value && OccursAt(pat, s, r.value)
    ensures r.Some? ==> forall j :: i <= j < r.value ==> !OccursAt(pat, s, j)
    ensures r.None? ==> forall j :: i <= j ==> !OccursAt(pat, s, j)
    decreases |s| - i
  {
    if |s| < i + |pat| then None
    else if OccursAt(pat, s, i) then Some(i)
    else Search(pat, s, i + 1)
  }

  /** Index of the first `c` in `s`, or `|s|` when there is none. */
  function FirstIndex(s: string, c: char): (i: nat)
    ensures i <= |s|
    ensures i < |s| ==> s[i] == c
    ensures forall k :: 0 <= k < i ==> s[k] != c
  {
    if s == [] then 0
    else if s[0] == c then 0
    else 1 + FirstIndex(s[1..], c)
  }

  /** `s` cut at every `sep`, as `str.split(sep)` does: the fields never hold
      `sep`, and there is one more field than there are separators. */
  function Split(s: string, sep: char): (fields: seq<string>)
    ensures |fields| >= 1
    ensures forall k :: 0 <= k < |fields| ==> sep !in fields[k]
    decreases |s|
  {
    var i := FirstIndex(s, sep);
    if i == |s| then [s] else [s[..i]] + Split(s[i + 1..], sep)
  }

  /** The fields joined back together with `sep` between neighbours. */
  function Join(fields: seq<string>, sep: char): string
    requires |fields| >= 1
  {
    if |fields| == 1 then fields[0] else fields[0] + [sep] + Join(fields[1..], sep)
  }

  /** Joining two non-empty lists of fields puts one separator between the
      two joined halves. */
  lemma {:induction false} JoinAppend(xs: seq<string>, ys: seq<string>, sep: char)
    requires |xs| >= 1 && |ys| >= 1
    ensures Join(xs + ys, sep) == Join(xs, sep) + [sep] + Join(ys, sep)
    decreases |xs|
  {
    var zs := xs + ys;
    if |xs| > 1 {
      assert zs[0] == xs[0] && zs[1..] == xs[1..] + ys;
      JoinAppend(xs[1..], ys, sep);
    } else {
      assert zs[0] == xs[0] && zs[1..] == ys;
    }
  }

  /** A character that is neither the separator nor in any field is not in
      the joined string. */
  lemma {:induction false} JoinExcludes(fields: seq<string>, sep: char, c: char)
    requires |fields| >= 1 && c != sep
    requires forall k :: 0 <= k < |fields| ==> c !in fields[k]
    ensures c !in Join(fields, sep)
    decreases |fields|
  {
    if |fields| > 1 {
      JoinExcludes(fields[1..], sep, c);
    }
  }

  /** Splitting loses nothing: joining the fields restores the string. */
  lemma {:induction false} JoinSplit(s: string, sep: char)
    ensures Join(Split(s, sep), sep) == s
    decreases |s|
  {
    var i := FirstIndex(s, sep);
    if i < |s| {
      var head, tail := s[..i], s[i + 1..];
      var fields, rest := Split(s, sep), Split(tail, sep);
      assert fields == [head] + rest;
      assert fields[0] == head && fields[1..] == rest;
      JoinSplit(tail, sep);
      assert Join(fields, sep) == head + [sep] + Join(rest, sep);
      assert s == head + [sep] + tail;
    }
  }

  /** Cutting at the first separator: a prefix free of `sep` followed by `sep`
      is the first field, and the rest is split the same way. */
  lemma SplitAtFirst(s: string, sep: char, i: nat)
    requires i < |s| && s[i] == sep && forall k :: 0 <= k < i ==> s[k] != sep
    ensures Split(s, sep) == [s[..i]] + Split(s[i + 1..], sep)
  {
  }

  /** A string without `sep` is a single field. */
  lemma SplitNoSeparator(s: string, sep: char)
    requires sep !in s
    ensures Split(s, sep) == [s]
  {
  }
}
