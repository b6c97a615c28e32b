# regex-fun in Dafny

A model of `regex_fun.py`, a module of seven small functions that each run one
regular expression with Python's `re` module:

- `contains_hello` searches for the literal `hello`;
- `extract_emails` lists every non-overlapping match of `[\w.-]+@[\w.-]+`;
- `count_word` counts `\b<word>\b` matches and `count_substring` counts
  `\B<substring>\B` matches;
- `check_username` matches a whole username against `^[\._][0-9]+[a-zA-Z]*_?$`;
- `split_number` returns the three groups of the leftmost match of
  `([0-9]{1,3})[\- ]([0-9]{1,3})[\- ]([0-9]{4,10})`;
- `ip_validation` labels a string `IPv4` (four octets 0-255 joined by dots),
  else `IPv6` (eight groups of one to four hex digits joined by colons),
  else nothing.

The model has no regular-expression engine. Each pattern is modelled by what a
backtracking engine ends up matching:

- Greedy runs become `Strings.RunEnd`, the end of a maximal run of a character
  class.
- `findall` becomes a left-to-right scan. After a match the scan resumes at
  the match's end, otherwise one position on. These are `Counting.MatchPositions`
  and `Emails.Spans`.
- `search` becomes the leftmost position where the match succeeds, as in
  `Strings.Search` and `Phone.Find`.
- Each scanning function comes with a declarative reading of its pattern,
  written as a shape predicate (`EmailShape`, `PhoneShape`, `UsernameShape`,
  `Fields`). The lemmas tie the two together. Every reported match is a
  match of the shape, the longest one at its start. Every match of the shape
  is reported or starts inside an earlier reported match, as `findall`'s
  non-overlapping scan gives. A search returns the leftmost match.

`ip_validation` returns `Option<IpKind>`: `None` stands for Python's `None`,
and the constructors `IPv4` and `IPv6` for the strings `'IPv4'` and `'IPv6'`.
Like the source's pattern, the IPv6 shape has no `::` compression and no
embedded IPv4 tail.

The expected values of the repository's unit tests (`regex_fun.py:58-95`) are
proved about the model in the `*Cases` modules.

Modules, one per file:

| module | file | source function |
|---|---|---|
| `Wrappers` | `wrappers.dfy` | `Option`, for `None` results |
| `Strings` | `strings.dfy` | character classes, runs, literal search, split and join |
| `Hello`, `HelloCases` | `hello.dfy`, `hello_cases.dfy` | `contains_hello` |
| `Emails`, `EmailCases` | `emails.dfy`, `email_cases.dfy` | `extract_emails` |
| `Counting`, `CountingCases` | `counting.dfy`, `counting_cases.dfy` | `count_word`, `count_substring` |
| `Username`, `UsernameCases` | `username.dfy`, `username_cases.dfy` | `check_username` |
| `Phone`, `PhoneCases` | `phone.dfy`, `phone_cases.dfy` | `split_number` |
| `IpAddress`, `IpCases` | `ip_address.dfy`, `ip_cases.dfy` | `ip_validation` |

`count_substring` uses `\B`. For a literal made of word characters, `\B`
matches only where the occurrence has a word character on both sides, so the
literal must sit inside a word. The test agrees: `is` in `existing` counts. The
model follows the code and the comment at `regex_fun.py:17`:
`Counting.SubstringMatchIff` states this condition.

## Model

| member | source | states |
|---|---|---|
| Strings.Search | regex_fun.py:9 | the result is the leftmost index at or after the start where the literal occurs; `None` means it occurs nowhere from there |
| Hello.ContainsHello | regex_fun.py:8-9 | true exactly when `hello` occurs somewhere in the string, case-sensitively and with no boundary condition |
| HelloCases.ContainsHelloCases | regex_fun.py:60-63 | the three `contains_hello` test expectations |
| Emails.MatchAt | regex_fun.py:13 | a successful attempt at `start` is a match of `[\w.-]+@[\w.-]+` there (a class run, an `@`, a class run) and ends at the end of the text or before a non-class character |
| Emails.MatchAtIsLongest | regex_fun.py:13 | the attempt at `start` succeeds exactly when some match of `[\w.-]+@[\w.-]+` starts there; its result is such a match, with the only possible `@` and no match from `start` ending later |
| Emails.NoMatchAfterFailure | regex_fun.py:13 | inside a run of class characters, a failed attempt implies a failed attempt one position later |
| Emails.Spans | regex_fun.py:13 | the `findall` scan from a position: the first reported match starts at or after that position; `SpansAreMatches`, `SpansAreOrdered`, `SpansAreMaximal` and `SpansComplete` state what the whole scan reports |
| Emails.SpansComplete | regex_fun.py:13 | no match is passed over: every position where the engine's attempt succeeds, from the scan start on, lies inside a reported match |
| Emails.EveryMatchStartsInsideSpan | regex_fun.py:13 | every match of `[\w.-]+@[\w.-]+` anywhere in the text, whatever its `@` and end, starts inside a reported match |
| Emails.SpansAreMatches | regex_fun.py:13 | every span the `findall` scan reports is the engine's match at the span's start, at or after the scan's start |
| Emails.SpansAreOrdered | regex_fun.py:13 | reported spans are in increasing order and never touch |
| Emails.SpansAreMaximal | regex_fun.py:13 | each reported span starts where the scan started or just after a non-class character, so no span extends further left |
| Emails.SpansSkipStretch | regex_fun.py:13 | the scan passes over a stretch with no `@` that ends at the text's end or after a non-class character, and reports nothing in it |
| Emails.MatchAtOfRuns | regex_fun.py:13 | two maximal class runs around an `@` are exactly the engine's match |
| Emails.SeamFound | regex_fun.py:13 | a scan that starts before an `@` flanked by class characters reports at least one match |
| Emails.SpansEmptyIff | regex_fun.py:13 | the scan reports nothing exactly when no `@` has a class character on both sides |
| Emails.SpanIsToken | regex_fun.py:13 | the slice of a match is one `@` between two non-empty class runs |
| Emails.SpansAreTokens | regex_fun.py:13 | every reported slice lies inside the text and has the email token shape |
| Emails.ExtractEmails | regex_fun.py:12-13 | the result lists the reported slices in order; each is a token; it is empty exactly when no `@` is flanked by class characters; every match of the pattern in the text starts inside one of the returned slices, so only matches overlapping a returned one are left out |
| Emails.NoAtNoEmails | regex_fun.py:12-13 | text without `@` yields no addresses |
| EmailCases.TwoAddressesFound | regex_fun.py:66 | the first test text yields `alice@google.com` then `bob@abc.com` |
| EmailCases.NoAddressFound | regex_fun.py:67 | the second test text yields nothing |
| EmailCases.ExtractEmailsCases | regex_fun.py:65-67 | both `extract_emails` test expectations |
| Counting.AnchorsAtEdges | regex_fun.py:16-22 | at the ends of the text `\b` holds next to a word character and `\B` next to a non-word character; in an empty text neither holds |
| Counting.AnchorsComplement | regex_fun.py:16-22 | in a non-empty text exactly one of `\b` and `\B` holds at each position, and between two characters `\b` holds exactly when one is a word character and the other is not |
| Counting.MatchPositions | regex_fun.py:16-22 | the `findall` scan of a framed literal from a position: the first reported position is at or after it; `MatchPositionsSound` and `MatchPositionsComplete` state what the whole scan reports |
| Counting.MatchPositionsSound | regex_fun.py:16-22 | every position the `findall` scan reports is a framed match at or after the start, and consecutive positions are at least one match length apart, so matches do not overlap |
| Counting.MatchPositionsComplete | regex_fun.py:16-22 | every framed match at or after the start is reported or lies inside a reported match that begins earlier, so the scan is leftmost and misses nothing |
| Counting.CoveredAfterMatch | regex_fun.py:16-22 | after the scan reports a match at `p`, any later match is covered by that match or by a later reported one |
| Counting.MatchPositionsFit | regex_fun.py:16-22 | reported matches of a non-empty literal fit side by side in the rest of the text |
| Counting.ScanSkipsToFirstChar | regex_fun.py:16-22 | the scan skips every position that does not hold the literal's first character |
| Counting.ScanSkipsMismatchedPairs | regex_fun.py:16-22 | the scan skips every position where the text does not begin with the literal's first two characters |
| Counting.CountWord | regex_fun.py:21-22 | the count of `\b` word `\b` matches is at most the text length divided by the word length, and zero when the word is longer than the text |
| Counting.CountSubstring | regex_fun.py:16-18 | the same bound for the `\B` substring `\B` count |
| Counting.WordMatchIff | regex_fun.py:22 | for a word literal, `\b` on both sides means no word character just before and just after the occurrence |
| Counting.SubstringMatchIff | regex_fun.py:18 | for a word literal, `\B` on both sides means a word character just before and just after the occurrence |
| Counting.MatchLeftOfSeparator | regex_fun.py:16-22 | left of a non-word character, matches in `a + [c] + b` are those in `a` |
| Counting.MatchRightOfSeparator | regex_fun.py:16-22 | right of a non-word character, matches in `a + [c] + b` are those in `b` |
| Counting.ScanLeftOfSeparator | regex_fun.py:16-22 | the scan left of a non-word character counts what the scan of the left part counts |
| Counting.ScanRightOfSeparator | regex_fun.py:16-22 | the scan right of a non-word character counts what the scan of the right part counts |
| Counting.CountsSplitAtNonWord | regex_fun.py:16-22 | both counts add up over the two sides of a non-word character |
| Counting.CountsAddAfterNonWord | regex_fun.py:16-22 | both counts add up over a text cut just after a non-word character |
| Counting.NoWordCharsNoMatches | regex_fun.py:16-22 | text with no word character has no framed match of a word |
| Counting.FirstCharAbsent | regex_fun.py:16-22 | a literal whose first character is absent from the text counts zero for both |
| Counting.CountWordOfOneWord | regex_fun.py:21-22 | one word followed by separators counts one when it equals the literal and zero otherwise |
| Counting.NoLaterMatches | regex_fun.py:16-22 | a scan with no match ahead reports nothing |
| Counting.CountSubstringOfOneWord | regex_fun.py:16-18 | separators after a word add nothing to the `\B` count |
| Counting.CountsOverWords | regex_fun.py:16-22 | over a text cut into words, `count_word` counts the words equal to the literal and `count_substring` adds up the counts inside each word |
| CountingCases.WordTestText | regex_fun.py:70 | the word list spells the `count_word` test text |
| CountingCases.CountWordCases | regex_fun.py:70-71 | `foo` and `bar` are each six of the test text's words |
| CountingCases.CountWordTest | regex_fun.py:69-71 | `count_word` gives 6 for `foo` and 6 for `bar` on the test text |
| CountingCases.SubstringTestText | regex_fun.py:74 | the word list spells the `count_substring` test text |
| CountingCases.CountSubstringCases | regex_fun.py:74-77 | the counts inside the words add up to 3, 2, 1 and 0 |
| CountingCases.CountSubstringTest | regex_fun.py:73-77 | `count_substring` gives 3 for `is`, 2 for `ti`, 1 for `st` and 0 for `ex` on the test text |
| Username.ShapeFollowsRuns | regex_fun.py:31 | every reading of a username as the pattern cuts it where the digit run and then the letter run end, so the reading is unique |
| Username.CheckUsername | regex_fun.py:25-31 | true exactly when the whole name reads as `.` or `_`, one or more digits, zero or more ASCII letters, and an optional final `_` |
| UsernameCases.CheckUsernameCases | regex_fun.py:79-82 | the three `check_username` test expectations |
| Phone.ShapeFollowsRuns | regex_fun.py:39 | in any match the first two groups are whole digit runs and the third lies within the run after the second separator |
| Phone.ShapeGivesMatch | regex_fun.py:39 | any match at `p` makes the engine's attempt there succeed with the same first two groups and a third group at least as long |
| Phone.MatchAt | regex_fun.py:39 | a successful attempt is a match: 1-3 digits, separator, 1-3 digits, separator, 4-10 digits |
| Phone.MatchAtIsLongest | regex_fun.py:39 | the attempt succeeds exactly when some match starts at `p`; its groups are the only possible first two and the longest possible third |
| Phone.Find | regex_fun.py:39 | the result is a position at or after the start where the attempt succeeds, every earlier attempt fails, and `None` means every attempt fails |
| Phone.Groups | regex_fun.py:40 | the three groups are digit strings of the match's lengths: 1-3, 1-3 and 4-10 characters |
| Phone.GroupsSpellMatch | regex_fun.py:35-40 | joined by the two separators the match read, the groups spell exactly the matched text |
| Phone.NotFoundMeansNoMatch | regex_fun.py:39-40 | when the search fails, the pattern matches nowhere in the text |
| Phone.FoundIsLeftmost | regex_fun.py:39-40 | what the search finds is a match with no match further left and none with a longer third group at the same place |
| Phone.SplitNumberAtStart | regex_fun.py:39-40 | a match at the first position gives the result |
| Phone.GroupsAreDigits | regex_fun.py:40 | the groups of the leftmost match are digit strings of 1-3, 1-3 and 4-10 characters |
| Phone.SplitNumber | regex_fun.py:34-40 | `None` exactly when the pattern matches nowhere; otherwise the groups of the leftmost, longest match, which are digit strings of the allowed lengths |
| PhoneCases.SplitNumberCases | regex_fun.py:84-87 | the three `split_number` test expectations |
| IpAddress.OctetIsByte | regex_fun.py:47 | the octet alternation accepts exactly the decimal numerals 0 to 255 without a leading zero (a lone `0` allowed) |
| IpAddress.FieldsSplit | regex_fun.py:49-51 | a match of `n` fields that cannot contain the separator is what splitting at every separator gives: `n` fields that all match |
| IpAddress.SplitFields | regex_fun.py:49-51 | splitting into `n` fields that all match is a match of `n` fields |
| IpAddress.FieldsIffSplit | regex_fun.py:49-51 | when no field can hold the separator, matching `n` fields is the same as splitting into `n` fields that all match |
| IpAddress.FieldsExclude | regex_fun.py:49-51 | a character that no field can hold and that is not the separator does not occur in a match |
| IpAddress.FieldsOfJoin | regex_fun.py:49-51 | fields that all match, joined by the separator, form a match of that many fields |
| IpAddress.IPv4AndIPv6Disjoint | regex_fun.py:49-52 | no string matches both address patterns, so trying IPv4 first hides no IPv6 address |
| IpAddress.JoinedOctetsAreIPv4 | regex_fun.py:49-50 | four octets joined by dots are labelled `IPv4` |
| IpAddress.JoinedHexGroupsAreIPv6 | regex_fun.py:51-52 | eight hex groups joined by colons are labelled `IPv6` |
| IpAddress.NoSeparatorRejected | regex_fun.py:53-54 | a string with neither `.` nor `:` gets no label |
| IpAddress.ForeignCharRejected | regex_fun.py:53-54 | a string holding a character that is neither a hex digit nor a separator gets no label |
| IpAddress.IpValidation | regex_fun.py:43-54 | `IPv4` exactly when the string is four octets joined by dots; `IPv6` exactly when it is not that but is eight hex groups joined by colons; no label otherwise |
| IpCases.IpValidationCases | regex_fun.py:89-95 | the six `ip_validation` test expectations |
| Strings.JoinSplit | regex_fun.py:49-51 | joining the fields of a split with the separator restores the string |
| Strings.JoinAppend | regex_fun.py:49-51 | joining two non-empty field lists puts one separator between the two joined halves |

## Left out

- Characters are modelled as ASCII: `\w` is `[A-Za-z0-9_]`. Python 3 also
  counts non-ASCII letters and digits as word characters in `str` patterns.
  This affects `[\w.-]`, `\b` and `\B`. The patterns' `[0-9]`, `[a-zA-Z]` and
  hex classes are ASCII in Python as well.
- Counting.CountWord: the word is spliced into the pattern unescaped. The
  model reads it as literal text, so a word holding a metacharacter (`.`, `*`,
  `(`, ...) is not modelled.
- Counting.CountSubstring: the same, for the substring.
- Username.CheckUsername: Python's `$` also matches just before a final
  newline, so `'_1\n'` passes in the source. The model requires the match to
  end at the end of the string.
- IpAddress.IpValidation: the same `$` difference. The model also rejects an
  address followed by one final newline, which the source accepts.
- Phone.SplitNumber: when nothing matches, the source raises an error by
  reading groups of `None`. The model returns `None` instead.
- The regular-expression engine itself is not modelled. Each pattern is
  specified by its shape predicate. The scans are proved to report the
  longest match at each position they try and to pass over no match.
- Counting.AnchorHolds: `\B` never holds in an empty text, as in the `re`
  engine of Python up to 3.13. From Python 3.14 on `\B` holds there, so
  `count_substring('', '')` gives 1 there and 0 in the model.
- CountingCases.CountWordTest and CountingCases.CountSubstringTest: the test
  texts are passed as a parameter that must equal the text, written in
  concatenated pieces. The expected counts are derived from a word-by-word
  reading of the text (`WordTest`, `SubstringTest`) that `WordTestText` and
  `SubstringTestText` prove spells it. This keeps the verifier from
  evaluating the scan on the literal text.
- IpCases.IpValidationCases, EmailCases.ExtractEmailsCases: the IPv4, IPv6
  and email test strings are written as concatenations of pieces, for the
  same reason. Each concatenation equals the test's string.
- PhoneCases.SplitNumberCases: each test text is passed to the helper lemmas
  as a parameter, for the same reason.
- The unit-test runner (`unittest`, `__main__`) is not modelled.
