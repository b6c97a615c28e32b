/** The expected values of the repository's unit tests for `count_word`
    and `count_substring`, stated about the model through the test texts cut
    into words; `Counting.CountsOverWords` carries them over to the whole
    texts. The counts inside single words are found by walking the scan: it
    passes positions where the literal does not start, reports a match, or
    passes an occurrence whose anchors fail. */
module CountingCases {

  import opened Counting

  /** "foo bar (foo) bar foo-bar foo_bar foo'bar bar-foo bar, foo." */
  const WordTest: Words :=
    Then("foo", " ", Then("bar", " (", Then("foo", ") ", Then("bar", " ", WordTestMiddle))))

  /** "foo-bar foo_bar foo'bar bar-foo bar, foo." */
  const WordTestMiddle: Words :=
    Then("foo", "-", Then("bar", " ", Then("foo_bar", " ", Then("foo", "'", Then("bar", " ", WordTestEnd)))))

  /** "bar-foo bar, foo." */
  const WordTestEnd: Words :=
    Then("bar", "-", Then("foo", " ", Then("bar", ", ", Then("foo", ".", End))))

  /** "existing pessimist optimist this is" */
  const SubstringTest: Words :=
    Then("existing", " ", Then("pessimist", " ", Then("optimist", " ", Then("this", " ", Then("is", "", End)))))

  lemma WordTestIsTokenised()
    ensures Tokenised(WordTest)
  {
  }

  /** `count_word` finds six of each: `foo_bar` is one word, while `-`, `'`
      and punctuation end words. */
  lemma CountWordCases()
    ensures Occurrences("foo", WordTest) == 6
    ensures Occurrences("bar", WordTest) == 6
  {
    assert Occurrences("foo", WordTestEnd) == 2 && Occurrences("bar", WordTestEnd) == 2;
    assert Occurrences("foo", WordTestMiddle) == 4 && Occurrences("bar", WordTestMiddle) == 4;
  }

  lemma SubstringTestIsTokenised()
    ensures Tokenised(SubstringTest)
  {
  }

  lemma IsInExisting()
    ensures CountSubstring("is", "existing") == 1
  {
    ScanSkipsMismatchedPairs(NonBoundary, "is", "existing", 0, 2);
    ScanMatch(NonBoundary, "is", "existing", 2);
    ScanSkipsMismatchedPairs(NonBoundary, "is", "existing", 4, 9);
  }

  lemma TiInExisting()
    ensures CountSubstring("ti", "existing") == 1
  {
    ScanSkipsMismatchedPairs(NonBoundary, "ti", "existing", 0, 4);
    ScanMatch(NonBoundary, "ti", "existing", 4);
    ScanSkipsMismatchedPairs(NonBoundary, "ti", "existing", 6, 9);
  }

  lemma StInExisting()
    ensures CountSubstring("st", "existing") == 1
  {
    ScanSkipsMismatchedPairs(NonBoundary, "st", "existing", 0, 3);
    ScanMatch(NonBoundary, "st", "existing", 3);
    ScanSkipsMismatchedPairs(NonBoundary, "st", "existing", 5, 9);
  }

  lemma ExInExisting()
    ensures CountSubstring("ex", "existing") == 0
  {
    ScanMissAnchor(NonBoundary, "ex", "existing", 0);
    ScanSkipsMismatchedPairs(NonBoundary, "ex", "existing", 1, 9);
  }

  lemma IsInPessimist()
    ensures CountSubstring("is", "pessimist") == 1
  {
    ScanSkipsMismatchedPairs(NonBoundary, "is", "pessimist", 0, 6);
    ScanMatch(NonBoundary, "is", "pessimist", 6);
    ScanSkipsMismatchedPairs(NonBoundary, "is", "pessimist", 8, 10);
  }

  lemma TiInPessimist()
    ensures CountSubstring("ti", "pessimist") == 0
  {
    ScanSkipsMismatchedPairs(NonBoundary, "ti", "pessimist", 0, 10);
  }

  lemma StInPessimist()
    ensures CountSubstring("st", "pessimist") == 0
  {
    ScanSkipsMismatchedPairs(NonBoundary, "st", "pessimist", 0, 7);
    ScanMissAnchor(NonBoundary, "st", "pessimist", 7);
    ScanSkipsMismatchedPairs(NonBoundary, "st", "pessimist", 8, 10);
  }

  lemma ExInPessimist()
    ensures CountSubstring("ex", "pessimist") == 0
  {
    ScanSkipsMismatchedPairs(NonBoundary, "ex", "pessimist", 0, 10);
  }

  lemma IsInOptimist()
    ensures CountSubstring("is", "optimist") == 1
  {
    ScanSkipsMismatchedPairs(NonBoundary, "is", "optimist", 0, 5);
    ScanMatch(NonBoundary, "is", "optimist", 5);
    ScanSkipsMismatchedPairs(NonBoundary, "is", "optimist", 7, 9);
  }

  lemma TiInOptimist()
    ensures CountSubstring("ti", "optimist") == 1
  {
    ScanSkipsMismatchedPairs(NonBoundary, "ti", "optimist", 0, 2);
    ScanMatch(NonBoundary, "ti", "optimist", 2);
    ScanSkipsMismatchedPairs(NonBoundary, "ti", "optimist", 4, 9);
  }

  lemma StInOptimist()
    ensures CountSubstring("st", "optimist") == 0
  {
    ScanSkipsMismatchedPairs(NonBoundary, "st", "optimist", 0, 6);
    ScanMissAnchor(NonBoundary, "st", "optimist", 6);
    ScanSkipsMismatchedPairs(NonBoundary, "st", "optimist", 7, 9);
  }

  lemma ExInOptimist()
    ensures CountSubstring("ex", "optimist") == 0
  {
    FirstCharAbsent("ex", "optimist");
  }

  lemma IsInThis()
    ensures CountSubstring("is", "this") == 0
  {
    ScanSkipsMismatchedPairs(NonBoundary, "is", "this", 0, 2);
    ScanMissAnchor(NonBoundary, "is", "this", 2);
    ScanSkipsMismatchedPairs(NonBoundary, "is", "this", 3, 5);
  }

  lemma TiInThis()
    ensures CountSubstring("ti", "this") == 0
  {
    ScanSkipsMismatchedPairs(NonBoundary, "ti", "this", 0, 5);
  }

  lemma StInThis()
    ensures CountSubstring("st", "this") == 0
  {
    ScanSkipsMismatchedPairs(NonBoundary, "st", "this", 0, 5);
  }

  lemma ExInThis()
    ensures CountSubstring("ex", "this") == 0
  {
    FirstCharAbsent("ex", "this");
  }

  lemma IsInIs()
    ensures CountSubstring("is", "is") == 0
  {
    ScanMissAnchor(NonBoundary, "is", "is", 0);
    ScanSkipsMismatchedPairs(NonBoundary, "is", "is", 1, 3);
  }

  lemma TiInIs()
    ensures CountSubstring("ti", "is") == 0
  {
    FirstCharAbsent("ti", "is");
  }

  lemma StInIs()
    ensures CountSubstring("st", "is") == 0
  {
    ScanSkipsMismatchedPairs(NonBoundary, "st", "is", 0, 3);
  }

  lemma ExInIs()
    ensures CountSubstring("ex", "is") == 0
  {
    FirstCharAbsent("ex", "is");
  }

  lemma IsInSubstringTest()
    ensures IsWord("is")
    ensures InnerCounts("is", SubstringTest) == 3
  {
    IsInExisting();
    IsInPessimist();
    IsInOptimist();
    IsInThis();
    IsInIs();
  }

  lemma TiInSubstringTest()
    ensures IsWord("ti")
    ensures InnerCounts("ti", SubstringTest) == 2
  {
    TiInExisting();
    TiInPessimist();
    TiInOptimist();
    TiInThis();
    TiInIs();
  }

  lemma StInSubstringTest()
    ensures IsWord("st")
    ensures InnerCounts("st", SubstringTest) == 1
  {
    StInExisting();
    StInPessimist();
    StInOptimist();
    StInThis();
    StInIs();
  }

  lemma ExInSubstringTest()
    ensures IsWord("ex")
    ensures InnerCounts("ex", SubstringTest) == 0
  {
    ExInExisting();
    ExInPessimist();
    ExInOptimist();
    ExInThis();
    ExInIs();
  }

  /** `count_substring` finds `is` three times, `ti` twice, `st` once and
      `ex` never: occurrences at the edge of a word do not count. */
  lemma CountSubstringCases()
    ensures InnerCounts("is", SubstringTest) == 3
    ensures InnerCounts("ti", SubstringTest) == 2
    ensures InnerCounts("st", SubstringTest) == 1
    ensures InnerCounts("ex", SubstringTest) == 0
  {
    IsInSubstringTest();
    TiInSubstringTest();
    StInSubstringTest();
    ExInSubstringTest();
  }

  lemma WordTestEndText()
    ensures Text(WordTestEnd) == "bar-foo bar, foo."
  {
  }

  lemma WordTestMiddleText()
    ensures Text(WordTestMiddle) == "foo-bar foo_bar foo'bar " + Text(WordTestEnd)
  {
  }

  lemma WordTestStartText()
    ensures Text(WordTest) == "foo bar (foo) bar " + Text(WordTestMiddle)
  {
  }

  /** The word list spells the `count_word` test text. */
  lemma WordTestText()
    ensures Text(WordTest) == "foo bar (foo) bar " + "foo-bar foo_bar foo'bar " + "bar-foo bar, foo."
  {
    WordTestStartText();
    WordTestMiddleText();
    WordTestEndText();
  }

  /** The `count_word` test: six of each in the test text. */
  lemma CountWordTest(t: string)
    requires t == "foo bar (foo) bar " + "foo-bar foo_bar foo'bar " + "bar-foo bar, foo."
    ensures CountWord("foo", t) == 6 && CountWord("bar", t) == 6
  {
    WordTestText();
    WordTestIsTokenised();
    CountsOverWords("foo", WordTest);
    CountsOverWords("bar", WordTest);
    CountWordCases();
  }

  /** The word list spells the `count_substring` test text. */
  lemma SubstringTestText()
    ensures Text(SubstringTest) == "existing pessimist " + "optimist this is"
  {
  }

  /** Each `count_substring` expectation carried over to the test text. */
  lemma SubstringCountOnTestText(w: string, n: nat, t: string)
    requires t == Text(SubstringTest) && IsWord(w)
    requires InnerCounts(w, SubstringTest) == n
    ensures CountSubstring(w, t) == n
  {
    SubstringTestIsTokenised();
    CountsOverWords(w, SubstringTest);
  }

  lemma IsInTestText(t: string)
    requires t == Text(SubstringTest)
    ensures CountSubstring("is", t) == 3
  {
    IsInSubstringTest();
    SubstringCountOnTestText("is", 3, t);
  }

  lemma TiInTestText(t: string)
    requires t == Text(SubstringTest)
    ensures CountSubstring("ti", t) == 2
  {
    TiInSubstringTest();
    SubstringCountOnTestText("ti", 2, t);
  }

  lemma StInTestText(t: string)
    requires t == Text(SubstringTest)
    ensures CountSubstring("st", t) == 1
  {
    StInSubstringTest();
    SubstringCountOnTestText("st", 1, t);
  }

  lemma ExInTestText(t: string)
    requires t == Text(SubstringTest)
    ensures CountSubstring("ex", t) == 0
  {
    ExInSubstringTest();
    SubstringCountOnTestText("ex", 0, t);
  }

  /** The `count_substring` test: three, two, one and none in the test text. */
  lemma CountSubstringTest(t: string)
    requires t == "existing pessimist " + "optimist this is"
    ensures CountSubstring("is", t) == 3 && CountSubstring("ti", t) == 2
    ensures CountSubstring("st", t) == 1 && CountSubstring("ex", t) == 0
  {
    SubstringTestText();
    IsInTestText(t);
    TiInTestText(t);
    StInTestText(t);
    ExInTestText(t);
  }
}
