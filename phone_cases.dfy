/** The expected values of the unit tests of `split_number`. Each number
    is passed to its lemmas as a parameter, so that the verifier reasons
    from the run lemmas rather than by evaluating the scan on the literal. */
module PhoneCases {

  import opened Wrappers
  import opened Strings
  import opened Phone

  lemma DashedMatch(t: string)
    requires t == "91-011-23413627"
    ensures MatchAt(t, 0) == Some(GroupLengths(2, 3, 8))
  {
    RunEndIsDetermined(t, 0, 2, IsDigit);
    RunEndIsDetermined(t, 3, 6, IsDigit);
    RunEndIsDetermined(t, 7, 15, IsDigit);
  }

  lemma DashedGroups(t: string)
    requires t == "91-011-23413627" && MatchAt(t, 0) == Some(GroupLengths(2, 3, 8))
    ensures Groups(t, PhoneMatch(0, GroupLengths(2, 3, 8))) == PhoneParts("91", "011", "23413627")
  {
    assert t[0..2] == "91" && t[3..6] == "011" && t[7..15] == "23413627";
  }

  lemma DashedSplit(t: string)
    requires t == "91-011-23413627"
    ensures SplitNumber(t) == Some(PhoneParts("91", "011", "23413627"))
  {
    DashedMatch(t);
    SplitNumberAtStart(t, GroupLengths(2, 3, 8));
    DashedGroups(t);
  }

  lemma SpacedMatch(t: string)
    requires t == "1 877 2638277"
    ensures MatchAt(t, 0) == Some(GroupLengths(1, 3, 7))
  {
    RunEndIsDetermined(t, 0, 1, IsDigit);
    RunEndIsDetermined(t, 2, 5, IsDigit);
    RunEndIsDetermined(t, 6, 13, IsDigit);
  }

  lemma SpacedGroups(t: string)
    requires t == "1 877 2638277" && MatchAt(t, 0) == Some(GroupLengths(1, 3, 7))
    ensures Groups(t, PhoneMatch(0, GroupLengths(1, 3, 7))) == PhoneParts("1", "877", "2638277")
  {
    assert t[0..1] == "1" && t[2..5] == "877" && t[6..13] == "2638277";
  }

  lemma SpacedSplit(t: string)
    requires t == "1 877 2638277"
    ensures SplitNumber(t) == Some(PhoneParts("1", "877", "2638277"))
  {
    SpacedMatch(t);
    SplitNumberAtStart(t, GroupLengths(1, 3, 7));
    SpacedGroups(t);
  }

  lemma TenDigitMatch(t: string)
    requires t == "891-454-9195497623"
    ensures MatchAt(t, 0) == Some(GroupLengths(3, 3, 10))
  {
    RunEndIsDetermined(t, 0, 3, IsDigit);
    RunEndIsDetermined(t, 4, 7, IsDigit);
    RunEndIsDetermined(t, 8, 18, IsDigit);
  }

  lemma TenDigitGroups(t: string)
    requires t == "891-454-9195497623" && MatchAt(t, 0) == Some(GroupLengths(3, 3, 10))
    ensures Groups(t, PhoneMatch(0, GroupLengths(3, 3, 10))) == PhoneParts("891", "454", "9195497623")
  {
    assert t[0..3] == "891" && t[4..7] == "454" && t[8..18] == "9195497623";
  }

  lemma TenDigitSplit(t: string)
    requires t == "891-454-9195497623"
    ensures SplitNumber(t) == Some(PhoneParts("891", "454", "9195497623"))
  {
    TenDigitMatch(t);
    SplitNumberAtStart(t, GroupLengths(3, 3, 10));
    TenDigitGroups(t);
  }

  lemma SplitNumberCases()
    ensures SplitNumber("91-011-23413627") == Some(PhoneParts("91", "011", "23413627"))
    ensures SplitNumber("1 877 2638277") == Some(PhoneParts("1", "877", "2638277"))
    ensures SplitNumber("891-454-9195497623") == Some(PhoneParts("891", "454", "9195497623"))
  {
    DashedSplit("91-011-23413627");
    SpacedSplit("1 877 2638277");
    TenDigitSplit("891-454-9195497623");
  }
}
