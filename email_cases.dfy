/** The expected values of the unit tests of `extract_emails`. The test
    text is written in pieces and passed to the scan lemmas as a parameter,
    which keeps the verifier from evaluating the scan on the whole literal. */
module EmailCases {

  import opened Wrappers
  import opened Strings
  import opened Emails

  /** Nothing before `alice`: the stretch ends at a space. */
  lemma SkipToAlice(s: string)
    requires s == "purple " + "alice@google.com" + ", blah monkey " + "bob@abc.com" + " blah dishwasher"
    ensures Spans(s, 0) == Spans(s, 7)
  {
    SpansSkipStretch(s, 0, 7);
  }

  lemma AliceMatch(s: string)
    requires s == "purple " + "alice@google.com" + ", blah monkey " + "bob@abc.com" + " blah dishwasher"
    ensures MatchAt(s, 7) == Some(Span(7, 12, 23))
  {
    MatchAtOfRuns(s, 7, 12, 23);
  }

  /** Nothing between the comma and `bob`. */
  lemma SkipToBob(s: string)
    requires s == "purple " + "alice@google.com" + ", blah monkey " + "bob@abc.com" + " blah dishwasher"
    ensures Spans(s, 23) == Spans(s, 37)
  {
    SpansSkipStretch(s, 23, 37);
  }

  lemma BobMatch(s: string)
    requires s == "purple " + "alice@google.com" + ", blah monkey " + "bob@abc.com" + " blah dishwasher"
    ensures MatchAt(s, 37) == Some(Span(37, 40, 48))
  {
    MatchAtOfRuns(s, 37, 40, 48);
  }

  /** Nothing after `bob@abc.com`. */
  lemma SkipToEnd(s: string)
    requires s == "purple " + "alice@google.com" + ", blah monkey " + "bob@abc.com" + " blah dishwasher"
    ensures Spans(s, 48) == []
  {
    SpansSkipStretch(s, 48, 64);
  }

  lemma TwoAddressesScan(s: string)
    requires s == "purple " + "alice@google.com" + ", blah monkey " + "bob@abc.com" + " blah dishwasher"
    ensures Spans(s, 0) == [Span(7, 12, 23), Span(37, 40, 48)]
  {
    SkipToAlice(s);
    AliceMatch(s);
    SkipToBob(s);
    BobMatch(s);
    SkipToEnd(s);
  }

  lemma TwoAddressesFound()
    ensures ExtractEmails("purple " + "alice@google.com" + ", blah monkey " + "bob@abc.com" + " blah dishwasher") == ["alice@google.com", "bob@abc.com"]
  {
    var s := "purple " + "alice@google.com" + ", blah monkey " + "bob@abc.com" + " blah dishwasher";
    TwoAddressesScan(s);
    assert s[7..23] == "alice@google.com" && s[37..48] == "bob@abc.com";
  }

  lemma NoAddressFound()
    ensures ExtractEmails("purple alicegoogle.com, " + "blah monkey babc.com " + "blah dishwasher") == []
  {
    var s := "purple alicegoogle.com, " + "blah monkey babc.com " + "blah dishwasher";
    assert '@' !in s;
    NoAtNoEmails(s);
  }

  lemma ExtractEmailsCases()
    ensures ExtractEmails("purple " + "alice@google.com" + ", blah monkey " + "bob@abc.com" + " blah dishwasher") == ["alice@google.com", "bob@abc.com"]
    ensures ExtractEmails("purple alicegoogle.com, " + "blah monkey babc.com " + "blah dishwasher") == []
  {
    TwoAddressesFound();
    NoAddressFound();
  }
}
