/** The expected values of the unit tests of `check_username`. */
module UsernameCases {

  import opened Strings
  import opened Username

  /** Lead `_`, ten digits, five letters and a trailing `_`. */
  lemma DigitsLettersUnderscoreAccepted()
    ensures CheckUsername("_0898989811abced_")
  {
    assert UsernameShape("_0898989811abced_", 11, 16);
  }

  /** No digit after the lead character. */
  lemma MissingDigitsRejected()
    ensures !CheckUsername("_abce")
  {
    var u := "_abce";
    assert !IsDigit(u[1]);
  }

  /** A digit after the letters, where only `_` or the end may come. */
  lemma TrailingDigitRejected()
    ensures !CheckUsername("_09090909abcD0")
  {
    var u := "_09090909abcD0";
    RunEndIsDetermined(u, 1, 9, IsDigit);
    RunEndIsDetermined(u, 9, 13, IsLetter);
    forall d: nat, l: nat | UsernameShape(u, d, l) ensures false {
      ShapeFollowsRuns(u, d, l);
    }
  }

  lemma CheckUsernameCases()
    ensures CheckUsername("_0898989811abced_")
    ensures !CheckUsername("_abce")
    ensures !CheckUsername("_09090909abcD0")
  {
    DigitsLettersUnderscoreAccepted();
    MissingDigitsRejected();
    TrailingDigitRejected();
  }
}
