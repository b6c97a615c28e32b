/** The expected values of the unit tests of `contains_hello`. */
module HelloCases {

  import opened Strings
  import opened Hello

  /** The first two characters of an occurrence are those of the pattern. */
  lemma OccursAtFirstTwo(pat: string, s: string, i: nat)
    ensures OccursAt(pat, s, i) && |pat| >= 2 ==> s[i] == pat[0] && s[i + 1] == pat[1]
  {
    if OccursAt(pat, s, i) && |pat| >= 2 {
      assert s[i..i + |pat|][0] == s[i] && s[i..i + |pat|][1] == s[i + 1];
    }
  }

  lemma ContainsHelloCases()
    ensures ContainsHello("thisisahelloworldstring")
    ensures ContainsHello("hellohellohello")
    ensures !ContainsHello("thisstringisnot")
  {
    assert OccursAt(HelloWord, "thisisahelloworldstring", 7);
    assert OccursAt(HelloWord, "hellohellohello", 0);
    var s := "thisstringisnot";
    forall i: nat | OccursAt(HelloWord, s, i) ensures false {
      OccursAtFirstTwo(HelloWord, s, i);
    }
  }
}
