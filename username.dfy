/** `check_username`: the whole string must match `[._][0-9]+[a-zA-Z]*_?`. */
module Username {

  import opened Strings

  /** `u` reads as the pattern with its parts cut at `d` and `l`: the lead
      character `u[0]`, the digits `u[1..d]` (at least one), the letters
      `u[d..l]` (possibly none) and then either nothing or a single `_`. */
  predicate UsernameShape(u: string, d: nat, l: nat)
  {
    1 < d <= l <= |u| && (u[0] == '_' || u[0] == '.')
    && (forall k :: 1 <= k < d ==> IsDigit(u[k]))
    && (forall k :: d <= k < l ==> IsLetter(u[k]))
    && (l == |u| || (l == |u| - 1 && u[l] == '_'))
  }

  /** Every way of reading `u` as the pattern cuts it where the digit run and
      then the letter run end, since neither run can be followed by a
      character of its own class. */
  lemma ShapeFollowsRuns(u: string, d: nat, l: nat)
    requires UsernameShape(u, d, l)
    ensures d == RunEnd(u, 1, IsDigit) && l == RunEnd(u, d, IsLetter)
  {
    RunEndIsDetermined(u, 1, d, IsDigit);
    RunEndIsDetermined(u, d, l, IsLetter);
  }

  /** True exactly when the whole of `u` matches the pattern. */
  function CheckUsername(u: string): (r: bool)
    ensures r <==> exists d: nat, l: nat :: UsernameShape(u, d, l)
  {
    if |u| < 2 || !(u[0] == '_' || u[0] == '.') then false
    else
      var d := RunEnd(u, 1, IsDigit);
      var l := RunEnd(u, d, IsLetter);
      var ok := 1 < d && (l == |u| || (l == |u| - 1 && u[l] == '_'));
      assert ok ==> UsernameShape(u, d, l);
      assert !ok ==> forall d': nat, l': nat :: !UsernameShape(u, d', l') by {
        forall d': nat, l': nat | UsernameShape(u, d', l') ensures ok {
          ShapeFollowsRuns(u, d', l');
        }
      }
      ok
  }
}
