/** `contains_hello`: a regular-expression search for the literal `hello`. */
module Hello {

  import opened Strings

  const HelloWord: string := "hello"

  /** True exactly when `hello` occurs somewhere in `s` as a contiguous,
      case-sensitive substring; no word boundary is required. */
  function ContainsHello(s: string): (r: bool)
    ensures r <==> exists i :: OccursAt(HelloWord, s, i)
  {
    Search(HelloWord, s, 0).Some?
  }
}
