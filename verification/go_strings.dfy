/**
  The few functions of Go's `strings` package that the program relies on,
  stated over Dafny strings (`seq<char>`). Go compares bytes and Dafny compares
  characters; for the ASCII keys and the newline used here the two agree.
 */
module GoStrings {

  /** `strings.HasPrefix(s, p)`: `s` is at least as long as `p` and starts with it. */
  predicate HasPrefix(s: string, p: string)
  {
    |p| <= |s| && s[..|p|] == p
  }

  /** `strings.HasSuffix(s, x)`: `s` is at least as long as `x` and ends with it. */
  predicate HasSuffix(s: string, x: string)
  {
    |x| <= |s| && s[|s| - |x|..] == x
  }

  /** `strings.TrimPrefix(s, p)`: `s` without its leading `p`, or `s` itself when it does not start with `p`. */
  function TrimPrefix(s: string, p: string): (r: string)
    ensures HasPrefix(s, p) ==> p + r == s
    ensures !HasPrefix(s, p) ==> r == s
  {
    if HasPrefix(s, p) then s[|p|..] else s
  }

  /** `strings.TrimSuffix(s, x)`: `s` without its trailing `x`, or `s` itself when it does not end with `x`. */
  function TrimSuffix(s: string, x: string): (r: string)
    ensures HasSuffix(s, x) ==> r + x == s
    ensures !HasSuffix(s, x) ==> r == s
  {
    if HasSuffix(s, x) then s[..|s| - |x|] else s
  }

  /** Go's byte-wise prefix test is Dafny's sequence-prefix relation. */
  lemma HasPrefixIsSeqPrefix(s: string, p: string)
    ensures HasPrefix(s, p) <==> p <= s
  {
  }

  /** Whatever is glued after a prefix is exactly what trimming the prefix gives back. */
  lemma TrimPrefixOfConcat(p: string, v: string)
    ensures HasPrefix(p + v, p)
    ensures TrimPrefix(p + v, p) == v
  {
    assert (p + v)[..|p|] == p;
    assert (p + v)[|p|..] == v;
  }

  /** Whatever stands before an appended suffix is exactly what trimming the suffix gives back. */
  lemma TrimSuffixOfConcat(v: string, x: string)
    ensures HasSuffix(v + x, x)
    ensures TrimSuffix(v + x, x) == v
  {
    assert (v + x)[|v|..] == x;
    assert (v + x)[..|v|] == v;
  }
}
