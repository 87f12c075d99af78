/** Strings as C keeps them, up to the first zero character. */
module CStrings {
  const NUL: char := 0 as char

  /** strlen, or the whole length when no zero is there. */
  function Terminator(text: string): (n: nat)
    ensures n <= |text| && (n < |text| ==> text[n] == NUL) && forall i :: 0 <= i < n ==> text[i] != NUL
  {
    if text == [] || text[0] == NUL then 0 else 1 + Terminator(text[1..])
  }

  lemma {:induction false} TerminatorIs(text: string, n: nat)
    requires n < |text| && text[n] == NUL && forall i :: 0 <= i < n ==> text[i] != NUL
    ensures Terminator(text) == n
  {
  }

  function CText(a: array<char>): (s: string)
    reads a
    ensures |s| <= a.Length
  {
    a[..Terminator(a[..])]
  }

  /** The zero is inside of the array. */
  predicate Terminated(a: array<char>)
    reads a
  {
    Terminator(a[..]) < a.Length
  }
}
