/** `str.upper` and `str.lower`, restricted to the ASCII letters. */
module Ascii {

  const CapitalLetters: string := "ABCDEFGHIJKLMNOPQRSTUVWXYZ"
  const SmallLetters: string := "abcdefghijklmnopqrstuvwxyz"

  function UpperChar(c: char): (u: char)
    ensures 'a' <= c <= 'z' ==> u == CapitalLetters[c as int - 'a' as int]
    ensures !('a' <= c <= 'z') ==> u == c
  {
    if 'a' <= c <= 'z' then (c as int - 32) as char else c
  }

  function LowerChar(c: char): (l: char)
    ensures 'A' <= c <= 'Z' ==> l == SmallLetters[c as int - 'A' as int]
    ensures !('A' <= c <= 'Z') ==> l == c
  {
    if 'A' <= c <= 'Z' then (c as int + 32) as char else c
  }

  function Upper(s: string): (u: string)
    ensures |u| == |s|
    ensures forall i :: 0 <= i < |s| ==> u[i] == UpperChar(s[i])
  {
    seq(|s|, i requires 0 <= i < |s| => UpperChar(s[i]))
  }

  function Lower(s: string): (l: string)
    ensures |l| == |s|
    ensures forall i :: 0 <= i < |s| ==> l[i] == LowerChar(s[i])
  {
    seq(|s|, i requires 0 <= i < |s| => LowerChar(s[i]))
  }

  /** Upper-casing a lower-case letter and lower-casing it again gives the
      letter back, and the other way round. */
  lemma CaseRoundTrip(c: char)
    ensures 'a' <= c <= 'z' ==> LowerChar(UpperChar(c)) == c
    ensures 'A' <= c <= 'Z' ==> UpperChar(LowerChar(c)) == c
  {
  }

  /** A string and its upper case have the same lower case, and the other
      way round: the two casings differ only in the case of letters. */
  lemma CaseFolds(s: string)
    ensures Lower(Upper(s)) == Lower(s)
    ensures Upper(Lower(s)) == Upper(s)
    ensures Upper(Upper(s)) == Upper(s)
  {
  }
}
