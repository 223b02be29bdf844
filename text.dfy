/**
 * Letter-case folding as the installer uses it: `re.IGNORECASE` in the
 * version pattern and `str.lower()` in the injection search. Folding is
 * modelled per character and for ASCII letters only, so that it never
 * changes the length of a string.
 */
module Text {

  predicate IsUpper(c: char) { 'A' <= c <= 'Z' }

  function LowerChar(c: char): char
  {
    if IsUpper(c) then (c as int + 32) as char else c
  }

  /** `s.lower()` restricted to ASCII letters. */
  function Lower(s: string): (r: string)
    ensures |r| == |s|
    ensures forall i :: 0 <= i < |s| ==> r[i] == LowerChar(s[i])
  {
    seq(|s|, i requires 0 <= i < |s| => LowerChar(s[i]))
  }

  lemma LowerSlice(s: string, i: int, j: int)
    requires 0 <= i <= j <= |s|
    ensures Lower(s[i..j]) == Lower(s)[i..j]
  {
  }

  lemma LowerTwice(s: string)
    ensures Lower(Lower(s)) == Lower(s)
  {
  }

  /** Folding never produces an upper-case letter, and leaves every non-letter alone. */
  lemma LowerCharFacts(c: char)
    ensures !IsUpper(LowerChar(c))
    ensures !('a' <= c <= 'z') && !IsUpper(c) ==> LowerChar(c) == c
    ensures 'a' <= LowerChar(c) <= 'z' <==> ('a' <= c <= 'z' || IsUpper(c))
  {
  }
}
