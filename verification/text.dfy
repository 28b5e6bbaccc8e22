/** The string operations the store relies on: case folding, as used when
    display names are compared, and suffix tests on file names.
    Case folding covers the ASCII letters only. */
module Text {

  predicate IsUpper(c: char) {
    'A' <= c <= 'Z'
  }

  function LowerChar(c: char): (r: char)
    ensures !IsUpper(r)
    ensures IsUpper(c) <==> r != c
  {
    if IsUpper(c) then (c as int + ('a' as int - 'A' as int)) as char else c
  }

  /** String.toLowerCase on ASCII text. */
  function Lower(s: string): (r: string)
    ensures |r| == |s|
    ensures forall i :: 0 <= i < |s| ==> r[i] == LowerChar(s[i])
  {
    if |s| == 0 then [] else [LowerChar(s[0])] + Lower(s[1..])
  }

  /** String.equalsIgnoreCase on ASCII text. */
  predicate EqualsIgnoreCase(a: string, b: string) {
    Lower(a) == Lower(b)
  }

  predicate EndsWith(s: string, suffix: string) {
    |suffix| <= |s| && s[|s| - |suffix|..] == suffix
  }

  /** A lower-cased string holds no upper-case letter, so a string that does
      is never the lower-case form of anything. */
  lemma UpperNeverLowered(s: string, t: string)
    requires exists i :: 0 <= i < |s| && IsUpper(s[i])
    ensures Lower(t) != s
  {
  }
}
