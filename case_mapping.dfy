/**
 * Python's `str.upper`, `str.lower` and `str.isupper`, restricted to the ASCII
 * letters: every other character is treated as having no case.
 */
module CaseMapping {

  predicate IsUpperLetter(c: char) { 'A' <= c <= 'Z' }
  predicate IsLowerLetter(c: char) { 'a' <= c <= 'z' }

  function UpperChar(c: char): (u: char)
    ensures !IsLowerLetter(u)
    ensures IsLowerLetter(c) ==> u as int == c as int - 32
    ensures !IsLowerLetter(c) ==> u == c
  {
    if IsLowerLetter(c) then (c as int - 32) as char else c
  }

  function LowerChar(c: char): (l: char)
    ensures !IsUpperLetter(l)
    ensures IsUpperLetter(c) ==> l as int == c as int + 32
    ensures !IsUpperLetter(c) ==> l == c
  {
    if IsUpperLetter(c) then (c as int + 32) as char else c
  }

  function Upper(s: string): (u: string)
    ensures |u| == |s| && forall k :: 0 <= k < |s| ==> u[k] == UpperChar(s[k])
  {
    seq(|s|, k requires 0 <= k < |s| => UpperChar(s[k]))
  }

  function Lower(s: string): (l: string)
    ensures |l| == |s| && forall k :: 0 <= k < |s| ==> l[k] == LowerChar(s[k])
  {
    seq(|s|, k requires 0 <= k < |s| => LowerChar(s[k]))
  }

  /** A string has case exactly when it holds a letter: then its lower and upper forms differ. */
  lemma {:induction false} CasedIffLetter(s: string)
    ensures Lower(s) != Upper(s) <==> exists k :: 0 <= k < |s| && (IsUpperLetter(s[k]) || IsLowerLetter(s[k]))
  {
    if exists k :: 0 <= k < |s| && (IsUpperLetter(s[k]) || IsLowerLetter(s[k])) {
      var k :| 0 <= k < |s| && (IsUpperLetter(s[k]) || IsLowerLetter(s[k]));
      assert Lower(s)[k] != Upper(s)[k];
    } else {
      assert forall k :: 0 <= k < |s| ==> Lower(s)[k] == Upper(s)[k];
    }
  }
}
