/**
 * Character classes and case mapping used by topic extraction: Python's
 * `str.isalnum` and `str.lower`, restricted to ASCII.
 */
module TextOps {

  predicate IsUpper(c: char) {
    'A' <= c <= 'Z'
  }

  predicate IsDigit(c: char) {
    '0' <= c <= '9'
  }

  predicate IsAlnumChar(c: char) {
    ('a' <= c <= 'z') || IsUpper(c) || IsDigit(c)
  }

  /** `w.isalnum()`: at least one character, and every character a letter or digit. */
  predicate IsAlnum(w: string) {
    |w| > 0 && forall i :: 0 <= i < |w| ==> IsAlnumChar(w[i])
  }

  function LowerChar(c: char): char {
    if IsUpper(c) then (c as int - 'A' as int + 'a' as int) as char else c
  }

  /** `s.lower()`: upper-case letters become lower case, every other character is kept. */
  function Lower(s: string): (r: string)
    ensures |r| == |s|
    ensures forall i :: 0 <= i < |s| ==> !IsUpper(r[i])
    ensures forall i :: 0 <= i < |s| && IsUpper(s[i]) ==>
              'a' <= r[i] <= 'z' && r[i] as int - 'a' as int == s[i] as int - 'A' as int
    ensures forall i :: 0 <= i < |s| && !IsUpper(s[i]) ==> r[i] == s[i]
    ensures forall i :: 0 <= i < |s| ==> IsAlnumChar(r[i]) == IsAlnumChar(s[i])
  {
    seq(|s|, i requires 0 <= i < |s| => LowerChar(s[i]))
  }
}
