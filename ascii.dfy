/** ASCII upper-casing: the part of java.lang.String.toUpperCase that the
    translation table relies on (country and language codes are ASCII). */
module Ascii {

  predicate IsLower(c: char) {
    'a' <= c <= 'z'
  }

  /** A string with no lower-case ASCII letter: the canonical form of a code. */
  predicate NoLower(s: string) {
    forall i :: 0 <= i < |s| ==> !IsLower(s[i])
  }

  /** Character.toUpperCase restricted to ASCII: 'a'..'z' become 'A'..'Z', every other character is kept. */
  function UpperChar(c: char): (u: char)
    ensures !IsLower(u)
    ensures IsLower(c) ==> 'A' <= u <= 'Z' && u as int + 32 == c as int
    ensures !IsLower(c) ==> u == c
  {
    if IsLower(c) then (c as int - 32) as char else c
  }

  /** String.toUpperCase, character by character: same length, nothing left in lower case. */
  function Upper(s: string): (r: string)
    ensures |r| == |s|
    ensures NoLower(r)
  {
    if s == [] then [] else [UpperChar(s[0])] + Upper(s[1..])
  }

  /** Each character of the result is the upper case of the character at the same place. */
  lemma {:induction false} UpperAt(s: string, i: nat)
    requires i < |s|
    ensures Upper(s)[i] == UpperChar(s[i])
  {
    if i > 0 {
      UpperAt(s[1..], i - 1);
    }
  }

  /** Upper-casing twice is upper-casing once. */
  lemma {:induction false} UpperIdempotent(s: string)
    ensures Upper(Upper(s)) == Upper(s)
  {
    if s != [] {
      UpperIdempotent(s[1..]);
      assert Upper(s)[1..] == Upper(s[1..]);
    }
  }

  /** The strings Upper leaves alone are exactly those already in canonical form. */
  lemma {:induction false} UpperFixedPoint(s: string)
    ensures Upper(s) == s <==> NoLower(s)
  {
    if s != [] {
      UpperFixedPoint(s[1..]);
      assert NoLower(s) ==> NoLower(s[1..]);
      assert NoLower(s[1..]) && !IsLower(s[0]) ==> NoLower(s);
    }
  }
}
