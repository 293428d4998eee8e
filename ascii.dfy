/** ASCII case mapping, the part of Rust's `str::to_lowercase` that can
    change whether a string equals one of the content-coding tokens. */
module Ascii {

  predicate IsUpper(c: char)
  {
    'A' <= c <= 'Z'
  }

  predicate IsLower(c: char)
  {
    'a' <= c <= 'z'
  }

  predicate IsLetter(c: char)
  {
    IsUpper(c) || IsLower(c)
  }

  /** Lower-cases one character; everything that is not an upper-case ASCII
      letter is left as it is. */
  function LowerChar(c: char): (r: char)
    ensures !IsUpper(r)
    ensures IsUpper(c) ==> IsLower(r) && r as int == c as int + ('a' as int - 'A' as int)
    ensures !IsUpper(c) ==> r == c
  {
    if IsUpper(c) then (c as int + ('a' as int - 'A' as int)) as char else c
  }

  /** Lower-cases a whole string, character by character. */
  function Lower(s: string): (r: string)
    ensures |r| == |s|
    ensures forall i :: 0 <= i < |s| ==> r[i] == LowerChar(s[i])
  {
    if s == [] then [] else [LowerChar(s[0])] + Lower(s[1..])
  }

  /** No character of `s` is an upper-case ASCII letter. */
  predicate IsLowerCase(s: string)
  {
    forall i :: 0 <= i < |s| ==> !IsUpper(s[i])
  }

  /** Reference definition of case-insensitive equality: the same length,
      and the characters agree position by position once lower-cased. */
  predicate EqualsIgnoreCase(s: string, t: string)
  {
    |s| == |t| && forall i :: 0 <= i < |s| ==> LowerChar(s[i]) == LowerChar(t[i])
  }

  /** Lower-casing twice is lower-casing once. */
  lemma LowerIdempotent(s: string)
    ensures Lower(Lower(s)) == Lower(s)
  {
  }

  /** Two strings lower-case to the same string exactly when they are equal
      ignoring case. */
  lemma LowerEqualIff(s: string, t: string)
    ensures Lower(s) == Lower(t) <==> EqualsIgnoreCase(s, t)
  {
  }

  /** Only the two cases of a letter lower-case to that letter. */
  lemma LowerCharPreimage(c: char, l: char)
    requires IsLower(l)
    ensures LowerChar(c) == l <==> c == l || c as int == l as int - ('a' as int - 'A' as int)
  {
  }

  /** A string that lower-cases to a string of lower-case letters is made of
      letters only: no blank, digit or punctuation survives lower-casing as a
      letter. */
  lemma LowerToLettersOnlyFromLetters(s: string)
    requires forall i :: 0 <= i < |s| ==> IsLower(Lower(s)[i])
    ensures forall i :: 0 <= i < |s| ==> IsLetter(s[i])
  {
    forall i | 0 <= i < |s|
      ensures IsLetter(s[i])
    {
      LowerCharPreimage(s[i], Lower(s)[i]);
    }
  }
}
