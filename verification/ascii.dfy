/**
 * ASCII case folding, as used by the case-insensitive (`/i`) regular
 * expressions of the system.  A JavaScript `/i` regex without the `u` flag
 * canonicalises characters by upper-casing them, but never maps a non-ASCII
 * character onto an ASCII one; every literal matched case-insensitively here
 * is ASCII, so folding the ASCII letters is exact.
 */
module Ascii {

  /** The lower-case form of an ASCII letter; every other character is unchanged. */
  function Lower(c: char): (r: char)
    ensures 'A' <= c <= 'Z' ==> 'a' <= r <= 'z' && r as int == c as int + 32
    ensures !('A' <= c <= 'Z') ==> r == c
  {
    if 'A' <= c <= 'Z' then (c as int + 32) as char else c
  }

  /** Two characters match each other under `/i`. */
  predicate SameFold(a: char, b: char) {
    Lower(a) == Lower(b)
  }

  /** `SameFold` only relates a character to itself or to the other case of the same ASCII letter. */
  lemma SameFoldCases(a: char, b: char)
    requires SameFold(a, b)
    ensures a == b || ('A' <= a <= 'Z' && b as int == a as int + 32) || ('a' <= a <= 'z' && a as int == b as int + 32)
  {
  }

  /** The literal `lit` occurs in `s` at position `i`, letters compared case-insensitively. */
  predicate CiAt(s: string, i: nat, lit: string) {
    i + |lit| <= |s| && forall k :: 0 <= k < |lit| ==> SameFold(s[i + k], lit[k])
  }

  /** `s` starts with `lit` case-insensitively: the anchored regex `/^lit/i`. */
  predicate CiStartsWith(s: string, lit: string) {
    CiAt(s, 0, lit)
  }
}
