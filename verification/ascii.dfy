/** Character classes and ASCII case mapping, the part of Python's `str.lower()`,
    `\d` and `\s` that the file-name pipeline relies on. */
module Ascii {

  predicate IsUpper(c: char) {
    'A' <= c <= 'Z'
  }

  predicate IsLower(c: char) {
    'a' <= c <= 'z'
  }

  predicate IsDigit(c: char) {
    '0' <= c <= '9'
  }

  /** The characters Python's `\s` matches in a `str` pattern: ASCII
      whitespace (including the separators 0x1C-0x1F) and the Unicode spaces. */
  predicate IsSpace(c: char) {
    || c == ' '
    || '\t' <= c <= '\r'
    || '\U{1C}' <= c <= '\U{1F}'
    || c == '\U{85}' || c == '\U{A0}' || c == '\U{1680}'
    || '\U{2000}' <= c <= '\U{200A}'
    || c == '\U{2028}' || c == '\U{2029}' || c == '\U{202F}' || c == '\U{205F}' || c == '\U{3000}'
  }

  function LowerChar(c: char): char {
    if IsUpper(c) then (c as int + 32) as char else c
  }

  function UpperChar(c: char): char {
    if IsLower(c) then (c as int - 32) as char else c
  }

  function Lower(s: string): string {
    seq(|s|, i requires 0 <= i < |s| => LowerChar(s[i]))
  }

  function Upper(s: string): string {
    seq(|s|, i requires 0 <= i < |s| => UpperChar(s[i]))
  }

  /** A string with no upper-case ASCII letter. */
  predicate IsLowerCase(s: string) {
    forall i :: 0 <= i < |s| ==> !IsUpper(s[i])
  }

  /** `v` spells the lower-case word `k` with any of its letters capitalised. */
  predicate CaseVariant(v: string, k: string) {
    |v| == |k| && forall i :: 0 <= i < |k| ==> v[i] == k[i] || v[i] == UpperChar(k[i])
  }

  lemma LowerOfCaseVariant(v: string, k: string)
    requires IsLowerCase(k)
    requires CaseVariant(v, k)
    ensures Lower(v) == k
  {
    forall i | 0 <= i < |k|
      ensures Lower(v)[i] == k[i]
    {
      assert v[i] == k[i] || v[i] == UpperChar(k[i]);
    }
  }

  lemma CaseVariantOfLower(v: string)
    ensures IsLowerCase(Lower(v))
    ensures CaseVariant(v, Lower(v))
  {
  }

  lemma LowerUpper(s: string)
    requires IsLowerCase(s)
    ensures Lower(Upper(s)) == s
  {
  }
}
