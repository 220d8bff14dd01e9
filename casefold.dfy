/**
 * Case folding, as `toLower` in dictionary.cpp: every character goes through `::tolower`
 * in the "C" locale, so the ASCII letters A-Z become a-z and every other character is kept.
 * Keys, languages and meanings are all compared through this fold.
 */
module CaseFold {

  predicate IsUpper(c: char) {
    'A' <= c <= 'Z'
  }

  /** `::tolower` on one character. */
  function LowerChar(c: char): (r: char)
    ensures !IsUpper(r)
    ensures IsUpper(c) ==> 'a' <= r <= 'z' && r as int == c as int + 32
    ensures !IsUpper(c) ==> r == c
  {
    if IsUpper(c) then (c as int + 32) as char else c
  }

  /** The lowered copy of `s`; its length and every non-letter are preserved. */
  function ToLower(s: string): (r: string)
    ensures |r| == |s|
    ensures forall i :: 0 <= i < |s| ==> r[i] == LowerChar(s[i])
  {
    if s == [] then [] else [LowerChar(s[0])] + ToLower(s[1..])
  }

  /** A lowered string has no upper-case letter left. */
  predicate IsLowered(s: string) {
    forall i :: 0 <= i < |s| ==> !IsUpper(s[i])
  }

  lemma ToLowerIsLowered(s: string)
    ensures IsLowered(ToLower(s))
    ensures IsLowered(s) ==> ToLower(s) == s
  {
  }

  /** Folding twice is folding once. */
  lemma ToLowerIdempotent(s: string)
    ensures ToLower(ToLower(s)) == ToLower(s)
  {
    ToLowerIsLowered(s);
    ToLowerIsLowered(ToLower(s));
  }
}
