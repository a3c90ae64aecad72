/**
 * ASCII letter classes and lowercasing, the character-level vocabulary of
 * the regular expressions `[a-zA-Z]`, `[a-z]` and of `toLowerCase`.
 */
module Letters {

  predicate IsLower(c: char) { 'a' <= c <= 'z' }

  predicate IsUpper(c: char) { 'A' <= c <= 'Z' }

  /** The class `[a-zA-Z]`. */
  predicate IsLetter(c: char) { IsLower(c) || IsUpper(c) }

  predicate AllLetters(s: string) { forall i :: 0 <= i < |s| ==> IsLetter(s[i]) }

  predicate AllLower(s: string) { forall i :: 0 <= i < |s| ==> IsLower(s[i]) }

  /** `toLowerCase` on one character, for the ASCII range. */
  function LowerChar(c: char): (d: char)
    ensures IsLetter(c) ==> IsLower(d)
    ensures IsLower(d) ==> IsLetter(c)
    ensures !IsUpper(c) ==> d == c
  {
    if IsUpper(c) then (c as int + 32) as char else c
  }

  /** `toLowerCase` on a string, character by character. */
  function ToLower(s: string): (r: string)
    ensures |r| == |s|
    ensures forall i :: 0 <= i < |s| ==> r[i] == LowerChar(s[i])
  {
    if |s| == 0 then "" else [LowerChar(s[0])] + ToLower(s[1..])
  }

  /** Lowercasing is idempotent. */
  lemma ToLowerIdempotent(s: string)
    ensures ToLower(ToLower(s)) == ToLower(s)
  {
  }

  /** A string lowercases to all of `[a-z]` exactly when it is all of `[a-zA-Z]`. */
  lemma ToLowerAllLower(s: string)
    ensures AllLower(ToLower(s)) <==> AllLetters(s)
  {
    if !AllLetters(s) {
      var i :| 0 <= i < |s| && !IsLetter(s[i]);
      assert !IsLower(ToLower(s)[i]);
    }
  }

  /** A string without uppercase letters is left unchanged. */
  lemma ToLowerOfLower(s: string)
    requires forall i :: 0 <= i < |s| ==> !IsUpper(s[i])
    ensures ToLower(s) == s
  {
  }
}
