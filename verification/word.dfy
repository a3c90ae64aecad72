/** The word validator `isValidWord` (src/lib/word.ts). */
module Word {
  import opened Letters
  import opened Api

  /** The single message every rejection carries. */
  const InvalidWordMessage :=
    "Invalid query parameter: 'word' must be a string of 5 alphabetic characters."

  const WordLength := 5

  datatype Validation = Valid(normalizedWord: string) | Invalid(error: string)

  /** The regular expression `^[a-zA-Z]{5}$`. */
  predicate WordRegex(s: string)
  {
    |s| == WordLength && AllLetters(s)
  }

  /**
   * A falsy or non-string input is rejected first, then anything the regular
   * expression refuses; otherwise the word is returned lowercased.
   */
  function IsValidWord(word: Param): (r: Validation)
    ensures r.Valid? <==> word.Str? && |word.s| == 5 && AllLetters(word.s)
    ensures r.Valid? ==> r.normalizedWord == ToLower(word.s)
    ensures r.Valid? ==> |r.normalizedWord| == 5 && AllLower(r.normalizedWord)
    ensures r.Invalid? ==> r.error == InvalidWordMessage
  {
    ToLowerAllLower(if word.Str? then word.s else "");
    if !word.Str? || word.s == "" then Invalid(InvalidWordMessage)
    else if !WordRegex(word.s) then Invalid(InvalidWordMessage)
    else Valid(ToLower(word.s))
  }

  /** A normalised word is itself valid and normalises to itself. */
  lemma NormalizedIsFixpoint(word: Param)
    requires IsValidWord(word).Valid?
    ensures IsValidWord(Str(IsValidWord(word).normalizedWord)) == IsValidWord(word)
  {
    var n := IsValidWord(word).normalizedWord;
    ToLowerOfLower(n);
  }

  /** Two strings that differ only in letter case. */
  predicate SameUpToCase(a: string, b: string)
  {
    ToLower(a) == ToLower(b)
  }

  lemma SameUpToCaseLetters(a: string, b: string)
    requires SameUpToCase(a, b)
    ensures |a| == |b|
    ensures AllLetters(a) <==> AllLetters(b)
  {
    assert |ToLower(a)| == |ToLower(b)|;
    ToLowerAllLower(a);
    ToLowerAllLower(b);
  }

  /** Validation does not depend on letter case. */
  lemma IsValidWordIgnoresCase(a: string, b: string)
    requires SameUpToCase(a, b)
    ensures IsValidWord(Str(a)) == IsValidWord(Str(b))
  {
    SameUpToCaseLetters(a, b);
  }

  /** The examples `Apple`, `ab1de` and `toolong`. */
  lemma IsValidWordExamples()
    ensures IsValidWord(Str("Apple")) == Valid("apple")
    ensures IsValidWord(Str("ab1de")) == Invalid(InvalidWordMessage)
    ensures IsValidWord(Str("toolong")) == Invalid(InvalidWordMessage)
    ensures IsValidWord(Str("")) == Invalid(InvalidWordMessage)
    ensures IsValidWord(Absent) == Invalid(InvalidWordMessage)
  {
    assert !IsLetter("ab1de"[2]);
    assert ToLower("Apple") == "apple";
  }
}
