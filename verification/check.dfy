/**
 * The word check behind `/api/guesses/check`
 * (src/app/api/guesses/check/route.ts): validate the word, then report
 * whether it is in the word list and whether it was a past answer.
 */
module CheckRoute {
  import opened Wrappers
  import opened Letters
  import opened Api
  import opened Word

  datatype Flags = Flags(isPastAnswer: bool, isValidGuess: bool)

  /**
   * The `GET` handler. An invalid word is answered with the validator's
   * message before the past answers are consulted; `isValidGuess` is looked
   * up with the normalised word and `isPastAnswer` with its lowercase form.
   */
  function CheckHandler(word: Param, words: seq<string>, answers: Result<set<string>, string>)
    : (r: Response<Flags>)
    ensures IsValidWord(word).Invalid? ==> r == BadRequest(InvalidWordMessage)
    ensures IsValidWord(word).Valid? && answers.Failure? ==> r == Failed(answers.error)
    ensures IsValidWord(word).Valid? && answers.Success? ==>
              && r.Ok?
              && (r.body.isValidGuess <==> ToLower(word.s) in words)
              && (r.body.isPastAnswer <==> ToLower(word.s) in answers.value)
  {
    var validation := IsValidWord(word);
    if validation.Invalid? then BadRequest(validation.error)
    else
      var normalized := validation.normalizedWord;
      var isValidGuess := normalized in words;
      if answers.Failure? then Failed(answers.error)
      else
        ToLowerIdempotent(word.s);
        var isPastAnswer := ToLower(normalized) in answers.value;
        Ok(Flags(isPastAnswer, isValidGuess))
  }

  /** The response does not depend on the letter case of the word. */
  lemma CheckIgnoresCase(a: string, b: string, words: seq<string>, answers: Result<set<string>, string>)
    requires SameUpToCase(a, b)
    ensures CheckHandler(Str(a), words, answers) == CheckHandler(Str(b), words, answers)
  {
    IsValidWordIgnoresCase(a, b);
  }

  /** An invalid word gets the same answer whatever the past answers are, even when loading them fails. */
  lemma InvalidWordIgnoresAnswers(word: Param, words: seq<string>,
                                  answers1: Result<set<string>, string>, answers2: Result<set<string>, string>)
    requires IsValidWord(word).Invalid?
    ensures CheckHandler(word, words, answers1) == CheckHandler(word, words, answers2)
  {
  }
}
