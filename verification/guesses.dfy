/**
 * The counts behind `/api/guesses` (src/app/api/guesses/route.ts): the size
 * of the word list and the number of its entries that are not past answers.
 */
module GuessesRoute {
  import opened Wrappers
  import opened Api

  datatype Counts = Counts(guessesLength: nat, potentiallyWinningGuessesLength: nat)

  /** `guesses.filter((guess) => !answers.has(guess))`. */
  function NonAnswers(words: seq<string>, answers: set<string>): (r: seq<string>)
    ensures forall x :: multiset(r)[x] == if x in answers then 0 else multiset(words)[x]
  {
    if |words| == 0 then []
    else
      assert words == [words[0]] + words[1..];
      (if words[0] in answers then [] else [words[0]]) + NonAnswers(words[1..], answers)
  }

  /** The `GET` handler: both counts, once the past answers have loaded. */
  function CountsHandler(words: seq<string>, answers: Result<set<string>, string>): (r: Response<Counts>)
    ensures answers.Failure? ==> r == Failed(answers.error)
    ensures answers.Success? ==>
              && r.Ok?
              && r.body.guessesLength == |words|
              && r.body.potentiallyWinningGuessesLength == |NonAnswers(words, answers.value)|
              && r.body.potentiallyWinningGuessesLength <= r.body.guessesLength
              && (r.body.potentiallyWinningGuessesLength == r.body.guessesLength
                  <==> forall i :: 0 <= i < |words| ==> words[i] !in answers.value)
  {
    if answers.Failure? then Failed(answers.error)
    else
      NonAnswersLength(words, answers.value);
      Ok(Counts(|words|, |NonAnswers(words, answers.value)|))
  }

  /**
   * The filter drops exactly the entries that are past answers: it never
   * lengthens the list, and keeps its length exactly when no entry is a
   * past answer.
   */
  lemma {:induction false} NonAnswersLength(words: seq<string>, answers: set<string>)
    ensures |NonAnswers(words, answers)| <= |words|
    ensures |NonAnswers(words, answers)| == |words| <==> forall i :: 0 <= i < |words| ==> words[i] !in answers
  {
    if |words| != 0 {
      NonAnswersLength(words[1..], answers);
      assert words == [words[0]] + words[1..];
      if forall i :: 0 <= i < |words[1..]| ==> words[1..][i] !in answers {
        if words[0] !in answers {
          forall i | 0 <= i < |words|
            ensures words[i] !in answers
          {
            if i > 0 { assert words[i] == words[1..][i - 1]; }
          }
        }
      } else {
        var i :| 0 <= i < |words[1..]| && words[1..][i] in answers;
        assert words[i + 1] in answers;
      }
    }
  }
}
