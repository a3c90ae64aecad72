/**
 * The random-guess selector behind `/api/guesses/guess`
 * (src/app/api/guesses/guess/route.ts). `Math.random` is modelled as a
 * stream of indices into the word list, one per round of the loop.
 */
module GuessRoute {
  import opened Wrappers
  import opened Ordering
  import opened Collections
  import opened Api

  const DefaultLimit := 1

  /** `validateParams`: the limit defaults to 1 and must be a number of at least one. */
  function ValidateParams(limit: Option<Number>): (r: Result<int, string>)
    ensures r.Success? <==> limit.None? || (limit.value.Int? && limit.value.value >= 1)
    ensures limit.None? ==> r == Success(DefaultLimit)
    ensures limit.Some? && r.Success? ==> r.value == limit.value.value >= 1
    ensures r.Failure? ==> r.error == PositiveLimitMessage
  {
    CheckLimit(limit, DefaultLimit)
  }

  /** The distinct words of the list that are not past answers. */
  function NonAnswerWords(words: seq<string>, answers: set<string>): set<string>
  {
    set w | w in words && w !in answers
  }

  /** Every index drawn is a position of the word list. */
  predicate ValidPicks(words: seq<string>, picks: seq<int>)
  {
    forall k :: 0 <= k < |picks| ==> 0 <= picks[k] < |words|
  }

  /**
   * The selection loop: each round draws the next random index and keeps
   * the word there when it is neither a past answer nor already chosen; the
   * loop ends once `limit` words are chosen, and the result is sorted.
   * `None` means the stream of random indices ran out with the loop still
   * running.
   */
  method DrawGuesses(words: seq<string>, answers: set<string>, limit: int, picks: seq<int>)
    returns (r: Option<seq<string>>)
    requires ValidPicks(words, picks)
    ensures r.Some? ==> |r.value| == (if limit < 0 then 0 else limit)
    ensures r.Some? ==> Sorted(r.value) && NoDuplicates(r.value)
    ensures r.Some? ==> forall g :: g in r.value ==> g in words && g !in answers
    ensures r.Some? ==> limit <= |NonAnswerWords(words, answers)|
    ensures ((forall i :: 0 <= i < |words| ==> i in picks) && limit <= |NonAnswerWords(words, answers)|)
              ==> r.Some?
  {
    var chosen: seq<string> := [];
    var k := 0;
    while |chosen| < limit
      invariant 0 <= k <= |picks|
      invariant |chosen| <= k
      invariant |chosen| <= (if limit < 0 then 0 else limit)
      invariant NoDuplicates(chosen)
      invariant forall g :: g in chosen ==> g in words && g !in answers
      invariant forall j :: 0 <= j < k ==> words[picks[j]] in answers || words[picks[j]] in chosen
      decreases |picks| - k
    {
      if k == |picks| {
        if forall i :: 0 <= i < |words| ==> i in picks {
          AllNonAnswersChosen(words, answers, picks, chosen);
        }
        return None;
      }
      var guess := words[picks[k]];
      k := k + 1;
      if guess !in answers && guess !in chosen {
        chosen := chosen + [guess];
      }
    }
    ChosenWithinNonAnswers(words, answers, chosen);
    var sorted := Sort(chosen);
    NoDuplicatesPermutation(chosen, sorted);
    forall g | g in sorted
      ensures g in words && g !in answers
    {
      assert g in multiset(sorted);
    }
    return Some(sorted);
  }

  /**
   * When every index has been drawn, every non-answer word has been chosen,
   * so fewer chosen words than `limit` means fewer non-answer words too.
   */
  lemma AllNonAnswersChosen(words: seq<string>, answers: set<string>, picks: seq<int>, chosen: seq<string>)
    requires ValidPicks(words, picks)
    requires forall i :: 0 <= i < |words| ==> i in picks
    requires forall j :: 0 <= j < |picks| ==> words[picks[j]] in answers || words[picks[j]] in chosen
    requires NoDuplicates(chosen)
    ensures |NonAnswerWords(words, answers)| <= |chosen|
  {
    assert NonAnswerWords(words, answers) <= Elements(chosen) by {
      forall w | w in NonAnswerWords(words, answers)
        ensures w in Elements(chosen)
      {
        var i :| 0 <= i < |words| && words[i] == w;
        assert i in picks;
        var j :| 0 <= j < |picks| && picks[j] == i;
      }
    }
    ElementsCount(chosen);
    SubsetCount(NonAnswerWords(words, answers), Elements(chosen));
  }

  /** The chosen words are distinct non-answer words, so there are at least as many of those. */
  lemma ChosenWithinNonAnswers(words: seq<string>, answers: set<string>, chosen: seq<string>)
    requires NoDuplicates(chosen)
    requires forall g :: g in chosen ==> g in words && g !in answers
    ensures |chosen| <= |NonAnswerWords(words, answers)|
  {
    ElementsCount(chosen);
    SubsetCount(Elements(chosen), NonAnswerWords(words, answers));
  }

  lemma SubsetCount(a: set<string>, b: set<string>)
    requires a <= b
    ensures |a| <= |b|
  {
    assert b == a + (b - a);
  }

  /**
   * The `GET` handler: validate the limit, then (only for a valid request)
   * consult the outcome of loading the past answers and run the loop.
   */
  method GuessHandler(limit: Option<Number>, words: seq<string>,
                      answers: Result<set<string>, string>, picks: seq<int>)
    returns (resp: Response<seq<string>>)
    requires ValidPicks(words, picks)
    ensures ValidateParams(limit).Failure? ==> resp == BadRequest(PositiveLimitMessage)
    ensures ValidateParams(limit).Success? && answers.Failure? ==> resp == Failed(answers.error)
    ensures ValidateParams(limit).Success? && answers.Success? ==> resp.Ok? || resp.NoResponse?
    ensures resp.Ok? ==>
              && answers.Success?
              && |resp.body| == ValidateParams(limit).value
              && Sorted(resp.body) && NoDuplicates(resp.body)
              && (forall g :: g in resp.body ==> g in words && g !in answers.value)
    ensures resp.NoResponse? ==>
              answers.Success? && ValidateParams(limit).Success?
              && !((forall i :: 0 <= i < |words| ==> i in picks)
                   && ValidateParams(limit).value <= |NonAnswerWords(words, answers.value)|)
  {
    var validation := ValidateParams(limit);
    if validation.Failure? {
      return BadRequest(validation.error);
    }
    if answers.Failure? {
      return Failed(answers.error);
    }
    var drawn := DrawGuesses(words, answers.value, validation.value, picks);
    if drawn.None? {
      return NoResponse;
    }
    return Ok(drawn.value);
  }
}
