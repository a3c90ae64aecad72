/**
 * The sanity check `_loadAnswers` applies to the scraped list of past
 * answers before turning it into a set (src/api-biz/answers.ts).
 */
module Answers {
  import opened Wrappers
  import opened Collections

  const MinAnswers := 1200

  /** Two answers every genuine list of past answers contains. */
  const KnownPastAnswers: seq<string> := ["could", "stare"]

  const TooFewMessage := "Expected at least 1200 answers"

  const MissingKnownMessage := "Expected known solutions to be present"

  /**
   * Rejects a list with fewer than 1200 raw entries, then one lacking a known
   * answer; otherwise returns the set of its entries.
   */
  function LoadAnswers(parsed: seq<string>): (r: Result<set<string>, string>)
    ensures r.Success? <==> |parsed| >= 1200 && "could" in parsed && "stare" in parsed
    ensures |parsed| < 1200 ==> r == Failure(TooFewMessage)
    ensures (|parsed| >= 1200 && ("could" !in parsed || "stare" !in parsed)) ==>
              r == Failure(MissingKnownMessage)
    ensures r.Success? ==> forall x :: x in r.value <==> x in parsed
    ensures r.Success? ==> "could" in r.value && "stare" in r.value
  {
    if |parsed| < MinAnswers then Failure(TooFewMessage)
    else if exists i :: 0 <= i < |KnownPastAnswers| && KnownPastAnswers[i] !in parsed then
      Failure(MissingKnownMessage)
    else
      assert KnownPastAnswers[0] in parsed && KnownPastAnswers[1] in parsed;
      Success(Elements(parsed))
  }

  /** A loaded answer set never has more members than the list had entries. */
  lemma LoadedSetBound(parsed: seq<string>)
    requires LoadAnswers(parsed).Success?
    ensures |LoadAnswers(parsed).value| <= |parsed|
  {
    ElementsCount(parsed);
    assert LoadAnswers(parsed).value == Elements(parsed);
  }

  /**
   * The threshold counts duplicates: 1200 entries naming only the two known
   * answers pass the check and yield a set of two.
   */
  lemma DuplicatesCountTowardThreshold()
    ensures var parsed := seq(1200, i => if i == 0 then "could" else "stare");
            && LoadAnswers(parsed).Success?
            && |LoadAnswers(parsed).value| == 2
  {
    var parsed := seq(1200, i => if i == 0 then "could" else "stare");
    assert parsed[0] == "could" && parsed[1] == "stare";
    var answers := LoadAnswers(parsed).value;
    assert answers == {"could", "stare"};
  }
}
