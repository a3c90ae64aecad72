/**
 * The pattern matcher behind `/api/guesses/match`
 * (src/app/api/guesses/match/route.ts): parameter validation, the per-word
 * filter, and the shuffle / truncate / sort output step.
 */
module MatchRoute {
  import opened Wrappers
  import opened Letters
  import opened Ordering
  import opened Api

  const DefaultLimit := 25

  const NotStringReason := "Expected to receive a string"
  const LengthReason := "Pattern must be 5 characters long"
  const PatternCharsReason := "Pattern can have only letters and asterisks"
  const ExcludeTypeReason := "Exclude must be a string"
  const ExcludeCharsReason := "Exclude can have only letters and at most 25 characters"

  /** A pattern of the validated length; `*` marks a wildcard position. */
  type Pattern = s: string | |s| == 5 witness "*****"

  /** The validated request: lowercase pattern and excluded letters, positive limit. */
  datatype Options = Options(limit: int, pattern: Pattern, excludeLetters: seq<char>)

  /** The class `[a-zA-Z*]`. */
  predicate IsPatternChar(c: char) { IsLetter(c) || c == '*' }

  /** The regular expression `^[a-zA-Z*]{5}$`. */
  predicate PatternRegex(s: string)
  {
    |s| == 5 && forall i :: 0 <= i < |s| ==> IsPatternChar(s[i])
  }

  /** The regular expression `^[a-z]{1,25}$`. */
  predicate ExcludeRegex(s: string)
  {
    1 <= |s| <= 25 && AllLower(s)
  }

  /** An acceptable `exclude` parameter: absent, or at most 25 letters of either case. */
  predicate ExcludeAcceptable(exclude: Param)
  {
    exclude.Absent? || (exclude.Str? && |exclude.s| <= 25 && AllLetters(exclude.s))
  }

  /** The letters an acceptable `exclude` parameter stands for, lowercased, in order. */
  function ExcludedLetters(exclude: Param): string
  {
    if exclude.Str? then ToLower(exclude.s) else ""
  }

  /** An acceptable `limit` parameter: absent, or an integer of at least one. */
  predicate LimitAcceptable(limit: Option<Number>)
  {
    limit.None? || (limit.value.Int? && limit.value.value >= 1)
  }

  /**
   * `validateParams`: the pattern must be a string, of length 5, over
   * `[a-zA-Z*]`; the exclude parameter, defaulting to the empty string,
   * must be a string and, lowercased, empty or `[a-z]{1,25}`; the limit,
   * defaulting to 25, must be a number of at least one. Checks run in
   * that order and the first failure is reported.
   */
  function ValidateParams(pattern: Param, limit: Option<Number>, exclude: Param)
    : (r: Result<Options, string>)
    ensures r.Success? <==>
              && pattern.Str? && PatternRegex(pattern.s)
              && ExcludeAcceptable(exclude)
              && LimitAcceptable(limit)
    ensures r.Success? ==>
              && r.value.pattern == ToLower(pattern.s)
              && (forall i :: 0 <= i < 5 ==> IsLower(r.value.pattern[i]) || r.value.pattern[i] == '*')
              && r.value.excludeLetters == ExcludedLetters(exclude)
              && AllLower(r.value.excludeLetters)
              && r.value.limit >= 1
              && (limit.None? ==> r.value.limit == DefaultLimit)
              && (limit.Some? ==> r.value.limit == limit.value.value)
    // the order in which failures are reported
    ensures !pattern.Str? ==> r == Failure(NotStringReason)
    ensures pattern.Str? && |pattern.s| != 5 ==> r == Failure(LengthReason)
    ensures pattern.Str? && |pattern.s| == 5 && !PatternRegex(pattern.s) ==>
              r == Failure(PatternCharsReason)
    ensures pattern.Str? && PatternRegex(pattern.s) && exclude.NonString? ==>
              r == Failure(ExcludeTypeReason)
    ensures pattern.Str? && PatternRegex(pattern.s) && exclude.Str? && !ExcludeAcceptable(exclude) ==>
              r == Failure(ExcludeCharsReason)
    ensures pattern.Str? && PatternRegex(pattern.s) && ExcludeAcceptable(exclude) && !LimitAcceptable(limit) ==>
              r == Failure(PositiveLimitMessage)
  {
    if !pattern.Str? then Failure(NotStringReason)
    else if |pattern.s| != 5 then Failure(LengthReason)
    else if !PatternRegex(pattern.s) then Failure(PatternCharsReason)
    else
      var checkedLimit := CheckLimit(limit, DefaultLimit);
      var excludeRaw := if exclude.Absent? then Str("") else exclude;
      if !excludeRaw.Str? then Failure(ExcludeTypeReason)
      else
        var excludeLetters := ToLower(excludeRaw.s);
        ToLowerAllLower(excludeRaw.s);
        if |excludeLetters| > 0 && !ExcludeRegex(excludeLetters) then Failure(ExcludeCharsReason)
        else if checkedLimit.Failure? then Failure(checkedLimit.error)
        else
          var lowered: string := ToLower(pattern.s);
          Success(Options(checkedLimit.value, lowered, excludeLetters))
  }

  /**
   * The filter's meaning: the word is not a past answer, none of its first
   * five characters is excluded, and every non-wildcard position holds the
   * pattern's letter.
   */
  predicate Kept(opts: Options, answers: set<string>, w: string)
  {
    && w !in answers
    && (forall i :: 0 <= i < 5 && i < |w| ==> w[i] !in opts.excludeLetters)
    && (forall i :: 0 <= i < 5 && opts.pattern[i] != '*' ==> i < |w| && w[i] == opts.pattern[i])
  }

  /**
   * The callback given to `guesses.filter`: five rounds, each rejecting a
   * past answer, an excluded character at position i, or a mismatch with a
   * non-wildcard pattern letter. A position past the end of the word reads
   * as `undefined`, which no excluded letter and no pattern letter equals.
   */
  method KeepGuess(opts: Options, answers: set<string>, guess: string) returns (keep: bool)
    ensures keep <==> Kept(opts, answers, guess)
  {
    var i := 0;
    while i < 5
      invariant 0 <= i <= 5
      invariant i > 0 ==> guess !in answers
      invariant forall j :: 0 <= j < i && j < |guess| ==> guess[j] !in opts.excludeLetters
      invariant forall j :: 0 <= j < i && opts.pattern[j] != '*' ==>
                  j < |guess| && guess[j] == opts.pattern[j]
    {
      if guess in answers {
        return false;
      }
      if i < |guess| && guess[i] in opts.excludeLetters {
        return false;
      }
      if opts.pattern[i] == '*' {
        i := i + 1;
        continue;
      }
      if i >= |guess| || opts.pattern[i] != guess[i] {
        return false;
      }
      i := i + 1;
    }
    return true;
  }

  /** The words of the list that the filter keeps, in list order. */
  function Matches(opts: Options, answers: set<string>, words: seq<string>): (r: seq<string>)
    ensures forall i :: 0 <= i < |r| ==> r[i] in words && Kept(opts, answers, r[i])
    ensures |r| <= |words|
  {
    if |words| == 0 then []
    else
      var last := words[|words| - 1];
      assert words == words[..|words| - 1] + [last];
      Matches(opts, answers, words[..|words| - 1])
        + (if Kept(opts, answers, last) then [last] else [])
  }

  lemma MatchesSnoc(opts: Options, answers: set<string>, words: seq<string>, w: string)
    ensures Matches(opts, answers, words + [w])
              == Matches(opts, answers, words) + (if Kept(opts, answers, w) then [w] else [])
  {
    assert (words + [w])[..|words|] == words;
  }

  /** Every kept entry of the list survives the filter, duplicates included. */
  lemma {:induction false} MatchesMultiplicity(opts: Options, answers: set<string>, words: seq<string>)
    ensures forall x :: multiset(Matches(opts, answers, words))[x]
                         == if Kept(opts, answers, x) then multiset(words)[x] else 0
  {
    if |words| != 0 {
      var init := words[..|words| - 1];
      var last := words[|words| - 1];
      assert words == init + [last];
      MatchesMultiplicity(opts, answers, init);
      MatchesSnoc(opts, answers, init, last);
    }
  }

  /** `guesses.filter(...)`, running the filter callback on each word in turn. */
  method FilterMatches(opts: Options, answers: set<string>, words: seq<string>)
    returns (matches: seq<string>)
    ensures matches == Matches(opts, answers, words)
  {
    matches := [];
    var i := 0;
    while i < |words|
      invariant 0 <= i <= |words|
      invariant matches == Matches(opts, answers, words[..i])
    {
      var keep := KeepGuess(opts, answers, words[i]);
      assert words[..i + 1] == words[..i] + [words[i]];
      MatchesSnoc(opts, answers, words[..i], words[i]);
      if keep {
        matches := matches + [words[i]];
      }
      i := i + 1;
    }
    assert words[..i] == words;
  }

  /**
   * The output step once the matches have been shuffled: keep the first
   * `limit` of them, then sort.
   */
  function TakeSorted(shuffled: seq<string>, limit: int): (r: seq<string>)
    requires limit >= 1
    ensures Sorted(r)
    ensures |r| == if |shuffled| < limit then |shuffled| else limit
    ensures multiset(r) <= multiset(shuffled)
    ensures |shuffled| <= limit ==> multiset(r) == multiset(shuffled)
  {
    var n := if |shuffled| < limit then |shuffled| else limit;
    assert shuffled == shuffled[..n] + shuffled[n..];
    Sort(shuffled[..n])
  }

  /** A shuffle: any function that only reorders its argument. */
  ghost predicate IsShuffle(shuffle: seq<string> -> seq<string>)
  {
    forall s :: multiset(shuffle(s)) == multiset(s)
  }

  /**
   * The `GET` handler: validate, then (only for a valid request) consult the
   * outcome of loading the past answers, filter the word list, shuffle,
   * truncate to the limit and sort.
   */
  method MatchHandler(
    pattern: Param, limit: Option<Number>, exclude: Param,
    words: seq<string>, answers: Result<set<string>, string>,
    shuffle: seq<string> -> seq<string>)
    returns (resp: Response<seq<string>>)
    requires IsShuffle(shuffle)
    ensures ValidateParams(pattern, limit, exclude).Failure? ==>
              resp == BadRequest(ValidateParams(pattern, limit, exclude).error)
    ensures ValidateParams(pattern, limit, exclude).Success? && answers.Failure? ==>
              resp == Failed(answers.error)
    ensures ValidateParams(pattern, limit, exclude).Success? && answers.Success? ==>
              var opts := ValidateParams(pattern, limit, exclude).value;
              var all := Matches(opts, answers.value, words);
              && resp.Ok?
              && Sorted(resp.body)
              && |resp.body| == (if |all| < opts.limit then |all| else opts.limit)
              && multiset(resp.body) <= multiset(all)
              && (|all| <= opts.limit ==> resp.body == Sort(all))
              && (forall w :: w in resp.body ==> w in words && Kept(opts, answers.value, w))
  {
    var validation := ValidateParams(pattern, limit, exclude);
    if validation.Failure? {
      return BadRequest(validation.error);
    }
    var opts := validation.value;
    if answers.Failure? {
      return Failed(answers.error);
    }
    var all := FilterMatches(opts, answers.value, words);
    var shuffled := shuffle(all);
    assert |shuffled| == |all| by { assert |multiset(shuffled)| == |multiset(all)|; }
    var body := TakeSorted(shuffled, opts.limit);
    if |all| <= opts.limit {
      SortedUnique(body, Sort(all));
    }
    forall w | w in body
      ensures w in words && Kept(opts, answers.value, w)
    {
      assert w in multiset(body);
      assert w in multiset(all);
    }
    return Ok(body);
  }

  /**
   * Exclusion wins over the pattern: when a letter the pattern fixes is also
   * excluded, no word matches.
   */
  lemma ExcludedPatternLetterMatchesNothing(opts: Options, answers: set<string>, words: seq<string>, i: int)
    requires 0 <= i < 5 && opts.pattern[i] != '*' && opts.pattern[i] in opts.excludeLetters
    ensures Matches(opts, answers, words) == []
  {

  }

  /** Pattern `cr*ne` excluding `a`: of `crane`, `crone`, `crate` only `crone` is kept. */
  lemma CrNeExample()
    ensures !Kept(Options(25, "cr*ne", "a"), {}, "crane")
    ensures Kept(Options(25, "cr*ne", "a"), {}, "crone")
    ensures !Kept(Options(25, "cr*ne", "a"), {}, "crate")
  {
    assert "crane"[2] == 'a';
    assert "crate"[2] == 'a';
  }

  /**
   * Pattern `g****` excluding `p` with past answer `grape`: of `apple`,
   * `grape`, `grade`, `crane` only `grade` is kept.
   */
  lemma GradeExample()
    ensures !Kept(Options(10, "g****", "p"), {"grape"}, "apple")
    ensures !Kept(Options(10, "g****", "p"), {"grape"}, "grape")
    ensures Kept(Options(10, "g****", "p"), {"grape"}, "grade")
    ensures !Kept(Options(10, "g****", "p"), {"grape"}, "crane")
  {
    assert "apple"[0] != 'g';
    assert "crane"[0] != 'g';
  }

  /** The validated form of the `cr*ne` request. */
  lemma CrNeValidation()
    ensures ValidateParams(Str("cr*ne"), None, Str("a")) == Success(Options(25, "cr*ne", "a"))
  {
    ToLowerOfLower("cr*ne");
    ToLowerOfLower("a");
    assert PatternRegex("cr*ne");
    assert ExcludeAcceptable(Str("a"));
  }
}
