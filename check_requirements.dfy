/**
  The server-side requirement evaluator behind `POST /api/check-requirements`.
  Given the content of one stage, its requirements and an optional word limit,
  it counts words and characters, applies the word limit, sorts every
  requirement id into the passed or the failed list, writes one feedback line
  per check and picks one overall message.

  `Post` is the handler, written as the loop the source runs; `Check` is the
  specification it is proved against, and the lemmas below state what `Check`
  promises.
*/
module CheckRequirements {
  import opened Wrappers
  import opened Text
  import opened Stages

  /** The fields of the JSON body. `content`, `requirements` and `wordLimit` are
      `None` when absent or of a type the handler treats as absent (a
      non-string content, a non-array requirement list, a falsy word limit
      other than 0); `isLastStage` is its truthiness. */
  datatype CheckRequest = CheckRequest(
    projectId: string,
    stageId: string,
    content: Option<string>,
    requirements: Option<seq<Requirement>>,
    wordLimit: Option<int>,
    currentStageIndex: Option<int>,
    isLastStage: bool)

  /** The feedback phrase written for one check. */
  datatype ItemFeedback =
    | ExceedsLimit(count: int, limit: int)
    | WithinLimit(count: int, limit: int)
    | TooShort(count: int, min: int)
    | TooLong(count: int, max: int)
    | GoodLength(count: int)
    | FoundKeywords(found: seq<string>)
    | MissingKeywords(required: seq<string>)
    | NoKeywords
    | UnknownType(kind: string)

  function ItemText(f: ItemFeedback): string {
    match f
    case ExceedsLimit(c, l) => "Exceeds word limit: " + IntToString(c) + " > " + IntToString(l)
    case WithinLimit(c, l) => "Within word limit: " + IntToString(c) + "/" + IntToString(l)
    case TooShort(c, m) => "Too short: " + IntToString(c) + " words (minimum " + IntToString(m) + ")"
    case TooLong(c, m) => "Too long: " + IntToString(c) + " words (maximum " + IntToString(m) + ")"
    case GoodLength(c) => "Good length: " + IntToString(c) + " words"
    case FoundKeywords(ks) => "Found keywords: " + Join(ks, ", ")
    case MissingKeywords(ks) => "Missing required keywords: " + Join(ks, ", ")
    case NoKeywords => "No keywords specified to check"
    case UnknownType(k) => "Unknown requirement type: " + k
  }

  /** The overall message, one of five. */
  datatype Overall =
    | EssayComplete
    | AlmostThere
    | AllMet
    | AddMoreContent
    | Progress(met: nat, total: nat)

  function OverallText(o: Overall): string {
    match o
    case EssayComplete => "🎊 Excellent! Your essay is complete and meets all requirements. Congratulations!"
    case AlmostThere => "Almost there! Complete the final requirements to finish your essay."
    case AllMet => "🎉 All requirements met! You can proceed to the next stage."
    case AddMoreContent => "Try adding more content and ensure you address all requirements."
    case Progress(m, t) =>
      "Good progress! " + IntToString(m) + " of " + IntToString(t) + " requirements met. Review the feedback below."
  }

  const CONTENT_ERROR: string := "Content is required and must be a string"
  const WORD_LIMIT_ID: string := "word_limit"

  /** One line of `detailedFeedback`: the word-limit line has no heading, a
      requirement's line is headed by its description. */
  datatype Line = Line(heading: Option<string>, item: ItemFeedback)

  /** The text of a line, `${req.description}: ${feedback}` for a requirement. */
  function LineText(l: Line): string {
    if l.heading.Some? then l.heading.value + ": " + ItemText(l.item) else ItemText(l.item)
  }

  /** The response body: the 400 error, or the evaluation (without its
      timestamp). The messages are kept as the values they are rendered from:
      the body's `feedback` is `OverallText(feedback)` and its
      `detailedFeedback` is the `LineText` of each line. */
  datatype CheckResult = CheckResult(
    passedRequirements: seq<string>,
    failedRequirements: seq<string>,
    isCompleted: bool,
    feedback: Overall,
    detailedFeedback: seq<Line>,
    wordCount: int,
    characterCount: int,
    isLastStageCompleted: bool)

  datatype Response = BadRequest(status: int, error: string) | Checked(result: CheckResult)

  // ---------------------------------------------------------------------------
  // One requirement
  // ---------------------------------------------------------------------------

  /** The outcome of one check: whether it passed and the phrase written for it. */
  datatype Verdict = Verdict(passed: bool, feedback: ItemFeedback)

  /** `req.minValue || 0`. */
  function MinBound(r: Requirement): int {
    if r.minValue.Some? then r.minValue.value else 0
  }

  /** `req.maxValue || Infinity`: `None` stands for no upper bound; 0 is no bound. */
  function MaxBound(r: Requirement): Option<int> {
    if r.maxValue.Some? && r.maxValue.value != 0 then r.maxValue else None
  }

  predicate WithinBounds(r: Requirement, wordCount: int) {
    MinBound(r) <= wordCount && (MaxBound(r).None? || wordCount <= MaxBound(r).value)
  }

  /** The keywords that occur in the lower-cased content once lower-cased
      themselves (`filter` with `includes`), in their original order. */
  function MatchingKeywords(contentLower: string, keywords: seq<string>): seq<string> {
    if keywords == [] then []
    else
      (if Includes(contentLower, ToLower(keywords[0])) then [keywords[0]] else [])
      + MatchingKeywords(contentLower, keywords[1..])
  }

  /** The matching keywords are exactly the listed keywords that occur. */
  lemma {:induction false} MatchingKeywordsAre(contentLower: string, keywords: seq<string>)
    ensures |MatchingKeywords(contentLower, keywords)| <= |keywords|
    ensures forall k :: k in MatchingKeywords(contentLower, keywords) <==>
      k in keywords && Occurs(ToLower(k), contentLower)
  {
    if keywords != [] {
      MatchingKeywordsAre(contentLower, keywords[1..]);
      assert keywords == [keywords[0]] + keywords[1..];
    }
  }

  /** The `switch` on `req.type` for one requirement. */
  function Evaluate(r: Requirement, content: string, wordCount: int): Verdict {
    if r.kind == WORD_COUNT then
      var min, max := MinBound(r), MaxBound(r);
      if wordCount < min then Verdict(false, TooShort(wordCount, min))
      else if max.Some? && wordCount > max.value then Verdict(false, TooLong(wordCount, max.value))
      else Verdict(true, GoodLength(wordCount))
    else if r.kind == CONTAINS_KEYWORDS then
      if r.requiredKeywords.Some? then
        var found := MatchingKeywords(ToLower(content), r.requiredKeywords.value);
        if |found| > 0 then Verdict(true, FoundKeywords(found))
        else Verdict(false, MissingKeywords(r.requiredKeywords.value))
      else Verdict(true, NoKeywords)
    else Verdict(true, UnknownType(r.kind))
  }

  /** The rules of the three branches: a `word_count` requirement passes iff
      the count is within its bounds, and a failure says "too short" below the
      minimum and "too long" otherwise; a `contains_keywords` requirement with a
      list passes iff some keyword occurs in the content, ignoring case, and
      passes without one; every other kind passes. */
  lemma {:induction false} EvaluateRules(r: Requirement, content: string, wordCount: int)
    ensures var v := Evaluate(r, content, wordCount);
      && (r.kind == WORD_COUNT ==> (v.passed <==> WithinBounds(r, wordCount)))
      && (r.kind == WORD_COUNT && wordCount < MinBound(r) ==> v.feedback == TooShort(wordCount, MinBound(r)))
      && (r.kind == WORD_COUNT && MinBound(r) <= wordCount && !v.passed ==>
            v.feedback == TooLong(wordCount, MaxBound(r).value))
      && (r.kind == CONTAINS_KEYWORDS && r.requiredKeywords.Some? ==>
            (v.passed <==> exists k :: k in r.requiredKeywords.value && Occurs(ToLower(k), ToLower(content))))
      && (r.kind == CONTAINS_KEYWORDS && r.requiredKeywords.None? ==> v == Verdict(true, NoKeywords))
      && (r.kind != WORD_COUNT && r.kind != CONTAINS_KEYWORDS ==> v == Verdict(true, UnknownType(r.kind)))
    ensures r.minValue.None? || r.minValue == Some(0) ==> MinBound(r) == 0
  {
    if r.kind == CONTAINS_KEYWORDS && r.requiredKeywords.Some? {
      var found := MatchingKeywords(ToLower(content), r.requiredKeywords.value);
      MatchingKeywordsAre(ToLower(content), r.requiredKeywords.value);
      if |found| > 0 {
        assert found[0] in found;
      }
    }
  }

  /** The line written for a requirement. */
  function ItemLine(r: Requirement, v: Verdict): Line {
    Line(Some(r.description), v.feedback)
  }

  // ---------------------------------------------------------------------------
  // The requirement list, element by element
  // ---------------------------------------------------------------------------

  /** The ids of the passing requirements, in input order. */
  function PassedIds(reqs: seq<Requirement>, content: string, wordCount: int): seq<string> {
    if reqs == [] then []
    else
      var r := reqs[|reqs| - 1];
      PassedIds(reqs[..|reqs| - 1], content, wordCount)
      + (if Evaluate(r, content, wordCount).passed then [r.id] else [])
  }

  /** The ids of the failing requirements, in input order. */
  function FailedIds(reqs: seq<Requirement>, content: string, wordCount: int): seq<string> {
    if reqs == [] then []
    else
      var r := reqs[|reqs| - 1];
      FailedIds(reqs[..|reqs| - 1], content, wordCount)
      + (if Evaluate(r, content, wordCount).passed then [] else [r.id])
  }

  /** One feedback line per requirement, in input order. */
  function ItemLines(reqs: seq<Requirement>, content: string, wordCount: int): seq<Line> {
    if reqs == [] then []
    else
      var r := reqs[|reqs| - 1];
      ItemLines(reqs[..|reqs| - 1], content, wordCount) + [ItemLine(r, Evaluate(r, content, wordCount))]
  }

  function Ids(reqs: seq<Requirement>): seq<string> {
    seq(|reqs|, k requires 0 <= k < |reqs| => reqs[k].id)
  }

  // ---------------------------------------------------------------------------
  // The word limit and the overall message
  // ---------------------------------------------------------------------------

  /** `wordLimit` is truthy: present and not 0. */
  predicate LimitSet(wordLimit: Option<int>) {
    wordLimit.Some? && wordLimit.value != 0
  }

  /** The word-limit check, when there is one. */
  function LimitVerdict(wordCount: int, wordLimit: Option<int>): Option<Verdict> {
    if !LimitSet(wordLimit) then None
    else if wordCount > wordLimit.value then Some(Verdict(false, ExceedsLimit(wordCount, wordLimit.value)))
    else Some(Verdict(true, WithinLimit(wordCount, wordLimit.value)))
  }

  function LimitPassed(v: Option<Verdict>): seq<string> {
    if v.Some? && v.value.passed then [WORD_LIMIT_ID] else []
  }

  function LimitFailed(v: Option<Verdict>): seq<string> {
    if v.Some? && !v.value.passed then [WORD_LIMIT_ID] else []
  }

  function LimitLines(v: Option<Verdict>): seq<Line> {
    if v.Some? then [Line(None, v.value.feedback)] else []
  }

  /** The overall message for the given outcome counts. */
  function SelectOverall(isLastStage: bool, passedCount: nat, failedCount: nat): Overall {
    if isLastStage then
      (if failedCount == 0 then EssayComplete else AlmostThere)
    else if failedCount == 0 then AllMet
    else if passedCount == 0 then AddMoreContent
    else Progress(passedCount, passedCount + failedCount)
  }

  // ---------------------------------------------------------------------------
  // The whole request
  // ---------------------------------------------------------------------------

  /** `content` passes the guard `!content || typeof content !== 'string'`. */
  predicate HasContent(q: CheckRequest) {
    q.content.Some? && q.content.value != ""
  }

  /** The requirement list the handler iterates over. */
  function RequirementList(q: CheckRequest): seq<Requirement> {
    if q.requirements.Some? then q.requirements.value else []
  }

  /** What the handler answers, stated as a function of the request. */
  function Check(q: CheckRequest): Response {
    if !HasContent(q) then BadRequest(400, CONTENT_ERROR)
    else
      var content := q.content.value;
      var wc := WordCount(content);
      var lim := LimitVerdict(wc, q.wordLimit);
      var reqs := RequirementList(q);
      var passed := LimitPassed(lim) + PassedIds(reqs, content, wc);
      var failed := LimitFailed(lim) + FailedIds(reqs, content, wc);
      Checked(CheckResult(
        passed,
        failed,
        failed == [],
        SelectOverall(q.isLastStage, |passed|, |failed|),
        LimitLines(lim) + ItemLines(reqs, content, wc),
        wc,
        Utf16Length(content),
        q.isLastStage && failed == []))
  }

  /** The `forEach` callback's `switch` for one requirement. */
  method CheckOne(req: Requirement, content: string, wordCount: int) returns (passed: bool, feedback: ItemFeedback)
    ensures Verdict(passed, feedback) == Evaluate(req, content, wordCount)
  {
    passed := false;
    if req.kind == WORD_COUNT {
      var min := if req.minValue.Some? then req.minValue.value else 0;
      var max := if req.maxValue.Some? && req.maxValue.value != 0 then req.maxValue else None;
      if wordCount < min {
        feedback := TooShort(wordCount, min);
      } else if max.Some? && wordCount > max.value {
        feedback := TooLong(wordCount, max.value);
      } else {
        passed := true;
        feedback := GoodLength(wordCount);
      }
    } else if req.kind == CONTAINS_KEYWORDS {
      if req.requiredKeywords.Some? {
        var contentLower := ToLower(content);
        var foundKeywords := MatchingKeywords(contentLower, req.requiredKeywords.value);
        if |foundKeywords| > 0 {
          passed := true;
          feedback := FoundKeywords(foundKeywords);
        } else {
          feedback := MissingKeywords(req.requiredKeywords.value);
        }
      } else {
        feedback := NoKeywords;
        passed := true;
      }
    } else {
      feedback := UnknownType(req.kind);
      passed := true;
    }
  }

  /** The word-limit check: `'word_limit'` goes to one list when `wordLimit` is truthy. */
  method CheckWordLimit(wordCount: int, wordLimit: Option<int>)
    returns (passedRequirements: seq<string>, failedRequirements: seq<string>, feedbackItems: seq<Line>)
    ensures var lim := LimitVerdict(wordCount, wordLimit);
      && passedRequirements == LimitPassed(lim)
      && failedRequirements == LimitFailed(lim)
      && feedbackItems == LimitLines(lim)
  {
    passedRequirements, failedRequirements, feedbackItems := [], [], [];
    if wordLimit.Some? && wordLimit.value != 0 && wordCount > wordLimit.value {
      failedRequirements := failedRequirements + [WORD_LIMIT_ID];
      feedbackItems := feedbackItems + [Line(None, ExceedsLimit(wordCount, wordLimit.value))];
    } else if wordLimit.Some? && wordLimit.value != 0 {
      passedRequirements := passedRequirements + [WORD_LIMIT_ID];
      feedbackItems := feedbackItems + [Line(None, WithinLimit(wordCount, wordLimit.value))];
    }
  }

  /** The element-by-element functions grow by one requirement at a time. */
  lemma {:induction false} ListsStep(reqs: seq<Requirement>, i: nat, content: string, wordCount: int)
    requires i < |reqs|
    ensures var r, v := reqs[i], Evaluate(reqs[i], content, wordCount);
      && PassedIds(reqs[..i + 1], content, wordCount)
         == PassedIds(reqs[..i], content, wordCount) + (if v.passed then [r.id] else [])
      && FailedIds(reqs[..i + 1], content, wordCount)
         == FailedIds(reqs[..i], content, wordCount) + (if v.passed then [] else [r.id])
      && ItemLines(reqs[..i + 1], content, wordCount)
         == ItemLines(reqs[..i], content, wordCount) + [ItemLine(r, v)]
  {
    assert reqs[..i + 1][..i] == reqs[..i];
  }

  /** The `forEach` over the requirements, pushing onto the three lists. */
  method CheckEach(reqs: seq<Requirement>, content: string, wordCount: int,
                   passed0: seq<string>, failed0: seq<string>, items0: seq<Line>)
    returns (passedRequirements: seq<string>, failedRequirements: seq<string>, feedbackItems: seq<Line>)
    ensures passedRequirements == passed0 + PassedIds(reqs, content, wordCount)
    ensures failedRequirements == failed0 + FailedIds(reqs, content, wordCount)
    ensures feedbackItems == items0 + ItemLines(reqs, content, wordCount)
  {
    passedRequirements, failedRequirements, feedbackItems := passed0, failed0, items0;
    for i := 0 to |reqs|
      invariant passedRequirements == passed0 + PassedIds(reqs[..i], content, wordCount)
      invariant failedRequirements == failed0 + FailedIds(reqs[..i], content, wordCount)
      invariant feedbackItems == items0 + ItemLines(reqs[..i], content, wordCount)
    {
      var req := reqs[i];
      var passed, feedback := CheckOne(req, content, wordCount);
      ListsStep(reqs, i, content, wordCount);
      if passed {
        passedRequirements := passedRequirements + [req.id];
      } else {
        failedRequirements := failedRequirements + [req.id];
      }
      feedbackItems := feedbackItems + [Line(Some(req.description), feedback)];
    }
    assert reqs[..|reqs|] == reqs;
  }

  /** The overall message, chosen by the fixed priority. */
  method ChooseFeedback(isLastStage: bool, passedRequirements: seq<string>, failedRequirements: seq<string>)
    returns (overallFeedback: Overall)
    ensures overallFeedback == SelectOverall(isLastStage, |passedRequirements|, |failedRequirements|)
  {
    var totalRequirements := |passedRequirements| + |failedRequirements|;
    if isLastStage {
      if |failedRequirements| == 0 {
        overallFeedback := EssayComplete;
      } else {
        overallFeedback := AlmostThere;
      }
    } else if |failedRequirements| == 0 {
      overallFeedback := AllMet;
    } else if |passedRequirements| == 0 {
      overallFeedback := AddMoreContent;
    } else {
      overallFeedback := Progress(|passedRequirements|, totalRequirements);
    }
  }

  /** The handler: validation, counts, the word limit, the requirements and the
      overall message. */
  method Post(q: CheckRequest) returns (response: Response)
    ensures response == Check(q)
  {
    if q.content.None? || q.content.value == "" {
      return BadRequest(400, CONTENT_ERROR);
    }
    var content := q.content.value;
    var wordCount := WordCount(content);
    var characterCount := Utf16Length(content);

    var passedRequirements, failedRequirements, feedbackItems := CheckWordLimit(wordCount, q.wordLimit);
    ghost var lim := LimitVerdict(wordCount, q.wordLimit);
    if q.requirements.Some? {
      passedRequirements, failedRequirements, feedbackItems :=
        CheckEach(q.requirements.value, content, wordCount, passedRequirements, failedRequirements, feedbackItems);
    } else {
      assert passedRequirements == LimitPassed(lim) + PassedIds([], content, wordCount);
      assert failedRequirements == LimitFailed(lim) + FailedIds([], content, wordCount);
      assert feedbackItems == LimitLines(lim) + ItemLines([], content, wordCount);
    }
    var overallFeedback := ChooseFeedback(q.isLastStage, passedRequirements, failedRequirements);

    response := Checked(CheckResult(
      passedRequirements,
      failedRequirements,
      |failedRequirements| == 0,
      overallFeedback,
      feedbackItems,
      wordCount,
      characterCount,
      q.isLastStage && |failedRequirements| == 0));
  }

  // ---------------------------------------------------------------------------
  // Properties of the element-by-element functions
  // ---------------------------------------------------------------------------

  /** An id is passed exactly when some requirement with that id passes. */
  lemma {:induction false} PassedIdsMembers(reqs: seq<Requirement>, content: string, wordCount: int, id: string)
    ensures id in PassedIds(reqs, content, wordCount) <==>
      exists k :: 0 <= k < |reqs| && reqs[k].id == id && Evaluate(reqs[k], content, wordCount).passed
  {
    if reqs != [] {
      var n := |reqs| - 1;
      var init := reqs[..n];
      PassedIdsMembers(init, content, wordCount, id);
      if exists k :: 0 <= k < |reqs| && reqs[k].id == id && Evaluate(reqs[k], content, wordCount).passed {
        var k :| 0 <= k < |reqs| && reqs[k].id == id && Evaluate(reqs[k], content, wordCount).passed;
        if k < n { assert init[k] == reqs[k]; }
      }
      if exists k :: 0 <= k < |init| && init[k].id == id && Evaluate(init[k], content, wordCount).passed {
        var k :| 0 <= k < |init| && init[k].id == id && Evaluate(init[k], content, wordCount).passed;
        assert reqs[k] == init[k];
      }
    }
  }

  /** An id is failed exactly when some requirement with that id fails. */
  lemma {:induction false} FailedIdsMembers(reqs: seq<Requirement>, content: string, wordCount: int, id: string)
    ensures id in FailedIds(reqs, content, wordCount) <==>
      exists k :: 0 <= k < |reqs| && reqs[k].id == id && !Evaluate(reqs[k], content, wordCount).passed
  {
    if reqs != [] {
      var n := |reqs| - 1;
      var init := reqs[..n];
      FailedIdsMembers(init, content, wordCount, id);
      if exists k :: 0 <= k < |reqs| && reqs[k].id == id && !Evaluate(reqs[k], content, wordCount).passed {
        var k :| 0 <= k < |reqs| && reqs[k].id == id && !Evaluate(reqs[k], content, wordCount).passed;
        if k < n { assert init[k] == reqs[k]; }
      }
      if exists k :: 0 <= k < |init| && init[k].id == id && !Evaluate(init[k], content, wordCount).passed {
        var k :| 0 <= k < |init| && init[k].id == id && !Evaluate(init[k], content, wordCount).passed;
        assert reqs[k] == init[k];
      }
    }
  }

  /** Every requirement id lands in exactly one list, so the two lists together
      are the ids of the requirements, and there is one line per requirement. */
  lemma {:induction false} Partition(reqs: seq<Requirement>, content: string, wordCount: int)
    ensures |PassedIds(reqs, content, wordCount)| + |FailedIds(reqs, content, wordCount)| == |reqs|
    ensures multiset(PassedIds(reqs, content, wordCount)) + multiset(FailedIds(reqs, content, wordCount))
         == multiset(Ids(reqs))
    ensures |ItemLines(reqs, content, wordCount)| == |reqs|
  {
    if reqs != [] {
      var n := |reqs| - 1;
      var init, r := reqs[..n], reqs[n];
      Partition(init, content, wordCount);
      var p, f := PassedIds(init, content, wordCount), FailedIds(init, content, wordCount);
      var p', f' := PassedIds(reqs, content, wordCount), FailedIds(reqs, content, wordCount);
      assert multiset(p') + multiset(f') == multiset(p) + multiset(f) + multiset{r.id} by {
        if Evaluate(r, content, wordCount).passed {
          assert p' == p + [r.id] && f' == f;
        } else {
          assert p' == p && f' == f + [r.id];
        }
      }
      IdsSnoc(reqs);
    }
  }

  lemma {:induction false} IdsSnoc(reqs: seq<Requirement>)
    requires reqs != []
    ensures Ids(reqs) == Ids(reqs[..|reqs| - 1]) + [reqs[|reqs| - 1].id]
  {
  }

  /** There is one line per requirement. */
  lemma {:induction false} ItemLinesLength(reqs: seq<Requirement>, content: string, wordCount: int)
    ensures |ItemLines(reqs, content, wordCount)| == |reqs|
  {
    if reqs != [] {
      ItemLinesLength(reqs[..|reqs| - 1], content, wordCount);
    }
  }

  /** The line at position `k` belongs to the requirement at position `k`. */
  lemma {:induction false} ItemLinesAt(reqs: seq<Requirement>, content: string, wordCount: int, k: nat)
    requires k < |reqs|
    ensures |ItemLines(reqs, content, wordCount)| == |reqs|
    ensures ItemLines(reqs, content, wordCount)[k] == ItemLine(reqs[k], Evaluate(reqs[k], content, wordCount))
  {
    var n := |reqs| - 1;
    var init := reqs[..n];
    var last := ItemLine(reqs[n], Evaluate(reqs[n], content, wordCount));
    assert ItemLines(reqs, content, wordCount) == ItemLines(init, content, wordCount) + [last];
    ItemLinesLength(init, content, wordCount);
    if k < n {
      ItemLinesAt(init, content, wordCount, k);
      assert init[k] == reqs[k];
    }
  }

  /** Nothing fails exactly when every requirement passes. */
  lemma {:induction false} NoneFailed(reqs: seq<Requirement>, content: string, wordCount: int)
    ensures FailedIds(reqs, content, wordCount) == [] <==>
      forall k :: 0 <= k < |reqs| ==> Evaluate(reqs[k], content, wordCount).passed
  {
    var failed := FailedIds(reqs, content, wordCount);
    if failed != [] {
      FailedIdsMembers(reqs, content, wordCount, failed[0]);
    }
    forall k | 0 <= k < |reqs| && !Evaluate(reqs[k], content, wordCount).passed
      ensures failed != []
    {
      FailedIdsMembers(reqs, content, wordCount, reqs[k].id);
    }
  }

  // ---------------------------------------------------------------------------
  // Properties of the handler
  // ---------------------------------------------------------------------------

  /** Missing, empty or non-string content is refused with status 400, and
      nothing is evaluated. */
  lemma {:induction false} RejectsMissingContent(q: CheckRequest)
    ensures Check(q).BadRequest? <==> q.content.None? || q.content.value == ""
    ensures Check(q).BadRequest? ==> Check(q) == BadRequest(400, "Content is required and must be a string")
  {
  }

  /** The word count is the number of whitespace-separated pieces, one more than
      the number of whitespace runs, so never 0; the character count is the
      length in UTF-16 code units. */
  lemma {:induction false} Counts(q: CheckRequest)
    requires HasContent(q)
    ensures var r, c := Check(q).result, q.content.value;
      && r.wordCount == |SplitOnSpaces(c)| == |Separators(c)| + 1
      && r.wordCount >= 1
      && r.characterCount == Utf16Length(c)
      && |c| <= r.characterCount <= 2 * |c|
  {
    SplitRoundTrip(q.content.value);
  }

  /** A truthy word limit is checked first: its id heads the failed list when
      the count exceeds it and the passed list otherwise, and its line heads the
      detailed feedback. An absent or zero limit adds nothing. */
  lemma {:induction false} WordLimitFirst(q: CheckRequest)
    requires HasContent(q)
    ensures var r, c := Check(q).result, q.content.value;
      var reqs := RequirementList(q);
      && (LimitSet(q.wordLimit) && r.wordCount > q.wordLimit.value ==>
            && r.failedRequirements == [WORD_LIMIT_ID] + FailedIds(reqs, c, r.wordCount)
            && r.passedRequirements == PassedIds(reqs, c, r.wordCount)
            && r.detailedFeedback == [Line(None, ExceedsLimit(r.wordCount, q.wordLimit.value))] + ItemLines(reqs, c, r.wordCount))
      && (LimitSet(q.wordLimit) && r.wordCount <= q.wordLimit.value ==>
            && r.passedRequirements == [WORD_LIMIT_ID] + PassedIds(reqs, c, r.wordCount)
            && r.failedRequirements == FailedIds(reqs, c, r.wordCount)
            && r.detailedFeedback == [Line(None, WithinLimit(r.wordCount, q.wordLimit.value))] + ItemLines(reqs, c, r.wordCount))
      && (!LimitSet(q.wordLimit) ==>
            && r.passedRequirements == PassedIds(reqs, c, r.wordCount)
            && r.failedRequirements == FailedIds(reqs, c, r.wordCount)
            && r.detailedFeedback == ItemLines(reqs, c, r.wordCount))
  {
  }

  /** When no requirement is itself called `word_limit`, that id is in the
      failed list iff a truthy limit is exceeded, and in the passed list iff a
      truthy limit is met. */
  lemma {:induction false} WordLimitExclusive(q: CheckRequest)
    requires HasContent(q)
    requires forall k :: 0 <= k < |RequirementList(q)| ==> RequirementList(q)[k].id != WORD_LIMIT_ID
    ensures var r := Check(q).result;
      && (WORD_LIMIT_ID in r.failedRequirements <==> LimitSet(q.wordLimit) && r.wordCount > q.wordLimit.value)
      && (WORD_LIMIT_ID in r.passedRequirements <==> LimitSet(q.wordLimit) && r.wordCount <= q.wordLimit.value)
  {
    var c, reqs := q.content.value, RequirementList(q);
    var wc := WordCount(c);
    PassedIdsMembers(reqs, c, wc, WORD_LIMIT_ID);
    FailedIdsMembers(reqs, c, wc, WORD_LIMIT_ID);
  }

  /** Each requirement's id goes to the list its verdict names, and its
      feedback line sits at its own position after the word-limit line. */
  lemma {:induction false} RequirementOutcome(q: CheckRequest, k: nat)
    requires HasContent(q) && k < |RequirementList(q)|
    ensures var r, c, req := Check(q).result, q.content.value, RequirementList(q)[k];
      var v := Evaluate(req, c, r.wordCount);
      var offset := if LimitSet(q.wordLimit) then 1 else 0;
      && (v.passed ==> req.id in r.passedRequirements)
      && (!v.passed ==> req.id in r.failedRequirements)
      && offset + k < |r.detailedFeedback|
      && r.detailedFeedback[offset + k] == ItemLine(req, v)
  {
    var r, c, reqs := Check(q).result, q.content.value, RequirementList(q);
    var wc := r.wordCount;
    WordLimitFirst(q);
    PassedIdsMembers(reqs, c, wc, reqs[k].id);
    FailedIdsMembers(reqs, c, wc, reqs[k].id);
    ItemLinesAt(reqs, c, wc, k);
  }

  /** With distinct ids, none of them `word_limit`, a requirement's id is in
      the passed list iff it passes and in the failed list iff it fails. */
  lemma {:induction false} ExclusiveOutcome(q: CheckRequest, k: nat)
    requires HasContent(q) && k < |RequirementList(q)|
    requires UniqueIds(RequirementList(q))
    requires forall j :: 0 <= j < |RequirementList(q)| ==> RequirementList(q)[j].id != WORD_LIMIT_ID
    ensures var r, c, req := Check(q).result, q.content.value, RequirementList(q)[k];
      var v := Evaluate(req, c, r.wordCount);
      && (req.id in r.passedRequirements <==> v.passed)
      && (req.id in r.failedRequirements <==> !v.passed)
  {
    var r, c, reqs := Check(q).result, q.content.value, RequirementList(q);
    var wc := r.wordCount;
    WordLimitFirst(q);
    PassedIdsMembers(reqs, c, wc, reqs[k].id);
    FailedIdsMembers(reqs, c, wc, reqs[k].id);
    assert reqs[k].id != WORD_LIMIT_ID;
  }

  /** The passed and failed lists split the checked ids: together they hold the
      requirement ids and `word_limit` when a limit is set, and there is one
      detailed line per checked id. */
  lemma {:induction false} PartitionCounts(q: CheckRequest)
    requires HasContent(q)
    ensures var r, reqs := Check(q).result, RequirementList(q);
      var extra := if LimitSet(q.wordLimit) then 1 else 0;
      && |r.passedRequirements| + |r.failedRequirements| == |reqs| + extra
      && |r.detailedFeedback| == |r.passedRequirements| + |r.failedRequirements|
      && multiset(r.passedRequirements) + multiset(r.failedRequirements)
         == multiset(Ids(reqs)) + (if LimitSet(q.wordLimit) then multiset{WORD_LIMIT_ID} else multiset{})
  {
    var c, reqs := q.content.value, RequirementList(q);
    Partition(reqs, c, WordCount(c));
  }

  /** The stage is completed iff nothing failed, i.e. iff the limit (if any)
      holds and every requirement passes; the last stage is completed iff it is
      the last stage and nothing failed. */
  lemma {:induction false} Completion(q: CheckRequest)
    requires HasContent(q)
    ensures var r, c, reqs := Check(q).result, q.content.value, RequirementList(q);
      && (r.isCompleted <==> r.failedRequirements == [])
      && (r.isCompleted <==>
            && (!LimitSet(q.wordLimit) || r.wordCount <= q.wordLimit.value)
            && forall k :: 0 <= k < |reqs| ==> Evaluate(reqs[k], c, r.wordCount).passed)
      && (r.isLastStageCompleted <==> q.isLastStage && r.isCompleted)
  {
    var c, reqs := q.content.value, RequirementList(q);
    NoneFailed(reqs, c, WordCount(c));
  }

  /** The overall message follows the fixed priority: last stage first, then
      nothing failed, then nothing passed, then a count of met requirements. */
  lemma {:induction false} FeedbackPriority(q: CheckRequest)
    requires HasContent(q)
    ensures var r := Check(q).result;
      var p, f := r.passedRequirements, r.failedRequirements;
      && (q.isLastStage && f == [] ==> r.feedback == EssayComplete)
      && (q.isLastStage && f != [] ==> r.feedback == AlmostThere)
      && (!q.isLastStage && f == [] ==> r.feedback == AllMet)
      && (!q.isLastStage && f != [] && p == [] ==> r.feedback == AddMoreContent)
      && (!q.isLastStage && f != [] && p != [] ==>
            r.feedback == Progress(|p|, |p| + |f|) && 0 < r.feedback.met < r.feedback.total)
  {
  }

  // ---------------------------------------------------------------------------
  // Edge cases of the rules
  // ---------------------------------------------------------------------------

  /** An empty keyword list is present, so it is searched, and nothing is found. */
  lemma {:induction false} EmptyKeywordListFails(r: Requirement, content: string, wordCount: int)
    requires r.kind == CONTAINS_KEYWORDS && r.requiredKeywords == Some([])
    ensures Evaluate(r, content, wordCount) == Verdict(false, MissingKeywords([]))
  {
    assert MatchingKeywords(ToLower(content), []) == [];
  }

  /** `maxValue: 0` means no upper bound. */
  lemma {:induction false} ZeroBoundsAreOpen(r: Requirement, wordCount: int)
    requires r.kind == WORD_COUNT && r.maxValue == Some(0)
    ensures Evaluate(r, "", wordCount).passed <==> MinBound(r) <= wordCount
  {
  }

  /** A requirement of any kind but the two checked ones passes, with the
      "Unknown requirement type" line. */
  lemma {:induction false} OtherKindsPass(r: Requirement, content: string, wordCount: int)
    requires r.kind == STRUCTURE_CHECK || r.kind == AI_SCORE
    ensures Evaluate(r, content, wordCount) == Verdict(true, UnknownType(r.kind))
  {
  }
}
