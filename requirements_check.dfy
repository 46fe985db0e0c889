/**
  The live check of the requirements panel: while the writer types, each
  requirement of the current stage is shown as passed or as needing work.
  Its rules differ from the server's: a kind other than `word_count` and
  `contains_keywords` never passes here, and a keyword requirement without a
  list fails. A requirement the last server check passed stays shown as
  passed.
*/
module RequirementsCheck {
  import opened Wrappers
  import opened Text
  import opened Stages
  import CheckRequirements

  /** The parts of a stage record the panel reads; `passedRequirements` may be
      missing (`?.`). */
  datatype PanelStage = PanelStage(
    requirements: seq<Requirement>,
    passedRequirements: Option<seq<string>>,
    failedRequirements: seq<string>,
    aiFeedback: Option<string>)

  /** `checkWordCount`: a `word_count` requirement whose bounds
      (`minValue || 0`, `maxValue || Infinity`) hold the count. */
  function CheckWordCount(req: Requirement, wordCount: int): bool {
    if req.kind == WORD_COUNT then
      var min, max := CheckRequirements.MinBound(req), CheckRequirements.MaxBound(req);
      wordCount >= min && (max.None? || wordCount <= max.value)
    else false
  }

  /** `keywords.some(k => contentLower.includes(k.toLowerCase()))`. */
  function SomeKeyword(contentLower: string, keywords: seq<string>): (b: bool)
    ensures b <==> exists k :: k in keywords && Occurs(ToLower(k), contentLower)
  {
    if keywords == [] then false
    else if Includes(contentLower, ToLower(keywords[0])) then true
    else
      var b := SomeKeyword(contentLower, keywords[1..]);
      assert forall k :: k in keywords <==> k == keywords[0] || k in keywords[1..];
      b
  }

  /** `checkKeywords`: a `contains_keywords` requirement with a list (an empty
      list is still a list) some keyword of which occurs, ignoring case. */
  function CheckKeywords(req: Requirement, content: string): (ok: bool)
    ensures ok <==>
      && req.kind == CONTAINS_KEYWORDS
      && req.requiredKeywords.Some?
      && exists k :: k in req.requiredKeywords.value && Occurs(ToLower(k), ToLower(content))
  {
    if req.kind == CONTAINS_KEYWORDS && req.requiredKeywords.Some? then
      SomeKeyword(ToLower(content), req.requiredKeywords.value)
    else false
  }

  /** `evaluateRequirement`: only the two checked kinds can pass. */
  function EvaluateRequirement(req: Requirement, content: string, wordCount: int): bool {
    if req.kind == WORD_COUNT then CheckWordCount(req, wordCount)
    else if req.kind == CONTAINS_KEYWORDS then CheckKeywords(req, content)
    else false
  }

  /** The badge of one requirement (the `isPassed` expression). */
  function IsPassed(stage: PanelStage, req: Requirement, content: string, wordCount: int): bool {
    (stage.passedRequirements.Some? && req.id in stage.passedRequirements.value)
    || EvaluateRequirement(req, content, wordCount)
  }

  // ---------------------------------------------------------------------------
  // The rules
  // ---------------------------------------------------------------------------

  /** A word-count requirement is met iff the count lies within
      `[minValue || 0, maxValue || Infinity]`, and no other kind is. */
  lemma {:induction false} WordCountRule(req: Requirement, wordCount: int)
    ensures CheckWordCount(req, wordCount) <==>
      req.kind == WORD_COUNT && CheckRequirements.WithinBounds(req, wordCount)
  {
  }

  /** An empty keyword list never matches. */
  lemma {:induction false} EmptyKeywordListFails(req: Requirement, content: string)
    requires req.requiredKeywords == Some([])
    ensures !CheckKeywords(req, content)
  {
  }

  /** Every kind other than the two checked ones is shown as needing work. */
  lemma {:induction false} OtherKindsFail(req: Requirement, content: string, wordCount: int)
    requires req.kind != WORD_COUNT && req.kind != CONTAINS_KEYWORDS
    ensures !EvaluateRequirement(req, content, wordCount)
  {
  }

  /** A stored pass is never shown as failed, whatever the live rule says. */
  lemma {:induction false} ShownPassed(stage: PanelStage, req: Requirement, content: string, wordCount: int)
    ensures stage.passedRequirements.Some? && req.id in stage.passedRequirements.value ==>
      IsPassed(stage, req, content, wordCount)
  {
  }

  // ---------------------------------------------------------------------------
  // Where the live check and the server agree
  // ---------------------------------------------------------------------------

  /** On `word_count` requirements the two rules agree. */
  lemma {:induction false} AgreesOnWordCount(req: Requirement, content: string, wordCount: int)
    requires req.kind == WORD_COUNT
    ensures EvaluateRequirement(req, content, wordCount)
         == CheckRequirements.Evaluate(req, content, wordCount).passed
  {
    CheckRequirements.EvaluateRules(req, content, wordCount);
  }

  /** On `contains_keywords` requirements with a list the two rules agree. */
  lemma {:induction false} AgreesOnKeywords(req: Requirement, content: string, wordCount: int)
    requires req.kind == CONTAINS_KEYWORDS && req.requiredKeywords.Some?
    ensures EvaluateRequirement(req, content, wordCount)
         == CheckRequirements.Evaluate(req, content, wordCount).passed
  {
    CheckRequirements.EvaluateRules(req, content, wordCount);
  }

  /** Everywhere else the server passes and the live check fails. */
  lemma {:induction false} DiffersElsewhere(req: Requirement, content: string, wordCount: int)
    requires req.kind != WORD_COUNT
    requires req.kind != CONTAINS_KEYWORDS || req.requiredKeywords.None?
    ensures !EvaluateRequirement(req, content, wordCount)
    ensures CheckRequirements.Evaluate(req, content, wordCount).passed
  {
    CheckRequirements.EvaluateRules(req, content, wordCount);
  }

  /** So the live check is stricter: what it passes, the server passes. */
  lemma {:induction false} LiveCheckIsStricter(req: Requirement, content: string, wordCount: int)
    ensures EvaluateRequirement(req, content, wordCount) ==>
      CheckRequirements.Evaluate(req, content, wordCount).passed
  {
    CheckRequirements.EvaluateRules(req, content, wordCount);
  }
}
