/**
  The stage registries of the essay/thesis writer: the `StageRequirement` and
  `WritingStage` record types and the two ordered stage lists, one for essay
  mode and one for thesis mode.
*/
module Stages {
  import opened Wrappers

  // The four requirement tags of the `type` union.
  const AI_SCORE: string := "ai_score"
  const WORD_COUNT: string := "word_count"
  const CONTAINS_KEYWORDS: string := "contains_keywords"
  const STRUCTURE_CHECK: string := "structure_check"

  predicate KnownKind(kind: string) {
    kind == AI_SCORE || kind == WORD_COUNT || kind == CONTAINS_KEYWORDS || kind == STRUCTURE_CHECK
  }

  /** A stage requirement. `kind` is the `type` field; it is any string because
      requirements travel as untyped JSON. An absent optional field is `None`. */
  datatype Requirement = Requirement(
    id: string,
    kind: string,
    minValue: Option<int>,
    maxValue: Option<int>,
    requiredKeywords: Option<seq<string>>,
    description: string,
    errorMessage: string)

  /** A stage of a writing mode; `nextStages` lists the ids this stage unlocks. */
  datatype WritingStage = WritingStage(
    id: string,
    title: string,
    description: string,
    isUnlocked: bool,
    requirements: seq<Requirement>,
    nextStages: seq<string>,
    helpText: string,
    examples: seq<string>)

  /** Essay mode (REB-aligned). */
  const ESSAY_STAGES: seq<WritingStage> := [
    WritingStage(
      "thesis_statement",
      "Thesis Statement",
      "Create a clear, arguable thesis that answers the prompt",
      true,
      [ Requirement("thesis_length", WORD_COUNT, Some(15), Some(40), None,
          "Thesis should be 15-40 words",
          "Thesis is too short or too long. Aim for 15-40 words."),
        Requirement("thesis_arguable", CONTAINS_KEYWORDS, None, None,
          Some(["argu", "position", "claim", "assert"]),
          "Thesis must take a clear position",
          "Your thesis needs to make a clear, arguable claim.") ],
      ["planning", "introduction"],
      "A good thesis: 1) Answers the prompt 2) Takes a position 3) Is specific",
      [ "While some argue technology isolates people, it actually creates new forms of community through social media platforms.",
        "The Rwandan government's focus on technology education is essential for preparing youth for the digital economy of the future." ]),
    WritingStage(
      "planning",
      "Essay Plan",
      "Outline your main arguments and evidence",
      false,
      [ Requirement("plan_min_points", WORD_COUNT, Some(50), None, None,
          "Plan should outline at least 3 main points",
          "Your plan needs at least 3 well-developed points.") ],
      ["body_paragraphs"],
      "Each point should: 1) Support your thesis 2) Have evidence 3) Include analysis",
      [])
  ]

  /** Thesis mode (UR-aligned). */
  const THESIS_STAGES: seq<WritingStage> := [
    WritingStage(
      "research_proposal",
      "Research Proposal",
      "Define your research question and objectives",
      true,
      [ Requirement("proposal_length", WORD_COUNT, Some(200), None, None,
          "Proposal should be 200+ words",
          "Research proposal needs more detail (minimum 200 words)."),
        Requirement("research_question", CONTAINS_KEYWORDS, None, None,
          Some(["what", "how", "why", "effect", "impact", "relationship"]),
          "Must contain a clear research question",
          "Your proposal needs a clear research question starting with What, How, or Why.") ],
      ["literature_review"],
      "UR guidelines require: 1) Clear research gap 2) Specific objectives 3) Methodology overview",
      [])
  ]

  // ---------------------------------------------------------------------------
  // Registry properties
  // ---------------------------------------------------------------------------

  /** Exactly the first stage of a registry starts unlocked. */
  predicate OnlyFirstUnlocked(registry: seq<WritingStage>) {
    && registry != []
    && forall k :: 0 <= k < |registry| ==> (registry[k].isUnlocked <==> k == 0)
  }

  predicate UniqueIds(reqs: seq<Requirement>) {
    forall i, j :: 0 <= i < j < |reqs| ==> reqs[i].id != reqs[j].id
  }

  predicate HasKnownKind(r: Requirement) {
    KnownKind(r.kind)
  }

  /** Both bounds of a `word_count` requirement, when present, are ordered. */
  predicate BoundsOrdered(r: Requirement) {
    r.kind == WORD_COUNT && r.minValue.Some? && r.maxValue.Some? ==> r.minValue.value <= r.maxValue.value
  }

  /** A `contains_keywords` requirement carries a non-empty keyword list. */
  predicate HasKeywords(r: Requirement) {
    r.kind == CONTAINS_KEYWORDS ==> r.requiredKeywords.Some? && r.requiredKeywords.value != []
  }

  /** Every requirement of a registry satisfies `P`. */
  predicate EveryRequirement(registry: seq<WritingStage>, P: Requirement -> bool) {
    forall k, j :: 0 <= k < |registry| && 0 <= j < |registry[k].requirements| ==> P(registry[k].requirements[j])
  }

  lemma {:induction false} RegistriesOnlyFirstUnlocked()
    ensures OnlyFirstUnlocked(ESSAY_STAGES)
    ensures OnlyFirstUnlocked(THESIS_STAGES)
  {
  }

  lemma {:induction false} RegistriesUniqueRequirementIds()
    ensures forall k :: 0 <= k < |ESSAY_STAGES| ==> UniqueIds(ESSAY_STAGES[k].requirements)
    ensures forall k :: 0 <= k < |THESIS_STAGES| ==> UniqueIds(THESIS_STAGES[k].requirements)
  {
  }

  lemma {:induction false} RegistriesKnownKinds()
    ensures EveryRequirement(ESSAY_STAGES, HasKnownKind)
    ensures EveryRequirement(THESIS_STAGES, HasKnownKind)
  {
  }

  lemma {:induction false} RegistriesBoundsOrdered()
    ensures EveryRequirement(ESSAY_STAGES, BoundsOrdered)
    ensures EveryRequirement(THESIS_STAGES, BoundsOrdered)
  {
  }

  lemma {:induction false} RegistriesHaveKeywords()
    ensures EveryRequirement(ESSAY_STAGES, HasKeywords)
    ensures EveryRequirement(THESIS_STAGES, HasKeywords)
  {
  }

  /** The first stage of each mode. */
  lemma {:induction false} FirstStages()
    ensures ESSAY_STAGES[0].id == "thesis_statement"
    ensures THESIS_STAGES[0].id == "research_proposal"
  {
  }

  /** `thesis_statement` declares two successors and `planning` one. */
  lemma {:induction false} DeclaredSuccessors()
    ensures ESSAY_STAGES[0].nextStages == ["planning", "introduction"]
    ensures ESSAY_STAGES[1].nextStages == ["body_paragraphs"]
    ensures THESIS_STAGES[0].nextStages == ["literature_review"]
  {
  }
}
