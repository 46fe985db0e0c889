/**
  The persistence layer's stage logic: the initial stage of a new project,
  the record written when a stage's content is saved (an update with a
  version counter and a one-level snapshot, or a first insert), the rule
  loop that stores a stage's passed and failed requirements, and the two
  lookup tables for stage titles and stage requirements.

  The rows read from and written to `writing_projects` and `stage_progress`
  are values here: a lookup's result is a parameter and a write is returned.
*/
module Queries {
  import opened Wrappers
  import opened Text
  import opened Stages
  import CheckRequirements

  datatype Mode = EssayMode | ThesisMode

  /** The `'essay' | 'thesis'` string of a mode. */
  function ModeName(m: Mode): string {
    match m
    case EssayMode => "essay"
    case ThesisMode => "thesis"
  }

  // ---------------------------------------------------------------------------
  // createWritingProject
  // ---------------------------------------------------------------------------

  /** The `writing_projects` row inserted for a new project. */
  datatype ProjectInsert = ProjectInsert(
    userId: string,
    title: string,
    mode: Mode,
    essayPrompt: Option<string>,
    thesisTopic: Option<string>,
    status: string,
    currentStageId: string)

  /** A new project is a draft that starts at the first stage of its mode's
      registry. */
  function CreateWritingProject(userId: string, title: string, mode: Mode,
                                essayPrompt: Option<string>, thesisTopic: Option<string>): (p: ProjectInsert)
    ensures p.userId == userId && p.title == title && p.mode == mode
    ensures p.essayPrompt == essayPrompt && p.thesisTopic == thesisTopic
    ensures p.status == "draft"
    ensures p.currentStageId == (if mode == EssayMode then ESSAY_STAGES[0].id else THESIS_STAGES[0].id)
  {
    ProjectInsert(userId, title, mode, essayPrompt, thesisTopic, "draft",
      if mode == EssayMode then "thesis_statement" else "research_proposal")
  }

  // ---------------------------------------------------------------------------
  // Stage rows
  // ---------------------------------------------------------------------------

  /** A `stage_progress` row, without its timestamps. `content` and
      `previousContent` may be null; `requirements` is the stored JSON list,
      possibly null. */
  datatype StageRow = StageRow(
    id: string,
    projectId: string,
    stageId: string,
    stageType: Mode,
    title: string,
    content: Option<string>,
    wordCount: int,
    characterCount: int,
    status: string,
    isUnlocked: bool,
    isCompleted: bool,
    requirements: Option<seq<Requirement>>,
    passedRequirements: seq<string>,
    failedRequirements: seq<string>,
    version: int,
    previousContent: Option<string>)

  const IN_PROGRESS: string := "in_progress"
  const COMPLETED: string := "completed"

  // ---------------------------------------------------------------------------
  // getStageTitle
  // ---------------------------------------------------------------------------

  /** The ten known stage titles. */
  const TITLES: map<string, string> := map[
    "thesis_statement" := "Thesis Statement",
    "research_proposal" := "Research Proposal",
    "planning" := "Essay Plan",
    "introduction" := "Introduction",
    "literature_review" := "Literature Review",
    "methodology" := "Methodology",
    "body_paragraphs" := "Body Paragraphs",
    "conclusion" := "Conclusion",
    "abstract" := "Abstract",
    "references" := "References"]

  /** A known id's title, else the id with its first `_` made a space, in
      upper case. */
  function GetStageTitle(stageId: string): string {
    if stageId in TITLES then TITLES[stageId] else ToUpper(ReplaceFirst(stageId, '_', ' '))
  }

  /** The title of an unknown id keeps its length; only the first `_` becomes a
      space, and every other character is upper-cased. */
  lemma {:induction false} UnknownTitle(stageId: string)
    requires stageId !in TITLES
    ensures var t := GetStageTitle(stageId);
      && |t| == |stageId|
      && forall k :: 0 <= k < |stageId| ==>
           t[k] == (if k == IndexOf(stageId, '_') then ' ' else UpperChar(stageId[k]))
  {
  }

  /** A second `_` survives: `"lit_rev_x"` becomes `"LIT REV_X"`. */
  lemma {:induction false} OnlyFirstUnderscoreReplaced()
    ensures GetStageTitle("lit_rev_x") == "LIT REV_X"
  {
    var s := "lit_rev_x";
    assert IndexOf(s, '_') == 3 by {
      assert s[0] != '_' && s[1] != '_' && s[2] != '_' && s[3] == '_';
    }
    assert s !in TITLES;
    UnknownTitle(s);
    var t := GetStageTitle(s);
    assert t[0] == 'L' && t[1] == 'I' && t[2] == 'T' && t[3] == ' ' && t[4] == 'R';
    assert t[5] == 'E' && t[6] == 'V' && t[7] == '_' && t[8] == 'X';
  }

  /** The titles agree with the stage registries. */
  lemma {:induction false} TitlesMatchRegistries()
    ensures forall k :: 0 <= k < |ESSAY_STAGES| ==> GetStageTitle(ESSAY_STAGES[k].id) == ESSAY_STAGES[k].title
    ensures forall k :: 0 <= k < |THESIS_STAGES| ==> GetStageTitle(THESIS_STAGES[k].id) == THESIS_STAGES[k].title
  {
  }

  // ---------------------------------------------------------------------------
  // getStageRequirements
  // ---------------------------------------------------------------------------

  /** The requirement table of the three stages it knows. */
  const REQUIREMENT_TABLE: map<string, seq<Requirement>> := map[
    "thesis_statement" := [
      Requirement("thesis_length", WORD_COUNT, Some(15), Some(40), None,
        "Thesis should be 15-40 words",
        "Thesis is too short or too long"),
      Requirement("thesis_arguable", CONTAINS_KEYWORDS, None, None,
        Some(["argu", "position", "claim", "assert", "because", "therefore"]),
        "Thesis must take a clear position",
        "Your thesis needs to make a clear, arguable claim")],
    "research_proposal" := [
      Requirement("proposal_length", WORD_COUNT, Some(200), None, None,
        "Proposal should be 200+ words",
        "Proposal needs more detail (minimum 200 words)"),
      Requirement("research_question", CONTAINS_KEYWORDS, None, None,
        Some(["what", "how", "why", "effect", "impact", "relationship", "influence"]),
        "Must contain a clear research question",
        "Your proposal needs a clear research question")],
    "planning" := [
      Requirement("plan_points", WORD_COUNT, Some(50), None, None,
        "Plan should outline at least 3 main points",
        "Your plan needs at least 3 well-developed points")]]

  /** A known stage's requirements, else none. */
  function GetStageRequirements(stageId: string): seq<Requirement> {
    if stageId in REQUIREMENT_TABLE then REQUIREMENT_TABLE[stageId] else []
  }

  /** Only three ids have requirements; every other id has none. */
  lemma {:induction false} RequirementsOfUnknownStage(stageId: string)
    ensures GetStageRequirements(stageId) != [] <==>
      stageId == "thesis_statement" || stageId == "research_proposal" || stageId == "planning"
  {
  }

  /** For the first stage of each mode the table has the registry's
      requirements (same ids, kinds, bounds and descriptions) with the
      registry's keyword list extended at its end. */
  lemma {:induction false} TableExtendsRegistry()
    ensures Extends(GetStageRequirements(ESSAY_STAGES[0].id), ESSAY_STAGES[0].requirements)
    ensures Extends(GetStageRequirements(THESIS_STAGES[0].id), THESIS_STAGES[0].requirements)
    ensures GetStageRequirements(ESSAY_STAGES[0].id)[1].requiredKeywords.value
         == ESSAY_STAGES[0].requirements[1].requiredKeywords.value + ["because", "therefore"]
    ensures GetStageRequirements(THESIS_STAGES[0].id)[1].requiredKeywords.value
         == THESIS_STAGES[0].requirements[1].requiredKeywords.value + ["influence"]
  {
  }

  /** `table` agrees with `registry` requirement by requirement on everything
      but the error message, except that a keyword list may be longer. */
  predicate Extends(table: seq<Requirement>, registry: seq<Requirement>) {
    && |table| == |registry|
    && forall k :: 0 <= k < |table| ==>
         && table[k].id == registry[k].id
         && table[k].kind == registry[k].kind
         && table[k].minValue == registry[k].minValue
         && table[k].maxValue == registry[k].maxValue
         && table[k].description == registry[k].description
         && (table[k].requiredKeywords.Some? <==> registry[k].requiredKeywords.Some?)
         && (registry[k].requiredKeywords.Some? ==>
               registry[k].requiredKeywords.value <= table[k].requiredKeywords.value)
  }

  /** The error messages are not the registry's: every one of the four is
      worded differently (e.g. without the closing period). */
  lemma {:induction false} ErrorMessagesDiffer()
    ensures forall k :: 0 <= k < |ESSAY_STAGES[0].requirements| ==>
      GetStageRequirements(ESSAY_STAGES[0].id)[k].errorMessage != ESSAY_STAGES[0].requirements[k].errorMessage
    ensures forall k :: 0 <= k < |THESIS_STAGES[0].requirements| ==>
      GetStageRequirements(THESIS_STAGES[0].id)[k].errorMessage != THESIS_STAGES[0].requirements[k].errorMessage
  {
  }

  /** The planning requirement has a different id here than in the registry. */
  lemma {:induction false} PlanningIdDiffers()
    ensures ESSAY_STAGES[1].id == "planning"
    ensures GetStageRequirements("planning")[0].id == "plan_points"
    ensures ESSAY_STAGES[1].requirements[0].id == "plan_min_points"
  {
  }

  // ---------------------------------------------------------------------------
  // updateStageContent
  // ---------------------------------------------------------------------------

  /** The write a save performs: an update of the existing row or an insert. */
  datatype StageWrite =
    | Update(rowId: string, content: string, wordCount: int, characterCount: int,
             version: int, previousContent: Option<string>, status: string)
    | Insert(projectId: string, stageId: string, stageType: Mode, title: string,
             content: string, wordCount: int, characterCount: int, status: string,
             isUnlocked: bool, requirements: seq<Requirement>, version: int)

  /** The write for saving `content`, given the row the lookup found (if any). */
  function UpdateStageContent(existing: Option<StageRow>, projectId: string, stageId: string,
                              content: string, stageType: Mode): StageWrite {
    var wordCount, characterCount := WordCount(content), Utf16Length(content);
    if existing.Some? then
      var row := existing.value;
      Update(row.id, content, wordCount, characterCount, row.version + 1, row.content, IN_PROGRESS)
    else
      Insert(projectId, stageId, stageType, GetStageTitle(stageId), content, wordCount, characterCount,
             IN_PROGRESS, true, GetStageRequirements(stageId), 1)
  }

  /** The row after an update: the written columns change, the rest stay. */
  function ApplyUpdate(row: StageRow, w: StageWrite): (r: StageRow)
    requires w.Update?
    ensures r.id == row.id && r.projectId == row.projectId && r.stageId == row.stageId
    ensures r.isUnlocked == row.isUnlocked && r.isCompleted == row.isCompleted
    ensures r.requirements == row.requirements
    ensures r.passedRequirements == row.passedRequirements && r.failedRequirements == row.failedRequirements
  {
    row.(content := Some(w.content), wordCount := w.wordCount, characterCount := w.characterCount,
         version := w.version, previousContent := w.previousContent, status := w.status)
  }

  /** Saving over an existing row updates that row: the version goes up by
      one, the old content becomes the previous content, the status is
      `in_progress`, and the counts are those of the new content. */
  lemma {:induction false} SaveExisting(row: StageRow, projectId: string, stageId: string, content: string, stageType: Mode)
    ensures var w := UpdateStageContent(Some(row), projectId, stageId, content, stageType);
      && w.Update? && w.rowId == row.id
      && var r := ApplyUpdate(row, w);
      && r.version == row.version + 1
      && r.previousContent == row.content
      && r.content == Some(content)
      && r.status == IN_PROGRESS
      && r.wordCount == |SplitOnSpaces(content)| >= 1
      && r.characterCount == Utf16Length(content)
  {
  }

  /** The first save inserts version 1 of an unlocked, in-progress row with
      the table's title and requirements. */
  lemma {:induction false} SaveNew(projectId: string, stageId: string, content: string, stageType: Mode)
    ensures var w := UpdateStageContent(None, projectId, stageId, content, stageType);
      && w.Insert?
      && w.projectId == projectId && w.stageId == stageId && w.stageType == stageType
      && w.version == 1 && w.isUnlocked && w.status == IN_PROGRESS
      && w.title == GetStageTitle(stageId)
      && w.requirements == GetStageRequirements(stageId)
      && w.content == content
      && w.wordCount == |SplitOnSpaces(content)| >= 1
      && w.characterCount == Utf16Length(content)
  {
  }

  /** The snapshot is one level deep: after two saves the previous content is
      the first save's content, and what was there before is gone; the
      version has gone up by two and the evaluation columns are untouched. */
  lemma {:induction false} TwoSaves(row: StageRow, projectId: string, stageId: string, a: string, b: string, stageType: Mode)
    ensures var r1 := ApplyUpdate(row, UpdateStageContent(Some(row), projectId, stageId, a, stageType));
      var r2 := ApplyUpdate(r1, UpdateStageContent(Some(r1), projectId, stageId, b, stageType));
      && r2.version == row.version + 2
      && r2.content == Some(b)
      && r2.previousContent == Some(a)
      && r2.isCompleted == row.isCompleted
      && r2.passedRequirements == row.passedRequirements
      && r2.failedRequirements == row.failedRequirements
  {
  }

  // ---------------------------------------------------------------------------
  // evaluateStageRequirements
  // ---------------------------------------------------------------------------

  /** The rule of this loop: `wordCount >= req.minValue` is false when the
      minimum is absent, and `!req.maxValue` is true when the maximum is
      absent or 0. */
  predicate Meets(r: Requirement, wordCount: int) {
    && r.minValue.Some? && wordCount >= r.minValue.value
    && (r.maxValue.None? || r.maxValue.value == 0 || wordCount <= r.maxValue.value)
  }

  /** The ids pushed onto the passed list: passing `word_count` requirements. */
  function PassedIds(reqs: seq<Requirement>, wordCount: int): seq<string> {
    if reqs == [] then []
    else
      var r := reqs[|reqs| - 1];
      PassedIds(reqs[..|reqs| - 1], wordCount)
      + (if r.kind == WORD_COUNT && Meets(r, wordCount) then [r.id] else [])
  }

  /** The ids pushed onto the failed list: failing `word_count` requirements. */
  function FailedIds(reqs: seq<Requirement>, wordCount: int): seq<string> {
    if reqs == [] then []
    else
      var r := reqs[|reqs| - 1];
      FailedIds(reqs[..|reqs| - 1], wordCount)
      + (if r.kind == WORD_COUNT && !Meets(r, wordCount) then [r.id] else [])
  }

  /** What an evaluation returns; the row is the stage as the update leaves it. */
  datatype Evaluation = Evaluation(row: StageRow, passed: seq<string>, failed: seq<string>, isCompleted: bool)

  /** `stage.requirements || []`. */
  function StoredRequirements(stage: StageRow): seq<Requirement> {
    if stage.requirements.Some? then stage.requirements.value else []
  }

  /** The evaluation of a found stage, stated as a function. */
  function Evaluated(stage: StageRow, content: string): Evaluation {
    var reqs, wc := StoredRequirements(stage), WordCount(content);
    var passed, failed := PassedIds(reqs, wc), FailedIds(reqs, wc);
    var done := failed == [];
    Evaluation(
      stage.(passedRequirements := passed, failedRequirements := failed, isCompleted := done,
             status := if done then COMPLETED else IN_PROGRESS),
      passed, failed, done)
  }

  lemma {:induction false} Step(reqs: seq<Requirement>, i: nat, wordCount: int)
    requires i < |reqs|
    ensures var r := reqs[i];
      && PassedIds(reqs[..i + 1], wordCount)
         == PassedIds(reqs[..i], wordCount) + (if r.kind == WORD_COUNT && Meets(r, wordCount) then [r.id] else [])
      && FailedIds(reqs[..i + 1], wordCount)
         == FailedIds(reqs[..i], wordCount) + (if r.kind == WORD_COUNT && !Meets(r, wordCount) then [r.id] else [])
  {
    assert reqs[..i + 1][..i] == reqs[..i];
  }

  /** The `forEach`: only `word_count` requirements are pushed anywhere. */
  method Classify(requirements: seq<Requirement>, content: string)
    returns (passedRequirements: seq<string>, failedRequirements: seq<string>)
    ensures passedRequirements == PassedIds(requirements, WordCount(content))
    ensures failedRequirements == FailedIds(requirements, WordCount(content))
  {
    passedRequirements, failedRequirements := [], [];
    for i := 0 to |requirements|
      invariant passedRequirements == PassedIds(requirements[..i], WordCount(content))
      invariant failedRequirements == FailedIds(requirements[..i], WordCount(content))
    {
      var req := requirements[i];
      Step(requirements, i, WordCount(content));
      if req.kind == WORD_COUNT {
        var wordCount := WordCount(content);
        if req.minValue.Some? && wordCount >= req.minValue.value
           && (req.maxValue.None? || req.maxValue.value == 0 || wordCount <= req.maxValue.value) {
          passedRequirements := passedRequirements + [req.id];
        } else {
          failedRequirements := failedRequirements + [req.id];
        }
      }
    }
    assert requirements[..|requirements|] == requirements;
  }

  /** `evaluateStageRequirements`, given the row the lookup found (if any). */
  method EvaluateStageRequirements(stage: Option<StageRow>, content: string)
    returns (result: Result<Evaluation, string>)
    ensures stage.None? ==> result == Err("Stage not found")
    ensures stage.Some? ==> result == Ok(Evaluated(stage.value, content))
  {
    if stage.None? {
      return Err("Stage not found");
    }
    var requirements := if stage.value.requirements.Some? then stage.value.requirements.value else [];
    var passedRequirements, failedRequirements := Classify(requirements, content);
    var done := |failedRequirements| == 0;
    var row := stage.value.(
      passedRequirements := passedRequirements,
      failedRequirements := failedRequirements,
      isCompleted := done,
      status := if done then COMPLETED else IN_PROGRESS);
    result := Ok(Evaluation(row, passedRequirements, failedRequirements, done));
  }

  // ---------------------------------------------------------------------------
  // Properties of the evaluation
  // ---------------------------------------------------------------------------

  /** An id is passed exactly when some `word_count` requirement with that id
      meets the rule. */
  lemma {:induction false} PassedIdsMembers(reqs: seq<Requirement>, wordCount: int, id: string)
    ensures id in PassedIds(reqs, wordCount) <==>
      exists k :: 0 <= k < |reqs| && reqs[k].id == id && reqs[k].kind == WORD_COUNT && Meets(reqs[k], wordCount)
  {
    if reqs != [] {
      var n := |reqs| - 1;
      var init := reqs[..n];
      var r := reqs[n];
      assert PassedIds(reqs, wordCount) == PassedIds(init, wordCount)
        + (if r.kind == WORD_COUNT && Meets(r, wordCount) then [r.id] else []);
      PassedIdsMembers(init, wordCount, id);
      if exists k :: 0 <= k < |reqs| && reqs[k].id == id && reqs[k].kind == WORD_COUNT && Meets(reqs[k], wordCount) {
        var k :| 0 <= k < |reqs| && reqs[k].id == id && reqs[k].kind == WORD_COUNT && Meets(reqs[k], wordCount);
        if k < n { assert init[k] == reqs[k]; }
      }
      if exists k :: 0 <= k < |init| && init[k].id == id && init[k].kind == WORD_COUNT && Meets(init[k], wordCount) {
        var k :| 0 <= k < |init| && init[k].id == id && init[k].kind == WORD_COUNT && Meets(init[k], wordCount);
        assert reqs[k] == init[k];
      }
    }
  }

  /** An id is failed exactly when some `word_count` requirement with that id
      misses the rule. */
  lemma {:induction false} FailedIdsMembers(reqs: seq<Requirement>, wordCount: int, id: string)
    ensures id in FailedIds(reqs, wordCount) <==>
      exists k :: 0 <= k < |reqs| && reqs[k].id == id && reqs[k].kind == WORD_COUNT && !Meets(reqs[k], wordCount)
  {
    if reqs != [] {
      var n := |reqs| - 1;
      var init := reqs[..n];
      var r := reqs[n];
      assert FailedIds(reqs, wordCount) == FailedIds(init, wordCount)
        + (if r.kind == WORD_COUNT && !Meets(r, wordCount) then [r.id] else []);
      FailedIdsMembers(init, wordCount, id);
      if exists k :: 0 <= k < |reqs| && reqs[k].id == id && reqs[k].kind == WORD_COUNT && !Meets(reqs[k], wordCount) {
        var k :| 0 <= k < |reqs| && reqs[k].id == id && reqs[k].kind == WORD_COUNT && !Meets(reqs[k], wordCount);
        if k < n { assert init[k] == reqs[k]; }
      }
      if exists k :: 0 <= k < |init| && init[k].id == id && init[k].kind == WORD_COUNT && !Meets(init[k], wordCount) {
        var k :| 0 <= k < |init| && init[k].id == id && init[k].kind == WORD_COUNT && !Meets(init[k], wordCount);
        assert reqs[k] == init[k];
      }
    }
  }

  /** The two lists hold exactly the `word_count` requirements' ids. */
  lemma {:induction false} OnlyWordCountClassified(reqs: seq<Requirement>, wordCount: int)
    ensures |PassedIds(reqs, wordCount)| + |FailedIds(reqs, wordCount)|
         == |WordCountIds(reqs)|
  {
    if reqs != [] {
      var n := |reqs| - 1;
      OnlyWordCountClassified(reqs[..n], wordCount);
    }
  }

  /** The ids of the `word_count` requirements, in order. */
  function WordCountIds(reqs: seq<Requirement>): seq<string> {
    if reqs == [] then []
    else
      var r := reqs[|reqs| - 1];
      WordCountIds(reqs[..|reqs| - 1]) + (if r.kind == WORD_COUNT then [r.id] else [])
  }

  /** A requirement of another kind, whose id no `word_count` requirement
      shares, is in neither list. */
  lemma {:induction false} OtherKindsUnclassified(reqs: seq<Requirement>, wordCount: int, k: nat)
    requires k < |reqs| && reqs[k].kind != WORD_COUNT
    requires forall j :: 0 <= j < |reqs| && reqs[j].kind == WORD_COUNT ==> reqs[j].id != reqs[k].id
    ensures reqs[k].id !in PassedIds(reqs, wordCount)
    ensures reqs[k].id !in FailedIds(reqs, wordCount)
  {
    PassedIdsMembers(reqs, wordCount, reqs[k].id);
    FailedIdsMembers(reqs, wordCount, reqs[k].id);
  }

  /** With distinct ids, a `word_count` requirement is passed iff it meets the
      rule and failed iff it does not. */
  lemma {:induction false} WordCountOutcome(reqs: seq<Requirement>, wordCount: int, k: nat)
    requires k < |reqs| && reqs[k].kind == WORD_COUNT
    requires UniqueIds(reqs)
    ensures reqs[k].id in PassedIds(reqs, wordCount) <==> Meets(reqs[k], wordCount)
    ensures reqs[k].id in FailedIds(reqs, wordCount) <==> !Meets(reqs[k], wordCount)
  {
    PassedIdsMembers(reqs, wordCount, reqs[k].id);
    FailedIdsMembers(reqs, wordCount, reqs[k].id);
  }

  /** Without a minimum a `word_count` requirement never passes here. */
  lemma {:induction false} MissingMinimumNeverPasses(r: Requirement, wordCount: int)
    requires r.minValue.None?
    ensures !Meets(r, wordCount)
  {
  }

  /** The stage is completed, with status `completed`, iff the failed list is
      empty, i.e. iff every `word_count` requirement meets the rule;
      otherwise its status is `in_progress`. Only the four evaluation columns
      change. */
  lemma {:induction false} Completion(stage: StageRow, content: string)
    ensures var e, reqs, wc := Evaluated(stage, content), StoredRequirements(stage), WordCount(content);
      && (e.isCompleted <==> e.failed == [])
      && (e.isCompleted <==>
            forall k :: 0 <= k < |reqs| && reqs[k].kind == WORD_COUNT ==> Meets(reqs[k], wc))
      && e.row.isCompleted == e.isCompleted
      && e.row.status == (if e.isCompleted then COMPLETED else IN_PROGRESS)
      && e.row.passedRequirements == e.passed && e.row.failedRequirements == e.failed
      && e.row == stage.(passedRequirements := e.passed, failedRequirements := e.failed,
                         isCompleted := e.isCompleted, status := e.row.status)
  {
    var reqs, wc := StoredRequirements(stage), WordCount(content);
    var failed := FailedIds(reqs, wc);
    if failed != [] {
      FailedIdsMembers(reqs, wc, failed[0]);
    }
    forall k | 0 <= k < |reqs| && reqs[k].kind == WORD_COUNT && !Meets(reqs[k], wc)
      ensures failed != []
    {
      FailedIdsMembers(reqs, wc, reqs[k].id);
    }
  }

  /** A stage without stored requirements is completed by any content. */
  lemma {:induction false} NoRequirementsCompletes(stage: StageRow, content: string)
    requires stage.requirements.None? || stage.requirements == Some([])
    ensures Evaluated(stage, content).isCompleted
    ensures Evaluated(stage, content).row.status == COMPLETED
  {
  }

  // ---------------------------------------------------------------------------
  // Against the server's evaluator
  // ---------------------------------------------------------------------------

  /** With a minimum present, this rule and the server's agree on a
      `word_count` requirement. */
  lemma {:induction false} AgreesWithServer(r: Requirement, content: string, wordCount: int)
    requires r.kind == WORD_COUNT && r.minValue.Some?
    ensures Meets(r, wordCount) == CheckRequirements.Evaluate(r, content, wordCount).passed
  {
    CheckRequirements.EvaluateRules(r, content, wordCount);
  }

  /** Without a minimum the server reads the minimum as 0 and may pass what
      fails here. */
  lemma {:induction false} DiffersWithoutMinimum(r: Requirement, content: string, wordCount: int)
    requires r.kind == WORD_COUNT && r.minValue.None? && r.maxValue.None? && wordCount >= 0
    ensures !Meets(r, wordCount)
    ensures CheckRequirements.Evaluate(r, content, wordCount).passed
  {
    CheckRequirements.EvaluateRules(r, content, wordCount);
  }
}
