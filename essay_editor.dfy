/**
  The essay editor: the local list of stage records, the current stage, and
  the text being written. Saving, checking requirements and unlocking the next
  stage change that state.

  Each click handler reads the `stages` list of the render it was created
  in. Every `setStages` it calls, even after awaiting, replaces the list with
  a value computed from that same list, so the last such call wins.
  `useEffect` reloads the text from the current record whenever that record
  is replaced or the current stage changes.

  The functions `AfterSave`, `AfterCheck`, … give each handler's effect as a
  function of the state. The class `Editor` runs the handlers step by step
  and is proved to agree with them. The lemmas state what the handlers
  promise, including two places where the captured list loses an update.
*/
module EssayEditor {
  import opened Wrappers
  import opened Text
  import Stages
  import CheckRequirements
  import Queries
  import StageProgress

  type StageInfo = StageProgress.StageInfo
  type Requirement = Stages.Requirement

  /** The editor's own ordered stage list. */
  const ESSAY_STAGES: seq<StageInfo> := [
    StageProgress.StageInfo("thesis_statement", "Thesis Statement", "Create a clear, arguable thesis"),
    StageProgress.StageInfo("planning", "Essay Plan", "Outline your main arguments and evidence"),
    StageProgress.StageInfo("introduction", "Introduction", "Introduce your topic and thesis"),
    StageProgress.StageInfo("body_paragraphs", "Body Paragraphs", "Develop your arguments with evidence"),
    StageProgress.StageInfo("conclusion", "Conclusion", "Summarize and show significance")]

  /** `findIndex` on a stage list: the first position with that id, or -1. */
  function FindIndex(infos: seq<StageInfo>, id: string): (i: int)
    ensures -1 <= i < |infos|
    ensures i >= 0 ==> infos[i].id == id && forall k :: 0 <= k < i ==> infos[k].id != id
    ensures i == -1 ==> forall k :: 0 <= k < |infos| ==> infos[k].id != id
  {
    if infos == [] then -1
    else if infos[0].id == id then 0
    else
      var j := FindIndex(infos[1..], id);
      if j == -1 then -1 else j + 1
  }

  /** `currentStageIndex`. */
  function StageIndex(id: string): int {
    FindIndex(ESSAY_STAGES, id)
  }

  /** The stage the editor unlocks after `id`: always the next one in its list
      (`ESSAY_STAGES[currentStageIndex + 1]`), none after the last. */
  function NextStageId(id: string): Option<string> {
    var idx := StageIndex(id);
    if idx < |ESSAY_STAGES| - 1 then Some(ESSAY_STAGES[idx + 1].id) else None
  }

  // ---------------------------------------------------------------------------
  // getStageRequirements (the editor's table)
  // ---------------------------------------------------------------------------

  function WordCountRequirement(id: string, min: int, max: Option<int>, description: string, errorMessage: string): Requirement {
    Stages.Requirement(id, Stages.WORD_COUNT, Some(min), max, None, description, errorMessage)
  }

  const EDITOR_REQUIREMENTS: map<string, seq<Requirement>> := map[
    "thesis_statement" := [
      WordCountRequirement("thesis_length", 15, Some(40),
        "Thesis should be 15-40 words", "Thesis is too short or too long"),
      Stages.Requirement("thesis_arguable", Stages.CONTAINS_KEYWORDS, None, None,
        Some(["argu", "position", "claim", "assert", "because", "therefore"]),
        "Thesis must take a clear position", "Your thesis needs to make a clear, arguable claim")],
    "planning" := [
      WordCountRequirement("plan_length", 50, None,
        "Plan should outline at least 3 main points", "Your plan needs more detail (minimum 50 words)")],
    "introduction" := [
      WordCountRequirement("intro_length", 80, Some(150),
        "Introduction should be 80-150 words", "Introduction is too short or too long")],
    "body_paragraphs" := [
      WordCountRequirement("body_length", 300, None,
        "Body paragraphs should be at least 300 words", "Body paragraphs need more development (minimum 300 words)")],
    "conclusion" := [
      WordCountRequirement("conclusion_length", 80, Some(150),
        "Conclusion should be 80-150 words", "Conclusion is too short or too long")]]

  /** A known stage's requirements, else none. */
  function GetStageRequirements(stageId: string): seq<Requirement> {
    if stageId in EDITOR_REQUIREMENTS then EDITOR_REQUIREMENTS[stageId] else []
  }

  // ---------------------------------------------------------------------------
  // Stage records and the editor state
  // ---------------------------------------------------------------------------

  /** A local stage record. */
  datatype Stage = Stage(
    id: string,
    projectId: string,
    stageId: string,
    content: Option<string>,
    status: string,
    isUnlocked: bool,
    isCompleted: bool,
    requirements: Option<seq<Requirement>>,
    passedRequirements: seq<string>,
    failedRequirements: seq<string>,
    aiFeedback: Option<string>)

  /** The component state that the handlers change. */
  datatype EditorState = EditorState(
    projectId: string,
    currentStageId: string,
    stages: seq<Stage>,
    content: string,
    wordCount: int)

  /** The position of the first record of `stageId`, or `|stages|`. */
  function FindRecord(stages: seq<Stage>, stageId: string): (i: nat)
    ensures i <= |stages|
    ensures forall k :: 0 <= k < i ==> stages[k].stageId != stageId
    ensures i < |stages| ==> stages[i].stageId == stageId
  {
    if stages == [] then 0
    else if stages[0].stageId == stageId then 0
    else 1 + FindRecord(stages[1..], stageId)
  }

  /** `stages.find(s => s.stage_id === stageId)`. */
  function Find(stages: seq<Stage>, stageId: string): Option<Stage> {
    var i := FindRecord(stages, stageId);
    if i < |stages| then Some(stages[i]) else None
  }

  /** `currentStage`. */
  function CurrentStage(st: EditorState): Option<Stage> {
    Find(st.stages, st.currentStageId)
  }

  /** At most one record per stage. */
  predicate UniqueStageIds(stages: seq<Stage>) {
    forall i, j :: 0 <= i < j < |stages| ==> stages[i].stageId != stages[j].stageId
  }

  /** The change a `stages.map(...)` makes to the records of the current stage. */
  datatype Change = SaveChange(content: string) | CheckChange(result: CheckRequirements.CheckResult)

  /** `content ? 'in_progress' : 'unlocked'`. */
  function SaveStatus(content: string): string {
    if content != "" then "in_progress" else "unlocked"
  }

  function Apply(s: Stage, c: Change): Stage {
    match c
    case SaveChange(text) => s.(content := Some(text), status := SaveStatus(text))
    case CheckChange(r) =>
      s.(passedRequirements := r.passedRequirements,
         failedRequirements := r.failedRequirements,
         isCompleted := r.isCompleted,
         aiFeedback := Some(CheckRequirements.OverallText(r.feedback)),
         status := if r.isCompleted then "completed" else "in_progress")
  }

  /** `stages.map(s => s.stage_id === stageId ? change(s) : s)`. */
  function UpdateStage(stages: seq<Stage>, stageId: string, c: Change): (r: seq<Stage>)
    ensures |r| == |stages|
    ensures forall k :: 0 <= k < |stages| ==>
      r[k] == (if stages[k].stageId == stageId then Apply(stages[k], c) else stages[k])
  {
    seq(|stages|, k requires 0 <= k < |stages| =>
      if stages[k].stageId == stageId then Apply(stages[k], c) else stages[k])
  }

  /** The record `unlockNextStage` adds for a stage that has none. */
  function NewRecord(projectId: string, nextStageId: string): Stage {
    Stage("new-" + nextStageId, projectId, nextStageId, None, "unlocked", true, false,
          Some(GetStageRequirements(nextStageId)), [], [], None)
  }

  /** The `stageStatus` object handed to the sidebar (`stages.reduce`): a later
      record of a stage overrides an earlier one. */
  function StatusOf(stages: seq<Stage>): StageProgress.StageStatus {
    if stages == [] then map[]
    else
      var s := stages[|stages| - 1];
      StatusOf(stages[..|stages| - 1])[s.stageId := StageProgress.StatusEntry(s.isUnlocked, s.isCompleted)]
  }

  // ---------------------------------------------------------------------------
  // The handlers as functions of the state
  // ---------------------------------------------------------------------------

  /** The `useEffect` on `currentStage`: load its text and count. */
  function Synced(st: EditorState): EditorState {
    var current := CurrentStage(st);
    if current.None? then st
    else
      var text := if current.value.content.Some? then current.value.content.value else "";
      var count := if current.value.content.Some? then WordCount(current.value.content.value) else 0;
      st.(content := text, wordCount := count)
  }

  /** The textarea's `onChange`. */
  function AfterEdit(st: EditorState, text: string): EditorState {
    st.(content := text, wordCount := WordCount(text))
  }

  /** `handleSave`: the records of the current stage take the text and the
      status `in_progress`, or `unlocked` for an empty text. */
  function AfterSave(st: EditorState): EditorState {
    if CurrentStage(st).None? then st
    else Synced(st.(stages := UpdateStage(st.stages, st.currentStageId, SaveChange(st.content))))
  }

  /** `unlockNextStage(nextStageId)` in a render whose list was `base`: a new
      record is appended to `base` only when `base` has none for that stage;
      then the current stage moves. */
  function AfterUnlock(st: EditorState, base: seq<Stage>, nextStageId: string): EditorState {
    (if Find(base, nextStageId).None? then st.(stages := base + [NewRecord(st.projectId, nextStageId)]) else st)
      .(currentStageId := nextStageId)
  }

  /** The guard of `handleCheckRequirements`. */
  predicate CheckAllowed(st: EditorState) {
    CurrentStage(st).Some? && !IsBlank(st.content)
  }

  /** The body the editor posts: no `wordLimit`, no stage index, and
      `isLastStage` absent. */
  function Request(st: EditorState, current: Stage): CheckRequirements.CheckRequest {
    CheckRequirements.CheckRequest(st.projectId, st.currentStageId, Some(st.content),
                                   current.requirements, None, None, false)
  }

  /** The server's answer to that body. */
  function ServerResult(st: EditorState): CheckRequirements.CheckResult
    requires CheckAllowed(st)
  {
    CheckRequirements.Check(Request(st, CurrentStage(st).value)).result
  }

  /** What happens once the answer `r` is in: the records of `stageId` in
      `base` take the results; if the stage completed and has a successor,
      the successor is unlocked, starting from `base` or, when
      `unlockFromChecked`, from the list the results were written into; then
      the text is reloaded. */
  function AfterAnswer(st: EditorState, base: seq<Stage>, stageId: string,
                       r: CheckRequirements.CheckResult, unlockFromChecked: bool): EditorState
  {
    var checked := st.(stages := UpdateStage(base, stageId, CheckChange(r)));
    var next := NextStageId(stageId);
    var unlockBase := if unlockFromChecked then checked.stages else base;
    var unlocked := if r.isCompleted && next.Some? then AfterUnlock(checked, unlockBase, next.value) else checked;
    Synced(unlocked)
  }

  /** `handleCheckRequirements` with the answer `r`, as written: the save,
      the check's update and the unlock all start from the list of the render
      the click happened in. */
  function AfterCheckWith(st: EditorState, r: CheckRequirements.CheckResult): EditorState
    requires CheckAllowed(st)
  {
    AfterAnswer(AfterSave(st), st.stages, st.currentStageId, r, false)
  }

  function AfterCheck(st: EditorState): EditorState {
    if CheckAllowed(st) then AfterCheckWith(st, ServerResult(st)) else st
  }

  /** The same handler with each update applied to the list the previous one
      left (`setStages(prev => ...)`). */
  function AfterCheckSequentialWith(st: EditorState, r: CheckRequirements.CheckResult): EditorState
    requires CheckAllowed(st)
  {
    var saved := AfterSave(st);
    AfterAnswer(saved, saved.stages, st.currentStageId, r, true)
  }

  function AfterCheckSequential(st: EditorState): EditorState {
    if CheckAllowed(st) then AfterCheckSequentialWith(st, ServerResult(st)) else st
  }

  /** The "Next Stage" button is shown: the current record is unlocked and
      completed, and a later stage exists. */
  predicate CanProceed(st: EditorState) {
    CurrentStage(st).Some? && CurrentStage(st).value.isUnlocked && CurrentStage(st).value.isCompleted
    && NextStageId(st.currentStageId).Some?
  }

  function AfterProceed(st: EditorState): EditorState
    requires CanProceed(st)
  {
    Synced(AfterUnlock(st, st.stages, NextStageId(st.currentStageId).value))
  }

  /** A click on the sidebar entry at `index`. */
  function AfterSelect(st: EditorState, index: nat): EditorState
    requires index < |ESSAY_STAGES|
  {
    var selected := StageProgress.OnClick(ESSAY_STAGES, StatusOf(st.stages), index);
    if selected.Some? && selected.value != st.currentStageId then Synced(st.(currentStageId := selected.value))
    else st
  }

  /** The "Go to Previous Stage" button is shown: the locked view, past the
      first stage. */
  predicate CanGoBack(st: EditorState) {
    !(CurrentStage(st).Some? && CurrentStage(st).value.isUnlocked) && StageIndex(st.currentStageId) > 0
  }

  function AfterGoBack(st: EditorState): EditorState
    requires CanGoBack(st)
  {
    Synced(st.(currentStageId := ESSAY_STAGES[StageIndex(st.currentStageId) - 1].id))
  }

  /** The textarea is editable, and the draft button enabled: an unlocked,
      uncompleted current record. */
  predicate CanEdit(st: EditorState) {
    CurrentStage(st).Some? && CurrentStage(st).value.isUnlocked && !CurrentStage(st).value.isCompleted
  }

  /** The "Check Requirements" button is enabled. */
  predicate CanCheck(st: EditorState) {
    CanEdit(st) && !IsBlank(st.content)
  }

  // ---------------------------------------------------------------------------
  // The component
  // ---------------------------------------------------------------------------

  class Editor {
    const projectId: string
    var currentStageId: string
    var stages: seq<Stage>
    var content: string
    var wordCount: int

    function State(): EditorState
      reads this
    {
      EditorState(projectId, currentStageId, stages, content, wordCount)
    }

    /** Mounting with the project's current stage and its loaded records. */
    constructor(projectId: string, currentStageId: string, initialStages: seq<Stage>)
      ensures State() == Synced(EditorState(projectId, currentStageId, initialStages, "", 0))
    {
      this.projectId := projectId;
      this.currentStageId := currentStageId;
      this.stages := initialStages;
      this.content := "";
      this.wordCount := 0;
      new;
      SyncEffect();
    }

    method SyncEffect()
      modifies this
      ensures State() == Synced(old(State()))
    {
      var currentStage := Find(stages, currentStageId);
      if currentStage.Some? {
        content := if currentStage.value.content.Some? then currentStage.value.content.value else "";
        wordCount := if currentStage.value.content.Some? then WordCount(currentStage.value.content.value) else 0;
      }
    }

    method Edit(text: string)
      requires CanEdit(State())
      modifies this
      ensures State() == AfterEdit(old(State()), text)
    {
      content := text;
      wordCount := WordCount(text);
    }

    method HandleSave()
      modifies this
      ensures State() == AfterSave(old(State()))
    {
      var currentStage := Find(stages, currentStageId);
      if currentStage.None? {
        return;
      }
      stages := UpdateStage(stages, currentStageId, SaveChange(content));
      SyncEffect();
    }

    /** `unlockNextStage` as called from a render whose list was `base`. */
    method UnlockNextStage(base: seq<Stage>, nextStageId: string)
      modifies this
      ensures State() == AfterUnlock(old(State()), base, nextStageId)
    {
      var existingStage := Find(base, nextStageId);
      if existingStage.None? {
        stages := base + [NewRecord(projectId, nextStageId)];
      }
      currentStageId := nextStageId;
    }

    /** The part of `handleCheckRequirements` after the answer `data` is in.
        As written, the results go into `base`, the click's list, and the
        unlock starts from it too. */
    method RecordAnswer(base: seq<Stage>, stageId: string, data: CheckRequirements.CheckResult,
                        unlockFromChecked: bool)
      modifies this
      ensures State() == AfterAnswer(old(State()), base, stageId, data, unlockFromChecked)
    {
      stages := UpdateStage(base, stageId, CheckChange(data));
      var currentStageIndex := StageIndex(stageId);
      if data.isCompleted && currentStageIndex < |ESSAY_STAGES| - 1 {
        UnlockNextStage(if unlockFromChecked then stages else base, ESSAY_STAGES[currentStageIndex + 1].id);
      }
      SyncEffect();
    }

    /** `handleCheckRequirements`, as written. */
    method HandleCheckRequirements()
      modifies this
      ensures State() == AfterCheck(old(State()))
    {
      var snapshot, stageId, text := stages, currentStageId, content;
      var currentStage := Find(snapshot, stageId);
      if currentStage.None? || IsBlank(text) {
        return;
      }
      var st := State();
      CheckAlwaysAnswered(st);
      HandleSave();
      var response := CheckRequirements.Post(Request(st, currentStage.value));
      RecordAnswer(snapshot, stageId, response.result, false);
    }

    /** `handleCheckRequirements` with each list update applied to the list the
        previous update left. */
    method HandleCheckRequirementsSequential()
      modifies this
      ensures State() == AfterCheckSequential(old(State()))
    {
      var stageId, text := currentStageId, content;
      var currentStage := Find(stages, stageId);
      if currentStage.None? || IsBlank(text) {
        return;
      }
      var st := State();
      CheckAlwaysAnswered(st);
      HandleSave();
      var response := CheckRequirements.Post(Request(st, currentStage.value));
      RecordAnswer(stages, stageId, response.result, true);
    }

    /** The "Next Stage" button. */
    method ProceedToNextStage()
      requires CanProceed(State())
      modifies this
      ensures State() == AfterProceed(old(State()))
    {
      var currentStageIndex := StageIndex(currentStageId);
      UnlockNextStage(stages, ESSAY_STAGES[currentStageIndex + 1].id);
      SyncEffect();
    }

    /** A click on the sidebar entry at `index`; choosing the current stage
        again re-renders nothing. */
    method SelectStage(index: nat)
      requires index < |ESSAY_STAGES|
      modifies this
      ensures State() == AfterSelect(old(State()), index)
    {
      var isAccessible := StageProgress.IsStageAccessible(ESSAY_STAGES, StatusOf(stages), index);
      if isAccessible && ESSAY_STAGES[index].id != currentStageId {
        currentStageId := ESSAY_STAGES[index].id;
        SyncEffect();
      }
    }

    /** The "Go to Previous Stage" button. */
    method GoToPreviousStage()
      requires CanGoBack(State())
      modifies this
      ensures State() == AfterGoBack(old(State()))
    {
      var currentStageIndex := StageIndex(currentStageId);
      currentStageId := ESSAY_STAGES[currentStageIndex - 1].id;
      SyncEffect();
    }
  }

  // ---------------------------------------------------------------------------
  // Record lookups
  // ---------------------------------------------------------------------------

  /** With one record per stage, a record is what a lookup of its stage finds. */
  lemma {:induction false} FindUnique(stages: seq<Stage>, k: nat)
    requires UniqueStageIds(stages) && k < |stages|
    ensures Find(stages, stages[k].stageId) == Some(stages[k])
  {
    var i := FindRecord(stages, stages[k].stageId);
    assert i <= k;
  }

  /** A lookup in an updated list finds the updated record. */
  lemma {:induction false} FindUpdate(stages: seq<Stage>, stageId: string, c: Change, id: string)
    ensures Find(UpdateStage(stages, stageId, c), id) ==
      (if Find(stages, id).Some? && id == stageId then Some(Apply(Find(stages, id).value, c)) else Find(stages, id))
  {
    var u := UpdateStage(stages, stageId, c);
    var i, j := FindRecord(stages, id), FindRecord(u, id);
    assert forall k :: 0 <= k < |stages| ==> u[k].stageId == stages[k].stageId;
  }

  /** A lookup in a list with one record appended. */
  lemma {:induction false} FindAppend(stages: seq<Stage>, s: Stage, id: string)
    ensures Find(stages + [s], id) ==
      (if Find(stages, id).Some? then Find(stages, id) else if s.stageId == id then Some(s) else None)
  {
    var t := stages + [s];
    var i, j := FindRecord(stages, id), FindRecord(t, id);
    if i < |stages| {
      assert t[i].stageId == id;
      assert j == i;
    } else {
      assert forall k :: 0 <= k < |stages| ==> t[k].stageId != id;
      assert t[|stages|] == s;
    }
  }

  /** With one record per stage, the sidebar's status of a stage is that of
      its record, and stages without a record have no entry. */
  lemma {:induction false} StatusOfUnique(stages: seq<Stage>, id: string)
    requires UniqueStageIds(stages)
    ensures id in StatusOf(stages) <==> Find(stages, id).Some?
    ensures Find(stages, id).Some? ==>
      StatusOf(stages)[id] == StageProgress.StatusEntry(Find(stages, id).value.isUnlocked, Find(stages, id).value.isCompleted)
  {
    if stages != [] {
      var n := |stages| - 1;
      var init, s := stages[..n], stages[n];
      assert stages == init + [s];
      StatusOfUnique(init, id);
      FindAppend(init, s, id);
    }
  }

  /** The number of completed records. */
  function CompletedRecords(stages: seq<Stage>): nat {
    if stages == [] then 0
    else CompletedRecords(stages[..|stages| - 1]) + (if stages[|stages| - 1].isCompleted then 1 else 0)
  }

  /** With one record per stage, the sidebar counts the completed records. */
  lemma {:induction false} CompletedCountOfRecords(stages: seq<Stage>)
    requires UniqueStageIds(stages)
    ensures StageProgress.CompletedCount(StatusOf(stages)) == CompletedRecords(stages)
  {
    if stages != [] {
      var n := |stages| - 1;
      var init, s := stages[..n], stages[n];
      assert stages == init + [s];
      CompletedCountOfRecords(init);
      StatusOfUnique(init, s.stageId);
      assert Find(init, s.stageId).None?;
      var before, after := StageProgress.CompletedKeys(StatusOf(init)), StageProgress.CompletedKeys(StatusOf(stages));
      if s.isCompleted {
        assert after == before + {s.stageId};
      } else {
        assert after == before;
      }
    }
  }

  // ---------------------------------------------------------------------------
  // The stage list and the successor rule
  // ---------------------------------------------------------------------------

  /** The editor's stage ids are distinct, so each stage's index is its
      position. */
  lemma {:induction false} StageIndexOfPosition(j: nat)
    requires j < |ESSAY_STAGES|
    ensures StageIndex(ESSAY_STAGES[j].id) == j
  {
    var i := StageIndex(ESSAY_STAGES[j].id);
    assert i >= 0;
    assert i <= j;
    assert forall a, b :: 0 <= a < b < |ESSAY_STAGES| ==> ESSAY_STAGES[a].id != ESSAY_STAGES[b].id;
  }

  /** The successor is the next position, and the last stage has none. */
  lemma {:induction false} SuccessorIsNextPosition(id: string)
    ensures NextStageId(id).Some? <==> StageIndex(id) < |ESSAY_STAGES| - 1
    ensures NextStageId(id).Some? ==>
      StageIndex(NextStageId(id).value) == StageIndex(id) + 1
    ensures NextStageId("conclusion").None?
  {
    var idx := StageIndex(id);
    if idx < |ESSAY_STAGES| - 1 {
      StageIndexOfPosition(idx + 1);
    }
    StageIndexOfPosition(4);
  }

  /** `thesis_statement` declares two successors in the stage registry, but
      the editor only ever unlocks `planning` after it, and `introduction`
      only after `planning`. */
  lemma {:induction false} SuccessorIgnoresDeclaredNextStages(id: string)
    ensures Stages.ESSAY_STAGES[0].id == "thesis_statement"
    ensures Stages.ESSAY_STAGES[0].nextStages == ["planning", "introduction"]
    ensures NextStageId("thesis_statement") == Some("planning")
    ensures NextStageId(id) == Some("introduction") <==> id == "planning"
  {
    StageIndexOfPosition(0);
    StageIndexOfPosition(1);
    var idx := StageIndex(id);
    if NextStageId(id) == Some("introduction") {
      assert ESSAY_STAGES[idx + 1].id == ESSAY_STAGES[2].id;
      assert idx + 1 == 2;
    }
  }

  /** A current stage outside the editor's list has index -1, so completing
      it unlocks the first stage. */
  lemma {:induction false} UnknownStageUnlocksFirst(id: string)
    requires forall k :: 0 <= k < |ESSAY_STAGES| ==> ESSAY_STAGES[k].id != id
    ensures NextStageId(id) == Some("thesis_statement")
  {
  }

  /** The editor's table has requirements for exactly its own five stages. */
  lemma {:induction false} EditorRequirementsCoverStages(stageId: string)
    ensures GetStageRequirements(stageId) != [] <==> StageIndex(stageId) >= 0
  {
    if StageIndex(stageId) < 0 {
      assert forall k :: 0 <= k < |ESSAY_STAGES| ==> ESSAY_STAGES[k].id != stageId;
      assert stageId != ESSAY_STAGES[0].id && stageId != ESSAY_STAGES[1].id && stageId != ESSAY_STAGES[2].id
          && stageId != ESSAY_STAGES[3].id && stageId != ESSAY_STAGES[4].id;
    }
  }

  /** The three tables disagree on the planning requirement's id. */
  lemma {:induction false} PlanningIdsDiffer()
    ensures GetStageRequirements("planning")[0].id == "plan_length"
    ensures Queries.GetStageRequirements("planning")[0].id == "plan_points"
    ensures Stages.ESSAY_STAGES[1].requirements[0].id == "plan_min_points"
  {
  }

  // ---------------------------------------------------------------------------
  // Saving
  // ---------------------------------------------------------------------------

  /** Saving changes only the records of the current stage: they take the text
      and `in_progress`, or `unlocked` when the text is empty. */
  lemma {:induction false} SaveTouchesOnlyCurrent(st: EditorState, k: nat)
    requires CurrentStage(st).Some? && k < |st.stages|
    ensures var out := AfterSave(st);
      && out.currentStageId == st.currentStageId
      && |out.stages| == |st.stages|
      && (st.stages[k].stageId != st.currentStageId ==> out.stages[k] == st.stages[k])
      && (st.stages[k].stageId == st.currentStageId ==>
            && out.stages[k] == st.stages[k].(content := Some(st.content), status := out.stages[k].status)
            && (out.stages[k].status == "in_progress" <==> st.content != "")
            && (out.stages[k].status == "unlocked" <==> st.content == ""))
  {
  }

  /** With no current record, saving does nothing. */
  lemma {:induction false} SaveWithoutStage(st: EditorState)
    requires CurrentStage(st).None?
    ensures AfterSave(st) == st
  {
  }

  /** The header's Save button stays enabled on a completed stage: saving then
      sets the status back to `in_progress` (or `unlocked`) while the record
      stays completed. */
  lemma {:induction false} HeaderSaveReopens(st: EditorState)
    requires CurrentStage(st).Some? && CurrentStage(st).value.isCompleted
    ensures var rec := CurrentStage(AfterSave(st)).value;
      rec.isCompleted && rec.status != "completed"
  {
    FindUpdate(st.stages, st.currentStageId, SaveChange(st.content), st.currentStageId);
  }

  /** Editing, the draft button and the check button are all disabled once the
      current stage is completed. */
  lemma {:induction false} DisabledOnceCompleted(st: EditorState)
    requires CurrentStage(st).Some? && CurrentStage(st).value.isCompleted
    ensures !CanEdit(st) && !CanCheck(st)
  {
  }

  // ---------------------------------------------------------------------------
  // Checking
  // ---------------------------------------------------------------------------

  /** Without a current record, or with blank text, the check does nothing. */
  lemma {:induction false} CheckRefused(st: EditorState)
    requires CurrentStage(st).None? || IsBlank(st.content)
    ensures AfterCheck(st) == st
    ensures AfterCheckSequential(st) == st
  {
  }

  /** Text that passes the guard is never refused by the server, so the
      editor's check always gets an evaluation. */
  lemma {:induction false} CheckAlwaysAnswered(st: EditorState)
    requires CheckAllowed(st)
    ensures CheckRequirements.Check(Request(st, CurrentStage(st).value)).Checked?
    ensures Request(st, CurrentStage(st).value).wordLimit.None? && !Request(st, CurrentStage(st).value).isLastStage
  {
  }

  /** The check's update of a record: the status is `completed` iff the answer
      says completed, else `in_progress`; the lists are copied; the text and
      the flags other than `isCompleted` are kept. */
  lemma {:induction false} CheckedRecord(s: Stage, r: CheckRequirements.CheckResult)
    ensures var t := Apply(s, CheckChange(r));
      && (t.status == "completed" <==> r.isCompleted)
      && (t.status == "in_progress" <==> !r.isCompleted)
      && t.isCompleted == r.isCompleted
      && t.passedRequirements == r.passedRequirements && t.failedRequirements == r.failedRequirements
      && t.stageId == s.stageId && t.content == s.content && t.isUnlocked == s.isUnlocked
      && t.requirements == s.requirements
  {
  }

  /** As written, the list after a check is the check's update of the list the
      click saw, unless a record for the next stage had to be added: then it is
      that list plus the new record, and the check's update is lost. The
      current stage moves to the successor iff the answer is completed and
      there is one. */
  lemma {:induction false} CheckOutcome(st: EditorState, r: CheckRequirements.CheckResult)
    requires CheckAllowed(st)
    ensures var out, next := AfterCheckWith(st, r), NextStageId(st.currentStageId);
      var moves := r.isCompleted && next.Some?;
      && (moves && Find(st.stages, next.value).None? ==>
            out.stages == st.stages + [NewRecord(st.projectId, next.value)])
      && (!(moves && Find(st.stages, next.value).None?) ==>
            out.stages == UpdateStage(st.stages, st.currentStageId, CheckChange(r)))
      && out.currentStageId == (if moves then next.value else st.currentStageId)
  {
  }

  /** With updates applied in sequence, the list after a check is the check's
      update of the saved list, plus a new record for the successor if it had
      none. */
  lemma {:induction false} CheckSequentialOutcome(st: EditorState, r: CheckRequirements.CheckResult)
    requires CheckAllowed(st)
    ensures var out, next := AfterCheckSequentialWith(st, r), NextStageId(st.currentStageId);
      var moves := r.isCompleted && next.Some?;
      var checked := UpdateStage(UpdateStage(st.stages, st.currentStageId, SaveChange(st.content)),
                                 st.currentStageId, CheckChange(r));
      && (moves && Find(checked, next.value).None? ==>
            out.stages == checked + [NewRecord(st.projectId, next.value)])
      && (!(moves && Find(checked, next.value).None?) ==> out.stages == checked)
      && out.currentStageId == (if moves then next.value else st.currentStageId)
  {
  }

  /** Progress is forward only and never skips: after a check (either way of
      applying the updates) or the Next Stage button, the current stage is
      unchanged or is the one at the next index. */
  lemma {:induction false} ForwardOnly(st: EditorState, r: CheckRequirements.CheckResult)
    requires CheckAllowed(st)
    ensures var a, b := AfterCheckWith(st, r), AfterCheckSequentialWith(st, r);
      && (a.currentStageId == st.currentStageId
          || StageIndex(a.currentStageId) == StageIndex(st.currentStageId) + 1)
      && (b.currentStageId == st.currentStageId
          || StageIndex(b.currentStageId) == StageIndex(st.currentStageId) + 1)
      && (a.currentStageId != st.currentStageId <==> r.isCompleted && StageIndex(st.currentStageId) < |ESSAY_STAGES| - 1)
      && (b.currentStageId != st.currentStageId <==> r.isCompleted && StageIndex(st.currentStageId) < |ESSAY_STAGES| - 1)
    ensures CanProceed(st) ==>
      StageIndex(AfterProceed(st).currentStageId) == StageIndex(st.currentStageId) + 1
  {
    SuccessorIsNextPosition(st.currentStageId);
    CheckOutcome(st, r);
    CheckSequentialOutcome(st, r);
  }

  /** A record added by an unlock is unlocked, not completed, without text or
      results, and carries the editor's requirements for its stage; an
      existing record is left as it is, locked or not. */
  lemma {:induction false} UnlockAddsFreshRecord(st: EditorState, base: seq<Stage>, nextStageId: string)
    ensures var out := AfterUnlock(st, base, nextStageId);
      && out.currentStageId == nextStageId
      && (Find(base, nextStageId).Some? ==> out.stages == st.stages)
      && (Find(base, nextStageId).None? ==>
            && out.stages == base + [NewRecord(st.projectId, nextStageId)]
            && Find(out.stages, nextStageId) == Some(NewRecord(st.projectId, nextStageId)))
    ensures var s := NewRecord(st.projectId, nextStageId);
      && s.stageId == nextStageId && s.isUnlocked && !s.isCompleted && s.status == "unlocked"
      && s.content.None? && s.passedRequirements == [] && s.failedRequirements == []
      && s.requirements == Some(GetStageRequirements(nextStageId))
  {
    FindAppend(base, NewRecord(st.projectId, nextStageId), nextStageId);
  }

  // ---------------------------------------------------------------------------
  // At most one record per stage
  // ---------------------------------------------------------------------------

  lemma {:induction false} UpdateKeepsUnique(stages: seq<Stage>, stageId: string, c: Change)
    requires UniqueStageIds(stages)
    ensures UniqueStageIds(UpdateStage(stages, stageId, c))
  {
  }

  lemma {:induction false} AppendKeepsUnique(stages: seq<Stage>, s: Stage)
    requires UniqueStageIds(stages) && Find(stages, s.stageId).None?
    ensures UniqueStageIds(stages + [s])
  {
    var i := FindRecord(stages, s.stageId);
    assert forall k :: 0 <= k < |stages| ==> stages[k].stageId != s.stageId;
  }

  /** Saving, editing, selecting and going back keep at most one record per
      stage. */
  lemma {:induction false} SimpleHandlersKeepOneRecordPerStage(st: EditorState, index: nat, text: string)
    requires UniqueStageIds(st.stages)
    ensures UniqueStageIds(AfterSave(st).stages)
    ensures UniqueStageIds(AfterEdit(st, text).stages)
    ensures index < |ESSAY_STAGES| ==> UniqueStageIds(AfterSelect(st, index).stages)
    ensures CanGoBack(st) ==> UniqueStageIds(AfterGoBack(st).stages)
  {
    UpdateKeepsUnique(st.stages, st.currentStageId, SaveChange(st.content));
  }

  /** A check keeps at most one record per stage: a record is added only for
      a stage that has none. */
  lemma {:induction false} CheckKeepsOneRecordPerStage(st: EditorState, r: CheckRequirements.CheckResult)
    requires UniqueStageIds(st.stages) && CheckAllowed(st)
    ensures UniqueStageIds(AfterCheckWith(st, r).stages)
  {
    CheckOutcome(st, r);
    var next := NextStageId(st.currentStageId);
    if r.isCompleted && next.Some? && Find(st.stages, next.value).None? {
      AppendKeepsUnique(st.stages, NewRecord(st.projectId, next.value));
    } else {
      UpdateKeepsUnique(st.stages, st.currentStageId, CheckChange(r));
    }
  }

  /** The same holds with the updates applied in sequence. */
  lemma {:induction false} CheckSequentialKeepsOneRecordPerStage(st: EditorState, r: CheckRequirements.CheckResult)
    requires UniqueStageIds(st.stages) && CheckAllowed(st)
    ensures UniqueStageIds(AfterCheckSequentialWith(st, r).stages)
  {
    CheckSequentialOutcome(st, r);
    var saved := UpdateStage(st.stages, st.currentStageId, SaveChange(st.content));
    var checked := UpdateStage(saved, st.currentStageId, CheckChange(r));
    UpdateKeepsUnique(st.stages, st.currentStageId, SaveChange(st.content));
    UpdateKeepsUnique(saved, st.currentStageId, CheckChange(r));
    var next := NextStageId(st.currentStageId);
    if r.isCompleted && next.Some? && Find(checked, next.value).None? {
      AppendKeepsUnique(checked, NewRecord(st.projectId, next.value));
    }
  }

  /** So does the Next Stage button. */
  lemma {:induction false} ProceedKeepsOneRecordPerStage(st: EditorState)
    requires UniqueStageIds(st.stages) && CanProceed(st)
    ensures UniqueStageIds(AfterProceed(st).stages)
  {
    var next := NextStageId(st.currentStageId).value;
    if Find(st.stages, next).None? {
      AppendKeepsUnique(st.stages, NewRecord(st.projectId, next));
    }
  }

  // ---------------------------------------------------------------------------
  // Selecting stages
  // ---------------------------------------------------------------------------

  /** A sidebar click moves to the clicked stage only when it is accessible,
      and changes no record. */
  lemma {:induction false} SelectOnlyAccessible(st: EditorState, index: nat)
    requires index < |ESSAY_STAGES|
    ensures var out := AfterSelect(st, index);
      && out.stages == st.stages
      && (out.currentStageId != st.currentStageId ==>
            && out.currentStageId == ESSAY_STAGES[index].id
            && StageProgress.IsStageAccessible(ESSAY_STAGES, StatusOf(st.stages), index))
      && (StageProgress.IsStageAccessible(ESSAY_STAGES, StatusOf(st.stages), index) ==>
            out.currentStageId == ESSAY_STAGES[index].id)
  {
  }

  /** The locked view's button moves one stage back. */
  lemma {:induction false} GoBackOneStage(st: EditorState)
    requires CanGoBack(st)
    ensures StageIndex(AfterGoBack(st).currentStageId) == StageIndex(st.currentStageId) - 1
    ensures AfterGoBack(st).stages == st.stages
  {
    StageIndexOfPosition(StageIndex(st.currentStageId) - 1);
  }

  // ---------------------------------------------------------------------------
  // Where the captured list loses an update
  // ---------------------------------------------------------------------------

  /** As written: when a check completes a stage whose successor has no
      record, the unlock appends the new record to the list the click saw, so
      the completed stage's record is the old, uncompleted one, and the
      sidebar shows the stage now being edited as locked. */
  lemma {:induction false} StaleCheckLosesCompletion(st: EditorState, r: CheckRequirements.CheckResult)
    requires CheckAllowed(st) && UniqueStageIds(st.stages)
    requires !CurrentStage(st).value.isCompleted
    requires r.isCompleted
    requires 0 <= StageIndex(st.currentStageId) < |ESSAY_STAGES| - 1
    requires Find(st.stages, NextStageId(st.currentStageId).value).None?
    ensures var out := AfterCheckWith(st, r);
      && out.currentStageId == NextStageId(st.currentStageId).value
      && CurrentStage(st) == Find(out.stages, st.currentStageId)
      && !Find(out.stages, st.currentStageId).value.isCompleted
      && !StageProgress.IsStageAccessible(ESSAY_STAGES, StatusOf(out.stages), StageIndex(st.currentStageId) + 1)
  {
    var id, next := st.currentStageId, NextStageId(st.currentStageId).value;
    var idx := StageIndex(id);
    CheckOutcome(st, r);
    var out := AfterCheckWith(st, r);
    var s := NewRecord(st.projectId, next);
    assert out.stages == st.stages + [s];
    FindAppend(st.stages, s, id);
    StageIndexOfPosition(idx + 1);
    assert next != id;
    AppendKeepsUnique(st.stages, s);
    StatusOfUnique(out.stages, id);
    assert ESSAY_STAGES[idx].id == id;
  }

  /** Applied in sequence, the same check leaves the stage completed and the
      successor accessible in the sidebar. */
  lemma {:induction false} SequentialCheckKeepsCompletion(st: EditorState, r: CheckRequirements.CheckResult)
    requires CheckAllowed(st) && UniqueStageIds(st.stages)
    requires r.isCompleted
    requires 0 <= StageIndex(st.currentStageId) < |ESSAY_STAGES| - 1
    ensures var out := AfterCheckSequentialWith(st, r);
      && out.currentStageId == NextStageId(st.currentStageId).value
      && Find(out.stages, st.currentStageId).Some?
      && Find(out.stages, st.currentStageId).value.isCompleted
      && StageProgress.IsStageAccessible(ESSAY_STAGES, StatusOf(out.stages), StageIndex(st.currentStageId) + 1)
  {
    var id, next := st.currentStageId, NextStageId(st.currentStageId).value;
    var idx := StageIndex(id);
    var saved := UpdateStage(st.stages, id, SaveChange(st.content));
    var checked := UpdateStage(saved, id, CheckChange(r));
    CheckSequentialOutcome(st, r);
    FindUpdate(st.stages, id, SaveChange(st.content), id);
    FindUpdate(saved, id, CheckChange(r), id);
    assert Find(checked, id).value.isCompleted;
    UpdateKeepsUnique(st.stages, id, SaveChange(st.content));
    UpdateKeepsUnique(saved, id, CheckChange(r));
    var out := AfterCheckSequentialWith(st, r);
    StageIndexOfPosition(idx + 1);
    assert next != id;
    if Find(checked, next).None? {
      var s := NewRecord(st.projectId, next);
      FindAppend(checked, s, id);
      AppendKeepsUnique(checked, s);
    }
    StatusOfUnique(out.stages, id);
    assert ESSAY_STAGES[idx].id == id;
  }

  /** As written: after a check that does not complete the stage, the editor
      reloads the text of the record the click saw, not the text just saved
      and checked; a record loaded without text empties the editor. */
  lemma {:induction false} StaleCheckRevertsText(st: EditorState, r: CheckRequirements.CheckResult)
    requires CheckAllowed(st)
    requires !r.isCompleted
    ensures var out, was := AfterCheckWith(st, r), CurrentStage(st).value;
      && out.content == (if was.content.Some? then was.content.value else "")
      && (was.content.None? ==> out.content == "" != st.content)
  {
    FindUpdate(st.stages, st.currentStageId, CheckChange(r), st.currentStageId);
  }

  /** Applied in sequence, the text stays the one that was checked. */
  lemma {:induction false} SequentialCheckKeepsText(st: EditorState, r: CheckRequirements.CheckResult)
    requires CheckAllowed(st)
    requires !r.isCompleted
    ensures AfterCheckSequentialWith(st, r).content == st.content
  {
    var id := st.currentStageId;
    var saved := UpdateStage(st.stages, id, SaveChange(st.content));
    FindUpdate(st.stages, id, SaveChange(st.content), id);
    FindUpdate(saved, id, CheckChange(r), id);
  }
}
