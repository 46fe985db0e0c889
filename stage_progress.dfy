/**
  The stage sidebar: which stages can be selected and how many are counted
  as completed. Its inputs are the ordered stage list and a status map from
  stage id to the record's `isUnlocked` and `isCompleted` flags.
*/
module StageProgress {
  import opened Wrappers

  /** A stage as the sidebar lists it. */
  datatype StageInfo = StageInfo(id: string, title: string, description: string)

  /** One entry of the `stageStatus` object. */
  datatype StatusEntry = StatusEntry(isUnlocked: bool, isCompleted: bool)

  /** `stageStatus`: a stage without an entry is a missing key. */
  type StageStatus = map<string, StatusEntry>

  /** `isStageAccessible`: the first stage always, any other stage when the
      stage before it has an entry marked completed. */
  function IsStageAccessible(stages: seq<StageInfo>, stageStatus: StageStatus, index: nat): bool
    requires index < |stages|
  {
    if index == 0 then true
    else
      var prevStage := stages[index - 1];
      prevStage.id in stageStatus && stageStatus[prevStage.id].isCompleted
  }

  /** The stage id a click on the stage at `index` hands to `onStageSelect`,
      if any (`isAccessible && onStageSelect(stage.id)`). */
  function OnClick(stages: seq<StageInfo>, stageStatus: StageStatus, index: nat): (selected: Option<string>)
    requires index < |stages|
    ensures selected.Some? <==> IsStageAccessible(stages, stageStatus, index)
    ensures selected.Some? ==> selected.value == stages[index].id
  {
    if IsStageAccessible(stages, stageStatus, index) then Some(stages[index].id) else None
  }

  /** The keys whose entries are completed. */
  function CompletedKeys(stageStatus: StageStatus): set<string> {
    set id | id in stageStatus && stageStatus[id].isCompleted
  }

  /** `Object.values(stageStatus).filter(s => s.isCompleted).length`. */
  function CompletedCount(stageStatus: StageStatus): nat {
    |CompletedKeys(stageStatus)|
  }

  // ---------------------------------------------------------------------------
  // Properties
  // ---------------------------------------------------------------------------

  /** The first stage is accessible whatever the statuses say. */
  lemma {:induction false} FirstAlwaysAccessible(stages: seq<StageInfo>, stageStatus: StageStatus)
    requires stages != []
    ensures IsStageAccessible(stages, stageStatus, 0)
  {
  }

  /** A later stage is accessible iff its predecessor has an entry that is
      completed; a missing entry locks it. */
  lemma {:induction false} AccessibleIff(stages: seq<StageInfo>, stageStatus: StageStatus, index: nat)
    requires 0 < index < |stages|
    ensures IsStageAccessible(stages, stageStatus, index) <==>
      stages[index - 1].id in CompletedKeys(stageStatus)
    ensures stages[index - 1].id !in stageStatus ==> !IsStageAccessible(stages, stageStatus, index)
  {
  }

  /** Two status maps that agree on every completion flag make the same stages
      accessible, whatever their unlock flags. */
  lemma {:induction false} UnlockFlagsIgnored(stages: seq<StageInfo>, s1: StageStatus, s2: StageStatus, index: nat)
    requires index < |stages|
    requires s1.Keys == s2.Keys
    requires forall id :: id in s1 ==> s1[id].isCompleted == s2[id].isCompleted
    ensures IsStageAccessible(stages, s1, index) == IsStageAccessible(stages, s2, index)
  {
  }

  lemma {:induction false} SubsetCardinality(a: set<string>, b: set<string>)
    requires a <= b
    ensures |a| <= |b|
    decreases a
  {
    if a != {} {
      var x :| x in a;
      SubsetCardinality(a - {x}, b - {x});
    }
  }

  /** The completed count counts each completed entry once and is at most the
      number of entries; it is the number of entries iff all are completed. */
  lemma {:induction false} CompletedCountBounds(stageStatus: StageStatus)
    ensures forall id :: id in CompletedKeys(stageStatus) <==> id in stageStatus && stageStatus[id].isCompleted
    ensures CompletedCount(stageStatus) <= |stageStatus|
    ensures CompletedCount(stageStatus) == |stageStatus| <==>
      forall id :: id in stageStatus ==> stageStatus[id].isCompleted
  {
    var done := CompletedKeys(stageStatus);
    SubsetCardinality(done, stageStatus.Keys);
    if exists id :: id in stageStatus && !stageStatus[id].isCompleted {
      var id :| id in stageStatus && !stageStatus[id].isCompleted;
      SubsetCardinality(done, stageStatus.Keys - {id});
    } else {
      assert done == stageStatus.Keys;
    }
  }
}
