# Stage gating of the essay and thesis writer

This project is a Dafny model of how the essay/thesis writing assistant decides
whether a stage of a piece of writing is done, and which stage comes next. A
writer works through an ordered list of stages: thesis statement, plan,
introduction, body paragraphs and conclusion. Each stage carries requirements:
a word-count range, a keyword list, or a kind the code does not check. The
model covers these parts:

- **The server evaluator** (`CheckRequirements`, `POST /api/check-requirements`).
  It validates the content and counts words and characters. It then applies
  an optional word limit, sorts every requirement id into a passed or a failed
  list, writes one feedback line per check, and picks one overall message by a
  fixed priority. `Post` is the handler, written as the loop the source runs.
  It is proved equal to the specification function `Check`, and the lemmas
  state what `Check` promises.
- **The live check of the requirements panel** (`RequirementsCheck`). This is
  the client-side rule that badges each requirement as the writer types. It
  differs from the server's rule, and bridging lemmas say where the two agree.
- **The persistence helpers** (`Queries`). These cover the rows written by
  `updateStageContent`: a version counter plus a one-level `previous_content`.
  They also cover the loop of `evaluateStageRequirements`, which looks only at
  `word_count` requirements and never passes one without a minimum, as well as
  `getStageTitle`, `getStageRequirements` and a new project's first stage.
- **The stage sidebar** (`StageProgress`). A stage is selectable iff it is the
  first stage or its predecessor is completed. The sidebar also shows how many
  stages are completed.
- **The editor** (`EssayEditor`). The class `Editor` holds the editor
  component's state: the current stage id, the local list of stage records, the
  text and the word count. Its methods are the click handlers: save, check
  requirements, unlock the next stage, proceed, select and go back. Each
  handler is proved equal to a function of the old state. The lemmas then
  prove these properties:
  - saving and checking touch only the current record;
  - progress is forward-only and never skips a stage;
  - there is at most one record per stage.

  Two places were found where the handlers lose an update (see Findings).
- **The registries** (`Stages`). These are the two ordered stage lists of
  `stages.ts` with their requirements, and the properties those constants have.
- **Institution detection at sign-up** (`AuthForm`). It covers the e-mail
  domain, whether that domain belongs to a Rwandan academic institution, and
  the role written into the profile row.
- **String operations** (`Text`). These are the JavaScript operations the model
  relies on, written out in its own terms:
  - `split(/\s+/)` with its round trip, and `trim()`;
  - UTF-16 `length`;
  - ASCII case mapping;
  - `includes`, `split('@')` and `replace('_', ' ')`;
  - decimal rendering of integers.

In three places the model keeps what the code does rather than what a reader
might expect:

- A word count of 0 for empty text: the code counts every string, the empty
  one included, as at least 1 word, and leading or trailing whitespace adds a
  piece.
- A word budget across stages: the code compares the word limit with the
  count of the one stage being checked.
- Paragraph counting for `structure_check`, and a project score: the code has
  neither, and such requirements simply pass on the server.

Feedback messages are modelled as structured values (`ItemFeedback`,
`Overall`), and `ItemText`/`OverallText` render them as the source's template
strings.

## Model

| member | source | states |
|---|---|---|
| `Text.WordCount` | src/app/api/check-requirements/route.ts:33 | The count of `split(/\s+/)` pieces is never below 1. |
| `Text.SplitRoundTrip` | src/app/api/check-requirements/route.ts:33 | The pieces, interleaved with the whitespace runs between them, rebuild the content, with one more piece than runs. |
| `Text.SplitIsWellFormed` | src/app/api/check-requirements/route.ts:33 | The pieces hold no whitespace, every run is non-empty whitespace, and only the first and last pieces may be empty. |
| `Text.SplitUnique` | src/app/api/check-requirements/route.ts:33 | Any well-formed split that rebuilds the content is the one `split(/\s+/)` returns. |
| `Text.LeadingSpaceAddsPiece` | src/app/api/check-requirements/route.ts:33 | Leading whitespace adds an empty first piece, so it counts one extra word. |
| `Text.TrailingSpaceAddsPiece` | src/app/api/check-requirements/route.ts:33 | Trailing whitespace adds an empty last piece, so it counts one extra word. |
| `Text.BlankCountsTwo` | src/app/api/check-requirements/route.ts:33 | Content made only of whitespace counts two words. |
| `Text.Utf16Length` | src/app/api/check-requirements/route.ts:34 | `length` lies between the number of code points and twice that, and equals it when every code point is in the Basic Multilingual Plane. |
| `Text.LowerChar` | src/app/api/check-requirements/route.ts:71 | An ASCII capital moves down by 32; every other character is kept. |
| `Text.ToLower` | src/app/api/check-requirements/route.ts:71 | Lower-casing keeps the length and maps every character by `LowerChar`. |
| `Text.ToLowerIdempotent` | src/app/essay/components/RequirementsCheck.tsx:35-37 | Lower-casing twice is lower-casing once. |
| `Text.Includes` | src/app/api/check-requirements/route.ts:73 | `includes` is true iff the pattern occurs at some offset of the text. |
| `Text.UpperChar` | src/lib/supabase/queries.ts:278 | An ASCII small letter moves up by 32; every other character is kept. |
| `Text.ToUpper` | src/lib/supabase/queries.ts:278 | Upper-casing keeps the length and maps every character by `UpperChar`. |
| `Text.ReplaceFirst` | src/lib/supabase/queries.ts:278 | `replace` with a one-character pattern changes only the first occurrence and keeps the length. |
| `Text.IndexOf` | src/lib/components/auth/AuthForm.tsx:24 | The result is the first position of the character, or the length when it is absent. |
| `Text.SplitOnChar` | src/lib/components/auth/AuthForm.tsx:24 | A split on one character gives at least one piece, and no piece holds the separator. |
| `Text.SplitOnCharRoundTrip` | src/lib/components/auth/AuthForm.tsx:24 | Joining the pieces with the separator gives back the text. |
| `Text.NatToString` | src/app/api/check-requirements/route.ts:59 | The decimal rendering is made of digits without a leading zero. |
| `Text.NatToStringRoundTrip` | src/app/api/check-requirements/route.ts:59 | Reading the digits back gives the number. |
| `Stages.RegistriesOnlyFirstUnlocked` | src/lib/constants/stages.ts:24-102 | In each registry, exactly the first stage starts unlocked. |
| `Stages.RegistriesUniqueRequirementIds` | src/lib/constants/stages.ts:24-102 | Requirement ids are distinct within every stage of both registries. |
| `Stages.RegistriesKnownKinds` | src/lib/constants/stages.ts:2-10 | Every registry requirement has one of the four tags of the `type` union. |
| `Stages.RegistriesBoundsOrdered` | src/lib/constants/stages.ts:34-35 | Where a `word_count` requirement has both bounds, the minimum is at most the maximum. |
| `Stages.RegistriesHaveKeywords` | src/lib/constants/stages.ts:24-102 | Every `contains_keywords` requirement has a non-empty keyword list. |
| `Stages.FirstStages` | src/lib/constants/stages.ts:24-78 | The essay registry starts at `thesis_statement` and the thesis registry at `research_proposal`. |
| `Stages.DeclaredSuccessors` | src/lib/constants/stages.ts:47-98 | `thesis_statement` declares two successors (`planning`, `introduction`), and the other stages declare one each. |
| `CheckRequirements.Post` | src/app/api/check-requirements/route.ts:3-138 | The handler's loop returns exactly the response the specification `Check` gives for the request. |
| `CheckRequirements.CheckOne` | src/app/api/check-requirements/route.ts:49-93 | The per-requirement switch reaches the verdict and the feedback that `Evaluate` gives. |
| `CheckRequirements.CheckWordLimit` | src/app/api/check-requirements/route.ts:39-45 | The word-limit step pushes `word_limit` and its line exactly as the limit verdict says. |
| `CheckRequirements.CheckEach` | src/app/api/check-requirements/route.ts:48-105 | The `forEach` appends the passed ids, the failed ids and one line per requirement, all in input order. |
| `CheckRequirements.ChooseFeedback` | src/app/api/check-requirements/route.ts:107-123 | The overall message depends only on `isLastStage` and on the sizes of the two lists, by the fixed priority. |
| `CheckRequirements.RejectsMissingContent` | src/app/api/check-requirements/route.ts:22-27 | The request gets a 400 with the fixed message iff the content is missing, not a string, or empty. |
| `CheckRequirements.Counts` | src/app/api/check-requirements/route.ts:33-34 | `wordCount` is the number of whitespace-split pieces, which is the number of runs plus one and at least 1; `characterCount` is the UTF-16 length. |
| `CheckRequirements.WordLimitFirst` | src/app/api/check-requirements/route.ts:39-45 | A set limit puts `word_limit` at the head of the failed list when exceeded and at the head of the passed list otherwise, with its line first; an absent or 0 limit adds nothing. |
| `CheckRequirements.WordLimitExclusive` | src/app/api/check-requirements/route.ts:39-45 | If no requirement is called `word_limit`, that id is failed iff the limit is set and exceeded, and passed iff the limit is set and met. |
| `CheckRequirements.EvaluateRules` | src/app/api/check-requirements/route.ts:53-93 | Each kind has its rule, with its message for every outcome. `word_count` passes iff `(min or 0) <= count <= (max or unbounded)`, failing "too short" below the minimum and "too long" otherwise. Keywords pass iff one occurs, ignoring case, with an absent list passing. Every other kind passes. An absent or 0 minimum is a minimum of 0. |
| `CheckRequirements.MatchingKeywordsAre` | src/app/api/check-requirements/route.ts:71-74 | The found keywords are exactly those of the list occurring in the lower-cased content. |
| `CheckRequirements.EmptyKeywordListFails` | src/app/api/check-requirements/route.ts:70-81 | An empty keyword array fails with an empty "missing" list. |
| `CheckRequirements.ZeroBoundsAreOpen` | src/app/api/check-requirements/route.ts:55-56 | `maxValue: 0` means no upper bound: the verdict depends only on the minimum. |
| `CheckRequirements.OtherKindsPass` | src/app/api/check-requirements/route.ts:89-92 | `structure_check` and `ai_score` pass with an "unknown type" line. |
| `CheckRequirements.PassedIdsMembers` | src/app/api/check-requirements/route.ts:95-101 | An id is in the passed list iff some requirement with that id passes. |
| `CheckRequirements.FailedIdsMembers` | src/app/api/check-requirements/route.ts:95-101 | An id is in the failed list iff some requirement with that id fails. |
| `CheckRequirements.Partition` | src/app/api/check-requirements/route.ts:95-103 | Passed and failed together hold every requirement id once, as multisets, and there is one item line per requirement. |
| `CheckRequirements.ItemLinesAt` | src/app/api/check-requirements/route.ts:103 | The k-th item line is the k-th requirement's description with its verdict's feedback. |
| `CheckRequirements.NoneFailed` | src/app/api/check-requirements/route.ts:95-101 | The failed list of the requirements is empty iff every requirement passes. |
| `CheckRequirements.RequirementOutcome` | src/app/api/check-requirements/route.ts:95-103 | Each requirement's id lands in the list its verdict names, and its line sits at its position after the optional limit line. |
| `CheckRequirements.ExclusiveOutcome` | src/app/api/check-requirements/route.ts:95-101 | With distinct ids other than `word_limit`, an id is passed iff its requirement passes and failed iff it fails. |
| `CheckRequirements.PartitionCounts` | src/app/api/check-requirements/route.ts:39-103 | The two lists hold, as multisets, the requirement ids plus `word_limit` when a limit is set, and there is one detailed line per entry. |
| `CheckRequirements.Completion` | src/app/api/check-requirements/route.ts:131-136 | `isCompleted` holds iff nothing failed, iff the limit holds and every requirement passes; `isLastStageCompleted` holds iff it is the last stage and completed. |
| `CheckRequirements.FeedbackPriority` | src/app/api/check-requirements/route.ts:107-123 | On the last stage the message is "complete" or "almost there". Otherwise it is "proceed" when nothing failed, "add more content" when nothing passed, and else "k of n met" with 0 < k < n. |
| `RequirementsCheck.SomeKeyword` | src/app/essay/components/RequirementsCheck.tsx:36-38 | `some` is true iff some lower-cased keyword occurs in the lower-cased content. |
| `RequirementsCheck.CheckKeywords` | src/app/essay/components/RequirementsCheck.tsx:33-41 | True iff the kind is `contains_keywords`, a list is present and some keyword occurs, ignoring case. |
| `RequirementsCheck.WordCountRule` | src/app/essay/components/RequirementsCheck.tsx:24-31 | True iff the kind is `word_count` and `(min or 0) <= count <= (max or unbounded)`. |
| `RequirementsCheck.EmptyKeywordListFails` | src/app/essay/components/RequirementsCheck.tsx:33-41 | An empty keyword list never matches. |
| `RequirementsCheck.OtherKindsFail` | src/app/essay/components/RequirementsCheck.tsx:43-47 | Every kind other than `word_count` and `contains_keywords` is shown as needing work. |
| `RequirementsCheck.ShownPassed` | src/app/essay/components/RequirementsCheck.tsx:72 | A requirement whose id the stored list holds is shown passed, whatever the live rule says. |
| `RequirementsCheck.AgreesOnWordCount` | src/app/essay/components/RequirementsCheck.tsx:24-31 | On `word_count` requirements the live check and the server agree. |
| `RequirementsCheck.AgreesOnKeywords` | src/app/essay/components/RequirementsCheck.tsx:33-41 | On keyword requirements with a list, the live check and the server agree. |
| `RequirementsCheck.DiffersElsewhere` | src/app/essay/components/RequirementsCheck.tsx:43-47 | On other kinds, and on keyword requirements without a list, the server passes and the live check fails. |
| `RequirementsCheck.LiveCheckIsStricter` | src/app/essay/components/RequirementsCheck.tsx:43-47 | Whatever the live check passes, the server passes. |
| `Queries.CreateWritingProject` | src/lib/supabase/queries.ts:47-57 | The insert copies the inputs, has status `draft`, and starts at the first stage of the mode's registry (`thesis_statement` or `research_proposal`). |
| `Queries.ApplyUpdate` | src/lib/supabase/queries.ts:119-130 | An update leaves the id, project, stage, flags, requirements and result lists of the row as they were. |
| `Queries.SaveExisting` | src/lib/supabase/queries.ts:119-130 | Saving over a row increments the version, keeps the old content as `previous_content`, sets `in_progress`, and stores the new counts. |
| `Queries.SaveNew` | src/lib/supabase/queries.ts:140-152 | Saving a new stage inserts version 1, unlocked and `in_progress`, with the table's title and requirements and the new counts. |
| `Queries.TwoSaves` | src/lib/supabase/queries.ts:119-130 | Two saves raise the version by two and keep only the first save's text as previous content; the evaluation columns are untouched. |
| `Queries.UnknownTitle` | src/lib/supabase/queries.ts:278 | An unknown id's title is the id upper-cased, with only its first `_` made a space. |
| `Queries.OnlyFirstUnderscoreReplaced` | src/lib/supabase/queries.ts:278 | `lit_rev_x` becomes `LIT REV_X`. |
| `Queries.TitlesMatchRegistries` | src/lib/supabase/queries.ts:265-279 | The title table agrees with the titles in both registries. |
| `Queries.RequirementsOfUnknownStage` | src/lib/supabase/queries.ts:281-327 | The table gives requirements only for `thesis_statement`, `research_proposal` and `planning`, and `[]` for every other id. |
| `Queries.TableExtendsRegistry` | src/lib/supabase/queries.ts:281-315 | For the first stage of each mode the table has the registry's ids, kinds, bounds and descriptions, and the registry's keyword list followed by `because`/`therefore` (essay) or `influence` (thesis). |
| `Queries.ErrorMessagesDiffer` | src/lib/supabase/queries.ts:281-315 | Each of those four requirements has an error message different from the registry's. |
| `Queries.PlanningIdDiffers` | src/lib/supabase/queries.ts:316-324 | The planning requirement is `plan_points` here but `plan_min_points` in the registry. |
| `Queries.Classify` | src/lib/supabase/queries.ts:177-187 | The loop's two lists are the word-count passes and failures in input order. |
| `Queries.EvaluateStageRequirements` | src/lib/supabase/queries.ts:161-209 | A missing stage gives `Stage not found`; otherwise the result and the updated row are those of the evaluation. |
| `Queries.PassedIdsMembers` | src/lib/supabase/queries.ts:177-187 | An id is passed iff some `word_count` requirement with that id meets its bounds. |
| `Queries.FailedIdsMembers` | src/lib/supabase/queries.ts:177-187 | An id is failed iff some `word_count` requirement with that id misses its bounds. |
| `Queries.OnlyWordCountClassified` | src/lib/supabase/queries.ts:177-187 | The two lists together are as long as the number of `word_count` requirements. |
| `Queries.OtherKindsUnclassified` | src/lib/supabase/queries.ts:177-187 | A requirement of another kind, whose id no word-count requirement shares, is in neither list. |
| `Queries.WordCountOutcome` | src/lib/supabase/queries.ts:180 | With distinct ids, a word-count requirement is passed iff `count >= min` and (`max` is falsy or `count <= max`), and failed otherwise. |
| `Queries.MissingMinimumNeverPasses` | src/lib/supabase/queries.ts:180 | A requirement without `minValue` never passes. |
| `Queries.Completion` | src/lib/supabase/queries.ts:189-208 | Completed iff nothing failed, iff every word-count requirement meets its bounds; the row's flag, status and lists follow, and nothing else in the row changes. |
| `Queries.NoRequirementsCompletes` | src/lib/supabase/queries.ts:173-196 | A stage with no requirements is completed. |
| `Queries.AgreesWithServer` | src/lib/supabase/queries.ts:180 | With a minimum set, this rule and the server's agree on `word_count` requirements. |
| `Queries.DiffersWithoutMinimum` | src/lib/supabase/queries.ts:180 | Without bounds, this rule fails a requirement the server passes. |
| `StageProgress.OnClick` | src/app/essay/components/StageProgress.tsx:48-49 | A click selects the stage's id iff the stage is accessible. |
| `StageProgress.FirstAlwaysAccessible` | src/app/essay/components/StageProgress.tsx:29-30 | Stage 0 is accessible whatever the statuses. |
| `StageProgress.AccessibleIff` | src/app/essay/components/StageProgress.tsx:29-33 | A later stage is accessible iff its predecessor's entry is completed; a missing entry locks it. |
| `StageProgress.UnlockFlagsIgnored` | src/app/essay/components/StageProgress.tsx:29-33 | Accessibility depends on the completion flags only, not on the unlock flags. |
| `StageProgress.CompletedCountBounds` | src/app/essay/components/StageProgress.tsx:108 | The count is the number of completed entries, is at most the number of entries, and equals it iff all are completed. |
| `EssayEditor.FindRecord` | src/app/essay/components/EssayEditor.tsx:63 | `find` gives the first record with the stage id, or none. |
| `EssayEditor.UpdateStage` | src/app/essay/components/EssayEditor.tsx:93-97 | The `map` changes exactly the records with the stage id and keeps the length. |
| `EssayEditor.Editor.constructor` | src/app/essay/components/EssayEditor.tsx:56-71 | The editor starts on the project's stage with the given records, and its text is loaded by the effect. |
| `EssayEditor.Editor.SyncEffect` | src/app/essay/components/EssayEditor.tsx:66-71 | The effect loads the current record's content and its word count, or changes nothing without a record. |
| `EssayEditor.Editor.Edit` | src/app/essay/components/EssayEditor.tsx:425-428 | Typing sets the text and its whitespace-split count. |
| `EssayEditor.Editor.HandleSave` | src/app/essay/components/EssayEditor.tsx:73-104 | Save writes the text and `in_progress`/`unlocked` into the current record of the captured list. |
| `EssayEditor.Editor.UnlockNextStage` | src/app/essay/components/EssayEditor.tsx:187-244 | A record for the next stage is appended to the given list only if absent, and the current stage moves there. |
| `EssayEditor.Editor.RecordAnswer` | src/app/essay/components/EssayEditor.tsx:155-171 | The result is written into the given list, and on completion of a non-final stage the next one is unlocked. |
| `EssayEditor.Editor.HandleCheckRequirements` | src/app/essay/components/EssayEditor.tsx:106-185 | The check handler as written, where every update reads the record list captured at the click. |
| `EssayEditor.Editor.HandleCheckRequirementsSequential` | src/app/essay/components/EssayEditor.tsx:106-185 | The check handler with each update applied to the previous one's result. |
| `EssayEditor.Editor.ProceedToNextStage` | src/app/essay/components/EssayEditor.tsx:454-459 | "Next Stage" unlocks the stage after the current one. |
| `EssayEditor.Editor.SelectStage` | src/app/essay/components/EssayEditor.tsx:350-361 | A sidebar click moves to the stage when it is accessible. |
| `EssayEditor.Editor.GoToPreviousStage` | src/app/essay/components/EssayEditor.tsx:475-477 | "Go to Previous Stage" moves one stage back. |
| `EssayEditor.FindUnique` | src/app/essay/components/EssayEditor.tsx:63 | With one record per stage, `find` returns that record. |
| `EssayEditor.FindUpdate` | src/app/essay/components/EssayEditor.tsx:93-97 | After a `map` update, `find` sees the updated record for that stage and the old ones elsewhere. |
| `EssayEditor.FindAppend` | src/app/essay/components/EssayEditor.tsx:209-224 | After an append, `find` sees the new record only where no record was found before. |
| `EssayEditor.StatusOfUnique` | src/app/essay/components/EssayEditor.tsx:353-359 | With one record per stage, the sidebar's status map has an entry per record carrying its two flags. |
| `EssayEditor.CompletedCountOfRecords` | src/app/essay/components/EssayEditor.tsx:353-359 | The sidebar's completed count is the number of completed records. |
| `EssayEditor.StageIndexOfPosition` | src/app/essay/components/EssayEditor.tsx:64 | `findIndex` of a listed stage's id is its position. |
| `EssayEditor.SuccessorIsNextPosition` | src/app/essay/components/EssayEditor.tsx:169-170 | A successor exists iff the stage is not the last, and it sits at the next position; `conclusion` has none. |
| `EssayEditor.SuccessorIgnoresDeclaredNextStages` | src/app/essay/components/EssayEditor.tsx:169-170 | The editor goes from `thesis_statement` to `planning` only, although the registry declares `introduction` too. |
| `EssayEditor.UnknownStageUnlocksFirst` | src/app/essay/components/EssayEditor.tsx:169-170 | For an id not in the list, `findIndex` gives -1 and completion unlocks `thesis_statement`. |
| `EssayEditor.EditorRequirementsCoverStages` | src/app/essay/components/EssayEditor.tsx:246-305 | The editor's table has requirements exactly for the five listed stages, and `[]` otherwise. |
| `EssayEditor.PlanningIdsDiffer` | src/app/essay/components/EssayEditor.tsx:265-273 | The planning requirement is `plan_length` here, `plan_points` in the query helper, and `plan_min_points` in the registry. |
| `EssayEditor.SaveTouchesOnlyCurrent` | src/app/essay/components/EssayEditor.tsx:93-97 | Save changes only the current record, whose status becomes `in_progress` iff the text is non-empty and `unlocked` otherwise. |
| `EssayEditor.SaveWithoutStage` | src/app/essay/components/EssayEditor.tsx:74 | Without a current record, save changes nothing. |
| `EssayEditor.HeaderSaveReopens` | src/app/essay/components/EssayEditor.tsx:334-336 | The always-enabled header Save turns a completed record's status back from `completed`, while `is_completed` stays true. |
| `EssayEditor.DisabledOnceCompleted` | src/app/essay/components/EssayEditor.tsx:431-447 | Once the current stage is completed, editing and checking are disabled. |
| `EssayEditor.CheckRefused` | src/app/essay/components/EssayEditor.tsx:107-110 | Without a current record, or with blank text, a check changes nothing. |
| `EssayEditor.CheckAlwaysAnswered` | src/app/essay/components/EssayEditor.tsx:118-129 | An allowed check sends non-empty content, so the server answers with a result; the editor sends no word limit and no last-stage flag. |
| `EssayEditor.CheckedRecord` | src/app/essay/components/EssayEditor.tsx:155-166 | The checked record becomes `completed` iff the result is complete and `in_progress` otherwise, copying the lists; its text and requirements stay. |
| `EssayEditor.CheckOutcome` | src/app/essay/components/EssayEditor.tsx:155-171 | As written, the list is either the captured list plus the new record, or the captured list with the result written in; the current stage moves iff the check completed a non-final stage. |
| `EssayEditor.CheckSequentialOutcome` | src/app/essay/components/EssayEditor.tsx:155-171 | Sequentially, the saved and checked list is kept, and a new record is appended when one is needed. |
| `EssayEditor.ForwardOnly` | src/app/essay/components/EssayEditor.tsx:169-171 | A check or "Next Stage" keeps the stage or moves exactly one position forward, and moves iff it completed a non-final stage. |
| `EssayEditor.UnlockAddsFreshRecord` | src/app/essay/components/EssayEditor.tsx:187-239 | The unlock appends a record only if absent. The new record is unlocked, not completed and `unlocked`, with no text, empty lists and the table's requirements. The current stage becomes the next stage. |
| `EssayEditor.UpdateKeepsUnique` | src/app/essay/components/EssayEditor.tsx:93-97 | A `map` update keeps one record per stage. |
| `EssayEditor.AppendKeepsUnique` | src/app/essay/components/EssayEditor.tsx:190-224 | Appending a record whose stage has none keeps one record per stage. |
| `EssayEditor.SimpleHandlersKeepOneRecordPerStage` | src/app/essay/components/EssayEditor.tsx:73-104 | Save, edit, select and go back keep one record per stage. |
| `EssayEditor.CheckKeepsOneRecordPerStage` | src/app/essay/components/EssayEditor.tsx:187-224 | The check as written keeps one record per stage. |
| `EssayEditor.CheckSequentialKeepsOneRecordPerStage` | src/app/essay/components/EssayEditor.tsx:187-224 | The sequential check keeps one record per stage. |
| `EssayEditor.ProceedKeepsOneRecordPerStage` | src/app/essay/components/EssayEditor.tsx:454-459 | "Next Stage" keeps one record per stage. |
| `EssayEditor.SelectOnlyAccessible` | src/app/essay/components/EssayEditor.tsx:350-361 | Selecting moves to a stage iff the sidebar shows it accessible, and never changes the records. |
| `EssayEditor.GoBackOneStage` | src/app/essay/components/EssayEditor.tsx:475-477 | Going back moves exactly one position back and keeps the records. |
| `EssayEditor.StaleCheckLosesCompletion` | src/app/essay/components/EssayEditor.tsx:155-224 | As written, completing a stage whose successor has no record leaves the old record uncompleted, so the sidebar locks the new current stage. |
| `EssayEditor.SequentialCheckKeepsCompletion` | src/app/essay/components/EssayEditor.tsx:155-224 | Sequentially, the completed record is kept and the next stage is accessible. |
| `EssayEditor.StaleCheckRevertsText` | src/app/essay/components/EssayEditor.tsx:155-166 | As written, an incomplete check reloads the text of the record captured at the click, which is empty for a never-saved record. |
| `EssayEditor.SequentialCheckKeepsText` | src/app/essay/components/EssayEditor.tsx:155-166 | Sequentially, an incomplete check keeps the writer's text. |
| `AuthForm.SomeIncluded` | src/lib/components/auth/AuthForm.tsx:26 | `some(includes)` is true iff some listed suffix occurs in the domain. |
| `AuthForm.FirstPiece` | src/lib/components/auth/AuthForm.tsx:24 | The first piece of a split is the text before the first separator. |
| `AuthForm.DomainBetweenAts` | src/lib/components/auth/AuthForm.tsx:24 | The domain is the text between the first `@` and the next `@` or the end, or `''` without an `@`; it never holds an `@`. |
| `AuthForm.DomainOfAddress` | src/lib/components/auth/AuthForm.tsx:24 | An address with one `@` has the text after it as its domain. |
| `AuthForm.InstitutionIff` | src/lib/components/auth/AuthForm.tsx:23-28 | An institution iff one of `ur.ac.rw`, `ac.rw`, `edu.rw`, `school.rw` occurs in the domain, which is returned too. |
| `AuthForm.AcRwSubsumes` | src/lib/components/auth/AuthForm.tsx:25-26 | Because `ac.rw` is listed, `ur.ac.rw` adds nothing, and any domain containing `ac.rw` is an institution. |
| `AuthForm.NothingIncludedInEmpty` | src/lib/components/auth/AuthForm.tsx:26 | No non-empty suffix occurs in the empty domain. |
| `AuthForm.EmptyDomainIsNotInstitution` | src/lib/components/auth/AuthForm.tsx:24-26 | An empty domain is never an institution. |
| `AuthForm.NeedsW` | src/lib/components/auth/AuthForm.tsx:25-26 | Every suffix ends in `rw`, so a domain without a `w` is never an institution. |
| `AuthForm.InstitutionExample` | src/lib/components/auth/AuthForm.tsx:23-28 | Every `…@ur.ac.rw` address is an institution with domain `ur.ac.rw`. |
| `AuthForm.StudentExample` | src/lib/components/auth/AuthForm.tsx:23-28 | No `…@gmail.com` address is an institution. |
| `AuthForm.SignupRole` | src/lib/components/auth/AuthForm.tsx:77-87 | The inserted profile's role is `institution` iff the address is an institution's and `student` otherwise, with the detected domain. |

## Left out

- All Supabase reads, writes and auth calls. The same goes for `fetch`, HTTP
  status wrapping, JSON parsing, `console`, `alert` and the router. The model's
  records stand in for the database rows, and server answers are parameters.
  Database errors and failed fetches are not modelled: every call is taken to
  succeed.
- Timestamps (`updated_at`, `last_modified`, `timestamp`). They come from the
  clock.
- The `catch` branch of the server handler. It is reached when reading the
  body throws, for example on a body that is not JSON, and parsing is outside
  the model. Well-typed requirement records never throw in the model.
- React rendering, the `saving`/`checking` busy flags, and the order in which
  React runs effects. The editor's effect on `currentStage` is modelled as
  running after every handler.
- The database insert inside `unlockNextStage` (`EssayEditor.tsx:194-204`),
  including its "Next Stage" fallback title. Only the local record appended to
  the state is modelled.
- `signUp`, `signInWithPassword` and the profile update in `AuthForm.tsx`. Only
  the detection and the fallback profile row built from it are modelled.
- The progress-bar percentage (`StageProgress.tsx:115`). It is floating-point
  display.
- `src/app/essay/new/page.tsx` is not part of this model. It seeds a
  `plan_thesis` stage while pointing `current_stage_id` at `thesis_statement`,
  which is a data inconsistency rather than rule logic.
- Numbers are modelled as integers. Fractional, `NaN` or non-numeric bounds
  and limits in the JSON are not modelled. An absent or falsy field is
  `None`, and 0 is distinguished where `||` or `!` treats it as absent.
- Text.ToLower: maps only ASCII letters, because full Unicode case mapping is
  outside the model.
- Text.ToUpper: maps only ASCII letters, for the same reason.
- Requirement kinds and ids are plain strings. Accessing a JSON key that
  collides with an `Object.prototype` member is not modelled.

## Findings

| source | as written | input that shows it | evidently intended | confidence | as-written member | corrected member |
|---|---|---|---|---|---|---|
| src/app/essay/components/EssayEditor.tsx:155-224 | `handleCheckRequirements` writes the result into the `stages` list captured at the click. `unlockNextStage` then appends the new record to that same captured list, and as React applies the two updates in order, the append overwrites the result. | A check that completes a non-final stage whose successor has no record yet, e.g. a first thesis that meets every requirement. The local thesis record stays uncompleted, and the sidebar shows the new current stage as locked. | Both updates applied in sequence: the completed record is kept and the next stage is accessible (`HandleCheckRequirementsSequential`). | not executed | `EssayEditor.StaleCheckLosesCompletion` | `EssayEditor.SequentialCheckKeepsCompletion` |
| src/app/essay/components/EssayEditor.tsx:155-166 | After an incomplete check, the list rebuilt from the click-time snapshot replaces the record that save had updated. The effect on `currentStage` then reloads the snapshot record's older content into the textarea. | A check, failed by the server, of text typed into a record that was never saved. The textarea is emptied and the typed text is lost from the screen. | The writer's text stays as typed (`HandleCheckRequirementsSequential`). | not executed | `EssayEditor.StaleCheckRevertsText` | `EssayEditor.SequentialCheckKeepsText` |
