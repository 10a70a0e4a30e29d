# Induction submission lifecycle — a Dafny model

This project models the core of the induction backend, a Laravel service for
online training courses. An *induction* is a course made of *chapters*. Each
chapter has a video and a list of questions.

When a learner starts an induction, the service creates a *submission*. The
submission holds a *snapshot*: a copy of the chapters and questions as they
were at that moment. Everything after that is tracked against the snapshot:

- answer rows, one per (submission, question);
- video completion rows, one per (user, chapter, submission).

Chapters added to the live induction later are merged into the snapshot by a
*reconciliation* step. A submission is `completed` only when every snapshot
question is answered, every snapshot video is watched and the live induction
has no chapter the snapshot lacks.

The model covers these parts of the service:

- the learner endpoints: start, submit answers, complete, resume point, show,
  video progress and progress reports;
- the admin grading view of a submission;
- the correct-answer normalisation of the admin question endpoints;
- the CSV import of an induction.

Modules, in dependency order:

- `Wrappers` (`wrappers.dfy`): `Option` and `Result`.
- `Php` (`php.dfy`): the PHP built-ins the controllers rely on, as
  functions. These are `trim`, `strtolower`, `explode`/`implode`, the `(int)`
  cast, `strval` and PHP's truthiness of strings and values.
- `Sorting` (`sorting.dfy`): Laravel's stable `sortBy` and the `sort` of
  string lists.
- `Course` (`course.dfy`): live chapters and questions, snapshot chapters,
  and the fallback to the live answer key.
- `Store` (`store.dfy`): the stored state. A `Db` class holds the
  submissions table, the answers table, the video completion table, and a
  counter of completion notifications.
- `SnapshotBuilder` (`snapshot.dfy`): snapshot build, id diff and merge.
- `InductionApi` (`induction_api.dfy`): `start` and reconciliation.
- `SubmissionRules` (`submission_rules.dfy`): the upsert, the scans, the
  missing-answer list, the resume point and the key enrichment, as
  specification functions.
- `SubmissionApi` (`submission_api.dfy`): the learner submission endpoints,
  as methods with loops proved against those functions.
- `VideoApi` (`video_api.dfy`): the video completion endpoints.
- `ProgressApi` (`progress_api.dfy`): the user progress endpoints.
- `Grading` (`grading.dfy`): the admin per-question grading and counters.
- `Questions` (`questions.dfy`): correct-answer normalisation and the
  question `store`/`update` endpoints.
- `CsvImport` (`csv_import.dfy`): the CSV import, from the header and the
  split rows onward.

Modelling conventions:

- The clock becomes a `Time` parameter.
- Sending mail becomes the `notifications` counter.
- The storage disk's URL generator becomes a function parameter
  `storageUrl`.
- `json_decode` in the import becomes a function parameter `decodeJson`.
- Percentages are integers in hundredths: 10000 means 100%.
- A percentage computed by the service is rounded half up to hundredths. It
  is 0 when the denominator is 0.

Two places where the model follows the code rather than the obvious
reading of the endpoints:

- `updateProgress` stamps `completed_at` on every report at 100%, not only
  on the first one.
- `index` of the progress endpoints skips only submissions without a
  snapshot chapter list. A snapshot with an empty chapter list is still
  reported.

## Model

| member | source | states |
|---|---|---|
| SnapshotBuilder.Fragment | app/Http/Controllers/Api/InductionController.php:164-191 | a chapter fragment keeps the chapter's id, title and display order, holds its questions sorted by display order as a permutation of them, and records `pass_percentage` per policy (defaulted, raw, or omitted) |
| SnapshotBuilder.BuildSnapshot | app/Http/Controllers/Api/InductionController.php:157-192 | the start snapshot has one fragment per live chapter, in display order, with the live id set; each fragment's questions are sorted and its pass percentage is always present (70 when null); the fragment of every live chapter is in the snapshot |
| SnapshotBuilder.FragmentsCover | app/Http/Controllers/Api/InductionController.php:157-192 | sorting the chapters loses none: every live chapter's fragment is among the fragments of a reordering |
| SnapshotBuilder.NewChapterIds | app/Http/Controllers/Api/InductionController.php:47-55 | an id is reported new exactly when it is a live chapter id absent from the snapshot |
| SnapshotBuilder.MergeChapters | app/Http/Controllers/Api/InductionController.php:89-94 | the merged list is sorted by display order and is a permutation of the old chapters plus the new fragments |
| SnapshotBuilder.NewFragmentsIffNewIds | app/Http/Controllers/Api/InductionController.php:55-62 | fragments are built exactly when some live id is new to the snapshot |
| SnapshotBuilder.MergeIds | app/Http/Controllers/Api/InductionController.php:62-97 | after a merge the snapshot's id set is the old ids united with the live ids |
| SnapshotBuilder.MergeKeepsOldChapters | app/Http/Controllers/Api/InductionController.php:89-94 | no old chapter is dropped or altered, and the length grows by the number of new fragments |
| SnapshotBuilder.MergeTies | app/Http/Controllers/Api/InductionController.php:90-93 | among chapters with equal display order, old ones come before new ones and each group keeps its order |
| SnapshotBuilder.MergeSettles | app/Http/Controllers/Api/InductionController.php:45-108 | after a merge no live id is new any more, so reconciling again at once adds nothing |
| InductionApi.Demote | app/Http/Controllers/Api/InductionController.php:100 | completed becomes pending, and any other status is unchanged |
| InductionApi.Reconciled | app/Http/Controllers/Api/InductionController.php:96-105 | the reconciled submission keeps id, owner, induction and completion time, has a snapshot, and has the demoted status |
| InductionApi.ReconciledChapters | app/Http/Controllers/Api/InductionController.php:62-105 | the reconciled chapters are the old ids plus the live ids, include every old chapter, are sorted, and leave no live chapter new |
| InductionApi.FindSubmission | app/Http/Controllers/Api/InductionController.php:120-123 | the lookup finds the first row in table order of the user's submissions for the induction with one of the statuses, and finds none exactly when no such row exists |
| InductionApi.Reconcile | app/Http/Controllers/Api/InductionController.php:45-108 | it returns true exactly when live chapters are new to the snapshot; then the row becomes its reconciled form, otherwise nothing changes; other tables are untouched |
| InductionApi.Start | app/Http/Controllers/Api/InductionController.php:113-202 | an inactive induction is refused with nothing written; a completed submission is reopened exactly when chapters are new, else reported, and nothing is created; an active one is returned unchanged; otherwise one in-progress submission with a fresh snapshot is added; one submission per user and induction is kept |
| InductionApi.NoSubmissionAtAll | app/Http/Controllers/Api/InductionController.php:119-155 | when neither the completed lookup nor the in-progress/pending lookup finds a row, the user has no submission for the induction in any status |
| InductionApi.CreateSubmission | app/Http/Controllers/Api/InductionController.php:194-199 | one in-progress row with a fresh snapshot is added under the next id, and no other table changes |
| InductionApi.StartTwice | app/Http/Controllers/Api/InductionController.php:147-155 | a second start right after the first returns the same submission and neither creates nor reopens |
| SubmissionRules.LastPayload | app/Http/Controllers/Api/SubmissionController.php:82-87 | the payload found for a question comes from the last batch element naming it, and none is found exactly when no element names it |
| SubmissionRules.UpsertAllLookup | app/Http/Controllers/Api/SubmissionController.php:82-87 | after the upsert each question of the batch has one answer, equal to its last payload; every other answer row, including other submissions' rows, is unchanged |
| SubmissionRules.FirstUnanswered | app/Http/Controllers/Api/SubmissionController.php:95-109 | the position found is that of the first chapter with an unanswered question; all earlier chapters are answered; it equals the length exactly when all questions are answered |
| SubmissionRules.FirstUnansweredRef | app/Http/Controllers/Api/SubmissionController.php:159-163 | `last_unanswered_chapter` is null exactly when every snapshot question is answered |
| SubmissionRules.MissingAnswersEmptyIff | app/Http/Controllers/Api/SubmissionController.php:250-264 | the missing-answer list is empty exactly when every snapshot question is answered |
| SubmissionRules.MissingAnswersComplete | app/Http/Controllers/Api/SubmissionController.php:250-264 | every unanswered snapshot question is listed under its chapter's title |
| SubmissionRules.MissingAnswersSound | app/Http/Controllers/Api/SubmissionController.php:250-264 | every listed entry names a snapshot chapter and one of its unanswered questions |
| SubmissionRules.ResumeAt | app/Http/Controllers/Api/SubmissionController.php:317-347 | a question is reported only with its chapter; no chapter is reported exactly when all videos are done and all questions answered; a reported chapter is a snapshot chapter |
| SubmissionRules.FirstNotDone | app/Http/Controllers/Api/SubmissionController.php:317-347 | the position of the first snapshot chapter whose video is not done or that has an unanswered question; every earlier chapter is watched and fully answered |
| SubmissionRules.ResumeAtFirstNotDone | app/Http/Controllers/Api/SubmissionController.php:317-347 | the resume point is that first chapter; it comes without a question exactly when its video is not done, and otherwise with the chapter's first unanswered question; with no such chapter, nothing is reported |
| SubmissionRules.ScansDisagree | app/Http/Controllers/Api/SubmissionController.php:95-109 | on a two-chapter example with chapter 1 answered but unwatched, `submitAnswers` reports chapter 2 while `getLastUnanswered` reports chapter 1 |
| SubmissionRules.EnrichChapters | app/Http/Controllers/Api/SubmissionController.php:27-43 | enrichment keeps the chapter count and handles each chapter independently |
| SubmissionRules.EnrichOnlyFillsMissing | app/Http/Controllers/Api/SubmissionController.php:30-37 | enrichment changes only answer keys, and only keys that were missing |
| SubmissionRules.EnrichIdempotent | app/Http/Controllers/Api/SubmissionController.php:26-43 | enriching twice gives the same snapshot as enriching once |
| Course.WithFallback | app/Http/Controllers/Api/Admin/SubmissionController.php:66-73 | a present snapshot key is kept; a missing one is replaced by the live key when that exists and is truthy, and kept as it is otherwise; a replacement is never missing |
| SubmissionApi.ScanAnswers | app/Http/Controllers/Api/SubmissionController.php:95-109 | the nested loop computes `all_questions_answered` and the first unanswered chapter as the rules define them |
| SubmissionApi.ChapterScan | app/Http/Controllers/Api/SubmissionController.php:97-108 | the inner loop reports that a chapter is answered exactly when each of its questions has an answer row |
| SubmissionApi.CheckVideos | app/Http/Controllers/Api/SubmissionController.php:114-127 | the loop with its early exit reports true exactly when every snapshot chapter's video is done |
| SubmissionApi.CollectMissing | app/Http/Controllers/Api/SubmissionController.php:247-264 | the loop computes the all-answered flag and exactly the rules' missing-answer list |
| SubmissionApi.MissingInChapter | app/Http/Controllers/Api/SubmissionController.php:252-262 | the inner loop lists exactly the chapter's unanswered questions, in order, and flags whether there are none |
| SubmissionApi.FindResume | app/Http/Controllers/Api/SubmissionController.php:313-347 | the loop with its breaks returns the resume point the rules define |
| SubmissionApi.StoreAnswers | app/Http/Controllers/Api/SubmissionController.php:82-87 | the answers table becomes the batch upsert of the old one, and nothing else changes |
| SubmissionApi.SubmitAnswers | app/Http/Controllers/Api/SubmissionController.php:51-165 | refusals come in order (missing, not owner, completed, invalid, video not done) and write nothing; otherwise answers are upserted; status is completed, stamped and notified once exactly when all answered, all videos done and no live chapter is new, else pending; the snapshot is kept |
| SubmissionApi.Complete | app/Http/Controllers/Api/SubmissionController.php:171-301 | not-owner is refused with nothing written; new live chapters are merged with the raw pass percentage, completed is demoted, and the result is not an error; a completed submission is refused; an incomplete one is refused with the flags and the missing list and nothing changes; else it is completed, stamped and notified once |
| SubmissionApi.GetLastUnanswered | app/Http/Controllers/Api/SubmissionController.php:306-360 | a non-owner is refused; otherwise the resume point of the stored snapshot is returned |
| SubmissionApi.EnrichSnapshot | app/Http/Controllers/Api/SubmissionController.php:26-43 | the in-place loops produce exactly the enriched chapter list |
| SubmissionApi.EnrichQuestionList | app/Http/Controllers/Api/SubmissionController.php:30-38 | each question missing its key gets the live key when the live question has a truthy one; every other question is kept |
| SubmissionApi.Show | app/Http/Controllers/Api/SubmissionController.php:16-46 | a non-owner is refused; otherwise the submission is returned with only its snapshot enriched |
| VideoApi.ProgressRecord | app/Http/Controllers/Api/VideoCompletionController.php:32-47 | the written row is completed exactly when progress reaches 100%, and its completion time is set exactly then |
| VideoApi.MarkedRecord | app/Http/Controllers/Api/VideoCompletionController.php:69-82 | the written row is completed at 100% with a completion time, and watched time is the total, or 0 without one |
| VideoApi.UpsertVideoSeparate | app/Http/Controllers/Api/VideoCompletionController.php:34-47 | writing one key's row changes no other key's completion, and the key's own completion is the new row's |
| VideoApi.LowProgressUndoesCompletion | app/Http/Controllers/Api/VideoCompletionController.php:32-45 | a report below 100% leaves the video not done, even after it was completed |
| VideoApi.UpdateProgress | app/Http/Controllers/Api/VideoCompletionController.php:16-50 | refusals come in order (unknown chapter, invalid request, not owner) and write nothing; success is exactly when all checks pass, and then replaces the one row for (user, chapter, submission) and touches no other table |
| VideoApi.MarkCompleted | app/Http/Controllers/Api/VideoCompletionController.php:55-85 | the same refusals; on success the row is written as completed and the chapter's video counts as done |
| VideoApi.CheckCompletion | app/Http/Controllers/Api/VideoCompletionController.php:90-113 | read-only; it reports the row's flag and progress, or not completed at 0 with no row |
| VideoApi.MarkThenCheck | app/Http/Controllers/Api/VideoCompletionController.php:55-113 | after a successful mark, the check reports the video completed at 100% |
| ProgressApi.RowOf | app/Http/Controllers/Api/UserProgressController.php:38-56 | a chapter entry is completed exactly when its video is done, and takes progress and time from the row, or 0 and null without one |
| ProgressApi.Rows | app/Http/Controllers/Api/UserProgressController.php:38-57 | one entry per snapshot chapter, in snapshot order |
| ProgressApi.Details | app/Http/Controllers/Api/UserProgressController.php:108-129 | one detailed entry per snapshot chapter, in snapshot order |
| ProgressApi.CompletedCountAllIff | app/Http/Controllers/Api/UserProgressController.php:38-47 | the completed count is at most the chapter count, and equals it exactly when every video is done |
| ProgressApi.DetailsExtendRows | app/Http/Controllers/Api/UserProgressController.php:119-128 | `show` entries extend `index` entries, and `questions_count` is the chapter's question count |
| ProgressApi.TotalsOf | app/Http/Controllers/Api/UserProgressController.php:72-78 | the total is the chapter count and the completed count is at most the total; the percentage is at most 100%, is 0 without chapters, and is 100% when all are done |
| ProgressApi.ProgressRows | app/Http/Controllers/Api/UserProgressController.php:38-57 | the loop builds exactly the entries and the completed count |
| ProgressApi.DetailRows | app/Http/Controllers/Api/UserProgressController.php:108-129 | the loop builds exactly the detailed entries and the completed count |
| ProgressApi.Show | app/Http/Controllers/Api/UserProgressController.php:90-142 | refusals come in order (missing, not owner, no snapshot); otherwise it returns the entries and totals of the snapshot |
| ProgressApi.IndexEntries | app/Http/Controllers/Api/UserProgressController.php:26-82 | every entry is that of one of the user's submissions with a snapshot, and there are at most as many entries as rows |
| ProgressApi.IndexComplete | app/Http/Controllers/Api/UserProgressController.php:26-32 | every submission of the user that has a snapshot appears |
| ProgressApi.Index | app/Http/Controllers/Api/UserProgressController.php:15-85 | the loop over the table builds exactly those entries, in table order |
| Grading.Wrap | app/Http/Controllers/Api/Admin/SubmissionController.php:76-78 | a key that is neither null nor a list becomes a one-element list; null and lists are kept |
| Grading.KeyList | app/Http/Controllers/Api/Admin/SubmissionController.php:86 | the key is used as its own list when it is one, else as a one-element list when truthy, else as the empty list |
| Grading.IsCorrect | app/Http/Controllers/Api/Admin/SubmissionController.php:86-118 | an empty key never matches; single choice compares string forms of the first payload value and the key; multi choice compares non-blank string forms as multisets; text compares trimmed, lower-cased, non-empty strings |
| Grading.MultiChoiceIgnoresOrder | app/Http/Controllers/Api/Admin/SubmissionController.php:100-109 | reordering a multi-choice payload does not change its grade |
| Grading.MultiChoiceReordered | app/Http/Controllers/Api/Admin/SubmissionController.php:100-109 | `["b","a"]` matches the key `["a","b"]` |
| Grading.MultiChoicePartial | app/Http/Controllers/Api/Admin/SubmissionController.php:100-109 | for any two non-blank values with different string forms, the payload `[x]` does not match the key `[x, y]` |
| Grading.SingleChoiceNumeric | app/Http/Controllers/Api/Admin/SubmissionController.php:91-99 | the integer payload 2 matches the key `"2"` |
| Grading.SingleChoiceFirstOfList | app/Http/Controllers/Api/Admin/SubmissionController.php:91-99 | a list payload is graded by its first element |
| Grading.TextIgnoresCaseAndBlanks | app/Http/Controllers/Api/Admin/SubmissionController.php:110-118 | the payload `" paris "` matches the key `"Paris"` |
| Grading.TextNeedsString | app/Http/Controllers/Api/Admin/SubmissionController.php:110-118 | a non-string payload never matches a text question |
| Grading.GradeQuestion | app/Http/Controllers/Api/Admin/SubmissionController.php:80-140 | an entry is answered exactly when an answer row exists, correct only if answered, and then graded against the fallback-and-wrapped key; it reports the question's ids, title, text, type and options, that key as the correct answer, and the stored payload as the user answer |
| Grading.GradeAll | app/Http/Controllers/Api/Admin/SubmissionController.php:56-143 | there is one entry per snapshot question |
| Grading.GradeAllInOrder | app/Http/Controllers/Api/Admin/SubmissionController.php:129-140 | the entries' question ids are the snapshot's question ids in snapshot order |
| Grading.CountsPartition | app/Http/Controllers/Api/Admin/SubmissionController.php:120-127 | correct, wrong and unanswered add up to the number of entries |
| Grading.GradeAllCoherent | app/Http/Controllers/Api/Admin/SubmissionController.php:120-127 | no graded entry is correct without being answered |
| Grading.ScoreHundredths | app/Http/Controllers/Api/Admin/SubmissionController.php:152-154 | the score is 0 without questions and never above 100% |
| Grading.ScoreRounding | app/Http/Controllers/Api/Admin/SubmissionController.php:152-154 | with questions, the score is the share of correct answers in hundredths of a percent, rounded half up |
| Grading.ScoreFull | app/Http/Controllers/Api/Admin/SubmissionController.php:152-154 | all answers correct scores exactly 100%; with fewer than 20000 questions only that does |
| Grading.Tick | app/Http/Controllers/Api/Admin/SubmissionController.php:120-127 | one graded question adds one to exactly the counter it falls under (correct, wrong or unanswered), so the counters keep agreeing with the entries |
| Grading.GradeChapter | app/Http/Controllers/Api/Admin/SubmissionController.php:60-142 | the inner loop builds exactly one chapter's entries and its counters |
| Grading.GradeSubmission | app/Http/Controllers/Api/Admin/SubmissionController.php:44-158 | the loops build exactly the entries of the snapshot; the total is the snapshot's question count and equals correct plus wrong plus unanswered; the score is computed from those counters |
| Questions.NormalizeCorrectAnswer | app/Http/Controllers/Api/Admin/QuestionController.php:81-104 | null and the empty string become null; a list is kept; any other value becomes a one-element list |
| Questions.NormalizeIgnoresType | app/Http/Controllers/Api/Admin/QuestionController.php:87-103 | the question type has no effect on the result |
| Questions.NormalizeIdempotent | app/Http/Controllers/Api/Admin/QuestionController.php:81-104 | normalising twice is normalising once |
| Questions.NormalizedIsWrapped | app/Http/Controllers/Api/Admin/SubmissionController.php:76-78 | a stored key is already in the form the admin grader wraps keys into |
| Questions.ChoicesOf | app/Http/Controllers/Api/Admin/QuestionController.php:30-31 | each validated option element becomes a choice with its id and label, in order |
| Questions.Created | app/Http/Controllers/Api/Admin/QuestionController.php:26-43 | the created row has the text, the type, the normalised key and the validated options (none when absent); its display order is the given one or the column default 0 |
| Questions.Updated | app/Http/Controllers/Api/Admin/QuestionController.php:63-72 | present fields replace stored ones; the key is normalised with the new or the stored type only when given and not null; a given null clears it; an absent key is kept |
| Questions.UpdateKeepsUnmentionedAnswer | app/Http/Controllers/Api/Admin/QuestionController.php:64-70 | an update without a key keeps the stored key, even when the type changes |
| Questions.QuestionTable.StoreQuestion | app/Http/Controllers/Api/Admin/QuestionController.php:24-46 | an unknown chapter is a 404 and an invalid request is refused, both writing nothing; success adds exactly one row under a new id |
| Questions.QuestionTable.UpdateQuestion | app/Http/Controllers/Api/Admin/QuestionController.php:51-75 | an unknown question is a 404 and an invalid request is refused, both writing nothing; success replaces exactly that row |
| CsvImport.NormalizeHeader | app/Http/Controllers/Api/Admin/InductionImportController.php:43-45 | each header cell is trimmed and lower-cased, position by position |
| CsvImport.FirstMissing | app/Http/Controllers/Api/Admin/InductionImportController.php:47-58 | nothing is reported exactly when all required columns are present; otherwise the first absent required column is reported |
| CsvImport.CheckColumns | app/Http/Controllers/Api/Admin/InductionImportController.php:54-58 | the loop with its early return reports that first missing column |
| CsvImport.Combine | app/Http/Controllers/Api/Admin/InductionImportController.php:65 | the combined row is keyed by exactly the header's cells |
| CsvImport.CombineCell | app/Http/Controllers/Api/Admin/InductionImportController.php:65 | a header cell that no later cell repeats keys the cell below it |
| CsvImport.DataRows | app/Http/Controllers/Api/Admin/InductionImportController.php:60-66 | there are never more kept rows than lines, and every kept row is keyed by the header |
| CsvImport.DataRowsErrSticky | app/Http/Controllers/Api/Admin/InductionImportController.php:61-66 | once a line is refused, later lines do not change the outcome |
| CsvImport.DataRowsNeverMissing | app/Http/Controllers/Api/Admin/InductionImportController.php:60-66 | the row step can refuse only a row length, never a column |
| CsvImport.NoRowsIffAllBlank | app/Http/Controllers/Api/Admin/InductionImportController.php:60-70 | no row is kept exactly when every line is a single blank cell |
| CsvImport.CollectRows | app/Http/Controllers/Api/Admin/InductionImportController.php:60-66 | the row loop computes exactly the kept rows or the refusal |
| CsvImport.IntOr | app/Http/Controllers/Api/Admin/InductionImportController.php:79 | a present cell is cast with `(int)`: its leading signed digit run, saturated at the 64-bit integer range; an absent cell gives the default |
| CsvImport.InductionOf | app/Http/Controllers/Api/Admin/InductionImportController.php:74-80 | the induction is active unless the cell is PHP-falsy, has display order 0 unless given, and has a description only when the column exists |
| CsvImport.ChapterOf | app/Http/Controllers/Api/Admin/InductionImportController.php:88-95 | a chapter has display order 0 and pass percentage 70 unless given, and has description and video URL only when the columns exist |
| CsvImport.IndexOfKey | app/Http/Controllers/Api/Admin/InductionImportController.php:85-87 | the first group with the key is found; no earlier group has it |
| CsvImport.FirstRowsDistinct | app/Http/Controllers/Api/Admin/InductionImportController.php:84-99 | no two chapters share a `chapter_title\|chapter_display_order` key |
| CsvImport.FirstRowsCover | app/Http/Controllers/Api/Admin/InductionImportController.php:84-99 | every row's key has a chapter |
| CsvImport.FirstRowsCoverAt | app/Http/Controllers/Api/Admin/InductionImportController.php:84-99 | the key of the row at any position has a chapter among the first rows |
| CsvImport.FirstRowsEarliest | app/Http/Controllers/Api/Admin/InductionImportController.php:84-99 | each chapter is made from the first row with its key |
| CsvImport.FirstRowsPrefix | app/Http/Controllers/Api/Admin/InductionImportController.php:84-99 | later rows only add chapters after the existing ones |
| CsvImport.SplitList | app/Http/Controllers/Api/Admin/InductionImportController.php:110 | the split entries are non-empty and contain no pipe |
| CsvImport.PipeParts | app/Http/Controllers/Api/Admin/InductionImportController.php:110 | an entry is kept exactly when it is the non-empty trim of some pipe-separated part |
| CsvImport.PipeOptions | app/Http/Controllers/Api/Admin/InductionImportController.php:121-126 | plain labels become options with ids "1".."n" in order |
| CsvImport.PipeIdsDistinct | app/Http/Controllers/Api/Admin/InductionImportController.php:121-126 | those ids are pairwise distinct |
| CsvImport.JsonOptions | app/Http/Controllers/Api/Admin/InductionImportController.php:114-128 | decoded objects keep their id and label; other elements are numbered by position |
| CsvImport.OptionsOf | app/Http/Controllers/Api/Admin/InductionImportController.php:102-112 | an empty or "0" cell gives no options; a cell that does not decode as a JSON list is split on pipes |
| CsvImport.LabelMapKeys | app/Http/Controllers/Api/Admin/InductionImportController.php:142-144 | the map's keys are exactly the lower-cased option labels |
| CsvImport.LabelMapLast | app/Http/Controllers/Api/Admin/InductionImportController.php:142-144 | for repeated labels, the last option's id wins |
| CsvImport.MapAnswers | app/Http/Controllers/Api/Admin/InductionImportController.php:146-149 | each answer is mapped on its own, in order |
| CsvImport.MapAnswerMeaning | app/Http/Controllers/Api/Admin/InductionImportController.php:146-149 | an answer matching no label case-insensitively stays as given; one that matches becomes the id of the last option with that label |
| CsvImport.CorrectOf | app/Http/Controllers/Api/Admin/InductionImportController.php:139-156 | no cell or an empty one leaves the key null; a text question with exactly one mapped answer stores it alone; every other case stores the list |
| CsvImport.QuestionOf | app/Http/Controllers/Api/Admin/InductionImportController.php:130-156 | a question has its chapter, the type cell (or `text`), the row's options, the key computed from them, and display order 0 unless given |
| CsvImport.Questions | app/Http/Controllers/Api/Admin/InductionImportController.php:84-159 | there is exactly one question per row |
| CsvImport.QuestionInItsChapter | app/Http/Controllers/Api/Admin/InductionImportController.php:96-98 | a row's question is attached to the chapter of the row's key |
| CsvImport.QuestionsInTheirChapter | app/Http/Controllers/Api/Admin/InductionImportController.php:84-158 | every row's question is attached to the chapter of its key |
| CsvImport.Chapters | app/Http/Controllers/Api/Admin/InductionImportController.php:88-96 | one chapter per group, in first-occurrence order |
| CsvImport.Plan | app/Http/Controllers/Api/Admin/InductionImportController.php:43-161 | a missing required column refuses the import, naming the first one, before rows are read |
| CsvImport.HeaderRefusal | app/Http/Controllers/Api/Admin/InductionImportController.php:47-58 | the import is refused for a column exactly when a required column is missing, and it names a required, absent column |
| CsvImport.ImportOutcome | app/Http/Controllers/Api/Admin/InductionImportController.php:72-161 | a successful import has the induction of the first row, one question per kept row in order, and one chapter per distinct key; each question sits in the chapter made from the first row with its key |
| CsvImport.TypeDefaultUnused | app/Http/Controllers/Api/Admin/InductionImportController.php:133 | once the header is accepted every row has a `question_type` cell, so the `text` default is never used |
| CsvImport.CreateAll | app/Http/Controllers/Api/Admin/InductionImportController.php:82-159 | the loop with its chapter map creates exactly the specified chapters and questions |
| CsvImport.Import | app/Http/Controllers/Api/Admin/InductionImportController.php:43-161 | the whole import computes exactly its specification |

## Left out

- Authentication is left out; so are Sanctum tokens and the admin role. An
  ownership check is a comparison of user ids passed in.
- The mail itself is left out; only the count of notifications sent is
  kept. The sender address from the environment is left out too.
- The storage disk's URL generator is a function parameter; file uploads
  are left out.
- CSV reading is left out: opening the file, `fgetcsv`, the "header
  missing" answer and the database transaction. The import starts from the
  header and the rows already split into cells.
- `json_decode` is a parameter that yields a list of items or nothing. A
  JSON document whose top level is an object is not modelled. Nor does the
  model cast non-string JSON values to strings.
- `array_combine` with a row longer or shorter than the header throws in
  PHP. The model turns that into the `RowLengthMismatch` refusal and models
  nothing more of it.
- The database ids of created inductions, chapters and questions are left
  out. An imported question refers to its chapter by position among the
  created chapters.
- Floating point is left out. The service rounds percentages with
  `round(..., 2)` on floats; the model rounds the exact ratio half up to
  hundredths. The decimal `progress_percentage` column is an integer in
  hundredths.
- Grading.IsCorrect: multi-choice values are compared as multisets of
  strings, which is what sorting them as plain strings and comparing the
  lists amounts to. PHP's `sort` with `SORT_REGULAR` compares numeric
  strings as numbers instead. When two different strings compare equal
  that way (`"1"` and `"1.0"`), or compare cyclically (`"1e1"`, `"9"`,
  `"1f"`), the sorted lists depend on the input order. Then PHP can grade
  a payload wrong that the model grades correct: payload `["1","1.0"]`
  against the key `["1.0","1"]` is one case.
- CsvImport.IntOr: the `(int)` cast (`Php.IntCast`) reads only the leading
  signed run of digits. PHP also reads a fraction and an exponent and
  truncates the float: `(int)"1e2"` is 100 in PHP and 1 in the model.
  Saturation at the 64-bit range is modelled.
- Read-modify-write races between requests are left out. Every operation is
  one atomic step.
- Index entries carry the induction's id but not its title or description,
  which come from the inductions table. Submission creation and start times
  are also left out.
- Queries return rows in insertion order (`rowOrder`). The database's real
  ordering of ties is not modelled.
- The chapter key `title|order` can make two chapters the same group. For
  example, titles "a|" with order "b" and "a" with order "|b" both give
  "a||b". The model keeps this key exactly as the source builds it.
- Admin CRUD is left out: inductions, chapters, the reorder endpoints and
  the admin list filters. So are the routes and the migrations. The model
  keeps only the video completion table's unique key and the status enum.
- Question validation is modelled field by field. A `display_order` that
  is not an integer becomes `Present(None)`, so the integer rule fails. The
  request's `type` default and the `exists` checks against other tables are
  left out.
- ProgressApi.TotalsOf: the percentage is proved to be 100% only when every
  video is done for fewer than 20000 chapters, not as an equivalence. From
  20000 chapters on, rounding to hundredths shows 100.00 with one chapter
  left.
- Grading.ScoreFull: the same bound applies to the admin score, at 20000
  questions.
- VideoApi.MarkThenCheck: when the mark fails validation, nothing is said
  about the check. `checkCompletion` does not validate `total_seconds`,
  so the check can still succeed.
- VideoApi.CheckCompletion: the check of `submission_id` against the
  submissions table is modelled; its other validation messages are left out.
