# codeLearner core in Dafny

A model of the headless layer of codeLearner, a study app for programming
concepts. It covers five parts, each in its own module:

- **Curriculum builder** (`CourseStructure`, course.dfy) — from lib/courseStructure.ts.
  - It splits the study items into modules by a fixed table of category patterns; the first matching row wins.
  - Items that match no row go to a trailing "more-topics" module.
  - It cuts each module into lessons of at most five items of one category.
- **Progress engine** (`Progress`, progress.dfy) — from lib/progress.ts: streak, XP, lesson completion, quiz recording with the mastery state machine, and levels.
- **Achievement evaluator** (`Gamification`, gamification.dfy) — from lib/gamification.ts: the 18 threshold conditions and the filter that reports the achievements newly earned.
- **Quiz generator** (`QuizGenerator`, quiz.dfy) — from lib/quizGenerator.ts: the Fisher–Yates shuffle, distractors, multiple-choice and true/false questions, and the quiz loop.
- **Offline extractor** (scripts/parse-data.mjs), in four modules:
  - `BlockSplitter` (splitter.dfy): splits the input text into "Project:" blocks.
  - `ItemMerge` (merge.dfy): merges a duplicate item into the existing one.
  - `Collector` (collector.dfy): the dedup key, the id counter and `addItem`, as a class whose fields are the global item list, the seen-key set and the counter.
  - `Derivations` (derive.dfy): the two derived teaching fields.

Shared code:

- `Text` (text.dfy) holds the parts of JavaScript's string library that the core uses: `toLowerCase`, `trim`, `includes`, `join` and number rendering.
- `Types` (types.dfy) holds the records of lib/types.ts.

Code that changes state step by step is modelled as methods with loops:

- `createLessons` and `buildModules`;
- the loops of `completeLesson`, `recordQuizResult` and `getLevel`;
- `shuffle` and the `generateQuiz` loop;
- the block splitter and `addItem`.

Each such method is proved equal to a specification function. The properties the code promises are lemmas about those functions. Pure code (`updateStreak`, `addXP`, the achievement filter, `slug`, the derivations) is modelled as functions with lemmas.

Randomness and the clock are inputs:

- A shuffle reads its k-th swap from an oracle `draws: nat -> nat`. The swap index is `draws(k) % (i + 1)`, which is any index in `0..i`, as `Math.floor(Math.random() * (i + 1))` is.
- The coin flips of the quiz generator are booleans taken from a per-question oracle.
- `updateStreak` takes `today` and `yesterday` as day stamps.

## Model

| member | source | states |
|---|---|---|
| Text.Lower | 26-02-codeLearner/scripts/parse-data.mjs:49 | lower-casing keeps the length, leaves no upper-case letter, keeps every other character, and turns each upper-case letter into its lower-case partner (ASCII letters only) |
| Text.LowerConcat | 26-02-codeLearner/scripts/parse-data.mjs:49 | lower-casing a concatenation is concatenating the lower-cased parts |
| Text.LowerIdempotent | 26-02-codeLearner/scripts/parse-data.mjs:49 | lower-casing twice is lower-casing once, and a string without upper-case letters is unchanged |
| Text.TrimSpec | 26-02-codeLearner/scripts/parse-data.mjs:21 | `trim` removes exactly white space at both ends: the result is a slice of the input with only white space cut off on either side; it is empty exactly when the input is all white space; otherwise its first and last characters are not white space |
| Text.NatToStringInjective | 26-02-codeLearner/scripts/parse-data.mjs:88 | distinct counter values render as distinct decimal strings |
| Text.PrefixedNatInjective | 26-02-codeLearner/scripts/parse-data.mjs:88 | ids formed as a fixed prefix plus a rendered number are equal only for equal numbers |
| CourseStructure.CategoriesSpec | 26-02-codeLearner/lib/courseStructure.ts:246-252 | the Map's key order lists every category of the items, each exactly once, and nothing else |
| CourseStructure.OfCategorySpec | 26-02-codeLearner/lib/courseStructure.ts:248-252 | the group of a category holds exactly the items of that category |
| CourseStructure.GroupByCategory | 26-02-codeLearner/lib/courseStructure.ts:246-252 | the first loop builds a map whose keys, in insertion order, are the distinct categories in first-seen order, each mapped to its items in input order |
| CourseStructure.AppendRuns | 26-02-codeLearner/lib/courseStructure.ts:258-272 | the inner loop appends one lesson per run of five of the group, numbered on from the lessons already made |
| CourseStructure.CreateLessons | 26-02-codeLearner/lib/courseStructure.ts:244-276 | createLessons returns the specification's lessons: runs of five of each category group, category after category, numbered 0, 1, 2, … |
| CourseStructure.ChunkCountBound | 26-02-codeLearner/lib/courseStructure.ts:258 | the loop `i += 5` makes a run at offset 5q exactly when 5q is below the group size |
| CourseStructure.GroupedIsPermutation | 26-02-codeLearner/lib/courseStructure.ts:246-257 | regrouping by category is a permutation of the module's items |
| CourseStructure.LessonsPartition | 26-02-codeLearner/lib/courseStructure.ts:246-272 | the lessons' items, concatenated, are the module's items regrouped by category (categories in first-seen order, input order within one), a permutation of the items |
| CourseStructure.LessonsShape | 26-02-codeLearner/lib/courseStructure.ts:255-271 | each lesson: order k, id `moduleId-lesson-k`, the module's id, 1 to 5 items forming one run of five of a single category's group, title the category plus the part suffix of that run, description the items' terms joined by ", " |
| CourseStructure.PartSuffixShape | 26-02-codeLearner/lib/courseStructure.ts:260-263 | the " (Part k)" suffix is present exactly when the category has more than five items |
| CourseStructure.LessonIdsDistinct | 26-02-codeLearner/lib/courseStructure.ts:265 | lesson ids within a module never repeat |
| CourseStructure.Home | 26-02-codeLearner/lib/courseStructure.ts:281-289 | the home row of a category is the first table row listing it; no earlier row lists it; the fallback when none does |
| CourseStructure.NonEmptyModules | 26-02-codeLearner/lib/courseStructure.ts:321 | the final filter keeps exactly the modules with items |
| CourseStructure.ClaimPass | 26-02-codeLearner/lib/courseStructure.ts:282-289 | the filter callback skips claimed ids and takes (and claims) the items whose category is in the row's patterns, in corpus order |
| CourseStructure.UnclaimedPass | 26-02-codeLearner/lib/courseStructure.ts:306 | the unclaimed filter keeps the items whose id is not claimed |
| CourseStructure.BuildRow | 26-02-codeLearner/lib/courseStructure.ts:281-303 | one `MODULE_DEFS.map` callback builds its row's module and extends the shared claimed set by the ids it took |
| CourseStructure.BuildModules | 26-02-codeLearner/lib/courseStructure.ts:278-322 | buildModules returns the specification's curriculum for the shipped table, and every returned module has items |
| CourseStructure.BuildModulesOver | 26-02-codeLearner/lib/courseStructure.ts:278-322 | the same for any table |
| CourseStructure.HomedInSpec | 26-02-codeLearner/lib/courseStructure.ts:282-289 | the items homed at a row are exactly the items whose category's home is that row |
| CourseStructure.ClaimHomed | 26-02-codeLearner/lib/courseStructure.ts:282-289 | with unique ids, a row's pass started from the ids homed at earlier rows takes exactly the items homed at that row, in corpus order, and claims their ids |
| CourseStructure.ClaimedBeforeIds | 26-02-codeLearner/lib/courseStructure.ts:279-289 | after k rows the shared claimed set is exactly the ids homed before row k |
| CourseStructure.UnclaimedHomed | 26-02-codeLearner/lib/courseStructure.ts:306 | after all rows, the unclaimed items are exactly those matching no row |
| CourseStructure.RowModuleShape | 26-02-codeLearner/lib/courseStructure.ts:291-318 | each row's module carries the row's id, the items homed there in corpus order, and the lessons createLessons makes of them |
| CourseStructure.CurriculumRows | 26-02-codeLearner/lib/courseStructure.ts:305-321 | the result is the non-empty rows, the fallback last; an empty fallback is never pushed, which the final filter would drop anyway |
| CourseStructure.CurriculumModules | 26-02-codeLearner/lib/courseStructure.ts:281-321 | every returned module is non-empty and is some row's module: its id, its homed items, its lessons |
| CourseStructure.CurriculumIdsDistinct | 26-02-codeLearner/lib/courseStructure.ts:281-321 | with distinct row ids, returned module ids are distinct |
| CourseStructure.CurriculumPartition | 26-02-codeLearner/lib/courseStructure.ts:278-322 | with unique item ids, each item lies in exactly one returned module, the one of its category's first matching row (else "more-topics"), and module ids are distinct |
| CourseStructure.MoreTopicsLast | 26-02-codeLearner/lib/courseStructure.ts:306-319 | the last module is "more-topics" exactly when some item matches no pattern |
| CourseStructure.MoreTopicsCategories | 26-02-codeLearner/lib/courseStructure.ts:315 | the fallback's categories are the distinct unclaimed categories in first-seen order |
| CourseStructure.ModuleDefsIdsDistinct | 26-02-codeLearner/lib/courseStructure.ts:3-242 | the shipped table's ids are pairwise distinct and differ from "more-topics" |
| Progress.UpdateStreak | 26-02-codeLearner/lib/progress.ts:39-50 | same day: unchanged; otherwise streak+1 after yesterday, 1 in every other case, last study date today, nothing else changed |
| Progress.UpdateStreakIdempotent | 26-02-codeLearner/lib/progress.ts:41 | a second update on the same day changes nothing |
| Progress.ConsecutiveDaysStreak | 26-02-codeLearner/lib/progress.ts:39-50 | studying on n consecutive days from a fresh start gives a streak of n |
| Progress.AddXP | 26-02-codeLearner/lib/progress.ts:52-54 | xp grows by exactly the amount, then the streak update applies; nothing else changes |
| Progress.MarkedSeenSpec | 26-02-codeLearner/lib/progress.ts:63-70 | after the loop an item is "seen" exactly when it was listed and absent or "new"; all other levels are kept, and the map gains only listed keys |
| Progress.MarkedSeenSnoc | 26-02-codeLearner/lib/progress.ts:65-70 | one loop turn marks the id "seen" and counts it exactly when it is absent or "new" in the running map, which happens only at its first listing |
| Progress.CompleteLesson | 26-02-codeLearner/lib/progress.ts:56-81 | completeLesson (a loop over the ids) returns the specification's result |
| Progress.CompleteLessonIdempotent | 26-02-codeLearner/lib/progress.ts:61 | completing a lesson twice is completing it once |
| Progress.CompleteLessonEffect | 26-02-codeLearner/lib/progress.ts:61-80 | a fresh completion appends the lesson, awards 50 XP, counts one studied item per distinct first-timer (at most the number of ids), marks first-timers "seen" and leaves every other entry as it was |
| Progress.CompleteLessonMastery | 26-02-codeLearner/lib/progress.ts:56-126 | read through getItemMastery, a first completion leaves no listed item at "new" and lowers no item's level |
| Progress.FirstTimersBound | 26-02-codeLearner/lib/progress.ts:65-70 | the studied count grows by at most the number of ids |
| Progress.ScoreRounding | 26-02-codeLearner/lib/progress.ts:90 | the integer score is correct/total·100 rounded half up |
| Progress.ScoreBounds | 26-02-codeLearner/lib/progress.ts:90 | for 0 ≤ correct ≤ total the score is in 0..100, and all correct scores 100 |
| Progress.PerfectScoreMeansAllCorrect | 26-02-codeLearner/lib/progress.ts:90-104 | below 200 questions a score of 100 means all answers were correct |
| Progress.NearPerfectRoundsUp | 26-02-codeLearner/lib/progress.ts:90-104 | example: under the model's integer rounding, 199 of 200 rounds to 100 and earns the perfect-score bonus |
| Progress.NextLevel | 26-02-codeLearner/lib/progress.ts:95-101 | the transition table: a right answer raises every level but mastered, always to at least learning, and reaches mastered only from learning or mastered; a wrong answer lowers only mastered, by exactly one step |
| Progress.MasteryStepSpec | 26-02-codeLearner/lib/progress.ts:94-102 | one loop turn moves the answered item along the state machine (absent read as "new") and touches no other entry |
| Progress.MasteryAfterPerItem | 26-02-codeLearner/lib/progress.ts:94-102 | each item's final level is its start level replayed through its own answers only |
| Progress.MasteryAfterUntouched | 26-02-codeLearner/lib/progress.ts:94-102 | items not answered keep their entry, present or absent |
| Progress.RecordQuizResult | 26-02-codeLearner/lib/progress.ts:83-119 | recordQuizResult (a loop over the results) returns the specification's result |
| Progress.QuizRecordedCounters | 26-02-codeLearner/lib/progress.ts:90-118 | high score max(previous or 0, score), never lower, other quizzes untouched; quizzes +1; correct answers +correct; XP +10·correct, +25 exactly at score 100 |
| Progress.QuizMastery | 26-02-codeLearner/lib/progress.ts:83-126 | read through getItemMastery, an item's level after a quiz is its level before, replayed through its own answers in order |
| Progress.ThresholdsIncrease | 26-02-codeLearner/lib/progress.ts:134-136 | the level thresholds strictly increase |
| Progress.LevelIndexUnique | 26-02-codeLearner/lib/progress.ts:151-157 | at most one index is the largest threshold not above xp |
| Progress.LevelIndexExists | 26-02-codeLearner/lib/progress.ts:151-157 | every xp has such an index; a negative xp gets index 0 |
| Progress.GetLevel | 26-02-codeLearner/lib/progress.ts:128-166 | level = 1 + the largest index whose threshold is at most xp (1 below all); currentXP = xp minus that threshold; requiredXP the gap to the next threshold, or 2500 at the top; the matching title |
| Progress.LevelExamples | 26-02-codeLearner/lib/progress.ts:134-165 | example: 0 and 99 XP are level 1; 100 XP is level 2 with 0 current XP |
| Gamification.NewlyEarnedSpec | 26-02-codeLearner/lib/gamification.ts:155-157 | the filter keeps exactly the unrecorded entries whose condition holds |
| Gamification.NewlyEarnedAppend | 26-02-codeLearner/lib/gamification.ts:155-157 | the filter keeps table order |
| Gamification.CheckNewAchievementsSpec | 26-02-codeLearner/lib/gamification.ts:152-158 | checkNewAchievements returns exactly the table entries not recorded whose condition holds; it never returns a recorded id |
| Gamification.RecordingReportedIsFinal | 26-02-codeLearner/lib/gamification.ts:155-157 | after recording every returned id, changing nothing else, a second call returns nothing |
| Gamification.FamiliesNested | 26-02-codeLearner/lib/gamification.ts:10-148 | within a family, meeting a higher threshold means meeting every lower one |
| Gamification.TableThresholdsIncrease | 26-02-codeLearner/lib/gamification.ts:3-150 | within a family, later table entries have strictly higher thresholds |
| Gamification.TableIdsDistinct | 26-02-codeLearner/lib/gamification.ts:3-150 | achievement ids are pairwise distinct |
| Gamification.RewardsPositive | 26-02-codeLearner/lib/gamification.ts:3-150 | every reward is positive |
| Gamification.PerfectAndMasteredConditions | 26-02-codeLearner/lib/gamification.ts:58-123 | "perfect-score" holds exactly when some high score is 100; "mastered-10" counts the entries equal to mastered |
| QuizGenerator.SwapPermutes | 26-02-codeLearner/lib/quizGenerator.ts:7 | a swap permutes the sequence |
| QuizGenerator.SwapIndex | 26-02-codeLearner/lib/quizGenerator.ts:6 | the swap partner of position i lies in 0..i |
| QuizGenerator.ShuffledPermutes | 26-02-codeLearner/lib/quizGenerator.ts:3-10 | the shuffle's result is a permutation of the input, of the same length |
| QuizGenerator.ShuffledMap | 26-02-codeLearner/lib/quizGenerator.ts:3-10 | the shuffle moves positions only: mapping after shuffling is shuffling after mapping with the same draws |
| QuizGenerator.Shuffle | 26-02-codeLearner/lib/quizGenerator.ts:3-10 | the in-place loop on a copy returns the specification's shuffle, a permutation of the input; the input is a value and is not changed |
| QuizGenerator.SentinelHasNoContent | 26-02-codeLearner/lib/quizGenerator.ts:12-14 | hasContent is false for "", for anything starting "Not specified", and for the extractor's fallback text |
| QuizGenerator.GetDescription | 26-02-codeLearner/lib/quizGenerator.ts:30-36 | whatItIs if it has content and differs from the term, else definition under the same test, else the term; the result differs from the term exactly when one of the two qualified |
| QuizGenerator.CandidatesSpec | 26-02-codeLearner/lib/quizGenerator.ts:21-26 | the candidates are exactly the pool items with another id, content in whatItIs and whatItIs unlike the term |
| QuizGenerator.PickDistractorsSpec | 26-02-codeLearner/lib/quizGenerator.ts:16-28 | min(count, candidates) pool items, none with the correct id, each with a usable whatItIs, no item more often than in the pool |
| QuizGenerator.FindCorrect | 26-02-codeLearner/lib/quizGenerator.ts:50 | findIndex: the first index whose flag is set, or -1 when none is |
| QuizGenerator.ShuffledOptions | 26-02-codeLearner/lib/quizGenerator.ts:48-56 | after shuffling the tagged options, the index found holds the first option, and the texts are the shuffled options |
| QuizGenerator.MultipleChoiceSpec | 26-02-codeLearner/lib/quizGenerator.ts:38-61 | null exactly when the description is the term or fewer than 3 distractors exist; otherwise 4 options, a permutation of the description and 3 distractor descriptions, with options[correctAnswer] = description = explanation, id "mc-"+item id |
| QuizGenerator.TrueFalseSpec | 26-02-codeLearner/lib/quizGenerator.ts:63-95 | null exactly when the description is the term, or on false polarity when there is no distractor (no fallback to true); otherwise the answer is the polarity, id "tf-"+item id, the explanation contains the description, and a false statement describes another item |
| QuizGenerator.ContainsInfix | 26-02-codeLearner/lib/quizGenerator.ts:78-92 | the explanation template contains the description |
| QuizGenerator.GenerateSpec | 26-02-codeLearner/lib/quizGenerator.ts:108-111 | a generated question is well formed and belongs to its item |
| QuizGenerator.GenerateQuiz | 26-02-codeLearner/lib/quizGenerator.ts:97-117 | the loop with `break` returns the specification's quiz |
| QuizGenerator.CollectLength | 26-02-codeLearner/lib/quizGenerator.ts:105-114 | the loop adds at most one question per pool item, stops at count, and keeps what it had |
| QuizGenerator.CollectWellFormed | 26-02-codeLearner/lib/quizGenerator.ts:105-114 | the loop only pushes well-formed questions |
| QuizGenerator.CollectIds | 26-02-codeLearner/lib/quizGenerator.ts:105-114 | the questions' item ids are drawn from the pool's, no id more often than there |
| QuizGenerator.QuizSpec | 26-02-codeLearner/lib/quizGenerator.ts:97-117 | at most as many questions as items and at most count, all well formed, each from an item, and with unique item ids no item yields two questions |
| QuizGenerator.CollectSpec | 26-02-codeLearner/lib/quizGenerator.ts:105-114 | the loop returns exactly the non-null questions of the pool entries before its stop position, which is the first position where count questions are collected, or the end of the pool |
| QuizGenerator.GenerateUsable | 26-02-codeLearner/lib/quizGenerator.ts:108-111 | an item with a usable description and at least three distractor candidates yields a question whichever generator the coin picks; an item without a usable description yields none |
| QuizGenerator.QuizCount | 26-02-codeLearner/lib/quizGenerator.ts:97-117 | a quiz has at least min(count, usable items) questions and at most min(number of items, count), hence exactly min(number of items, count) when every item is usable |
| BlockSplitter.LastNewline | 26-02-codeLearner/scripts/parse-data.mjs:15 | the last newline position, or -1 when there is none |
| BlockSplitter.SplitLinesJoin | 26-02-codeLearner/scripts/parse-data.mjs:15 | `split("\n")` round-trips: joining the lines with "\n" gives the text back, and no line holds a newline |
| BlockSplitter.UpToTerminator | 26-02-codeLearner/scripts/parse-data.mjs:16 | what the regular expression's `.` can match: the longest prefix without a line terminator |
| BlockSplitter.HeaderNameTrimmed | 26-02-codeLearner/scripts/parse-data.mjs:16-21 | a header line starts with "Project:" and its name has no white space at either end |
| BlockSplitter.HeaderNameOfPrefixed | 26-02-codeLearner/scripts/parse-data.mjs:16 | the header match is decided by what follows "Project:" |
| BlockSplitter.CaptureExample | 26-02-codeLearner/scripts/parse-data.mjs:16-21 | example: "Project: Kiln" names the block "Kiln" |
| BlockSplitter.CaptureCarriageReturnExample | 26-02-codeLearner/scripts/parse-data.mjs:16-21 | example: a header with CRLF ending and tab gives the bare name |
| BlockSplitter.CaptureEdgeExamples | 26-02-codeLearner/scripts/parse-data.mjs:16-21 | example: "Project:   " is a header with an empty name; a bare "Project:" is no header |
| BlockSplitter.NotHeaderExample | 26-02-codeLearner/scripts/parse-data.mjs:16 | example: a JSON line is not a header |
| BlockSplitter.SplitBlocks | 26-02-codeLearner/scripts/parse-data.mjs:9-29 | the splitter loop (with its final flush) returns the scan's blocks |
| BlockSplitter.NextHeader | 26-02-codeLearner/scripts/parse-data.mjs:15-26 | the next header at or after a line, with no header in between |
| BlockSplitter.SplitBlocksCorrect | 26-02-codeLearner/scripts/parse-data.mjs:15-29 | the loop's blocks equal the reference definition: one block per header whose trimmed name is non-empty and that is followed by at least one line before the next header, holding those lines joined by newlines |
| BlockSplitter.BlocksShape | 26-02-codeLearner/scripts/parse-data.mjs:15-29 | every block is a header's trimmed name with the lines after it up to the next header (at least one line); lines before the first header are dropped; no header, no blocks |
| ItemMerge.Set | 26-02-codeLearner/scripts/parse-data.mjs:74 | writing a field changes that field and nothing else |
| ItemMerge.FillSpec | 26-02-codeLearner/scripts/parse-data.mjs:69-75 | a field with content is never overwritten; after the rule a field has content exactly when either side had; filling twice is filling once |
| ItemMerge.FillFromSpec | 26-02-codeLearner/scripts/parse-data.mjs:60-76 | over distinct fields, the loop fills each listed field by the rule and changes nothing else |
| ItemMerge.AppendProjectSpec | 26-02-codeLearner/scripts/parse-data.mjs:78-83 | afterwards the project contains the incoming one, ignoring case; the old project is a prefix; re-appending the same project changes nothing |
| ItemMerge.MergedFieldsDistinct | 26-02-codeLearner/scripts/parse-data.mjs:60-68 | the seven fields are distinct and are all the descriptive fields |
| ItemMerge.MergeSpec | 26-02-codeLearner/scripts/parse-data.mjs:59-84 | the merge fills each of the seven fields by the rule, appends the project by its rule, and never changes id, term, kind, language, category or whatItIs |
| ItemMerge.MergeIdempotent | 26-02-codeLearner/scripts/parse-data.mjs:59-84 | merging the same raw item twice is merging it once |
| ItemMerge.MergeOwnRaw | 26-02-codeLearner/scripts/parse-data.mjs:59-88 | merging an item's own raw data back into it changes nothing |
| ItemMerge.MergeInto | 26-02-codeLearner/scripts/parse-data.mjs:59-84 | the field loop and the project rule on the existing item compute the merge |
| Collector.SlugSpec | 26-02-codeLearner/scripts/parse-data.mjs:48-50 | the key is the lower-cased term, language and kind joined by vertical bars with only outer white space removed; it is never empty |
| Collector.SlugIgnoresCase | 26-02-codeLearner/scripts/parse-data.mjs:48-50 | keys ignore the case of term and language |
| Collector.FindKey | 26-02-codeLearner/scripts/parse-data.mjs:56-58 | `items.find`: the first item with the key, or none |
| Collector.MergeLaws | 26-02-codeLearner/scripts/parse-data.mjs:59-84 | the extractor's merge keeps the key fields and id, is idempotent, and is neutral on an item's own raw data |
| Collector.EmptyConsistent | 26-02-codeLearner/scripts/parse-data.mjs:44-46 | the initial state (no items, no keys, counter 1) satisfies the invariant |
| Collector.AddSpec | 26-02-codeLearner/scripts/parse-data.mjs:52-89 | a new key appends exactly one item with id "item-N" for the counter N, records the key and bumps the counter; a seen key never appends and merges into the one item with that key, keeping count, keys and counter |
| Collector.AddConsistent | 26-02-codeLearner/scripts/parse-data.mjs:46-88 | addItem keeps the invariant: `seen` is exactly the items' keys, no two items share a key, the n-th item is "item-n", the counter is one past the count |
| Collector.IdsDistinct | 26-02-codeLearner/scripts/parse-data.mjs:44-88 | under the invariant item ids are distinct |
| Collector.AddIdempotent | 26-02-codeLearner/scripts/parse-data.mjs:52-89 | adding the same raw item twice is adding it once |
| Collector.Extractor.constructor | 26-02-codeLearner/scripts/parse-data.mjs:44-50 | the collector starts empty with counter 1, keyed by the slug, satisfying the invariant |
| Collector.Extractor.AddItem | 26-02-codeLearner/scripts/parse-data.mjs:52-89 | addItem updates the fields in place to the specification's new state and keeps the invariant |
| Derivations.DeriveWhereItRunsIgnoresCase | 26-02-codeLearner/scripts/parse-data.mjs:92-111 | the language and category tests ignore case |
| Derivations.KnownLanguageDecides | 26-02-codeLearner/scripts/parse-data.mjs:93-103 | a known language decides the answer before kind and category are looked at |
| Derivations.DeriveWhereItRunsFallback | 26-02-codeLearner/scripts/parse-data.mjs:92-111 | the fallback is returned exactly when no language, kind or category rule applies |
| Derivations.FallbackNotContent | 26-02-codeLearner/scripts/parse-data.mjs:110 | the fallback text counts as no content for the merge and the quiz |
| Derivations.DeriveProjectUsageSpec | 26-02-codeLearner/scripts/parse-data.mjs:113-116 | the text names the project, quotes the usage when given, and always has content |

## Left out

- The React views, `loadProgress`/`saveProgress` (browser storage and JSON) and the JSON walkers, file I/O and console output of parse-data.mjs are not part of this model.
- The clock is two parameters, `today` and `yesterday`; the UTC date formatting is not modelled.
- `Math.random` is replaced by draw oracles and booleans. Uniformity and the 60/40 and 50/50 odds are not modelled.
- Progress.Score: integer round-half-up of correct/total·100 in place of `Math.round` of a floating-point quotient, with `requires total > 0` because the source yields NaN for a zero total. The results differ where the floating-point product falls just below a half: for 29 of 200 the source computes `Math.round(14.499999999999998)`, which is 14, and the model gives 15. Progress.ScoreRounding, Progress.PerfectScoreMeansAllCorrect and Progress.NearPerfectRoundsUp describe the model's integer rounding, not the floating-point one.
- Text.Lower: lower-cases ASCII letters only, not full Unicode case mapping. Strings are sequences of characters, not UTF-16 code units.
- Achievement titles, descriptions and icons, and module icons and colours, are display data and are not carried.
- The caller that adds achievement XP and ids to the progress record is not shown in the source and is not modelled. `RecordingReportedIsFinal` states the property for the ids alone.
- Object-key quirks of JavaScript dictionaries (an item id such as "constructor" reading an inherited property) are not modelled. A map lookup of an absent key is absent.
- The generic key and merge parameters of `Collector` are instantiated with the slug and `ItemMerge.Merge` by the class. The laws are proved for any key and any merge that satisfies `MergeLaws`' three predicates.
- The extractor's items are values in a sequence. The in-place update of the found `existing` object is the replacement of that element. No other reference to it exists in the source.
- Derivations.DeriveProjectUsage: its unused `term` parameter is kept. A missing `usedFor` (undefined or null) is modelled as the empty string, as are a missing language or category in DeriveWhereItRuns. Both take the same branches as "" there.
- Derivations.DeriveWhereItRunsFallback: that every non-fallback answer has content is not proved.
- The header pattern `^Project:\s*(.+)` is modelled directly:
  - the capture is the line after "Project:" and its leading white space, up to the first line terminator;
  - when only white space follows and some of it is not a line terminator, backtracking leaves one such character to `(.+)`, and the capture trims to "".
- `generateQuiz`'s default count of 10 is the caller's choice; the model takes the count as a parameter.
- The counters (`nextId`, xp, totals) are unbounded integers. JavaScript's floating-point number limits are not modelled.
