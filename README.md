# Minds in Motion quiz — a verified Dafny model

"Minds in Motion" is a Next.js quiz app for school pupils. The pupil picks a
level (middle school or high school) and works through multiple-choice
questions with a score. The app also has four interactive boards:

- a drag-to-match board pairing calming actions with instructions;
- a categorise board, where items are dragged into buckets;
- a click-away board;
- a coping-skills bin, where harmful habits are dragged out of a shuffled list.

This project models the state logic of those components in Dafny 4.11 and
proves the behaviour the code promises.

| file | module | component |
|---|---|---|
| `common.dfy` | `Common` | `Option` (a `null`-or-value), duplicate-free sequences, element sets and their sizes |
| `quiz_page.dfy` | `QuizPage` | the quiz session of `src/app/question/page.jsx` |
| `brain_actions_match.dfy` | `BrainActionsMatch` | the action/instruction matching board |
| `drag_drop_question.dfy` | `DragDropQuestion` | the categorise board |
| `click_away_question.dfy` | `ClickAwayQuestion` | the click-to-dismiss board |
| `coping_skills_sort.dfy` | `CopingSkillsSort` | the Fisher–Yates shuffle and the trash bin |
| `question_display.dfy` | `QuestionDisplay` | the choice of board by type tag, submission and button gating |

Each component follows the same layout.

- **Pure transition functions.** Each handler is a function from the old state to the new one, with the `onComplete`/`onSubmitAnswer` call returned as a `bool`. The counted contracts sit on these functions and on the lemmas about them.
- **Run functions.** A function folds a handler over a sequence of user actions. Lemmas about these runs give the properties over a whole session.
- **Classes.** Each component is also a `class` with one field per modelled piece of state. Each of its methods is proved to leave the state that the transition function computes.

Both of these become parameters:

- randomness: the shuffle picks, and the order the random comparator produced;
- the question banks.

A call to `onComplete` after a `setTimeout` is modelled as happening at once.

Notes on how the code behaves, which the model follows:

- **No score ceiling.** `handleSubmitAnswer` has no guard of its own, and the left arrow clears `answerSubmitted`. A question can be scored again, so the score can exceed the number of questions (`QuizPage.RescoringScenario`).
- **Drops on the matching board.** Only the instruction rows accept drops. The model's drop handler still accepts either column, as the handler's code does.
- **The categorise board's "Items to Sort" zone.** It drops with the target `'items'`, which is no bucket key. The handler then spreads `undefined` and throws before any state is set. The model treats such a drop as a no-op.
- **Missing answer key.** `checkAnswers` throws when a bucket has no entry in the answer key. The model returns `None` there.
- **The bin trusts the dragged text.** It does not check that the text is still in the list. Re-dropping a harmful skill counts it twice (`CopingSkillsSort.RedropCountsTwice`).

## Model

| member | source | states |
|---|---|---|
| QuizPage.CurrentQuestion | src/app/question/page.jsx:20-31 | an index inside the chosen bank yields that question; any other index (always the case with no level, whose list is empty) yields the placeholder with no answers and correct index -1 |
| QuizPage.NoLevelNeverScores | src/app/question/page.jsx:20-31 | with no level chosen no selection matches the current question's correct index |
| QuizPage.AnswerClick | src/app/question/page.jsx:33-35 | the selection becomes the clicked index and no other field changes |
| QuizPage.SubmitAnswer | src/app/question/page.jsx:37-42 | the answer is marked submitted; the score rises by exactly one iff the selection equals the correct index and is unchanged otherwise; nothing else changes |
| QuizPage.NextQuestion | src/app/question/page.jsx:44-52 | before the last question the index moves up by one and selection and submission are cleared; at the last one only the results card is switched on; an index in range stays in range; the score and level are kept |
| QuizPage.PreviousQuestion | src/app/question/page.jsx:54-62 | the exit to home is requested iff the index is 0, and then the state is unchanged; otherwise the index drops by one, selection and submission are cleared, the score, level and results flag are kept |
| QuizPage.RightArrow | src/app/question/page.jsx:90-95 | both branches of the arrow's handler end exactly where handleNextQuestion would, with no check that the answer was submitted |
| QuizPage.MainButtonLabel | src/app/question/page.jsx:155-159 | "Submit" until submission; afterwards "Next" iff another question follows and "Show Results" iff none does |
| QuizPage.LabelPredictsMainButton | src/app/question/page.jsx:146-159 | with an answer selected, "Next" means pressing moves to the next question, "Show Results" means it opens the results card at the same index, "Submit" means it submits |
| QuizPage.StepKeepsIndexInBounds | src/app/question/page.jsx:44-62 | no single user action moves the index outside the chosen bank (or away from 0 when the bank is empty) |
| QuizPage.RunKeepsIndexInBounds | src/app/question/page.jsx:44-95 | the same for every sequence of user actions |
| QuizPage.StepScore | src/app/question/page.jsx:37-71 | one action raises the score by at most one, and only "Try Again" lowers it |
| QuizPage.RunScoreMonotone | src/app/question/page.jsx:37-71 | over any sequence of actions without "Try Again" the score never decreases |
| QuizPage.LastClickWins | src/app/question/page.jsx:123-128 | a run of clicks on answers of an unsubmitted question leaves exactly the last clicked index selected and changes nothing else |
| QuizPage.ClicksIgnoredAfterSubmit | src/app/question/page.jsx:126-127 | once the answer is submitted a click on an answer changes nothing |
| QuizPage.MainButtonScoresOnce | src/app/question/page.jsx:146-148 | the main button does nothing while nothing is selected, and two presses raise the score by at most one |
| QuizPage.SubmitTwiceScoresTwice | src/app/question/page.jsx:37-42 | the submit handler itself has no guard: two calls on a correct selection score twice |
| QuizPage.TryAgainRestoresInitial | src/app/question/page.jsx:64-71 | "Try Again" on the results card restores every field to its initial value |
| QuizPage.AllCorrectScenario | src/app/question/page.jsx:33-52 | three correct answers in turn end on the results card with three points |
| QuizPage.RescoringScenario | src/app/question/page.jsx:54-62 | going back after a correct answer lets the same question score again: three points from two questions |
| QuizPage.RightArrowBeforeLevelScenario | src/app/question/page.jsx:90-119 | the right arrow on the level card switches on the results flag, so choosing a level then shows the results card at once |
| QuizPage.QuestionPage.constructor | src/app/question/page.jsx:11-16 | the page starts in the initial session |
| QuizPage.QuestionPage.SelectLevel | src/app/question/page.jsx:105-116 | a level button sets the question set and nothing else |
| QuizPage.QuestionPage.HandleAnswerClick | src/app/question/page.jsx:33-35 | the fields change as AnswerClick says |
| QuizPage.QuestionPage.HandleSubmitAnswer | src/app/question/page.jsx:37-42 | the fields change as SubmitAnswer says |
| QuizPage.QuestionPage.HandleNextQuestion | src/app/question/page.jsx:44-52 | the fields change as NextQuestion says |
| QuizPage.QuestionPage.HandlePreviousQuestion | src/app/question/page.jsx:54-62 | the fields and the exit flag are those of PreviousQuestion |
| QuizPage.QuestionPage.HandleResetQuiz | src/app/question/page.jsx:64-71 | every field returns to its initial value |
| QuizPage.QuestionPage.HandleRightArrow | src/app/question/page.jsx:90-95 | the fields change as RightArrow says |
| QuizPage.QuestionPage.Dispatch | src/app/question/page.jsx:86-173 | a user action changes the fields exactly as Step says |
| BrainActionsMatch.FindIndex | src/app/question/components/BrainActionsMatch.jsx:52-54 | the first position whose pair has the action, or -1 iff no pair has it |
| BrainActionsMatch.DropPairsRows | src/app/question/components/BrainActionsMatch.jsx:52-65 | after a drop, looking up the pair's action in the new list gives the row it was joined to, whichever column was dragged |
| BrainActionsMatch.Upsert | src/app/question/components/BrainActionsMatch.jsx:51-66 | a pair already recorded for the action is replaced in place, otherwise the pair is appended; each action stays in one pair at most; the list grows by at most one; indices stay in range |
| BrainActionsMatch.ActionSetCard | src/app/question/components/BrainActionsMatch.jsx:51-66 | with one pair per action, the number of pairs is the number of distinct actions named |
| BrainActionsMatch.PairsBounded | src/app/question/components/BrainActionsMatch.jsx:51-71 | with one pair per action and every index a row, there are never more pairs than actions |
| BrainActionsMatch.CompletionIsIdentity | src/app/question/components/BrainActionsMatch.jsx:70-77 | under those invariants the completion test holds iff the pairs are exactly the same-row matching |
| BrainActionsMatch.IsCorrectMatch | src/app/question/components/BrainActionsMatch.jsx:86-88 | true iff both indices are present and equal |
| BrainActionsMatch.IsItemMatched | src/app/question/components/BrainActionsMatch.jsx:90-94 | true iff some pair holds the row in the given column |
| BrainActionsMatch.GetMatchedIndex | src/app/question/components/BrainActionsMatch.jsx:96-101 | absent iff the row is unmatched; otherwise the other row of the first pair holding it |
| BrainActionsMatch.MatchedActionLookup | src/app/question/components/BrainActionsMatch.jsx:96-101 | with one pair per action, the lookup of an action finds instruction i iff that pair is recorded |
| BrainActionsMatch.ActionMarkMeaning | src/app/question/components/BrainActionsMatch.jsx:144-160 | an action row has no mark iff unmatched and a check iff it is paired with its own row |
| BrainActionsMatch.InstructionIconMeaning | src/app/question/components/BrainActionsMatch.jsx:182-187 | the icon tested on the instruction column: no mark iff the instruction is unmatched, a check only when it is paired with its own row |
| BrainActionsMatch.InstructionIconMismatch | src/app/question/components/BrainActionsMatch.jsx:192-197 | with action 0 paired to instruction 1, the icon as written shows a cross on the unmatched instruction 0 and nothing on instruction 1 |
| BrainActionsMatch.MatchBoard.constructor | src/app/question/components/BrainActionsMatch.jsx:29-31 | no pairs, not completed, nothing dragged |
| BrainActionsMatch.MatchBoard.HandleDragStart | src/app/question/components/BrainActionsMatch.jsx:35-38 | the dragged item, column and row are recorded; the board invariant (unique actions, every index a rendered row) is kept |
| BrainActionsMatch.RecordDrop | src/app/question/components/BrainActionsMatch.jsx:52-79 | the accepted drop's list update is Upsert of the new pair and its test is the completion test on the new list |
| BrainActionsMatch.DropOutcome | src/app/question/components/BrainActionsMatch.jsx:52-79 | a drop joining two rendered rows keeps one pair per action and every index a row, bounds the pairs by the action count, pairs the two rows, and makes the completion test mean the same-row matching |
| BrainActionsMatch.MatchBoard.HandleDrop | src/app/question/components/BrainActionsMatch.jsx:44-80 | with nothing dragged, or a drop in the dragged item's own column, nothing changes; otherwise the pairs become Upsert of the new pair, the two rows are paired, the drag is cleared, there are never more pairs than actions, and onComplete fires iff every action sits on the instruction of its own row |
| BrainActionsMatch.MatchBoard.HandleDragEnd | src/app/question/components/BrainActionsMatch.jsx:82-84 | the dragged item is cleared and nothing else changes |
| DragDropQuestion.CountIdAppend | src/app/question/components/DragDropQuestion.jsx:45 | counts of an id add up over concatenation |
| DragDropQuestion.WithoutId | src/app/question/components/DragDropQuestion.jsx:41 | the filter keeps exactly the items of other ids, with their counts, and drops every item of the id |
| DragDropQuestion.WithoutIdAppend | src/app/question/components/DragDropQuestion.jsx:41-45 | the filter distributes over concatenation |
| DragDropQuestion.WithoutIdIdempotent | src/app/question/components/DragDropQuestion.jsx:41 | filtering twice is filtering once |
| DragDropQuestion.InitialCategories | src/app/question/components/DragDropQuestion.jsx:12-15 | the buckets are exactly the question's category ids, each empty |
| DragDropQuestion.RemoveFromAll | src/app/question/components/DragDropQuestion.jsx:39-42 | every bucket is kept, each with the dragged id filtered out |
| DragDropQuestion.Dropped | src/app/question/components/DragDropQuestion.jsx:34-48 | no board iff the target is not a bucket; otherwise the same buckets |
| DragDropQuestion.DropBoardAt | src/app/question/components/DragDropQuestion.jsx:39-45 | in each bucket of the dropped board the item is counted once in the target and nowhere else, every other id keeps its count, and the other items keep their order |
| DragDropQuestion.DropMeaning | src/app/question/components/DragDropQuestion.jsx:39-45 | after a drop on a bucket the item is in the target exactly once and in no other bucket, and every other id's counts and order are unchanged, bucket by bucket |
| DragDropQuestion.RemovedThenAppendedIsDropped | src/app/question/components/DragDropQuestion.jsx:39-45 | filtering every bucket and then appending to the target builds the dropped board |
| DragDropQuestion.DropOnto | src/app/question/components/DragDropQuestion.jsx:38-45 | the handler body returns the dropped board, or nothing when the target is no bucket |
| DragDropQuestion.InitialPlacedOnce | src/app/question/components/DragDropQuestion.jsx:12-16 | empty buckets place every id at most once |
| DragDropQuestion.DropKeepsPlacedOnce | src/app/question/components/DragDropQuestion.jsx:38-46 | a drop keeps every id in at most one bucket, and there at most once |
| DragDropQuestion.DropKeepsNoRepeats | src/app/question/components/DragDropQuestion.jsx:38-46 | a drop leaves no bucket holding an id twice |
| DragDropQuestion.DropKeepsNoSharing | src/app/question/components/DragDropQuestion.jsx:38-46 | a drop leaves no id in two buckets |
| DragDropQuestion.UnplacedItems | src/app/question/components/DragDropQuestion.jsx:77-81 | exactly the items that are in no bucket of the question |
| DragDropQuestion.UnplacedItemsAppend | src/app/question/components/DragDropQuestion.jsx:77-81 | the unplaced list keeps the items' order: it distributes over concatenation |
| DragDropQuestion.AllPlacedIffNoneUnplaced | src/app/question/components/DragDropQuestion.jsx:70-81 | "Check Answers" is enabled iff the unplaced list is empty |
| DragDropQuestion.InitiallyAllUnplaced | src/app/question/components/DragDropQuestion.jsx:11-21 | right after initialisation every item is unplaced |
| DragDropQuestion.DropPlaces | src/app/question/components/DragDropQuestion.jsx:44-46 | a drop on a bucket of the question places the item |
| DragDropQuestion.Ids | src/app/question/components/DragDropQuestion.jsx:53 | the ids of a bucket's items, position by position |
| DragDropQuestion.CheckBuckets | src/app/question/components/DragDropQuestion.jsx:51-58 | true iff every bucket has a key entry of the same length all of whose ids were placed there; absent only when a bucket id is missing from the key |
| DragDropQuestion.BucketCorrectIsSetEquality | src/app/question/components/DragDropQuestion.jsx:54-57 | for duplicate-free lists the bucket test is equality of the id sets |
| DragDropQuestion.DuplicateKeyAccepts | src/app/question/components/DragDropQuestion.jsx:54-57 | a key naming an id twice accepts a bucket that holds a foreign id |
| DragDropQuestion.CountOneNoDup | src/app/question/components/DragDropQuestion.jsx:53 | a bucket holding each id at most once has duplicate-free ids |
| DragDropQuestion.CheckAnswersMeaning | src/app/question/components/DragDropQuestion.jsx:50-58 | on a board where each id is placed at most once and every bucket has a duplicate-free key entry, the test does not throw, and it says "correct" iff every bucket holds exactly its key's ids |
| DragDropQuestion.CategoriseBoard.constructor | src/app/question/components/DragDropQuestion.jsx:4-21 | one empty bucket for each of the question's categories, all items unplaced, no feedback, nothing dragged |
| DragDropQuestion.CategoriseBoard.OnQuestionChange | src/app/question/components/DragDropQuestion.jsx:11-21 | the same reset for a new question |
| DragDropQuestion.CategoriseBoard.HandleDragStart | src/app/question/components/DragDropQuestion.jsx:23-27 | the dragged item is recorded, nothing else changes |
| DragDropQuestion.CategoriseBoard.HandleDrop | src/app/question/components/DragDropQuestion.jsx:34-48 | with nothing dragged or a target that is no bucket nothing changes; otherwise the board becomes the dropped board and the drag is cleared; the placed-once invariant is kept |
| DragDropQuestion.CategoriseBoard.PressCheckAnswers | src/app/question/components/DragDropQuestion.jsx:50-68 | disabled until every item is placed; then feedback shows the test's verdict and onComplete is scheduled iff it is true |
| ClickAwayQuestion.Click | src/app/question/components/ClickAwayQuestion.jsx:15-32 | an answer already clicked is a no-op; a new one grows the set by exactly that answer; completion and the onComplete call happen exactly when the set size reaches the answer count; the flag is never cleared |
| ClickAwayQuestion.RunMonotone | src/app/question/components/ClickAwayQuestion.jsx:16-24 | over any clicks the set never shrinks and completion is never reset |
| ClickAwayQuestion.RunClicked | src/app/question/components/ClickAwayQuestion.jsx:18-21 | after a run the set is the old set plus every clicked answer |
| ClickAwayQuestion.InitialConsistent | src/app/question/components/ClickAwayQuestion.jsx:5-7 | the mount state satisfies the board invariant |
| ClickAwayQuestion.FullSetIsEveryAnswer | src/app/question/components/ClickAwayQuestion.jsx:23 | a set of displayed answers as large as the answer list holds every answer |
| ClickAwayQuestion.ClickKeepsConsistent | src/app/question/components/ClickAwayQuestion.jsx:15-32 | a click on a displayed answer keeps the invariant and fires iff it completes a board that was not complete |
| ClickAwayQuestion.RunFiresOnce | src/app/question/components/ClickAwayQuestion.jsx:15-32 | over clicks on displayed answers onComplete is scheduled once if the run completed the board and never otherwise |
| ClickAwayQuestion.ClickingEveryAnswerCompletes | src/app/question/components/ClickAwayQuestion.jsx:15-28 | clicking every answer of a duplicate-free, non-empty list completes the board and schedules onComplete exactly once |
| ClickAwayQuestion.DuplicateAnswersNeverComplete | src/app/question/components/ClickAwayQuestion.jsx:23 | with a repeated answer the board never completes |
| ClickAwayQuestion.ClickAwayBoard.constructor | src/app/question/components/ClickAwayQuestion.jsx:5-13 | the displayed answers are a rearrangement of the question's; nothing clicked, not complete |
| ClickAwayQuestion.ClickAwayBoard.Reshuffle | src/app/question/components/ClickAwayQuestion.jsx:10-13 | a re-run of the effect shows a rearrangement of the new answers and keeps the click state |
| ClickAwayQuestion.ClickAwayBoard.HandleAnswerClick | src/app/question/components/ClickAwayQuestion.jsx:15-32 | the state and the onComplete call are those of Click |
| CopingSkillsSort.AllSkillsDistinct | src/app/question/CopingSkillsSort.jsx:6-24 | the fourteen skill texts are pairwise different |
| CopingSkillsSort.ShuffleArray | src/app/question/CopingSkillsSort.jsx:27-34 | the result has every input element with its multiplicity, the last position holds the element the first draw picked, and the input is a value left as it was |
| CopingSkillsSort.RemoveAll | src/app/question/CopingSkillsSort.jsx:58 | every occurrence of the skill goes, other skills keep their multiplicities |
| CopingSkillsSort.RemoveAllAppend | src/app/question/CopingSkillsSort.jsx:58 | the filter keeps order: it distributes over concatenation, drops the single skill and keeps any other single skill |
| CopingSkillsSort.DropEffect | src/app/question/CopingSkillsSort.jsx:52-68 | a drop ends the drag; a skill that is not harmful changes neither list; a harmful one leaves the list and is appended to the bin once; onComplete fires iff it is harmful and the bin had one short of the harmful count |
| CopingSkillsSort.InvNoDup | src/app/question/CopingSkillsSort.jsx:37-40 | while the lists partition the skills, both are duplicate-free and disjoint |
| CopingSkillsSort.DropKeepsInv | src/app/question/CopingSkillsSort.jsx:57-59 | dropping a skill still in the list keeps list plus bin a rearrangement of all skills with only harmful ones in the bin |
| CopingSkillsSort.RemovedCountMeansAll | src/app/question/CopingSkillsSort.jsx:62 | under the invariant the bin holds the harmful count iff it holds every harmful skill |
| CopingSkillsSort.DropFiresOnCompletion | src/app/question/CopingSkillsSort.jsx:57-64 | a drop of a listed skill calls onComplete iff it puts the last harmful skill into the bin |
| CopingSkillsSort.RunFiresOnce | src/app/question/CopingSkillsSort.jsx:52-68 | over drops of listed skills the invariant holds and onComplete is called once if the run completed the bin and never otherwise |
| CopingSkillsSort.SortFiresOnce | src/app/question/CopingSkillsSort.jsx:36-68 | from the shuffled start with the component's own lists, onComplete is called exactly once iff every harmful skill ends up in the bin |
| CopingSkillsSort.RedropCountsTwice | src/app/question/CopingSkillsSort.jsx:57-64 | six drops of one harmful skill call onComplete while another harmful skill is still listed |
| CopingSkillsSort.TrashSort.constructor | src/app/question/CopingSkillsSort.jsx:37-41 | the list is a shuffle of all skills, the bin empty, no drag in progress |
| CopingSkillsSort.TrashSort.HandleDragStart | src/app/question/CopingSkillsSort.jsx:43-46 | the drag flag is set, nothing else changes |
| CopingSkillsSort.TrashSort.HandleDrop | src/app/question/CopingSkillsSort.jsx:52-68 | the state and the onComplete call are those of Drop |
| QuestionDisplay.Dispatch | src/app/question/components/QuestionDisplay.jsx:37-108 | the matching board iff the tag is "brainActionsMatch", the categorise board iff "dragDrop", the click-away board iff "clickAway", "No question found" iff there is no question, multiple choice otherwise |
| QuestionDisplay.DispatchByTagOnly | src/app/question/components/QuestionDisplay.jsx:37-41 | two questions with the same tag get the same board |
| QuestionDisplay.NextCaptionAtLast | src/app/question/components/QuestionDisplay.jsx:134-141 | inside the question list, the button after a submitted answer reads "See Results" exactly at the last question and "Next Question" before it |
| QuestionDisplay.FooterOf | src/app/question/components/QuestionDisplay.jsx:45-155 | "Continue" under an interactive board, enabled iff the completion flag is set; under multiple choice "Submit Answer" (enabled iff something is selected) until submission, then the next button |
| QuestionDisplay.AnswerButtonsWhileSubmitShows | src/app/question/components/QuestionDisplay.jsx:113-155 | the answer buttons take clicks exactly while the footer offers "Submit Answer", and are disabled exactly while it shows the next button |
| QuestionDisplay.SubmitMeaning | src/app/question/components/QuestionDisplay.jsx:25-31 | with nothing selected nothing changes and onSubmitAnswer is not called; otherwise feedback shows, correctness is the selection equalling the correct index, and onSubmitAnswer is called |
| QuestionDisplay.CompleteIdempotent | src/app/question/components/QuestionDisplay.jsx:33-35 | completing twice is completing once, feedback is untouched, and Continue is then enabled under every interactive board |
| QuestionDisplay.ContinueGated | src/app/question/components/QuestionDisplay.jsx:48-90 | under an interactive board Continue is enabled iff the completion flag is set |
| QuestionDisplay.Feedback | src/app/question/components/QuestionDisplay.jsx:158-168 | a feedback line iff feedback is on and the answer submitted; the praise iff also correct |
| QuestionDisplay.SubmitThenFeedback | src/app/question/components/QuestionDisplay.jsx:25-168 | after submitting index i the line praises iff i is the correct index |
| QuestionDisplay.Display.constructor | src/app/question/components/QuestionDisplay.jsx:18-19 | no feedback, not correct, the parent's completion flag |
| QuestionDisplay.Display.Submit | src/app/question/components/QuestionDisplay.jsx:25-31 | the state and the onSubmitAnswer call are those of HandleSubmit |
| QuestionDisplay.Display.Complete | src/app/question/components/QuestionDisplay.jsx:33-35 | the completion flag is set and nothing else changes |

## Left out

- Rendering: JSX markup, Tailwind classes, colours and animations are presentation only. This covers `src/app/question/components/AnswerButton.jsx` and `tailwind.config.js`. Only the enabled/disabled state and the labels of buttons are modelled.
- The SVG connecting lines of the matching board. They depend on DOM geometry (`getBoundingClientRect`) and floating point.
- Randomness. The click-away shuffle is an arbitrary rearrangement, passed to the constructor. The Fisher–Yates draws are a sequence of indices `picks[i]` in `[0, i]`. The random fly-away offsets are not modelled.
- Timers. The `setTimeout` before `onComplete` is modelled as an immediate call, returned as a flag.
- React scheduling. Functional state updates, batching and stale closures are not modelled. Handlers run one after another on the current state.
- Navigation. `router.push("/")` is the `exit` flag returned by the left-arrow handler, and the session is left as it was. The home page `src/app/page.js` is not part of this model.
- DOM events and `dataTransfer` plumbing. A drop is a call that carries the dragged value.
- The question banks. The JSON files are not available, so the banks are an input (`QuizPage.Banks`).
- QuizPage.QuestionPage.HandlePreviousQuestion: the real page leaves for the home screen on exit, and the model keeps the session.
- CopingSkillsSort.ShuffleArray: the contract says the result is a rearrangement and gives the last position. It does not say that every rearrangement is reachable, or that the shuffle is uniform. Both are statements about the distribution of `Math.random`.
- ClickAwayQuestion.ClickAwayBoard.constructor: the random comparator's order is taken as any rearrangement of the answers. The model does not describe how `sort` behaves with an inconsistent comparator.
- `handleAnswer` in `QuestionDisplay.jsx` only forwards the index to the parent's `onAnswerSelect`. The parent that renders `QuestionDisplay` is not part of this model, so the selection and the submitted flag are handler parameters.

## Findings

| source | as written | input that shows it | evidently intended | confidence | as-written member | corrected member |
|---|---|---|---|---|---|---|
| src/app/question/components/BrainActionsMatch.jsx:192-197 | the check/cross icon of instruction row `index` calls `isItemMatched(index, 'action')` and `getMatchedIndex(index, 'action')`, so it describes the ACTION row with the same number | pairs `[{actionIndex: 0, instructionIndex: 1}]`: instruction row 0 (unmatched) shows a cross and instruction row 1 (wrongly matched) shows no icon | test the instruction column, as the row's border does at lines 182-187 | not executed | BrainActionsMatch.InstructionIconMismatch | BrainActionsMatch.InstructionIconMeaning |
