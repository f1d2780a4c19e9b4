# Quiz session model

A Dafny model of the logic of a single-page multiple-choice quiz. The app
shows five fixed questions one at a time. The user picks one option per
question. They may move forward only once the question on screen is
answered, and may move back at any time. On the last question they submit
and see a whole-number percentage score. "Start Again" / "Restart quiz"
resets everything.

Modules:

- `Wrappers`: the `Option` used for an answer slot (`None` is the source's `null`).
- `Questions` (`src/questions.ts`): the `Question` record and the constant
  five-question `Bank`, with lemmas about its contents.
- `Scoring` (`src/App.tsx`, the counting loop and rounding inside
  `handleSubmit`): `CorrectCount` and the reference set `CorrectSet`, the
  loop `TallyCorrect`, and `Percent`, the exact-integer form of
  `Math.round(correct / total * 100)`.
- `Session` (`src/App.tsx`): the session value `SessionState` with its four
  fields `currentIndex`, `answers`, `view` and `scorePercent`. It holds the
  derived flags `HasAnswerForCurrent` and `IsLastQuestion`, and one pure
  function per handler (`SelectOption`, `Advance`, `Retreat`, `Submit`; a
  restart yields `Initial()`). `Inv` is the invariant of every reachable
  session. `Apply`/`Run` give the effect of user actions on the rendered
  page. The class `QuizSession` holds the same four fields as mutable state.
  Its `Handle*` methods update those fields in place and are proved to have
  exactly the effect of the pure functions.
- `Scenarios`: concrete runs driven through the class's methods.

Behaviour of the code that the model keeps:

- No operation raises an error. Nothing range-checks the question index or
  the option number, and scoring has no "incomplete answers" failure.
- An unset answer never equals a correct index, so it would count as wrong
  (src/App.tsx:59).
- The model proves that scoring never meets an unset answer: see
  `LastAnsweredIsComplete` and `Inv`.
- `handleSubmit` does not itself check that the last question is on
  screen. Only the page's rendering makes that so.

## Model

| member | source | states |
|---|---|---|
| `Questions.AnswerKey` | src/questions.ts:1-6 | the key has one entry per question, each entry the question's `correctIndex` |
| `Questions.BankSize` | src/questions.ts:8-39 | the bank holds exactly five questions, so it is non-empty and any in-range index is safe |
| `Questions.BankWellFormed` | src/questions.ts:8-39 | every question has exactly four options and its `correctIndex` is a valid index into them |
| `Questions.BankIds` | src/questions.ts:8-39 | the ids are 1..5 in order, so they are unique and strictly increasing |
| `Questions.BankOptionsDistinct` | src/questions.ts:8-39 | no option text repeats within a question (the page uses the options as keys) |
| `Questions.BankAnswerKey` | src/questions.ts:8-39 | the correct indices are [1, 1, 1, 2, 3] |
| `Scoring.CorrectCount` | src/App.tsx:57-60 | the count of correct slots among the first n is at most n, and equals n exactly when every one of them is correct |
| `Scoring.CorrectCountIsCardinality` | src/App.tsx:57-60 | the slot-by-slot count equals the number of indices whose answer equals that question's correct index |
| `Scoring.TallyCorrect` | src/App.tsx:57-60 | the `forEach` counting loop returns the number of slots equal to their question's correct index (as the count and as the set size) |
| `Scoring.Percent` | src/App.tsx:62 | the result is the integer nearest to 100*correct/total, a half rounding up, and is at most 100 when correct <= total |
| `Scoring.PercentUnique` | src/App.tsx:62 | no other integer lies within one half of 100*correct/total, so the rounding is deterministic |
| `Scoring.PercentMonotone` | src/App.tsx:62 | more correct answers never give a lower score |
| `Scoring.PercentExtremes` | src/App.tsx:62 | all correct scores 100, none correct scores 0 |
| `Session.Initial` | src/App.tsx:11-16 | the start state (index 0, all answers null, quiz view, score 0) satisfies the session invariant |
| `Session.CurrentQuestion` | src/App.tsx:19-22 | the question on screen is a bank entry whose correct option exists |
| `Session.SelectOptionFrame` | src/App.tsx:33-39 | selecting writes only the current slot; other slots, index, view and score are unchanged, and the length is kept |
| `Session.SelectOptionIdempotent` | src/App.tsx:33-39 | selecting the same option twice equals selecting it once; a later selection overwrites an earlier one |
| `Session.SelectOptionKeepsInv` | src/App.tsx:33-39 | choosing an offered option on the quiz screen keeps the invariant |
| `Session.AdvanceSpec` | src/App.tsx:41-46 | next is a no-op exactly when the current question is unanswered or last; otherwise it raises the index by one and changes nothing else |
| `Session.AdvanceKeepsInv` | src/App.tsx:41-46 | next keeps the invariant: index in range, and every question before the index answered |
| `Session.RetreatSpec` | src/App.tsx:48-52 | previous is a no-op exactly at index 0; otherwise it lowers the index by one and leaves the answers alone |
| `Session.RetreatKeepsInv` | src/App.tsx:48-52 | previous keeps the invariant |
| `Session.SubmitSpec` | src/App.tsx:54-65 | submit changes nothing while the current question is unanswered; otherwise it shows the score view with the rounded percentage of correct answers, in [0, 100] |
| `Session.LastAnsweredIsComplete` | src/App.tsx:54-59 | on the last question, once it is answered, every answer is set, so the count never meets a null |
| `Session.SubmitKeepsInv` | src/App.tsx:54-65 | submitting from the last question keeps the invariant; the score view holds complete answers and their score |
| `Session.Apply` | src/App.tsx:74-243 | every action the rendered page offers keeps the invariant |
| `Session.Run` | src/App.tsx:74-243 | any sequence of user actions keeps the invariant |
| `Session.RunAppend` | src/App.tsx:74-243 | running two action sequences is running one after the other |
| `Session.ReachableSessions` | src/App.tsx:11-72 | every reachable session satisfies the invariant; on the score view all answers are set and the score is in [0, 100] |
| `Session.RestartResets` | src/App.tsx:67-72 | restart after any actions returns exactly the initial session |
| `Session.ForwardOnly` | src/App.tsx:41-52 | without previous or restart, the index never decreases |
| `Session.AnswersPersist` | src/App.tsx:33-52 | until a restart, an answered question stays answered |
| `Session.QuizSession.constructor` | src/App.tsx:11-16 | the mounted component starts in the initial session |
| `Session.QuizSession.HandleSelectOption` | src/App.tsx:33-39 | the new fields are `SelectOption` of the old ones and the invariant holds |
| `Session.QuizSession.HandleNext` | src/App.tsx:41-46 | the new fields are `Advance` of the old ones and the invariant holds |
| `Session.QuizSession.HandlePrev` | src/App.tsx:48-52 | the new fields are `Retreat` of the old ones and the invariant holds |
| `Session.QuizSession.HandleSubmit` | src/App.tsx:54-65 | the new fields are `Submit` of the old ones and the invariant holds |
| `Session.QuizSession.HandleRestart` | src/App.tsx:67-72 | from any state, the fields become the initial session and the invariant holds |
| `Scenarios.AnswerArrayScores` | src/App.tsx:57-62 | answers [1,1,1,2,3] score 100, [0,0,0,0,0] score 0, [1,1,1,2,0] score 80 |
| `Scenarios.RoundingExamples` | src/App.tsx:62 | 1/8 (12.5%) rounds to 13, 1/3 to 33, 2/3 to 67 |
| `Scenarios.FinishQuiz` | src/App.tsx:41-65 | answering the rest and submitting leaves the chosen answers and shows their score |
| `Scenarios.AnswerAllAndSubmit` | src/App.tsx:33-65 | answering every question through the handlers and submitting shows the score of the chosen answers, at most 100 |
| `Scenarios.AnswerKeyScoresFull` | src/App.tsx:33-65 | answering with the key through the handlers scores 100 |
| `Scenarios.FirstOptionsScoreZero` | src/App.tsx:33-65 | choosing the first option everywhere scores 0 |
| `Scenarios.FourOfFiveScoresEighty` | src/App.tsx:33-65 | four of five correct scores 80 |
| `Scenarios.AdvanceWithoutAnswer` | src/App.tsx:41-42 | pressing next on an unanswered first question leaves index 0 |
| `Scenarios.ReviseFirstAnswer` | src/App.tsx:33-52 | answer, next, previous and a different option leaves the new option recorded |
| `Scenarios.ChangeAnswerAfterGoingBack` | src/App.tsx:33-65 | the revised answer is the one that is scored |

## Left out

- Rendering, layout, the progress bar, the sticker image and the "Keep Learning!" button (src/App.tsx:74-248). These are presentation only. The model keeps only which controls each view offers (`Session.Apply`).
- framer-motion animations, and focus management through `useRef`/`useEffect`. These are cosmetic, or are DOM side effects.
- `useMemo`. `CurrentQuestion` is plain indexing.
- React's asynchronous `setState` batching. Each handler is one atomic transition.
- Floating point in `Math.round((correctCount / TOTAL_QUESTIONS) * 100)`. `Percent` computes the exact rational value rounded half up. For five questions every percentage is a whole number, so the result agrees. The model does not capture float error near a half for other bank sizes.
- Session.QuizSession.HandleSelectOption: requires an option index of the current question and the quiz view. The handler checks neither. The page only calls it from the option buttons of the quiz view.
- Session.QuizSession.HandleNext: requires the quiz view, because only the quiz view renders the button. The handler does not check the view.
- Session.QuizSession.HandlePrev: requires the quiz view, for the same reason as `HandleNext`.
- Session.QuizSession.HandleSubmit: requires the quiz view and the last question, because the submit button is rendered only there (src/App.tsx:217-243). The handler does not check either. The pure `Session.Submit` models the unchecked handler.
- Session.Apply: an action whose control is not rendered, or is an out-of-range option index, does nothing. This models "no such button", not handler code.
- A read-only snapshot object for the view is not modelled. The view reads the four fields and the two derived flags directly.
- tailwind.config.js is styling configuration and is not part of this model.
