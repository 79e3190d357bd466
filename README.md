# My Glimpsy quiz session, modelled in Dafny

My Glimpsy is a one-screen quiz. The player sees an image, then answers five
multiple-choice questions about it. The questions are worth 1 to 5 points.
The player may show the image once more during the questions. The game ends
on a recap screen with the final score and a text to share.

All of the game's logic lives in the `App` component (`src/App.jsx`). The
component keeps nine pieces of state and changes them through five handlers.
This project models that state and those handlers:

- `quiz_data.dfy` (module `QuizData`) holds the question list and its point
  total. `Earned` is the specification of the score: the sum of the points of
  the questions whose recorded answer is correct.
- `share_text.dfy` (module `ShareText`) builds the share text. It renders
  numbers in decimal, as a template literal does, and proves that the text
  names the score it was built from.
- `quiz_session.dfy` (module `QuizSession`) holds the class `Session`. It has
  one field per `useState` and one method per handler. The buttons' enabled
  and visible conditions become method preconditions. The predicate `Valid()`
  is the session invariant. The phase, recap, heading and "next" label are
  functions of the state.

The invariant `Valid()` says:

- the score equals `Earned(Questions, userAnswers)`;
- `|userAnswers| == currentQuestionIndex + (submitted ? 1 : 0)` while the game
  is running, and `|userAnswers| == 5` once it is finished;
- the index stays in `[0, 4]`;
- every recorded answer is one of its question's options;
- a ghost counter of effective show-again clicks is 1 when `usedShowAgain` is
  set and 0 otherwise, so show-again fires at most once per game.

Each handler preserves the invariant.

How the model reads the code:

- The component derives three screens from `gameStarted` and
  `gameFinished`: intro, playing and finished. The reveal of the image is a
  timed `showImage` flag, not a screen of its own.
- The start button exists only on the intro screen (`src/App.jsx:124-129`).
  The handler resets every field whatever the state, so `Session.Start` has
  no precondition.
- Disabled or hidden controls prevent invalid operations (lines 229, 237
  and 254). The model turns those conditions into preconditions. The
  show-again button is hidden once used (line 262), but `Session.ShowAgain`
  keeps the handler's own `if (!usedShowAgain)` guard (line 60) instead, so
  a second call changes nothing.
- "No selection" is the empty string (line 43), in the code and in the
  model.
- The question list is the constant `QuizData.Questions` (lines 3-34). The
  lemmas named `Questions…` below state what the game relies on about it.

## Model

| member | source | states |
|---|---|---|
| `QuizData.QuestionsWellFormed` | src/App.jsx:3-34 | every question's answer is one of its non-empty options and is worth a positive number of points; points strictly increase along the list; there is one prompt per question |
| `QuizData.QuestionsAnswerable` | src/App.jsx:3-34 | each built-in answer is one of its question's options; every option is non-empty; every question is worth something |
| `QuizData.QuestionsPointsIncrease` | src/App.jsx:3-34 | each question is worth strictly more than every earlier one |
| `QuizData.QuestionsOptionsDistinct` | src/App.jsx:3-34 | each question offers four pairwise different options (they are also the radio buttons' keys, line 220) |
| `QuizData.TotalPoints` | src/App.jsx:49 | the total of a question list is at least the points of each of its questions |
| `QuizData.EarnedCountsCorrect` | src/App.jsx:82-85 | the score `Earned` is at least the points of each correctly answered question, and answers none of which is correct earn nothing |
| `QuizData.QuestionsTotal` | src/App.jsx:49 | `totalPoints`, the left fold of the points, is 15 |
| `QuizData.EarnedSnoc` | src/App.jsx:82-85 | recording one more answer adds that question's points exactly when the answer equals its `answer`, and adds nothing otherwise |
| `QuizData.RecordedSnoc` | src/App.jsx:82 | appending an option of the next question keeps every recorded answer an option of its question |
| `QuizData.EarnedAtMostTotal` | src/App.jsx:49 | a score earned by any answers lies between 0 and `totalPoints` |
| `QuizData.EarnedAtMostPrefixTotal` | src/App.jsx:83-85 | a score never exceeds the total points of the questions answered so far |
| `QuizData.PrefixTotalAtMostTotal` | src/App.jsx:49 | the total of a prefix of the questions is at most the total of all of them |
| `QuizData.EarnedAgrees` | src/App.jsx:83-85 | the score depends only on the questions that have a recorded answer |
| `QuizData.FullMarksIffAllCorrect` | src/App.jsx:145 | with one answer per question and positive points, the score equals `totalPoints` exactly when every answer is correct (both directions) |
| `QuizData.AllCorrectEarnsFifteen` | src/App.jsx:3-34 | five correct answers earn 15 points |
| `ShareText.DecimalString` | src/App.jsx:100 | a number renders as a non-empty string of digits with no leading zero |
| `ShareText.DigitValue` | src/App.jsx:100 | a digit's value is below 10 and renders back as the same digit |
| `ShareText.DecimalRoundTrip` | src/App.jsx:100 | reading back the decimal rendering of a number gives the number |
| `ShareText.DecimalStringInjective` | src/App.jsx:100 | two numbers render alike exactly when they are equal |
| `ShareText.DigitRunLengthOf` | src/App.jsx:100 | a rendered score followed by " out of" ends where its digits end |
| `ShareText.DigitRunUnique` | src/App.jsx:100 | a digit run followed by a non-digit is recovered from the concatenation |
| `ShareText.ShareDeterminesScore` | src/App.jsx:99-103 | the share text determines the score: two scores give the same text exactly when they are equal |
| `ShareText.Share` | src/App.jsx:100 | the shared text starts with "I scored ", and the run of digits after it reads back as the score |
| `ShareText.SharePerfect` | src/App.jsx:100 | a perfect game shares "I scored 15 out of 15 points on My Glimpsy! Can you beat me? Try it now at myglimpsy.com" |
| `QuizSession.PhaseOf` | src/App.jsx:105-188 | intro exactly when neither flag is set; finished exactly when `gameFinished` is set; playing exactly when the game is started and not finished. These clauses restate the function's case split; what the screens do is proved in the ensures of the constructor, `Start` and `Next` |
| `QuizSession.RecapAnswer` | src/App.jsx:170 | a recap entry is never blank: it shows the recorded answer or "(No answer)" |
| `QuizSession.RecapColour` | src/App.jsx:166-167 | a recap entry is green or red, and green exactly when the recorded answer is the question's answer; a missing answer is red |
| `QuizSession.NextPoints` | src/App.jsx:189-192 | there is a next point value exactly when the question is not the last, and it is the next question's points. These clauses restate the function's case split; the property is `NextLabelFinishesOnlyOnLast` |
| `QuizSession.NextLabel` | src/App.jsx:256-258 | the button offers the next question exactly when there is one with a non-zero point value, and then reads "Try <its points> point question"; otherwise it reads "Finish Game" |
| `QuizSession.Heading` | src/App.jsx:145 | the recap heading is "Congratulations!" or "Good effort!", and "Congratulations!" exactly when the score equals `totalPoints` |
| `QuizSession.NextLabelFinishesOnlyOnLast` | src/App.jsx:189-192 | the next question is worth more than the current one; the button reads "Finish Game" exactly on the last question (lines 256-258) |
| `QuizSession.Session.Valid` | src/App.jsx:39-47 | in a valid state the index names a question, at most one answer per question is recorded, and a finished game has one answer per question (the invariant itself ties eight of the nine fields together, lines 78-97; `showImage` is left free, as "## Left out" explains) |
| `QuizSession.Session.constructor` | src/App.jsx:39-47 | the initial state: all flags false, index 0, empty selection, score 0, no answers, intro screen, invariant holds |
| `QuizSession.Session.Start` | src/App.jsx:67-76 | whatever the previous state, every field is reset (index 0, score 0, empty selection, not submitted, show-again unused, not finished, no answers), the game is started, the playing screen shows and the invariant holds |
| `QuizSession.Session.Select` | src/App.jsx:223-229 | while the answer is not submitted, picking an option of the current question sets the selection to it and keeps the invariant |
| `QuizSession.Session.Submit` | src/App.jsx:78-86 | with a non-empty selection not yet submitted: the answer is locked in, exactly the selection is appended to the answers, and the question's points are added iff the selection is its answer; the invariant holds (guard at line 237) |
| `QuizSession.Session.Next` | src/App.jsx:88-97 | after a submission, the selection and submitted flag are cleared; below the last index the index grows by one, at the last index the game is finished and no longer started; the invariant holds (guard at line 254) |
| `QuizSession.Session.ShowAgain` | src/App.jsx:59-65 | the first click of a game shows the image and marks show-again used; any later click changes nothing; the ghost count of effective clicks stays at 1 |
| `QuizSession.Session.ShareScore` | src/App.jsx:99-103 | on the recap screen, the shared text is the share text of the current score |
| `QuizSession.Session.ScoreWithinTotal` | src/App.jsx:49 | in every valid state the score lies between 0 and `totalPoints`, which is 15 |
| `QuizSession.Session.FinishedRecap` | src/App.jsx:159-171 | on the recap screen there is one answer per question; each entry shows the recorded answer, never "(No answer)"; an entry is green exactly when the answer it shows is the question's answer |
| `QuizSession.Session.CongratulatedIffAllCorrect` | src/App.jsx:145 | the recap heading is "Congratulations!" exactly when every recorded answer is correct, that is, exactly when every recap entry is green (lines 145 and 167) |
| `QuizSession.AnswerCorrectly` | src/App.jsx:78-97 | selecting, submitting and moving on records the current question's answer and leads to the next question, or to the recap screen after the last one |
| `QuizSession.PlayPerfectGame` | src/App.jsx:78-97 | answering every question of a fresh game correctly through the handlers reaches the recap screen with 15 points |
| `QuizSession.PerfectGameThenRestart` | src/App.jsx:67-103 | a perfect game shares the 15-point text, and calling the start handler afterwards sets the score back to 0 (the recap screen has no start button, so this calls the handler directly) |

## Left out

- Timers: the 4000 ms reveal on start, the 1000 ms show-again window, and
  `setTimeout`, `clearTimeout` and the effect cleanup (`src/App.jsx:51-57`,
  63) are wall-clock behaviour.
- `showImage`: it is only a flag that `ShowAgain` sets. Nothing in the model
  clears it, and `Start` leaves it alone, because the code changes it on start
  and clears it only from the timers above.
- Hidden controls: the question form and buttons are hidden while the image
  is shown. The model does not include this in any precondition, since only
  the timers clear `showImage`.
- Clipboard and alert: `navigator.clipboard.writeText` and `alert`
  (`src/App.jsx:101-102`) are browser services. Only the shared string is
  modelled.
- React updates: `setState` batches its updates and runs them
  asynchronously. Each handler is modelled as one atomic update of the fields.
- Markup: the JSX markup, styles and `imageUrl` are not modelled. This
  includes the feedback line after a submission (`src/App.jsx:244-252`) and
  the running score line (line 272). The guards, the phase, the recap, the
  heading and the "next" label are modelled.
- Number width: JavaScript numbers are doubles. Scores never exceed 15, so
  the unbounded `nat` of the model is exact.
- Prompts: the question texts are kept in `QuizData.Prompts`, apart from the
  options, answers and points. Nothing the game computes depends on them.
- `vite.config.js` is build configuration and is not part of this model.
