# Trivia game, image grid and post feed — a Dafny model

This project models the three pieces of sequential logic in a set of SwiftUI
course samples, and proves properties of them.

- **Trivia quiz** (`trivia.dfy`, module `Trivia`).
  - `GameState` has three fields. `questions` holds the fetched questions still to come. `path` is the navigation path of questions already shown. `correctCount` is the running score.
  - `startGame` resets the state, stores the fetched questions and pushes the **last** fetched question onto the path. `nextQuestion` pops the **last** pending question onto the path. The `onAnswered` closure adds one to the score for a correct answer and then calls `nextQuestion`. `isDone` holds when nothing is pending and the path is not empty.
  - `QuestionView` classifies the answer as correct, incorrect, timed out or pending (`answerState`). It runs a ten-second countdown that ticks only while the answer is pending, shuffles the answer choices, and resets its selection and clock when a new question appears.
- **Image grid puzzle** (`image_grid.dfy`, module `ImageGrid`).
  - `GridState` keeps a fixed-size grid of distinct image names drawn from a pool of eight.
  - `replaceImage` rewrites the first cell that holds a given image with a pool image the grid does not show.
  - Tapping an image toggles it in the selection. Shuffle calls `replaceImage` once for each selected image, then clears the selection.
- **Post/user feed** (`feed.dfy`, module `Feed`).
  - `user(post:)` finds the post's author in the user set or throws `unknownUser`.
  - `assignUserSymbols` pops symbols from a fixed stack of ten into the `userSymbol` dictionary.
  - A user with no entry is shown `square.fill`.

`basics.dfy` (module `Basics`) holds Swift's `Optional` and the result of a throwing call as datatypes, plus a few sequence helpers (`popLast`, distinctness, cardinality).

## How the model is built

- **Classes for mutable state.** The objects whose fields the source mutates are classes: `GameState`, `QuestionView`'s `@State`, `GridState` and `UserViewModel`. Their methods say exactly what the new state is.
  - `GameState`'s methods are specified by pure functions on the datatype `Game`, which holds the three field values.
  - `GridState.grid` is an `array`, written in place like the Swift array.
- **Set iteration.** Swift `Set` iteration order is unspecified, so it is a nondeterministic choice.
  - The Shuffle button and `assignUserSymbols` iterate with `:|` and return the order they used as a ghost value.
  - `user(post:)` is a function of the iteration order. `UserForIgnoresOrder` shows that whether it throws depends only on the set.
- **Randomness.**
  - `images.randomElement()` inside the retry loop becomes one nondeterministic choice among the draws that end the loop.
  - `shuffled()` becomes a nondeterministic permutation.
- **Fetched data** is an input to `startGame`, either the questions or the `FetchError` the fetch threw.

The properties proved include the following.

- LIFO order: after `k` answers the screen shows `fetched[|fetched|-1-k]`, and after one answer per question the path is the fetched list reversed (`GameRunsToCompletion`).
- `isDone` holds as soon as the last question is **pushed**, one answer before it is answered.
- The score is never reset between games (`ScoreCarriesOver`).
- A free pool image exists exactly when the grid has fewer than eight cells (`FreeImageIffRoom`). So the retry loop in `replaceImage` ends for the four-cell grid and would spin forever for an eight-cell one.
- Replacements keep the grid duplicate-free. Cells whose image was not selected are left alone.
- In `assignUserSymbols`, the k-th user processed gets the k-th symbol from the end of the stack while it lasts. Users after the tenth lose their entry. Users outside the set keep theirs.

Facts about the quiz code that the model reproduces:

- `nextQuestion` takes the last pending question (`popLast`, MidTerm-Sample.swift:99). The questions are therefore shown from the last fetched to the first.
- `startGame` never clears `correctCount` (lines 81-84 reset only the two lists). A second game's final score includes the first game's correct answers, and it can exceed the number of questions (`ScoreCanExceedQuestions`).
- `startGame` resets both lists before the fetch (line 88). A failed fetch is rethrown with the lists already empty.
- The final-score sheet shows `correctCount / path.count` as its score (line 148), so the shown score can exceed the number of questions. There is no separate count of answered questions.
- `isDone` needs a non-empty path (line 58). An empty fetch leaves the game not done, not finished.
- `isDone` becomes true as soon as the last question is pushed (line 58). So the final-score sheet at line 145 comes up over the last question before that question can be answered (`GameRunsToCompletion`).
- Without a selection, the answer is a timeout only once the clock is at or below zero (line 175). Before that it is pending.
- The `onAnswered` closure (lines 135-141) has no error case. With nothing pending it only updates the score.

## Model

| member | source | states |
|---|---|---|
| `Trivia.Game.IsDone` | MidTerm-Sample/MidTerm-Sample.swift:57-59 | definition only, with no contract of its own: nothing is pending and the path is not empty; what it implies is proved in `NextQuestionWhenDone` and `GameRunsToCompletion` |
| `Trivia.Game.Reset` | MidTerm-Sample/MidTerm-Sample.swift:81-84 | both lists become empty, `correctCount` is kept, and the result is not done |
| `Trivia.Game.NextQuestion` | MidTerm-Sample/MidTerm-Sample.swift:98-101 | with questions pending: the last one moves to the end of the path, path grows by 1, pending shrinks by 1; with none pending: no change; the score is unchanged |
| `Trivia.QuestionsConserved` | MidTerm-Sample/MidTerm-Sample.swift:86-101 | the multiset of path plus pending questions is unchanged by `nextQuestion`, and equals the fetched list after `startGame` |
| `Trivia.NextQuestionWhenDone` | MidTerm-Sample/MidTerm-Sample.swift:57-59 | once `isDone` holds, `nextQuestion` (once or twice) changes nothing and the game stays done |
| `Trivia.Game.Start` | MidTerm-Sample/MidTerm-Sample.swift:86-95 | fetched list Q non-empty: path is `[last(Q)]` and pending is Q without its last element; Q empty: both lists empty and not done; score kept |
| `Trivia.Game.Answered` | MidTerm-Sample/MidTerm-Sample.swift:135-141 | the score grows by exactly 1 for a correct answer and is unchanged otherwise; the lists then change exactly as `nextQuestion` changes them |
| `Trivia.PlayMovesQuestions` | MidTerm-Sample/MidTerm-Sample.swift:135-141 | after a sequence of answers, the last `min(answers, pending)` questions are on the path, latest first; the rest are still pending; the score grew by the number of correct answers |
| `Trivia.GameRunsToCompletion` | MidTerm-Sample/MidTerm-Sample.swift:54-102 | in a started game, k answers leave `fetched[n-1-k]` on screen; `isDone` holds exactly from answer n-1 on; after n answers the path is the fetched list reversed |
| `Trivia.ScoreCarriesOver` | MidTerm-Sample/MidTerm-Sample.swift:80-95 | after a reset and a new start with n questions, n answers leave the path equal to the fetched list reversed, and the score is the earlier score plus the new correct answers; if the earlier score is 0, the final score is at most the length of the path |
| `Trivia.ScoreCanExceedQuestions` | MidTerm-Sample/MidTerm-Sample.swift:80-95 | with a positive earlier score and every answer of the new game correct, the final score is the earlier score plus n, which is more than the n questions on the path |
| `Trivia.GameState.constructor` | MidTerm-Sample/MidTerm-Sample.swift:55-60 | a new game state has empty lists and score 0 |
| `Trivia.GameState.Reset` | MidTerm-Sample/MidTerm-Sample.swift:80-84 | the new state is `Game.Reset` of the old one |
| `Trivia.GameState.NextQuestion` | MidTerm-Sample/MidTerm-Sample.swift:97-102 | pops from the end of `questions` and appends to `path`; the new state is `Game.NextQuestion` of the old |
| `Trivia.GameState.StartGame` | MidTerm-Sample/MidTerm-Sample.swift:86-95 | a successful fetch gives `Game.Start` of the old state and passes; a failed fetch gives the reset state and rethrows the fetch error; difficulty and count do not affect the state |
| `Trivia.OnAnswered` | MidTerm-Sample/MidTerm-Sample.swift:135-141 | the new state is `Game.Answered` of the old one |
| `Trivia.AnswerStateOf` | MidTerm-Sample/MidTerm-Sample.swift:168-180 | each classification holds if and only if: correct means the selection equals the correct answer; incorrect means some other selection, whatever the clock; timeout means no selection and `timeLeft <= 0`; pending means no selection and `timeLeft > 0` |
| `Trivia.TickedTime` | MidTerm-Sample/MidTerm-Sample.swift:232-236 | one tick lowers the clock by exactly one when nothing is selected and the clock is positive; otherwise the clock stays |
| `Trivia.TicksLater` | MidTerm-Sample/MidTerm-Sample.swift:232-236 | after any number of ticks the clock has not risen; it is unchanged under a selection; it stays non-negative from a non-negative start |
| `Trivia.Countdown` | MidTerm-Sample/MidTerm-Sample.swift:232-236 | from a non-negative clock with no selection, k ticks leave `max(t-k, 0)`; with a selection the clock stands still |
| `Trivia.TimeoutAfterTenTicks` | MidTerm-Sample/MidTerm-Sample.swift:228-236 | from the full clock set on a new question, the clock never goes below 0, and with no selection the answer is timed out exactly from the tenth tick |
| `Trivia.ButtonsDisabledAsWritten` | MidTerm-Sample/MidTerm-Sample.swift:208 | as written, the buttons are enabled exactly when the answer is pending, or when nothing is selected and the (timed-out) clock reads exactly 0 |
| `Trivia.LateAnswerOverridesTimeout` | MidTerm-Sample/MidTerm-Sample.swift:208 | as written, after ten ticks the answer is timed out yet the buttons are not disabled, and selecting the correct answer then classifies as correct |
| `Trivia.ButtonsEnabled` | MidTerm-Sample/MidTerm-Sample.swift:208 | corrected guard: the buttons take a tap exactly when the answer is pending |
| `Trivia.TappedSelection` | MidTerm-Sample/MidTerm-Sample.swift:202-208 | with the corrected guard, a tap while pending selects the tapped answer; otherwise the selection stays |
| `Trivia.SettledAnswerIsFinal` | MidTerm-Sample/MidTerm-Sample.swift:220-226 | once settled, neither a tap nor a tick changes the classification, so the value reported after the delay is the one that settled the question |
| `Trivia.TapWhilePendingSettles` | MidTerm-Sample/MidTerm-Sample.swift:202-208 | a tap while pending selects the tapped answer, and the result is correct exactly when that is the correct answer |
| `Trivia.QuestionView.constructor` | MidTerm-Sample/MidTerm-Sample.swift:161-163 | no answers, no selection, ten seconds on the clock |
| `Trivia.QuestionView.LoadAnswers` | MidTerm-Sample/MidTerm-Sample.swift:217-219 | the displayed answers are a permutation of the incorrect answers plus the correct one, so the correct answer is among them; selection and clock unchanged |
| `Trivia.QuestionView.PromptChanged` | MidTerm-Sample/MidTerm-Sample.swift:228-231 | a new question resets the selection to nil and the clock to 10, so the answer is pending; answers unchanged |
| `Trivia.QuestionView.Tick` | MidTerm-Sample/MidTerm-Sample.swift:232-236 | the clock drops by one only while the answer is pending; nothing else changes |
| `Trivia.QuestionView.Tap` | MidTerm-Sample/MidTerm-Sample.swift:202-208 | a tap selects the answer at that index only while the answer is pending (corrected guard); clock and answers unchanged |
| `Trivia.QuestionView.ReportedAnswer` | MidTerm-Sample/MidTerm-Sample.swift:220-226 | the value handed to `onAnswered` is true exactly when the selection is the correct answer; it is false exactly when another answer is selected, or when nothing is selected and the clock is at or below zero |
| `ImageGrid.GridState.constructor` | Assignment1/Assignment1.swift:18-24 | requires size ≤ 8; the grid has length `size`, holds the first `size` pool images in order, is well-formed, and nothing is selected |
| `ImageGrid.FirstIndex` | Assignment1/Assignment1.swift:27 | nil exactly when the image is absent; otherwise an index holding the image with no earlier occurrence |
| `ImageGrid.Replaced` | Assignment1/Assignment1.swift:26-37 | a possible outcome of one `replaceImage(x)` keeps the grid's length; if `x` is not shown, the only outcome is the unchanged grid |
| `ImageGrid.FreeImageIffRoom` | Assignment1/Assignment1.swift:30-36 | for a duplicate-free grid of pool images, a pool image absent from the grid (the only draw that ends the retry loop) exists if and only if the grid has fewer than 8 cells |
| `ImageGrid.ReplacedKeepsWellFormed` | Assignment1/Assignment1.swift:26-37 | a replacement keeps the grid duplicate-free, within the pool and of the same length; a shown image disappears from the grid; an image not shown leaves it unchanged |
| `ImageGrid.GridState.ReplaceImage` | Assignment1/Assignment1.swift:26-37 | an absent image leaves the grid unchanged; otherwise only the first cell holding it changes, to a pool image that was not in the grid; the grid stays well-formed |
| `ImageGrid.ReplacedAll` | Assignment1/Assignment1.swift:55-58 | a chain of replacements, one per image in order (the Shuffle loop), keeps the grid's length |
| `ImageGrid.ReplacedAllKeepsWellFormed` | Assignment1/Assignment1.swift:55-58 | any chain of replacements keeps the grid well-formed and its length; every cell whose image is not in the chain keeps its image |
| `ImageGrid.Shuffle` | Assignment1/Assignment1.swift:55-60 | `replaceImage` applied once per previously selected image (in some order); the selection is then empty; unselected cells keep their images; the grid stays well-formed |
| `ImageGrid.Toggled` | Assignment1/Assignment1.swift:92-98 | the tapped image is in the result exactly when it was not selected before; every other image keeps its membership |
| `ImageGrid.ToggleTwice` | Assignment1/Assignment1.swift:92-98 | two taps on the same image restore the selection |
| `ImageGrid.GridState.IsSelected` | Assignment1/Assignment1.swift:73-75 | definition only, with no contract of its own: an image view shows its checkmark exactly when its image is in the selection |
| `ImageGrid.Tap` | Assignment1/Assignment1.swift:92-98 | the new selection is the toggled old one |
| `Feed.FirstWithId` | Assignment2/Assignment2.swift:37-39 | nil exactly when no user has the id; otherwise a user with that id and no earlier user with it |
| `Feed.UserFor` | Assignment2/Assignment2.swift:36-44 | success returns a user of the set whose id is the post's `userId`; fails with `unknownUser` exactly when no user in the set has that id |
| `Feed.UserForIgnoresOrder` | Assignment2/Assignment2.swift:32-44 | whether the lookup throws does not depend on the set's iteration order; with unique ids, neither does the user found |
| `Feed.SymbolsDistinct` | Assignment2/Assignment2.swift:86-97 | the ten symbols are pairwise distinct and none is the default `square.fill` |
| `Feed.AssignSymbols` | Assignment2/Assignment2.swift:99-101 | every entry after the loop holds a symbol from the stack for a user the loop processed; a user it did not process keeps its old entry, which is still present |
| `Feed.AssignSymbolsAt` | Assignment2/Assignment2.swift:99-101 | the k-th user processed gets the k-th symbol from the end of the stack while it lasts and has no entry after; users outside the iteration keep their entry or lack of one |
| `Feed.AssignSymbolsProperties` | Assignment2/Assignment2.swift:85-102 | every symbol written is one of the ten; distinct users get distinct symbols; with at most ten users every user has an entry; other users' entries are untouched |
| `Feed.ShownSymbol` | Assignment2/Assignment2.swift:213 | the symbol shown is the user's entry or `square.fill`; when no entry is `square.fill`, the default is shown exactly for users with no entry |
| `Feed.ShownSymbolAfterAssignment` | Assignment2/Assignment2.swift:213 | after the assignment the k-th user is shown the k-th symbol from the end when k < 10; the default is shown exactly when k ≥ 10 |
| `Feed.UserViewModel.constructor` | Assignment2/Assignment2.swift:83 | the dictionary starts empty |
| `Feed.UserViewModel.AssignUserSymbols` | Assignment2/Assignment2.swift:85-103 | iterates every user of the set once, in some order without repeats; the new dictionary is the one the iterated pops give |

## Findings

| source | as written | input that shows it | evidently intended | confidence | as-written member | corrected member |
|---|---|---|---|---|---|---|
| MidTerm-Sample/MidTerm-Sample.swift:208 | the answer buttons are disabled when `timeLeft < 0`, but the timeout is `timeLeft <= 0` and the timer stops decrementing at 0, so the clock never goes below 0 | no selection and ten ticks: the answer is timed out with `timeLeft == 0`, and the buttons are still enabled. A tap on the (highlighted) correct answer within the two-second delay before `onAnswered` reads `answerState` (lines 221-224) turns the timeout into a correct answer, and that answer is credited | buttons enabled exactly while the answer is pending (`timeLeft <= 0` disables, as in `answerState`) | medium, not executed | `Trivia.LateAnswerOverridesTimeout` (with `Trivia.ButtonsDisabledAsWritten`) | `Trivia.ButtonsEnabled` (used by `Trivia.QuestionView.Tap`, with `Trivia.SettledAnswerIsFinal`) |

## Left out

- Network access and decoding are not modelled: `fetchQuestions`, `APIModel.fetch`, `updateUsers`, `updatePosts`, the HTTP status checks and JSON decoding. Fetched questions, or the error the fetch threw, are an input to `StartGame`, and the fetched user set is an input to the lookup and the symbol assignment.
- Concurrency and scheduling are not modelled: `Task`, `MainActor` hops, the two-second `Task.sleep` before `onAnswered`, and the `Timer` scheduling, restarting and invalidation. The other actions on the main actor could interleave between `startGame`'s reset and its assignment of the questions. A timer firing is the explicit method `QuestionView.Tick`. The `onChange` triggers are the explicit methods `PromptChanged` and `ReportedAnswer`. Console output is left out: the `print(isCorrect ? "Correct" : "Wrong")` in the `onAnswered` closure (MidTerm-Sample.swift:136), and the `print(error)` of the only caller of `startGame` (lines 116-120). That caller catches the error, so a `Fail` from `GameState.StartGame` is discarded and the game stays in the reset state.
- `assignUserColors` and the default user colour are left out, because they use random `Double` RGB values (floating point).
- View layout and rendering are left out. This covers the navigation titles, the final-score sheet's presentation, the `Checkmark` shape, the category label formatting, the "Unknown User" fallback in `PostView`, and the remaining sample modules (maps, location, photos, persistence, publishers, shapes).
- `ImageGrid.GridState.ReplaceImage`: the `while true` loop draws random images until one is absent from the grid. The model keeps only the draw that ends the loop, as one nondeterministic choice among the absent images. The model proves that such an image exists exactly when the grid has fewer than eight cells (`FreeImageIffRoom`). The rejected draws and the probabilistic termination are not modelled, and the method requires that an image it finds can be replaced.
- `ImageGrid.Shuffle` requires the grid to have fewer than eight cells, or no selected image to be in the grid. Otherwise the source's retry loop never ends. The app's four-cell grid always meets this.
- `Trivia.QuestionView.Tap` uses the corrected guard from "## Findings", not the source's `timeLeft < 0`. The as-written guard is `ButtonsDisabledAsWritten`.
- `timeLeft` is a `TimeInterval` (a `Double`) in the source. The model uses an integer, because it only ever starts at 10 and changes by whole seconds.
- `correctCount` and the ids are unbounded integers. Swift's `Int` overflow trap at `Int.max` is not modelled.
- `Question` decoding from JSON is not modelled, and neither are the category raw values or `CaseIterable`.
- Strings are compared code unit by code unit, as Dafny's `seq<char>` is, not by Swift's canonical equivalence (under which "Caf\u{E9}" equals "Cafe\u{301}"). So an incorrect answer canonically equal to `correctAnswer` is `Incorrect` in `AnswerStateOf`, where `answerState` (MidTerm-Sample.swift:170) calls it correct. Likewise two users whose usernames or emails differ only in encoding are two elements of `set<User>` and two `userSymbol` keys, where Swift's `Set<User>` and dictionary hold one (Assignment2.swift:12-20, 83, 99-100).
- `User`'s custom hash, which uses only `id`, is not modelled. Sets and dictionaries compare users on all three fields, as Swift's synthesized `==` does.
