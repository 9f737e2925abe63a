/**
 * The trivia quiz: a game state that moves fetched questions one at a time
 * onto a navigation path and keeps a running score, and the question screen
 * that classifies an answer, counts down, and reports the answer back.
 */
module Trivia {
  import opened Basics

  datatype Category =
    | Music | SportAndLeisure | FilmAndTv | ArtsAndLiterature | History
    | SocietyAndCulture | Science | Geography | FoodAndDrink | GeneralKnowledge

  datatype Difficulty = Easy | Medium | Hard

  datatype Question = Question(
    id: string,
    category: Category,
    prompt: string,
    correctAnswer: string,
    incorrectAnswers: seq<string>)

  /** Why `fetchQuestions` threw instead of returning questions. */
  datatype FetchError = BadUrl | BadServerResponse | TransportFailure | DecodingFailure

  /** The sequence read back to front. */
  function Reversed<T>(s: seq<T>): (r: seq<T>)
  {
    seq(|s|, i requires 0 <= i < |s| => s[|s| - 1 - i])
  }

  /** How many answers in the sequence were correct. */
  function CountTrue(s: seq<bool>): (r: nat)
    ensures r <= |s|
  {
    if s == [] then 0 else (if s[0] then 1 else 0) + CountTrue(s[1..])
  }

  // ---------------------------------------------------------------------
  // The game state
  // ---------------------------------------------------------------------

  /**
   * The values of `GameState`'s three published fields: the questions pushed
   * on the navigation path so far, the questions still to come, and the
   * number of correct answers.
   */
  datatype Game = Game(path: seq<Question>, questions: seq<Question>, correctCount: int) {

    /** `isDone`: every question has been pushed on the path, and there was at least one. */
    predicate IsDone() {
      questions == [] && path != []
    }

    /** `reset()`: back to the main menu; the score is kept. */
    function Reset(): (r: Game)
      ensures r.path == [] && r.questions == [] && !r.IsDone()
      ensures r.correctCount == correctCount
    {
      Game([], [], correctCount)
    }

    /**
     * `nextQuestion()`: the last pending question (not the first) moves to
     * the end of the path; with nothing pending nothing changes.
     */
    function NextQuestion(): (r: Game)
      ensures questions != [] ==>
        && r.path == path + [Last(questions)] && r.questions == DropLast(questions)
        && |r.path| == |path| + 1 && |r.questions| == |questions| - 1
      ensures questions == [] ==> r == this
      ensures r.correctCount == correctCount
    {
      if questions == [] then this
      else Game(path + [Last(questions)], DropLast(questions), correctCount)
    }

    /**
     * `startGame` once the fetch returned `fetched`: a reset, the fetched
     * questions pending, then one `nextQuestion`.
     */
    function Start(fetched: seq<Question>): (r: Game)
      ensures fetched != [] ==> r.path == [Last(fetched)] && r.questions == DropLast(fetched)
      ensures fetched == [] ==> r.path == [] && r.questions == [] && !r.IsDone()
      ensures r.correctCount == correctCount
    {
      Reset().(questions := fetched).NextQuestion()
    }

    /**
     * The `onAnswered` closure: one more correct answer if it was correct,
     * then `nextQuestion`, whatever the answer was.
     */
    function Answered(isCorrect: bool): (r: Game)
      ensures r.correctCount == if isCorrect then correctCount + 1 else correctCount
      ensures r.path == NextQuestion().path && r.questions == NextQuestion().questions
    {
      this.(correctCount := if isCorrect then correctCount + 1 else correctCount).NextQuestion()
    }
  }

  /** The game after one call of `onAnswered` per element of `answers`, in order. */
  function Play(g: Game, answers: seq<bool>): (r: Game)
    decreases |answers|
  {
    if answers == [] then g else Play(g.Answered(answers[0]), answers[1..])
  }

  /**
   * `nextQuestion` neither loses nor invents a question: together the path
   * and the pending questions hold the same questions as before, and a
   * started game holds exactly the fetched ones.
   */
  lemma QuestionsConserved(g: Game, fetched: seq<Question>)
    ensures multiset(g.NextQuestion().path + g.NextQuestion().questions) == multiset(g.path + g.questions)
    ensures multiset(g.Start(fetched).path + g.Start(fetched).questions) == multiset(fetched)
  {
    if g.questions != [] {
      MovedLastConserves(g.path, g.questions);
    }
    if fetched != [] {
      MovedLastConserves([], fetched);
    }
  }

  /** Moving the last of `q` to the end of `p` keeps the multiset of `p + q`. */
  lemma MovedLastConserves(p: seq<Question>, q: seq<Question>)
    requires q != []
    ensures multiset(p + [Last(q)] + DropLast(q)) == multiset(p + q)
  {
    assert q == DropLast(q) + [Last(q)];
    calc {
      multiset(p + [Last(q)] + DropLast(q));
      multiset(p) + multiset([Last(q)]) + multiset(DropLast(q));
      multiset(p) + multiset(DropLast(q) + [Last(q)]);
    }
  }

  /** Once every question is on the path, `nextQuestion` changes nothing, however often it is called. */
  lemma NextQuestionWhenDone(g: Game)
    requires g.IsDone()
    ensures g.NextQuestion() == g && g.NextQuestion().NextQuestion() == g
    ensures g.NextQuestion().IsDone()
  {
  }

  /** How many pending questions `answers` move onto the path: one per answer while any are pending. */
  function Moved(g: Game, answers: seq<bool>): (r: nat) {
    if |answers| <= |g.questions| then |answers| else |g.questions|
  }

  /**
   * Answering pushes the last `Moved` pending questions on the path, latest
   * first (once none are pending, later answers only change the score), and
   * adds the correct answers to the score.
   */
  lemma {:induction false} PlayMovesQuestions(g: Game, answers: seq<bool>)
    ensures Play(g, answers).path == g.path + Reversed(g.questions[|g.questions| - Moved(g, answers)..])
    ensures Play(g, answers).questions == g.questions[..|g.questions| - Moved(g, answers)]
    ensures Play(g, answers).correctCount == g.correctCount + CountTrue(answers)
    decreases |answers|
  {
    var q := g.questions;
    if answers == [] {
      assert q[|q|..] == [] && q[..|q|] == q;
    } else {
      var next := g.Answered(answers[0]);
      var rest := answers[1..];
      assert Play(g, answers) == Play(next, rest);
      PlayMovesQuestions(next, rest);
      if q != [] {
        OneMoreMoved(g, answers);
      }
    }
  }

  /** The step of PlayMovesQuestions: its statement for `answers` follows from the one for `answers[1..]`. */
  lemma OneMoreMoved(g: Game, answers: seq<bool>)
    requires answers != [] && g.questions != []
    ensures var next := g.Answered(answers[0]);
      var q, q2, k, k2 := g.questions, next.questions, Moved(g, answers), Moved(next, answers[1..]);
      && next.path + Reversed(q2[|q2| - k2..]) == g.path + Reversed(q[|q| - k..])
      && q2[..|q2| - k2] == q[..|q| - k]
  {
    var next := g.Answered(answers[0]);
    MovedStep(g.path, g.questions, Moved(g, answers), next.path, next.questions, Moved(next, answers[1..]));
  }

  /**
   * The sequences of OneMoreMoved: moving the last of `q` onto `p` first,
   * then `k - 1` more, is the same as moving `k` at once.
   */
  lemma MovedStep(p: seq<Question>, q: seq<Question>, k: nat, p2: seq<Question>, q2: seq<Question>, k2: nat)
    requires 0 < k <= |q| && p2 == p + [Last(q)] && q2 == DropLast(q) && k2 == k - 1
    ensures p2 + Reversed(q2[|q2| - k2..]) == p + Reversed(q[|q| - k..])
    ensures q2[..|q2| - k2] == q[..|q| - k]
  {
    assert q2[|q2| - k2..] == DropLast(q)[|q| - k..];
    ReversedSuffix(q, k);
    var moved := Reversed(q2[|q2| - k2..]);
    assert Reversed(q[|q| - k..]) == [Last(q)] + moved;
    assert p2 + moved == p + ([Last(q)] + moved);
  }

  /** Reversing a non-empty suffix puts the last element first. */
  lemma ReversedSuffix<T>(q: seq<T>, k: nat)
    requires 0 < k <= |q|
    ensures Reversed(q[|q| - k..]) == [Last(q)] + Reversed(DropLast(q)[|q| - k..])
  {
    var lhs, rhs := Reversed(q[|q| - k..]), [Last(q)] + Reversed(DropLast(q)[|q| - k..]);
    forall i | 0 <= i < k ensures lhs[i] == rhs[i] {
      if i > 0 {
        assert rhs[i] == Reversed(DropLast(q)[|q| - k..])[i - 1];
      }
    }
    assert |lhs| == |rhs|;
  }

  /**
   * A game started with `fetched` questions: after `k` answers the screen
   * shows `fetched[|fetched| - 1 - k]` (the questions come last to first),
   * `isDone` already holds when the last question is pushed, that is after
   * `|fetched| - 1` answers, and after one answer per question the path is
   * the fetched list reversed and the score grew by the correct answers.
   */
  lemma GameRunsToCompletion(g: Game, fetched: seq<Question>, answers: seq<bool>)
    requires fetched != [] && |answers| <= |fetched|
    ensures |answers| < |fetched| ==>
      Play(g.Start(fetched), answers).path != [] &&
      Last(Play(g.Start(fetched), answers).path) == fetched[|fetched| - 1 - |answers|]
    ensures Play(g.Start(fetched), answers).IsDone() <==> |answers| + 1 >= |fetched|
    ensures Play(g.Start(fetched), answers).correctCount == g.correctCount + CountTrue(answers)
    ensures |answers| == |fetched| ==>
      Play(g.Start(fetched), answers).path == Reversed(fetched) && Play(g.Start(fetched), answers).questions == []
  {
    var s := g.Start(fetched);
    PlayMovesQuestions(s, answers);
    var r := Play(s, answers);
    StartedPath(fetched, |answers|, s.questions, Moved(s, answers), r.path, r.questions);
  }

  /**
   * The path and pending questions of a game started with `fetched` after
   * `m` answers, as PlayMovesQuestions gives them: the start leaves `q`, the
   * fetched list without its last element, pending, and the `m` answers
   * move `k` of those, `m` but no more than all of them.
   */
  lemma StartedPath(fetched: seq<Question>, m: nat, q: seq<Question>, k: nat, path: seq<Question>, questions: seq<Question>)
    requires fetched != [] && m <= |fetched| && q == DropLast(fetched)
    requires k == if m < |fetched| then m else |fetched| - 1
    requires path == [Last(fetched)] + Reversed(q[|q| - k..])
    requires questions == q[..|q| - k]
    ensures m < |fetched| ==> path != [] && Last(path) == fetched[|fetched| - 1 - m]
    ensures (questions == [] && path != []) <==> m + 1 >= |fetched|
    ensures m == |fetched| ==> path == Reversed(fetched) && questions == []
  {
    var n := |fetched|;
    var tail := q[n - 1 - k..];
    assert |questions| == n - 1 - k;
    if k > 0 {
      ReversedFirst(tail);
      assert Last(path) == tail[0] == fetched[n - 1 - k];
    } else {
      assert path == [Last(fetched)];
    }
    if k == n - 1 {
      assert tail == q;
      var rev := Reversed(fetched);
      forall i | 0 <= i < n ensures path[i] == rev[i] {
        if i > 0 { assert path[i] == Reversed(tail)[i - 1]; }
      }
    }
  }

  /** The last element of a reversed sequence is the first of the original. */
  lemma ReversedFirst<T>(s: seq<T>)
    requires s != []
    ensures Last(Reversed(s)) == s[0]
  {
  }

  /**
   * The score never resets: a game started after an earlier one ends, after
   * one answer per question, with the fetched questions on the path (last
   * fetched first) and the earlier correct answers still counted. If the earlier score is 0, the
   * final score is at most the length of the path.
   */
  lemma ScoreCarriesOver(g: Game, fetched: seq<Question>, answers: seq<bool>)
    requires fetched != [] && |answers| == |fetched|
    ensures Play(g.Reset().Start(fetched), answers).correctCount == g.correctCount + CountTrue(answers)
    ensures Play(g.Reset().Start(fetched), answers).path == Reversed(fetched)
    ensures g.correctCount == 0 ==>
      Play(g.Start(fetched), answers).correctCount <= |Play(g.Start(fetched), answers).path|
  {
    GameRunsToCompletion(g.Reset(), fetched, answers);
    GameRunsToCompletion(g, fetched, answers);
  }

  /**
   * The final-score sheet shows `correctCount / path.count`, and the shown
   * score can exceed the number of questions: after an earlier game with a
   * positive score, answering every question of the next game correctly
   * leaves more correct answers than questions.
   */
  lemma ScoreCanExceedQuestions(g: Game, fetched: seq<Question>, answers: seq<bool>)
    requires fetched != [] && |answers| == |fetched| && g.correctCount > 0
    requires forall i :: 0 <= i < |answers| ==> answers[i]
    ensures Play(g.Reset().Start(fetched), answers).correctCount == g.correctCount + |fetched|
    ensures Play(g.Reset().Start(fetched), answers).correctCount > |Play(g.Reset().Start(fetched), answers).path|
  {
    ScoreCarriesOver(g, fetched, answers);
    AllCorrect(answers);
  }

  /** Every answer correct: the count is the number of answers. */
  lemma {:induction false} AllCorrect(answers: seq<bool>)
    requires forall i :: 0 <= i < |answers| ==> answers[i]
    ensures CountTrue(answers) == |answers|
  {
    if answers != [] {
      assert answers[0];
      AllCorrect(answers[1..]);
    }
  }

  /** `GameState`, the observable object that drives the navigation stack. */
  class GameState {
    var path: seq<Question>
    var questions: seq<Question>
    var correctCount: int

    constructor ()
      ensures path == [] && questions == [] && correctCount == 0
    {
      path, questions, correctCount := [], [], 0;
    }

    function State(): (r: Game)
      reads this
    {
      Game(path, questions, correctCount)
    }

    method Reset()
      modifies this
      ensures State() == old(State()).Reset()
    {
      path := [];
      questions := [];
    }

    method NextQuestion()
      modifies this
      ensures State() == old(State()).NextQuestion()
    {
      var popped := PopLast(questions);
      questions := popped.1;
      if popped.0.Some? {
        path := path + [popped.0.value];
      }
    }

    /**
     * `startGame(difficulty:count:)` with the outcome of `fetchQuestions`
     * passed in as `fetched`. Neither argument reaches the state: `count`
     * only goes into the request and `difficulty` is never read. A failed
     * fetch is rethrown after the reset already happened.
     */
    method StartGame(difficulty: Difficulty, count: int, fetched: Result<seq<Question>, FetchError>)
      returns (outcome: Outcome<FetchError>)
      modifies this
      ensures fetched.Failure? ==> outcome == Fail(fetched.error) && State() == old(State()).Reset()
      ensures fetched.Success? ==> outcome == Pass && State() == old(State()).Start(fetched.value)
    {
      Reset();
      match fetched {
        case Failure(e) =>
          return Fail(e);
        case Success(qs) =>
          questions := qs;
          NextQuestion();
          return Pass;
      }
    }
  }

  /** The navigation destination's `onAnswered` closure, run on the shared state. */
  method OnAnswered(state: GameState, isCorrect: bool)
    modifies state
    ensures state.State() == old(state.State()).Answered(isCorrect)
  {
    if isCorrect {
      state.correctCount := state.correctCount + 1;
    }
    state.NextQuestion();
  }

  // ---------------------------------------------------------------------
  // The question screen
  // ---------------------------------------------------------------------

  datatype AnswerState = Correct | Incorrect | Timeout

  /** Seconds on the clock when a question appears. */
  const QuestionTime: int := 10

  /**
   * `answerState`: a selection decides (correct exactly when it is the
   * correct answer), whatever the clock shows; without one the answer has
   * timed out once the clock is at or below zero, and is pending before.
   */
  function AnswerStateOf(question: Question, selected: Option<string>, timeLeft: int): (r: Option<AnswerState>)
    ensures r == Some(Correct) <==> selected == Some(question.correctAnswer)
    ensures r == Some(Incorrect) <==> selected.Some? && selected.value != question.correctAnswer
    ensures r == Some(Timeout) <==> selected.None? && timeLeft <= 0
    ensures r == None <==> selected.None? && timeLeft > 0
  {
    match selected
    case Some(s) => if s == question.correctAnswer then Some(Correct) else Some(Incorrect)
    case None => if timeLeft <= 0 then Some(Timeout) else None
  }

  /** The clock after one tick of the one-second timer: it runs only while the answer is pending. */
  function TickedTime(question: Question, selected: Option<string>, timeLeft: int): (r: int)
    ensures r == timeLeft - 1 <==> selected.None? && timeLeft > 0
    ensures r == timeLeft <==> selected.Some? || timeLeft <= 0
  {
    if AnswerStateOf(question, selected, timeLeft) == None then timeLeft - 1 else timeLeft
  }

  /**
   * The clock after `k` ticks: it never rises, it stands still under a
   * selection, and it does not drop below zero from a non-negative start.
   */
  function TicksLater(question: Question, selected: Option<string>, timeLeft: int, k: nat): (r: int)
    ensures r <= timeLeft
    ensures selected.Some? ==> r == timeLeft
    ensures timeLeft >= 0 ==> r >= 0
    decreases k
  {
    if k == 0 then timeLeft else TicksLater(question, selected, TickedTime(question, selected, timeLeft), k - 1)
  }

  /**
   * Without a selection the clock counts down one second per tick and stops
   * at zero; with one it stands still.
   */
  lemma {:induction false} Countdown(question: Question, selected: Option<string>, timeLeft: int, k: nat)
    requires timeLeft >= 0
    ensures selected.None? ==> TicksLater(question, selected, timeLeft, k) == if k <= timeLeft then timeLeft - k else 0
    ensures selected.Some? ==> TicksLater(question, selected, timeLeft, k) == timeLeft
    decreases k
  {
    if k > 0 {
      Countdown(question, selected, TickedTime(question, selected, timeLeft), k - 1);
    }
  }

  /**
   * From a fresh question the clock never goes below zero, and without a
   * selection the answer times out exactly at the tenth tick.
   */
  lemma TimeoutAfterTenTicks(question: Question, selected: Option<string>, k: nat)
    ensures TicksLater(question, selected, QuestionTime, k) >= 0
    ensures selected.None? ==>
      (AnswerStateOf(question, selected, TicksLater(question, selected, QuestionTime, k)) == Some(Timeout) <==> k >= QuestionTime)
  {
    Countdown(question, selected, QuestionTime, k);
  }

  /**
   * The answer buttons' `disabled` condition as the screen writes it: the
   * buttons are enabled while the answer is pending and also on a timed-out
   * clock that reads exactly zero.
   */
  function ButtonsDisabledAsWritten(question: Question, selected: Option<string>, timeLeft: int): (r: bool)
    ensures !r <==> AnswerStateOf(question, selected, timeLeft) == None || (selected.None? && timeLeft == 0)
  {
    selected.Some? || timeLeft < 0
  }

  /**
   * As written, the buttons stay enabled after a timeout: the clock stops at
   * zero, where the answer already counts as timed out but `timeLeft < 0`
   * is false, and a tap then turns the timeout into a correct answer.
   */
  lemma LateAnswerOverridesTimeout(question: Question)
    ensures AnswerStateOf(question, None, TicksLater(question, None, QuestionTime, 10)) == Some(Timeout)
    ensures !ButtonsDisabledAsWritten(question, None, TicksLater(question, None, QuestionTime, 10))
    ensures AnswerStateOf(question, Some(question.correctAnswer), TicksLater(question, None, QuestionTime, 10)) == Some(Correct)
  {
    Countdown(question, None, QuestionTime, 10);
  }

  /** The intended condition: the answer buttons take a tap exactly while the answer is pending. */
  function ButtonsEnabled(question: Question, selected: Option<string>, timeLeft: int): (r: bool)
    ensures r <==> AnswerStateOf(question, selected, timeLeft) == None
  {
    selected.None? && timeLeft > 0
  }

  /** The selection after a tap on an answer button showing `answer`: the tap counts only while pending. */
  function TappedSelection(question: Question, selected: Option<string>, timeLeft: int, answer: string): (r: Option<string>)
    ensures AnswerStateOf(question, selected, timeLeft) == None ==> r == Some(answer)
    ensures AnswerStateOf(question, selected, timeLeft) != None ==> r == selected
  {
    if ButtonsEnabled(question, selected, timeLeft) then Some(answer) else selected
  }

  /**
   * Once the answer is no longer pending, neither a tap nor a tick changes
   * it, so the value `onAnswered` receives two seconds later is the one that
   * ended the question.
   */
  lemma SettledAnswerIsFinal(question: Question, selected: Option<string>, timeLeft: int, answer: string)
    requires AnswerStateOf(question, selected, timeLeft) != None
    ensures var tapped := TappedSelection(question, selected, timeLeft, answer);
      AnswerStateOf(question, tapped, timeLeft) == AnswerStateOf(question, selected, timeLeft)
    ensures AnswerStateOf(question, selected, TickedTime(question, selected, timeLeft)) ==
      AnswerStateOf(question, selected, timeLeft)
  {
  }

  /** A tap while pending selects the tapped answer and settles the question. */
  lemma TapWhilePendingSettles(question: Question, timeLeft: int, answer: string)
    requires timeLeft > 0
    ensures TappedSelection(question, None, timeLeft, answer) == Some(answer)
    ensures AnswerStateOf(question, Some(answer), timeLeft) == Some(Correct) <==> answer == question.correctAnswer
  {
  }

  /** The `@State` of a `QuestionView`. */
  class QuestionView {
    const question: Question
    var answers: seq<string>
    var selectedAnswer: Option<string>
    var timeLeft: int

    constructor (question: Question)
      ensures this.question == question
      ensures answers == [] && selectedAnswer == None && timeLeft == QuestionTime
    {
      this.question := question;
      answers, selectedAnswer, timeLeft := [], None, QuestionTime;
    }

    function AnswerState(): (r: Option<AnswerState>)
      reads this
    {
      AnswerStateOf(question, selectedAnswer, timeLeft)
    }

    /** The `.task` modifier: the choices, shuffled into some order. */
    method LoadAnswers()
      modifies this
      ensures multiset(answers) == multiset(question.incorrectAnswers + [question.correctAnswer])
      ensures question.correctAnswer in answers && |answers| == |question.incorrectAnswers| + 1
      ensures selectedAnswer == old(selectedAnswer) && timeLeft == old(timeLeft)
    {
      var choices := question.incorrectAnswers + [question.correctAnswer];
      // Witness for the choice below: `choices` is a permutation of itself.
      assert multiset(choices) == multiset(choices);
      var shuffled :| multiset(shuffled) == multiset(choices);
      answers := shuffled;
      assert question.correctAnswer in multiset(choices);
      assert |answers| == |multiset(answers)|;
    }

    /** `.onChange(of: question.prompt, initial: true)`: a new question starts unanswered with a full clock. */
    method PromptChanged()
      modifies this
      ensures selectedAnswer == None && timeLeft == QuestionTime && answers == old(answers)
      ensures AnswerState() == None
    {
      selectedAnswer := None;
      timeLeft := QuestionTime;
    }

    /** One firing of the one-second timer. */
    method Tick()
      modifies this
      ensures timeLeft == TickedTime(question, old(selectedAnswer), old(timeLeft))
      ensures selectedAnswer == old(selectedAnswer) && answers == old(answers)
    {
      if AnswerState() == None {
        timeLeft := timeLeft - 1;
      }
    }

    /** A tap on the answer button at `index`, with the intended `disabled` condition. */
    method Tap(index: nat)
      requires index < |answers|
      modifies this
      ensures selectedAnswer == TappedSelection(question, old(selectedAnswer), old(timeLeft), old(answers)[index])
      ensures timeLeft == old(timeLeft) && answers == old(answers)
    {
      if ButtonsEnabled(question, selectedAnswer, timeLeft) {
        selectedAnswer := Some(answers[index]);
      }
    }

    /** What `.onChange(of: answerState)` passes to `onAnswered` once the answer settles. */
    method ReportedAnswer() returns (isCorrect: bool)
      requires AnswerState() != None
      ensures isCorrect <==> selectedAnswer == Some(question.correctAnswer)
      ensures !isCorrect <==>
        (selectedAnswer.Some? && selectedAnswer.value != question.correctAnswer) ||
        (selectedAnswer.None? && timeLeft <= 0)
    {
      isCorrect := AnswerState() == Some(Correct);
    }
  }
}
