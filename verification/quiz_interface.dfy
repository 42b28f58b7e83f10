/** The quiz-taking component (components/QuizInterface.tsx): a session over a
    fixed question list with a current index, an optional tentative selection,
    an answered flag and a score, driven by three handlers. The buttons that
    call the handlers are disabled or hidden by the render; those render
    guards are stated here as the predicate `Enabled`. */
module QuizInterface {
  import opened Types

  datatype QuizState = QuizState(
    currentIndex: nat,
    selectedOption: Option<int>,
    isAnswered: bool,
    score: nat)

  /** What `onComplete(score, questions.length)` hands to the application. */
  datatype Report = Report(score: nat, total: nat)

  /** A handler's effect: the next state and, for the final `Next`, the report. */
  datatype Transition = Transition(state: QuizState, report: Option<Report>)

  datatype Action = SelectOption(index: int) | SubmitAnswer | Next

  /** The four `useState` initial values. */
  function Initial(): (s: QuizState)
    ensures s.currentIndex == 0 && s.selectedOption == None
    ensures !s.isAnswered && s.score == 0
  {
    QuizState(0, None, false, 0)
  }

  /** `handleOptionSelect`: ignored once the question is answered; otherwise the
      new choice replaces any earlier one. Nothing else changes. */
  function OptionSelect(s: QuizState, index: int): (r: QuizState)
    ensures s.isAnswered ==> r == s
    ensures !s.isAnswered ==> r.selectedOption == Some(index)
    ensures r.currentIndex == s.currentIndex && r.isAnswered == s.isAnswered
    ensures r.score == s.score
  {
    if s.isAnswered then s else s.(selectedOption := Some(index))
  }

  /** `handleSubmitAnswer`: a no-op without a selection; otherwise it marks the
      question answered and adds one to the score exactly when the selection is
      the correct index. It does not look at `isAnswered` itself. Reading
      `questions[currentIndex]` needs the index in range. */
  function Submit(questions: seq<Question>, s: QuizState): (r: QuizState)
    requires s.currentIndex < |questions|
    ensures s.selectedOption.None? ==> r == s
    ensures s.selectedOption.Some? ==>
      && r.isAnswered
      && r.currentIndex == s.currentIndex
      && r.selectedOption == s.selectedOption
      && (r.score == s.score + 1 <==>
          s.selectedOption.value == questions[s.currentIndex].correctAnswerIndex)
      && (r.score == s.score ||  r.score == s.score + 1)
  {
    match s.selectedOption
    case None => s
    case Some(choice) =>
      var gained := if choice == questions[s.currentIndex].correctAnswerIndex then 1 else 0;
      s.(isAnswered := true, score := s.score + gained)
  }

  /** `handleNext`: before the last question it moves on one place and clears
      the selection and the answered flag; on the last question it reports
      `(score, questions.length)` and the state stays where it is. */
  function HandleNext(questions: seq<Question>, s: QuizState): (t: Transition)
    ensures s.currentIndex < |questions| - 1 ==>
      && t.report == None
      && t.state.currentIndex == s.currentIndex + 1
      && t.state.selectedOption == None
      && !t.state.isAnswered
      && t.state.score == s.score
    ensures s.currentIndex >= |questions| - 1 ==>
      t.state == s && t.report == Some(Report(s.score, |questions|))
  {
    if s.currentIndex < |questions| - 1 then
      Transition(QuizState(s.currentIndex + 1, None, false, s.score), None)
    else
      Transition(s, Some(Report(s.score, |questions|)))
  }

  /** The render guards: option buttons are disabled once answered (line 95)
      and exist only for the current question's options; Submit is shown only
      while unanswered (line 118) and is disabled without a selection (line
      121); Next is shown only once answered (line 126). Rendering reads
      `questions[currentIndex]`, so the index is in range whenever a button is. */
  predicate Enabled(questions: seq<Question>, s: QuizState, a: Action)
  {
    && s.currentIndex < |questions|
    && match a
       case SelectOption(i) => !s.isAnswered && 0 <= i < |questions[s.currentIndex].options|
       case SubmitAnswer => !s.isAnswered && s.selectedOption.Some?
       case Next => s.isAnswered
  }

  /** One click on a button. */
  function Step(questions: seq<Question>, s: QuizState, a: Action): (t: Transition)
    requires s.currentIndex < |questions|
    ensures t.report.Some? ==> a == Next
    ensures a != Next ==> t.state.currentIndex == s.currentIndex
  {
    match a
    case SelectOption(i) => Transition(OptionSelect(s, i), None)
    case SubmitAnswer => Transition(Submit(questions, s), None)
    case Next => HandleNext(questions, s)
  }

  /** Questions whose answer has been locked in: all earlier ones, plus the
      current one once it is answered. */
  function Submitted(s: QuizState): (n: nat)
  {
    s.currentIndex + if s.isAnswered then 1 else 0
  }

  /** What every state reachable through the rendered buttons satisfies. */
  predicate Inv(questions: seq<Question>, s: QuizState)
  {
    && s.currentIndex < |questions|
    && (s.isAnswered ==> s.selectedOption.Some?)
    && s.score <= Submitted(s)
  }

  /** A session over at least one question starts in the invariant. */
  lemma InitialInv(questions: seq<Question>)
    requires |questions| >= 1
    ensures Inv(questions, Initial()) && Submitted(Initial()) == 0
  {
  }

  /** Every enabled click keeps the invariant, never moves the index backwards
      or past the last question, and a report carries `questions.length` and a
      score no larger than it. */
  lemma StepKeepsInv(questions: seq<Question>, s: QuizState, a: Action)
    requires Inv(questions, s) && Enabled(questions, s, a)
    ensures Inv(questions, Step(questions, s, a).state)
    ensures s.currentIndex <= Step(questions, s, a).state.currentIndex < |questions|
    ensures Step(questions, s, a).report.Some? ==>
      && Step(questions, s, a).report.value.total == |questions|
      && Step(questions, s, a).report.value.score <= |questions|
      && Step(questions, s, a).state.currentIndex == |questions| - 1
  {
  }

  /** The last of two selections is the one kept: `selectedOption` holds no
      history of earlier picks. */
  lemma LastSelectionWins(s: QuizState, i: int, j: int)
    ensures OptionSelect(OptionSelect(s, i), j) == OptionSelect(s, j)
  {
  }

  /** Without the line-118 guard a second Submit on the same question would
      count a correct answer twice, taking the score past the number of
      submitted questions: the bound rests on the guard. */
  lemma DoubleSubmitCountsTwice(questions: seq<Question>, s: QuizState)
    requires Inv(questions, s) && !s.isAnswered && s.score == Submitted(s)
    requires s.selectedOption == Some(questions[s.currentIndex].correctAnswerIndex)
    ensures Submit(questions, Submit(questions, s)).score == s.score + 2
    ensures !Inv(questions, Submit(questions, Submit(questions, s)))
  {
  }

  // ---------------------------------------------------------------------------
  // Runs: sequences of clicks on rendered, enabled buttons
  // ---------------------------------------------------------------------------

  /** Every click is on an enabled button, and nothing follows the click that
      completes the quiz (the application unmounts the component then). */
  predicate Admissible(questions: seq<Question>, s: QuizState, actions: seq<Action>)
    decreases |actions|
  {
    |actions| == 0 ||
    (Enabled(questions, s, actions[0]) &&
     var t := Step(questions, s, actions[0]);
     if t.report.Some? then |actions| == 1 else Admissible(questions, t.state, actions[1..]))
  }

  /** The state after an admissible run, and the report if it completed. */
  function Run(questions: seq<Question>, s: QuizState, actions: seq<Action>): (t: Transition)
    requires Admissible(questions, s, actions)
    decreases |actions|
  {
    if |actions| == 0 then Transition(s, None)
    else
      var t := Step(questions, s, actions[0]);
      if t.report.Some? then t else Run(questions, t.state, actions[1..])
  }

  /** The option locked in by each Submit of a run, in order. */
  function LockedAnswers(questions: seq<Question>, s: QuizState, actions: seq<Action>): (answers: seq<int>)
    requires Admissible(questions, s, actions)
    decreases |actions|
  {
    if |actions| == 0 then []
    else
      var t := Step(questions, s, actions[0]);
      var here := if actions[0].SubmitAnswer? then [s.selectedOption.value] else [];
      if t.report.Some? then here else here + LockedAnswers(questions, t.state, actions[1..])
  }

  /** How many of the answers are the correct option of the question at the
      same position. */
  function CountCorrect(questions: seq<Question>, answers: seq<int>): (n: nat)
    requires |answers| <= |questions|
  {
    if |answers| == 0 then 0
    else
      var k := |answers| - 1;
      CountCorrect(questions, answers[..k]) + if answers[k] == questions[k].correctAnswerIndex then 1 else 0
  }

  lemma {:induction false} CountCorrectBound(questions: seq<Question>, answers: seq<int>)
    requires |answers| <= |questions|
    ensures CountCorrect(questions, answers) <= |answers|
  {
    if |answers| > 0 {
      CountCorrectBound(questions, answers[..|answers| - 1]);
    }
  }

  /** The session is the bookkeeping of one locked answer per question:
      `answers` holds the locked answers of the questions before the current
      one, and of the current one too once it is answered. */
  predicate Tracks(questions: seq<Question>, s: QuizState, answers: seq<int>)
  {
    && Inv(questions, s)
    && |answers| == Submitted(s)
    && (s.isAnswered ==> answers[s.currentIndex] == s.selectedOption.value)
    && s.score == CountCorrect(questions, answers)
  }

  /** Under the render guards, a run from any tracked state keeps tracking:
      each question's answer is locked exactly once, in question order, and
      the score is the number of locked answers that are correct. */
  lemma {:induction false} RunTracks(questions: seq<Question>, s: QuizState, answers: seq<int>, actions: seq<Action>)
    requires Tracks(questions, s, answers) && Admissible(questions, s, actions)
    ensures Tracks(questions, Run(questions, s, actions).state,
                   answers + LockedAnswers(questions, s, actions))
    decreases |actions|
  {
    if |actions| > 0 {
      var a := actions[0];
      var t := Step(questions, s, a);
      var here := if a.SubmitAnswer? then [s.selectedOption.value] else [];
      StepTracks(questions, s, answers, a);
      if t.report.None? {
        RunTracks(questions, t.state, answers + here, actions[1..]);
        assert answers + here + LockedAnswers(questions, t.state, actions[1..])
            == answers + LockedAnswers(questions, s, actions);
      } else {
        assert answers + LockedAnswers(questions, s, actions) == answers + here;
      }
    } else {
      assert answers + LockedAnswers(questions, s, actions) == answers;
    }
  }

  lemma StepTracks(questions: seq<Question>, s: QuizState, answers: seq<int>, a: Action)
    requires Tracks(questions, s, answers) && Enabled(questions, s, a)
    ensures Tracks(questions, Step(questions, s, a).state,
                   answers + if a.SubmitAnswer? then [s.selectedOption.value] else [])
  {
    if a.SubmitAnswer? {
      var v := s.selectedOption.value;
      var answers' := answers + [v];
      assert answers'[..|answers|] == answers;
      assert CountCorrect(questions, answers') == CountCorrect(questions, answers)
        + if v == questions[s.currentIndex].correctAnswerIndex then 1 else 0;
    } else {
      assert answers + [] == answers;
    }
  }

  /** The three structural promises of a session, for every run of enabled
      clicks from the initial state: the score is exactly the number of
      correct locked answers, at most one answer is locked per question
      reached, so 0 <= score <= submitted <= currentIndex + 1 <= N, and a
      completed run reports `(score, N)` with score <= N. */
  lemma ScoreCountsCorrectAnswers(questions: seq<Question>, actions: seq<Action>)
    requires |questions| >= 1 && Admissible(questions, Initial(), actions)
    ensures var t := Run(questions, Initial(), actions);
      var answers := LockedAnswers(questions, Initial(), actions);
      && |answers| == Submitted(t.state) <= t.state.currentIndex + 1 <= |questions|
      && t.state.score == CountCorrect(questions, answers)
      && t.state.score <= Submitted(t.state)
      && (t.report.Some? ==> t.report.value == Report(t.state.score, |questions|))
  {
    RunTracks(questions, Initial(), [], actions);
    assert [] + LockedAnswers(questions, Initial(), actions) == LockedAnswers(questions, Initial(), actions);
    RunReport(questions, Initial(), actions);
  }

  lemma {:induction false} RunReport(questions: seq<Question>, s: QuizState, actions: seq<Action>)
    requires Admissible(questions, s, actions)
    ensures var t := Run(questions, s, actions);
      t.report.Some? ==> t.report.value == Report(t.state.score, |questions|)
    decreases |actions|
  {
    if |actions| > 0 {
      var t := Step(questions, s, actions[0]);
      if t.report.None? {
        RunReport(questions, t.state, actions[1..]);
      }
    }
  }
}
