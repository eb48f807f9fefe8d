/** The quiz page: the level-selection card, the multiple-choice card with its
    submit / next button, the two arrow buttons and the results card, driven by
    one session record (src/app/question/page.jsx). */
module QuizPage {
  import opened Common

  datatype Level = MiddleSchool | HighSchool

  /** One entry of a question bank. */
  datatype Question = Question(question: string, answers: seq<string>, correct: int)

  /** What the page shows when the index names no question of the chosen bank. */
  const NoQuestion := Question("No question available", [], -1)

  /** The two banks, loaded from their data files; their content is not modelled. */
  datatype Banks = Banks(middleSchool: seq<Question>, highSchool: seq<Question>)

  /** The page's state hooks. */
  datatype Session = Session(
    questionSet: Option<Level>,
    currentQuestionIndex: nat,
    selectedAnswer: Option<nat>,
    answerSubmitted: bool,
    showResult: bool,
    correctAnswers: nat)

  /** The state on mount, and after "Try Again". */
  const Initial := Session(None, 0, None, false, false, 0)

  /** The question list of the chosen level; empty while no level is chosen. */
  function Questions(b: Banks, level: Option<Level>): seq<Question>
  {
    match level
    case None => []
    case Some(MiddleSchool) => b.middleSchool
    case Some(HighSchool) => b.highSchool
  }

  function SessionQuestions(b: Banks, s: Session): seq<Question>
  {
    Questions(b, s.questionSet)
  }

  /** `questions[i] || default`: an index past the end yields the placeholder,
      whose correct index matches no answer. */
  function CurrentQuestion(qs: seq<Question>, i: nat): (q: Question)
    ensures i < |qs| ==> q == qs[i]
    ensures |qs| <= i ==> q.correct == -1 && q.answers == []
  {
    if i < |qs| then qs[i] else NoQuestion
  }

  function Current(b: Banks, s: Session): Question
  {
    CurrentQuestion(SessionQuestions(b, s), s.currentQuestionIndex)
  }

  /** `selectedAnswer === currentQuestion.correct`. */
  predicate Scores(b: Banks, s: Session)
  {
    s.selectedAnswer.Some? && s.selectedAnswer.value == Current(b, s).correct
  }

  /** With no level chosen nothing can score: the placeholder's correct index is -1. */
  lemma NoLevelNeverScores(b: Banks, s: Session)
    requires s.questionSet == None
    ensures !Scores(b, s)
  {
  }

  // ---------------------------------------------------------------------------
  // The handlers, as transitions of the session record

  /** handleAnswerClick: the selection is overwritten, nothing else changes. */
  function AnswerClick(s: Session, index: nat): (r: Session)
    ensures r.selectedAnswer == Some(index)
    ensures r.(selectedAnswer := s.selectedAnswer) == s
  {
    s.(selectedAnswer := Some(index))
  }

  /** handleSubmitAnswer: marks the answer submitted and raises the score by
      one exactly when the selection is the correct index. There is no guard
      against a second call. */
  function SubmitAnswer(b: Banks, s: Session): (r: Session)
    ensures r.answerSubmitted
    ensures Scores(b, s) <==> r.correctAnswers == s.correctAnswers + 1
    ensures !Scores(b, s) <==> r.correctAnswers == s.correctAnswers
    ensures r.(answerSubmitted := s.answerSubmitted, correctAnswers := s.correctAnswers) == s
  {
    s.(answerSubmitted := true,
       correctAnswers := if Scores(b, s) then s.correctAnswers + 1 else s.correctAnswers)
  }

  /** handleNextQuestion: moves to the next question, clearing the transient
      fields, or shows the results at the last one; the index stays in range
      and the score is kept. */
  function NextQuestion(b: Banks, s: Session): (r: Session)
    ensures s.currentQuestionIndex + 1 < |SessionQuestions(b, s)| ==>
              r.currentQuestionIndex == s.currentQuestionIndex + 1 &&
              r.selectedAnswer == None && !r.answerSubmitted &&
              r.showResult == s.showResult
    ensures |SessionQuestions(b, s)| <= s.currentQuestionIndex + 1 ==>
              r == s.(showResult := true)
    ensures s.currentQuestionIndex < |SessionQuestions(b, s)| ==>
              r.currentQuestionIndex < |SessionQuestions(b, s)|
    ensures r.correctAnswers == s.correctAnswers && r.questionSet == s.questionSet
  {
    if s.currentQuestionIndex + 1 < |SessionQuestions(b, s)| then
      s.(currentQuestionIndex := s.currentQuestionIndex + 1,
         selectedAnswer := None,
         answerSubmitted := false)
    else
      s.(showResult := true)
  }

  /** handlePreviousQuestion: at the first question it only asks to navigate
      home (`exit`); otherwise it steps back one question and clears the
      transient fields, keeping the score (so the earlier question can be
      scored again). */
  function PreviousQuestion(s: Session): (r: (Session, bool))
    ensures r.1 <==> s.currentQuestionIndex == 0
    ensures r.1 ==> r.0 == s
    ensures !r.1 ==>
              r.0.currentQuestionIndex == s.currentQuestionIndex - 1 &&
              r.0.selectedAnswer == None && !r.0.answerSubmitted &&
              r.0.correctAnswers == s.correctAnswers &&
              r.0.questionSet == s.questionSet && r.0.showResult == s.showResult
  {
    if s.currentQuestionIndex == 0 then
      (s, true)
    else
      (s.(currentQuestionIndex := s.currentQuestionIndex - 1,
          selectedAnswer := None,
          answerSubmitted := false), false)
  }

  /** The right arrow's handler: either branch ends where handleNextQuestion
      would, and neither asks whether the answer was submitted. */
  function RightArrow(b: Banks, s: Session): (r: Session)
    ensures r == NextQuestion(b, s)
  {
    if s.currentQuestionIndex + 1 < |SessionQuestions(b, s)| then
      NextQuestion(b, s)
    else
      s.(showResult := true)
  }

  // ---------------------------------------------------------------------------
  // The rendered page: which handler a user action reaches

  /** A user action on the page. */
  datatype UiEvent =
    | LevelButton(level: Level)  // one of the two buttons of the level card
    | AnswerItem(index: nat)     // the index-th answer of the current question
    | MainButton                 // Submit / Next / Show Results
    | LeftArrow
    | RightArrowButton
    | TryAgain                   // the button of the results card

  /** The multiple-choice card is on screen. */
  predicate InQuestionView(s: Session)
  {
    s.questionSet.Some? && !s.showResult
  }

  /** The effect of one user action. An action on an element that is not
      rendered, or that is disabled, changes nothing. The left arrow's
      navigation home leaves the session as it is. */
  function Step(b: Banks, s: Session, e: UiEvent): Session
  {
    match e
    case LevelButton(level) =>
      if s.questionSet == None then s.(questionSet := Some(level)) else s
    case AnswerItem(i) =>
      if InQuestionView(s) && i < |Current(b, s).answers| && !s.answerSubmitted
      then AnswerClick(s, i) else s
    case MainButton =>
      if InQuestionView(s) && s.selectedAnswer != None then
        if s.answerSubmitted then NextQuestion(b, s) else SubmitAnswer(b, s)
      else s
    case LeftArrow => PreviousQuestion(s).0
    case RightArrowButton => RightArrow(b, s)
    case TryAgain =>
      if s.questionSet.Some? && s.showResult then Initial else s
  }

  function Run(b: Banks, s: Session, evs: seq<UiEvent>): Session
    decreases |evs|
  {
    if evs == [] then s else Run(b, Step(b, s, evs[0]), evs[1..])
  }

  /** The caption of the main button of the question card. */
  function MainButtonLabel(b: Banks, s: Session): (l: string)
    ensures !s.answerSubmitted ==> l == "Submit"
    ensures s.answerSubmitted ==>
              (l == "Next" <==> s.currentQuestionIndex + 1 < |SessionQuestions(b, s)|) &&
              (l == "Show Results" <==> s.currentQuestionIndex + 1 >= |SessionQuestions(b, s)|)
  {
    if !s.answerSubmitted then "Submit"
    else if s.currentQuestionIndex + 1 < |SessionQuestions(b, s)| then "Next"
    else "Show Results"
  }

  /** The caption tells what pressing the enabled button does: "Next" moves
      to the following question, "Show Results" opens the results card and
      keeps the index, "Submit" marks the answer submitted. */
  lemma LabelPredictsMainButton(b: Banks, s: Session)
    requires InQuestionView(s) && s.selectedAnswer != None
    ensures MainButtonLabel(b, s) == "Next" ==>
              Step(b, s, MainButton).currentQuestionIndex == s.currentQuestionIndex + 1 &&
              !Step(b, s, MainButton).showResult
    ensures MainButtonLabel(b, s) == "Show Results" ==>
              Step(b, s, MainButton).showResult &&
              Step(b, s, MainButton).currentQuestionIndex == s.currentQuestionIndex
    ensures MainButtonLabel(b, s) == "Submit" ==> Step(b, s, MainButton).answerSubmitted
  {
  }

  // ---------------------------------------------------------------------------
  // Properties of the page

  /** The index names a question of the chosen bank, or is 0. */
  predicate IndexInBounds(b: Banks, s: Session)
  {
    s.currentQuestionIndex == 0 || s.currentQuestionIndex < |SessionQuestions(b, s)|
  }

  lemma StepKeepsIndexInBounds(b: Banks, s: Session, e: UiEvent)
    requires IndexInBounds(b, s)
    ensures IndexInBounds(b, Step(b, s, e))
  {
  }

  /** No sequence of user actions moves the index out of the chosen bank. */
  lemma {:induction false} RunKeepsIndexInBounds(b: Banks, s: Session, evs: seq<UiEvent>)
    requires IndexInBounds(b, s)
    ensures IndexInBounds(b, Run(b, s, evs))
    decreases |evs|
  {
    if evs != [] {
      StepKeepsIndexInBounds(b, s, evs[0]);
      RunKeepsIndexInBounds(b, Step(b, s, evs[0]), evs[1..]);
    }
  }

  /** One action raises the score by at most one, and only "Try Again"
      lowers it. */
  lemma StepScore(b: Banks, s: Session, e: UiEvent)
    ensures Step(b, s, e).correctAnswers <= s.correctAnswers + 1
    ensures !e.TryAgain? ==> s.correctAnswers <= Step(b, s, e).correctAnswers
  {
  }

  /** Between two resets the score never decreases. */
  lemma {:induction false} RunScoreMonotone(b: Banks, s: Session, evs: seq<UiEvent>)
    requires forall k :: 0 <= k < |evs| ==> !evs[k].TryAgain?
    ensures s.correctAnswers <= Run(b, s, evs).correctAnswers
    decreases |evs|
  {
    if evs != [] {
      StepScore(b, s, evs[0]);
      RunScoreMonotone(b, Step(b, s, evs[0]), evs[1..]);
    }
  }

  /** A run of answer clicks on an unsubmitted question keeps only the last
      index clicked; nothing else changes. */
  lemma {:induction false} LastClickWins(b: Banks, s: Session, evs: seq<UiEvent>)
    requires InQuestionView(s) && !s.answerSubmitted
    requires |evs| > 0
    requires forall k :: 0 <= k < |evs| ==>
               evs[k].AnswerItem? && evs[k].index < |Current(b, s).answers|
    ensures Run(b, s, evs) == s.(selectedAnswer := Some(evs[|evs| - 1].index))
    decreases |evs|
  {
    var t := Step(b, s, evs[0]);
    assert t == s.(selectedAnswer := Some(evs[0].index));
    if |evs| > 1 {
      assert Current(b, t) == Current(b, s);
      LastClickWins(b, t, evs[1..]);
      assert t.(selectedAnswer := Some(evs[|evs| - 1].index))
          == s.(selectedAnswer := Some(evs[|evs| - 1].index));
    } else {
      assert Run(b, t, evs[1..]) == t;
    }
  }

  /** Once submitted, clicks on answers are ignored. */
  lemma ClicksIgnoredAfterSubmit(b: Banks, s: Session, i: nat)
    requires s.answerSubmitted
    ensures Step(b, s, AnswerItem(i)) == s
  {
  }

  /** The main button is disabled while nothing is selected; pressing it
      twice scores at most once, because after a submit it calls
      handleNextQuestion instead. */
  lemma MainButtonScoresOnce(b: Banks, s: Session)
    ensures s.selectedAnswer == None ==> Step(b, s, MainButton) == s
    ensures Step(b, Step(b, s, MainButton), MainButton).correctAnswers <= s.correctAnswers + 1
  {
  }

  /** handleSubmitAnswer itself has no guard: called twice on a correct
      selection it scores twice. */
  lemma SubmitTwiceScoresTwice(b: Banks, s: Session)
    requires Scores(b, s)
    ensures SubmitAnswer(b, SubmitAnswer(b, s)).correctAnswers == s.correctAnswers + 2
  {
  }

  /** "Try Again" on the results card restores every field. */
  lemma TryAgainRestoresInitial(b: Banks, s: Session)
    requires s.questionSet.Some? && s.showResult
    ensures Step(b, s, TryAgain) == Initial
  {
  }

  // ---------------------------------------------------------------------------
  // Scenarios

  const ThreeQuestions := [
    Question("q0", ["a", "b", "c"], 1),
    Question("q1", ["a", "b", "c"], 0),
    Question("q2", ["a", "b", "c"], 2)]

  /** Three questions answered correctly in turn end on the results card with
      a score of three out of three. */
  lemma AllCorrectScenario()
    ensures Run(Banks(ThreeQuestions, []), Initial,
                [LevelButton(MiddleSchool),
                 AnswerItem(1), MainButton, MainButton,
                 AnswerItem(0), MainButton, MainButton,
                 AnswerItem(2), MainButton, MainButton])
         == Session(Some(MiddleSchool), 2, Some(2), true, true, 3)
  {
    var b := Banks(ThreeQuestions, []);
    var s1 := Step(b, Initial, LevelButton(MiddleSchool));
    var s2 := Step(b, s1, AnswerItem(1));
    var s3 := Step(b, s2, MainButton);
    var s4 := Step(b, s3, MainButton);
    var s5 := Step(b, s4, AnswerItem(0));
    var s6 := Step(b, s5, MainButton);
    var s7 := Step(b, s6, MainButton);
    var s8 := Step(b, s7, AnswerItem(2));
    var s9 := Step(b, s8, MainButton);
    var s10 := Step(b, s9, MainButton);
    assert s3 == Session(Some(MiddleSchool), 0, Some(1), true, false, 1);
    assert s6 == Session(Some(MiddleSchool), 1, Some(0), true, false, 2);
    assert s10 == Session(Some(MiddleSchool), 2, Some(2), true, true, 3);
    RunUnfold(b, Initial, [LevelButton(MiddleSchool),
                 AnswerItem(1), MainButton, MainButton,
                 AnswerItem(0), MainButton, MainButton,
                 AnswerItem(2), MainButton, MainButton]);
  }

  /** Going back clears the submission, so one question can be scored twice
      and the total can exceed the number of questions. */
  lemma RescoringScenario()
    ensures Run(Banks(ThreeQuestions[..2], []), Initial,
                [LevelButton(MiddleSchool),
                 AnswerItem(1), MainButton, MainButton,
                 LeftArrow,
                 AnswerItem(1), MainButton, MainButton,
                 AnswerItem(0), MainButton, MainButton]).correctAnswers == 3
  {
    var b := Banks(ThreeQuestions[..2], []);
    var evs := [LevelButton(MiddleSchool),
                 AnswerItem(1), MainButton, MainButton,
                 LeftArrow,
                 AnswerItem(1), MainButton, MainButton,
                 AnswerItem(0), MainButton, MainButton];
    var s1 := Step(b, Initial, evs[0]);
    var s2 := Step(b, s1, evs[1]);
    var s3 := Step(b, s2, evs[2]);
    var s4 := Step(b, s3, evs[3]);
    var s5 := Step(b, s4, evs[4]);
    var s6 := Step(b, s5, evs[5]);
    var s7 := Step(b, s6, evs[6]);
    var s8 := Step(b, s7, evs[7]);
    var s9 := Step(b, s8, evs[8]);
    var s10 := Step(b, s9, evs[9]);
    var s11 := Step(b, s10, evs[10]);
    assert s4 == Session(Some(MiddleSchool), 1, None, false, false, 1);
    assert s5 == Session(Some(MiddleSchool), 0, None, false, false, 1);
    assert s8 == Session(Some(MiddleSchool), 1, None, false, false, 2);
    assert s11.correctAnswers == 3;
    RunUnfold(b, Initial, evs);
  }

  /** The right arrow is live on the level card: pressing it there and then
      choosing a level opens the results card with a score of zero. */
  lemma RightArrowBeforeLevelScenario(b: Banks, level: Level)
    ensures Run(b, Initial, [RightArrowButton, LevelButton(level)])
         == Session(Some(level), 0, None, false, true, 0)
  {
    var evs := [RightArrowButton, LevelButton(level)];
    var s1 := Step(b, Initial, RightArrowButton);
    assert s1 == Initial.(showResult := true);
    assert evs[1..] == [LevelButton(level)] && evs[1..][1..] == [];
    var s2 := Step(b, s1, LevelButton(level));
    assert s2 == Session(Some(level), 0, None, false, true, 0);
    assert Run(b, s2, []) == s2;
    assert Run(b, s1, [LevelButton(level)]) == s2;
  }

  /** Run over a non-empty sequence is the step-by-step fold (a helper that
      spells the fold out for the scenarios). */
  lemma {:induction false} RunUnfold(b: Banks, s: Session, evs: seq<UiEvent>)
    ensures Run(b, s, evs) == RunSteps(b, s, evs)
    decreases |evs|
  {
    if evs != [] {
      RunUnfold(b, Step(b, s, evs[0]), evs[1..]);
      RunStepsSnoc(b, s, evs);
    }
  }

  /** The same fold, taken from the last action. */
  function RunSteps(b: Banks, s: Session, evs: seq<UiEvent>): Session
    decreases |evs|
  {
    if evs == [] then s else Step(b, RunSteps(b, s, evs[..|evs| - 1]), evs[|evs| - 1])
  }

  lemma {:induction false} RunStepsSnoc(b: Banks, s: Session, evs: seq<UiEvent>)
    requires evs != []
    ensures RunSteps(b, s, evs) == RunSteps(b, Step(b, s, evs[0]), evs[1..])
    decreases |evs|
  {
    if |evs| > 1 {
      assert evs[1..][..|evs[1..]| - 1] == evs[..|evs| - 1][1..];
      RunStepsSnoc(b, s, evs[..|evs| - 1]);
    } else {
      assert evs[..0] == [];
    }
  }

  // ---------------------------------------------------------------------------
  // The component with its state hooks

  class QuestionPage {
    const banks: Banks
    var questionSet: Option<Level>
    var currentQuestionIndex: nat
    var selectedAnswer: Option<nat>
    var answerSubmitted: bool
    var showResult: bool
    var correctAnswers: nat

    function Snapshot(): Session
      reads this
    {
      Session(questionSet, currentQuestionIndex, selectedAnswer,
              answerSubmitted, showResult, correctAnswers)
    }

    constructor (banks: Banks)
      ensures this.banks == banks && Snapshot() == Initial
    {
      this.banks := banks;
      questionSet := None;
      currentQuestionIndex := 0;
      selectedAnswer := None;
      answerSubmitted := false;
      showResult := false;
      correctAnswers := 0;
    }

    /** The two buttons of the level card. */
    method SelectLevel(level: Level)
      modifies this
      ensures Snapshot() == old(Snapshot()).(questionSet := Some(level))
    {
      questionSet := Some(level);
    }

    method HandleAnswerClick(index: nat)
      modifies this
      ensures Snapshot() == AnswerClick(old(Snapshot()), index)
    {
      selectedAnswer := Some(index);
    }

    method HandleSubmitAnswer()
      modifies this
      ensures Snapshot() == SubmitAnswer(banks, old(Snapshot()))
    {
      var q := CurrentQuestion(Questions(banks, questionSet), currentQuestionIndex);
      answerSubmitted := true;
      if selectedAnswer.Some? && selectedAnswer.value == q.correct {
        correctAnswers := correctAnswers + 1;
      }
    }

    method HandleNextQuestion()
      modifies this
      ensures Snapshot() == NextQuestion(banks, old(Snapshot()))
    {
      if currentQuestionIndex + 1 < |Questions(banks, questionSet)| {
        currentQuestionIndex := currentQuestionIndex + 1;
        selectedAnswer := None;
        answerSubmitted := false;
      } else {
        showResult := true;
      }
    }

    /** Returns whether the page navigates home. */
    method HandlePreviousQuestion() returns (exit: bool)
      modifies this
      ensures (Snapshot(), exit) == PreviousQuestion(old(Snapshot()))
    {
      if currentQuestionIndex == 0 {
        exit := true;
      } else {
        exit := false;
        currentQuestionIndex := currentQuestionIndex - 1;
        selectedAnswer := None;
        answerSubmitted := false;
      }
    }

    method HandleResetQuiz()
      modifies this
      ensures Snapshot() == Initial
    {
      questionSet := None;
      currentQuestionIndex := 0;
      selectedAnswer := None;
      answerSubmitted := false;
      showResult := false;
      correctAnswers := 0;
    }

    method HandleRightArrow()
      modifies this
      ensures Snapshot() == RightArrow(banks, old(Snapshot()))
    {
      if currentQuestionIndex + 1 < |Questions(banks, questionSet)| {
        HandleNextQuestion();
      } else {
        showResult := true;
      }
    }

    /** A user action, routed as the rendered page routes it. */
    method Dispatch(e: UiEvent)
      modifies this
      ensures Snapshot() == Step(banks, old(Snapshot()), e)
    {
      var q := CurrentQuestion(Questions(banks, questionSet), currentQuestionIndex);
      match e
      case LevelButton(level) =>
        if questionSet == None { SelectLevel(level); }
      case AnswerItem(i) =>
        if questionSet.Some? && !showResult && i < |q.answers| && !answerSubmitted {
          HandleAnswerClick(i);
        }
      case MainButton =>
        if questionSet.Some? && !showResult && selectedAnswer != None {
          if answerSubmitted { HandleNextQuestion(); } else { HandleSubmitAnswer(); }
        }
      case LeftArrow =>
        var _ := HandlePreviousQuestion();
      case RightArrowButton =>
        HandleRightArrow();
      case TryAgain =>
        if questionSet.Some? && showResult { HandleResetQuiz(); }
    }
  }
}
