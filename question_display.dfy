/** The question display: it picks the board for a question by its `type`
    tag, runs submission for multiple-choice questions, and gates the
    footer buttons (src/app/question/components/QuestionDisplay.jsx). */
module QuestionDisplay {
  import opened Common

  /** A question as the display receives it; `kind` is the optional `type` tag. */
  datatype QuestionItem = QuestionItem(kind: Option<string>, question: string, answers: seq<string>, correct: int)

  /** What the display renders. */
  datatype View = BrainActionsMatchView | DragDropView | ClickAwayView | NotFound | MultipleChoiceView

  const BrainActionsMatchTag := "brainActionsMatch"
  const DragDropTag := "dragDrop"
  const ClickAwayTag := "clickAway"

  /** The chain of `if`s in the component body: the three tags in order,
      then a missing question, then multiple choice. */
  function Dispatch(q: Option<QuestionItem>): (v: View)
    ensures v == BrainActionsMatchView <==> q.Some? && q.value.kind == Some(BrainActionsMatchTag)
    ensures v == DragDropView <==> q.Some? && q.value.kind == Some(DragDropTag)
    ensures v == ClickAwayView <==> q.Some? && q.value.kind == Some(ClickAwayTag)
    ensures v == NotFound <==> q.None?
    ensures v == MultipleChoiceView <==>
              q.Some? && q.value.kind !in {Some(BrainActionsMatchTag), Some(DragDropTag), Some(ClickAwayTag)}
  {
    if q.Some? && q.value.kind == Some(BrainActionsMatchTag) then BrainActionsMatchView
    else if q.Some? && q.value.kind == Some(DragDropTag) then DragDropView
    else if q.Some? && q.value.kind == Some(ClickAwayTag) then ClickAwayView
    else if q.None? then NotFound
    else MultipleChoiceView
  }

  /** Nothing but the tag decides the board of a present question. */
  lemma DispatchByTagOnly(q1: QuestionItem, q2: QuestionItem)
    requires q1.kind == q2.kind
    ensures Dispatch(Some(q1)) == Dispatch(Some(q2))
  {
  }

  /** The boards that report completion through `onComplete`. */
  predicate Interactive(v: View)
  {
    v == BrainActionsMatchView || v == DragDropView || v == ClickAwayView
  }

  /** The button under the board. */
  datatype Footer =
    | Continue(enabled: bool)
    | Submit(enabled: bool)
    | Next(caption: string)
    | NoFooter

  /** The label of the button that follows a submitted answer. */
  function NextLabel(index: int, total: int): (l: string)
    ensures l == "Next Question" <==> index < total - 1
    ensures l == "See Results" <==> index >= total - 1
  {
    if index < total - 1 then "Next Question" else "See Results"
  }

  /** The footer for a view: "Continue" under an interactive board, enabled
      only once the board completed; under multiple choice "Submit Answer"
      (enabled once an answer is selected) until submission, then the next
      button. */
  function FooterOf(v: View, completed: bool, submitted: bool, selected: Option<int>,
                    index: int, total: int): (f: Footer)
    ensures Interactive(v) ==> f == Continue(completed)
    ensures v == NotFound ==> f == NoFooter
    ensures v == MultipleChoiceView && !submitted ==> f == Submit(selected.Some?)
    ensures v == MultipleChoiceView && submitted ==> f.Next? && (f.caption == "Next Question" <==> index < total - 1)
  {
    match v
    case BrainActionsMatchView => Continue(completed)
    case DragDropView => Continue(completed)
    case ClickAwayView => Continue(completed)
    case NotFound => NoFooter
    case MultipleChoiceView => if submitted then Next(NextLabel(index, total)) else Submit(selected.Some?)
  }

  /** An answer button takes clicks only until the answer is submitted. */
  function AnswerButtonEnabled(submitted: bool): (b: bool)
    ensures b <==> !submitted
  {
    !submitted
  }

  /** Within the question list the button after a submitted answer reads
      "See Results" exactly at the last question, and "Next Question" at
      every earlier one. */
  lemma NextCaptionAtLast(completed: bool, selected: Option<int>, index: int, total: int)
    requires 0 <= index < total
    ensures FooterOf(MultipleChoiceView, completed, true, selected, index, total) == Next("See Results") <==>
              index == total - 1
    ensures FooterOf(MultipleChoiceView, completed, true, selected, index, total) == Next("Next Question") <==>
              index < total - 1
  {
  }

  /** The answer buttons take clicks exactly while the footer still offers
      "Submit Answer"; once the next button shows they are disabled. */
  lemma AnswerButtonsWhileSubmitShows(completed: bool, submitted: bool, selected: Option<int>, index: int, total: int)
    ensures AnswerButtonEnabled(submitted) <==>
              FooterOf(MultipleChoiceView, completed, submitted, selected, index, total).Submit?
    ensures !AnswerButtonEnabled(submitted) <==>
              FooterOf(MultipleChoiceView, completed, submitted, selected, index, total).Next?
  {
  }

  /** The component's own hooks plus the completion flag it sets through
      `setCopingSkillsCompleted`. */
  datatype DisplayState = DisplayState(showFeedback: bool, isCorrect: bool, completed: bool)

  /** handleSubmit: the new state, and whether `onSubmitAnswer` is called. */
  function HandleSubmit(st: DisplayState, selected: Option<int>, q: QuestionItem): (r: (DisplayState, bool))
  {
    if selected.None? then (st, false)
    else (st.(showFeedback := true, isCorrect := selected.value == q.correct), true)
  }

  /** With nothing selected a submit changes nothing and calls nobody;
      otherwise the feedback shows whether the selected index is the
      question's correct one, and `onSubmitAnswer` is called once. */
  lemma SubmitMeaning(st: DisplayState, selected: Option<int>, q: QuestionItem)
    ensures selected.None? ==> HandleSubmit(st, selected, q) == (st, false)
    ensures selected.Some? ==> HandleSubmit(st, selected, q).1
    ensures selected.Some? ==> HandleSubmit(st, selected, q).0.showFeedback
    ensures selected.Some? ==> (HandleSubmit(st, selected, q).0.isCorrect <==> selected.value == q.correct)
    ensures HandleSubmit(st, selected, q).0.completed == st.completed
  {
  }

  /** handleComplete. */
  function HandleComplete(st: DisplayState): (r: DisplayState)
  {
    st.(completed := true)
  }

  /** Completion only raises the flag: a repeated call changes nothing more,
      and afterwards "Continue" is enabled under every interactive board. */
  lemma CompleteIdempotent(st: DisplayState, v: View, submitted: bool, selected: Option<int>, index: int, total: int)
    ensures HandleComplete(HandleComplete(st)) == HandleComplete(st)
    ensures HandleComplete(st).showFeedback == st.showFeedback && HandleComplete(st).isCorrect == st.isCorrect
    ensures Interactive(v) ==> FooterOf(v, HandleComplete(st).completed, submitted, selected, index, total) == Continue(true)
  {
  }

  /** Under an interactive board "Continue" is enabled exactly when the flag is set. */
  lemma ContinueGated(v: View, completed: bool, submitted: bool, selected: Option<int>, index: int, total: int)
    requires Interactive(v)
    ensures FooterOf(v, completed, submitted, selected, index, total).Continue?
    ensures FooterOf(v, completed, submitted, selected, index, total).enabled <==> completed
  {
  }

  /** The feedback line under a multiple-choice question. */
  function Feedback(st: DisplayState, submitted: bool): (m: Option<string>)
    ensures m.Some? <==> st.showFeedback && submitted
    ensures m == Some("Great job! Moving on to the next question!") <==> st.showFeedback && submitted && st.isCorrect
  {
    if st.showFeedback && submitted then
      Some(if st.isCorrect then "Great job! Moving on to the next question!" else "Not quite right. Try again!")
    else None
  }

  /** After a submit of the selected answer the feedback praises exactly a
      correct answer. */
  lemma SubmitThenFeedback(st: DisplayState, i: int, q: QuestionItem)
    ensures Feedback(HandleSubmit(st, Some(i), q).0, true) ==
              Some(if i == q.correct then "Great job! Moving on to the next question!" else "Not quite right. Try again!")
  {
  }

  /** The component with its hooks; the question, the selection and the
      submitted flag are the parent's props and are passed to each handler. */
  class Display {
    var showFeedback: bool
    var isCorrect: bool
    var copingSkillsCompleted: bool

    function State(): DisplayState
      reads this
    {
      DisplayState(showFeedback, isCorrect, copingSkillsCompleted)
    }

    constructor (completed: bool)
      ensures State() == DisplayState(false, false, completed)
    {
      showFeedback := false;
      isCorrect := false;
      copingSkillsCompleted := completed;
    }

    /** The "Submit Answer" handler; returns whether `onSubmitAnswer` is called. */
    method Submit(selected: Option<int>, q: QuestionItem) returns (submitted: bool)
      modifies this
      ensures (State(), submitted) == HandleSubmit(old(State()), selected, q)
    {
      submitted := false;
      if selected.None? {
        return;
      }
      showFeedback := true;
      isCorrect := selected.value == q.correct;
      submitted := true;
    }

    /** The `onComplete` callback handed to every interactive board. */
    method Complete()
      modifies this
      ensures State() == HandleComplete(old(State()))
    {
      copingSkillsCompleted := true;
    }
  }
}
