/** The click-to-dismiss board: every answer is clicked away once, and the
    board completes when as many distinct answers were clicked as there are
    answers (src/app/question/components/ClickAwayQuestion.jsx). */
module ClickAwayQuestion {
  import opened Common

  /** The two state hooks a click touches. */
  datatype ClickState = ClickState(clicked: set<string>, complete: bool)

  const Initial := ClickState({}, false)

  /** handleAnswerClick on the displayed `answers`: the new state, and whether
      `onComplete` is scheduled. */
  function Click(answers: seq<string>, st: ClickState, a: string): (r: (ClickState, bool))
    ensures a in st.clicked ==> r == (st, false)
    ensures a !in st.clicked ==> r.0.clicked == st.clicked + {a} && |r.0.clicked| == |st.clicked| + 1
    ensures a !in st.clicked ==> (r.1 <==> |r.0.clicked| == |answers|)
    ensures r.0.complete == (st.complete || r.1)
    ensures st.clicked <= r.0.clicked
  {
    if a in st.clicked then (st, false)
    else
      var clicked := st.clicked + {a};
      var fired := |clicked| == |answers|;
      (ClickState(clicked, st.complete || fired), fired)
  }

  /** A sequence of clicks within one mount: the final state and how often
      `onComplete` was scheduled. */
  function Run(answers: seq<string>, st: ClickState, clicks: seq<string>): (ClickState, nat)
    decreases |clicks|
  {
    if clicks == [] then (st, 0)
    else
      var (st1, fired) := Click(answers, st, clicks[0]);
      var (st2, n) := Run(answers, st1, clicks[1..]);
      (st2, n + if fired then 1 else 0)
  }

  /** The clicked set never shrinks and the completion flag is never reset. */
  lemma {:induction false} RunMonotone(answers: seq<string>, st: ClickState, clicks: seq<string>)
    ensures st.clicked <= Run(answers, st, clicks).0.clicked
    ensures st.complete ==> Run(answers, st, clicks).0.complete
    decreases |clicks|
  {
    if clicks != [] {
      RunMonotone(answers, Click(answers, st, clicks[0]).0, clicks[1..]);
    }
  }

  /** After the clicks, exactly the clicked answers are in the set. */
  lemma {:induction false} RunClicked(answers: seq<string>, st: ClickState, clicks: seq<string>)
    ensures Run(answers, st, clicks).0.clicked == st.clicked + Elems(clicks)
    decreases |clicks|
  {
    if clicks != [] {
      RunClicked(answers, Click(answers, st, clicks[0]).0, clicks[1..]);
      assert Elems(clicks) == {clicks[0]} + Elems(clicks[1..]) by {
        assert clicks == [clicks[0]] + clicks[1..];
      }
    }
  }

  /** The state a mount can reach by clicking displayed answers: only
      displayed answers are clicked, and the board is complete exactly when
      the (non-empty) clicked set has reached the answer count. */
  predicate Consistent(answers: seq<string>, st: ClickState)
  {
    st.clicked <= Elems(answers) &&
    (st.complete <==> st.clicked != {} && |st.clicked| == |answers|)
  }

  lemma InitialConsistent(answers: seq<string>)
    ensures Consistent(answers, Initial)
  {
  }

  /** Once every distinct answer is clicked, every further click on a
      displayed answer hits the guard. */
  lemma FullSetIsEveryAnswer(answers: seq<string>, st: ClickState)
    requires st.clicked <= Elems(answers) && |st.clicked| == |answers|
    ensures st.clicked == Elems(answers)
  {
    ElemsCard(answers);
    SubsetCardEq(st.clicked, Elems(answers));
  }

  /** A click on a displayed answer keeps the state consistent; it schedules
      `onComplete` exactly when it completes a board that was not complete. */
  lemma ClickKeepsConsistent(answers: seq<string>, st: ClickState, a: string)
    requires Consistent(answers, st) && a in answers
    ensures Consistent(answers, Click(answers, st, a).0)
    ensures Click(answers, st, a).1 <==> !st.complete && Click(answers, st, a).0.complete
  {
    if st.complete {
      FullSetIsEveryAnswer(answers, st);
    }
  }

  /** Over any run of clicks on displayed answers, `onComplete` is scheduled
      once if the run completed the board and never otherwise: at most once
      per mount. */
  lemma {:induction false} RunFiresOnce(answers: seq<string>, st: ClickState, clicks: seq<string>)
    requires Consistent(answers, st)
    requires forall i :: 0 <= i < |clicks| ==> clicks[i] in answers
    ensures Consistent(answers, Run(answers, st, clicks).0)
    ensures Run(answers, st, clicks).1 == if !st.complete && Run(answers, st, clicks).0.complete then 1 else 0
    ensures Run(answers, st, clicks).1 <= 1
    decreases |clicks|
  {
    if clicks != [] {
      var st1 := Click(answers, st, clicks[0]).0;
      ClickKeepsConsistent(answers, st, clicks[0]);
      RunFiresOnce(answers, st1, clicks[1..]);
      RunMonotone(answers, st1, clicks[1..]);
    }
  }

  /** Clicking every answer of a duplicate-free, non-empty list completes the
      board and schedules `onComplete` exactly once. */
  lemma ClickingEveryAnswerCompletes(answers: seq<string>, clicks: seq<string>)
    requires NoDup(answers) && answers != []
    requires forall i :: 0 <= i < |clicks| ==> clicks[i] in answers
    requires forall i :: 0 <= i < |answers| ==> answers[i] in clicks
    ensures Run(answers, Initial, clicks).0.complete
    ensures Run(answers, Initial, clicks).1 == 1
  {
    RunFiresOnce(answers, Initial, clicks);
    RunClicked(answers, Initial, clicks);
    var fin := Run(answers, Initial, clicks).0;
    assert fin.clicked == Elems(clicks);
    assert Elems(clicks) == Elems(answers);
    ElemsCard(answers);
    assert answers[0] in fin.clicked;
  }

  /** With a repeated answer the set can never reach the answer count, so the
      board never completes (the repeated text is one key, one click). */
  lemma DuplicateAnswersNeverComplete(answers: seq<string>, clicks: seq<string>)
    requires !NoDup(answers)
    requires forall i :: 0 <= i < |clicks| ==> clicks[i] in answers
    ensures !Run(answers, Initial, clicks).0.complete
    ensures Run(answers, Initial, clicks).1 == 0
  {
    RunFiresOnce(answers, Initial, clicks);
    var fin := Run(answers, Initial, clicks).0;
    ElemsCard(answers);
    SubsetCard(fin.clicked, Elems(answers));
  }

  /** The component: the displayed (shuffled) answers and the click state. */
  class ClickAwayBoard {
    var answers: seq<string>
    var clickedAnswers: set<string>
    var isComplete: bool

    function State(): ClickState
      reads this
    {
      ClickState(clickedAnswers, isComplete)
    }

    /** Mount, with the shuffle effect run. `shuffled` is whatever order the
        random comparator produced; it holds the question's answers. */
    constructor (questionAnswers: seq<string>, shuffled: seq<string>)
      requires multiset(shuffled) == multiset(questionAnswers)
      ensures answers == shuffled && multiset(answers) == multiset(questionAnswers)
      ensures State() == Initial
    {
      answers := shuffled;
      clickedAnswers := {};
      isComplete := false;
    }

    /** The shuffle effect re-run for new answers; the click state stays. */
    method Reshuffle(questionAnswers: seq<string>, shuffled: seq<string>)
      requires multiset(shuffled) == multiset(questionAnswers)
      modifies this
      ensures answers == shuffled && multiset(answers) == multiset(questionAnswers)
      ensures State() == old(State())
    {
      answers := shuffled;
    }

    /** A click on `answer`; returns whether `onComplete` is scheduled. */
    method HandleAnswerClick(answer: string) returns (fired: bool)
      modifies this
      ensures (State(), fired) == Click(answers, old(State()), answer)
      ensures answers == old(answers)
    {
      fired := false;
      if answer in clickedAnswers {
        return;
      }
      var newSet := clickedAnswers + {answer};
      if |newSet| == |answers| {
        isComplete := true;
        fired := true;
      }
      clickedAnswers := newSet;
    }
  }
}
