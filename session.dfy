/** The quiz session of src/App.tsx: which question is shown, the answer
    chosen for every question, whether the quiz or the score is shown, and
    the last computed score. The pure functions below give the effect of
    each handler on a session value; the class QuizSession at the end holds
    the same four fields as mutable state and its methods are proved to
    have exactly those effects. */
module Session {

  import opened Wrappers
  import opened Questions
  import opened Scoring

  /** The number of questions in the bank. */
  const TotalQuestions: nat := |Bank|

  /** Which screen is rendered: the question card or the final score. */
  datatype View = Quiz | Score

  /** The four pieces of session state. */
  datatype SessionState = SessionState(currentIndex: nat, answers: seq<Option<nat>>, view: View, scorePercent: nat)
  {
    /** The question on screen has an answer. */
    predicate HasAnswerForCurrent()
      requires currentIndex < |answers|
    {
      answers[currentIndex].Some?
    }

    /** The question on screen is the last one. */
    predicate IsLastQuestion()
    {
      currentIndex == TotalQuestions - 1
    }
  }

  /** The index is in range and there is one answer slot per question. */
  predicate Shaped(s: SessionState)
  {
    |s.answers| == TotalQuestions && s.currentIndex < TotalQuestions
  }

  /** Every question has an answer. */
  predicate Complete(answers: seq<Option<nat>>)
  {
    forall i :: 0 <= i < |answers| ==> answers[i].Some?
  }

  /** What holds of every session the user can reach:
      - the index is in range and there is one slot per question;
      - reachability: every question before the current one is answered;
      - every recorded answer is an option of its question;
      - the score is 0 during the quiz; on the score screen every question is
        answered and the score is the rounded percentage of correct answers. */
  predicate Inv(s: SessionState)
  {
    && Shaped(s)
    && (forall i :: 0 <= i < s.currentIndex ==> s.answers[i].Some?)
    && (forall i :: 0 <= i < |s.answers| && s.answers[i].Some? ==> s.answers[i].value < |Bank[i].options|)
    && (s.view == Quiz ==> s.scorePercent == 0)
    && (s.view == Score ==> Complete(s.answers) && s.scorePercent == Percent(Correct(s.answers, Bank), TotalQuestions))
  }

  /** The session when the app starts and after a restart: first question,
      no answers, quiz screen, score 0. */
  function Initial(): (s: SessionState)
    ensures Inv(s)
  {
    SessionState(0, seq(TotalQuestions, _ => None), Quiz, 0)
  }

  /** The question on screen: plain indexing of the bank, always in range
      and always a question whose correct option exists. */
  function CurrentQuestion(s: SessionState): (q: Question)
    requires Shaped(s)
    ensures q in Bank && WellFormed(q)
  {
    BankWellFormed();
    Bank[s.currentIndex]
  }

  /** handleSelectOption: record `optionIndex` for the question on screen. */
  function SelectOption(s: SessionState, optionIndex: nat): SessionState
    requires Shaped(s)
  {
    s.(answers := s.answers[s.currentIndex := Some(optionIndex)])
  }

  /** handleNext: move to the next question, but only when the current one is
      answered and is not the last. */
  function Advance(s: SessionState): SessionState
    requires Shaped(s)
  {
    if !s.HasAnswerForCurrent() then s
    else if s.currentIndex < TotalQuestions - 1 then s.(currentIndex := s.currentIndex + 1)
    else s
  }

  /** handlePrev: move to the previous question, unless on the first. */
  function Retreat(s: SessionState): SessionState
  {
    if s.currentIndex > 0 then s.(currentIndex := s.currentIndex - 1) else s
  }

  /** handleSubmit: when the current question is answered, score the answers
      and show the score screen. The handler itself does not look at which
      question is on screen. */
  function Submit(s: SessionState): SessionState
    requires Shaped(s)
  {
    if !s.HasAnswerForCurrent() then s
    else s.(scorePercent := Percent(Correct(s.answers, Bank), TotalQuestions), view := Score)
  }

  /** Selecting writes exactly the slot of the question on screen; the other
      slots, the index, the view and the score stay as they were. */
  lemma SelectOptionFrame(s: SessionState, optionIndex: nat)
    requires Shaped(s)
    ensures var r := SelectOption(s, optionIndex);
            && |r.answers| == |s.answers|
            && r.answers[s.currentIndex] == Some(optionIndex)
            && (forall j :: 0 <= j < |s.answers| && j != s.currentIndex ==> r.answers[j] == s.answers[j])
            && r.currentIndex == s.currentIndex && r.view == s.view && r.scorePercent == s.scorePercent
  {
  }

  /** Selecting the same option twice is the same as selecting it once, and
      a later selection overwrites an earlier one. */
  lemma SelectOptionIdempotent(s: SessionState, k1: nat, k2: nat)
    requires Shaped(s)
    ensures SelectOption(SelectOption(s, k1), k1) == SelectOption(s, k1)
    ensures SelectOption(SelectOption(s, k1), k2) == SelectOption(s, k2)
  {
  }

  /** Selecting one of the options on the quiz screen keeps the invariant. */
  lemma SelectOptionKeepsInv(s: SessionState, optionIndex: nat)
    requires Inv(s) && s.view == Quiz && optionIndex < |CurrentQuestion(s).options|
    ensures Inv(SelectOption(s, optionIndex))
  {
  }

  /** Advancing is a no-op exactly when the current question is unanswered or
      the last; otherwise it moves forward by one and touches nothing else. */
  lemma AdvanceSpec(s: SessionState)
    requires Shaped(s)
    ensures Advance(s) == s <==> !s.HasAnswerForCurrent() || s.IsLastQuestion()
    ensures s.HasAnswerForCurrent() && !s.IsLastQuestion() ==>
              Advance(s) == s.(currentIndex := s.currentIndex + 1)
  {
  }

  /** Advancing keeps the invariant; in particular the question left behind
      is answered, which is how the answered prefix grows. */
  lemma AdvanceKeepsInv(s: SessionState)
    requires Inv(s)
    ensures Inv(Advance(s))
  {
  }

  /** Going back is a no-op exactly on the first question; otherwise it moves
      back by one and never reads or clears an answer. */
  lemma RetreatSpec(s: SessionState)
    ensures Retreat(s) == s <==> s.currentIndex == 0
    ensures s.currentIndex > 0 ==> Retreat(s) == s.(currentIndex := s.currentIndex - 1)
  {
  }

  /** Going back keeps the invariant. */
  lemma RetreatKeepsInv(s: SessionState)
    requires Inv(s)
    ensures Inv(Retreat(s))
  {
  }

  /** Submitting changes nothing while the current question is unanswered;
      otherwise it shows the score screen with the rounded percentage of
      questions whose answer is the correct index, a value in [0, 100], and
      leaves the index and the answers alone. */
  lemma SubmitSpec(s: SessionState)
    requires Shaped(s)
    ensures !s.HasAnswerForCurrent() ==> Submit(s) == s
    ensures s.HasAnswerForCurrent() ==>
              var r := Submit(s);
              && r.view == Score
              && r.currentIndex == s.currentIndex && r.answers == s.answers
              && r.scorePercent <= 100
              && TotalQuestions * (2 * r.scorePercent - 1)
                   <= 200 * |CorrectSet(s.answers, Bank, TotalQuestions)|
                   < TotalQuestions * (2 * r.scorePercent + 1)
  {
    if s.HasAnswerForCurrent() {
      CorrectCountIsCardinality(s.answers, Bank, TotalQuestions);
    }
  }

  /** On the last question, once it is answered, every question is answered:
      a submission from there never meets an unset slot. */
  lemma {:induction false} LastAnsweredIsComplete(s: SessionState)
    requires Inv(s) && s.IsLastQuestion() && s.HasAnswerForCurrent()
    ensures Complete(s.answers)
  {
    forall i | 0 <= i < |s.answers|
      ensures s.answers[i].Some?
    {
      if i < s.currentIndex {
      } else {
        assert i == s.currentIndex;
      }
    }
  }

  /** Submitting from the last question of the quiz screen keeps the
      invariant: the score screen shows a complete set of answers. */
  lemma SubmitKeepsInv(s: SessionState)
    requires Inv(s) && s.view == Quiz && s.IsLastQuestion()
    ensures Inv(Submit(s))
  {
    if s.HasAnswerForCurrent() {
      LastAnsweredIsComplete(s);
    }
  }

  /** What a user can do on the rendered page. */
  datatype Action = ChooseOption(optionIndex: nat) | PressNext | PressPrev | PressSubmit | PressRestart

  /** The effect of one user action. The score screen renders only the
      restart button; the quiz screen renders one button per option of the
      current question, the back button, and either the next button or, on
      the last question, the submit button. An action with no button on
      screen does nothing. */
  function Apply(s: SessionState, a: Action): (r: SessionState)
    requires Inv(s)
    ensures Inv(r)
  {
    match a
    case PressRestart => Initial()
    case ChooseOption(k) =>
      if s.view == Quiz && k < |CurrentQuestion(s).options|
      then SelectOptionKeepsInv(s, k); SelectOption(s, k)
      else s
    case PressNext =>
      if s.view == Quiz && !s.IsLastQuestion() then AdvanceKeepsInv(s); Advance(s) else s
    case PressPrev =>
      if s.view == Quiz then RetreatKeepsInv(s); Retreat(s) else s
    case PressSubmit =>
      if s.view == Quiz && s.IsLastQuestion() then SubmitKeepsInv(s); Submit(s) else s
  }

  /** The session after a sequence of user actions. */
  function Run(s: SessionState, actions: seq<Action>): (r: SessionState)
    requires Inv(s)
    ensures Inv(r)
    decreases |actions|
  {
    if actions == [] then s else Run(Apply(s, actions[0]), actions[1..])
  }

  /** Running two sequences of actions is running the first, then the second. */
  lemma {:induction false} RunAppend(s: SessionState, first: seq<Action>, second: seq<Action>)
    requires Inv(s)
    ensures Run(s, first + second) == Run(Run(s, first), second)
    decreases |first|
  {
    if first == [] {
      assert first + second == second;
    } else {
      var s' := Apply(s, first[0]);
      assert (first + second)[0] == first[0];
      assert (first + second)[1..] == first[1..] + second;
      calc {
        Run(s, first + second);
        Run(s', first[1..] + second);
        { RunAppend(s', first[1..], second); }
        Run(Run(s', first[1..]), second);
        Run(Run(s, first), second);
      }
    }
  }

  /** Every session reachable from the start satisfies the invariant; on the
      score screen every question is answered and the score is in [0, 100]. */
  lemma ReachableSessions(actions: seq<Action>)
    ensures var r := Run(Initial(), actions);
            && Inv(r)
            && (r.view == Score ==> Complete(r.answers) && r.scorePercent <= 100)
  {
  }

  /** Restarting after any sequence of actions gives exactly the initial session. */
  lemma RestartResets(s: SessionState, actions: seq<Action>)
    requires Inv(s)
    ensures Run(s, actions + [PressRestart]) == Initial()
  {
    RunAppend(s, actions, [PressRestart]);
  }

  /** An action is neither going back nor restarting. */
  predicate ForwardAction(a: Action)
  {
    !a.PressPrev? && !a.PressRestart?
  }

  /** Without going back or restarting, the index never decreases. */
  lemma {:induction false} ForwardOnly(s: SessionState, actions: seq<Action>)
    requires Inv(s)
    requires forall i :: 0 <= i < |actions| ==> ForwardAction(actions[i])
    ensures Run(s, actions).currentIndex >= s.currentIndex
    decreases |actions|
  {
    if actions != [] {
      ForwardOnly(Apply(s, actions[0]), actions[1..]);
    }
  }

  /** Until a restart, an answered question stays answered: going back and
      forth never clears a slot. */
  lemma {:induction false} AnswersPersist(s: SessionState, actions: seq<Action>, q: nat)
    requires Inv(s) && q < |s.answers| && s.answers[q].Some?
    requires forall i :: 0 <= i < |actions| ==> !actions[i].PressRestart?
    ensures Run(s, actions).answers[q].Some?
    decreases |actions|
  {
    if actions != [] {
      AnswersPersist(Apply(s, actions[0]), actions[1..], q);
    }
  }

  /** A quiz session as the component holds it: four fields that the event
      handlers update in place. */
  class QuizSession {
    var currentIndex: nat
    var answers: seq<Option<nat>>
    var view: View
    var scorePercent: nat

    /** The current field values as a session value. */
    function State(): SessionState
      reads this
    {
      SessionState(currentIndex, answers, view, scorePercent)
    }

    ghost predicate Valid()
      reads this
    {
      Inv(State())
    }

    /** The state on mount: first question, every answer `null`, quiz screen, score 0. */
    constructor ()
      ensures Valid() && State() == Initial()
    {
      currentIndex := 0;
      answers := seq(TotalQuestions, _ => None);
      view := Quiz;
      scorePercent := 0;
    }

    /** Copy the answers, overwrite the current question's slot, store the copy. */
    method HandleSelectOption(optionIndex: nat)
      requires Valid() && view == Quiz && optionIndex < |CurrentQuestion(State()).options|
      modifies this
      ensures Valid() && State() == SelectOption(old(State()), optionIndex)
    {
      SelectOptionKeepsInv(State(), optionIndex);
      var next := answers;
      next := next[currentIndex := Some(optionIndex)];
      answers := next;
    }

    method HandleNext()
      requires Valid() && view == Quiz
      modifies this
      ensures Valid() && State() == Advance(old(State()))
    {
      AdvanceKeepsInv(State());
      if answers[currentIndex].None? {
        return;
      }
      if currentIndex < TotalQuestions - 1 {
        currentIndex := currentIndex + 1;
      }
    }

    method HandlePrev()
      requires Valid() && view == Quiz
      modifies this
      ensures Valid() && State() == Retreat(old(State()))
    {
      RetreatKeepsInv(State());
      if currentIndex > 0 {
        currentIndex := currentIndex - 1;
      }
    }

    /** Requires the last question because the submit button is rendered
        only there. */
    method HandleSubmit()
      requires Valid() && view == Quiz && State().IsLastQuestion()
      modifies this
      ensures Valid() && State() == Submit(old(State()))
    {
      SubmitKeepsInv(State());
      if answers[currentIndex].None? {
        return;
      }
      var correctCount := TallyCorrect(answers, Bank);
      scorePercent := Percent(correctCount, TotalQuestions);
      view := Score;
    }

    /** Reset every field to its value on mount, from any state. */
    method HandleRestart()
      modifies this
      ensures Valid() && State() == Initial()
    {
      answers := seq(TotalQuestions, _ => None);
      currentIndex := 0;
      scorePercent := 0;
      view := Quiz;
    }
  }
}
