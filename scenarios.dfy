/** Concrete runs of the quiz over the five-question bank, driven through the
    session's handlers as a user clicking the page would drive them. */
module Scenarios {

  import opened Wrappers
  import opened Questions
  import opened Scoring
  import opened Session

  /** Scores of three complete answer arrays: the answer key scores 100, all
      first options score 0, and four of five correct scores 80. */
  lemma AnswerArrayScores()
    ensures Percent(Correct([Some(1), Some(1), Some(1), Some(2), Some(3)], Bank), 5) == 100
    ensures Percent(Correct([Some(0), Some(0), Some(0), Some(0), Some(0)], Bank), 5) == 0
    ensures Percent(Correct([Some(1), Some(1), Some(1), Some(2), Some(0)], Bank), 5) == 80
  {
    var key := [Some(1), Some(1), Some(1), Some(2), Some(3)];
    assert CorrectCount(key, Bank, 5) == 5;
    PercentExtremes(5);
    var none := [Some(0), Some(0), Some(0), Some(0), Some(0)];
    assert CorrectCount(none, Bank, 5) == 0;
    var four := [Some(1), Some(1), Some(1), Some(2), Some(0)];
    assert CorrectCount(four, Bank, 4) == 4;
    assert CorrectCount(four, Bank, 5) == 4;
    PercentUnique(4, 5, 80);
  }

  /** Rounding of fractions that are not whole percentages: one in eight
      (12.5) rounds up to 13, one in three to 33 and two in three to 67. */
  lemma RoundingExamples()
    ensures Percent(1, 8) == 13
    ensures Percent(1, 3) == 33
    ensures Percent(2, 3) == 67
  {
    PercentUnique(1, 8, 13);
    PercentUnique(1, 3, 33);
    PercentUnique(2, 3, 67);
  }

  /** The answer array that records `choices[i]` for every question `i`. */
  function Chosen(choices: seq<nat>): (answers: seq<Option<nat>>)
    ensures |answers| == |choices| && Complete(answers)
    ensures forall i :: 0 <= i < |choices| ==> answers[i] == Some(choices[i])
  {
    seq(|choices|, i requires 0 <= i < |choices| => Some(choices[i]))
  }

  /** From the first question, already answered with `choices[0]`: press next
      and choose `choices[i]` on every further question, then submit. */
  method FinishQuiz(session: QuizSession, choices: seq<nat>) returns (score: nat)
    requires session.Valid() && session.view == Quiz && session.currentIndex == 0
    requires |choices| == TotalQuestions && session.answers[0] == Some(choices[0])
    requires forall i :: 0 <= i < |choices| ==> choices[i] < |Bank[i].options|
    modifies session
    ensures session.Valid() && session.view == Score
    ensures session.answers == Chosen(choices)
    ensures score == session.scorePercent == Percent(Correct(Chosen(choices), Bank), TotalQuestions)
  {
    var i := 1;
    while i < |choices|
      invariant 1 <= i <= |choices|
      invariant session.Valid() && session.view == Quiz
      invariant session.currentIndex == i - 1
      invariant forall j :: 0 <= j < i ==> session.answers[j] == Some(choices[j])
    {
      session.HandleNext();
      session.HandleSelectOption(choices[i]);
      i := i + 1;
    }
    session.HandleSubmit();
    assert session.answers == Chosen(choices);
    score := session.scorePercent;
  }

  /** Answer every question with the given option, pressing next after each
      but the last, then submit; returns the score shown. */
  method AnswerAllAndSubmit(choices: seq<nat>) returns (score: nat)
    requires |choices| == TotalQuestions
    requires forall i :: 0 <= i < |choices| ==> choices[i] < |Bank[i].options|
    ensures score == Percent(Correct(Chosen(choices), Bank), TotalQuestions)
    ensures score <= 100
  {
    var session := new QuizSession();
    session.HandleSelectOption(choices[0]);
    score := FinishQuiz(session, choices);
  }

  /** Answering with the answer key in order scores 100. */
  method AnswerKeyScoresFull() returns (score: nat)
    ensures score == 100
  {
    score := AnswerAllAndSubmit([1, 1, 1, 2, 3]);
    ghost var answered := Chosen([1, 1, 1, 2, 3]);
    assert answered == [Some(1), Some(1), Some(1), Some(2), Some(3)];
    assert score == Percent(Correct(answered, Bank), TotalQuestions);
    AnswerArrayScores();
  }

  /** Choosing the first option everywhere scores 0. */
  method FirstOptionsScoreZero() returns (score: nat)
    ensures score == 0
  {
    score := AnswerAllAndSubmit([0, 0, 0, 0, 0]);
    ghost var answered := Chosen([0, 0, 0, 0, 0]);
    assert answered == [Some(0), Some(0), Some(0), Some(0), Some(0)];
    assert score == Percent(Correct(answered, Bank), TotalQuestions);
    AnswerArrayScores();
  }

  /** The answer key with the last answer wrong scores 80. */
  method FourOfFiveScoresEighty() returns (score: nat)
    ensures score == 80
  {
    score := AnswerAllAndSubmit([1, 1, 1, 2, 0]);
    ghost var answered := Chosen([1, 1, 1, 2, 0]);
    assert answered == [Some(1), Some(1), Some(1), Some(2), Some(0)];
    assert score == Percent(Correct(answered, Bank), TotalQuestions);
    AnswerArrayScores();
  }

  /** Pressing next on the first question before choosing an option leaves
      the first question on screen. */
  method AdvanceWithoutAnswer() returns (index: nat)
    ensures index == 0
  {
    var session := new QuizSession();
    session.HandleNext();
    index := session.currentIndex;
  }

  /** Answer the first question with option 0, go forward, come back and
      choose option 1 instead: the slot now holds 1 and nothing else is set. */
  method ReviseFirstAnswer() returns (session: QuizSession)
    ensures fresh(session) && session.Valid()
    ensures session.State() == SessionState(0, [Some(1), None, None, None, None], Quiz, 0)
  {
    session := new QuizSession();
    assert |CurrentQuestion(session.State()).options| == 4;
    session.HandleSelectOption(0);
    assert session.State() == SessionState(0, [Some(0), None, None, None, None], Quiz, 0);
    session.HandleNext();
    session.HandlePrev();
    assert session.State() == SessionState(0, [Some(0), None, None, None, None], Quiz, 0);
    session.HandleSelectOption(1);
  }

  /** After the revision above, answering the remaining questions from the
      answer key and submitting scores 100: the revised answer is the one
      that is scored. */
  method ChangeAnswerAfterGoingBack() returns (first: Option<nat>, score: nat)
    ensures first == Some(1) && score == 100
  {
    var session := ReviseFirstAnswer();
    first := session.answers[0];
    score := FinishQuiz(session, [1, 1, 1, 2, 3]);
    assert Chosen([1, 1, 1, 2, 3]) == [Some(1), Some(1), Some(1), Some(2), Some(3)];
    AnswerArrayScores();
  }
}
