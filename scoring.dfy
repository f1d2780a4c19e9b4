/** Score computation of handleSubmit (src/App.tsx:57-62): count the answer
    slots that hold their question's correct index, then turn the count into
    a whole-number percentage rounded to the nearest integer. */
module Scoring {

  import opened Wrappers
  import opened Questions

  /** Slot `i` holds the correct option. An unset slot never does, since
      `null` is never strictly equal to a number. */
  predicate IsCorrect(answers: seq<Option<nat>>, bank: seq<Question>, i: nat)
    requires i < |answers| && i < |bank|
  {
    answers[i] == Some(bank[i].correctIndex)
  }

  /** The indices below `n` whose answer is correct: the reference definition
      of "the number of correct answers". */
  function CorrectSet(answers: seq<Option<nat>>, bank: seq<Question>, n: nat): set<nat>
    requires n <= |answers| && n <= |bank|
  {
    set i: nat | i < n && IsCorrect(answers, bank, i)
  }

  /** The number of correct answers among the first `n` slots, counted one
      slot at a time as the source's loop does. */
  function CorrectCount(answers: seq<Option<nat>>, bank: seq<Question>, n: nat): (r: nat)
    requires n <= |answers| && n <= |bank|
    ensures r <= n
    ensures r == n <==> forall i :: 0 <= i < n ==> IsCorrect(answers, bank, i)
  {
    if n == 0 then 0
    else CorrectCount(answers, bank, n - 1) + (if IsCorrect(answers, bank, n - 1) then 1 else 0)
  }

  /** The number of correct answers over the whole answer array. */
  function Correct(answers: seq<Option<nat>>, bank: seq<Question>): nat
    requires |answers| == |bank|
  {
    CorrectCount(answers, bank, |answers|)
  }

  /** The slot-by-slot count equals the size of the set of correct indices. */
  lemma {:induction false} CorrectCountIsCardinality(answers: seq<Option<nat>>, bank: seq<Question>, n: nat)
    requires n <= |answers| && n <= |bank|
    ensures CorrectCount(answers, bank, n) == |CorrectSet(answers, bank, n)|
  {
    if n == 0 {
      assert CorrectSet(answers, bank, 0) == {};
    } else {
      CorrectCountIsCardinality(answers, bank, n - 1);
      var prev := CorrectSet(answers, bank, n - 1);
      if IsCorrect(answers, bank, n - 1) {
        assert CorrectSet(answers, bank, n) == prev + {n - 1};
        assert n - 1 !in prev;
      } else {
        assert CorrectSet(answers, bank, n) == prev;
      }
    }
  }

  /** The counting loop of handleSubmit: walks the answer array once and
      increments the count for every slot equal to its question's correct index. */
  method TallyCorrect(answers: seq<Option<nat>>, bank: seq<Question>) returns (correctCount: nat)
    requires |answers| == |bank|
    ensures correctCount == Correct(answers, bank)
    ensures correctCount == |CorrectSet(answers, bank, |answers|)|
  {
    correctCount := 0;
    var i := 0;
    while i < |answers|
      invariant 0 <= i <= |answers|
      invariant correctCount == CorrectCount(answers, bank, i)
    {
      if answers[i] == Some(bank[i].correctIndex) {
        correctCount := correctCount + 1;
      }
      i := i + 1;
    }
    CorrectCountIsCardinality(answers, bank, |answers|);
  }

  /** `Math.round(correct / total * 100)` in exact integer arithmetic: the
      integer nearest to 100 * correct / total, a half rounded upwards. */
  function Percent(correct: nat, total: nat): (p: nat)
    requires 0 < total
    ensures total * (2 * p - 1) <= 200 * correct < total * (2 * p + 1)
    ensures correct <= total ==> p <= 100
  {
    var p := (200 * correct + total) / (2 * total);
    DivBounds(200 * correct + total, 2 * total);
    MulLessCancel(2 * total, p, 101);
    p
  }

  /** The quotient and remainder of natural division, stated as bounds. */
  lemma DivBounds(x: nat, m: nat)
    requires 0 < m
    ensures m * (x / m) <= x < m * (x / m) + m
  {
  }

  /** Multiplying by a non-negative factor keeps the order. */
  lemma MulMonotone(m: nat, a: int, b: int)
    requires a <= b
    ensures m * a <= m * b
  {
    assert m * b - m * a == m * (b - a);
  }

  /** A strict inequality between multiples of a positive factor holds
      between the factors themselves. */
  lemma MulLessCancel(m: nat, a: int, b: int)
    requires 0 < m
    ensures m * a < m * b ==> a < b
  {
    if b <= a {
      MulMonotone(m, b, a);
    }
  }

  /** The rounding contract determines the percentage uniquely: no other
      integer is within one half of 100 * correct / total. */
  lemma PercentUnique(correct: nat, total: nat, q: int)
    requires 0 < total
    ensures total * (2 * q - 1) <= 200 * correct < total * (2 * q + 1) ==> q == Percent(correct, total)
  {
    var p: int := Percent(correct, total);
    MulLessCancel(total, 2 * q - 1, 2 * p + 1);
    MulLessCancel(total, 2 * p - 1, 2 * q + 1);
  }

  /** More correct answers never give a lower percentage. */
  lemma PercentMonotone(c1: nat, c2: nat, total: nat)
    requires 0 < total && c1 <= c2
    ensures Percent(c1, total) <= Percent(c2, total)
  {
    var p1: int, p2: int := Percent(c1, total), Percent(c2, total);
    MulLessCancel(total, 2 * p1 - 1, 2 * p2 + 1);
  }

  /** All correct scores 100 and none correct scores 0. */
  lemma PercentExtremes(total: nat)
    requires 0 < total
    ensures Percent(total, total) == 100
    ensures Percent(0, total) == 0
  {
    PercentUnique(total, total, 100);
    PercentUnique(0, total, 0);
  }
}
