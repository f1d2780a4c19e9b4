/** The static question bank of src/questions.ts: an immutable, ordered
    catalogue of multiple-choice questions, fixed for the life of the app. */
module Questions {

  /** One multiple-choice question; `correctIndex` indexes `options`. */
  datatype Question = Question(id: nat, text: string, options: seq<string>, correctIndex: nat)

  /** A question the quiz can show and score: its correct option exists. */
  predicate WellFormed(q: Question)
  {
    q.correctIndex < |q.options|
  }

  /** No option text occurs twice (the options are used as rendering keys). */
  predicate DistinctOptions(q: Question)
  {
    forall i, j :: 0 <= i < j < |q.options| ==> q.options[i] != q.options[j]
  }

  /** The five questions, in display order. The second question's text holds
      the three characters U+00E2 U+20AC U+2122 where an apostrophe was meant
      (a doubly encoded right single quote), exactly as the source file does. */
  const Bank: seq<Question> := [
    Question(1, "What sound does a cat make?",
             ["Bhau-Bhau", "Meow-Meow", "Oink-Oink", "Roar"], 1),
    Question(2, "Which animal is known as man\U{00E2}\U{20AC}\U{2122}s best friend?",
             ["Cat", "Dog", "Cow", "Elephant"], 1),
    Question(3, "How many stars are in the sky?",
             ["Two", "Infinite", "One Hundred", "Ten"], 1),
    Question(4, "Which planet do we live on?",
             ["Mars", "Jupiter", "Earth", "Venus"], 2),
    Question(5, "Which of these is a primary color?",
             ["Green", "Purple", "Orange", "Blue"], 3)
  ]

  /** The correct option index of every question, in bank order. */
  function AnswerKey(bank: seq<Question>): (key: seq<nat>)
    ensures |key| == |bank|
    ensures forall i :: 0 <= i < |bank| ==> key[i] == bank[i].correctIndex
  {
    if bank == [] then [] else [bank[0].correctIndex] + AnswerKey(bank[1..])
  }

  /** The bank is non-empty (five questions), so indexing it at any valid
      session position is safe. */
  lemma BankSize()
    ensures |Bank| == 5
  {
  }

  /** Every question's correct index is a valid index into its options, and
      every question offers exactly four options. */
  lemma BankWellFormed()
    ensures forall i :: 0 <= i < |Bank| ==> WellFormed(Bank[i]) && |Bank[i].options| == 4
  {
  }

  /** Identifiers run 1, 2, ..., 5 in bank order: unique and strictly increasing. */
  lemma BankIds()
    ensures forall i :: 0 <= i < |Bank| ==> Bank[i].id == i + 1
    ensures forall i, j :: 0 <= i < j < |Bank| ==> Bank[i].id < Bank[j].id
  {
  }

  /** Within each question no option text is repeated. */
  lemma BankOptionsDistinct()
    ensures forall i :: 0 <= i < |Bank| ==> DistinctOptions(Bank[i])
  {
  }

  /** The answer key of the bank is [1, 1, 1, 2, 3]. */
  lemma BankAnswerKey()
    ensures AnswerKey(Bank) == [1, 1, 1, 2, 3]
  {
  }
}
