/** How a question row is shown to a test-taker by get_questions. */
module Projection {
  import opened Tables

  /** The served form of question `id`: its text and its options in the order A, B, C, D. */
  function View(id: int, q: Question): (v: QuestionView)
    ensures v.id == id && v.questionText == q.questionText && |v.options| == 4
  {
    QuestionView(id, q.questionText, [q.optionA, q.optionB, q.optionC, q.optionD])
  }

  /** Rebuilds a question from its served form once the withheld correct answer is known. */
  function Unview(v: QuestionView, correctAnswer: string): (q: Question)
    requires |v.options| == 4
    ensures q.correctAnswer == correctAnswer && q.questionText == v.questionText
  {
    Question(v.questionText, v.options[0], v.options[1], v.options[2], v.options[3], correctAnswer)
  }

  /** The served form keeps everything of the question but its correct answer:
      adding that answer back gives the question again. */
  lemma ViewRoundTrip(id: int, q: Question)
    ensures Unview(View(id, q), q.correctAnswer) == q
  {
  }

  /** The served form does not depend on the correct answer, so it cannot reveal it. */
  lemma ViewHidesCorrectAnswer(id: int, q: Question, otherAnswer: string)
    ensures View(id, q) == View(id, q.(correctAnswer := otherAnswer))
  {
  }
}
