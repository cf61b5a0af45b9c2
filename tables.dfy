/** Row shapes of the three tables of the exam database (questions, exam_sessions,
    user_responses), the results the handlers hand back, and the failures they raise. */
module Tables {

  datatype Option<+T> = None | Some(value: T)

  /** Why a handler failed: the row it looked up was not there, or an id it had to bind
      as a query parameter does not fit SQLite's signed 64-bit integer. */
  datatype Error = QuestionNotFound | SessionNotFound | IdOutOfRange

  /** Whether `x` can be bound as an SQLite INTEGER parameter (signed 64-bit). */
  predicate IsInt64(x: int)
  {
    -0x8000_0000_0000_0000 <= x < 0x8000_0000_0000_0000
  }

  datatype Result<+T> = Ok(value: T) | Err(error: Error)

  /** A value of `datetime.now()`, supplied by the caller; the model never inspects it. */
  type Timestamp = int

  /** A row of `questions`. The column exam_session_id is never written by the
      application and is not modelled. */
  datatype Question = Question(
    questionText: string,
    optionA: string,
    optionB: string,
    optionC: string,
    optionD: string,
    correctAnswer: string)

  /** A row of `exam_sessions`; end time and score are NULL until the exam is ended. */
  datatype ExamSession = ExamSession(
    correctMarks: real,
    negativeMarks: real,
    startTime: Timestamp,
    endTime: Option<Timestamp>,
    totalScore: Option<real>)

  /** A row of `user_responses`. */
  datatype UserResponse = UserResponse(
    questionId: int,
    examSessionId: int,
    selectedAnswer: string,
    isCorrect: bool)

  /** One item of the question list served to a test-taker: no correct answer. */
  datatype QuestionView = QuestionView(id: int, questionText: string, options: seq<string>)

  /** What ending an exam returns. */
  datatype Report = Report(totalScore: real, correctAnswers: nat, incorrectAnswers: nat)
}
