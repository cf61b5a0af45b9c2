/** Calls of the handlers on small databases, each outcome proved from the handlers' contracts alone.
    They pin down how the engine behaves where a stricter design would differ. */
module Scenarios {
  import opened Tables
  import opened Scoring
  import opened Engine

  /** A bank of three questions whose correct answers are "A", "B" and "C". */
  function Bank(): map<int, Question>
  {
    map[1 := Question("Q1", "a", "b", "c", "d", "A"),
        2 := Question("Q2", "a", "b", "c", "d", "B"),
        3 := Question("Q3", "a", "b", "c", "d", "C")]
  }

  /** Marks 2 and 0.5, two right answers and one wrong: 2*2 - 1*0.5. */
  method TwoRightOneWrong(now: Timestamp) returns (r: Result<Report>)
    ensures r == Ok(Report(3.5, 2, 1))
  {
    var db := new ExamDb(Bank());
    var sid := db.CreateExamSession(2.0, 0.5, now);
    assert sid == 1 && IsInt64(sid);
    var _ := db.SubmitAnswer(1, sid, "A");
    var _ := db.SubmitAnswer(2, sid, "B");
    var _ := db.SubmitAnswer(3, sid, "A");
    ghost var log := db.responses;
    assert log == [UserResponse(1, sid, "A", true), UserResponse(2, sid, "B", true), UserResponse(3, sid, "A", false)];
    assert log[..2][..1] == log[..1] == [UserResponse(1, sid, "A", true)] && log[..1][..0] == [];
    assert Count(log[..1], sid, true) == 1 && Count(log[..1], sid, false) == 0;
    assert Count(log[..2], sid, true) == 2 && Count(log[..2], sid, false) == 0;
    assert Count(log, sid, true) == 2 && Count(log, sid, false) == 1;
    r := db.EndExam(sid, now);
  }

  /** A session nobody answered in scores 0 whatever its marks. */
  method NoAnswersScoresZero(correctMarks: real, negativeMarks: real, now: Timestamp) returns (r: Result<Report>)
    ensures r == Ok(Report(0.0, 0, 0))
  {
    var db := new ExamDb(Bank());
    var sid := db.CreateExamSession(correctMarks, negativeMarks, now);
    r := db.EndExam(sid, now);
  }

  /** The same correct answer submitted twice is recorded and counted twice. */
  method ResubmissionCountsTwice(now: Timestamp) returns (r: Result<Report>)
    ensures r == Ok(Report(2.0, 2, 0))
  {
    var db := new ExamDb(Bank());
    var sid := db.CreateExamSession(1.0, 1.0, now);
    assert sid == 1 && IsInt64(sid) && 1 in db.questions;
    var _ := db.SubmitAnswer(1, sid, "A");
    assert db.responses == [UserResponse(1, sid, "A", true)];
    var _ := db.SubmitAnswer(1, sid, "A");
    assert db.responses == [UserResponse(1, sid, "A", true), UserResponse(1, sid, "A", true)];
    assert db.responses[..1] == [UserResponse(1, sid, "A", true)] && db.responses[..1][..0] == [];
    assert Count(db.responses, sid, true) == 2;
    assert Count(db.responses, sid, false) == 0;
    assert TotalScore(2, 0, 1.0, 1.0) == 2.0;
    r := db.EndExam(sid, now);
  }

  /** Ending an exam twice is not refused: the second call scores the answers given in
      between and overwrites the stored score and end time. */
  method EndExamTwice(now1: Timestamp, now2: Timestamp) returns (first: Result<Report>, second: Result<Report>, stored: ExamSession)
    ensures first == Ok(Report(1.0, 1, 0))
    ensures second == Ok(Report(0.5, 1, 1))
    ensures stored.endTime == Some(now2) && stored.totalScore == Some(0.5)
  {
    var db := new ExamDb(Bank());
    var sid := db.CreateExamSession(1.0, 0.5, now1);
    var _ := db.SubmitAnswer(1, sid, "A");
    first := db.EndExam(sid, now1);
    var _ := db.SubmitAnswer(2, sid, "D");
    second := db.EndExam(sid, now2);
    stored := db.sessions[sid];
  }

  /** Answers are accepted for a session id that does not exist yet, and they count for
      the session that later receives that id. */
  method AnswerBeforeSessionExists(now: Timestamp) returns (submitted: Result<()>, sid: int, r: Result<Report>)
    ensures submitted == Ok(()) && sid == 1
    ensures r == Ok(Report(1.0, 1, 0))
  {
    var db := new ExamDb(Bank());
    submitted := db.SubmitAnswer(1, 1, "A");
    sid := db.CreateExamSession(1.0, 1.0, now);
    r := db.EndExam(sid, now);
  }

  /** An unknown question is refused and leaves no response; an answer outside A-D is not
      refused and counts as incorrect. */
  method UnknownQuestionAndOddLabel(now: Timestamp) returns (unknown: Result<()>, odd: Result<()>, r: Result<Report>)
    ensures unknown == Err(QuestionNotFound)
    ensures odd == Ok(())
    ensures r == Ok(Report(-0.25, 0, 1))
  {
    var db := new ExamDb(Bank());
    var sid := db.CreateExamSession(1.0, 0.25, now);
    unknown := db.SubmitAnswer(99, sid, "A");
    odd := db.SubmitAnswer(2, sid, "E");
    r := db.EndExam(sid, now);
  }

  /** Ending an exam that was never created fails and creates nothing. */
  method EndUnknownSession(now: Timestamp) returns (r: Result<Report>, sessionCount: nat)
    ensures r == Err(SessionNotFound) && sessionCount == 0
  {
    var db := new ExamDb(Bank());
    r := db.EndExam(7, now);
    sessionCount := |db.sessions|;
  }

  /** A session id one past the largest 64-bit integer passes the question lookup but cannot
      be bound in the insert: the answer is refused and nothing is recorded. */
  method OversizedSessionId(now: Timestamp) returns (r: Result<()>, responseCount: nat)
    ensures r == Err(IdOutOfRange) && responseCount == 0
  {
    var db := new ExamDb(Bank());
    r := db.SubmitAnswer(1, 0x8000_0000_0000_0000, "A");
    responseCount := |db.responses|;
  }
}
