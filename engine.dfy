/** The exam engine: the three tables held in memory and the four handlers
    create_exam_session, get_questions, submit_answer and end_exam that act on them. */
module Engine {
  import opened Tables
  import opened Scoring
  import opened Projection

  /** A non-empty set of ids has a member to pick. */
  lemma HasMember(s: set<int>)
    requires s != {}
    ensures exists x :: x in s
  {
    if forall x :: x !in s {
      assert false;
    }
  }

  class ExamDb {
    var questions: map<int, Question>
    var sessions: map<int, ExamSession>
    /** The user_responses table in insertion order; a row's id is its position plus one. */
    var responses: seq<UserResponse>
    /** The largest id in exam_sessions, 0 while the table is empty. */
    var lastSessionId: int

    /** exam_sessions ids are handed out as "largest id plus one", starting at 1, and a
        session's end time and score are either both unset or both set. */
    ghost predicate Valid()
      reads this
      ensures Valid() ==> lastSessionId + 1 !in sessions && lastSessionId >= 0
    {
      && (sessions == map[] ==> lastSessionId == 0)
      && (sessions != map[] ==> lastSessionId in sessions)
      && (forall id :: id in sessions ==> 1 <= id <= lastSessionId)
      && (forall id :: id in sessions ==> (sessions[id].endTime.Some? <==> sessions[id].totalScore.Some?))
    }

    /** A database whose question bank has been loaded and which holds no session and no response. */
    constructor (questions: map<int, Question>)
      ensures Valid()
      ensures this.questions == questions && sessions == map[] && responses == []
    {
      this.questions := questions;
      sessions := map[];
      responses := [];
      lastSessionId := 0;
    }

    /** create_exam_session: inserts a session holding the two marks and the start time,
        with end time and score unset, and returns its new id. */
    method CreateExamSession(correctMarks: real, negativeMarks: real, now: Timestamp) returns (sessionId: int)
      requires Valid()
      modifies this`sessions, this`lastSessionId
      ensures Valid()
      ensures sessionId !in old(sessions) && sessionId >= 1
      ensures forall id :: id in old(sessions) ==> id < sessionId
      ensures old(sessions) == map[] ==> sessionId == 1
      ensures old(sessions) != map[] ==> sessionId - 1 in old(sessions)
      ensures sessions == old(sessions)[sessionId := ExamSession(correctMarks, negativeMarks, now, None, None)]
    {
      sessionId := lastSessionId + 1;
      sessions := sessions[sessionId := ExamSession(correctMarks, negativeMarks, now, None, None)];
      lastSessionId := sessionId;
    }

    /** get_questions: every stored question exactly once, in no particular order, each
        as its id, text and four options. The session id is accepted and ignored. */
    method GetQuestions(sessionId: int) returns (views: seq<QuestionView>)
      ensures |views| == |questions|
      ensures forall i :: 0 <= i < |views| ==>
                views[i].id in questions && views[i] == View(views[i].id, questions[views[i].id])
      ensures forall id :: id in questions ==> exists i :: 0 <= i < |views| && views[i].id == id
      ensures forall i, j :: 0 <= i < j < |views| ==> views[i].id != views[j].id
    {
      var remaining := questions.Keys;
      views := [];
      while remaining != {}
        invariant remaining <= questions.Keys
        invariant |views| + |remaining| == |questions|
        invariant forall i :: 0 <= i < |views| ==>
                    views[i].id in questions && views[i].id !in remaining &&
                    views[i] == View(views[i].id, questions[views[i].id])
        invariant forall id :: id in questions && id !in remaining ==>
                    exists i :: 0 <= i < |views| && views[i].id == id
        invariant forall i, j :: 0 <= i < j < |views| ==> views[i].id != views[j].id
        decreases remaining
      {
        // The row chosen next stands for the order the database returns under ORDER BY RANDOM().
        HasMember(remaining);
        var id :| id in remaining;
        ghost var before := views;
        views := views + [View(id, questions[id])];
        remaining := remaining - {id};
        forall k | k in questions && k !in remaining
          ensures exists i :: 0 <= i < |views| && views[i].id == k
        {
          if k == id {
            assert views[|before|].id == k;
          } else {
            var i :| 0 <= i < |before| && before[i].id == k;
            assert views[i].id == k;
          }
        }
      }
    }

    /** submit_answer: looks up the question's correct answer and appends one response
        whose is_correct flag says whether the selected answer equals it. The session id
        is not checked against exam_sessions, and a repeated answer is appended again.
        An id that does not fit a 64-bit integer cannot be bound: the lookup fails for the
        question id, the insert fails for the session id, and nothing is written. */
    method SubmitAnswer(questionId: int, sessionId: int, selectedAnswer: string) returns (r: Result<()>)
      requires Valid()
      modifies this`responses
      ensures Valid()
      ensures !IsInt64(questionId) ==> r == Err(IdOutOfRange) && responses == old(responses)
      ensures IsInt64(questionId) && questionId !in questions ==> r == Err(QuestionNotFound) && responses == old(responses)
      ensures IsInt64(questionId) && questionId in questions && !IsInt64(sessionId) ==>
                r == Err(IdOutOfRange) && responses == old(responses)
      ensures IsInt64(questionId) && questionId in questions && IsInt64(sessionId) ==>
                && r == Ok(())
                && responses == old(responses) + [UserResponse(questionId, sessionId, selectedAnswer,
                                                               selectedAnswer == questions[questionId].correctAnswer)]
    {
      if !IsInt64(questionId) {
        return Err(IdOutOfRange);
      }
      if questionId !in questions {
        return Err(QuestionNotFound);
      }
      var isCorrect := selectedAnswer == questions[questionId].correctAnswer;
      if !IsInt64(sessionId) {
        return Err(IdOutOfRange);
      }
      responses := responses + [UserResponse(questionId, sessionId, selectedAnswer, isCorrect)];
      r := Ok(());
    }

    /** end_exam: counts the session's correct and incorrect responses, scores them with the
        session's marks, writes end time and score onto that session and returns them.
        An exam that has already ended is scored again and overwritten. A session id that
        does not fit a 64-bit integer cannot be bound, and the lookup fails. */
    method EndExam(sessionId: int, now: Timestamp) returns (r: Result<Report>)
      requires Valid()
      modifies this`sessions
      ensures Valid()
      ensures !IsInt64(sessionId) ==> r == Err(IdOutOfRange) && sessions == old(sessions)
      ensures IsInt64(sessionId) && sessionId !in old(sessions) ==> r == Err(SessionNotFound) && sessions == old(sessions)
      ensures IsInt64(sessionId) && sessionId in old(sessions) ==>
                var s := old(sessions)[sessionId];
                var score := SessionScore(responses, sessionId, s);
                && r == Ok(Report(score, CorrectCount(responses, sessionId), IncorrectCount(responses, sessionId)))
                && sessions == old(sessions)[sessionId := s.(endTime := Some(now), totalScore := Some(score))]
    {
      if !IsInt64(sessionId) {
        return Err(IdOutOfRange);
      }
      if sessionId !in sessions {
        return Err(SessionNotFound);
      }
      var s := sessions[sessionId];
      var correctCount := Count(responses, sessionId, true);
      var incorrectCount := Count(responses, sessionId, false);
      var totalScore := TotalScore(correctCount, incorrectCount, s.correctMarks, s.negativeMarks);
      sessions := sessions[sessionId := s.(endTime := Some(now), totalScore := Some(totalScore))];
      r := Ok(Report(totalScore, correctCount, incorrectCount));
    }
  }
}
