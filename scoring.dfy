/** Counting a session's responses and the negative-marking score formula. */
module Scoring {
  import opened Tables

  /** True when response `r` is one of session `sid`'s responses whose is_correct flag is `flag`. */
  predicate Matches(r: UserResponse, sid: int, flag: bool)
  {
    r.examSessionId == sid && r.isCorrect == flag
  }

  /** `SELECT COUNT(*) FROM user_responses WHERE exam_session_id = sid AND is_correct = flag`. */
  function Count(rs: seq<UserResponse>, sid: int, flag: bool): (n: nat)
    ensures n <= |rs|
    ensures n == 0 <== forall i :: 0 <= i < |rs| ==> !Matches(rs[i], sid, flag)
  {
    if rs == [] then 0
    else Count(rs[..|rs| - 1], sid, flag) + (if Matches(rs[|rs| - 1], sid, flag) then 1 else 0)
  }

  /** Number of responses that belong to session `sid`, whatever their flag. */
  function ResponseCount(rs: seq<UserResponse>, sid: int): (n: nat)
    ensures n <= |rs|
  {
    if rs == [] then 0
    else ResponseCount(rs[..|rs| - 1], sid) + (if rs[|rs| - 1].examSessionId == sid then 1 else 0)
  }

  /** The correct_count of end_exam: never more than the session's responses. */
  function CorrectCount(rs: seq<UserResponse>, sid: int): (n: nat)
    ensures n <= ResponseCount(rs, sid)
  {
    CountsCoverSessionResponses(rs, sid);
    Count(rs, sid, true)
  }

  /** The incorrect_count of end_exam: never more than the session's responses. */
  function IncorrectCount(rs: seq<UserResponse>, sid: int): (n: nat)
    ensures n <= ResponseCount(rs, sid)
  {
    CountsCoverSessionResponses(rs, sid);
    Count(rs, sid, false)
  }

  /** The score formula of end_exam: each correct answer earns the correct mark and each
      incorrect answer loses the negative mark. Nothing is floored or rounded. */
  function TotalScore(correctCount: nat, incorrectCount: nat, correctMarks: real, negativeMarks: real): (score: real)
    ensures correctCount == 0 && incorrectCount == 0 ==> score == 0.0
    ensures negativeMarks == 0.0 ==> score == correctCount as real * correctMarks
  {
    correctCount as real * correctMarks - incorrectCount as real * negativeMarks
  }

  /** The score end_exam computes for session `sid` with the marks of `s`. */
  function SessionScore(rs: seq<UserResponse>, sid: int, s: ExamSession): (score: real)
    ensures (forall i :: 0 <= i < |rs| ==> rs[i].examSessionId != sid) ==> score == 0.0
  {
    TotalScore(CorrectCount(rs, sid), IncorrectCount(rs, sid), s.correctMarks, s.negativeMarks)
  }

  /** Positions of the log that the count selects: an independent definition of Count. */
  ghost function MatchingPositions(rs: seq<UserResponse>, sid: int, flag: bool): set<nat>
  {
    set i: nat | i < |rs| && Matches(rs[i], sid, flag)
  }

  lemma {:induction false} CountIsNumberOfMatchingRows(rs: seq<UserResponse>, sid: int, flag: bool)
    ensures Count(rs, sid, flag) == |MatchingPositions(rs, sid, flag)|
  {
    if rs != [] {
      var front := rs[..|rs| - 1];
      CountIsNumberOfMatchingRows(front, sid, flag);
      var last := |rs| - 1;
      if Matches(rs[last], sid, flag) {
        assert MatchingPositions(rs, sid, flag) == MatchingPositions(front, sid, flag) + {last};
      } else {
        assert MatchingPositions(rs, sid, flag) == MatchingPositions(front, sid, flag);
      }
    }
  }

  lemma {:induction false} CountAppend(a: seq<UserResponse>, b: seq<UserResponse>, sid: int, flag: bool)
    ensures Count(a + b, sid, flag) == Count(a, sid, flag) + Count(b, sid, flag)
  {
    if b == [] {
      assert a + b == a;
    } else {
      var front := b[..|b| - 1];
      CountAppend(a, front, sid, flag);
      assert (a + b)[..|a + b| - 1] == a + front;
    }
  }

  lemma {:induction false} ResponseCountAppend(a: seq<UserResponse>, b: seq<UserResponse>, sid: int)
    ensures ResponseCount(a + b, sid) == ResponseCount(a, sid) + ResponseCount(b, sid)
  {
    if b == [] {
      assert a + b == a;
    } else {
      ResponseCountAppend(a, b[..|b| - 1], sid);
      assert (a + b)[..|a + b| - 1] == a + b[..|b| - 1];
    }
  }

  /** Every response of a session is counted exactly once, as correct or as incorrect. */
  lemma {:induction false} CountsCoverSessionResponses(rs: seq<UserResponse>, sid: int)
    ensures Count(rs, sid, true) + Count(rs, sid, false) == ResponseCount(rs, sid)
  {
    if rs != [] {
      CountsCoverSessionResponses(rs[..|rs| - 1], sid);
    }
  }

  /** Taking row `j` out of the log takes its match, if any, out of the count. */
  lemma CountWithoutRow(b: seq<UserResponse>, j: nat, sid: int, flag: bool)
    requires j < |b|
    ensures Count(b, sid, flag) ==
            Count(b[..j] + b[j + 1..], sid, flag) + (if Matches(b[j], sid, flag) then 1 else 0)
  {
    assert b == b[..j] + [b[j]] + b[j + 1..];
    CountAppend(b[..j] + [b[j]], b[j + 1..], sid, flag);
    CountAppend(b[..j], [b[j]], sid, flag);
    CountAppend(b[..j], b[j + 1..], sid, flag);
    assert [b[j]][..0] == [];
  }

  /** Taking the last row of `a` and the equal row `j` of `b` out of two permutations of
      each other leaves two permutations of each other. */
  lemma PermutationWithoutOne(a: seq<UserResponse>, b: seq<UserResponse>, j: nat)
    requires multiset(a) == multiset(b) && a != [] && j < |b| && b[j] == a[|a| - 1]
    ensures multiset(a[..|a| - 1]) == multiset(b[..j] + b[j + 1..])
  {
    var x := a[|a| - 1];
    assert a == a[..|a| - 1] + [x];
    assert b == b[..j] + [x] + b[j + 1..];
    assert multiset(a[..|a| - 1]) == multiset(a) - multiset{x};
    assert multiset(b[..j] + b[j + 1..]) == multiset(b) - multiset{x};
  }

  /** The count does not depend on the order of the rows: any permutation of the log
      gives the same count. */
  lemma {:induction false} CountIsOrderIndependent(a: seq<UserResponse>, b: seq<UserResponse>, sid: int, flag: bool)
    requires multiset(a) == multiset(b)
    ensures Count(a, sid, flag) == Count(b, sid, flag)
    decreases |a|
  {
    if a == [] {
      assert |b| == |multiset(b)| == 0;
    } else {
      var front, x := a[..|a| - 1], a[|a| - 1];
      assert a == front + [x];
      assert x in multiset(b);
      var j :| 0 <= j < |b| && b[j] == x;
      var rest := b[..j] + b[j + 1..];
      PermutationWithoutOne(a, b, j);
      CountIsOrderIndependent(front, rest, sid, flag);
      CountWithoutRow(b, j, sid, flag);
    }
  }

  /** Responses of other sessions, wherever they sit in the log, do not change a session's counts. */
  lemma {:induction false} OtherSessionsDoNotCount(before: seq<UserResponse>, others: seq<UserResponse>,
                                                   after: seq<UserResponse>, sid: int, flag: bool)
    requires forall i :: 0 <= i < |others| ==> others[i].examSessionId != sid
    ensures Count(before + others + after, sid, flag) == Count(before + after, sid, flag)
  {
    CountAppend(before + others, after, sid, flag);
    CountAppend(before, others, sid, flag);
    CountAppend(before, after, sid, flag);
  }

  /** A session with no responses in the log scores 0 with both counts 0. */
  lemma NoResponsesScoresZero(rs: seq<UserResponse>, sid: int, s: ExamSession)
    requires forall i :: 0 <= i < |rs| ==> rs[i].examSessionId != sid
    ensures CorrectCount(rs, sid) == 0 && IncorrectCount(rs, sid) == 0
    ensures SessionScore(rs, sid, s) == 0.0
  {
  }

  /** Appending one response changes only the count it belongs to, by one. */
  lemma CountAfterAnswer(rs: seq<UserResponse>, r: UserResponse, flag: bool)
    ensures Count(rs + [r], r.examSessionId, flag) == Count(rs, r.examSessionId, flag) + (if r.isCorrect == flag then 1 else 0)
  {
    assert (rs + [r])[..|rs|] == rs;
  }

  /** One more correct answer adds the correct mark; one more incorrect answer takes off the negative mark. */
  lemma TotalScoreStep(c: nat, i: nat, correctMarks: real, negativeMarks: real)
    ensures TotalScore(c + 1, i, correctMarks, negativeMarks) == TotalScore(c, i, correctMarks, negativeMarks) + correctMarks
    ensures TotalScore(c, i + 1, correctMarks, negativeMarks) == TotalScore(c, i, correctMarks, negativeMarks) - negativeMarks
  {
    var cr, ir := c as real, i as real;
    assert (c + 1) as real == cr + 1.0;
    assert (i + 1) as real == ir + 1.0;
    assert (cr + 1.0) * correctMarks == cr * correctMarks + correctMarks;
    assert (ir + 1.0) * negativeMarks == ir * negativeMarks + negativeMarks;
  }

  /** Appending one response of session `sid` adds the correct mark when it is correct and
      takes off the negative mark when it is not. */
  lemma ScoreAfterAnswer(rs: seq<UserResponse>, r: UserResponse, s: ExamSession)
    ensures SessionScore(rs + [r], r.examSessionId, s) ==
            SessionScore(rs, r.examSessionId, s) + (if r.isCorrect then s.correctMarks else -s.negativeMarks)
  {
    var sid := r.examSessionId;
    CountAfterAnswer(rs, r, true);
    CountAfterAnswer(rs, r, false);
    TotalScoreStep(CorrectCount(rs, sid), IncorrectCount(rs, sid), s.correctMarks, s.negativeMarks);
  }

  /** Answering the same way twice counts twice: duplicates are not collapsed. */
  lemma {:induction false} DuplicateAnswerCountsTwice(rs: seq<UserResponse>, r: UserResponse, s: ExamSession)
    ensures ResponseCount(rs + [r, r], r.examSessionId) == ResponseCount(rs, r.examSessionId) + 2
    ensures SessionScore(rs + [r, r], r.examSessionId, s) ==
            SessionScore(rs, r.examSessionId, s) + 2.0 * (if r.isCorrect then s.correctMarks else -s.negativeMarks)
  {
    var sid := r.examSessionId;
    ScoreAfterAnswer(rs, r, s);
    ScoreAfterAnswer(rs + [r], r, s);
    assert rs + [r] + [r] == rs + [r, r];
    ResponseCountAppend(rs, [r, r], sid);
    assert [r, r][..1] == [r] && [r][..0] == [];
  }

  lemma ScaleMonotone(a: real, b: real, m: real)
    requires a <= b && m >= 0.0
    ensures a * m <= b * m
  {
    assert (b - a) * m >= 0.0;
  }

  /** With non-negative marks a session scores no less than if every one of its responses
      were wrong and no more than if every one were right. */
  lemma ScoreBounds(rs: seq<UserResponse>, sid: int, s: ExamSession)
    requires s.correctMarks >= 0.0 && s.negativeMarks >= 0.0
    ensures TotalScore(0, ResponseCount(rs, sid), s.correctMarks, s.negativeMarks) <= SessionScore(rs, sid, s)
    ensures SessionScore(rs, sid, s) <= TotalScore(ResponseCount(rs, sid), 0, s.correctMarks, s.negativeMarks)
  {
    CountsCoverSessionResponses(rs, sid);
    TotalScoreBounds(CorrectCount(rs, sid), IncorrectCount(rs, sid), ResponseCount(rs, sid), s.correctMarks, s.negativeMarks);
  }

  lemma TotalScoreBounds(c: nat, i: nat, n: nat, correctMarks: real, negativeMarks: real)
    requires c + i == n && correctMarks >= 0.0 && negativeMarks >= 0.0
    ensures TotalScore(0, n, correctMarks, negativeMarks) <= TotalScore(c, i, correctMarks, negativeMarks)
    ensures TotalScore(c, i, correctMarks, negativeMarks) <= TotalScore(n, 0, correctMarks, negativeMarks)
  {
    var cr, ir, nr := c as real, i as real, n as real;
    assert nr == cr + ir;
    ScaleMonotone(0.0, cr, correctMarks);
    ScaleMonotone(cr, nr, correctMarks);
    ScaleMonotone(0.0, ir, negativeMarks);
    ScaleMonotone(ir, nr, negativeMarks);
  }

  /** The score is not floored at zero: one wrong answer under a positive penalty is negative. */
  lemma ScoreCanBeNegative(r: UserResponse, s: ExamSession)
    requires !r.isCorrect && s.negativeMarks > 0.0
    ensures SessionScore([r], r.examSessionId, s) == -s.negativeMarks < 0.0
  {
    assert [r][..0] == [];
  }
}
