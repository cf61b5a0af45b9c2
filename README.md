# MCQ exam engine — a Dafny model

This project models the exam engine of a multiple-choice exam service. The service keeps
three tables: `questions`, `exam_sessions` and `user_responses`. Four request handlers act on
them:

- `create_exam_session` opens a session that holds a mark for each correct answer and a
  penalty for each wrong one.
- `get_questions` serves the question bank in random order, without the correct answers.
- `submit_answer` grades one answer against the stored correct answer and records it.
- `end_exam` counts the session's correct and incorrect answers. It scores them as
  `correct * correct_marks - incorrect * negative_marks` and writes the end time and score
  onto the session.

The model keeps the three tables in memory in one class, `Engine.ExamDb`. Questions and
sessions are maps keyed by id. Responses are an append-only sequence; a response's id is its
position plus one, and nothing reads it. Handlers that change a table are methods with
`modifies` clauses, and their postconditions state the whole new table. Counting and scoring
are functions in `Scoring`, and the lemmas there state what the score means. `Projection`
defines the served form of a question. `Scenarios` calls the handlers on small databases and
proves each outcome from the handlers' contracts alone.

The code performs none of the checks a stricter design would add, and the model keeps it so:

- `submit_answer` does not check that the session exists.
- `submit_answer` does not check the answer label: "E" is recorded and graded as incorrect,
  unless the stored correct answer is itself "E" (the question import checks only that the
  columns exist).
- A repeated answer to the same question is appended again and counted again.
- `end_exam` may be called again. It recomputes the score from the current responses and
  overwrites the end time and score; it is never refused.
- Negative marks are not rejected.
- `get_questions` ignores its session id and serves questions for ended sessions too.
- Failures are not typed. A missing row makes the handler fail before it writes anything. The
  model returns `Err(QuestionNotFound)` or `Err(SessionNotFound)` and leaves the tables
  unchanged.
- An id that does not fit SQLite's signed 64-bit integer cannot be bound as a query parameter,
  so the statement that binds it fails. The model returns `Err(IdOutOfRange)` and writes
  nothing. In `submit_answer`, the question lookup binds the question id first; the session id is
  bound only by the insert.

A new session id is the largest id in `exam_sessions` plus one, or 1 when the table is empty.
This is how SQLite assigns an `INTEGER PRIMARY KEY`. Sessions are never deleted, so the field
`lastSessionId` tracks that largest id exactly.

One consequence, shown by `Scenarios.AnswerBeforeSessionExists`: answers can be submitted for a
session id that does not exist yet. Those answers count for the session that later receives
that id. So a fresh session is sure to score 0 when no earlier response carries its id, as
`Scoring.NoResponsesScoresZero` states.

## Model

| member | source | states |
|---|---|---|
| `Engine.ExamDb.Valid` | mcq-exam-system/backend/app/main.py:40-48 | the next session id, the largest id plus one, is unused; ids are positive; a session's end time and score are both unset or both set, as the insert leaves both NULL and the update writes both, for finite scores |
| `Engine.ExamDb.constructor` | mcq-exam-system/backend/app/main.py:27-58 | the database starts with the given question bank, no session and no response, and the session-id invariant holds |
| `Engine.ExamDb.CreateExamSession` | mcq-exam-system/backend/app/main.py:120-129 | the new id was unused and is larger than every existing id; it is the largest existing id plus one, or 1 on an empty table; exactly one session is added, holding the two marks and the start time, with end time and score unset; questions and responses are unchanged |
| `Engine.ExamDb.GetQuestions` | mcq-exam-system/backend/app/main.py:141-154 | every stored question appears exactly once, in any order; no id repeats and no other id appears; each item is the question's id, text and options A-D; the result has as many items as the bank |
| `Engine.ExamDb.SubmitAnswer` | mcq-exam-system/backend/app/main.py:160-181 | on a known question with both ids in 64-bit range, exactly one response is appended with the given question id, session id and answer; is_correct holds exactly when the answer equals the stored correct answer; earlier responses are kept; an out-of-range question id, an unknown question or an out-of-range session id each give their own error and no response is written |
| `Engine.ExamDb.EndExam` | mcq-exam-system/backend/app/main.py:187-220 | on an out-of-range id or an unknown session the result is the matching error and no session changes; otherwise the result holds the session's correct and incorrect counts and the formula's score; that session alone gets the same score and the given end time; questions and responses are unchanged |
| `Scoring.Count` | mcq-exam-system/backend/app/main.py:198-202 | the count of the rows that `Matches`, the WHERE clause of lines 198 and 201, selects never exceeds the log's length, and is 0 when no row of the log matches |
| `Scoring.CountIsNumberOfMatchingRows` | mcq-exam-system/backend/app/main.py:198-202 | the count equals the number of log positions whose response belongs to the session and carries the flag |
| `Scoring.CountAppend` | mcq-exam-system/backend/app/main.py:198-202 | counting is additive over a log split into two parts |
| `Scoring.CountWithoutRow` | mcq-exam-system/backend/app/main.py:198-202 | taking one row out of the log lowers the count by one exactly when that row matches the session and flag |
| `Scoring.CountIsOrderIndependent` | mcq-exam-system/backend/app/main.py:198-202 | any permutation of the log gives the same count, so the count does not depend on the order of the rows |
| `Scoring.CorrectCount` | mcq-exam-system/backend/app/main.py:198-199 | the correct_count is never more than the number of the session's responses |
| `Scoring.IncorrectCount` | mcq-exam-system/backend/app/main.py:201-202 | the incorrect_count is never more than the number of the session's responses |
| `Scoring.TotalScore` | mcq-exam-system/backend/app/main.py:204 | no answers score 0; without a penalty the score is the correct answers times the correct mark |
| `Scoring.SessionScore` | mcq-exam-system/backend/app/main.py:193-204 | a session with no response in the log scores 0 under any marks |
| `Scoring.CountsCoverSessionResponses` | mcq-exam-system/backend/app/main.py:198-202 | the correct and incorrect counts add up to the number of the session's responses |
| `Scoring.OtherSessionsDoNotCount` | mcq-exam-system/backend/app/main.py:198-202 | inserting other sessions' responses anywhere in the log leaves a session's counts unchanged |
| `Scoring.NoResponsesScoresZero` | mcq-exam-system/backend/app/main.py:198-204 | a session without responses has both counts 0 and scores 0 |
| `Scoring.CountAfterAnswer` | mcq-exam-system/backend/app/main.py:173-176 | appending one response raises the count matching its flag by one and leaves the other count unchanged |
| `Scoring.TotalScoreStep` | mcq-exam-system/backend/app/main.py:204 | one more correct answer adds the correct mark; one more incorrect answer subtracts the negative mark |
| `Scoring.ScoreAfterAnswer` | mcq-exam-system/backend/app/main.py:170-204 | a session's score after one more answer is its old score plus the correct mark, or minus the negative mark |
| `Scoring.DuplicateAnswerCountsTwice` | mcq-exam-system/backend/app/main.py:173-204 | submitting the same answer twice adds two responses and moves the score twice |
| `Scoring.ScoreBounds` | mcq-exam-system/backend/app/main.py:204 | with non-negative marks, a session scores no less than if all its responses were wrong (minus responses * negative mark) and no more than if all were right (responses * correct mark) |
| `Scoring.ScoreCanBeNegative` | mcq-exam-system/backend/app/main.py:204 | one wrong answer under a positive penalty scores minus the penalty, below zero: the score is not floored |
| `Projection.View` | mcq-exam-system/backend/app/main.py:147-151 | a served item carries the question's id and text and exactly four options |
| `Projection.Unview` | mcq-exam-system/backend/app/main.py:141-151 | a question rebuilt from a served item takes its text from the item and its correct answer from outside |
| `Projection.ViewRoundTrip` | mcq-exam-system/backend/app/main.py:141-151 | a served item loses nothing of the question except the correct answer, and the options keep the order A, B, C, D |
| `Projection.ViewHidesCorrectAnswer` | mcq-exam-system/backend/app/main.py:141 | the served item does not depend on the correct answer, so it cannot reveal it |
| `Scenarios.TwoRightOneWrong` | mcq-exam-system/backend/app/main.py:198-204 | with marks 2 and 0.5, two right answers and one wrong give score 3.5 with counts 2 and 1 |
| `Scenarios.NoAnswersScoresZero` | mcq-exam-system/backend/app/main.py:120-129 | a session ended straight after creation scores 0 with both counts 0, whatever its marks |
| `Scenarios.ResubmissionCountsTwice` | mcq-exam-system/backend/app/main.py:173-176 | the same correct answer submitted twice counts as two correct answers |
| `Scenarios.EndExamTwice` | mcq-exam-system/backend/app/main.py:207-211 | a second end_exam succeeds; it scores the answers given in between and overwrites the stored score and end time |
| `Scenarios.AnswerBeforeSessionExists` | mcq-exam-system/backend/app/main.py:173-176 | an answer for a session id not yet created is accepted, and it counts for the session that later gets that id |
| `Scenarios.UnknownQuestionAndOddLabel` | mcq-exam-system/backend/app/main.py:166-170 | an unknown question is refused without writing a response; the label "E" is accepted and graded incorrect |
| `Scenarios.OversizedSessionId` | mcq-exam-system/backend/app/main.py:166-176 | a session id of 2^63 passes the question lookup but fails the insert; the answer is refused and no response is recorded |
| `Scenarios.EndUnknownSession` | mcq-exam-system/backend/app/main.py:193-195 | ending a session that does not exist fails and creates no session |

## Left out

- `upload_excel` (file write, Excel parsing, `os.remove`): the question bank is given to the constructor.
- The web framework, CORS set-up and routing are left out. The model does not turn every exception into an HTTP 500 with the exception's text. A failure is an `Err` naming the missing row.
- SQLite connections, cursors, commits and `init_db` are left out. The tables are fields of one object, and their column types give the field shapes.
- Engine.ExamDb.constructor: a database reopened with sessions and responses already stored is not modelled. The model always starts with empty sessions and responses.
- The `exam_session_id` column of `questions` is left out. Nothing in the application writes or reads it.
- Response row ids are left out: nothing reads them.
- SQLite's fallback to a random unused id, once the largest id reaches 2^63 - 1, is left out.
- `datetime.now()`: the time is a `Timestamp` parameter that the model stores but never inspects.
- `ORDER BY RANDOM()`: each step of the serving loop picks any remaining question. So the order is unconstrained, and no probability distribution is modelled.
- Engine.ExamDb.EndExam: non-finite marks are not modelled. A NaN mark is stored as NULL, so `end_exam` fails on the formula and writes nothing. An infinite mark can give a NaN score, which is stored as NULL beside a set end time. The model's marks are reals, so it scores every session and always writes both.
- Engine.ExamDb.Valid: the end time and score are both set only for finite scores. A NaN score, stored as NULL, is not modelled.
- Floating point: marks and scores are exact `real` values. Rounding of float products and differences is not modelled.
- Values the spreadsheet could put in the text columns other than strings, such as numbers or empty cells, are left out. Every answer is a string, compared exactly, case-sensitively.
- Concurrency: each handler runs as one atomic step on the tables.
