/** The submission endpoints of both backends: validate, score, then upsert one
    row of `exam_submissions` keyed by (user, exam). */
module Submissions {
  import opened Wrappers
  import opened Records
  import opened Scoring

  /** The body of a submission request. `durationSeconds` is `None` when the
      field is omitted; a JSON `null` duration, which the Node schema rejects and
      Java stores as 0, has no representation here. */
  datatype SubmitBody = SubmitBody(answers: seq<Answer>, durationSeconds: Option<int>)

  /** The response of a successful submission. */
  datatype ScoreReport = ScoreReport(score: nat, percentage: nat, total: nat)

  /** A handler's response together with the submissions table it leaves behind. */
  datatype SubmitOutcome = SubmitOutcome(response: Result<ScoreReport, ApiError>, submissions: SubmissionTable)

  /** The row a successful submission writes. */
  function RowOf(report: ScoreReport, duration: int, now: Timestamp): Submission
  {
    Submission(report.percentage, report.score, report.total, duration, now)
  }

  /** `INSERT ... ON DUPLICATE KEY UPDATE` as one atomic map update: the row for
      `key` is inserted or overwritten, refreshing its timestamp, and no other row
      changes. */
  function Upsert(table: SubmissionTable, key: (UserId, ExamId), row: Submission): (t: SubmissionTable)
    ensures t.Keys == table.Keys + {key}
    ensures t[key] == row
    ensures forall k :: k in table && k != key ==> t[k] == table[k]
  {
    table[key := row]
  }

  /** The upsert adds a row only for a new key; an existing key keeps the row count. */
  lemma UpsertRowCount(table: SubmissionTable, key: (UserId, ExamId), row: Submission)
    ensures |Upsert(table, key, row)| == if key in table then |table| else |table| + 1
  {
    var t := Upsert(table, key, row);
    if key in table {
      assert t.Keys == table.Keys;
    } else {
      assert t.Keys == table.Keys + {key};
    }
  }

  /** A selected option the submission schema accepts: null or an integer 0..3. */
  predicate OptionAccepted(selected: Option<int>)
  {
    selected.None? || 0 <= selected.value <= 3
  }

  /** The Node submission schema: every selection accepted and the duration a
      non-negative integer when present. */
  predicate NodePayloadValid(body: SubmitBody)
  {
    && (forall i :: 0 <= i < |body.answers| ==> OptionAccepted(body.answers[i].selectedOption))
    && (body.durationSeconds.None? || body.durationSeconds.value >= 0)
  }

  /** The duration a valid Node payload carries: the schema defaults it to 0. */
  function NodeDuration(body: SubmitBody): (d: nat)
    requires NodePayloadValid(body)
    ensures body.durationSeconds.Some? ==> d == body.durationSeconds.value
    ensures body.durationSeconds.None? ==> d == 0
  {
    match body.durationSeconds
    case None => 0
    case Some(v) => v
  }

  /** The ids named in the answer list. */
  function AnsweredIds(answers: seq<Answer>): set<QuestionId>
  {
    set a | a in answers :: a.questionId
  }

  /** `SELECT id, correct_option FROM exam_questions WHERE exam_id = ? AND id IN (...)`
      turned into a map: the exam's correct options, restricted to the ids asked for. */
  function RequestedCorrectMap(questions: map<QuestionId, QuestionRow>, examId: ExamId, ids: set<QuestionId>)
    : (m: map<QuestionId, int>)
    ensures m.Keys == PoolOf(questions, examId) * ids
    ensures forall q :: q in m ==> m[q] == questions[q].correctOption
  {
    map q | q in questions && questions[q].examId == examId && q in ids :: questions[q].correctOption
  }

  /** Against the map of the requested ids, the Node award rule is exactly the
      reference rule: ids outside the exam's pool never score. */
  lemma NodeCountIsPointCount(answers: seq<Answer>, questions: map<QuestionId, QuestionRow>, examId: ExamId)
    ensures NodeCount(answers, RequestedCorrectMap(questions, examId, AnsweredIds(answers)))
         == |PointIndices(answers, questions, examId)|
  {
    var m := RequestedCorrectMap(questions, examId, AnsweredIds(answers));
    forall i | 0 <= i < |answers|
      ensures NodeAwards(answers[i], m) <==> EarnsPoint(answers[i], questions, examId)
    {
      assert answers[i] in answers;
    }
    assert (set i: nat | i < |answers| && NodeAwards(answers[i], m)) == PointIndices(answers, questions, examId);
  }

  /** The Node response for a non-empty, valid answer list. */
  function NodeReport(questions: map<QuestionId, QuestionRow>, examId: ExamId, answers: seq<Answer>): (r: ScoreReport)
    requires |answers| > 0
    ensures r.total == |answers|
    ensures r.score == |PointIndices(answers, questions, examId)|
    ensures r.score <= r.total && r.percentage <= 100
    ensures 2 * r.total * r.percentage <= 200 * r.score + r.total < 2 * r.total * (r.percentage + 1)
  {
    var correctMap := RequestedCorrectMap(questions, examId, AnsweredIds(answers));
    var score := NodeCount(answers, correctMap);
    NodeCountIsPointCount(answers, questions, examId);
    ScoreReport(score, Percentage(score, |answers|), |answers|)
  }

  /** The Java response once every lookup has found its row; an empty list gives
      percentage 0 instead of a division by zero. */
  function JavaReport(score: nat, total: nat): (r: ScoreReport)
    requires score <= total
    ensures r.score == score && r.total == total && r.percentage <= 100
    ensures total == 0 ==> r.percentage == 0
    ensures total > 0 ==> 2 * total * r.percentage <= 200 * score + total < 2 * total * (r.percentage + 1)
  {
    ScoreReport(score, if total == 0 then 0 else Percentage(score, total), total)
  }

  /** POST /api/exams/:id/submissions on the Node server. */
  function NodeSubmit(db: Db, userId: UserId, path: PathId, body: SubmitBody, now: Timestamp): (o: SubmitOutcome)
    // error precedence: bad id, then schema, then the empty list; nothing is written
    ensures path.NotANumber? ==> o.response == Failure(InvalidExamId)
    ensures path.Numeric? && !NodePayloadValid(body) ==> o.response == Failure(InvalidPayload)
    ensures path.Numeric? && NodePayloadValid(body) && |body.answers| == 0 ==> o.response == Failure(NoAnswers)
    ensures o.response.Success? <==> path.Numeric? && NodePayloadValid(body) && |body.answers| > 0
    ensures o.response.Failure? ==> o.submissions == db.submissions
    // scoring: one point per answer whose question is in this exam and whose selection is correct
    ensures o.response.Success? ==>
      var r := o.response.value;
      && r.total == |body.answers|
      && r.score == |PointIndices(body.answers, db.questions, path.value)|
      && r.score <= r.total
      && r.percentage <= 100
      && 2 * r.total * r.percentage <= 200 * r.score + r.total < 2 * r.total * (r.percentage + 1)
    // the response carries exactly what is written, under (user, exam) only
    ensures o.response.Success? ==>
      o.submissions == Upsert(db.submissions, (userId, path.value), RowOf(o.response.value, NodeDuration(body), now))
  {
    if path.NotANumber? then SubmitOutcome(Failure(InvalidExamId), db.submissions)
    else if !NodePayloadValid(body) then SubmitOutcome(Failure(InvalidPayload), db.submissions)
    else if |body.answers| == 0 then SubmitOutcome(Failure(NoAnswers), db.submissions)
    else
      var examId := path.value;
      var report := NodeReport(db.questions, examId, body.answers);
      SubmitOutcome(Success(report), Upsert(db.submissions, (userId, examId), RowOf(report, NodeDuration(body), now)))
  }

  /** The Java controller binds `durationSeconds` to an `Integer`: null or absent
      binds, and so does any value an `int` holds; anything else fails the request
      before the service runs. */
  predicate JavaDurationBinds(durationSeconds: Option<int>)
  {
    durationSeconds.None? || InJavaIntRange(durationSeconds.value)
  }

  /** `POST /api/exams/{id}/submissions` on the Java backend: the controller's
      binding of the body, then `ExamService.submit`. */
  function JavaSubmit(db: Db, userId: UserId, examId: ExamId, answers: seq<Answer>, durationSeconds: Option<int>, now: Timestamp)
    : (o: SubmitOutcome)
    // a duration that does not bind fails first; then a lookup that finds no row
    // fails the request; either way before the upsert
    ensures !JavaDurationBinds(durationSeconds) ==> o.response == Failure(InvalidPayload)
    ensures JavaDurationBinds(durationSeconds) && o.response.Failure? ==> o.response.error == QuestionNotFound
    ensures o.response.Failure? <==>
      || !JavaDurationBinds(durationSeconds)
      || exists i :: 0 <= i < |answers| && answers[i].questionId !in PoolOf(db.questions, examId)
    ensures o.response.Failure? ==> o.submissions == db.submissions
    ensures o.response.Success? ==>
      var r := o.response.value;
      && r.total == |answers|
      && r.score == |JavaPointIndices(answers, db.questions, examId)|
      && r.score <= r.total
      && (r.total == 0 ==> r.percentage == 0)
      && (r.total > 0 ==> 2 * r.total * r.percentage <= 200 * r.score + r.total < 2 * r.total * (r.percentage + 1))
      && r.percentage <= 100
    // a null duration is stored as 0; the response carries exactly what is written
    ensures o.response.Success? ==>
      o.submissions == Upsert(db.submissions, (userId, examId),
                              RowOf(o.response.value, if durationSeconds.Some? then durationSeconds.value else 0, now))
  {
    if !JavaDurationBinds(durationSeconds) then SubmitOutcome(Failure(InvalidPayload), db.submissions)
    else match JavaTally(answers, db.questions, examId)
    case Failure(e) => SubmitOutcome(Failure(e), db.submissions)
    case Success(score) =>
      var report := JavaReport(score, |answers|);
      var duration := if durationSeconds.Some? then durationSeconds.value else 0;
      SubmitOutcome(Success(report), Upsert(db.submissions, (userId, examId), RowOf(report, duration, now)))
  }
}
