/** How the two submission endpoints relate to each other and to repeated calls. */
module SubmissionProperties {
  import opened Wrappers
  import opened Records
  import opened Scoring
  import opened Submissions

  /** At most one percentage is the rounded value of a given score and total. */
  lemma RoundingUnique(score: nat, total: nat, p: nat, q: nat)
    requires 0 < total
    requires 2 * total * p <= 200 * score + total < 2 * total * (p + 1)
    requires 2 * total * q <= 200 * score + total < 2 * total * (q + 1)
    ensures p == q
  {
    CancelFactor(2 * total, p, q + 1);
    CancelFactor(2 * total, q, p + 1);
  }

  /** The Node schema rejects a selection outside 0..3 and a negative duration,
      whatever else the request holds, and nothing is written. */
  lemma SchemaRejectsOutOfRange(db: Db, userId: UserId, examId: ExamId, body: SubmitBody, now: Timestamp)
    requires || (exists k :: 0 <= k < |body.answers| && body.answers[k].selectedOption.Some?
                   && !(0 <= body.answers[k].selectedOption.value <= 3))
             || (body.durationSeconds.Some? && body.durationSeconds.value < 0)
    ensures !NodePayloadValid(body)
    ensures var o := NodeSubmit(db, userId, Numeric(examId), body, now);
      o.response == Failure(InvalidPayload) && o.submissions == db.submissions
  {
    if exists k :: 0 <= k < |body.answers| && body.answers[k].selectedOption.Some?
                   && !(0 <= body.answers[k].selectedOption.value <= 3) {
      var k :| 0 <= k < |body.answers| && body.answers[k].selectedOption.Some?
               && !(0 <= body.answers[k].selectedOption.value <= 3);
      assert !OptionAccepted(body.answers[k].selectedOption);
    }
  }

  /** The Node schema keeps every selection within 0..3, so within an `int`. */
  lemma ValidSelectionsFitInt(body: SubmitBody)
    requires NodePayloadValid(body)
    ensures SelectionsFitInt(body.answers)
  {
    forall i | 0 <= i < |body.answers| && body.answers[i].selectedOption.Some?
      ensures InJavaIntRange(body.answers[i].selectedOption.value)
    {
      assert OptionAccepted(body.answers[i].selectedOption);
    }
  }

  /** When every answer names a question of the exam and the payload passes the
      Node schema, the two backends respond alike and leave the same table. */
  lemma BackendsAgreeOnPoolAnswers(db: Db, userId: UserId, examId: ExamId, body: SubmitBody, now: Timestamp)
    requires NodePayloadValid(body) && |body.answers| > 0
    requires JavaDurationBinds(body.durationSeconds)
    requires forall i :: 0 <= i < |body.answers| ==> body.answers[i].questionId in PoolOf(db.questions, examId)
    ensures NodeSubmit(db, userId, Numeric(examId), body, now)
         == JavaSubmit(db, userId, examId, body.answers, body.durationSeconds, now)
  {
    ValidSelectionsFitInt(body);
    JavaRuleIsReferenceRule(body.answers, db.questions, examId);
    var n := NodeSubmit(db, userId, Numeric(examId), body, now);
    var j := JavaSubmit(db, userId, examId, body.answers, body.durationSeconds, now);
    var rn := n.response.value;
    var rj := j.response.value;
    RoundingUnique(rn.score, rn.total, rn.percentage, rj.percentage);
    assert rn == rj;
  }

  /** An empty answer list: Node rejects it and writes nothing, while Java scores
      it as 0 of 0 with percentage 0 and writes that row. */
  lemma EmptyAnswersDiverge(db: Db, userId: UserId, examId: ExamId, duration: Option<int>, now: Timestamp)
    requires duration.None? || duration.value >= 0
    ensures var n := NodeSubmit(db, userId, Numeric(examId), SubmitBody([], duration), now);
      n.response == Failure(NoAnswers) && n.submissions == db.submissions
    ensures !JavaDurationBinds(duration) ==>
      JavaSubmit(db, userId, examId, [], duration, now).response == Failure(InvalidPayload)
    ensures var j := JavaSubmit(db, userId, examId, [], duration, now);
      JavaDurationBinds(duration) ==>
      && j.response == Success(ScoreReport(0, 0, 0))
      && (userId, examId) in j.submissions
      && j.submissions[(userId, examId)].totalQuestions == 0
  {
    var j := JavaSubmit(db, userId, examId, [], duration, now);
    assert JavaPointIndices([], db.questions, examId) == {};
  }

  /** An answer naming a question outside the exam: Node still scores the request
      (that answer earns nothing), while Java fails and leaves the table as it was. */
  lemma ForeignQuestionDiverges(db: Db, userId: UserId, examId: ExamId, body: SubmitBody, now: Timestamp, k: nat)
    requires NodePayloadValid(body)
    requires k < |body.answers| && body.answers[k].questionId !in PoolOf(db.questions, examId)
    ensures var n := NodeSubmit(db, userId, Numeric(examId), body, now);
      n.response.Success? && k !in PointIndices(body.answers, db.questions, examId)
    ensures var j := JavaSubmit(db, userId, examId, body.answers, body.durationSeconds, now);
      && j.response.Failure? && j.submissions == db.submissions
      && (JavaDurationBinds(body.durationSeconds) ==> j.response.error == QuestionNotFound)
  {
  }

  /** A resubmission leaves one row for the pair, holding only the second call's
      values: the table is as if the first call had never happened. */
  lemma ResubmissionOverwrites(db: Db, userId: UserId, examId: ExamId, first: SubmitBody, second: SubmitBody, t1: Timestamp, t2: Timestamp)
    requires NodePayloadValid(first) && |first.answers| > 0
    requires NodePayloadValid(second) && |second.answers| > 0
    ensures var o1 := NodeSubmit(db, userId, Numeric(examId), first, t1);
      var o2 := NodeSubmit(db.(submissions := o1.submissions), userId, Numeric(examId), second, t2);
      && o2.submissions == NodeSubmit(db, userId, Numeric(examId), second, t2).submissions
      && |o2.submissions| == |o1.submissions|
      && o2.submissions[(userId, examId)] == RowOf(o2.response.value, NodeDuration(second), t2)
  {
    var o1 := NodeSubmit(db, userId, Numeric(examId), first, t1);
    var o2 := NodeSubmit(db.(submissions := o1.submissions), userId, Numeric(examId), second, t2);
    var direct := NodeSubmit(db, userId, Numeric(examId), second, t2);
    assert o2.response == direct.response;
    assert o2.submissions == direct.submissions;
    UpsertRowCount(o1.submissions, (userId, examId), RowOf(o2.response.value, NodeDuration(second), t2));
  }

  /** Submitting the same payload twice at the same instant stores the same table
      as submitting it once. */
  lemma ResubmissionIdempotent(db: Db, userId: UserId, path: PathId, body: SubmitBody, now: Timestamp)
    ensures var o1 := NodeSubmit(db, userId, path, body, now);
      NodeSubmit(db.(submissions := o1.submissions), userId, path, body, now) == o1
  {
    var o1 := NodeSubmit(db, userId, path, body, now);
    var o2 := NodeSubmit(db.(submissions := o1.submissions), userId, path, body, now);
    if o1.response.Success? {
      assert o2.response == o1.response;
      assert o2.submissions == o1.submissions;
    }
  }

  /** A pool of two questions: question 1 has correct option 1, question 2 has
      correct option 2. */
  function TwoQuestionDb(): Db
  {
    Db(map[7 := Exam("Sample", "CS", 30, 2)],
       map[1 := QuestionRow(7, "Q1", "a", "b", "c", "d", 1),
           2 := QuestionRow(7, "Q2", "a", "b", "c", "d", 2)],
       map[])
  }

  /** One right and one wrong answer over two questions scores 1 of 2, i.e. 50%. */
  lemma OneOfTwoScoresFifty(userId: UserId, now: Timestamp)
    ensures NodeSubmit(TwoQuestionDb(), userId, Numeric(7),
                       SubmitBody([Answer(1, Some(1)), Answer(2, Some(0))], Some(120)), now).response
         == Success(ScoreReport(1, 50, 2))
  {
    var answers := [Answer(1, Some(1)), Answer(2, Some(0))];
    var db := TwoQuestionDb();
    var body := SubmitBody(answers, Some(120));
    assert EarnsPoint(answers[0], db.questions, 7);
    assert !EarnsPoint(answers[1], db.questions, 7);
    assert PointIndices(answers, db.questions, 7) == {0} by {
      forall i: nat | i in PointIndices(answers, db.questions, 7)
        ensures i == 0
      {
      }
    }
    var r := NodeSubmit(db, userId, Numeric(7), body, now).response.value;
    assert r.score == 1 && r.total == 2;
    RoundingUnique(1, 2, r.percentage, 50);
  }

  /** A single null selection scores 0 of 1, i.e. 0%, and is still accepted. */
  lemma NullSelectionScoresZero(userId: UserId, now: Timestamp)
    ensures NodeSubmit(TwoQuestionDb(), userId, Numeric(7),
                       SubmitBody([Answer(1, None)], None), now).response
         == Success(ScoreReport(0, 0, 1))
  {
    var answers := [Answer(1, None)];
    assert PointIndices(answers, TwoQuestionDb().questions, 7) == {};
  }

  /** `intValue()` wraps a selection of 2^32 + 1 to 1: Java awards the point for a
      question whose correct option is 1, while the Node schema rejects the
      selection outright. */
  lemma WrappedSelectionScoresOnJava(userId: UserId, now: Timestamp)
    ensures var body := SubmitBody([Answer(1, Some(0x1_0000_0001))], None);
      NodeSubmit(TwoQuestionDb(), userId, Numeric(7), body, now).response == Failure(InvalidPayload)
    ensures JavaSubmit(TwoQuestionDb(), userId, 7, [Answer(1, Some(0x1_0000_0001))], None, now).response
         == Success(ScoreReport(1, 100, 1))
  {
    var answers := [Answer(1, Some(0x1_0000_0001))];
    assert !OptionAccepted(answers[0].selectedOption);
    assert JavaInt(0x1_0000_0001) == 1;
    assert JavaEarnsPoint(answers[0], TwoQuestionDb().questions, 7);
    assert JavaPointIndices(answers, TwoQuestionDb().questions, 7) == {0} by {
      forall i: nat | i in JavaPointIndices(answers, TwoQuestionDb().questions, 7)
        ensures i == 0
      {
      }
    }
  }

  /** A duration of 2^31 seconds passes the Node schema but does not bind to a
      Java `Integer`: Node scores and writes, Java answers 400 and writes nothing. */
  lemma OversizedDurationDiverges(userId: UserId, now: Timestamp)
    ensures var n := NodeSubmit(TwoQuestionDb(), userId, Numeric(7), SubmitBody([Answer(1, Some(1))], Some(0x8000_0000)), now);
      n.response.Success? && n.submissions[(userId, 7)].durationSeconds == 0x8000_0000
    ensures var j := JavaSubmit(TwoQuestionDb(), userId, 7, [Answer(1, Some(1))], Some(0x8000_0000), now);
      j.response == Failure(InvalidPayload) && j.submissions == TwoQuestionDb().submissions
  {
  }
}
