/** How a submission shows up in the exam list afterwards. */
module Lifecycle {
  import opened Wrappers
  import opened Records
  import opened Submissions
  import opened ExamList
  import Decimal

  /** After a successful submission, the submitter's list has exactly one entry for
      the exam, marked completed with the new percentage. */
  lemma SubmissionShowsCompleted(db: Db, userId: UserId, examId: ExamId, body: SubmitBody, now: Timestamp)
    requires examId in db.exams
    requires NodePayloadValid(body) && |body.answers| > 0
    ensures var o := NodeSubmit(db, userId, Numeric(examId), body, now);
      var list := NodeListExams(db.(submissions := o.submissions), userId);
      && (exists i :: 0 <= i < |list| && list[i].id == Decimal.IntToString(examId))
      && forall i :: 0 <= i < |list| && list[i].id == Decimal.IntToString(examId) ==>
           && list[i].status == Completed
           && list[i].score == Some(o.response.value.percentage)
           && list[i].submittedAt == Some(now)
  {
    var o := NodeSubmit(db, userId, Numeric(examId), body, now);
    var db' := db.(submissions := o.submissions);
    var list := NodeListExams(db', userId);
    var ids := SortedIds(db'.exams.Keys);
    var k :| 0 <= k < |ids| && ids[k] == examId;
    assert list[k].id == Decimal.IntToString(examId);
    forall i | 0 <= i < |list| && list[i].id == Decimal.IntToString(examId)
      ensures list[i].status == Completed && list[i].score == Some(o.response.value.percentage)
      ensures list[i].submittedAt == Some(now)
    {
      Decimal.IntToStringInjective(ids[i], examId);
    }
  }

  /** A submission changes no other user's list, whatever its outcome. */
  lemma OtherUsersListsUnchanged(db: Db, userId: UserId, other: UserId, path: PathId, body: SubmitBody, now: Timestamp)
    requires other != userId
    ensures var o := NodeSubmit(db, userId, path, body, now);
      NodeListExams(db.(submissions := o.submissions), other) == NodeListExams(db, other)
  {
    var o := NodeSubmit(db, userId, path, body, now);
    var db' := db.(submissions := o.submissions);
    if o.response.Failure? {
      assert db' == db;
    } else {
      var before := NodeListExams(db, other);
      var after := NodeListExams(db', other);
      var ids := SortedIds(db.exams.Keys);
      forall i | 0 <= i < |after|
        ensures after[i] == before[i]
      {
        EntryReadsOwnRow(db, db', other, ids[i]);
      }
    }
  }

  /** An entry depends only on the exam row and the caller's own submission row. */
  lemma EntryReadsOwnRow(db: Db, db': Db, userId: UserId, examId: ExamId)
    requires examId in db.exams && db'.exams == db.exams
    requires ((userId, examId) in db.submissions <==> (userId, examId) in db'.submissions)
    requires (userId, examId) in db.submissions ==> db.submissions[(userId, examId)] == db'.submissions[(userId, examId)]
    ensures NodeEntry(db', userId, examId) == NodeEntry(db, userId, examId)
  {
  }
}
