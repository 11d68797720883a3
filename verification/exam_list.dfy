/** The exam list, `GET /api/exams` and `ExamService.listExams`: every exam,
    ordered by id, with the caller's submission status read from
    `exam_submissions`. */
module ExamList {
  import opened Wrappers
  import opened Records
  import Decimal
  import Sets

  datatype Status = Available | Completed

  /** One entry of the list. `score == None` is an exam the caller has not
      completed: Node omits the key (`?? undefined`), Java sends `"score": null`.
      `submittedAt == None` is an omitted key; the Java backend never reports it. */
  datatype ExamListing = ExamListing(
    id: string,
    title: string,
    subject: string,
    duration: int,
    questions: nat,
    status: Status,
    score: Option<int>,
    submittedAt: Option<Timestamp>)

  lemma {:induction false} MinExists(s: set<ExamId>)
    requires s != {}
    ensures exists m :: m in s && forall x :: x in s ==> m <= x
    decreases |s|
  {
    var y := Sets.HasMember(s);
    if !forall x :: x in s ==> y <= x {
      var z :| z in s && z < y;
      assert z in s - {y};
      MinExists(s - {y});
      var m :| m in s - {y} && forall x :: x in s - {y} ==> m <= x;
      forall x | x in s
        ensures m <= x
      {
        if x != y {
          assert x in s - {y};
        }
      }
    }
  }

  /** The smallest id of a non-empty set. */
  function MinOf(s: set<ExamId>): (m: ExamId)
    requires s != {}
    ensures m in s
    ensures forall x :: x in s ==> m <= x
  {
    MinExists(s);
    var m :| m in s && forall x :: x in s ==> m <= x;
    m
  }

  /** `r` lists the members of `s` in strictly increasing order. */
  predicate ListsInOrder(r: seq<ExamId>, s: set<ExamId>)
  {
    && |r| == |s|
    && (forall i :: 0 <= i < |r| ==> r[i] in s)
    && (forall x :: x in s ==> exists i :: 0 <= i < |r| && r[i] == x)
    && (forall i, j :: 0 <= i < j < |r| ==> r[i] < r[j])
  }

  /** Putting the minimum in front of the ordered rest orders the whole set. */
  lemma PrependMin(s: set<ExamId>, m: ExamId, rest: seq<ExamId>)
    requires m in s && forall x :: x in s ==> m <= x
    requires ListsInOrder(rest, s - {m})
    ensures ListsInOrder([m] + rest, s)
  {
    assert |s - {m}| == |s| - 1;
    PrependCovers(s, m, rest);
    PrependIncreasing(s, m, rest);
  }

  lemma PrependCovers(s: set<ExamId>, m: ExamId, rest: seq<ExamId>)
    requires m in s
    requires ListsInOrder(rest, s - {m})
    ensures forall i :: 0 <= i < |[m] + rest| ==> ([m] + rest)[i] in s
    ensures forall x :: x in s ==> exists i :: 0 <= i < |[m] + rest| && ([m] + rest)[i] == x
  {
    var r := [m] + rest;
    assert forall i :: 1 <= i < |r| ==> r[i] == rest[i - 1];
    forall x | x in s
      ensures exists i :: 0 <= i < |r| && r[i] == x
    {
      if x == m {
        assert r[0] == x;
      } else {
        assert x in s - {m};
        var k :| 0 <= k < |rest| && rest[k] == x;
        assert r[k + 1] == x;
      }
    }
  }

  lemma PrependIncreasing(s: set<ExamId>, m: ExamId, rest: seq<ExamId>)
    requires forall x :: x in s ==> m <= x
    requires ListsInOrder(rest, s - {m})
    ensures forall i, j :: 0 <= i < j < |[m] + rest| ==> ([m] + rest)[i] < ([m] + rest)[j]
  {
    var r := [m] + rest;
    forall i, j | 0 <= i < j < |r|
      ensures r[i] < r[j]
    {
      assert r[j] == rest[j - 1];
      assert rest[j - 1] in s - {m};
      if i > 0 {
        assert r[i] == rest[i - 1];
      }
    }
  }

  /** `ORDER BY e.id`: the ids of a set in strictly increasing order. */
  function SortedIds(s: set<ExamId>): (r: seq<ExamId>)
    ensures ListsInOrder(r, s)
    decreases |s|
  {
    if s == {} then []
    else
      var m := MinOf(s);
      var rest := SortedIds(s - {m});
      PrependMin(s, m, rest);
      [m] + rest
  }

  /** One row of the Node list: `status` is "completed" iff the caller has a
      submission row for the exam, and `score` and `submittedAt` mirror that row. */
  function NodeEntry(db: Db, userId: UserId, examId: ExamId): (r: ExamListing)
    requires examId in db.exams
    ensures r.status == Completed <==> (userId, examId) in db.submissions
    ensures r.score.Some? <==> r.status == Completed
    ensures r.status == Completed ==> r.score.value == db.submissions[(userId, examId)].scorePercent
    ensures r.submittedAt.Some? <==> r.status == Completed
    ensures r.status == Completed ==> r.submittedAt.value == db.submissions[(userId, examId)].submittedAt
    // `String(row.id)`: the id is the decimal text of the exam id
    ensures r.id == Decimal.IntToString(examId)
  {
    var e := db.exams[examId];
    var key := (userId, examId);
    ExamListing(
      Decimal.IntToString(examId), e.title, e.subject, e.durationMinutes, e.questionCount,
      if key in db.submissions then Completed else Available,
      if key in db.submissions then Some(db.submissions[key].scorePercent) else None,
      if key in db.submissions then Some(db.submissions[key].submittedAt) else None)
  }

  /** The Node list: one entry per exam, in id order. */
  function NodeListExams(db: Db, userId: UserId): (r: seq<ExamListing>)
    ensures |r| == |db.exams|
    ensures forall i :: 0 <= i < |r| ==> r[i] == NodeEntry(db, userId, SortedIds(db.exams.Keys)[i])
  {
    var ids := SortedIds(db.exams.Keys);
    seq(|ids|, i requires 0 <= i < |ids| => NodeEntry(db, userId, ids[i]))
  }

  /** The Java list: the same entries without `submittedAt`. */
  function JavaListExams(db: Db, userId: UserId): (r: seq<ExamListing>)
    ensures |r| == |db.exams|
    ensures forall i :: 0 <= i < |r| ==> r[i].submittedAt.None?
  {
    var ids := SortedIds(db.exams.Keys);
    seq(|ids|, i requires 0 <= i < |ids| => NodeEntry(db, userId, ids[i]).(submittedAt := None))
  }

  /** The two lists differ only in the timestamp the Java backend leaves out. */
  lemma ListsAgreeButTimestamp(db: Db, userId: UserId)
    ensures |JavaListExams(db, userId)| == |NodeListExams(db, userId)|
    ensures forall i :: 0 <= i < |JavaListExams(db, userId)| ==>
      JavaListExams(db, userId)[i] == NodeListExams(db, userId)[i].(submittedAt := None)
  {
  }

  /** No two entries of a list carry the same id. */
  lemma ListedIdsDistinct(db: Db, userId: UserId)
    ensures var r := NodeListExams(db, userId);
      forall i, j :: 0 <= i < j < |r| ==> r[i].id != r[j].id
  {
    var r := NodeListExams(db, userId);
    var ids := SortedIds(db.exams.Keys);
    forall i, j | 0 <= i < j < |r|
      ensures r[i].id != r[j].id
    {
      if r[i].id == r[j].id {
        Decimal.IntToStringInjective(ids[i], ids[j]);
      }
    }
  }
}
