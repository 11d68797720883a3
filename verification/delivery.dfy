/** Question delivery, `GET /api/exams/:id/questions` and
    `ExamService.examQuestions`: up to the exam's question count of its own
    questions in random order, without the correct option. */
module Delivery {
  import opened Wrappers
  import opened Records
  import Sets

  /** One delivered question: the correct option is not a field of it. */
  datatype QuestionView = QuestionView(id: QuestionId, question: string, options: seq<string>)

  datatype ExamHeader = ExamHeader(id: ExamId, title: string, durationMinutes: int)

  /** The response body: the exam header and the delivered questions. */
  datatype QuestionSet = QuestionSet(exam: ExamHeader, questions: seq<QuestionView>)

  predicate Distinct<T(==)>(s: seq<T>)
  {
    forall i, j :: 0 <= i < j < |s| ==> s[i] != s[j]
  }

  /** What `ORDER BY RAND()` yields over an exam's rows: every id of the pool
      exactly once, in some order. The order itself is not modelled. */
  predicate IsOrdering(order: seq<QuestionId>, pool: set<QuestionId>)
  {
    && Distinct(order)
    && (forall i :: 0 <= i < |order| ==> order[i] in pool)
    && (forall q :: q in pool ==> exists i :: 0 <= i < |order| && order[i] == q)
  }

  /** An ordering is as long as the pool it orders. */
  lemma {:induction false} OrderingLength(order: seq<QuestionId>, pool: set<QuestionId>)
    requires IsOrdering(order, pool)
    ensures |order| == |pool|
    decreases |order|
  {
    if |order| == 0 {
      assert forall q :: q !in pool;
      assert pool == {};
    } else {
      var rest := order[1..];
      var smaller := pool - {order[0]};
      assert IsOrdering(rest, smaller) by {
        forall q | q in smaller
          ensures exists i :: 0 <= i < |rest| && rest[i] == q
        {
          var k :| 0 <= k < |order| && order[k] == q;
          assert rest[k - 1] == q;
        }
      }
      OrderingLength(rest, smaller);
    }
  }

  /** Every pool has an ordering, so the database can always answer the query. */
  method SomeOrdering(pool: set<QuestionId>) returns (order: seq<QuestionId>)
    ensures IsOrdering(order, pool)
  {
    order := [];
    var rest := pool;
    while rest != {}
      invariant rest <= pool
      invariant Distinct(order)
      invariant forall i :: 0 <= i < |order| ==> order[i] in pool && order[i] !in rest
      invariant forall x :: x in pool && x !in rest ==> exists i :: 0 <= i < |order| && order[i] == x
      decreases rest
    {
      ghost var some := Sets.HasMember(rest);
      var q :| q in rest;
      var longer := order + [q];
      forall x | x in pool && x !in rest - {q}
        ensures exists i :: 0 <= i < |longer| && longer[i] == x
      {
        if x == q {
          assert longer[|order|] == x;
        } else {
          var k :| 0 <= k < |order| && order[k] == x;
          assert longer[k] == x;
        }
      }
      order := longer;
      rest := rest - {q};
    }
  }

  /** The payload entry of one row: id, text, and the four options in a, b, c, d
      order. */
  function ViewOf(id: QuestionId, row: QuestionRow): QuestionView
  {
    QuestionView(id, row.text, [row.optionA, row.optionB, row.optionC, row.optionD])
  }

  function Min(a: nat, b: nat): nat
  {
    if a <= b then a else b
  }

  /** `LIMIT count` over the ordered rows, each turned into its payload entry. */
  function Deliver(questions: map<QuestionId, QuestionRow>, examId: ExamId, count: nat, order: seq<QuestionId>)
    : (views: seq<QuestionView>)
    requires IsOrdering(order, PoolOf(questions, examId))
    ensures |views| == Min(count, |PoolOf(questions, examId)|)
    ensures forall i :: 0 <= i < |views| ==>
      && views[i].id in PoolOf(questions, examId)
      && views[i] == ViewOf(views[i].id, questions[views[i].id])
      && |views[i].options| == 4
    ensures forall i, j :: 0 <= i < j < |views| ==> views[i].id != views[j].id
    ensures |views| <= |order|
    ensures forall i :: 0 <= i < |views| ==> views[i].id == order[i]
  {
    OrderingLength(order, PoolOf(questions, examId));
    var chosen := order[..Min(count, |order|)];
    assert forall i :: 0 <= i < |chosen| ==> chosen[i] == order[i] && chosen[i] in questions;
    var views := seq(|chosen|, i requires 0 <= i < |chosen| => ViewOf(chosen[i], questions[chosen[i]]));
    views
  }

  /** When the exam asks for at least as many questions as its pool holds, every
      question of the pool is delivered. */
  lemma WholePoolDelivered(questions: map<QuestionId, QuestionRow>, examId: ExamId, count: nat, order: seq<QuestionId>)
    requires IsOrdering(order, PoolOf(questions, examId))
    requires count >= |PoolOf(questions, examId)|
    ensures var views := Deliver(questions, examId, count, order);
      forall q :: q in PoolOf(questions, examId) <==> exists i :: 0 <= i < |views| && views[i].id == q
  {
    var views := Deliver(questions, examId, count, order);
    OrderingLength(order, PoolOf(questions, examId));
    forall q | q in PoolOf(questions, examId)
      ensures exists i :: 0 <= i < |views| && views[i].id == q
    {
      var k :| 0 <= k < |order| && order[k] == q;
      assert views[k].id == q;
    }
  }

  /** GET /api/exams/:id/questions on the Node server; `order` is what the
      database's random ordering returned for the exam's pool. */
  function NodeQuestions(db: Db, path: PathId, order: seq<QuestionId>): (r: Result<QuestionSet, ApiError>)
    requires path.Numeric? ==> IsOrdering(order, PoolOf(db.questions, path.value))
    ensures path.NotANumber? ==> r == Failure(InvalidExamId)
    ensures path.Numeric? && path.value !in db.exams ==> r == Failure(ExamNotFound)
    ensures r.Success? <==> path.Numeric? && path.value in db.exams
    ensures r.Success? ==>
      var exam := db.exams[path.value];
      && r.value.exam == ExamHeader(path.value, exam.title, exam.durationMinutes)
      && r.value.questions == Deliver(db.questions, path.value, exam.questionCount, order)
  {
    if path.NotANumber? then Failure(InvalidExamId)
    else if path.value !in db.exams then Failure(ExamNotFound)
    else
      var exam := db.exams[path.value];
      Success(QuestionSet(ExamHeader(path.value, exam.title, exam.durationMinutes),
                          Deliver(db.questions, path.value, exam.questionCount, order)))
  }

  /** `ExamService.examQuestions`: `queryForMap` throws when the exam is missing. */
  function JavaQuestions(db: Db, examId: ExamId, order: seq<QuestionId>): (r: Result<QuestionSet, ApiError>)
    requires IsOrdering(order, PoolOf(db.questions, examId))
    ensures r.Failure? <==> examId !in db.exams
    ensures r.Failure? ==> r.error == ExamNotFound
    ensures r.Success? ==>
      var exam := db.exams[examId];
      && r.value.exam == ExamHeader(examId, exam.title, exam.durationMinutes)
      && r.value.questions == Deliver(db.questions, examId, exam.questionCount, order)
  {
    if examId !in db.exams then Failure(ExamNotFound)
    else
      var exam := db.exams[examId];
      Success(QuestionSet(ExamHeader(examId, exam.title, exam.durationMinutes),
                          Deliver(db.questions, examId, exam.questionCount, order)))
  }

  /** For a known exam the two servers deliver the same questions; for an unknown
      one Node answers 404 and Java 400. */
  lemma BackendsDeliverAlike(db: Db, examId: ExamId, order: seq<QuestionId>)
    requires IsOrdering(order, PoolOf(db.questions, examId))
    ensures examId in db.exams ==> NodeQuestions(db, Numeric(examId), order) == JavaQuestions(db, examId, order)
    ensures examId !in db.exams ==>
      && NodeStatus(NodeQuestions(db, Numeric(examId), order).error) == 404
      && JavaStatus(JavaQuestions(db, examId, order).error) == 400
  {
  }
}
