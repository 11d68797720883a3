/** The tables both backends read and write (`exams`, `exam_questions`,
    `exam_submissions`), held in memory, and the errors their handlers report. */
module Records {
  import opened Wrappers

  type UserId = int
  type ExamId = int
  type QuestionId = int
  /** A value of the database's `CURRENT_TIMESTAMP`, supplied by the caller. */
  type Timestamp = int

  /** A row of `exams`. */
  datatype Exam = Exam(title: string, subject: string, durationMinutes: int, questionCount: nat)

  /** A row of `exam_questions`; the key of the row is its question id. */
  datatype QuestionRow = QuestionRow(
    examId: ExamId,
    text: string,
    optionA: string,
    optionB: string,
    optionC: string,
    optionD: string,
    correctOption: int)

  /** A row of `exam_submissions`, keyed by (user, exam). */
  datatype Submission = Submission(
    scorePercent: int,
    scoreValue: int,
    totalQuestions: int,
    durationSeconds: int,
    submittedAt: Timestamp)

  /** The unique key (user_id, exam_id) of `exam_submissions` makes the table a map:
      there is at most one row per key by construction. */
  type SubmissionTable = map<(UserId, ExamId), Submission>

  datatype Db = Db(
    exams: map<ExamId, Exam>,
    questions: map<QuestionId, QuestionRow>,
    submissions: SubmissionTable)

  /** An exam id taken from the request path: Node converts it with `Number(...)`,
      which may give NaN. */
  datatype PathId = Numeric(value: int) | NotANumber

  datatype ApiError =
    | InvalidExamId     // the path id is NaN
    | InvalidPayload    // the request body fails the schema, or a field does not bind
    | NoAnswers         // the answer list is empty
    | ExamNotFound      // no row of `exams` has the id
    | QuestionNotFound  // a per-answer correct-option lookup found no row

  /** The HTTP status the Node server answers each error with. */
  function NodeStatus(e: ApiError): (code: int)
    ensures code == 404 <==> e == ExamNotFound
    ensures code != 404 ==> code == 400
  {
    match e
    case ExamNotFound => 404
    case _ => 400
  }

  /** The Java controller turns every exception of the service into 400, so it
      never answers 404, not even for an unknown exam. */
  function JavaStatus(e: ApiError): (code: int)
    ensures code == 400
    ensures e == ExamNotFound ==> code != NodeStatus(e)
  {
    400
  }

  /** A value a Java `int` / `Integer` can hold. */
  predicate InJavaIntRange(x: int)
  {
    -0x8000_0000 <= x < 0x8000_0000
  }

  /** `((Number) v).intValue()` on an integral JSON number: Jackson reads it as an
      Integer, a Long or a BigInteger, and each of them keeps the low 32 bits as a
      two's-complement `int`. */
  function JavaInt(x: int): (r: int)
    ensures InJavaIntRange(r)
    ensures (x - r) % 0x1_0000_0000 == 0
    ensures InJavaIntRange(x) ==> r == x
  {
    (x + 0x8000_0000) % 0x1_0000_0000 - 0x8000_0000
  }

  /** The pool of an exam: the ids of its rows in `exam_questions`. */
  function PoolOf(questions: map<QuestionId, QuestionRow>, examId: ExamId): set<QuestionId>
  {
    set q | q in questions && questions[q].examId == examId
  }

  /** `SELECT correct_option FROM exam_questions WHERE exam_id = ? AND id = ?`:
      the authoritative correct option of one question within one exam. */
  function CorrectOptionOf(questions: map<QuestionId, QuestionRow>, examId: ExamId, q: QuestionId): (r: Option<int>)
    ensures r.Some? <==> q in PoolOf(questions, examId)
    ensures r.Some? ==> r.value == questions[q].correctOption
  {
    if q in questions && questions[q].examId == examId then Some(questions[q].correctOption) else None
  }
}
