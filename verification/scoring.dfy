/** Scoring shared by the two backends and the exam page: the per-answer award
    rule of each backend, the count of awarded answers, and the rounded
    percentage. */
module Scoring {
  import opened Wrappers
  import opened Records

  /** One submitted answer: a question id and a selected option. `None` is a JSON
      `null` selection; an omitted `selectedOption`, which the Node schema rejects
      and Java reads as null, has no representation here. */
  datatype Answer = Answer(questionId: QuestionId, selectedOption: Option<int>)

  /** `Math.round(score / total * 100)` on exact rationals: the integer nearest to
      100 * score / total, halves rounded up. */
  function Percentage(score: nat, total: nat): (p: nat)
    requires 0 < total && score <= total
    ensures p <= 100
    ensures 2 * total * p <= 200 * score + total < 2 * total * (p + 1)
    ensures score == 0 ==> p == 0
    ensures score == total ==> p == 100
  {
    RoundedQuotient(score, total);
    (200 * score + total) / (2 * total)
  }

  /** The facts `Percentage` promises, proved of its quotient. */
  lemma RoundedQuotient(score: nat, total: nat)
    requires 0 < total && score <= total
    ensures var p := (200 * score + total) / (2 * total);
      && p <= 100
      && 2 * total * p <= 200 * score + total < 2 * total * (p + 1)
      && (score == 0 ==> p == 0)
      && (score == total ==> p == 100)
  {
    var p := (200 * score + total) / (2 * total);
    DivBounds(200 * score + total, 2 * total);
    assert 200 * score + total < 2 * total * 101 by {
      assert 200 * score <= 200 * total;
    }
    if p > 100 {
      MultiplyMonotone(2 * total, 101, p);
    }
    if score == 0 && p >= 1 {
      MultiplyMonotone(2 * total, 1, p);
    }
    if score == total && p < 100 {
      MultiplyMonotone(2 * total, p + 1, 100);
    }
  }

  lemma DivBounds(x: nat, d: nat)
    requires 0 < d
    ensures d * (x / d) <= x < d * (x / d + 1)
  {
  }

  lemma MultiplyMonotone(k: nat, a: nat, b: nat)
    requires a <= b
    ensures k * a <= k * b
  {
  }

  /** A larger score never gives a smaller percentage over the same total. */
  lemma PercentageMonotone(s1: nat, s2: nat, total: nat)
    requires 0 < total && s1 <= s2 <= total
    ensures Percentage(s1, total) <= Percentage(s2, total)
  {
    var p1 := Percentage(s1, total);
    var p2 := Percentage(s2, total);
    assert 2 * total * p1 < 2 * total * (p2 + 1);
    CancelFactor(2 * total, p1, p2 + 1);
  }

  lemma CancelFactor(k: nat, a: nat, b: nat)
    requires k * a < k * b
    ensures a < b
  {
    if a >= b {
      MultiplyMonotone(k, b, a);
    }
  }

  /** Node: `correctMap.get(questionId) === selectedOption`. A missing id gives
      `undefined`, which equals neither null nor a number. */
  predicate NodeAwards(a: Answer, correctMap: map<QuestionId, int>)
  {
    a.questionId in correctMap && a.selectedOption == Some(correctMap[a.questionId])
  }

  /** Java: `selected != null && selected.equals(correct)`, where `selected` is the
      JSON number narrowed to an `int` by `intValue()`. */
  predicate JavaAwards(selected: Option<int>, correct: int)
  {
    selected.Some? && JavaInt(selected.value) == correct
  }

  /** The reference rule: an answer earns a point iff its question belongs to the
      exam and the selection is that question's correct option. */
  predicate EarnsPoint(a: Answer, questions: map<QuestionId, QuestionRow>, examId: ExamId)
  {
    a.questionId in PoolOf(questions, examId)
    && a.selectedOption == Some(questions[a.questionId].correctOption)
  }

  /** The indices of the answers that earn a point. */
  function PointIndices(answers: seq<Answer>, questions: map<QuestionId, QuestionRow>, examId: ExamId): set<nat>
  {
    set i: nat | i < |answers| && EarnsPoint(answers[i], questions, examId)
  }

  /** The Java rule against the stored rows: the question belongs to the exam and
      the narrowed selection is its correct option. */
  predicate JavaEarnsPoint(a: Answer, questions: map<QuestionId, QuestionRow>, examId: ExamId)
  {
    a.questionId in PoolOf(questions, examId)
    && JavaAwards(a.selectedOption, questions[a.questionId].correctOption)
  }

  /** The indices of the answers the Java service awards a point. */
  function JavaPointIndices(answers: seq<Answer>, questions: map<QuestionId, QuestionRow>, examId: ExamId): set<nat>
  {
    set i: nat | i < |answers| && JavaEarnsPoint(answers[i], questions, examId)
  }

  /** Appending one answer adds its index to the Java point indices exactly when the Java rule awards it. */
  lemma JavaPointIndicesSnoc(answers: seq<Answer>, questions: map<QuestionId, QuestionRow>, examId: ExamId)
    requires |answers| > 0
    ensures var last := |answers| - 1;
      JavaPointIndices(answers, questions, examId)
      == JavaPointIndices(answers[..last], questions, examId)
         + (if JavaEarnsPoint(answers[last], questions, examId) then {last} else {})
  {
    var last := |answers| - 1;
    var init := answers[..last];
    assert forall i :: 0 <= i < |init| ==> init[i] == answers[i];
  }

  /** Selections a Java `int` holds unchanged. */
  predicate SelectionsFitInt(answers: seq<Answer>)
  {
    forall i :: 0 <= i < |answers| && answers[i].selectedOption.Some? ==>
      InJavaIntRange(answers[i].selectedOption.value)
  }

  /** When every selection fits an `int`, the Java rule is the reference rule;
      a selection that wraps around can earn a point the reference denies. */
  lemma JavaRuleIsReferenceRule(answers: seq<Answer>, questions: map<QuestionId, QuestionRow>, examId: ExamId)
    requires SelectionsFitInt(answers)
    ensures JavaPointIndices(answers, questions, examId) == PointIndices(answers, questions, examId)
  {
    forall i | 0 <= i < |answers|
      ensures JavaEarnsPoint(answers[i], questions, examId) <==> EarnsPoint(answers[i], questions, examId)
    {
      if answers[i].selectedOption.Some? {
        assert InJavaIntRange(answers[i].selectedOption.value);
      }
    }
  }

  /** The number of answers the Node server awards a point against `correctMap`. */
  function NodeCount(answers: seq<Answer>, correctMap: map<QuestionId, int>): (n: nat)
    ensures n <= |answers|
    ensures n == |set i: nat | i < |answers| && NodeAwards(answers[i], correctMap)|
  {
    if |answers| == 0 then 0
    else
      var init := answers[..|answers| - 1];
      var last := |answers| - 1;
      var before := set i: nat | i < |init| && NodeAwards(init[i], correctMap);
      var all := set i: nat | i < |answers| && NodeAwards(answers[i], correctMap);
      assert all == before + (if NodeAwards(answers[last], correctMap) then {last} else {});
      NodeCount(init, correctMap) + (if NodeAwards(answers[last], correctMap) then 1 else 0)
  }

  /** The Java service's loop: one lookup per answer, and the first lookup that
      finds no row aborts the whole request with no score. */
  function JavaTally(answers: seq<Answer>, questions: map<QuestionId, QuestionRow>, examId: ExamId): (r: Result<nat, ApiError>)
    ensures r.Failure? <==> exists i :: 0 <= i < |answers| && answers[i].questionId !in PoolOf(questions, examId)
    ensures r.Failure? ==> r.error == QuestionNotFound
    ensures r.Success? ==> r.value == |JavaPointIndices(answers, questions, examId)| <= |answers|
  {
    if |answers| == 0 then Success(0)
    else
      var init := answers[..|answers| - 1];
      var last := |answers| - 1;
      var prior := JavaTally(init, questions, examId);
      assert forall i :: 0 <= i < |init| ==> init[i] == answers[i];
      if prior.Failure? then prior
      else match CorrectOptionOf(questions, examId, answers[last].questionId)
        case None => Failure(QuestionNotFound)
        case Some(correct) =>
          JavaPointIndicesSnoc(answers, questions, examId);
          Success(prior.value + if JavaAwards(answers[last].selectedOption, correct) then 1 else 0)
  }

  /** The Node server's `for (const ans of answers)` loop over the answers, proved
      to compute `NodeCount`; the submission model uses the function. */
  method NodeScoreLoop(answers: seq<Answer>, correctMap: map<QuestionId, int>) returns (score: nat)
    ensures score == NodeCount(answers, correctMap)
    ensures score <= |answers|
  {
    score := 0;
    for i := 0 to |answers|
      invariant score == NodeCount(answers[..i], correctMap)
    {
      assert answers[..i + 1][..i] == answers[..i];
      if NodeAwards(answers[i], correctMap) {
        score := score + 1;
      }
    }
    assert answers[..|answers|] == answers;
  }

  /** The Java service's `for (var ans : answers)` loop: a lookup that finds no
      row throws, which ends the request before anything is written. Proved to
      compute `JavaTally`; the submission model uses the function. */
  method JavaScoreLoop(answers: seq<Answer>, questions: map<QuestionId, QuestionRow>, examId: ExamId)
    returns (r: Result<nat, ApiError>)
    ensures r == JavaTally(answers, questions, examId)
  {
    var score := 0;
    for i := 0 to |answers|
      invariant JavaTally(answers[..i], questions, examId) == Success(score)
    {
      assert answers[..i + 1][..i] == answers[..i];
      var correct := CorrectOptionOf(questions, examId, answers[i].questionId);
      if correct.None? {
        assert answers[i].questionId !in PoolOf(questions, examId);
        return Failure(QuestionNotFound);
      }
      if JavaAwards(answers[i].selectedOption, correct.value) {
        score := score + 1;
      }
    }
    assert answers[..|answers|] == answers;
    r := Success(score);
  }
}
