/** What the exam page derives from its session state: the countdown text, the
    palette, the submit dialog's count and the local score of the result view. */
module SessionView {
  import opened Session
  import Sets
  import Decimal
  import Scoring

  /** `String(n).padStart(2, "0")`. */
  function TwoDigits(n: nat): (s: string)
    ensures Decimal.IsDigits(s) && Decimal.ParseDigits(s) == n
    ensures |s| >= 2
    ensures n < 100 ==> |s| == 2
  {
    Decimal.ZeroPaddingKeepsValue(Decimal.NatToString(n), 2);
    Decimal.PadStart(Decimal.NatToString(n), 2, '0')
  }

  /** The header clock, `MM:SS`: whole minutes left, then the remaining seconds. */
  function ClockText(timeLeft: nat): (text: string)
    ensures |text| >= 5 && text[|text| - 3] == ':'
    ensures timeLeft < 6000 ==> |text| == 5
  {
    TwoDigits(timeLeft / 60) + ":" + TwoDigits(timeLeft % 60)
  }

  /** The clock shows exactly the remaining time: the digits before the colon are
      the whole minutes, the two after it the seconds below 60, and together they
      give back `timeLeft`. */
  lemma ClockRoundTrip(timeLeft: nat)
    ensures var text := ClockText(timeLeft);
      var minutes, seconds := text[..|text| - 3], text[|text| - 2..];
      && Decimal.IsDigits(minutes) && Decimal.IsDigits(seconds)
      && Decimal.ParseDigits(seconds) < 60
      && 60 * Decimal.ParseDigits(minutes) + Decimal.ParseDigits(seconds) == timeLeft
  {
    var mm, ss := TwoDigits(timeLeft / 60), TwoDigits(timeLeft % 60);
    var text := ClockText(timeLeft);
    assert text == mm + ":" + ss;
    assert text[..|text| - 3] == mm;
    assert text[|text| - 2..] == ss;
  }

  /** The colour class of one palette button. */
  datatype Cell = CurrentCell | AnsweredCell | FlaggedCell | NotVisitedCell

  /** Palette priority: on screen, then answered, then flagged, else neither. */
  function PaletteCell(s: State, i: int): (c: Cell)
    ensures c == CurrentCell <==> i == s.current
    ensures c == AnsweredCell <==> i != s.current && i in s.answers
    ensures c == FlaggedCell <==> i != s.current && i !in s.answers && i in s.flagged
    ensures c == NotVisitedCell <==> i != s.current && i !in s.answers && i !in s.flagged
  {
    if s.current == i then CurrentCell
    else if i in s.answers then AnsweredCell
    else if i in s.flagged then FlaggedCell
    else NotVisitedCell
  }

  /** The palette: one button per question. */
  function Palette(s: State): (cells: seq<Cell>)
    ensures |cells| == QuestionCount
  {
    seq(QuestionCount, i requires 0 <= i < QuestionCount => PaletteCell(s, i))
  }

  /** Exactly one button is highlighted as the question on screen; every other
      answered question shows as answered, flagged or not. */
  lemma PaletteMarksOneCurrent(s: State)
    requires Valid(s)
    ensures Palette(s)[s.current] == CurrentCell
    ensures forall i :: 0 <= i < QuestionCount && i != s.current ==> Palette(s)[i] != CurrentCell
    ensures forall i :: 0 <= i < QuestionCount && i != s.current ==>
      (Palette(s)[i] == AnsweredCell <==> i in s.answers)
  {
  }

  /** Below the current and answered classes, a button shows as flagged exactly
      when its question is flagged, and as not visited otherwise: a question that
      was visited but neither answered nor flagged still shows as not visited. */
  lemma PaletteFlaggedOrNotVisited(s: State, i: int)
    requires 0 <= i < QuestionCount && i != s.current && i !in s.answers
    ensures Palette(s)[i] == FlaggedCell <==> i in s.flagged
    ensures Palette(s)[i] == NotVisitedCell <==> i !in s.flagged
    ensures Palette(s)[i] == FlaggedCell || Palette(s)[i] == NotVisitedCell
  {
  }

  /** Flagging the question on screen and moving on leaves its button flagged,
      unless it is answered. */
  lemma FlagThenNextShowsFlagged(s: State)
    requires Valid(s) && !s.submitted
    requires s.current < QuestionCount - 1 && s.current !in s.answers && s.current !in s.flagged
    ensures var r := Run(s, [FlagCurrent, Next]);
      Palette(r)[s.current] == FlaggedCell && r.current == s.current + 1
  {
    var a := Step(s, FlagCurrent);
    var b := Step(a, Next);
    assert Run(s, [FlagCurrent, Next]) == Run(a, [Next]);
    assert Run(a, [Next]) == Run(b, []);
  }

  /** Choosing an option and moving on leaves that question's button answered. */
  lemma AnsweredThenNextShowsAnswered(s: State, option: int)
    requires Valid(s) && !s.submitted
    requires s.current < QuestionCount - 1 && 0 <= option < OptionCount
    ensures var r := Run(s, [ChooseOption(option), Next]);
      Palette(r)[s.current] == AnsweredCell && r.current == s.current + 1
  {
    var a := Step(s, ChooseOption(option));
    var b := Step(a, Next);
    assert Run(s, [ChooseOption(option), Next]) == Run(a, [Next]);
    assert Run(a, [Next]) == Run(b, []);
  }

  /** The count the submit dialog reports: `Object.keys(answers).length`. It never
      exceeds the number of questions. */
  function AnsweredCount(s: State): (n: nat)
    ensures n == |s.answers|
    ensures Valid(s) ==> n <= QuestionCount
  {
    ShortIffMissing(s.answers.Keys, QuestionCount);
    |s.answers.Keys|
  }

  /** The dialog adds its warning when fewer than all questions are answered, that
      is, exactly when some question has no answer. */
  function ShowsUnansweredWarning(s: State): (w: bool)
    ensures Valid(s) ==> (w <==> exists i :: 0 <= i < QuestionCount && i !in s.answers)
  {
    ShortIffMissing(s.answers.Keys, QuestionCount);
    AnsweredCount(s) < QuestionCount
  }

  function Indices(n: nat): (r: set<int>)
    ensures |r| == n
    ensures forall i :: i in r <==> 0 <= i < n
  {
    if n == 0 then {}
    else
      var r := Indices(n - 1) + {n - 1};
      assert n - 1 !in Indices(n - 1);
      r
  }

  /** A set of indices below `n` has fewer than `n` members exactly when it misses
      one of them. */
  lemma ShortIffMissing(keys: set<int>, n: nat)
    ensures (forall k :: k in keys ==> 0 <= k < n) ==>
      && |keys| <= n
      && (|keys| < n <==> exists i :: 0 <= i < n && i !in keys)
  {
    if !(forall k :: k in keys ==> 0 <= k < n) {
      return;
    }
    var all := Indices(n);
    assert keys <= all;
    Sets.SubsetNoLarger(keys, all);
    if exists i :: 0 <= i < n && i !in keys {
      var i :| 0 <= i < n && i !in keys;
      assert keys <= all - {i};
      Sets.SubsetNoLarger(keys, all - {i});
    } else {
      assert all <= keys;
      assert keys == all;
    }
  }

  /** The warning appears iff some question has no answer, and the count never
      exceeds the number of questions. */
  lemma WarningIffSomeUnanswered(s: State)
    requires Valid(s)
    ensures AnsweredCount(s) <= QuestionCount
    ensures ShowsUnansweredWarning(s) <==> exists i :: 0 <= i < QuestionCount && i !in s.answers
  {
  }

  /** Answering a question that had no answer raises the dialog's count by one. */
  lemma AnsweringNewQuestionCountsOne(s: State, option: int)
    requires Valid(s) && !s.submitted && s.current !in s.answers && 0 <= option < OptionCount
    ensures AnsweredCount(Step(s, ChooseOption(option))) == AnsweredCount(s) + 1
  {
    var r := Step(s, ChooseOption(option));
    assert r.answers.Keys == s.answers.Keys + {s.current};
  }

  /** The indices whose answer matches the correct option. */
  function MatchingIndices(answers: map<int, int>, correct: seq<int>): set<int>
  {
    set i | 0 <= i < |correct| && i in answers && answers[i] == correct[i]
  }

  lemma MatchingSplit(answers: map<int, int>, correct: seq<int>)
    requires |correct| > 0
    ensures var last := |correct| - 1;
      MatchingIndices(answers, correct)
      == MatchingIndices(answers, correct[..last])
         + (if last in answers && answers[last] == correct[last] then {last} else {})
  {
    var last := |correct| - 1;
    var init := correct[..last];
    assert forall i :: 0 <= i < last ==> init[i] == correct[i];
  }

  /** The result view's `score`: `answers[i] === q.correct` summed over the
      questions. An unanswered index is `undefined` and never matches. */
  function LocalScore(answers: map<int, int>, correct: seq<int>): (n: nat)
    ensures n == |MatchingIndices(answers, correct)|
    ensures n <= |correct|
  {
    if |correct| == 0 then 0
    else
      var init := correct[..|correct| - 1];
      var last := |correct| - 1;
      var hit := last in answers && answers[last] == correct[last];
      MatchingSplit(answers, correct);
      LocalScore(answers, init) + if hit then 1 else 0
  }

  /** The result view's `percentage`. */
  function LocalPercentage(s: State): (p: nat)
    ensures p <= 100
  {
    Scoring.Percentage(LocalScore(s.answers, MockCorrect), QuestionCount)
  }

  /** The local score never exceeds the number of answered questions. */
  lemma ScoreAtMostAnswered(s: State)
    ensures LocalScore(s.answers, MockCorrect) <= AnsweredCount(s)
  {
    Sets.SubsetNoLarger(MatchingIndices(s.answers, MockCorrect), s.answers.Keys);
  }

  /** Choosing the correct option for an unanswered question raises the local
      score by exactly one. */
  lemma CorrectChoiceAddsOne(answers: map<int, int>, q: int)
    requires 0 <= q < |MockCorrect| && q !in answers
    ensures LocalScore(SelectAnswer(answers, q, MockCorrect[q]), MockCorrect) == LocalScore(answers, MockCorrect) + 1
  {
    var after := SelectAnswer(answers, q, MockCorrect[q]);
    assert MatchingIndices(after, MockCorrect) == MatchingIndices(answers, MockCorrect) + {q};
  }
}
