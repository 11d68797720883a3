/** The exam page's session engine: the current-question index, the answer
    map, the flag set, the countdown and the terminal `submitted` flag, driven by
    the events the page can receive. */
module Session {

  /** `EXAM_DURATION`: thirty minutes, in seconds. */
  const ExamDuration: nat := 30 * 60

  /** The correct option of each of the page's ten fixed questions, in order. */
  const MockCorrect: seq<int> := [1, 1, 0, 2, 1, 2, 1, 1, 1, 1]

  /** The number of questions on the page. */
  const QuestionCount: nat := |MockCorrect|

  /** Every fixed question offers four options. */
  const OptionCount: nat := 4

  datatype State = State(
    current: int,               // index of the question on screen
    answers: map<int, int>,     // question index -> selected option index
    flagged: set<int>,          // flagged question indices
    timeLeft: int,              // remaining seconds
    showSubmitDialog: bool,     // the confirmation dialog is open
    submitted: bool)            // terminal: only the result view renders

  /** The invariant every reachable state keeps. */
  predicate Valid(s: State)
  {
    && 0 <= s.current < QuestionCount
    && (forall q :: q in s.answers ==> 0 <= q < QuestionCount && 0 <= s.answers[q] < OptionCount)
    && (forall q :: q in s.flagged ==> 0 <= q < QuestionCount)
    && 0 <= s.timeLeft
    && (!s.submitted ==> 1 <= s.timeLeft)
    && (s.submitted ==> !s.showSubmitDialog)
  }

  /** The state on mount. */
  function Start(): (s: State)
    ensures Valid(s) && !s.submitted
    ensures s.timeLeft == ExamDuration && s.current == 0
    ensures |s.answers| == 0 && |s.flagged| == 0
  {
    State(0, map[], {}, ExamDuration, false, false)
  }

  /** `selectAnswer`: record `option` for question `q`, replacing any earlier choice. */
  function SelectAnswer(answers: map<int, int>, q: int, option: int): (r: map<int, int>)
    ensures q in r && r[q] == option
    ensures forall k :: k != q ==> (k in r <==> k in answers)
    ensures forall k :: k != q && k in answers ==> r[k] == answers[k]
  {
    answers[q := option]
  }

  /** Choosing the same option again changes nothing, and the last choice wins. */
  lemma SelectAnswerIdempotent(answers: map<int, int>, q: int, first: int, second: int)
    ensures SelectAnswer(SelectAnswer(answers, q, second), q, second) == SelectAnswer(answers, q, second)
    ensures SelectAnswer(SelectAnswer(answers, q, first), q, second) == SelectAnswer(answers, q, second)
  {
  }

  /** `toggleFlag`: flip the membership of `q` and of nothing else. */
  function ToggleFlag(flags: set<int>, q: int): (r: set<int>)
    ensures q in r <==> q !in flags
    ensures forall k :: k != q ==> (k in r <==> k in flags)
  {
    if q in flags then flags - {q} else flags + {q}
  }

  /** Toggling twice restores the flag set. */
  lemma ToggleTwiceRestores(flags: set<int>, q: int)
    ensures ToggleFlag(ToggleFlag(flags, q), q) == flags
  {
    var twice := ToggleFlag(ToggleFlag(flags, q), q);
    forall k
      ensures k in twice <==> k in flags
    {
    }
  }

  /** `handleSubmit`: the terminal transition, which also closes the dialog. */
  function Submit(s: State): (r: State)
    ensures r.submitted && !r.showSubmitDialog
    ensures r.(submitted := s.submitted, showSubmitDialog := s.showSubmitDialog) == s
  {
    s.(submitted := true, showSubmitDialog := false)
  }

  /** One firing of the one-second interval. Once submitted the interval is
      cleared, so a tick changes nothing; otherwise the count goes down by one,
      and at one second or less it becomes 0 and the page submits. */
  function Tick(s: State): (r: State)
    ensures s.submitted ==> r == s
    ensures !s.submitted ==> r.timeLeft == if s.timeLeft <= 1 then 0 else s.timeLeft - 1
    ensures !s.submitted ==> (r.submitted <==> s.timeLeft <= 1)
    ensures r.answers == s.answers && r.flagged == s.flagged && r.current == s.current
  {
    if s.submitted then s
    else if s.timeLeft <= 1 then Submit(s.(timeLeft := 0))
    else s.(timeLeft := s.timeLeft - 1)
  }

  /** What the page can receive: a click on a rendered, enabled control, or a
      timer tick. */
  datatype Event =
    | ChooseOption(option: int)   // an option button of the question on screen
    | FlagCurrent                 // the Flag button of the question on screen
    | Previous                    // disabled on the first question
    | Next                        // disabled on the last question
    | PaletteJump(index: int)     // one palette button per question
    | TimerTick
    | OpenSubmitDialog            // the header's Submit button
    | CancelSubmit                // Cancel, or dismissing the dialog
    | ConfirmSubmit               // Confirm Submit inside the open dialog

  /** One transition. A click on a control that is disabled or not rendered does
      nothing; after submission only the result view is rendered and the timer is
      gone, so nothing changes at all. */
  function Step(s: State, e: Event): (r: State)
    ensures s.submitted ==> r == s
    ensures Valid(s) ==> Valid(r)
    ensures !s.submitted ==>
      (r.submitted <==> (e == ConfirmSubmit && s.showSubmitDialog) || (e == TimerTick && s.timeLeft <= 1))
    ensures e != TimerTick ==> r.timeLeft == s.timeLeft
    ensures !e.ChooseOption? ==> r.answers == s.answers
    ensures e != FlagCurrent ==> r.flagged == s.flagged
    ensures e.ChooseOption? && 0 <= e.option < OptionCount && !s.submitted ==>
      r.answers == SelectAnswer(s.answers, s.current, e.option)
    ensures Valid(s) && (e == Previous || e == Next) ==> -1 <= r.current - s.current <= 1
    // the Flag button toggles the flag of the question on screen
    ensures e == FlagCurrent && !s.submitted ==> r.flagged == ToggleFlag(s.flagged, s.current)
    // navigation: Previous is disabled on the first question, Next on the last
    ensures e == Previous && !s.submitted ==> r.current == if s.current == 0 then 0 else s.current - 1
    ensures e == Next && !s.submitted ==>
      r.current == if s.current == QuestionCount - 1 then s.current else s.current + 1
    ensures e.PaletteJump? && 0 <= e.index < QuestionCount && !s.submitted ==> r.current == e.index
    ensures !(e == Previous || e == Next || e.PaletteJump?) ==> r.current == s.current
    // only the header button opens the dialog, and only Cancel or a submission closes it
    ensures e == OpenSubmitDialog && !s.submitted ==> r.showSubmitDialog
    ensures e == CancelSubmit && !s.submitted ==> !r.showSubmitDialog
    ensures !r.submitted && !(e == OpenSubmitDialog || e == CancelSubmit) ==> r.showSubmitDialog == s.showSubmitDialog
  {
    if s.submitted then s
    else match e
      case ChooseOption(option) =>
        if 0 <= option < OptionCount then s.(answers := SelectAnswer(s.answers, s.current, option)) else s
      case FlagCurrent => s.(flagged := ToggleFlag(s.flagged, s.current))
      case Previous => if s.current == 0 then s else s.(current := s.current - 1)
      case Next => if s.current == QuestionCount - 1 then s else s.(current := s.current + 1)
      case PaletteJump(index) => if 0 <= index < QuestionCount then s.(current := index) else s
      case TimerTick => Tick(s)
      case OpenSubmitDialog => s.(showSubmitDialog := true)
      case CancelSubmit => s.(showSubmitDialog := false)
      case ConfirmSubmit => if s.showSubmitDialog then Submit(s) else s
  }

  /** Next and then Previous returns to the same question when Next is enabled,
      and Previous and then Next when Previous is enabled. */
  lemma NavigationRoundTrip(s: State)
    requires Valid(s) && !s.submitted
    ensures s.current < QuestionCount - 1 ==> Step(Step(s, Next), Previous) == s
    ensures 0 < s.current ==> Step(Step(s, Previous), Next) == s
  {
  }

  /** The state after a sequence of events. */
  function Run(s: State, events: seq<Event>): State
    decreases |events|
  {
    if |events| == 0 then s else Run(Step(s, events[0]), events[1..])
  }

  /** Every state reachable from a valid one is valid. */
  lemma {:induction false} RunKeepsValid(s: State, events: seq<Event>)
    requires Valid(s)
    ensures Valid(Run(s, events))
    decreases |events|
  {
    if |events| > 0 {
      RunKeepsValid(Step(s, events[0]), events[1..]);
    }
  }

  /** Once submitted, no sequence of events changes anything: answers, flags,
      current question and countdown are frozen. */
  lemma {:induction false} SubmittedIsFinal(s: State, events: seq<Event>)
    requires s.submitted
    ensures Run(s, events) == s
    decreases |events|
  {
    if |events| > 0 {
      SubmittedIsFinal(Step(s, events[0]), events[1..]);
    }
  }

  /** The number of steps of a run that move the page into the submitted state. */
  function SubmitCount(s: State, events: seq<Event>): nat
    decreases |events|
  {
    if |events| == 0 then 0
    else
      var next := Step(s, events[0]);
      (if !s.submitted && next.submitted then 1 else 0) + SubmitCount(next, events[1..])
  }

  /** No run submits twice. */
  lemma {:induction false} SubmitsAtMostOnce(s: State, events: seq<Event>)
    ensures SubmitCount(s, events) <= 1
    ensures s.submitted ==> SubmitCount(s, events) == 0
    ensures SubmitCount(s, events) == 1 ==> Run(s, events).submitted
    decreases |events|
  {
    if |events| > 0 {
      var next := Step(s, events[0]);
      SubmitsAtMostOnce(next, events[1..]);
      if next.submitted {
        SubmittedIsFinal(next, events[1..]);
      }
    }
  }

  /** `k` consecutive timer ticks. */
  function Ticks(k: nat): (ts: seq<Event>)
    ensures |ts| == k
    ensures forall i :: 0 <= i < k ==> ts[i] == TimerTick
  {
    if k == 0 then [] else [TimerTick] + Ticks(k - 1)
  }

  /** From an unsubmitted state with `T` seconds left, fewer than `T` ticks only
      count down, and the `T`-th tick submits with the count at 0. */
  lemma {:induction false} CountdownSubmitsAfterExactlyT(s: State, k: nat)
    requires !s.submitted && 1 <= s.timeLeft
    requires k <= s.timeLeft
    ensures k < s.timeLeft ==> Run(s, Ticks(k)) == s.(timeLeft := s.timeLeft - k)
    ensures k == s.timeLeft ==> Run(s, Ticks(k)) == s.(timeLeft := 0, submitted := true, showSubmitDialog := false)
    ensures SubmitCount(s, Ticks(k)) == if k == s.timeLeft then 1 else 0
    decreases k
  {
    if k > 0 {
      var next := Step(s, TimerTick);
      assert Ticks(k)[1..] == Ticks(k - 1);
      if s.timeLeft == 1 {
        assert k == 1;
        assert Run(next, []) == next;
      } else {
        CountdownSubmitsAfterExactlyT(next, k - 1);
      }
    }
  }

  /** A fresh page left alone submits itself on the 1800th tick and not before. */
  lemma FreshPageExpires()
    ensures !Run(Start(), Ticks(ExamDuration - 1)).submitted
    ensures Run(Start(), Ticks(ExamDuration)).submitted
    ensures Run(Start(), Ticks(ExamDuration)).timeLeft == 0
  {
    CountdownSubmitsAfterExactlyT(Start(), ExamDuration - 1);
    CountdownSubmitsAfterExactlyT(Start(), ExamDuration);
  }
}
