# Exam portal: scoring, question delivery, exam list and the exam page session

This project models the core of an online multiple-choice exam portal in Dafny. The portal has two
interchangeable backends, a Node/Express server and a Spring service. Both do the same four jobs:

- They list exams with a per-user status.
- They deliver a random subset of an exam's questions without the correct answers.
- They score a submission against the stored correct options.
- They keep exactly one submission row per (user, exam) pair.

The React exam page runs a session on the client: the index of the question on screen, an answer map, a flag set,
a thirty-minute countdown that submits on its own, a palette, a confirmation dialog, and a locally
computed result.

Modules, one file each:

- `Wrappers` (`wrappers.dfy`): `Option` and `Result`.
- `Sets` (`sets.dfy`): two facts about finite sets that several proofs share.
- `Decimal` (`decimal.dfy`): `String(n)`, `padStart` and decimal parsing, used by the clock and by the string ids of the exam list.
- `Records` (`records.dfy`): the database tables (exams, questions, submissions), the path id and the API errors with their HTTP status.
- `Scoring` (`scoring.dfy`): the half-up percentage, the two backends' per-answer rules, the Node count and the Java tally, and both scoring loops.
- `Submissions` (`submissions.dfy`): both submission endpoints and the upsert into `exam_submissions`.
- `SubmissionProperties` (`submission_properties.dfy`): how the two backends agree and diverge, resubmission, and concrete scores.
- `Delivery` (`delivery.dfy`): question delivery on both backends.
- `ExamList` (`exam_list.dfy`): the exam list with its completed/available status.
- `Lifecycle` (`lifecycle.dfy`): a submission as it is later seen through the exam list.
- `Session` (`session.dfy`): the exam page as a state machine driven by events.
- `SessionView` (`session_view.dfy`): the `MM:SS` clock, the palette, the dialog count and the local score.

Modelling choices:

- The database's `ORDER BY RAND()` becomes a parameter `order`. It is any ordering of the exam's question pool, and `Delivery.SomeOrdering` shows that one always exists.
- The submission time becomes a parameter `now`, written on insert and on update alike (see "## Left out" for the insert case).
- The authenticated user id is a parameter.
- A Java exception becomes a `Failure`. The Java controller answers every failure with status 400 (`Records.JavaStatus`).
- `Math.round` of a non-negative ratio times 100 is modelled as the half-up rounding of the exact rational value, the integer quotient `(200 * score + total) / (2 * total)`. Floating-point error is not modelled (see "## Left out").

Behaviour of the code worth noting:

- **Unknown exam in question delivery.** The Java backend answers 400, not 404. Its `queryForMap` throws, and the controller maps every exception to 400.
- **Submissions do not check the exam.** Neither backend checks that the exam exists before scoring. On Node, answers to an unknown exam score 0 and the handler still issues the upsert. Whether a foreign key then rejects it depends on a schema that is not part of this model.
- **Question ids outside the exam.** Node ignores them: they earn no point but still count in the total. Java fails the whole request and writes nothing.
- **Selections beyond 32 bits.** Java narrows a selection with `intValue()`, so 4294967297 becomes 1 and can earn a point. Node's schema rejects any selection outside 0..3.
- **Durations beyond 32 bits.** Java binds `durationSeconds` to an `Integer`, so a value outside the int range fails with 400. Node accepts any non-negative integer.
- **Empty answer list.** Node rejects it. Java scores it as 0 of 0 with percentage 0 and writes that row.
- **Exam page states.** The page has no loading, submitting or error states. It uses ten fixed questions and shows a locally computed score; it never calls the server.
- **Submitted page.** Once submitted, the page renders only the result view and the timer is cleared, so every later event is a no-op.
- **"Not visited" palette cell.** It means neither answered nor flagged. A question that was visited and left alone still shows as "not visited".

## Model

| member | source | states |
|---|---|---|
| Scoring.Percentage | server/src/app.js:173 | the percentage is at most 100; it is the half-up rounding of score/total*100 (bracketed between the two neighbouring halves); 0 of n gives 0 and n of n gives 100 |
| Scoring.PercentageMonotone | server/src/app.js:173 | a larger score over the same total never gives a smaller percentage |
| Scoring.NodeCount | server/src/app.js:165-171 | the Node count is the number of answer positions whose question is in the correct map with an equal, non-null selection; it never exceeds the number of answers |
| Scoring.JavaTally | backend-java/src/main/java/com/examportal/service/ExamService.java:59-66 | the Java loop fails (with QuestionNotFound) exactly when some answer names a question outside the exam; otherwise it counts the answers whose selection, narrowed to 32 bits by `intValue()`, equals the correct option |
| Records.JavaInt | backend-java/src/main/java/com/examportal/service/ExamService.java:63 | `intValue()` keeps an int-range value and otherwise wraps modulo 2^32 into the int range |
| Scoring.JavaRuleIsReferenceRule | backend-java/src/main/java/com/examportal/service/ExamService.java:63-65 | when every selection is in the int range, the Java rule awards exactly the points of the reference rule |
| Scoring.NodeScoreLoop | server/src/app.js:166-171 | the imperative `for ... of` loop computes the Node count |
| Scoring.JavaScoreLoop | backend-java/src/main/java/com/examportal/service/ExamService.java:59-66 | the imperative loop stops at the first missing question with a failure, and otherwise returns the Java tally |
| Records.NodeStatus | server/src/app.js:106-156 | Node answers 404 exactly for an unknown exam and 400 for every other client error |
| Records.JavaStatus | backend-java/src/main/java/com/examportal/controller/ExamController.java:71-75 | every exception of the Java service becomes 400, so an unknown exam gets 400 where Node answers 404 |
| Records.CorrectOptionOf | backend-java/src/main/java/com/examportal/service/ExamService.java:64 | the per-question lookup finds a row exactly when the question belongs to the exam, and yields its correct option |
| Submissions.Upsert | server/src/app.js:175-180 | the upsert stores the new row under its key, adds at most that key, and leaves every other row unchanged |
| Submissions.UpsertRowCount | server/src/app.js:175-180 | the upsert adds a row only for a new (user, exam) pair; an existing pair keeps the row count |
| Submissions.NodeDuration | server/src/app.js:21 | a valid payload's duration is the given non-negative value, or 0 when absent |
| SubmissionProperties.SchemaRejectsOutOfRange | server/src/app.js:19-22 | the Node schema (`NodePayloadValid`) rejects a selection outside 0..3 or a negative duration with InvalidPayload, and nothing is written |
| Submissions.RequestedCorrectMap | server/src/app.js:158-165 | the correct map holds exactly the requested ids that belong to the exam, each mapped to its correct option |
| Submissions.NodeCountIsPointCount | server/src/app.js:158-171 | against that map the Node rule is the reference rule: a point per answer whose question is in the exam and whose selection is correct |
| Submissions.NodeReport | server/src/app.js:165-182 | the Node response has total = number of answers, score = number of point-earning answers, and the half-up percentage |
| Submissions.JavaReport | backend-java/src/main/java/com/examportal/service/ExamService.java:67-68 | the Java response uses percentage 0 for an empty list, and the half-up percentage otherwise |
| Submissions.NodeSubmit | server/src/app.js:140-183 | errors in order: bad id, bad payload, no answers, and none of them writes anything; success exactly when none applies, with the score and percentage above, and the table is the upsert of exactly the reported values under (user, exam) |
| Submissions.JavaSubmit | backend-java/src/main/java/com/examportal/service/ExamService.java:58-76 | a duration outside the int range fails to bind (InvalidPayload); otherwise failure exactly when some answer's question is outside the exam (QuestionNotFound); no failure writes anything; otherwise the reported score and percentage (0 for no answers) are upserted, with a null duration stored as 0 |
| SubmissionProperties.RoundingUnique | backend-java/src/main/java/com/examportal/service/ExamService.java:68 | the half-up bracket determines the percentage uniquely, so under exact rounding both backends' formulas give the same number |
| SubmissionProperties.BackendsAgreeOnPoolAnswers | backend-java/src/main/java/com/examportal/service/ExamService.java:58-76 | for a valid non-empty payload whose duration fits an int and whose questions all belong to the exam, both backends give the same response and the same table, under exact half-up rounding |
| SubmissionProperties.EmptyAnswersDiverge | server/src/app.js:154-156 | an empty answer list: Node fails with NoAnswers and writes nothing; Java, when the duration binds, reports 0/0 at 0% and writes a row with total 0 |
| SubmissionProperties.ForeignQuestionDiverges | backend-java/src/main/java/com/examportal/service/ExamService.java:64 | an answer naming a question outside the exam: Node still succeeds and that answer earns nothing; Java fails and writes nothing, with QuestionNotFound when the duration binds |
| SubmissionProperties.ResubmissionOverwrites | server/src/app.js:175-180 | a second submission leaves the same table as if the first had never happened: one row for the pair, holding only the second call's values and timestamp |
| SubmissionProperties.ResubmissionIdempotent | server/src/app.js:175-180 | submitting the same payload again at the same instant changes nothing |
| SubmissionProperties.OneOfTwoScoresFifty | server/src/app.js:165-173 | one correct answer out of two scores 1 and 50% |
| SubmissionProperties.WrappedSelectionScoresOnJava | backend-java/src/main/java/com/examportal/service/ExamService.java:63-65 | the selection 4294967297 for a question whose correct option is 1: Node rejects the payload, Java narrows it to 1 and scores 1 of 1 at 100% |
| SubmissionProperties.OversizedDurationDiverges | backend-java/src/main/java/com/examportal/controller/ExamController.java:30 | a duration of 2^31 seconds: Node accepts and stores it; Java fails to bind it and writes nothing |
| SubmissionProperties.ValidSelectionsFitInt | server/src/app.js:20 | every selection the Node schema accepts is in the int range |
| SubmissionProperties.NullSelectionScoresZero | server/src/app.js:167-170 | a null selection never earns a point and is still accepted: a single null answer scores 0 of 1 at 0% |
| Delivery.OrderingLength | server/src/app.js:122-127 | a random ordering of the pool lists each pool question exactly once, so it is as long as the pool |
| Delivery.SomeOrdering | server/src/app.js:122-127 | every pool has an ordering |
| Delivery.Deliver | server/src/app.js:122-135 | delivery returns min(count, pool size) distinct questions of the exam, in the given random order; each has its own text and its four options a-d and no correct-option field |
| Delivery.WholePoolDelivered | server/src/app.js:122-129 | when the configured count is at least the pool size, every question of the pool is delivered |
| Delivery.NodeQuestions | server/src/app.js:106-138 | a non-numeric id gives InvalidExamId; an unknown exam gives ExamNotFound; otherwise the exam header and the delivered questions |
| Delivery.JavaQuestions | backend-java/src/main/java/com/examportal/service/ExamService.java:41-56 | failure exactly for an unknown exam; otherwise the exam header and the delivered questions |
| Delivery.BackendsDeliverAlike | backend-java/src/main/java/com/examportal/service/ExamService.java:41-42 | for a known exam both backends deliver the same set; for an unknown one Node answers 404 and Java 400 |
| ExamList.SortedIds | server/src/app.js:88 | `ORDER BY e.id`: every exam id exactly once, strictly increasing |
| ExamList.NodeEntry | server/src/app.js:92-101 | an exam shows as completed exactly when the user has a submission row for it, and then carries that row's percentage and submission time; otherwise neither is present; the id is the exam id's decimal text |
| ExamList.NodeListExams | server/src/app.js:82-104 | one entry per exam, in id order |
| ExamList.JavaListExams | backend-java/src/main/java/com/examportal/service/ExamService.java:17-39 | one entry per exam, without a submission time |
| ExamList.ListsAgreeButTimestamp | backend-java/src/main/java/com/examportal/service/ExamService.java:27-36 | the Java list equals the Node list with the submission time removed |
| ExamList.ListedIdsDistinct | server/src/app.js:82-93 | no exam is listed twice |
| Lifecycle.SubmissionShowsCompleted | server/src/app.js:87-100 | after a successful submission the exam is completed in the user's list, with the new percentage and the submission time |
| Lifecycle.OtherUsersListsUnchanged | server/src/app.js:87 | a submission never changes another user's list |
| Lifecycle.EntryReadsOwnRow | server/src/app.js:87-100 | a list entry depends only on the user's own row for that exam |
| Decimal.NatToString | server/src/app.js:93 | `String(n)` yields decimal digits that parse back to n, with no leading zero except for 0 itself |
| Decimal.IntToStringInjective | server/src/app.js:93 | distinct ids give distinct strings |
| Decimal.PadStart | src/pages/ExamPage.tsx:102 | the padded text is as long as the larger of its length and the width |
| Decimal.PadStartShape | src/pages/ExamPage.tsx:102 | padding keeps the text as a suffix and puts only fill characters before it |
| Decimal.ZeroPaddingKeepsValue | src/pages/ExamPage.tsx:102 | zero-padding keeps a decimal text a decimal text with the same value |
| Session.Start | src/pages/ExamPage.tsx:25-30 | the page mounts valid and unsubmitted, with 1800 seconds, question 0, no answers and no flags |
| Session.SelectAnswer | src/pages/ExamPage.tsx:48-50 | the chosen question maps to the chosen option; every other question keeps its answer or its lack of one |
| Session.ToggleFlag | src/pages/ExamPage.tsx:52-58 | the question's flag is flipped and no other flag changes |
| Session.SelectAnswerIdempotent | src/pages/ExamPage.tsx:48-50 | choosing the same option twice is choosing it once, and the last choice wins |
| Session.ToggleTwiceRestores | src/pages/ExamPage.tsx:52-58 | flagging twice restores the flag set |
| Session.Submit | src/pages/ExamPage.tsx:43-46 | submitting sets the terminal flag, closes the dialog and changes nothing else |
| Session.Tick | src/pages/ExamPage.tsx:32-41 | a tick lowers the countdown by one, and at one second or less it sets the countdown to 0 and submits; after submission it does nothing |
| Session.Step | src/pages/ExamPage.tsx:32-190 | every event keeps the state valid; after submission nothing changes; the page submits exactly on a confirmed open dialog or on the last tick; only ticks change the clock; a valid choice records the option for the question on screen and nothing else changes the answers; Flag toggles the current question's flag and nothing else changes flags; Previous and Next move by one except on the first and last question, a palette click jumps to its question, and no other event moves; the Submit button opens the dialog, Cancel closes it, and otherwise only a submission changes it |
| Session.NavigationRoundTrip | src/pages/ExamPage.tsx:137-141 | Next then Previous (or Previous then Next) returns to the same state whenever the first button is enabled |
| Session.RunKeepsValid | src/pages/ExamPage.tsx:25-58 | every state reachable from a valid one is valid |
| Session.SubmittedIsFinal | src/pages/ExamPage.tsx:32-46 | once submitted, no sequence of events changes answers, flags, current question or countdown |
| Session.SubmitsAtMostOnce | src/pages/ExamPage.tsx:32-46 | no run submits more than once, and a run that submits ends submitted |
| Session.CountdownSubmitsAfterExactlyT | src/pages/ExamPage.tsx:32-41 | from T seconds left, fewer than T ticks only count down; the T-th tick submits, exactly once, with the count at 0 |
| Session.FreshPageExpires | src/pages/ExamPage.tsx:20-41 | a fresh page left alone is not submitted after 1799 ticks and is submitted, at 0, after 1800 |
| SessionView.TwoDigits | src/pages/ExamPage.tsx:102 | the padded field is at least two decimal digits, exactly two below 100, and denotes n |
| SessionView.ClockText | src/pages/ExamPage.tsx:102 | the clock text has a colon before its last two characters and is exactly five characters below 100 minutes |
| SessionView.ClockRoundTrip | src/pages/ExamPage.tsx:60-61 | reading the clock back gives minutes and seconds below 60 that recombine to the remaining time |
| SessionView.Palette | src/pages/ExamPage.tsx:150-166 | one palette button per question |
| SessionView.PaletteCell | src/pages/ExamPage.tsx:154-161 | each button is in exactly one class, by priority: on screen, else answered, else flagged, else not visited |
| SessionView.PaletteFlaggedOrNotVisited | src/pages/ExamPage.tsx:159-161 | a button that is neither on screen nor answered shows as flagged exactly when its question is flagged, and as not visited otherwise |
| SessionView.FlagThenNextShowsFlagged | src/pages/ExamPage.tsx:113-161 | flagging an unanswered, unflagged question and pressing Next moves on one and leaves its button flagged |
| SessionView.PaletteMarksOneCurrent | src/pages/ExamPage.tsx:154-161 | exactly the question on screen is highlighted; any other button shows as answered exactly when that question has an answer |
| SessionView.AnsweredThenNextShowsAnswered | src/pages/ExamPage.tsx:122-162 | choosing an option and pressing Next moves on one question and leaves the previous button answered |
| SessionView.AnsweredCount | src/pages/ExamPage.tsx:184 | the dialog's count is the number of answered questions, never more than the number of questions |
| SessionView.ShowsUnansweredWarning | src/pages/ExamPage.tsx:185 | the warning shows exactly when some question has no answer |
| SessionView.AnsweringNewQuestionCountsOne | src/pages/ExamPage.tsx:122-184 | choosing an option for an unanswered question raises the dialog's count by one |
| SessionView.WarningIffSomeUnanswered | src/pages/ExamPage.tsx:184-185 | the answered count never exceeds the question count, and the warning appears exactly when some question is unanswered |
| SessionView.LocalScore | src/pages/ExamPage.tsx:63 | the local score is the number of questions whose answer equals the correct option, at most the number of questions |
| SessionView.LocalPercentage | src/pages/ExamPage.tsx:64 | the local percentage is at most 100 |
| SessionView.ScoreAtMostAnswered | src/pages/ExamPage.tsx:63 | the local score never exceeds the number of answered questions |
| SessionView.CorrectChoiceAddsOne | src/pages/ExamPage.tsx:63 | answering an unanswered question correctly raises the local score by exactly one |

## Left out

- Authentication, token issuance, registration and login. The model takes the authenticated user id as a parameter.
- SQL, the connection pool, the HTTP framework and the controllers. Queries become functions over the `Db` record; a controller contributes only its status code.
- The random ordering itself is not modelled: `ORDER BY RAND()` becomes any ordering of the pool, supplied as a parameter.
- Wall-clock time: `setInterval` becomes a `TimerTick` event and `CURRENT_TIMESTAMP` becomes a parameter.
- Floating point. `Math.round` of `score / total * 100` (Node) and `score * 100.0 / total` (Java) is modelled as exact half-up rounding of the rational value. A binary rounding error at an exact .5 boundary is not modelled.
- SubmissionProperties.BackendsAgreeOnPoolAnswers: the agreement holds only under exact half-up rounding. For 23 correct of 40, Node computes `(23 / 40) * 100` = 57.49999999999999 in doubles and returns 57, while Java computes `2300.0 / 40` = 57.5 and returns 58; the model gives 58 for both.
- SubmissionProperties.RoundingUnique: states uniqueness of the exact half-up result; that the two backends' floating-point formulas agree is not promised (see the 23-of-40 case above).
- Submission time on first insert. `CURRENT_TIMESTAMP` appears only in the `ON DUPLICATE KEY UPDATE` branch; on a first insert `submitted_at` is not in the column list and takes the column's default, which is defined in a schema that is not part of this model. The model assumes that default is the current time and writes `now` on insert too; `Lifecycle.SubmissionShowsCompleted`'s `submittedAt == now` rests on that assumption.
- JSON coercion. The model assumes `Number(req.params.id)` is an integer or NaN (`PathId`). `Number("Infinity")` and `Number("1.5")` also pass the NaN check at app.js:108 and 142; such ids are not modelled. Neither are fractional `questionId`s or selections, nor Java's truncation of non-integers by `intValue`/`longValue`, nor a fractional `durationSeconds`, which Java's `Integer` binding truncates (1.5 is stored as 1) and Node's schema rejects with 400.
- Java null input. A null `answers` list on the Java backend throws before scoring; the model takes a list.
- Submissions.JavaSubmit: a duration in the int range is stored as given, negative ones included, since the Java service does not validate it; any integer outside the int range fails to bind (400). The path id binds to a `Long`; an id outside 64 bits is not modelled.
- Scoring.JavaTally: `longValue()` wraps a question id beyond 64 bits; ids are unbounded integers in the model, so that wrap is not modelled.
- Submissions.NodeSubmit: an omitted `selectedOption` and a JSON-null `durationSeconds` have no representation, since `None` stands for a null selection and for an omitted duration. Node answers 400 for both (app.js:20-21, 146-149); Java reads both as null, so the answer earns nothing and the duration is stored as 0.
- Submissions.NodeSubmit: a duration beyond the `duration_seconds` column's range is stored as given; the column type is in a schema that is not part of this model.
- Delivery.BackendsDeliverAlike: the model's text columns are non-null strings, so it assumes the exam title, question text and options are NOT NULL. A NULL one makes Java's `Map.of`/`List.of` throw a NullPointerException with no message, and the handler's own `Map.of("message", null)` then throws too; Node returns the nulls.
- Database constraints: foreign keys, column types and the schema are not part of this model. The (user, exam) key is unique by construction of the map.
- Concurrent requests are left out. Each upsert is one atomic map update, so two racing submissions end as one of them applied last.
- The page's rendering, styling, timer colour, "Back to Dashboard" navigation and route parameter are left out, and so are the correct-answer texts on the result view.
- Dialog overlay. Clicks behind an open dialog are still accepted by the model. The dialog's overlay may block them in the browser, but that behaviour is outside the page's code.
- Pages other than the exam page, and the client API helpers, are left out. The exam page does not call them.
- SessionView.LocalPercentage: only bounded by 100 here. Its half-up bracket is the one `Scoring.Percentage` states.
