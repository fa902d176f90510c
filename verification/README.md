# SmartStudySystem scheduling core in Dafny

This project models the spaced-repetition core of SmartStudySystem, a study
application that re-presents questions to a learner at growing intervals. The
core has two parts:

- **The calculator** (`SpacedRepetitionService`, module `SpacedRepetition`,
  file `spaced_repetition.dfy`). It is a simplified SM-2 rule. It takes the
  outcome of one review and the prior ease factor, interval and repetition
  count, and returns the new ease factor, interval, repetition count and next
  review date.
- **The session scheduler** (`StudySessionService`, module `StudySession`,
  file `study_session.dfy`). It selects due and new questions, derives the
  repetition count from the review history, builds and appends the next
  review, aggregates statistics and filters due questions by topic.

The scheduler reads storage through queries. Module `Repository`
(`repository.dfy`) gives each query its meaning as a pure function over an
in-memory review log and question catalogue. Module `DueSelection`
(`due_selection.dfy`) holds the finding below.

Modelling choices:

- **Ease factor.** It is an integer number of tenths (25 is 2.5), in 13..30
  when well-formed. Every constant and step of the rule lies on that grid.
- **Rounding.** `Math.round(interval * ease)` becomes `(interval * e10 + 5) / 10`,
  which rounds half up. Dafny's `/` floors for a positive divisor, as
  `Math.round` does.
- **Dates and instants.** Both are integers: a date is a day number.
  `LocalDate.now()` becomes the parameter `today`, and `LocalDateTime.now()`
  becomes the parameter `now`.
- **Storage.**
  - The review log is a `seq<Review>` in insertion order, oldest first.
  - "Most recent first" (`ORDER BY reviewed_at DESC`) reads the log from its end.
  - "Latest" means the last review of the (question, user) pair.
  - The catalogue is a `seq<Question>` in the order `getAll` lists it.
- **Insert.** The key storage assigns to a new review is the parameter `newId`.
  The success flag storage reports is the parameter `insertSucceeds`.
- **Calculator inputs.** The calculator accepts any integers, as the original
  accepts any `float`/`int`. Its bounds are therefore stated under the
  conditions that make them true.

The model follows the code in these places, where the code does something a reader of SM-2 or of the code's own comments may not expect:

- A correct answer's interval is the rounded product, with no clamp to at least one day.
- The ease bounds hold only when the input ease is already in range.
- The due query selects a question when **any** of the user's reviews of it is
  due, not only the latest (see Findings).
- `getNewQuestions` with a limit below one still returns one question when an
  unseen one exists, because the limit is checked only after a question is added.

## Model

| member | source | states |
|---|---|---|
| SpacedRepetition.RoundProduct | SmartStudySystem/src/main/java/com/semisaad/smartstudy/service/SpacedRepetitionService.java:54 | the result is the whole number nearest to interval × ease, halves rounded up |
| SpacedRepetition.CalculateNextReview | SmartStudySystem/src/main/java/com/semisaad/smartstudy/service/SpacedRepetitionService.java:26-76 | correct: repetitions +1, ease one tenth up capped at 3.0, interval 1 / 6 / nearest to prior interval × new ease; wrong: repetitions 0, interval 1, ease two tenths down floored at 1.3; next date = today + interval |
| SpacedRepetition.CalculateFirstReview | SmartStudySystem/src/main/java/com/semisaad/smartstudy/service/SpacedRepetitionService.java:84-86 | equals the next-review rule from ease 2.5, interval 0, no repetitions: correct gives (2.6, 1 day, 1), wrong gives (2.3, 1 day, 0), due tomorrow |
| SpacedRepetition.EaseStaysInRange | SmartStudySystem/src/main/java/com/semisaad/smartstudy/service/SpacedRepetitionService.java:40-69 | an input ease in [1.3, 3.0] gives an output ease in [1.3, 3.0], for either outcome |
| SpacedRepetition.RoundProductBounds | SmartStudySystem/src/main/java/com/semisaad/smartstudy/service/SpacedRepetitionService.java:54 | for ease between 1.0 and 3.0, interval ≤ rounded product ≤ 3 × interval |
| SpacedRepetition.ScheduleIsPreserved | SmartStudySystem/src/main/java/com/semisaad/smartstudy/service/SpacedRepetitionService.java:40-69 | from ease in [1.3, 3.0] and interval ≥ 1 the next state again has ease in [1.3, 3.0] and interval ≥ 1 |
| SpacedRepetition.IntervalGrowth | SmartStudySystem/src/main/java/com/semisaad/smartstudy/service/SpacedRepetitionService.java:52-55 | from the third correct answer in a row on, the new interval is at least the prior one and at most three times it |
| SpacedRepetition.Replay | SmartStudySystem/src/main/java/com/semisaad/smartstudy/SpacedRepetitionServiceTest.java:18-59 | chaining first-review then next-review over any outcome sequence keeps every state at ease in [1.3, 3.0], interval ≥ 1, repetitions ≥ 0 |
| SpacedRepetition.ReplayRepetitions | SmartStudySystem/src/main/java/com/semisaad/smartstudy/service/SpacedRepetitionService.java:33-60 | after k+1 chained answers the repetition count equals the run of correct answers ending them |
| SpacedRepetition.CorrectRun | SmartStudySystem/src/main/java/com/semisaad/smartstudy/service/SpacedRepetitionService.java:35-55 | an unbroken correct run from a fresh question has repetitions k+1, ease min(2.5 + (k+1)/10, 3.0), intervals 1, 6, then previous × ease rounded |
| SpacedRepetition.LearningScenario | SmartStudySystem/src/main/java/com/semisaad/smartstudy/SpacedRepetitionServiceTest.java:15-61 | correct, correct, correct, wrong, correct gives ease 2.6, 2.7, 2.8, 2.6, 2.7 and intervals 1, 6, 17, 1, 1 |
| SpacedRepetition.StrugglingScenario | SmartStudySystem/src/main/java/com/semisaad/smartstudy/SpacedRepetitionServiceTest.java:66-86 | wrong, wrong, wrong, correct gives ease 2.3, 2.1, 1.9, 2.0 with interval 1 throughout |
| Repository.LatestReview | SmartStudySystem/src/main/java/com/semisaad/smartstudy/dao/ReviewDAO.java:191-215 | None exactly when the pair has no review; otherwise a review of the pair with no later review of the pair after it |
| Repository.QuestionHistory | SmartStudySystem/src/main/java/com/semisaad/smartstudy/dao/ReviewDAO.java:130-152 | lists only reviews of that question taken from the log, at most as many as the log holds |
| Repository.QuestionHistoryExactly | SmartStudySystem/src/main/java/com/semisaad/smartstudy/dao/ReviewDAO.java:130-132 | the question's history lists every review of that question, most recent first: an order-preserving selection from the log read backwards |
| Repository.PairHistory | SmartStudySystem/src/main/java/com/semisaad/smartstudy/dao/ReviewDAO.java:191-193 | lists only the pair's reviews, is empty exactly when the pair has none, and starts with the latest review |
| Repository.PairHistoryExactly | SmartStudySystem/src/main/java/com/semisaad/smartstudy/dao/ReviewDAO.java:191-193 | the pair's history holds exactly the log's reviews of the pair, and is as long as the log's count of them |
| Repository.PairHistoryNewestFirst | SmartStudySystem/src/main/java/com/semisaad/smartstudy/dao/ReviewDAO.java:193 | the pair's reviews come most recent first: an order-preserving selection from the log read backwards |
| Repository.UserReviews | SmartStudySystem/src/main/java/com/semisaad/smartstudy/dao/ReviewDAO.java:101-123 | holds exactly the log's reviews by that user |
| Repository.UserReviewsNewestFirst | SmartStudySystem/src/main/java/com/semisaad/smartstudy/dao/ReviewDAO.java:103 | the user's reviews come most recent first: an order-preserving selection from the log read backwards |
| Repository.DueQuestionIds | SmartStudySystem/src/main/java/com/semisaad/smartstudy/dao/ReviewDAO.java:159-183 | distinct ids; an id is listed exactly when the user has some review of it due on or before today |
| Repository.FindQuestion | SmartStudySystem/src/main/java/com/semisaad/smartstudy/dao/QuestionDAO.java:76-104 | None exactly when no question has the id; otherwise a catalogue question with that id |
| StudySession.LeadingCorrect | SmartStudySystem/src/main/java/com/semisaad/smartstudy/service/StudySessionService.java:132-142 | n newest answers are correct and the next one, if any, is wrong |
| StudySession.RepetitionCount | SmartStudySystem/src/main/java/com/semisaad/smartstudy/service/StudySessionService.java:129-145 | the derived count is between 0 and the number of the user's reviews of the question, counted straight off the log |
| StudySession.StreakIsRepetitionCount | SmartStudySystem/src/main/java/com/semisaad/smartstudy/service/StudySessionService.java:134-142 | scanning the whole question history and skipping other users gives the pair's leading run of correct answers |
| StudySession.GetRepetitionCount | SmartStudySystem/src/main/java/com/semisaad/smartstudy/service/StudySessionService.java:129-145 | the loop with its early exit, scanning the whole question history (its meaning written as `StudySession.Streak`), returns the pair's run of correct answers, at most the pair's review count |
| StudySession.RepetitionCountAfterAppend | SmartStudySystem/src/main/java/com/semisaad/smartstudy/service/StudySessionService.java:134-142 | appending a review of the pair makes the count 0 after a wrong answer and one more after a correct one; another pair's review leaves it unchanged |
| StudySession.NextRecord | SmartStudySystem/src/main/java/com/semisaad/smartstudy/service/StudySessionService.java:89-116 | the new review carries the question, user, outcome, time and key given; with no prior review the first-review values; otherwise the calculator fed the latest ease, latest interval and derived count |
| StudySession.SubmitAnswer | SmartStudySystem/src/main/java/com/semisaad/smartstudy/service/StudySessionService.java:89-120 | returns storage's flag; on success exactly one review is appended and every existing one is unchanged; on failure the log is unchanged |
| StudySession.SubmissionKeepsSchedule | SmartStudySystem/src/main/java/com/semisaad/smartstudy/service/StudySessionService.java:95-116 | if every logged review has ease in [1.3, 3.0] and interval ≥ 1, so does the log with the new review |
| StudySession.LatestAfterAppend | SmartStudySystem/src/main/java/com/semisaad/smartstudy/dao/ReviewDAO.java:191-193 | an appended review of the pair becomes its latest; another pair's review leaves the latest alone |
| StudySession.SubmitStep | SmartStudySystem/src/main/java/com/semisaad/smartstudy/service/StudySessionService.java:98-119 | one accepted submission moves the pair's latest review and derived count from a calculator state to the calculator's next state |
| StudySession.SubmitAllMatchesReplay | SmartStudySystem/src/main/java/com/semisaad/smartstudy/service/StudySessionService.java:89-106 | answering a new question repeatedly through the scheduler yields the latest ease, interval, due date and derived count that chaining the calculator directly yields |
| StudySession.QuestionsFor | SmartStudySystem/src/main/java/com/semisaad/smartstudy/service/StudySessionService.java:40-46 | at most one question per id; every question returned is a catalogue question whose id is listed |
| StudySession.QuestionsForFinds | SmartStudySystem/src/main/java/com/semisaad/smartstudy/service/StudySessionService.java:41-45 | every listed id that names a catalogue question contributes that question |
| StudySession.QuestionsForInOrder | SmartStudySystem/src/main/java/com/semisaad/smartstudy/service/StudySessionService.java:41-45 | the returned questions' ids are the listed ids in their order, with those naming no question left out |
| StudySession.QuestionsForDistinct | SmartStudySystem/src/main/java/com/semisaad/smartstudy/service/StudySessionService.java:41-45 | distinct ids give distinct questions |
| StudySession.GetDueQuestions | SmartStudySystem/src/main/java/com/semisaad/smartstudy/service/StudySessionService.java:35-49 | questions in due-id order without repeats; with unique ids a catalogue question is returned exactly when the user has some review of it due by today |
| StudySession.UnseenExactly | SmartStudySystem/src/main/java/com/semisaad/smartstudy/service/StudySessionService.java:64-75 | the unseen list holds exactly the catalogue questions the user never reviewed |
| StudySession.NewQuestions | SmartStudySystem/src/main/java/com/semisaad/smartstudy/service/StudySessionService.java:59-78 | a prefix of the unseen questions in catalogue order, of length max(limit, 1) or all of them if fewer; none reviewed by the user; at most limit for limit ≥ 1, one for limit < 1 when any exists |
| StudySession.GetNewQuestions | SmartStudySystem/src/main/java/com/semisaad/smartstudy/service/StudySessionService.java:59-78 | the scan with its early stop returns exactly the new questions above |
| StudySession.NewQuestionsInIdOrder | SmartStudySystem/src/main/java/com/semisaad/smartstudy/dao/QuestionDAO.java:43-45 | with the catalogue listed by increasing id, the new questions returned for any limit are in increasing id order |
| StudySession.CorrectCount | SmartStudySystem/src/main/java/com/semisaad/smartstudy/service/StudySessionService.java:160-164 | the number of correct reviews is at most the number of reviews |
| StudySession.CorrectCountIsTrueOutcomes | SmartStudySystem/src/main/java/com/semisaad/smartstudy/service/StudySessionService.java:160-164 | the correct count equals the number of true outcomes among the reviews |
| StudySession.CountCorrect | SmartStudySystem/src/main/java/com/semisaad/smartstudy/service/StudySessionService.java:157-164 | the counting loop returns the correct count of the list |
| StudySession.SuccessRate | SmartStudySystem/src/main/java/com/semisaad/smartstudy/service/StudySessionService.java:166 | rate × total = 100 × correct when there are reviews, 0 with none (no division by zero), within [0, 100] whenever 0 ≤ correct ≤ total |
| StudySession.UserReviewsCounted | SmartStudySystem/src/main/java/com/semisaad/smartstudy/service/StudySessionService.java:154-164 | the user's review list has as many reviews, and as many correct ones, as the log holds by that user |
| StudySession.GetSessionStats | SmartStudySystem/src/main/java/com/semisaad/smartstudy/service/StudySessionService.java:153-169 | total = the number of the user's reviews in the log, correct = how many of those are marked correct, rate as above and within [0, 100], due today = size of the due list |
| StudySession.OnTopic | SmartStudySystem/src/main/java/com/semisaad/smartstudy/service/StudySessionService.java:182-186 | an order-preserving subsequence holding exactly the input's questions on the topic |
| StudySession.GetDueQuestionsByTopic | SmartStudySystem/src/main/java/com/semisaad/smartstudy/service/StudySessionService.java:178-189 | an order-preserving subsequence of the due questions holding exactly those on the topic |
| DueSelection.ReviewedQuestionIds | SmartStudySystem/src/main/java/com/semisaad/smartstudy/dao/ReviewDAO.java:163-164 | distinct ids; an id is listed exactly when the user reviewed that question |
| DueSelection.LatestDueQuestionIds | SmartStudySystem/src/main/java/com/semisaad/smartstudy/dao/ReviewDAO.java:163-164 | corrected query: distinct ids; an id is listed exactly when the latest review of it is due by today |
| DueSelection.GetDueQuestionsByLatest | SmartStudySystem/src/main/java/com/semisaad/smartstudy/service/StudySessionService.java:35-49 | corrected due list: with unique ids a catalogue question is returned exactly when its latest review is due |
| DueSelection.StaleReviewKeepsQuestionDue | SmartStudySystem/src/main/java/com/semisaad/smartstudy/dao/ReviewDAO.java:163-164 | a log where the stored query lists a question whose latest review is not yet due |
| DueSelection.AnsweringNeverClearsDueAsWritten | SmartStudySystem/src/main/java/com/semisaad/smartstudy/dao/ReviewDAO.java:163-164 | as written, answering a question with a past-due review leaves it due although the new review is due after today |
| DueSelection.AnsweringClearsDueByLatest | SmartStudySystem/src/main/java/com/semisaad/smartstudy/service/StudySessionService.java:89-119 | under the corrected query, answering a question takes it off the due list |

## Left out

- Storage classes (`ReviewDAO`, `QuestionDAO`, `UserDAO`, `TopicDAO`, `DatabaseConnection`): JDBC and SQL input/output. Their queries become the functions of module `Repository`. Update, delete, count and the user and topic tables are not used by the scheduler.
- `MainApp`: JavaFX screens, including the progress-bar division, which is a display concern.
- The console demonstration drivers: their printing, keyboard input and random choices. Their two calculator scenarios are modelled as lemmas. Their printed claim of intervals "1d → 6d → 15d → 39d" is not what the code computes; the third interval is 17.
- Float arithmetic of the ease factor: the model uses exact tenths, and single-precision drift is not modelled. The drift changes an interval early. Take a fresh question answered correct, wrong, then five times correct, chained as the demonstration driver chains it. In single precision `2.6f - 0.2f` is already 2.3999998, and at the last answer the ease is 2.8999994. So `Math.round(45 * 2.8999994f)` is 130, where the model's exact 2.9 gives 131.
- The success rate is an exact `real`, not a `double`.
- Java `int` overflow of very large intervals, repetition counts or counters.
- Clock reads: `today` and `now` are parameters, and they are not tied to each other.
- Two clocks read as one: the due query compares with the database's `CURRENT_DATE` (dao/ReviewDAO.java:164), while the due date of a new review comes from the JVM's `LocalDate.now()` (service/SpacedRepetitionService.java:73). The model uses one `today` for both. So `DueSelection.AnsweringClearsDueByLatest` holds only when both clocks give the same day.
- Concurrency: two submissions for the same pair can both read the same latest review before either inserts. The model runs one submission at a time.
- Review instants versus insertion order: "most recent first" (`ORDER BY reviewed_at DESC`, dao/ReviewDAO.java:132 and 192-193) is taken as reverse insertion order, and nothing ties a review's `reviewedAt` to its place in the log. In the code `reviewed_at` is `LocalDateTime.now()` (model/Review.java:34), a wall clock without a zone. It can tie, and it repeats an hour when daylight saving time ends. A review stored in that repeated hour sorts before the one stored just before it, so the stored query then returns the older review as "latest", while `Repository.LatestReview` returns the last one in the log.
- The order of due ids: the stored query has no `ORDER BY`. The model lists ids in order of their first due review.
- Storage failures on reads: a failed read is not modelled. A failed insert is the flag `insertSucceeds = false`.
- `ReviewResult` and `SessionStats` printing (`toString`).
- Repository.UserReviews: its contract, with Repository.UserReviewsNewestFirst, states which reviews it holds and that they keep the log's order reversed. It does not state how often a review that the log holds twice occurs.
- StudySession.OnTopic: its contract states membership and order, not how often a repeated question occurs. Repeats cannot arise for due questions, which are distinct.

## Findings

| source | as written | input that shows it | evidently intended | confidence | as-written member | corrected member |
|---|---|---|---|---|---|---|
| SmartStudySystem/src/main/java/com/semisaad/smartstudy/dao/ReviewDAO.java:163-164 | a question is due when ANY review of it by the user has `next_review_date <= CURRENT_DATE` | user 1 answered question 7 on day 10 (due day 11) and on day 12 (due day 18); on day 12 question 7 is listed as due | due when the LATEST review's date has come: the method's own description is "questions that are due for review today" (ReviewDAO.java:155, StudySessionService.java:30), and in SM-2 a card's next review is set by its most recent answer | high; not executed | DueSelection.StaleReviewKeepsQuestionDue | DueSelection.LatestDueQuestionIds |

Every review eventually falls due, so under the as-written query a question
stays due for good once an older review of it has passed its date. Lemma
`DueSelection.AnsweringNeverClearsDueAsWritten` shows this for every log whose
reviews are well scheduled (ease in [1.3, 3.0], interval at least one day) and
that holds a due review of the question: the question stays due even right
after it is answered. The corrected selection
is `DueSelection.LatestDueQuestionIds`, with `DueSelection.GetDueQuestionsByLatest`
as the matching due list. Under it, answering a question takes it off the due
list (`DueSelection.AnsweringClearsDueByLatest`). The scheduler operations
`StudySession.GetDueQuestions`, `GetSessionStats` and `GetDueQuestionsByTopic`
model the code as written, so they use the query as written.
