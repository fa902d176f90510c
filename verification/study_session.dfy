/** The session scheduler: picks due and new questions for a user, derives
    the repetition count from the review history, drives the calculator and
    appends the resulting review, and aggregates statistics.

    Storage is the in-memory log and catalogue of module Repository. The
    clock reads of the original become parameters: `today` (a day number)
    for due dates and `now` (an instant) for the review's timestamp. The
    outcome of the storage insert, which the original only reports, is the
    parameter `insertSucceeds`, and the key storage assigns to the new row is
    the parameter `newId`. */
module StudySession {
  import opened Repository
  import SR = SpacedRepetition

  /** Aggregates over one user's reviews; the success rate is a percentage. */
  datatype SessionStats = SessionStats(totalReviews: int, correctAnswers: int, questionsDueToday: int, successRate: real)

  /** The outcome of a submission: the flag storage reported and the log
      after it. */
  datatype Submission = Submission(saved: bool, log: seq<Review>)

  function IdsOf(qs: seq<Question>): (ids: seq<int>)
    ensures |ids| == |qs| && forall k :: 0 <= k < |qs| ==> ids[k] == qs[k].id
  {
    seq(|qs|, k requires 0 <= k < |qs| => qs[k].id)
  }

  /** Putting a new element in front keeps a sequence free of duplicates. */
  lemma ConsNoDuplicates<T>(x: T, s: seq<T>)
    ensures NoDuplicates(s) && x !in s ==> NoDuplicates([x] + s)
  {
    if NoDuplicates(s) && x !in s {
      forall i, j | 0 <= i < j < |s| + 1
        ensures ([x] + s)[i] != ([x] + s)[j]
      {
        if i == 0 {
          assert s[j - 1] in s;
        } else {
          assert ([x] + s)[i] == s[i - 1] && ([x] + s)[j] == s[j - 1];
        }
      }
    }
  }

  /** Every question has its own id, as the catalogue's primary key ensures. */
  ghost predicate UniqueIds(catalogue: seq<Question>) {
    forall i, j :: 0 <= i < j < |catalogue| ==> catalogue[i].id != catalogue[j].id
  }

  // ---------------------------------------------------------------------
  // Repetition count
  // ---------------------------------------------------------------------

  /** The run of correct answers at the head of a newest-first history of one
      pair: how many of the most recent answers were correct before the first
      wrong one. */
  function LeadingCorrect(history: seq<Review>): (n: nat)
    ensures n <= |history|
    ensures forall k :: 0 <= k < n ==> history[k].wasCorrect
    ensures n < |history| ==> !history[n].wasCorrect
  {
    if |history| == 0 || !history[0].wasCorrect then 0
    else 1 + LeadingCorrect(history[1..])
  }

  /** The derived repetition count of a (question, user) pair: the run of
      correct answers ending its history. */
  function RepetitionCount(log: seq<Review>, questionId: int, userId: int): (n: nat)
    ensures n <= |PairHistory(log, questionId, userId)|
    ensures n <= PairCountOf(log, questionId, userId)
  {
    PairHistoryExactly(log, questionId, userId);
    LeadingCorrect(PairHistory(log, questionId, userId))
  }

  /** What the original's counting loop computes over a question's
      newest-first history: other users' reviews are passed over, this user's
      correct ones counted, and the first wrong one ends the scan. */
  function Streak(history: seq<Review>, userId: int): (n: nat)
  {
    if |history| == 0 then 0
    else if history[0].userId != userId then Streak(history[1..], userId)
    else if history[0].wasCorrect then 1 + Streak(history[1..], userId)
    else 0
  }

  /** Scanning the whole question history and skipping other users gives the
      same count as looking at the pair's own history. */
  lemma {:induction false} StreakIsRepetitionCount(log: seq<Review>, questionId: int, userId: int)
    ensures Streak(QuestionHistory(log, questionId), userId) == RepetitionCount(log, questionId, userId)
  {
    if |log| > 0 {
      var prefix := log[..|log| - 1];
      var r := log[|log| - 1];
      StreakIsRepetitionCount(prefix, questionId, userId);
      if r.questionId == questionId {
        assert QuestionHistory(log, questionId) == [r] + QuestionHistory(prefix, questionId);
        assert ([r] + QuestionHistory(prefix, questionId))[1..] == QuestionHistory(prefix, questionId);
        if r.userId == userId {
          assert PairHistory(log, questionId, userId) == [r] + PairHistory(prefix, questionId, userId);
          assert ([r] + PairHistory(prefix, questionId, userId))[1..] == PairHistory(prefix, questionId, userId);
        }
      }
    }
  }

  /** The count of consecutive correct answers of `userId` on `questionId`,
      most recent first, by the original's scan over the question's history. */
  method GetRepetitionCount(log: seq<Review>, questionId: int, userId: int) returns (count: nat)
    ensures count == RepetitionCount(log, questionId, userId)
    ensures count <= |PairHistory(log, questionId, userId)|
  {
    var reviews := QuestionHistory(log, questionId);
    count := 0;
    var i := 0;
    while i < |reviews|
      invariant 0 <= i <= |reviews|
      invariant count + Streak(reviews[i..], userId) == Streak(reviews, userId)
    {
      assert reviews[i..][1..] == reviews[i + 1..];
      if reviews[i].userId == userId {
        if reviews[i].wasCorrect {
          count := count + 1;
        } else {
          break;
        }
      }
      i := i + 1;
    }
    StreakIsRepetitionCount(log, questionId, userId);
  }

  /** History and calculator agree: appending a review of the pair makes the
      derived count 0 after a wrong answer and one more after a correct one,
      exactly the calculator's repetition rule; a review of any other pair
      leaves the count alone. */
  lemma RepetitionCountAfterAppend(log: seq<Review>, r: Review, questionId: int, userId: int)
    ensures RepetitionCount(log + [r], questionId, userId) ==
            if !IsPair(r, questionId, userId) then RepetitionCount(log, questionId, userId)
            else if r.wasCorrect then RepetitionCount(log, questionId, userId) + 1
            else 0
  {
    assert (log + [r])[..|log|] == log;
    var h := PairHistory(log, questionId, userId);
    if IsPair(r, questionId, userId) {
      assert PairHistory(log + [r], questionId, userId) == [r] + h;
      assert ([r] + h)[1..] == h;
    }
  }

  // ---------------------------------------------------------------------
  // Submitting an answer
  // ---------------------------------------------------------------------

  /** The review a submission records: the calculator is fed the first-review
      defaults when the pair has no review yet, and otherwise the latest
      review's ease and interval with the derived repetition count. */
  function NextRecord(log: seq<Review>, questionId: int, userId: int, wasCorrect: bool,
                      now: int, today: int, newId: int): (rec: Review)
    ensures IsPair(rec, questionId, userId) && rec.wasCorrect == wasCorrect
    ensures rec.id == newId && rec.reviewedAt == now
    ensures rec.nextReviewDate == today + rec.intervalDays
    ensures LatestReview(log, questionId, userId).None? ==>
              rec.easeFactor == (if wasCorrect then 26 else 23) && rec.intervalDays == SR.FirstInterval
    ensures LatestReview(log, questionId, userId).Some? ==>
              var p := LatestReview(log, questionId, userId).value;
              var res := SR.CalculateNextReview(wasCorrect, p.easeFactor, p.intervalDays,
                                                RepetitionCount(log, questionId, userId), today);
              rec.easeFactor == res.easeFactor && rec.intervalDays == res.intervalDays
  {
    var result :=
      match LatestReview(log, questionId, userId)
      case None => SR.CalculateFirstReview(wasCorrect, today)
      case Some(p) => SR.CalculateNextReview(wasCorrect, p.easeFactor, p.intervalDays,
                                             RepetitionCount(log, questionId, userId), today);
    Review(newId, questionId, userId, now, wasCorrect, result.easeFactor, result.intervalDays, result.nextReviewDate)
  }

  /** Records one answer. Reads the pair's latest review, computes the next
      schedule, and appends exactly one new review when storage accepts the
      insert; existing reviews are never changed. Returns storage's flag. */
  method SubmitAnswer(log: seq<Review>, questionId: int, userId: int, wasCorrect: bool,
                      now: int, today: int, newId: int, insertSucceeds: bool) returns (s: Submission)
    ensures s.saved == insertSucceeds
    ensures !s.saved ==> s.log == log
    ensures s.saved ==> |s.log| == |log| + 1 && s.log[..|log|] == log
    ensures s.saved ==> s.log[|log|] == NextRecord(log, questionId, userId, wasCorrect, now, today, newId)
  {
    var latest := LatestReview(log, questionId, userId);
    var result: SR.ReviewResult;
    if latest.None? {
      result := SR.CalculateFirstReview(wasCorrect, today);
    } else {
      var reps := GetRepetitionCount(log, questionId, userId);
      result := SR.CalculateNextReview(wasCorrect, latest.value.easeFactor, latest.value.intervalDays, reps, today);
    }
    var rec := Review(newId, questionId, userId, now, wasCorrect, result.easeFactor, result.intervalDays, result.nextReviewDate);
    if insertSucceeds {
      s := Submission(true, log + [rec]);
    } else {
      s := Submission(false, log);
    }
  }

  /** Every review in the log carries a scheduled state. */
  ghost predicate WellScheduled(log: seq<Review>) {
    forall i :: 0 <= i < |log| ==> SR.Scheduled(log[i].easeFactor, log[i].intervalDays)
  }

  /** A log whose reviews all hold scheduled states keeps that property when
      a submission is appended: ease in [1.3, 3.0], interval at least a day. */
  lemma SubmissionKeepsSchedule(log: seq<Review>, questionId: int, userId: int, wasCorrect: bool,
                                now: int, today: int, newId: int)
    requires WellScheduled(log)
    ensures WellScheduled(log + [NextRecord(log, questionId, userId, wasCorrect, now, today, newId)])
  {
    var rec := NextRecord(log, questionId, userId, wasCorrect, now, today, newId);
    match LatestReview(log, questionId, userId)
    case None =>
    case Some(p) =>
      SR.ScheduleIsPreserved(wasCorrect, p.easeFactor, p.intervalDays, RepetitionCount(log, questionId, userId), today);
    assert SR.Scheduled(rec.easeFactor, rec.intervalDays);
    assert forall i :: 0 <= i < |log| ==> (log + [rec])[i] == log[i];
  }

  /** The log after answering `outcomes` in turn on one question, every
      insert accepted, all on the same day; the k-th new review gets the key
      `firstId + k`. */
  function SubmitAll(log: seq<Review>, questionId: int, userId: int, outcomes: seq<bool>,
                     now: int, today: int, firstId: int): (l: seq<Review>)
    ensures |l| == |log| + |outcomes|
    decreases |outcomes|
  {
    if |outcomes| == 0 then log
    else
      var l := SubmitAll(log, questionId, userId, outcomes[..|outcomes| - 1], now, today, firstId);
      l + [NextRecord(l, questionId, userId, outcomes[|outcomes| - 1], now, today, firstId + |outcomes| - 1)]
  }

  /** One submission on a pair whose latest review and derived count carry the
      calculator state `prev` moves them to the calculator's next state. */
  lemma SubmitStep(l0: seq<Review>, questionId: int, userId: int, wasCorrect: bool,
                   now: int, today: int, newId: int, prev: SR.ReviewResult)
    requires LatestReview(l0, questionId, userId).Some?
    requires LatestReview(l0, questionId, userId).value.easeFactor == prev.easeFactor
    requires LatestReview(l0, questionId, userId).value.intervalDays == prev.intervalDays
    requires RepetitionCount(l0, questionId, userId) == prev.repetitions
    ensures var l := l0 + [NextRecord(l0, questionId, userId, wasCorrect, now, today, newId)];
            var next := SR.CalculateNextReview(wasCorrect, prev.easeFactor, prev.intervalDays, prev.repetitions, today);
            && LatestReview(l, questionId, userId).Some?
            && LatestReview(l, questionId, userId).value.easeFactor == next.easeFactor
            && LatestReview(l, questionId, userId).value.intervalDays == next.intervalDays
            && LatestReview(l, questionId, userId).value.nextReviewDate == next.nextReviewDate
            && RepetitionCount(l, questionId, userId) == next.repetitions
  {
    var rec := NextRecord(l0, questionId, userId, wasCorrect, now, today, newId);
    LatestAfterAppend(l0, rec, questionId, userId);
    RepetitionCountAfterAppend(l0, rec, questionId, userId);
  }

  /** Driving the scheduler with a run of answers on a question the user has
      never seen yields, after each answer, exactly the state the calculator
      reaches when chained directly: the latest review holds the chained
      ease and interval and the derived count equals the chained repetition
      count. */
  lemma {:induction false} SubmitAllMatchesReplay(log: seq<Review>, questionId: int, userId: int,
                                                  outcomes: seq<bool>, now: int, today: int, firstId: int)
    requires !HasReviewed(log, userId, questionId)
    requires |outcomes| > 0
    ensures var l := SubmitAll(log, questionId, userId, outcomes, now, today, firstId);
            var last := SR.Replay(outcomes, today)[|outcomes| - 1];
            && LatestReview(l, questionId, userId).Some?
            && LatestReview(l, questionId, userId).value.easeFactor == last.easeFactor
            && LatestReview(l, questionId, userId).value.intervalDays == last.intervalDays
            && LatestReview(l, questionId, userId).value.nextReviewDate == last.nextReviewDate
            && RepetitionCount(l, questionId, userId) == last.repetitions
    decreases |outcomes|
  {
    var n := |outcomes|;
    var prevOutcomes := outcomes[..n - 1];
    var l0 := SubmitAll(log, questionId, userId, prevOutcomes, now, today, firstId);
    var rec := NextRecord(l0, questionId, userId, outcomes[n - 1], now, today, firstId + n - 1);
    assert SubmitAll(log, questionId, userId, outcomes, now, today, firstId) == l0 + [rec];
    if n == 1 {
      assert l0 == log;
      LatestAfterAppend(l0, rec, questionId, userId);
      RepetitionCountAfterAppend(l0, rec, questionId, userId);
      assert RepetitionCount(log, questionId, userId) == 0;
    } else {
      SubmitAllMatchesReplay(log, questionId, userId, prevOutcomes, now, today, firstId);
      SR.ReplayPrefix(outcomes, n - 1, today);
      SR.ReplayStep(outcomes, n - 1, today);
      var prev := SR.Replay(prevOutcomes, today)[n - 2];
      assert SR.Replay(outcomes, today)[n - 2] == prev;
      SubmitStep(l0, questionId, userId, outcomes[n - 1], now, today, firstId + n - 1, prev);
    }
  }

  /** A review appended for a pair becomes that pair's latest review. */
  lemma LatestAfterAppend(log: seq<Review>, r: Review, questionId: int, userId: int)
    ensures IsPair(r, questionId, userId) ==> LatestReview(log + [r], questionId, userId) == Some(r)
    ensures !IsPair(r, questionId, userId) ==> LatestReview(log + [r], questionId, userId) == LatestReview(log, questionId, userId)
  {
    assert (log + [r])[..|log|] == log;
  }

  // ---------------------------------------------------------------------
  // Selecting questions
  // ---------------------------------------------------------------------

  /** The questions of `ids`, in that order, looked up in the catalogue; an id
      with no question is skipped silently. */
  function QuestionsFor(catalogue: seq<Question>, ids: seq<int>): (qs: seq<Question>)
    ensures |qs| <= |ids|
    ensures forall q :: q in qs ==> q in catalogue && q.id in ids
  {
    if |ids| == 0 then []
    else
      var rest := QuestionsFor(catalogue, ids[1..]);
      assert forall id :: id in ids[1..] ==> id in ids;
      match FindQuestion(catalogue, ids[0])
      case None => rest
      case Some(q) => [q] + rest
  }

  /** Every id that names a catalogue question contributes that question. */
  lemma {:induction false} QuestionsForFinds(catalogue: seq<Question>, ids: seq<int>)
    ensures forall id :: id in ids && FindQuestion(catalogue, id).Some? ==>
              FindQuestion(catalogue, id).value in QuestionsFor(catalogue, ids)
    decreases |ids|
  {
    if |ids| > 0 {
      QuestionsForFinds(catalogue, ids[1..]);
      assert forall id :: id in ids ==> id == ids[0] || id in ids[1..];
    }
  }

  /** The ids of the questions found keep the order of `ids`. */
  lemma {:induction false} QuestionsForInOrder(catalogue: seq<Question>, ids: seq<int>)
    ensures Subsequence(IdsOf(QuestionsFor(catalogue, ids)), ids)
    decreases |ids|
  {
    if |ids| > 0 {
      QuestionsForInOrder(catalogue, ids[1..]);
      var rest := QuestionsFor(catalogue, ids[1..]);
      match FindQuestion(catalogue, ids[0])
      case None =>
        assert |rest| > 0 ==> rest[0] in rest && rest[0].id != ids[0];
      case Some(q) =>
        assert IdsOf([q] + rest)[1..] == IdsOf(rest);
    }
  }

  /** Distinct ids give distinct questions. */
  lemma {:induction false} QuestionsForDistinct(catalogue: seq<Question>, ids: seq<int>)
    requires NoDuplicates(ids)
    ensures NoDuplicates(QuestionsFor(catalogue, ids))
    decreases |ids|
  {
    if |ids| > 0 {
      assert forall i, j :: 0 <= i < j < |ids| - 1 ==> ids[1..][i] == ids[i + 1] && ids[1..][j] == ids[j + 1];
      QuestionsForDistinct(catalogue, ids[1..]);
      var rest := QuestionsFor(catalogue, ids[1..]);
      match FindQuestion(catalogue, ids[0])
      case None =>
      case Some(q) =>
        assert ids[0] !in ids[1..];
        assert q !in rest;
        ConsNoDuplicates(q, rest);
    }
  }

  /** Looking a catalogue member up by its own id finds it, when ids are unique. */
  lemma FindsOwnId(catalogue: seq<Question>, q: Question)
    requires UniqueIds(catalogue) && q in catalogue
    ensures FindQuestion(catalogue, q.id) == Some(q)
  {
    var i :| 0 <= i < |catalogue| && catalogue[i] == q;
    var found := FindQuestion(catalogue, q.id).value;
    var j :| 0 <= j < |catalogue| && catalogue[j] == found;
    assert i == j;
  }

  /** The questions due for review: each due id, in order, mapped to its
      question, ids without a question skipped. With unique catalogue ids a
      question is returned exactly when the user has some review of it due
      on or before `today`. */
  function GetDueQuestions(log: seq<Review>, catalogue: seq<Question>, userId: int, today: int): (due: seq<Question>)
    ensures Subsequence(IdsOf(due), DueQuestionIds(log, userId, today))
    ensures NoDuplicates(due)
    ensures forall q :: q in due ==> q in catalogue && HasDueReview(log, userId, q.id, today)
    ensures UniqueIds(catalogue) ==>
              forall q :: q in catalogue ==> (q in due <==> HasDueReview(log, userId, q.id, today))
  {
    var ids := DueQuestionIds(log, userId, today);
    var due := QuestionsFor(catalogue, ids);
    QuestionsForInOrder(catalogue, ids);
    QuestionsForDistinct(catalogue, ids);
    QuestionsForFinds(catalogue, ids);
    assert UniqueIds(catalogue) ==> forall q :: q in catalogue && HasDueReview(log, userId, q.id, today) ==> q in due by {
      if UniqueIds(catalogue) {
        forall q | q in catalogue && HasDueReview(log, userId, q.id, today)
          ensures q in due
        {
          FindsOwnId(catalogue, q);
          var i :| 0 <= i < |ids| && ids[i] == q.id;
        }
      }
    }
    due
  }

  /** The unseen questions of the catalogue, in catalogue order: those the
      user has no review of. */
  function Unseen(catalogue: seq<Question>, log: seq<Review>, userId: int): (picked: seq<Question>)
    ensures |picked| <= |catalogue|
  {
    if |catalogue| == 0 then []
    else
      var rest := Unseen(catalogue[..|catalogue| - 1], log, userId);
      var q := catalogue[|catalogue| - 1];
      if LatestReview(log, q.id, userId).None? then rest + [q] else rest
  }

  /** The unseen questions are exactly the catalogue questions the user has
      no review of. */
  lemma {:induction false} UnseenExactly(catalogue: seq<Question>, log: seq<Review>, userId: int)
    ensures forall q :: q in Unseen(catalogue, log, userId) ==> q in catalogue && !HasReviewed(log, userId, q.id)
    ensures forall q :: q in catalogue && !HasReviewed(log, userId, q.id) ==> q in Unseen(catalogue, log, userId)
    decreases |catalogue|
  {
    if |catalogue| > 0 {
      var pre := catalogue[..|catalogue| - 1];
      UnseenExactly(pre, log, userId);
      assert forall i :: 0 <= i < |catalogue| - 1 ==> pre[i] == catalogue[i];
      assert forall q :: q in catalogue ==> q in pre || q == catalogue[|catalogue| - 1];
    }
  }

  /** The unseen questions of a prefix of the catalogue are a prefix of the
      unseen questions of the whole catalogue. */
  lemma {:induction false} UnseenPrefix(catalogue: seq<Question>, i: nat, log: seq<Review>, userId: int)
    requires i <= |catalogue|
    ensures Unseen(catalogue[..i], log, userId) <= Unseen(catalogue, log, userId)
    decreases |catalogue|
  {
    if i < |catalogue| {
      var pre := catalogue[..|catalogue| - 1];
      UnseenPrefix(pre, i, log, userId);
      assert pre[..i] == catalogue[..i];
    } else {
      assert catalogue[..i] == catalogue;
    }
  }

  /** One more catalogue question adds itself to the unseen list exactly
      when the user has no review of it. */
  lemma UnseenStep(catalogue: seq<Question>, i: nat, log: seq<Review>, userId: int)
    requires i < |catalogue|
    ensures Unseen(catalogue[..i + 1], log, userId) ==
            Unseen(catalogue[..i], log, userId) +
            if LatestReview(log, catalogue[i].id, userId).None? then [catalogue[i]] else []
  {
    assert catalogue[..i + 1][..i] == catalogue[..i];
  }

  /** How many new questions a call may return: the limit is checked only
      after a question has been added, so a limit below one still yields one. */
  function Cap(limit: int): (c: int)
    ensures c >= 1 && c >= limit
    ensures limit >= 1 ==> c == limit
  {
    if limit < 1 then 1 else limit
  }

  /** The new questions a call returns: the unseen questions in catalogue
      order, cut after the first `Cap(limit)`. */
  function NewQuestions(catalogue: seq<Question>, log: seq<Review>, userId: int, limit: int): (picked: seq<Question>)
    ensures picked <= Unseen(catalogue, log, userId)
    ensures |picked| == |Unseen(catalogue, log, userId)| || |picked| == Cap(limit)
    ensures forall q :: q in picked ==> q in catalogue && !HasReviewed(log, userId, q.id)
    ensures limit >= 1 ==> |picked| <= limit
    ensures limit < 1 && |Unseen(catalogue, log, userId)| > 0 ==> |picked| == 1
  {
    UnseenExactly(catalogue, log, userId);
    var unseen := Unseen(catalogue, log, userId);
    if |unseen| < Cap(limit) then unseen else unseen[..Cap(limit)]
  }

  /** Once a prefix of the catalogue holds `Cap(limit)` unseen questions,
      those are the new questions of the whole catalogue. */
  lemma NewQuestionsStop(catalogue: seq<Question>, i: nat, log: seq<Review>, userId: int, limit: int)
    requires i <= |catalogue|
    requires |Unseen(catalogue[..i], log, userId)| == Cap(limit)
    ensures NewQuestions(catalogue, log, userId, limit) == Unseen(catalogue[..i], log, userId)
  {
    UnseenPrefix(catalogue, i, log, userId);
  }

  /** Scans the catalogue in order, collecting questions the user has no
      review of and stopping as soon as `limit` are collected. */
  method GetNewQuestions(log: seq<Review>, catalogue: seq<Question>, userId: int, limit: int)
    returns (picked: seq<Question>)
    ensures picked == NewQuestions(catalogue, log, userId, limit)
  {
    picked := [];
    var i := 0;
    while i < |catalogue|
      invariant 0 <= i <= |catalogue|
      invariant picked == Unseen(catalogue[..i], log, userId)
      invariant |picked| < Cap(limit)
    {
      UnseenStep(catalogue, i, log, userId);
      var q := catalogue[i];
      if LatestReview(log, q.id, userId).None? {
        picked := picked + [q];
        if |picked| >= limit {
          NewQuestionsStop(catalogue, i + 1, log, userId, limit);
          return;
        }
      }
      i := i + 1;
    }
    assert catalogue[..i] == catalogue;
    NewQuestionsAll(catalogue, log, userId, limit);
  }

  /** Fewer unseen questions than `Cap(limit)`: all of them are new questions. */
  lemma NewQuestionsAll(catalogue: seq<Question>, log: seq<Review>, userId: int, limit: int)
    requires |Unseen(catalogue, log, userId)| < Cap(limit)
    ensures NewQuestions(catalogue, log, userId, limit) == Unseen(catalogue, log, userId)
  {
  }

  /** Ids strictly increase along the list. */
  ghost predicate SortedById(qs: seq<Question>) {
    var ids := IdsOf(qs);
    forall i, j :: 0 <= i < j < |ids| ==> ids[i] < ids[j]
  }

  /** `SortedById` stated on the questions themselves, the form the
      inductions below work with. Contracts use `SortedById` instead: with
      this form in a contract the solver's search for counterexamples to it
      does not finish within its resource limit, and over `IdsOf` the
      induction does not. `SortedByIdIncrease` shows the two agree. */
  ghost predicate IdsIncrease(qs: seq<Question>) {
    forall i, j :: 0 <= i < j < |qs| ==> qs[i].id < qs[j].id
  }

  lemma SortedByIdIncrease(qs: seq<Question>)
    ensures SortedById(qs) <==> IdsIncrease(qs)
  {
    var ids := IdsOf(qs);
    assert forall i :: 0 <= i < |qs| ==> ids[i] == qs[i].id;
  }

  /** New questions come out in id order when the catalogue is listed in id
      order, as the catalogue query lists it. */
  lemma NewQuestionsInIdOrder(catalogue: seq<Question>, log: seq<Review>, userId: int, limit: int)
    requires SortedById(catalogue)
    ensures SortedById(NewQuestions(catalogue, log, userId, limit))
  {
    SortedByIdIncrease(catalogue);
    UnseenIncrease(catalogue, log, userId);
    var unseen := Unseen(catalogue, log, userId);
    var picked := NewQuestions(catalogue, log, userId, limit);
    assert IdsIncrease(picked) by {
      forall i, j | 0 <= i < j < |picked| ensures picked[i].id < picked[j].id {
        assert picked[i] == unseen[i] && picked[j] == unseen[j];
      }
    }
    SortedByIdIncrease(picked);
  }

  lemma {:induction false} UnseenIncrease(catalogue: seq<Question>, log: seq<Review>, userId: int)
    requires IdsIncrease(catalogue)
    ensures IdsIncrease(Unseen(catalogue, log, userId))
    decreases |catalogue|
  {
    if |catalogue| > 0 {
      var pre := catalogue[..|catalogue| - 1];
      assert IdsIncrease(pre) by {
        forall i, j | 0 <= i < j < |pre| ensures pre[i].id < pre[j].id {
          assert pre[i] == catalogue[i] && pre[j] == catalogue[j];
        }
      }
      UnseenIncrease(pre, log, userId);
      UnseenExactly(pre, log, userId);
      var rest := Unseen(pre, log, userId);
      var last := catalogue[|catalogue| - 1];
      forall k | 0 <= k < |rest|
        ensures rest[k].id < last.id
      {
        assert rest[k] in rest;
        var j :| 0 <= j < |pre| && pre[j] == rest[k];
        assert catalogue[j] == rest[k];
      }
      if LatestReview(log, last.id, userId).None? {
        var picked := rest + [last];
        assert Unseen(catalogue, log, userId) == picked;
        forall i, j | 0 <= i < j < |picked|
          ensures picked[i].id < picked[j].id
        {
          if j == |rest| {
            assert picked[i] == rest[i] && picked[j] == last;
          } else {
            assert picked[i] == rest[i] && picked[j] == rest[j];
          }
        }
      }
    }
  }

  // ---------------------------------------------------------------------
  // Statistics and topic filter
  // ---------------------------------------------------------------------

  /** The outcomes of a list of reviews, in order. */
  function Outcomes(reviews: seq<Review>): (o: seq<bool>)
    ensures |o| == |reviews| && forall k :: 0 <= k < |reviews| ==> o[k] == reviews[k].wasCorrect
  {
    seq(|reviews|, k requires 0 <= k < |reviews| => reviews[k].wasCorrect)
  }

  /** How many reviews of a list were answered correctly. */
  function CorrectCount(reviews: seq<Review>): (n: nat)
    ensures n <= |reviews|
  {
    if |reviews| == 0 then 0
    else CorrectCount(reviews[..|reviews| - 1]) + if reviews[|reviews| - 1].wasCorrect then 1 else 0
  }

  /** The correct count is the number of `true` outcomes among the reviews. */
  lemma {:induction false} CorrectCountIsTrueOutcomes(reviews: seq<Review>)
    ensures CorrectCount(reviews) == multiset(Outcomes(reviews))[true]
  {
    if |reviews| > 0 {
      var pre := reviews[..|reviews| - 1];
      CorrectCountIsTrueOutcomes(pre);
      assert Outcomes(reviews) == Outcomes(pre) + [reviews[|reviews| - 1].wasCorrect];
    }
  }

  /** Putting a review in front adds its outcome to the count. */
  lemma {:induction false} CorrectCountCons(r: Review, reviews: seq<Review>)
    ensures CorrectCount([r] + reviews) == CorrectCount(reviews) + if r.wasCorrect then 1 else 0
    decreases |reviews|
  {
    if |reviews| > 0 {
      var pre := reviews[..|reviews| - 1];
      CorrectCountCons(r, pre);
      assert ([r] + reviews)[..|reviews|] == [r] + pre;
    }
  }

  /** How many reviews in the log the user made, counted straight off the log. */
  ghost function ReviewCountOf(log: seq<Review>, userId: int): (n: nat) {
    if |log| == 0 then 0
    else ReviewCountOf(log[..|log| - 1], userId) + if log[|log| - 1].userId == userId then 1 else 0
  }

  /** How many reviews in the log the user answered correctly. */
  ghost function CorrectCountOf(log: seq<Review>, userId: int): (n: nat) {
    if |log| == 0 then 0
    else CorrectCountOf(log[..|log| - 1], userId) +
         if log[|log| - 1].userId == userId && log[|log| - 1].wasCorrect then 1 else 0
  }

  /** The user's review list holds as many reviews, and as many correct ones,
      as the log holds by that user. */
  lemma {:induction false} UserReviewsCounted(log: seq<Review>, userId: int)
    ensures |UserReviews(log, userId)| == ReviewCountOf(log, userId)
    ensures CorrectCount(UserReviews(log, userId)) == CorrectCountOf(log, userId)
  {
    if |log| > 0 {
      var pre := log[..|log| - 1];
      UserReviewsCounted(pre, userId);
      if log[|log| - 1].userId == userId {
        CorrectCountCons(log[|log| - 1], UserReviews(pre, userId));
      }
    }
  }

  /** The share of correct answers as a percentage; 0 when there are no
      answers, so nothing is divided by zero. */
  function SuccessRate(correctAnswers: int, totalReviews: int): (rate: real)
    ensures totalReviews <= 0 ==> rate == 0.0
    ensures totalReviews > 0 ==> rate * totalReviews as real == 100.0 * correctAnswers as real
    ensures 0 <= correctAnswers <= totalReviews ==> 0.0 <= rate <= 100.0
  {
    if totalReviews > 0 then correctAnswers as real * 100.0 / totalReviews as real else 0.0
  }

  /** Counts the correct answers in one pass, as the statistics loop does. */
  method CountCorrect(reviews: seq<Review>) returns (correctCount: nat)
    ensures correctCount == CorrectCount(reviews)
  {
    correctCount := 0;
    var i := 0;
    while i < |reviews|
      invariant 0 <= i <= |reviews|
      invariant correctCount == CorrectCount(reviews[..i])
    {
      assert reviews[..i + 1][..i] == reviews[..i];
      if reviews[i].wasCorrect {
        correctCount := correctCount + 1;
      }
      i := i + 1;
    }
    assert reviews[..i] == reviews;
  }

  /** Session statistics: the user's review count, how many were correct,
      the success percentage (0 rather than a division by zero when there
      are no reviews) and how many questions are due. The counts are taken
      from the user's review list, which `UserReviewsCounted` ties to the
      log; the count of correct answers is the one `CountCorrect`'s loop
      computes. */
  function GetSessionStats(log: seq<Review>, catalogue: seq<Question>, userId: int, today: int)
    : (stats: SessionStats)
    ensures stats.totalReviews == ReviewCountOf(log, userId)
    ensures stats.correctAnswers == CorrectCountOf(log, userId)
    ensures stats.successRate == SuccessRate(stats.correctAnswers, stats.totalReviews)
    ensures 0.0 <= stats.successRate <= 100.0
    ensures stats.questionsDueToday == |GetDueQuestions(log, catalogue, userId, today)|
  {
    UserReviewsCounted(log, userId);
    var userReviews := UserReviews(log, userId);
    var correctCount := CorrectCount(userReviews);
    SessionStats(|userReviews|, correctCount, |GetDueQuestions(log, catalogue, userId, today)|,
                 SuccessRate(correctCount, |userReviews|))
  }

  /** The questions of `qs` on the given topic, in their order. */
  function OnTopic(qs: seq<Question>, topicId: int): (r: seq<Question>)
    ensures forall q :: q in r ==> q.topicId == topicId && q in qs
    ensures forall q :: q in qs && q.topicId == topicId ==> q in r
    ensures Subsequence(r, qs)
  {
    if |qs| == 0 then []
    else
      var rest := OnTopic(qs[1..], topicId);
      assert forall q :: q in qs ==> q == qs[0] || q in qs[1..];
      if qs[0].topicId == topicId then
        assert ([qs[0]] + rest)[1..] == rest;
        [qs[0]] + rest
      else rest
  }

  /** The due questions on one topic: an order-preserving selection of the
      due questions, exactly those with that topic. */
  function GetDueQuestionsByTopic(log: seq<Review>, catalogue: seq<Question>, userId: int, today: int, topicId: int)
    : (r: seq<Question>)
    ensures forall q :: q in r ==> q.topicId == topicId && q in GetDueQuestions(log, catalogue, userId, today)
    ensures forall q :: q in GetDueQuestions(log, catalogue, userId, today) && q.topicId == topicId ==> q in r
    ensures Subsequence(r, GetDueQuestions(log, catalogue, userId, today))
  {
    OnTopic(GetDueQuestions(log, catalogue, userId, today), topicId)
  }
}
