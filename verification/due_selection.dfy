/** Which questions are due. The stored query behind the scheduler's due list
    selects a question when ANY of the user's reviews of it falls due on or
    before today, not only the latest one. Every review's due date eventually
    passes, so once a question has a past-due review it stays on the due
    list for good, however well the user answers it afterwards. This module
    shows that on a concrete log and in general. It also gives the selection
    that the query's own description, "questions that are due for review
    today", calls for: by each question's latest review, with its property
    proved. */
module DueSelection {
  import opened Repository
  import SR = SpacedRepetition
  import opened StudySession

  /** The latest review of the pair falls due on or before `today`. */
  ghost predicate LatestIsDue(log: seq<Review>, userId: int, questionId: int, today: int) {
    LatestReview(log, questionId, userId).Some? && LatestReview(log, questionId, userId).value.nextReviewDate <= today
  }

  /** The distinct questions the user has reviewed, in order of first review. */
  function ReviewedQuestionIds(log: seq<Review>, userId: int): (ids: seq<int>)
    ensures NoDuplicates(ids)
    ensures forall q :: q in ids <==> HasReviewed(log, userId, q)
  {
    if |log| == 0 then []
    else
      var prefix := log[..|log| - 1];
      var ids := ReviewedQuestionIds(prefix, userId);
      var r := log[|log| - 1];
      assert forall i :: 0 <= i < |log| - 1 ==> prefix[i] == log[i];
      assert forall q :: HasReviewed(log, userId, q) ==> HasReviewed(prefix, userId, q) || IsPair(r, q, userId);
      if r.userId == userId && r.questionId !in ids then ids + [r.questionId] else ids
  }

  /** The ids of `ids` whose latest review is due, in their order. */
  function KeepLatestDue(log: seq<Review>, userId: int, today: int, ids: seq<int>): (kept: seq<int>)
    ensures forall q :: q in kept <==> q in ids && LatestIsDue(log, userId, q, today)
    ensures NoDuplicates(ids) ==> NoDuplicates(kept)
  {
    if |ids| == 0 then []
    else
      var rest := KeepLatestDue(log, userId, today, ids[1..]);
      assert forall q :: q in ids <==> q == ids[0] || q in ids[1..];
      match LatestReview(log, ids[0], userId)
      case Some(r) =>
        if r.nextReviewDate <= today then
          assert NoDuplicates(ids) ==> ids[0] !in rest;
          ConsNoDuplicates(ids[0], rest);
          [ids[0]] + rest
        else rest
      case None => rest
  }

  /** The corrected due selection: the questions whose LATEST review by the
      user falls due on or before `today`; a question never reviewed is
      never due. */
  function LatestDueQuestionIds(log: seq<Review>, userId: int, today: int): (ids: seq<int>)
    ensures NoDuplicates(ids)
    ensures forall q :: q in ids <==> LatestIsDue(log, userId, q, today)
  {
    KeepLatestDue(log, userId, today, ReviewedQuestionIds(log, userId))
  }

  /** The due questions under the corrected selection; with unique catalogue
      ids a question is returned exactly when its latest review is due. */
  function GetDueQuestionsByLatest(log: seq<Review>, catalogue: seq<Question>, userId: int, today: int)
    : (due: seq<Question>)
    ensures NoDuplicates(due)
    ensures Subsequence(IdsOf(due), LatestDueQuestionIds(log, userId, today))
    ensures forall q :: q in due ==> q in catalogue && LatestIsDue(log, userId, q.id, today)
    ensures UniqueIds(catalogue) ==>
              forall q :: q in catalogue ==> (q in due <==> LatestIsDue(log, userId, q.id, today))
  {
    var ids := LatestDueQuestionIds(log, userId, today);
    var due := QuestionsFor(catalogue, ids);
    QuestionsForInOrder(catalogue, ids);
    QuestionsForDistinct(catalogue, ids);
    QuestionsForFinds(catalogue, ids);
    assert UniqueIds(catalogue) ==> forall q :: q in catalogue && LatestIsDue(log, userId, q.id, today) ==> q in due by {
      if UniqueIds(catalogue) {
        forall q | q in catalogue && LatestIsDue(log, userId, q.id, today)
          ensures q in due
        {
          FindsOwnId(catalogue, q);
        }
      }
    }
    due
  }

  /** A concrete log on which the two selections part: question 7 was
      answered on day 10 (due day 11) and again on day 12 (due day 18). On
      day 12 the stored query still lists it, although its latest review is
      not due for six more days. */
  lemma StaleReviewKeepsQuestionDue()
    ensures var log := [Review(1, 7, 1, 10, true, 26, 1, 11), Review(2, 7, 1, 12, true, 27, 6, 18)];
            && 7 in DueQuestionIds(log, 1, 12)
            && LatestReview(log, 7, 1) == Some(log[1])
            && 7 !in LatestDueQuestionIds(log, 1, 12)
  {
    var log := [Review(1, 7, 1, 10, true, 26, 1, 11), Review(2, 7, 1, 12, true, 27, 6, 18)];
    assert HasDueReview(log, 1, 7, 12) by {
      assert IsPair(log[0], 7, 1) && log[0].nextReviewDate <= 12;
    }
    LatestAfterAppend(log[..1], log[1], 7, 1);
    assert log[..1] + [log[1]] == log;
  }

  /** As written: once the user has a review of a question due by `today`,
      answering that question again, whatever the answer, leaves it on the
      due list, although the new review falls due only after `today`. */
  lemma AnsweringNeverClearsDueAsWritten(log: seq<Review>, questionId: int, userId: int, wasCorrect: bool,
                                         now: int, today: int, newId: int)
    requires WellScheduled(log)
    requires HasDueReview(log, userId, questionId, today)
    ensures var rec := NextRecord(log, questionId, userId, wasCorrect, now, today, newId);
            && rec.nextReviewDate > today
            && questionId in DueQuestionIds(log + [rec], userId, today)
  {
    var rec := NextRecord(log, questionId, userId, wasCorrect, now, today, newId);
    SubmissionKeepsSchedule(log, questionId, userId, wasCorrect, now, today, newId);
    assert (log + [rec])[|log|] == rec;
    var i :| 0 <= i < |log| && IsPair(log[i], questionId, userId) && log[i].nextReviewDate <= today;
    assert (log + [rec])[i] == log[i];
    assert HasDueReview(log + [rec], userId, questionId, today);
  }

  /** Corrected: answering a question takes it off the due list until its
      new review falls due, whatever the answer. */
  lemma AnsweringClearsDueByLatest(log: seq<Review>, questionId: int, userId: int, wasCorrect: bool,
                                   now: int, today: int, newId: int)
    requires WellScheduled(log)
    ensures var rec := NextRecord(log, questionId, userId, wasCorrect, now, today, newId);
            questionId !in LatestDueQuestionIds(log + [rec], userId, today)
  {
    var rec := NextRecord(log, questionId, userId, wasCorrect, now, today, newId);
    SubmissionKeepsSchedule(log, questionId, userId, wasCorrect, now, today, newId);
    assert (log + [rec])[|log|] == rec;
    LatestAfterAppend(log, rec, questionId, userId);
  }
}
