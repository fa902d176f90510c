/** The records the scheduler reads and writes, and the meaning of the
    queries it asks of storage, written as plain functions over an in-memory
    log. The review log holds every review in insertion order, oldest first,
    which is taken as the order of their review instants; a query that lists
    "most recent first" therefore reads the log from its end. */
module Repository {

  datatype Option<T> = None | Some(value: T)

  /** One review: who answered which question, when, whether correctly, and
      the schedule computed for it. Ease in tenths; `reviewedAt` is an
      instant and `nextReviewDate` a day number. */
  datatype Review = Review(
    id: int,
    questionId: int,
    userId: int,
    reviewedAt: int,
    wasCorrect: bool,
    easeFactor: int,
    intervalDays: int,
    nextReviewDate: int)

  /** A question of the catalogue; the scheduler reads only `id` and `topicId`. */
  datatype Question = Question(
    id: int,
    questionText: string,
    answer: string,
    topicId: int,
    difficulty: string,
    createdAt: int)

  predicate IsPair(r: Review, questionId: int, userId: int) {
    r.questionId == questionId && r.userId == userId
  }

  /** `userId` reviewed question `questionId` at least once. */
  ghost predicate HasReviewed(log: seq<Review>, userId: int, questionId: int) {
    exists i :: 0 <= i < |log| && IsPair(log[i], questionId, userId)
  }

  /** Some review of `questionId` by `userId` (not necessarily the latest)
      falls due on or before `today`. */
  ghost predicate HasDueReview(log: seq<Review>, userId: int, questionId: int, today: int) {
    exists i :: 0 <= i < |log| && IsPair(log[i], questionId, userId) && log[i].nextReviewDate <= today
  }

  ghost predicate NoDuplicates<T>(s: seq<T>) {
    forall i, j :: 0 <= i < j < |s| ==> s[i] != s[j]
  }

  /** `sub` is `s` with some elements left out and the rest kept in order. */
  ghost predicate Subsequence<T>(sub: seq<T>, s: seq<T>)
    decreases |s|
  {
    if |sub| == 0 then true
    else if |s| == 0 then false
    else if sub[0] == s[0] then Subsequence(sub[1..], s[1..])
    else Subsequence(sub, s[1..])
  }

  /** The log read from its end: the most recent review first. */
  function Reversed<T>(s: seq<T>): (r: seq<T>)
    ensures |r| == |s| && forall i :: 0 <= i < |s| ==> r[i] == s[|s| - 1 - i]
  {
    if |s| == 0 then [] else [s[|s| - 1]] + Reversed(s[..|s| - 1])
  }

  /** The most recent review of the pair, or None when the user never
      reviewed the question. */
  function LatestReview(log: seq<Review>, questionId: int, userId: int): (r: Option<Review>)
    ensures r.None? <==> !HasReviewed(log, userId, questionId)
    ensures r.Some? ==> exists i :: 0 <= i < |log| && log[i] == r.value && IsPair(log[i], questionId, userId)
                                    && forall j :: i < j < |log| ==> !IsPair(log[j], questionId, userId)
  {
    if |log| == 0 then None
    else if IsPair(log[|log| - 1], questionId, userId) then Some(log[|log| - 1])
    else
      var r := LatestReview(log[..|log| - 1], questionId, userId);
      assert forall i :: 0 <= i < |log| - 1 ==> log[..|log| - 1][i] == log[i];
      r
  }

  /** All reviews of one question, by any user, most recent first. */
  function QuestionHistory(log: seq<Review>, questionId: int): (h: seq<Review>)
    ensures |h| <= |log|
    ensures forall r :: r in h ==> r.questionId == questionId && r in log
  {
    if |log| == 0 then []
    else
      var rest := QuestionHistory(log[..|log| - 1], questionId);
      if log[|log| - 1].questionId == questionId then [log[|log| - 1]] + rest else rest
  }

  /** The question's history lists every review of the question, and in the
      order of the log read backwards, the most recent first. */
  lemma {:induction false} QuestionHistoryExactly(log: seq<Review>, questionId: int)
    ensures forall r :: r in log && r.questionId == questionId ==> r in QuestionHistory(log, questionId)
    ensures Subsequence(QuestionHistory(log, questionId), Reversed(log))
    decreases |log|
  {
    if |log| > 0 {
      var prefix := log[..|log| - 1];
      var last := log[|log| - 1];
      var rest := QuestionHistory(prefix, questionId);
      QuestionHistoryExactly(prefix, questionId);
      assert forall r :: r in log ==> r in prefix || r == last;
      assert Reversed(log) == [last] + Reversed(prefix);
      if last.questionId == questionId {
        assert ([last] + rest)[1..] == rest;
      } else {
        assert |rest| > 0 ==> rest[0] in rest && rest[0] != last;
      }
    }
  }

  /** All reviews of one question by one user, most recent first. */
  function PairHistory(log: seq<Review>, questionId: int, userId: int): (h: seq<Review>)
    ensures |h| <= |log|
    ensures forall k :: 0 <= k < |h| ==> IsPair(h[k], questionId, userId)
    ensures |h| == 0 <==> !HasReviewed(log, userId, questionId)
    ensures |h| > 0 ==> LatestReview(log, questionId, userId) == Some(h[0])
  {
    if |log| == 0 then []
    else
      var rest := PairHistory(log[..|log| - 1], questionId, userId);
      assert forall i :: 0 <= i < |log| - 1 ==> log[..|log| - 1][i] == log[i];
      if IsPair(log[|log| - 1], questionId, userId) then [log[|log| - 1]] + rest else rest
  }

  /** How many reviews of the pair the log holds, counted straight off the log. */
  ghost function PairCountOf(log: seq<Review>, questionId: int, userId: int): (n: nat) {
    if |log| == 0 then 0
    else PairCountOf(log[..|log| - 1], questionId, userId) +
         if IsPair(log[|log| - 1], questionId, userId) then 1 else 0
  }

  /** The pair's history lists every review of the pair in the log and
      nothing else, as many times as the log holds it. */
  lemma {:induction false} PairHistoryExactly(log: seq<Review>, questionId: int, userId: int)
    ensures forall r :: r in PairHistory(log, questionId, userId) ==> r in log
    ensures forall r :: r in log && IsPair(r, questionId, userId) ==> r in PairHistory(log, questionId, userId)
    ensures |PairHistory(log, questionId, userId)| == PairCountOf(log, questionId, userId)
    decreases |log|
  {
    if |log| > 0 {
      var prefix := log[..|log| - 1];
      var last := log[|log| - 1];
      var rest := PairHistory(prefix, questionId, userId);
      PairHistoryExactly(prefix, questionId, userId);
      assert log == prefix + [last];
      if IsPair(last, questionId, userId) {
        assert PairHistory(log, questionId, userId) == [last] + rest;
      } else {
        assert PairHistory(log, questionId, userId) == rest;
      }
    }
  }

  /** The pair's history keeps the order of the log read backwards: the
      most recent review first. */
  lemma {:induction false} PairHistoryNewestFirst(log: seq<Review>, questionId: int, userId: int)
    ensures Subsequence(PairHistory(log, questionId, userId), Reversed(log))
    decreases |log|
  {
    if |log| > 0 {
      var prefix := log[..|log| - 1];
      var last := log[|log| - 1];
      var rest := PairHistory(prefix, questionId, userId);
      PairHistoryNewestFirst(prefix, questionId, userId);
      assert Reversed(log) == [last] + Reversed(prefix);
      if IsPair(last, questionId, userId) {
        assert ([last] + rest)[1..] == rest;
      }
    }
  }

  /** All reviews by one user, most recent first. */
  function UserReviews(log: seq<Review>, userId: int): (h: seq<Review>)
    ensures |h| <= |log|
    ensures forall r :: r in h ==> r.userId == userId && r in log
    ensures forall r :: r in log && r.userId == userId ==> r in h
  {
    if |log| == 0 then []
    else
      var rest := UserReviews(log[..|log| - 1], userId);
      assert forall i :: 0 <= i < |log| - 1 ==> log[..|log| - 1][i] == log[i];
      if log[|log| - 1].userId == userId then [log[|log| - 1]] + rest else rest
  }

  /** The user's reviews keep the order of the log read backwards. */
  lemma {:induction false} UserReviewsNewestFirst(log: seq<Review>, userId: int)
    ensures Subsequence(UserReviews(log, userId), Reversed(log))
    decreases |log|
  {
    if |log| > 0 {
      var prefix := log[..|log| - 1];
      var last := log[|log| - 1];
      var rest := UserReviews(prefix, userId);
      UserReviewsNewestFirst(prefix, userId);
      assert Reversed(log) == [last] + Reversed(prefix);
      if last.userId == userId {
        assert ([last] + rest)[1..] == rest;
      } else {
        assert |rest| > 0 ==> rest[0] in rest && rest[0] != last;
      }
    }
  }

  /** The distinct questions for which the user has ANY review due on or
      before `today`, listed in order of their first such review. This is the
      stored query's meaning: it does not look at whether that review is the
      latest one for the question. */
  function DueQuestionIds(log: seq<Review>, userId: int, today: int): (ids: seq<int>)
    ensures NoDuplicates(ids)
    ensures forall q :: q in ids <==> HasDueReview(log, userId, q, today)
  {
    if |log| == 0 then []
    else
      var prefix := log[..|log| - 1];
      var ids := DueQuestionIds(prefix, userId, today);
      var r := log[|log| - 1];
      assert forall i :: 0 <= i < |log| - 1 ==> prefix[i] == log[i];
      assert forall q :: HasDueReview(log, userId, q, today) ==>
               HasDueReview(prefix, userId, q, today) || (IsPair(r, q, userId) && r.nextReviewDate <= today);
      if r.userId == userId && r.nextReviewDate <= today && r.questionId !in ids then ids + [r.questionId]
      else ids
  }

  /** The question with the given id, or None when the catalogue has none. */
  function FindQuestion(catalogue: seq<Question>, id: int): (r: Option<Question>)
    ensures r.None? <==> forall i :: 0 <= i < |catalogue| ==> catalogue[i].id != id
    ensures r.Some? ==> r.value in catalogue && r.value.id == id
  {
    if |catalogue| == 0 then None
    else if catalogue[0].id == id then Some(catalogue[0])
    else
      var r := FindQuestion(catalogue[1..], id);
      assert forall i :: 1 <= i < |catalogue| ==> catalogue[1..][i - 1] == catalogue[i];
      r
  }
}
