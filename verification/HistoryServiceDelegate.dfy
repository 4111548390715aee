/** The refactored revision of the learning-history service, which splits
    the per-result update into small helpers. Its status reclassification
    and review scheduling are verbatim copies of the service's and are the
    same functions here (HistoryService.UpdateLearningStatus and
    HistoryService.CalculateNextReviewDate). */
module HistoryServiceDelegate {
  import opened Common
  import opened LearningHistory
  import HistoryService

  /** Records a view at `now`: one more answer, nothing else changes. */
  function UpdateHistoryBasicInfo(h: History, now: Instant): (r: History)
    ensures r.lastViewedAt == now && r.answerCount == h.answerCount + 1
    ensures r.(lastViewedAt := h.lastViewedAt, answerCount := h.answerCount) == h
  {
    h.(lastViewedAt := now, answerCount := h.answerCount + 1)
  }

  /** A success: one more success, the streak grows, the best streak keeps
      the maximum. */
  function HandleSuccessfulAnswer(h: History): (r: History)
    ensures r.nbSuccess == h.nbSuccess + 1 && r.currentStreak == h.currentStreak + 1
    ensures r.bestStreak >= h.bestStreak && r.bestStreak >= r.currentStreak
    ensures r.bestStreak == h.bestStreak || r.bestStreak == r.currentStreak
    ensures r.(nbSuccess := h.nbSuccess, currentStreak := h.currentStreak, bestStreak := h.bestStreak) == h
  {
    var streak := h.currentStreak + 1;
    h.(nbSuccess := h.nbSuccess + 1, currentStreak := streak,
       bestStreak := if streak > h.bestStreak then streak else h.bestStreak)
  }

  /** An error: one more error and the streak is broken. */
  function HandleFailedAnswer(h: History): (r: History)
    ensures r.nbErrors == h.nbErrors + 1 && r.currentStreak == 0
    ensures r.(nbErrors := h.nbErrors, currentStreak := h.currentStreak) == h
  {
    h.(nbErrors := h.nbErrors + 1, currentStreak := 0)
  }

  /** An unanswered question: one more unanswered and the streak is broken. */
  function HandleUnansweredQuestion(h: History): (r: History)
    ensures r.nbUnanswered == h.nbUnanswered + 1 && r.currentStreak == 0
    ensures r.(nbUnanswered := h.nbUnanswered, currentStreak := h.currentStreak) == h
  {
    h.(nbUnanswered := h.nbUnanswered + 1, currentStreak := 0)
  }

  /** Dispatches on the outcome; an unrecognised token changes nothing. */
  function UpdateHistoryStats(h: History, status: ResultStatus): (r: History)
    ensures !status.Valid() ==> r == h
    ensures status.Valid() ==> Total(r) == Total(h) + 1
    ensures r.bestStreak >= h.bestStreak
    ensures r.currentStreak <= r.bestStreak || r.currentStreak == h.currentStreak
    ensures r.userId == h.userId && r.wordId == h.wordId && r.answerCount == h.answerCount
    ensures r.lastViewedAt == h.lastViewedAt && r.nextReviewDate == h.nextReviewDate
    ensures r.status == h.status
  {
    match status
    case Success => HandleSuccessfulAnswer(h)
    case Error => HandleFailedAnswer(h)
    case Unanswered => HandleUnansweredQuestion(h)
    case Unrecognised(_) => h
  }

  /** The helpers, applied in the order the service applies their inlined
      bodies, compute exactly the service's per-result update. */
  lemma DelegateAgreesWithService(h: History, status: ResultStatus, now: Instant)
    ensures HistoryService.ApplyResult(h, status, now)
         == HistoryService.CalculateNextReviewDate(
              HistoryService.UpdateLearningStatus(
                UpdateHistoryStats(UpdateHistoryBasicInfo(h, now), status)), now)
  {
  }

  /** Counting a valid outcome on top of a recorded view restores the
      bookkeeping invariants, and the streak bound survives it. */
  lemma StatsRestoreInvariant(h: History, status: ResultStatus, now: Instant)
    requires WellFormed(h) && status.Valid()
    ensures var r := UpdateHistoryStats(UpdateHistoryBasicInfo(h, now), status);
      r.answerCount == Total(r) && r.currentStreak <= r.bestStreak <= r.nbSuccess
  {
  }

  /** The delegate pipeline grants Mastered only on a streak of at least 5
      and Reviewing only on a streak of at least 3. */
  lemma StatusNeedsStreak(h: History, status: ResultStatus, now: Instant)
    ensures var r := HistoryService.UpdateLearningStatus(
              UpdateHistoryStats(UpdateHistoryBasicInfo(h, now), status));
      && (r.status == Mastered ==> r.currentStreak >= 5)
      && (r.status == Reviewing ==> r.currentStreak >= 3)
  {
  }
}
