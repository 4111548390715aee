/** The learning-history service: the state machine that applies one quiz
    outcome to a record (counters and streaks, status reclassification, next
    review date) and the batch ingestion that applies a quiz's results one at
    a time against the store. */
module HistoryService {
  import opened Common
  import opened LearningHistory
  import opened HistoryRepository

  // ---------------------------------------------------------------------
  // Status reclassification
  // ---------------------------------------------------------------------

  /** The status a record's counters call for. The success rate used here
      weighs unanswered questions twice, nbSuccess / (total + nbUnanswered):
      no answer at all is New; a streak of at least 5 with that rate at
      least 0.9 is Mastered; failing that, a streak of at least 3 with the
      rate at least 0.7 is Reviewing; anything else is Learning. */
  predicate StatusMatchesCounters(h: History)
  {
    var weighted := Total(h) + h.nbUnanswered;
    var masters := Total(h) > 0 && h.currentStreak >= 5 && 10 * h.nbSuccess >= 9 * weighted;
    var reviews := Total(h) > 0 && h.currentStreak >= 3 && 10 * h.nbSuccess >= 7 * weighted;
    && (h.status == New <==> Total(h) == 0)
    && (h.status == Mastered <==> masters)
    && (h.status == Reviewing <==> reviews && !masters)
    && (h.status == Learning <==> Total(h) > 0 && !masters && !reviews)
  }

  /** Reclassifies a record from its counters; nothing but the status
      changes. */
  function UpdateLearningStatus(h: History): (r: History)
    ensures r == h.(status := r.status)
    ensures StatusMatchesCounters(r)
    ensures r.status == New <==> Total(h) == 0
    ensures r.status == Mastered ==>
      h.currentStreak >= 5 && 10 * h.nbSuccess >= 9 * (Total(h) + h.nbUnanswered)
    ensures r.status == Reviewing ==>
      h.currentStreak >= 3 && 10 * h.nbSuccess >= 7 * (Total(h) + h.nbUnanswered)
    ensures Total(h) > 0 && h.currentStreak < 3 ==> r.status == Learning
  {
    var total := Total(h);
    var weighted := total + h.nbUnanswered;
    var status :=
      if total == 0 then New
      else if h.currentStreak >= 5 && RateAtLeast(h.nbSuccess, weighted, 9, 10) then Mastered
      else if h.currentStreak >= 3 && RateAtLeast(h.nbSuccess, weighted, 7, 10) then Reviewing
      else Learning;
    h.(status := status)
  }

  /** The counters determine the status: two records that agree on them
      and on the streak are classified alike, whatever status they held. */
  lemma StatusDeterminedByCounters(a: History, b: History)
    requires StatusMatchesCounters(a) && StatusMatchesCounters(b)
    requires a.nbSuccess == b.nbSuccess && a.nbErrors == b.nbErrors
    requires a.nbUnanswered == b.nbUnanswered && a.currentStreak == b.currentStreak
    ensures a.status == b.status
  {
  }

  /** A Mastered record has at least nine successes in every ten answers,
      and a Reviewing one at least seven, whatever the unanswered weighting. */
  lemma StatusBoundsSuccessShare(h: History)
    requires WellFormed(h)
    ensures var s := UpdateLearningStatus(h).status;
      && (s == Mastered ==> 10 * h.nbSuccess >= 9 * h.answerCount)
      && (s == Reviewing ==> 10 * h.nbSuccess >= 7 * h.answerCount)
  {
  }

  // ---------------------------------------------------------------------
  // Next review date
  // ---------------------------------------------------------------------

  /** Base review interval of a status, in hours. */
  function BaseIntervalHours(s: LearningStatus): nat
  {
    match s
    case New => 4
    case Learning => 24
    case Reviewing => 72
    case Mastered => 168
  }

  /** A more advanced status is reviewed less often. */
  lemma BaseIntervalGrowsWithProgress(a: LearningStatus, b: LearningStatus)
    ensures Rank(a) < Rank(b) ==> BaseIntervalHours(a) < BaseIntervalHours(b)
  {
  }

  /** The streak part of the multiplier, in tenths: 0.2 per streak step
      once the streak exceeds 3. */
  function StreakBonusTenths(h: History): nat
  {
    if h.currentStreak > 3 then 2 * h.currentStreak else 0
  }

  /** The performance multiplier, in tenths: 1.0, plus 0.2 per streak step
      once the streak exceeds 3, plus 0.5 when the plain success rate
      nbSuccess / total exceeds 0.8, minus 0.5 when it is below 0.6. With
      no answer the rate is NaN and neither adjustment applies. */
  function MultiplierTenths(h: History): (m: int)
    ensures m >= 5
    ensures h.currentStreak <= 3 ==> 5 <= m <= 15
    ensures h.currentStreak > 3 ==> m >= 5 + 2 * h.currentStreak
    ensures 5 * h.nbSuccess > 4 * Total(h) ==> m == 15 + StreakBonusTenths(h)
    ensures 5 * h.nbSuccess < 3 * Total(h) ==> m == 5 + StreakBonusTenths(h)
    ensures 3 * Total(h) <= 5 * h.nbSuccess <= 4 * Total(h) ==> m == 10 + StreakBonusTenths(h)
  {
    var total := Total(h);
    10
    + (if h.currentStreak > 3 then 2 * h.currentStreak else 0)
    + (if RateAbove(h.nbSuccess, total, 4, 5) then 5 else 0)
    - (if RateBelow(h.nbSuccess, total, 3, 5) then 5 else 0)
  }

  /** At equal streak, a record with a success share at least as high gets
      a multiplier at least as large. */
  lemma {:induction false} MultiplierGrowsWithSuccessShare(a: History, b: History)
    requires a.currentStreak == b.currentStreak
    requires Total(a) > 0 && Total(b) > 0
    requires a.nbSuccess * Total(b) <= b.nbSuccess * Total(a)
    ensures MultiplierTenths(a) <= MultiplierTenths(b)
  {
    var ta, tb := Total(a), Total(b);
    if 5 * a.nbSuccess > 4 * ta {
      ShareAboveCarries(a.nbSuccess, ta, b.nbSuccess, tb, 4);
    }
    if 5 * b.nbSuccess < 3 * tb {
      ShareBelowCarries(a.nbSuccess, ta, b.nbSuccess, tb, 3);
    }
  }

  /** A share above p/5 stays above it for a share at least as high. */
  lemma ShareAboveCarries(sa: nat, ta: nat, sb: nat, tb: nat, p: nat)
    requires ta > 0 && tb > 0 && sa * tb <= sb * ta && 5 * sa > p * ta
    ensures 5 * sb > p * tb
  {
    assert 5 * sa * tb > p * ta * tb by {
      MulStrict(5 * sa, p * ta, tb);
    }
    assert 5 * sb * ta >= 5 * sa * tb by {
      MulMono(sa * tb, sb * ta, 5);
    }
    MulCancel(5 * sb, p * tb, ta);
  }

  /** A share below p/5 was already below it for a share at most as high. */
  lemma ShareBelowCarries(sa: nat, ta: nat, sb: nat, tb: nat, p: nat)
    requires ta > 0 && tb > 0 && sa * tb <= sb * ta && 5 * sb < p * tb
    ensures 5 * sa < p * ta
  {
    assert 5 * sb * ta < p * tb * ta by {
      MulStrict(p * tb, 5 * sb, ta);
    }
    assert 5 * sa * tb <= 5 * sb * ta by {
      MulMono(sa * tb, sb * ta, 5);
    }
    MulCancel(p * ta, 5 * sa, tb);
  }

  lemma MulMono(x: int, y: int, k: nat)
    requires x <= y
    ensures x * k <= y * k
  {
  }

  lemma MulCancel(x: int, y: int, k: int)
    requires x * k > y * k && k > 0
    ensures x > y
  {
  }

  lemma MulStrict(x: int, y: int, k: int)
    requires x > y && k > 0
    ensures x * k > y * k
  {
  }

  /** The bonus and the penalty on the success rate never both apply. */
  lemma RateAdjustmentsExclusive(h: History)
    ensures !(RateAbove(h.nbSuccess, Total(h), 4, 5) && RateBelow(h.nbSuccess, Total(h), 3, 5))
  {
  }

  /** The review interval in seconds: base hours times 3600 times the
      multiplier. */
  function IntervalSeconds(h: History): (d: int)
    ensures 10 * d == BaseIntervalHours(h.status) * 3600 * MultiplierTenths(h)
    ensures d >= BaseIntervalHours(h.status) * 1800
    ensures d > 0
  {
    BaseIntervalHours(h.status) * 360 * MultiplierTenths(h)
  }

  /** At equal status and streak, a better success share never brings the
      next review closer. */
  lemma IntervalGrowsWithSuccessShare(a: History, b: History)
    requires a.status == b.status && a.currentStreak == b.currentStreak
    requires Total(a) > 0 && Total(b) > 0
    requires a.nbSuccess * Total(b) <= b.nbSuccess * Total(a)
    ensures IntervalSeconds(a) <= IntervalSeconds(b)
  {
    MultiplierGrowsWithSuccessShare(a, b);
    MulMono(MultiplierTenths(a), MultiplierTenths(b), BaseIntervalHours(a.status) * 360);
  }

  /** At equal status and counters, a longer streak never brings the next
      review closer, and past a streak of 3 every further step pushes it
      back. */
  lemma IntervalGrowsWithStreak(a: History, b: History)
    requires a.status == b.status && a.nbSuccess == b.nbSuccess && Total(a) == Total(b)
    requires a.currentStreak <= b.currentStreak
    ensures IntervalSeconds(a) <= IntervalSeconds(b)
    ensures a.currentStreak < b.currentStreak && b.currentStreak > 3 ==>
      IntervalSeconds(a) < IntervalSeconds(b)
  {
  }

  /** Schedules the next review relative to `now`: the base interval of
      the status stretched by the performance multiplier. */
  function CalculateNextReviewDate(h: History, now: Instant): (r: History)
    ensures r == h.(nextReviewDate := r.nextReviewDate)
    ensures r.nextReviewDate == now + BaseIntervalHours(h.status) * 360 * MultiplierTenths(h)
    ensures r.nextReviewDate == now + BaseIntervalHours(r.status) * 360 * MultiplierTenths(r)
    ensures r.nextReviewDate > now
    ensures r.nextReviewDate >= now + BaseIntervalHours(h.status) * 1800
  {
    h.(nextReviewDate := now + IntervalSeconds(h))
  }

  // ---------------------------------------------------------------------
  // One quiz outcome
  // ---------------------------------------------------------------------

  /** Applies one quiz outcome to a record at time `now`: the view is
      recorded, the matching counter and the streaks are updated, the status
      is reclassified and the next review is scheduled. An unrecognised
      token only records the view. */
  function ApplyResult(h: History, status: ResultStatus, now: Instant): (r: History)
    ensures r.userId == h.userId && r.wordId == h.wordId
    ensures r.lastViewedAt == now && r.answerCount == h.answerCount + 1
    ensures r.nextReviewDate > now
    ensures r.nbSuccess >= h.nbSuccess && r.nbErrors >= h.nbErrors
    ensures r.nbUnanswered >= h.nbUnanswered && r.bestStreak >= h.bestStreak
    ensures status == Success ==>
      && r.nbSuccess == h.nbSuccess + 1
      && r.nbErrors == h.nbErrors && r.nbUnanswered == h.nbUnanswered
      && r.currentStreak == h.currentStreak + 1
      && r.bestStreak == Max(h.bestStreak, h.currentStreak + 1)
    ensures status == Error ==>
      && r.nbErrors == h.nbErrors + 1
      && r.nbSuccess == h.nbSuccess && r.nbUnanswered == h.nbUnanswered
      && r.currentStreak == 0 && r.bestStreak == h.bestStreak
    ensures status == Unanswered ==>
      && r.nbUnanswered == h.nbUnanswered + 1
      && r.nbSuccess == h.nbSuccess && r.nbErrors == h.nbErrors
      && r.currentStreak == 0 && r.bestStreak == h.bestStreak
    ensures !status.Valid() ==>
      && r.nbSuccess == h.nbSuccess && r.nbErrors == h.nbErrors
      && r.nbUnanswered == h.nbUnanswered
      && r.currentStreak == h.currentStreak && r.bestStreak == h.bestStreak
    ensures status.Valid() && WellFormed(h) ==> WellFormed(r) && r.status != New
    ensures !status.Valid() && WellFormed(h) ==> r.answerCount == Total(r) + 1
    ensures StatusMatchesCounters(r)
    ensures r.nextReviewDate == now + BaseIntervalHours(r.status) * 360 * MultiplierTenths(r)
  {
    var counted := RecordAnswer(h, status, now);
    var classified := UpdateLearningStatus(counted);
    CalculateNextReviewDate(classified, now)
  }

  /** The bookkeeping part of one outcome: the view is recorded, and the
      matching counter and the streaks are updated; status and review date
      are left for the caller to recompute. */
  function RecordAnswer(h: History, status: ResultStatus, now: Instant): (r: History)
    ensures r.userId == h.userId && r.wordId == h.wordId
    ensures r.lastViewedAt == now && r.answerCount == h.answerCount + 1
    ensures status == Success ==>
      && r.nbSuccess == h.nbSuccess + 1
      && r.nbErrors == h.nbErrors && r.nbUnanswered == h.nbUnanswered
      && r.currentStreak == h.currentStreak + 1
      && r.bestStreak == Max(h.bestStreak, h.currentStreak + 1)
    ensures status == Error ==>
      && r.nbErrors == h.nbErrors + 1
      && r.nbSuccess == h.nbSuccess && r.nbUnanswered == h.nbUnanswered
      && r.currentStreak == 0 && r.bestStreak == h.bestStreak
    ensures status == Unanswered ==>
      && r.nbUnanswered == h.nbUnanswered + 1
      && r.nbSuccess == h.nbSuccess && r.nbErrors == h.nbErrors
      && r.currentStreak == 0 && r.bestStreak == h.bestStreak
    ensures !status.Valid() ==>
      && r.nbSuccess == h.nbSuccess && r.nbErrors == h.nbErrors
      && r.nbUnanswered == h.nbUnanswered
      && r.currentStreak == h.currentStreak && r.bestStreak == h.bestStreak
  {
    var viewed := h.(lastViewedAt := now, answerCount := h.answerCount + 1);
    if status == Success then
      var streak := viewed.currentStreak + 1;
      viewed.(nbSuccess := viewed.nbSuccess + 1, currentStreak := streak,
              bestStreak := if streak > viewed.bestStreak then streak else viewed.bestStreak)
    else if status == Error then
      viewed.(nbErrors := viewed.nbErrors + 1, currentStreak := 0)
    else if status == Unanswered then
      viewed.(nbUnanswered := viewed.nbUnanswered + 1, currentStreak := 0)
    else viewed
  }

  /** Any miss demotes a record to Learning, whatever its status before. */
  lemma MissDemotesToLearning(h: History, status: ResultStatus, now: Instant)
    requires status == Error || status == Unanswered
    ensures ApplyResult(h, status, now).status == Learning
    ensures ApplyResult(h, status, now).currentStreak == 0
  {
  }

  /** Applies a sequence of outcomes in order, all at time `now`. */
  function ApplyAll(h: History, statuses: seq<ResultStatus>, now: Instant): (r: History)
    ensures r.userId == h.userId && r.wordId == h.wordId
    ensures r.answerCount == h.answerCount + |statuses|
    ensures |statuses| > 0 ==> r.nextReviewDate > now
    decreases |statuses|
  {
    if |statuses| == 0 then h
    else ApplyResult(ApplyAll(h, statuses[..|statuses| - 1], now), statuses[|statuses| - 1], now)
  }

  /** `n` copies of one outcome. */
  function Repeat(status: ResultStatus, n: nat): (r: seq<ResultStatus>)
    ensures |r| == n
    ensures forall i :: 0 <= i < n ==> r[i] == status
  {
    if n == 0 then [] else Repeat(status, n - 1) + [status]
  }

  /** A run of `n` successes on a fresh record: every counter follows the
      run, and the status climbs Learning (1-2), Reviewing (3-4), Mastered
      (5 and more). */
  lemma {:induction false} SuccessRunFromFresh(user: UserId, word: WordId, n: nat, now: Instant)
    ensures var h := ApplyAll(Fresh(user, word), Repeat(Success, n), now);
      && h.nbSuccess == n && h.nbErrors == 0 && h.nbUnanswered == 0
      && h.currentStreak == n && h.bestStreak == n
      && h.status == (if n == 0 then New else if n < 3 then Learning
                      else if n < 5 then Reviewing else Mastered)
  {
    if n > 0 {
      var run := Repeat(Success, n);
      assert run[..n - 1] == Repeat(Success, n - 1);
      SuccessRunFromFresh(user, word, n - 1, now);
      var before := ApplyAll(Fresh(user, word), Repeat(Success, n - 1), now);
      var after := ApplyResult(before, Success, now);
      assert ApplyAll(Fresh(user, word), run, now) == after;
      SuccessStatusAfterRun(before, after, n, now);
    }
  }

  lemma SuccessStatusAfterRun(before: History, after: History, n: nat, now: Instant)
    requires n > 0
    requires before.nbSuccess == n - 1 && before.nbErrors == 0 && before.nbUnanswered == 0
    requires before.currentStreak == n - 1 && before.bestStreak == n - 1
    requires after == ApplyResult(before, Success, now)
    ensures after.nbSuccess == n && after.nbErrors == 0 && after.nbUnanswered == 0
    ensures after.currentStreak == n && after.bestStreak == n
    ensures after.status == (if n < 3 then Learning else if n < 5 then Reviewing else Mastered)
  {
    assert Total(after) == n;
    assert RateAtLeast(after.nbSuccess, Total(after) + after.nbUnanswered, 9, 10);
  }

  /** Five successes on a fresh record reach Mastered, and one error after
      that falls back to Learning. */
  lemma FiveSuccessesThenError(user: UserId, word: WordId, now: Instant)
    ensures ApplyAll(Fresh(user, word), Repeat(Success, 5), now).status == Mastered
    ensures ApplyAll(Fresh(user, word), Repeat(Success, 5) + [Error], now).status == Learning
  {
    SuccessRunFromFresh(user, word, 5, now);
    var run := Repeat(Success, 5) + [Error];
    assert run[..5] == Repeat(Success, 5);
  }

  // ---------------------------------------------------------------------
  // Batch ingestion
  // ---------------------------------------------------------------------

  /** A call the ingestion makes on the store. */
  datatype StoreCall = GetOrInsertCall(key: Key) | UpdateCall(key: Key)

  /** What processing a batch leaves behind: the store, the returned error
      if any, the store calls made in order, and how many results were
      fully applied. */
  datatype Ingested = Ingested(store: Store, outcome: Outcome, calls: seq<StoreCall>, applied: nat)

  /** The word identifiers of a batch, in submission order. */
  function WordIds(results: seq<QuizResult>): (ws: seq<WordId>)
    ensures |ws| == |results|
    ensures forall i :: 0 <= i < |results| ==> ws[i] == results[i].wordId
  {
    seq(|results|, i requires 0 <= i < |results| => results[i].wordId)
  }

  /** Every record of the store satisfies the record invariants. */
  predicate AllWellFormed(s: Store)
  {
    forall k :: k in s.rows ==> WellFormed(s.rows[k])
  }

  /** Every result of the batch carries one of the three known tokens. */
  predicate AllValid(results: seq<QuizResult>)
  {
    forall i :: 0 <= i < |results| ==> results[i].status.Valid()
  }

  /** The record a result is applied to: the stored row, or the fresh one
      a get-or-insert would create. */
  function PriorRecord(s: Store, user: UserId, word: WordId): History
  {
    if Key(user, word) in s.rows then s.rows[Key(user, word)] else Fresh(user, word)
  }

  /** What one iteration of the ingestion loop does to the store. */
  datatype Step = Saved(store: Store) | GetFailed(error: string) | UpdateFailed(store: Store, error: string)

  /** One iteration: get or insert the row, apply the outcome at `now`,
      save the row. */
  function ProcessOne(s: Store, user: UserId, result: QuizResult, now: Instant): (r: Step)
    requires KeysConsistent(s)
    ensures r.Saved? ==> KeysConsistent(r.store)
    ensures r.GetFailed? <==> Key(user, result.wordId) !in s.rows && result.wordId !in s.catalog
    ensures RowsInCatalog(s) ==> !r.UpdateFailed?
    ensures r.UpdateFailed? ==> r.store.catalog == s.catalog
    ensures r.Saved? ==>
      r.store == s.(rows := s.rows[Key(user, result.wordId) :=
                      ApplyResult(PriorRecord(s, user, result.wordId), result.status, now)])
  {
    match GetOrInsertHistory(s, user, result.wordId)
    case Err(e) => GetFailed(e)
    case Ok(got) =>
      var h := ApplyResult(got.history, result.status, now);
      match UpdateHistory(got.store, h)
      case Err(e) =>
        assert Key(user, result.wordId) in s.rows;
        UpdateFailed(got.store, e)
      case Ok(saved) =>
        Saved(saved)
  }

  /** Processes `results` one at a time; the k-th result is applied at
      `clock(offset + k)`. The first store error stops the batch and is
      returned, with what was written before it left in place. */
  function ProcessFrom(s: Store, user: UserId, results: seq<QuizResult>,
                       clock: nat -> Instant, offset: nat): (r: Ingested)
    requires KeysConsistent(s)
    ensures r.applied <= |results|
    ensures r.outcome.Pass? ==> r.applied == |results| && |r.calls| == 2 * |results|
    ensures r.outcome.Fail? ==> r.applied < |results| && 2 * r.applied < |r.calls| <= 2 * r.applied + 2
    ensures r.store.catalog == s.catalog
    decreases |results|
  {
    if |results| == 0 then Ingested(s, Pass, [], 0)
    else
      var key := Key(user, results[0].wordId);
      match ProcessOne(s, user, results[0], clock(offset))
      case GetFailed(e) => Ingested(s, Fail(e), [GetOrInsertCall(key)], 0)
      case UpdateFailed(written, e) => Ingested(written, Fail(e), [GetOrInsertCall(key), UpdateCall(key)], 0)
      case Saved(saved) =>
        var rest := ProcessFrom(saved, user, results[1..], clock, offset + 1);
        Ingested(rest.store, rest.outcome,
                 [GetOrInsertCall(key), UpdateCall(key)] + rest.calls, rest.applied + 1)
  }

  /** Ingests a user's quiz results; `clock(k)` is the time at which the
      k-th result is processed. */
  function ProcessQuizResults(s: Store, user: UserId, results: seq<QuizResult>,
                              clock: nat -> Instant): (r: Ingested)
    requires KeysConsistent(s)
    ensures results == [] ==> r == Ingested(s, Pass, [], 0)
    ensures r.outcome.Pass? ==> r.applied == |results|
  {
    ProcessFrom(s, user, results, clock, 0)
  }

  /** The calls a batch makes when every store call succeeds: a
      get-or-insert then an update of the same key, for each result in
      order. */
  function ExpectedCalls(user: UserId, results: seq<QuizResult>): (calls: seq<StoreCall>)
    ensures |calls| == 2 * |results|
  {
    if |results| == 0 then []
    else
      var key := Key(user, results[0].wordId);
      [GetOrInsertCall(key), UpdateCall(key)] + ExpectedCalls(user, results[1..])
  }

  /** The calls made are a prefix of the expected ones: a failing call ends
      the batch and nothing is retried or reordered. */
  lemma {:induction false} CallsFollowResults(s: Store, user: UserId, results: seq<QuizResult>,
                                              clock: nat -> Instant, offset: nat)
    requires KeysConsistent(s)
    ensures ProcessFrom(s, user, results, clock, offset).calls <= ExpectedCalls(user, results)
    decreases |results|
  {
    if |results| > 0 {
      var step := ProcessOne(s, user, results[0], clock(offset));
      if step.Saved? {
        CallsFollowResults(step.store, user, results[1..], clock, offset + 1);
      }
    }
  }

  /** When the first result is saved, the batch ends as the rest of it
      does from the store that step leaves, with one more result applied. */
  lemma SavedStepThenRest(s: Store, user: UserId, results: seq<QuizResult>,
                          clock: nat -> Instant, offset: nat)
    requires KeysConsistent(s) && |results| > 0
    requires ProcessOne(s, user, results[0], clock(offset)).Saved?
    ensures var step := ProcessOne(s, user, results[0], clock(offset));
      var rest := ProcessFrom(step.store, user, results[1..], clock, offset + 1);
      var r := ProcessFrom(s, user, results, clock, offset);
      && KeysConsistent(step.store)
      && r.store == rest.store && r.outcome == rest.outcome && r.applied == rest.applied + 1
      && WordIds(results) == [results[0].wordId] + WordIds(results[1..])
  {
    assert WordIds(results) == [results[0].wordId] + WordIds(results[1..]);
  }

  /** Rows of other users, and this user's rows for words the batch does not
      mention, come out unchanged; no row is ever removed. */
  lemma {:induction false} ProcessFrame(s: Store, user: UserId, results: seq<QuizResult>,
                                        clock: nat -> Instant, offset: nat)
    requires KeysConsistent(s)
    ensures var r := ProcessFrom(s, user, results, clock, offset);
      && s.rows.Keys <= r.store.rows.Keys
      && forall k :: k in s.rows && (k.userId != user || k.wordId !in WordIds(results)) ==>
           r.store.rows[k] == s.rows[k]
    decreases |results|
  {
    if |results| > 0 {
      var step := ProcessOne(s, user, results[0], clock(offset));
      if step.Saved? {
        ProcessFrame(step.store, user, results[1..], clock, offset + 1);
        FrameAfterSavedStep(s, user, results, clock, offset);
      }
    }
  }

  /** The inductive step of `ProcessFrame`. */
  lemma FrameAfterSavedStep(s: Store, user: UserId, results: seq<QuizResult>,
                            clock: nat -> Instant, offset: nat)
    requires KeysConsistent(s) && |results| > 0
    requires ProcessOne(s, user, results[0], clock(offset)).Saved?
    requires var step := ProcessOne(s, user, results[0], clock(offset));
      var rest := ProcessFrom(step.store, user, results[1..], clock, offset + 1);
      && step.store.rows.Keys <= rest.store.rows.Keys
      && forall k :: k in step.store.rows && (k.userId != user || k.wordId !in WordIds(results[1..])) ==>
           rest.store.rows[k] == step.store.rows[k]
    ensures var r := ProcessFrom(s, user, results, clock, offset);
      && s.rows.Keys <= r.store.rows.Keys
      && forall k :: k in s.rows && (k.userId != user || k.wordId !in WordIds(results)) ==>
           r.store.rows[k] == s.rows[k]
  {
    var step := ProcessOne(s, user, results[0], clock(offset));
    SavedStepThenRest(s, user, results, clock, offset);
    var here := Key(user, results[0].wordId);
    assert step.store.rows.Keys == s.rows.Keys + {here};
    forall k | k in s.rows && (k.userId != user || k.wordId !in WordIds(results))
      ensures k != here && k in step.store.rows && step.store.rows[k] == s.rows[k]
    {
      assert results[0].wordId in WordIds(results);
    }
  }

  /** One saved step keeps the records well formed when its token is a
      known one. */
  lemma StepKeepsWellFormed(s: Store, user: UserId, result: QuizResult, now: Instant)
    requires KeysConsistent(s) && AllWellFormed(s) && result.status.Valid()
    ensures var step := ProcessOne(s, user, result, now);
      step.Saved? ==> AllWellFormed(step.store)
  {
    assert WellFormed(PriorRecord(s, user, result.wordId));
  }

  /** Processing keeps every row under its key, inside the catalog and, when
      every token is a known one, well formed. */
  lemma {:induction false} ProcessPreservesInvariants(s: Store, user: UserId, results: seq<QuizResult>,
                                                      clock: nat -> Instant, offset: nat)
    requires KeysConsistent(s) && RowsInCatalog(s)
    ensures var r := ProcessFrom(s, user, results, clock, offset);
      && KeysConsistent(r.store) && RowsInCatalog(r.store)
      && (AllWellFormed(s) && AllValid(results) ==> AllWellFormed(r.store))
    decreases |results|
  {
    if |results| > 0 {
      var step := ProcessOne(s, user, results[0], clock(offset));
      if step.Saved? {
        StepKeepsRowsInCatalog(s, user, results[0], clock(offset));
        SavedStepThenRest(s, user, results, clock, offset);
        ProcessPreservesInvariants(step.store, user, results[1..], clock, offset + 1);
        if AllWellFormed(s) && AllValid(results) {
          assert results[0].status.Valid();
          assert AllValid(results[1..]);
          StepKeepsWellFormed(s, user, results[0], clock(offset));
        }
      }
    }
  }

  /** When the first error comes from an unknown word, the store is exactly
      what the results before it produced: earlier results stay written and
      later ones are not applied. */
  lemma {:induction false} FailureKeepsPrefix(s: Store, user: UserId, results: seq<QuizResult>,
                                              clock: nat -> Instant, offset: nat)
    requires KeysConsistent(s) && RowsInCatalog(s)
    ensures var r := ProcessFrom(s, user, results, clock, offset);
      r.outcome.Fail? ==>
        && results[r.applied].wordId !in s.catalog
        && Key(user, results[r.applied].wordId) !in r.store.rows
        && r.store == ProcessFrom(s, user, results[..r.applied], clock, offset).store
    decreases |results|
  {
    if |results| > 0 {
      var step := ProcessOne(s, user, results[0], clock(offset));
      if step.Saved? {
        StepKeepsRowsInCatalog(s, user, results[0], clock(offset));
        FailureKeepsPrefix(step.store, user, results[1..], clock, offset + 1);
        FailureAfterSavedStep(s, user, results, clock, offset);
      } else {
        var r := ProcessFrom(s, user, results, clock, offset);
        assert step.GetFailed?;
        assert r.store == s && r.applied == 0;
        assert results[..0] == [];
      }
    }
  }

  /** The inductive step of `FailureKeepsPrefix`: once the first result is
      saved, the property for the remaining results carries over. */
  lemma FailureAfterSavedStep(s: Store, user: UserId, results: seq<QuizResult>,
                              clock: nat -> Instant, offset: nat)
    requires KeysConsistent(s) && |results| > 0
    requires ProcessOne(s, user, results[0], clock(offset)).Saved?
    requires var step := ProcessOne(s, user, results[0], clock(offset));
      var rest := ProcessFrom(step.store, user, results[1..], clock, offset + 1);
      rest.outcome.Fail? ==>
        && results[1..][rest.applied].wordId !in step.store.catalog
        && Key(user, results[1..][rest.applied].wordId) !in rest.store.rows
        && rest.store == ProcessFrom(step.store, user, results[1..][..rest.applied], clock, offset + 1).store
    ensures var r := ProcessFrom(s, user, results, clock, offset);
      r.outcome.Fail? ==>
        && results[r.applied].wordId !in s.catalog
        && Key(user, results[r.applied].wordId) !in r.store.rows
        && r.store == ProcessFrom(s, user, results[..r.applied], clock, offset).store
  {
    var step := ProcessOne(s, user, results[0], clock(offset));
    var rest := ProcessFrom(step.store, user, results[1..], clock, offset + 1);
    var r := ProcessFrom(s, user, results, clock, offset);
    assert r.store == rest.store && r.outcome == rest.outcome && r.applied == rest.applied + 1;
    if r.outcome.Fail? {
      assert results[1..][rest.applied] == results[r.applied];
      SavedPrefix(s, user, results, clock, offset, r.applied);
    }
  }

  /** Processing the first n results, when the first one is saved, is
      processing the next n - 1 from the store it leaves. */
  lemma SavedPrefix(s: Store, user: UserId, results: seq<QuizResult>,
                    clock: nat -> Instant, offset: nat, n: nat)
    requires KeysConsistent(s)
    requires 0 < n <= |results|
    requires ProcessOne(s, user, results[0], clock(offset)).Saved?
    ensures var step := ProcessOne(s, user, results[0], clock(offset));
      ProcessFrom(s, user, results[..n], clock, offset).store
        == ProcessFrom(step.store, user, results[1..][..n - 1], clock, offset + 1).store
  {
    var prefix := results[..n];
    assert prefix[0] == results[0];
    assert prefix[1..] == results[1..][..n - 1];
  }

  lemma StepKeepsRowsInCatalog(s: Store, user: UserId, result: QuizResult, now: Instant)
    requires KeysConsistent(s) && RowsInCatalog(s)
    ensures var step := ProcessOne(s, user, result, now);
      step.Saved? ==> RowsInCatalog(step.store)
  {
  }

  /** One saved step counts one more answer for its word and none for any
      other. */
  lemma StepCountsAnswer(s: Store, user: UserId, result: QuizResult, now: Instant, word: WordId)
    requires KeysConsistent(s)
    ensures var step := ProcessOne(s, user, result, now);
      step.Saved? ==>
        PriorRecord(step.store, user, word).answerCount
          == PriorRecord(s, user, word).answerCount + (if result.wordId == word then 1 else 0)
  {
  }

  /** After a successful batch, each of the user's records has counted one
      more answer per occurrence of its word in the batch. */
  lemma {:induction false} AnswerCountTracksSubmissions(s: Store, user: UserId, results: seq<QuizResult>,
                                                        clock: nat -> Instant, offset: nat, word: WordId)
    requires KeysConsistent(s)
    ensures var r := ProcessFrom(s, user, results, clock, offset);
      r.outcome.Pass? ==>
        PriorRecord(r.store, user, word).answerCount
          == PriorRecord(s, user, word).answerCount + Count(WordIds(results), word)
    decreases |results|
  {
    if |results| > 0 {
      var step := ProcessOne(s, user, results[0], clock(offset));
      if step.Saved? {
        SavedStepThenRest(s, user, results, clock, offset);
        AnswerCountTracksSubmissions(step.store, user, results[1..], clock, offset + 1, word);
        StepCountsAnswer(s, user, results[0], clock(offset), word);
        assert Count(WordIds(results), word)
            == (if results[0].wordId == word then 1 else 0) + Count(WordIds(results[1..]), word);
      }
    }
  }

  /** A word submitted twice in one batch has the state machine applied
      twice, in order, to the same row. */
  lemma SameWordTwice(s: Store, user: UserId, word: WordId, a: ResultStatus, b: ResultStatus,
                      clock: nat -> Instant, offset: nat)
    requires KeysConsistent(s)
    requires word in s.catalog
    ensures var r := ProcessFrom(s, user, [QuizResult(word, a), QuizResult(word, b)], clock, offset);
      && r.outcome.Pass?
      && Key(user, word) in r.store.rows
      && r.store.rows[Key(user, word)]
           == ApplyResult(ApplyResult(PriorRecord(s, user, word), a, clock(offset)), b, clock(offset + 1))
  {
    var results := [QuizResult(word, a), QuizResult(word, b)];
    var first := ProcessOne(s, user, results[0], clock(offset));
    assert first.Saved?;
    var second := ProcessOne(first.store, user, results[1..][0], clock(offset + 1));
    assert second.Saved?;
    assert PriorRecord(first.store, user, word)
        == ApplyResult(PriorRecord(s, user, word), a, clock(offset));
    assert results[1..][1..] == [];
    var last := ProcessFrom(second.store, user, results[1..][1..], clock, offset + 2);
    assert last.store == second.store && last.outcome == Pass;
    var mid := ProcessFrom(first.store, user, results[1..], clock, offset + 1);
    assert mid.store == second.store && mid.outcome == Pass;
    var r := ProcessFrom(s, user, results, clock, offset);
    assert r.store == second.store && r.outcome == Pass;
  }
}
