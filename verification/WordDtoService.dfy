/** Word selection for a quiz: every candidate word gets a priority score
    from the user's learning history, the best `nb` are kept, and the kept
    list is shuffled within small consecutive groups so that repeated
    requests do not return the same order. */
module WordDtoService {
  import opened Common
  import opened LearningHistory
  import opened Ranking
  import opened Shuffle

  /** Shuffle group size of this revision. */
  const ServiceGroupSize: nat := 3

  /** The external collaborators of the selection: the catalog query from
      tag and level-name filters to word identifiers, and the history fetch
      for a user and a list of words. */
  datatype Sources = Sources(
    listWordsIds: (seq<string>, seq<string>) -> Result<seq<WordId>>,
    historiesByWordIds: (UserId, seq<WordId>) -> Result<seq<History>>)

  // ---------------------------------------------------------------------
  // History lookup
  // ---------------------------------------------------------------------

  /** `m` indexes `histories` by word: its keys are their words, each
      entry is a history for its key, and each word maps to its last
      history. */
  predicate IndexesLastHistories(m: map<WordId, History>, histories: seq<History>)
  {
    && m.Keys == (set h | h in histories :: h.wordId)
    && (forall w :: w in m ==> m[w].wordId == w && m[w] in histories)
    && (forall i :: 0 <= i < |histories| && LastForWord(histories, i) ==>
          histories[i].wordId in m && m[histories[i].wordId] == histories[i])
  }

  /** Histories by word identifier; a later history for the same word
      replaces an earlier one, so each word maps to its last history. */
  function MakeHistoryMap(histories: seq<History>): (m: map<WordId, History>)
    ensures m.Keys == set h | h in histories :: h.wordId
    ensures forall w :: w in m ==> m[w].wordId == w && m[w] in histories
    ensures forall i :: 0 <= i < |histories| && LastForWord(histories, i) ==>
      histories[i].wordId in m && m[histories[i].wordId] == histories[i]
    decreases |histories|
  {
    if |histories| == 0 then map[]
    else
      var prefix := histories[..|histories| - 1];
      var m := MakeHistoryMap(prefix);
      IndexAppend(histories, prefix, m);
      m[histories[|histories| - 1].wordId := histories[|histories| - 1]]
  }

  /** Recording the final history over an index of the others indexes the
      whole sequence. */
  lemma IndexAppend(histories: seq<History>, prefix: seq<History>, m: map<WordId, History>)
    requires |histories| > 0 && prefix == histories[..|histories| - 1]
    requires IndexesLastHistories(m, prefix)
    ensures IndexesLastHistories(m[histories[|histories| - 1].wordId := histories[|histories| - 1]], histories)
  {
    AppendKeys(histories, prefix, m);
    AppendEntries(histories, prefix, m);
    AppendLast(histories, prefix, m);
  }

  /** The keys of the extended index are the words of the whole sequence. */
  lemma AppendKeys(histories: seq<History>, prefix: seq<History>, m: map<WordId, History>)
    requires |histories| > 0 && prefix == histories[..|histories| - 1]
    requires m.Keys == (set h | h in prefix :: h.wordId)
    ensures m[histories[|histories| - 1].wordId := histories[|histories| - 1]].Keys
      == (set h | h in histories :: h.wordId)
  {
    AppendOne(histories, prefix, histories[|histories| - 1]);
  }

  /** Every entry of the extended index is a history of the whole sequence
      for its key. */
  lemma AppendEntries(histories: seq<History>, prefix: seq<History>, m: map<WordId, History>)
    requires |histories| > 0 && prefix == histories[..|histories| - 1]
    requires forall w :: w in m ==> m[w].wordId == w && m[w] in prefix
    ensures var r := m[histories[|histories| - 1].wordId := histories[|histories| - 1]];
      forall w :: w in r ==> r[w].wordId == w && r[w] in histories
  {
    AppendOne(histories, prefix, histories[|histories| - 1]);
  }

  /** Each history that is last for its word is what the extended index
      holds for that word. */
  lemma AppendLast(histories: seq<History>, prefix: seq<History>, m: map<WordId, History>)
    requires |histories| > 0 && prefix == histories[..|histories| - 1]
    requires forall i :: 0 <= i < |prefix| && LastForWord(prefix, i) ==>
      prefix[i].wordId in m && m[prefix[i].wordId] == prefix[i]
    ensures var r := m[histories[|histories| - 1].wordId := histories[|histories| - 1]];
      forall i :: 0 <= i < |histories| && LastForWord(histories, i) ==>
        histories[i].wordId in r && r[histories[i].wordId] == histories[i]
  {
  }

  /** No history after position `i` is for the same word. */
  predicate LastForWord(histories: seq<History>, i: nat)
    requires i < |histories|
  {
    forall j :: i < j < |histories| ==> histories[j].wordId != histories[i].wordId
  }

  /** A history that is last for its word and is not the final one is
      last for its word in the prefix too, and is for another word than the
      final one. */
  lemma LastForWordInPrefix(histories: seq<History>, prefix: seq<History>)
    requires |histories| > 0 && prefix == histories[..|histories| - 1]
    ensures forall i :: 0 <= i < |prefix| && LastForWord(histories, i) ==>
      LastForWord(prefix, i) && histories[i] == prefix[i]
      && histories[i].wordId != histories[|histories| - 1].wordId
  {
    forall i | 0 <= i < |prefix| && LastForWord(histories, i)
      ensures LastForWord(prefix, i) && histories[i] == prefix[i]
      ensures histories[i].wordId != histories[|histories| - 1].wordId
    {
      assert forall j :: i < j < |prefix| ==> prefix[j] == histories[j];
    }
  }

  /** A sequence seen as its prefix plus its last history: the word
      identifiers and members of the two agree. */
  lemma AppendOne(histories: seq<History>, prefix: seq<History>, last: History)
    requires |histories| > 0 && prefix == histories[..|histories| - 1] && last == histories[|histories| - 1]
    ensures (set h | h in histories :: h.wordId) == (set h | h in prefix :: h.wordId) + {last.wordId}
    ensures forall h :: h in prefix ==> h in histories
    ensures last in histories
  {
    assert histories == prefix + [last];
  }

  // ---------------------------------------------------------------------
  // Scores
  // ---------------------------------------------------------------------

  /** Bounds of Go's `time.Duration`, an int64 count of nanoseconds. */
  const MinDurationNanos: int := -0x8000_0000_0000_0000
  const MaxDurationNanos: int := 0x7FFF_FFFF_FFFF_FFFF

  /** The largest whole number of seconds whose nanosecond count fits a
      `time.Duration` in either direction: about 292 years. */
  const SubExactSeconds: int := 9_223_372_036

  /** Go's `t.Sub(u)`: the difference in nanoseconds, saturated to the range
      of `time.Duration` when it does not fit. */
  function SubNanos(t: Instant, u: Instant): (d: int)
    ensures MinDurationNanos <= d <= MaxDurationNanos
    ensures -SubExactSeconds <= t - u <= SubExactSeconds ==> d == (t - u) * 1_000_000_000
    ensures t - u > SubExactSeconds ==> d == MaxDurationNanos
    ensures t - u < -SubExactSeconds ==> d == MinDurationNanos
    ensures d <= 0 <==> t <= u
  {
    var exact := (t - u) * 1_000_000_000;
    if exact > MaxDurationNanos then MaxDurationNanos
    else if exact < MinDurationNanos then MinDurationNanos
    else exact
  }

  /** A later instant is never a shorter duration away. */
  lemma SubNanosMonotone(t1: Instant, t2: Instant, u: Instant)
    requires t1 <= t2
    ensures SubNanos(t1, u) <= SubNanos(t2, u)
  {
  }

  /** A duration in nanoseconds, in (fractional) hours, as
      `time.Duration.Hours` gives it. */
  function Hours(nanos: int): real
  {
    nanos as real / 3_600_000_000_000.0
  }

  /** Priority from the review date alone: 100 plus the hours overdue, or
      100 minus the hours left before the review, where the time to the
      review saturates at about 292 years either way. */
  function BaseScore(h: History, now: Instant): (r: real)
    ensures r == 100.0 - Hours(SubNanos(h.nextReviewDate, now))
    ensures -SubExactSeconds <= h.nextReviewDate - now <= SubExactSeconds ==>
      r == 100.0 - (h.nextReviewDate - now) as real / 3600.0
    ensures h.nextReviewDate - now < -SubExactSeconds ==> r == 100.0 + Hours(-MinDurationNanos)
    ensures h.nextReviewDate - now > SubExactSeconds ==> r == 100.0 - Hours(MaxDurationNanos)
    ensures h.nextReviewDate <= now ==> r >= 100.0
    ensures h.nextReviewDate > now ==> r < 100.0
  {
    var untilReview := SubNanos(h.nextReviewDate, now);
    if untilReview <= 0 then 100.0 + Hours(-untilReview)
    else 100.0 - Hours(untilReview)
  }

  /** Weight of a status: new and learning words are favoured, words under
      review and mastered words held back. */
  function StatusWeight(s: LearningStatus): (w: real)
    ensures w > 0.0
    ensures (w > 1.0) <==> (s == New || s == Learning)
    ensures s == New ==> w == 1.2
    ensures s == Learning ==> w == 1.1
    ensures s == Reviewing ==> w == 0.9
    ensures s == Mastered ==> w == 0.7
  {
    match s
    case New => 1.2
    case Learning => 1.1
    case Reviewing => 0.9
    case Mastered => 0.7
  }

  /** A word the user struggles with: answered at least once and fewer than
      six successes in ten answers. */
  predicate Struggling(h: History)
  {
    h.answerCount > 0 && RateBelow(h.nbSuccess, h.answerCount, 3, 5)
  }

  /** A more advanced status always weighs strictly less. */
  lemma WeightFallsWithProgress(a: LearningStatus, b: LearningStatus)
    ensures Rank(a) < Rank(b) <==> StatusWeight(a) > StatusWeight(b)
  {
  }

  /** Score of a word with a history: the base score, scaled by the weight
      of its status, and by 1.3 more when it was answered and fewer than
      six answers in ten were successes. */
  function HistoryScore(h: History, now: Instant): (r: real)
    ensures h.answerCount > 0 && 5 * h.nbSuccess < 3 * h.answerCount ==>
      r == BaseScore(h, now) * StatusWeight(h.status) * 1.3
    ensures !(h.answerCount > 0 && 5 * h.nbSuccess < 3 * h.answerCount) ==>
      r == BaseScore(h, now) * StatusWeight(h.status)
  {
    var weighted := BaseScore(h, now) * StatusWeight(h.status);
    if Struggling(h) then weighted * 1.3 else weighted
  }

  /** Score of a candidate word: a flat 50 without history. */
  function Score(hm: map<WordId, History>, now: Instant, w: WordId): (r: real)
    ensures w !in hm ==> r == 50.0
    ensures w in hm ==> r == HistoryScore(hm[w], now)
    ensures w in hm && hm[w].nextReviewDate <= now ==> r > 50.0
  {
    if w !in hm then 50.0
    else
      var h := hm[w];
      if h.nextReviewDate <= now then OverdueOutranksUnseen(h, now); HistoryScore(h, now)
      else HistoryScore(h, now)
  }

  /** The score as a ranking key. */
  function ScoreKey(hm: map<WordId, History>, now: Instant): (key: WordId -> real)
    ensures forall w :: key(w) == Score(hm, now, w)
  {
    w => Score(hm, now, w)
  }

  /** An overdue word outranks every word without history, whatever its
      status and success rate. */
  lemma OverdueOutranksUnseen(h: History, now: Instant)
    requires h.nextReviewDate <= now
    ensures HistoryScore(h, now) >= 70.0 > 50.0
  {
    var b := BaseScore(h, now);
    assert b * StatusWeight(h.status) >= 100.0 * 0.7;
  }

  /** Between two words in the same status and the same struggling class,
      the one due earlier scores at least as much. */
  lemma EarlierDueScoresHigher(a: History, b: History, now: Instant)
    requires a.status == b.status && Struggling(a) == Struggling(b)
    requires a.nextReviewDate <= b.nextReviewDate
    ensures HistoryScore(a, now) >= HistoryScore(b, now)
  {
    var w := StatusWeight(a.status);
    SubNanosMonotone(a.nextReviewDate, b.nextReviewDate, now);
    assert BaseScore(a, now) >= BaseScore(b, now);
    assert BaseScore(a, now) * w >= BaseScore(b, now) * w;
  }

  /** For a word that is due or due within 100 hours, and at equal review
      date and struggling class, a less advanced status never scores less,
      and scores strictly more once the base score is positive. */
  lemma LessAdvancedScoresHigher(a: History, b: History, now: Instant)
    requires a.nextReviewDate == b.nextReviewDate && Struggling(a) == Struggling(b)
    requires Rank(a.status) <= Rank(b.status)
    requires BaseScore(a, now) >= 0.0
    ensures HistoryScore(a, now) >= HistoryScore(b, now)
    ensures Rank(a.status) < Rank(b.status) && BaseScore(a, now) > 0.0 ==>
      HistoryScore(a, now) > HistoryScore(b, now)
  {
  }

  /** Words overdue by more than about 292 years (a review date left at
      Go's zero time, say) all get the same saturated base score, so their
      status alone orders them, whatever their actual dates. */
  lemma SaturatedOverdueRanksByStatus(a: History, b: History, now: Instant)
    requires a.nextReviewDate - now < -SubExactSeconds && b.nextReviewDate - now < -SubExactSeconds
    requires Struggling(a) == Struggling(b) && Rank(a.status) < Rank(b.status)
    ensures BaseScore(a, now) == BaseScore(b, now)
    ensures HistoryScore(a, now) > HistoryScore(b, now)
  {
    var base := BaseScore(a, now);
    WeightFallsWithProgress(a.status, b.status);
    assert base * StatusWeight(a.status) > base * StatusWeight(b.status);
  }

  /** More than 100 hours before the review the base score is negative,
      and the weights turn around: a mastered word then outranks the same
      word when new, and the bonus for a struggling word lowers its score. */
  lemma FarReviewsInvertWeights(h: History, now: Instant)
    requires h.nextReviewDate > now + 100 * 3600
    ensures HistoryScore(h.(status := Mastered), now) > HistoryScore(h.(status := New), now)
    ensures Struggling(h) ==> HistoryScore(h, now) < BaseScore(h, now) * StatusWeight(h.status)
  {
    var b := BaseScore(h, now);
    assert Hours(SubNanos(h.nextReviewDate, now)) > 100.0;
    assert b < 0.0;
    assert b * 0.7 > b * 1.2;
    assert b * 0.7 * 1.3 > b * 1.2 * 1.3;
    assert b * StatusWeight(h.status) < 0.0;
  }

  // ---------------------------------------------------------------------
  // Selection
  // ---------------------------------------------------------------------

  /** The `nb` best-scored candidates, best first. */
  function TopRanked(wordIds: seq<WordId>, hm: map<WordId, History>, nb: nat, now: Instant): (r: seq<WordId>)
    ensures |r| == Min(nb, |wordIds|)
    ensures SortedDesc(r, ScoreKey(hm, now))
    ensures multiset(r) <= multiset(wordIds)
    ensures nb >= |wordIds| ==> multiset(r) == multiset(wordIds)
    ensures forall x, y :: x in r && y in multiset(wordIds) - multiset(r) ==>
      Score(hm, now, x) >= Score(hm, now, y)
  {
    var key := ScoreKey(hm, now);
    var ranked := SortDesc(wordIds, key);
    var n := Min(nb, |ranked|);
    TopOfRanking(ranked, n, key);
    ranked[..n]
  }

  /** Scores the candidates, keeps the `nb` best and shuffles them within
      consecutive groups of `groupSize`. A negative `nb` makes the source
      panic when it allocates the result, so it is excluded. */
  function PrioritizeWords(wordIds: seq<WordId>, histories: seq<History>, nb: int, now: Instant,
                           groupSize: nat, shuffles: nat -> Draws): (r: seq<WordId>)
    requires nb >= 0 && groupSize > 0
    ensures |r| == Min(nb, |wordIds|)
    ensures multiset(r) <= multiset(wordIds)
    ensures forall x :: x in r ==> x in wordIds
    ensures Distinct(wordIds) ==> Distinct(r)
    ensures nb >= |wordIds| ==> multiset(r) == multiset(wordIds)
  {
    var top := TopRanked(wordIds, MakeHistoryMap(histories), nb, now);
    var r := ShuffleBlocks(top, groupSize, shuffles, 0);
    BlockwiseIsPermutation(r, top, groupSize);
    assert forall x :: x in r ==> x in wordIds by {
      forall x | x in r ensures x in wordIds {
        assert x in multiset(r);
      }
    }
    assert Distinct(wordIds) ==> Distinct(r) by {
      if Distinct(wordIds) {
        DistinctSubMultiset(r, wordIds);
      }
    }
    r
  }

  /** The kept words are the best-scored: each scores at least as much as
      every candidate left out. */
  lemma PrioritizeKeepsTheBest(wordIds: seq<WordId>, histories: seq<History>, nb: nat, now: Instant,
                               groupSize: nat, shuffles: nat -> Draws)
    requires groupSize > 0
    ensures var r := PrioritizeWords(wordIds, histories, nb, now, groupSize, shuffles);
      var hm := MakeHistoryMap(histories);
      forall x, y :: x in r && y in multiset(wordIds) - multiset(r) ==>
        Score(hm, now, x) >= Score(hm, now, y)
  {
    var hm := MakeHistoryMap(histories);
    var top := TopRanked(wordIds, hm, nb, now);
    var r := ShuffleBlocks(top, groupSize, shuffles, 0);
    BlockwiseIsPermutation(r, top, groupSize);
    assert forall x :: x in r ==> x in top by {
      forall x | x in r ensures x in top {
        assert x in multiset(r);
      }
    }
  }

  /** The shuffle keeps the ranking between groups: a word in an earlier
      group scores at least as much as a word in a later group. */
  lemma PrioritizeKeepsCoarseOrder(wordIds: seq<WordId>, histories: seq<History>, nb: nat, now: Instant,
                                   groupSize: nat, shuffles: nat -> Draws, i: nat, j: nat)
    requires groupSize > 0
    requires i < Min(nb, |wordIds|) && j < Min(nb, |wordIds|) && i / groupSize < j / groupSize
    ensures var r := PrioritizeWords(wordIds, histories, nb, now, groupSize, shuffles);
      var hm := MakeHistoryMap(histories);
      Score(hm, now, r[i]) >= Score(hm, now, r[j])
  {
    var hm := MakeHistoryMap(histories);
    var top := TopRanked(wordIds, hm, nb, now);
    ShuffleBlocksKeepsCoarseOrder(top, groupSize, shuffles, ScoreKey(hm, now), i, j);
  }

  /** Lists up to `nb` word identifiers for a user from the words matching
      the filters; a failing catalog query or history fetch is returned as
      is. */
  function ListWordsIds(src: Sources, user: UserId, tagIds: seq<string>, levelNameIds: seq<string>,
                        nb: int, now: Instant, shuffles: nat -> Draws): (r: Result<seq<WordId>>)
    requires nb >= 0
    ensures src.listWordsIds(tagIds, levelNameIds).Err? ==> r == Err(src.listWordsIds(tagIds, levelNameIds).error)
    ensures src.listWordsIds(tagIds, levelNameIds).Ok? ==>
      var candidates := src.listWordsIds(tagIds, levelNameIds).value;
      && (src.historiesByWordIds(user, candidates).Err? ==>
            r == Err(src.historiesByWordIds(user, candidates).error))
      && (src.historiesByWordIds(user, candidates).Ok? ==>
            && r.Ok?
            && |r.value| == Min(nb, |candidates|)
            && (forall x :: x in r.value ==> x in candidates)
            && (Distinct(candidates) ==> Distinct(r.value)))
    ensures nb == 0 && r.Ok? ==> r.value == []
  {
    match src.listWordsIds(tagIds, levelNameIds)
    case Err(e) => Err(e)
    case Ok(candidates) =>
      match src.historiesByWordIds(user, candidates)
      case Err(e) => Err(e)
      case Ok(histories) =>
        Ok(PrioritizeWords(candidates, histories, nb, now, ServiceGroupSize, shuffles))
  }
}
