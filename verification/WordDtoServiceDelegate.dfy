/** The refactored word selection: the candidates are split by whether the
    user has a history for them, the words with history are prioritised,
    and the list is completed with a random choice of unseen words. */
module WordDtoServiceDelegate {
  import opened Common
  import opened LearningHistory
  import opened Shuffle
  import opened WordDtoService

  /** Shuffle group size of this revision. */
  const DelegateGroupSize: nat := 10

  /** A random choice of at most `limit` of the identifiers: the whole list
      shuffled, then cut. A limit of zero or less gives nothing. */
  function ShuffleAndLimit(ids: seq<WordId>, limit: int, draws: Draws): (r: seq<WordId>)
    ensures limit <= 0 ==> r == []
    ensures |r| == Max(0, Min(limit, |ids|))
    ensures multiset(r) <= multiset(ids)
    ensures limit >= |ids| ==> multiset(r) == multiset(ids)
  {
    if limit <= 0 then []
    else
      var shuffled := FisherYates(ids, draws);
      if |shuffled| > limit then
        assert shuffled == shuffled[..limit] + shuffled[limit..];
        assert multiset(shuffled) == multiset(shuffled[..limit]) + multiset(shuffled[limit..]);
        shuffled[..limit]
      else shuffled
  }

  /** Everything `ShuffleAndLimit` returns comes from its input, without
      repetition when the input has none. */
  lemma ShuffleAndLimitDrawsFromInput(ids: seq<WordId>, limit: int, draws: Draws)
    ensures var r := ShuffleAndLimit(ids, limit, draws);
      (forall x :: x in r ==> x in ids) && (Distinct(ids) ==> Distinct(r))
  {
    var r := ShuffleAndLimit(ids, limit, draws);
    forall x | x in r ensures x in ids {
      assert x in multiset(r);
    }
    if Distinct(ids) {
      DistinctSubMultiset(r, ids);
    }
  }

  /** A random choice of `nb` of the words matching the filters, without
      looking at any history. */
  function FetchAndValidateWords(src: Sources, tagIds: seq<string>, levelNameIds: seq<string>,
                                 nb: int, draws: Draws): (r: Result<seq<WordId>>)
    ensures src.listWordsIds(tagIds, levelNameIds).Err? ==> r == Err(src.listWordsIds(tagIds, levelNameIds).error)
    ensures src.listWordsIds(tagIds, levelNameIds).Ok? ==>
      var candidates := src.listWordsIds(tagIds, levelNameIds).value;
      && r.Ok?
      && (|candidates| == 0 || nb <= 0 ==> r.value == [])
      && |r.value| == Max(0, Min(nb, |candidates|))
      && multiset(r.value) <= multiset(candidates)
  {
    match src.listWordsIds(tagIds, levelNameIds)
    case Err(e) => Err(e)
    case Ok(candidates) =>
      if |candidates| == 0 || nb <= 0 then Ok([])
      else Ok(ShuffleAndLimit(candidates, nb, draws))
  }

  /** The candidates with a history, then those without. */
  datatype Partition = Partition(withHistory: seq<WordId>, withoutHistory: seq<WordId>)

  /** Splits the identifiers by membership in the history map, keeping their
      order on both sides. */
  function SplitByKeys(ids: seq<WordId>, hm: map<WordId, History>): (p: Partition)
    ensures forall x :: x in p.withHistory ==> x in hm
    ensures forall x :: x in p.withoutHistory ==> x !in hm
    ensures IsSubsequence(p.withHistory, ids) && IsSubsequence(p.withoutHistory, ids)
    ensures multiset(p.withHistory) + multiset(p.withoutHistory) == multiset(ids)
    decreases |ids|
  {
    if |ids| == 0 then Partition([], [])
    else
      var rest := SplitByKeys(ids[1..], hm);
      assert ids == [ids[0]] + ids[1..];
      if ids[0] in hm then
        var w := [ids[0]] + rest.withHistory;
        assert w[1..] == rest.withHistory;
        Partition(w, rest.withoutHistory)
      else
        var wo := [ids[0]] + rest.withoutHistory;
        assert wo[1..] == rest.withoutHistory;
        Partition(rest.withHistory, wo)
  }

  /** The split of the candidates by the user's histories. */
  function SplitWordsByHistory(ids: seq<WordId>, histories: seq<History>): (p: Partition)
    ensures forall x :: x in p.withHistory ==> exists h :: h in histories && h.wordId == x
    ensures forall x :: x in p.withoutHistory ==> forall h :: h in histories ==> h.wordId != x
    ensures IsSubsequence(p.withHistory, ids) && IsSubsequence(p.withoutHistory, ids)
    ensures multiset(p.withHistory) + multiset(p.withoutHistory) == multiset(ids)
  {
    var hm := MakeHistoryMap(histories);
    var p := SplitByKeys(ids, hm);
    assert forall x :: x in p.withHistory ==> x in hm.Keys;
    p
  }

  /** The words still needed, taken again from the prioritised words: the
      ones after the first `nb - stillNeeded`, at most `stillNeeded` of
      them. When `stillNeeded` exceeds `nb` while the guard does not hold,
      the source slices with a negative bound and panics, so that case is
      excluded. */
  function GetRemainingWordsFromHistory(prioritized: seq<WordId>, nb: int, stillNeeded: int): (r: seq<WordId>)
    requires stillNeeded <= 0 || |prioritized| <= nb - stillNeeded || stillNeeded <= nb
    ensures stillNeeded <= 0 || |prioritized| <= nb - stillNeeded ==> r == []
    ensures |r| <= Max(0, stillNeeded)
    ensures r != [] ==> 0 <= nb - stillNeeded && nb - stillNeeded + |r| <= |prioritized| && r == prioritized[nb - stillNeeded..nb - stillNeeded + |r|]
    ensures !(stillNeeded <= 0 || |prioritized| <= nb - stillNeeded) ==>
      |r| == Min(stillNeeded, |prioritized| - (nb - stillNeeded))
  {
    if stillNeeded <= 0 || |prioritized| <= nb - stillNeeded then []
    else
      var extra := prioritized[nb - stillNeeded..];
      if |extra| > stillNeeded then extra[..stillNeeded] else extra
  }

  /** Completes the prioritised words with a random choice of words without
      history, up to `nb`. */
  function CompleteWithWordsWithoutHistory(prioritized: seq<WordId>, withoutHistory: seq<WordId>,
                                           nb: int, draws: Draws): (r: seq<WordId>)
    ensures prioritized <= r
    ensures r[|prioritized|..] == ShuffleAndLimit(withoutHistory, nb - |prioritized|, draws)
  {
    var remainingNeeded := nb - |prioritized|;
    var shuffled := ShuffleAndLimit(withoutHistory, remainingNeeded, draws);
    var completed :=
      if |shuffled| < remainingNeeded then
        shuffled + GetRemainingWordsFromHistory(prioritized, nb, remainingNeeded - |shuffled|)
      else shuffled;
    assert |shuffled| < remainingNeeded ==>
      GetRemainingWordsFromHistory(prioritized, nb, remainingNeeded - |shuffled|) == [];
    assert completed == shuffled;
    prioritized + completed
  }

  /** The reuse of history words in `CompleteWithWordsWithoutHistory` never
      adds anything: whenever it is reached, the prioritised words already
      fit in the first `nb - stillNeeded` places. */
  lemma ReuseOfHistoryWordsIsEmpty(prioritized: seq<WordId>, withoutHistory: seq<WordId>, nb: int, draws: Draws)
    ensures var remainingNeeded := nb - |prioritized|;
      var shuffled := ShuffleAndLimit(withoutHistory, remainingNeeded, draws);
      |shuffled| < remainingNeeded ==>
        |prioritized| <= nb - (remainingNeeded - |shuffled|)
        && GetRemainingWordsFromHistory(prioritized, nb, remainingNeeded - |shuffled|) == []
  {
  }

  /** Prioritises the words with history and, when they are fewer than `nb`,
      completes the list with words without history. */
  function CombineWordLists(withHistory: seq<WordId>, withoutHistory: seq<WordId>, histories: seq<History>,
                            nb: int, now: Instant, shuffles: nat -> Draws, draws: Draws): (r: seq<WordId>)
    requires nb >= 0
    ensures var prioritized := PrioritizeWords(withHistory, histories, nb, now, DelegateGroupSize, shuffles);
      && (|prioritized| >= nb ==> r == prioritized[..nb])
      && (|prioritized| < nb ==> r == prioritized + ShuffleAndLimit(withoutHistory, nb - |prioritized|, draws))
  {
    var prioritized := PrioritizeWords(withHistory, histories, nb, now, DelegateGroupSize, shuffles);
    if |prioritized| >= nb then prioritized[..nb]
    else CompleteWithWordsWithoutHistory(prioritized, withoutHistory, nb, draws)
  }

  /** Selects `nb` words for a user: the words with history, by priority,
      then unseen words at random. A failing history fetch is returned as
      is. */
  function ProcessWordsWithLearningHistory(src: Sources, user: UserId, ids: seq<WordId>, nb: int,
                                           now: Instant, shuffles: nat -> Draws, draws: Draws): (r: Result<seq<WordId>>)
    requires nb >= 0
    ensures src.historiesByWordIds(user, ids).Err? <==> r.Err?
    ensures r.Err? ==> r.error == src.historiesByWordIds(user, ids).error
  {
    match src.historiesByWordIds(user, ids)
    case Err(e) => Err(e)
    case Ok(histories) =>
      var p := SplitWordsByHistory(ids, histories);
      Ok(CombineWordLists(p.withHistory, p.withoutHistory, histories, nb, now, shuffles, draws))
  }

  /** Elements of a subsequence come from the sequence. */
  lemma SubsequenceMembers(a: seq<WordId>, b: seq<WordId>)
    requires IsSubsequence(a, b)
    ensures forall x :: x in a ==> x in b
    decreases |b|
  {
    if |a| > 0 {
      if a[0] == b[0] && IsSubsequence(a[1..], b[1..]) {
        SubsequenceMembers(a[1..], b[1..]);
        assert a == [a[0]] + a[1..];
      } else {
        SubsequenceMembers(a, b[1..]);
      }
    }
  }

  /** In `a + b`, where everything in `a` is in `keys` and nothing in `b`
      is, the members of `keys` are exactly the first `|a|` places, so every
      member comes before every non-member. */
  lemma MembersFirst(a: seq<WordId>, b: seq<WordId>, keys: set<WordId>)
    requires (forall x :: x in a ==> x in keys) && (forall x :: x in b ==> x !in keys)
    ensures forall k :: 0 <= k < |a + b| ==> ((a + b)[k] in keys <==> k < |a|)
    ensures forall i, j :: 0 <= i < j < |a + b| && (a + b)[j] in keys ==> (a + b)[i] in keys
  {
    forall k | 0 <= k < |a + b|
      ensures (a + b)[k] in keys <==> k < |a|
    {
      if k < |a| {
        assert (a + b)[k] == a[k];
      } else {
        assert (a + b)[k] == b[k - |a|];
      }
    }
  }

  /** Combining a split: `min(nb, |withHistory| + |withoutHistory|)`
      words from the two lists, without repetition when the lists have
      none and share nothing, the words with history first. */
  lemma CombineSelection(withHistory: seq<WordId>, withoutHistory: seq<WordId>, histories: seq<History>,
                         nb: nat, now: Instant, shuffles: nat -> Draws, draws: Draws)
    requires var keys := MakeHistoryMap(histories).Keys;
      (forall x :: x in withHistory ==> x in keys) && (forall x :: x in withoutHistory ==> x !in keys)
    ensures var r := CombineWordLists(withHistory, withoutHistory, histories, nb, now, shuffles, draws);
      var keys := MakeHistoryMap(histories).Keys;
      && |r| == Min(nb, |withHistory| + |withoutHistory|)
      && (forall x :: x in r ==> x in withHistory || x in withoutHistory)
      && (Distinct(withHistory) && Distinct(withoutHistory) ==> Distinct(r))
      && (forall i, j :: 0 <= i < j < |r| && r[j] in keys ==> r[i] in keys)
  {
    var prioritized := PrioritizeWords(withHistory, histories, nb, now, DelegateGroupSize, shuffles);
    if |prioritized| >= nb {
      CombineEnough(withHistory, withoutHistory, histories, nb, now, shuffles, draws);
    } else {
      CombineCompleted(withHistory, withoutHistory, histories, nb, now, shuffles, draws, MakeHistoryMap(histories).Keys);
    }
  }

  /** A choice `a` from `aa`, all in `keys`, followed by a choice `b` from
      `bb`, none in `keys`: everything comes from the two lists and the
      members of `keys` come first. */
  lemma ConcatSelection(r: seq<WordId>, a: seq<WordId>, b: seq<WordId>, aa: seq<WordId>, bb: seq<WordId>, keys: set<WordId>)
    requires r == a + b
    requires forall x :: x in a ==> x in aa
    requires forall x :: x in b ==> x in bb
    requires (forall x :: x in aa ==> x in keys) && (forall x :: x in bb ==> x !in keys)
    ensures forall x :: x in r ==> x in aa || x in bb
    ensures forall i, j :: 0 <= i < j < |r| && r[j] in keys ==> r[i] in keys
  {
    MembersFirst(a, b, keys);
  }

  /** With fewer than `nb` words with history, the selection is all of
      them followed by a random choice of the words without history. */
  lemma CombineIsConcat(withHistory: seq<WordId>, withoutHistory: seq<WordId>, histories: seq<History>,
                        nb: nat, now: Instant, shuffles: nat -> Draws, draws: Draws)
    requires |PrioritizeWords(withHistory, histories, nb, now, DelegateGroupSize, shuffles)| < nb
    ensures var prioritized := PrioritizeWords(withHistory, histories, nb, now, DelegateGroupSize, shuffles);
      var rest := ShuffleAndLimit(withoutHistory, nb - |withHistory|, draws);
      && |prioritized| == |withHistory|
      && CombineWordLists(withHistory, withoutHistory, histories, nb, now, shuffles, draws) == prioritized + rest
      && |prioritized + rest| == Min(nb, |withHistory| + |withoutHistory|)
  {
  }

  /** In that case the selection repeats nothing when neither list does and
      they share nothing. */
  lemma CombineCompletedDistinct(withHistory: seq<WordId>, withoutHistory: seq<WordId>, histories: seq<History>,
                                 nb: nat, now: Instant, shuffles: nat -> Draws, draws: Draws)
    requires |PrioritizeWords(withHistory, histories, nb, now, DelegateGroupSize, shuffles)| < nb
    requires Distinct(withHistory) && Distinct(withoutHistory)
    requires forall x :: x in withHistory ==> x !in withoutHistory
    ensures Distinct(CombineWordLists(withHistory, withoutHistory, histories, nb, now, shuffles, draws))
  {
    var prioritized := PrioritizeWords(withHistory, histories, nb, now, DelegateGroupSize, shuffles);
    var rest := ShuffleAndLimit(withoutHistory, nb - |withHistory|, draws);
    CombineIsConcat(withHistory, withoutHistory, histories, nb, now, shuffles, draws);
    var r := CombineWordLists(withHistory, withoutHistory, histories, nb, now, shuffles, draws);
    SubMultisetConcat(prioritized, rest, withHistory, withoutHistory);
    DistinctConcat(withHistory, withoutHistory);
    DistinctSubMultiset(r, withHistory + withoutHistory);
  }

  /** Choices from two lists, one after the other, are a sub-multiset of
      the two lists one after the other. */
  lemma SubMultisetConcat(a: seq<WordId>, b: seq<WordId>, aa: seq<WordId>, bb: seq<WordId>)
    requires multiset(a) <= multiset(aa) && multiset(b) <= multiset(bb)
    ensures multiset(a + b) <= multiset(aa + bb)
  {
  }

  /** The selection in that case: the size, where the words come from, no
      repetition, and the words with history first. */
  lemma CombineCompleted(withHistory: seq<WordId>, withoutHistory: seq<WordId>, histories: seq<History>,
                         nb: nat, now: Instant, shuffles: nat -> Draws, draws: Draws, keys: set<WordId>)
    requires |PrioritizeWords(withHistory, histories, nb, now, DelegateGroupSize, shuffles)| < nb
    requires (forall x :: x in withHistory ==> x in keys) && (forall x :: x in withoutHistory ==> x !in keys)
    ensures var r := CombineWordLists(withHistory, withoutHistory, histories, nb, now, shuffles, draws);
      && |r| == Min(nb, |withHistory| + |withoutHistory|)
      && (forall x :: x in r ==> x in withHistory || x in withoutHistory)
      && (Distinct(withHistory) && Distinct(withoutHistory) ==> Distinct(r))
      && (forall i, j :: 0 <= i < j < |r| && r[j] in keys ==> r[i] in keys)
  {
    var prioritized := PrioritizeWords(withHistory, histories, nb, now, DelegateGroupSize, shuffles);
    var rest := ShuffleAndLimit(withoutHistory, nb - |withHistory|, draws);
    CombineIsConcat(withHistory, withoutHistory, histories, nb, now, shuffles, draws);
    ShuffleAndLimitDrawsFromInput(withoutHistory, nb - |withHistory|, draws);
    var r := CombineWordLists(withHistory, withoutHistory, histories, nb, now, shuffles, draws);
    ConcatSelection(r, prioritized, rest, withHistory, withoutHistory, keys);
    if Distinct(withHistory) && Distinct(withoutHistory) {
      CombineCompletedDistinct(withHistory, withoutHistory, histories, nb, now, shuffles, draws);
    }
  }

  /** With at least `nb` words with history, the selection is `nb` of them. */
  lemma CombineEnough(withHistory: seq<WordId>, withoutHistory: seq<WordId>, histories: seq<History>,
                      nb: nat, now: Instant, shuffles: nat -> Draws, draws: Draws)
    requires |PrioritizeWords(withHistory, histories, nb, now, DelegateGroupSize, shuffles)| >= nb
    ensures var r := CombineWordLists(withHistory, withoutHistory, histories, nb, now, shuffles, draws);
      && |r| == nb
      && (forall x :: x in r ==> x in withHistory)
      && (Distinct(withHistory) ==> Distinct(r))
  {
    var prioritized := PrioritizeWords(withHistory, histories, nb, now, DelegateGroupSize, shuffles);
    var r := prioritized[..nb];
    assert forall x :: x in r ==> x in prioritized;
    if Distinct(withHistory) {
      assert Distinct(prioritized);
    }
  }

  /** The two sides of a split hold as many words as the candidates, and
      neither repeats a word when the candidates do not. */
  lemma PartitionSizes(p: Partition, ids: seq<WordId>)
    requires multiset(p.withHistory) + multiset(p.withoutHistory) == multiset(ids)
    ensures |p.withHistory| + |p.withoutHistory| == |ids|
    ensures Distinct(ids) ==> Distinct(p.withHistory) && Distinct(p.withoutHistory)
  {
    assert |multiset(p.withHistory) + multiset(p.withoutHistory)| == |multiset(ids)|;
    if Distinct(ids) {
      assert multiset(p.withHistory) <= multiset(ids);
      assert multiset(p.withoutHistory) <= multiset(ids);
      DistinctSubMultiset(p.withHistory, ids);
      DistinctSubMultiset(p.withoutHistory, ids);
    }
  }

  /** Combining any split of the candidates by the history keys gives the
      selection `ProcessWordsSelection` describes. */
  lemma SelectionFromPartition(p: Partition, ids: seq<WordId>, histories: seq<History>,
                               nb: nat, now: Instant, shuffles: nat -> Draws, draws: Draws)
    requires var keys := MakeHistoryMap(histories).Keys;
      (forall x :: x in p.withHistory ==> x in keys) && (forall x :: x in p.withoutHistory ==> x !in keys)
    requires (forall x :: x in p.withHistory ==> x in ids) && (forall x :: x in p.withoutHistory ==> x in ids)
    requires multiset(p.withHistory) + multiset(p.withoutHistory) == multiset(ids)
    ensures var r := CombineWordLists(p.withHistory, p.withoutHistory, histories, nb, now, shuffles, draws);
      var keys := MakeHistoryMap(histories).Keys;
      && |r| == Min(nb, |ids|)
      && (forall x :: x in r ==> x in ids)
      && (Distinct(ids) ==> Distinct(r))
      && (forall i, j :: 0 <= i < j < |r| && r[j] in keys ==> r[i] in keys)
  {
    CombineSelection(p.withHistory, p.withoutHistory, histories, nb, now, shuffles, draws);
    PartitionSizes(p, ids);
  }

  /** The selection has `min(nb, |ids|)` words, all candidates, without
      repetition when the candidates have none, and every word with history
      comes before every word without. */
  lemma ProcessWordsSelection(src: Sources, user: UserId, ids: seq<WordId>, nb: nat,
                              now: Instant, shuffles: nat -> Draws, draws: Draws)
    requires src.historiesByWordIds(user, ids).Ok?
    ensures var r := ProcessWordsWithLearningHistory(src, user, ids, nb, now, shuffles, draws);
      var hm := MakeHistoryMap(src.historiesByWordIds(user, ids).value);
      && r.Ok?
      && |r.value| == Min(nb, |ids|)
      && (forall x :: x in r.value ==> x in ids)
      && (Distinct(ids) ==> Distinct(r.value))
      && (forall i, j :: 0 <= i < j < |r.value| && r.value[j] in hm ==> r.value[i] in hm)
  {
    var histories := src.historiesByWordIds(user, ids).value;
    var hm := MakeHistoryMap(histories);
    var p := SplitByKeys(ids, hm);
    assert p == SplitWordsByHistory(ids, histories);
    SubsequenceMembers(p.withHistory, ids);
    SubsequenceMembers(p.withoutHistory, ids);
    SelectionFromPartition(p, ids, histories, nb, now, shuffles, draws);
  }
}
