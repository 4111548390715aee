/** Randomised reordering, driven by an explicit stream of draws instead of
    a clock-seeded generator: Fisher–Yates over a whole sequence, and the
    same shuffle applied independently to consecutive blocks. */
module Shuffle {
  import opened Common
  import opened Ranking

  /** A random source: draw k is the k-th raw number it yields. */
  type Draws = nat -> nat

  /** Exchanges the items at positions i and j. */
  function Swap<T>(s: seq<T>, i: nat, j: nat): (r: seq<T>)
    requires i < |s| && j < |s|
    ensures |r| == |s| && multiset(r) == multiset(s)
    ensures r[i] == s[j] && r[j] == s[i]
    ensures forall k :: 0 <= k < |s| && k != i && k != j ==> r[k] == s[k]
  {
    s[i := s[j]][j := s[i]]
  }

  /** Fisher–Yates from position i down to 1: position i is exchanged with a
      position j in [0, i] taken from draw number `next`, then the prefix
      before i is shuffled with the following draws. */
  function ShuffleDown<T>(s: seq<T>, i: nat, draws: Draws, next: nat): (r: seq<T>)
    requires i < |s|
    ensures |r| == |s| && multiset(r) == multiset(s)
    ensures r[i + 1..] == s[i + 1..]
    decreases i
  {
    if i == 0 then s
    else
      var j := draws(next) % (i + 1);
      ShuffleDown(Swap(s, i, j), i - 1, draws, next + 1)
  }

  /** Shuffles a whole sequence, last position first, as Go's
      `rand.Shuffle` and the hand-written loop of `shuffleAndLimit` do. */
  function FisherYates<T>(s: seq<T>, draws: Draws): (r: seq<T>)
    ensures |r| == |s| && multiset(r) == multiset(s)
  {
    if |s| == 0 then s else ShuffleDown(s, |s| - 1, draws, 0)
  }

  /** Shuffles consecutive blocks of `size` items, each with its own random
      source: block b uses `sources(b0 + b)`. The last block may be short. */
  function ShuffleBlocks<T>(s: seq<T>, size: nat, sources: nat -> Draws, b0: nat): (r: seq<T>)
    requires size > 0
    ensures BlockwisePermutation(r, s, size)
    decreases |s|
  {
    if |s| <= size then FisherYates(s, sources(b0))
    else
      var head := FisherYates(s[..size], sources(b0));
      var tail := ShuffleBlocks(s[size..], size, sources, b0 + 1);
      assert (head + tail)[..size] == head && (head + tail)[size..] == tail;
      head + tail
  }

  /** The block shuffle is a permutation of its input. */
  lemma ShuffleBlocksIsPermutation<T>(s: seq<T>, size: nat, sources: nat -> Draws)
    requires size > 0
    ensures multiset(ShuffleBlocks(s, size, sources, 0)) == multiset(s)
  {
    BlockwiseIsPermutation(ShuffleBlocks(s, size, sources, 0), s, size);
  }

  /** A ranking shuffled within blocks stays ranked between blocks: an item
      in an earlier block scores at least as much as one in a later block. */
  lemma ShuffleBlocksKeepsCoarseOrder<T>(s: seq<T>, size: nat, sources: nat -> Draws,
                                         key: T -> real, i: nat, j: nat)
    requires size > 0
    requires SortedDesc(s, key)
    requires i < |s| && j < |s| && i / size < j / size
    ensures var r := ShuffleBlocks(s, size, sources, 0);
      key(r[i]) >= key(r[j])
  {
    var r := ShuffleBlocks(s, size, sources, 0);
    BlockwiseShuffleKeepsCoarseOrder(r, s, size, key);
    CoarseOrderByPosition(r, size, key, i, j);
  }
}
