/** Ranking of items by a real-valued score, highest first, and the
    structure a block-wise shuffle of a ranking keeps. */
module Ranking {
  import opened Common

  /** Scores never increase along `s`. */
  predicate SortedDesc<T>(s: seq<T>, key: T -> real)
  {
    forall i, j :: 0 <= i < j < |s| ==> key(s[i]) >= key(s[j])
  }

  /** Inserts `x` into a ranking, ahead of the first item that does not
      score more than it. */
  function InsertDesc<T>(x: T, s: seq<T>, key: T -> real): (r: seq<T>)
    requires SortedDesc(s, key)
    ensures SortedDesc(r, key)
    ensures |r| == |s| + 1
    ensures multiset(r) == multiset(s) + multiset{x}
    decreases |s|
  {
    if |s| == 0 || key(x) >= key(s[0]) then [x] + s
    else
      var tail := InsertDesc(x, s[1..], key);
      HeadOutranksInsertion(x, s, tail, key);
      assert s == [s[0]] + s[1..];
      [s[0]] + tail
  }

  /** The head of a ranking scores at least as much as anything in the
      ranking of its tail with a lower-scored item inserted. */
  lemma HeadOutranksInsertion<T>(x: T, s: seq<T>, tail: seq<T>, key: T -> real)
    requires SortedDesc(s, key) && |s| > 0 && key(x) < key(s[0])
    requires multiset(tail) == multiset(s[1..]) + multiset{x}
    ensures forall i :: 0 <= i < |tail| ==> key(s[0]) >= key(tail[i])
  {
    forall i | 0 <= i < |tail|
      ensures key(s[0]) >= key(tail[i])
    {
      assert tail[i] in multiset(tail);
      if tail[i] != x {
        assert tail[i] in multiset(s[1..]);
        var j :| 0 <= j < |s[1..]| && s[1..][j] == tail[i];
        assert s[j + 1] == tail[i];
      }
    }
  }

  /** Ranks `s` by `key`, highest first (an insertion sort). */
  function SortDesc<T>(s: seq<T>, key: T -> real): (r: seq<T>)
    ensures SortedDesc(r, key)
    ensures |r| == |s|
    ensures multiset(r) == multiset(s)
    decreases |s|
  {
    if |s| == 0 then []
    else
      assert s == [s[0]] + s[1..];
      InsertDesc(s[0], SortDesc(s[1..], key), key)
  }

  /** The first `n` items of a ranking score at least as much as every item
      left out. */
  lemma {:induction false} PrefixOfRankingIsTop<T>(t: seq<T>, n: nat, key: T -> real)
    requires SortedDesc(t, key)
    requires n <= |t|
    ensures forall x, y :: x in t[..n] && y in multiset(t) - multiset(t[..n]) ==> key(x) >= key(y)
  {
    assert t == t[..n] + t[n..];
    assert multiset(t) - multiset(t[..n]) == multiset(t[n..]);
    forall x, y | x in t[..n] && y in multiset(t) - multiset(t[..n])
      ensures key(x) >= key(y)
    {
      var i :| 0 <= i < n && t[..n][i] == x;
      assert y in t[n..];
      var j :| 0 <= j < |t| - n && t[n..][j] == y;
      assert t[i] == x && t[n + j] == y;
    }
  }

  /** What taking the first `n` items of a ranking gives: a ranking of some
      of the items, all of them when `n` covers the list, each scoring at
      least as much as every item left out. */
  lemma TopOfRanking<T>(t: seq<T>, n: nat, key: T -> real)
    requires SortedDesc(t, key)
    requires n <= |t|
    ensures SortedDesc(t[..n], key)
    ensures multiset(t[..n]) <= multiset(t)
    ensures n == |t| ==> multiset(t[..n]) == multiset(t)
    ensures forall x, y :: x in t[..n] && y in multiset(t) - multiset(t[..n]) ==> key(x) >= key(y)
  {
    PrefixOfRankingIsTop(t, n, key);
    assert t == t[..n] + t[n..];
    assert multiset(t) == multiset(t[..n]) + multiset(t[n..]);
  }

  // ---------------------------------------------------------------------
  // Block structure
  // ---------------------------------------------------------------------

  /** `r` permutes `s` within consecutive blocks of `size` items: each block
      of `r` holds exactly the items of the same block of `s`. */
  ghost predicate BlockwisePermutation<T>(r: seq<T>, s: seq<T>, size: nat)
    requires size > 0
    decreases |s|
  {
    && |r| == |s|
    && (|s| <= size ==> multiset(r) == multiset(s))
    && (|s| > size ==>
          && multiset(r[..size]) == multiset(s[..size])
          && BlockwisePermutation(r[size..], s[size..], size))
  }

  /** Every item of a block scores at least as much as every item of every
      later block. */
  ghost predicate CoarselyOrdered<T>(r: seq<T>, size: nat, key: T -> real)
    requires size > 0
    decreases |r|
  {
    |r| <= size ||
    ((forall x, y :: x in r[..size] && y in r[size..] ==> key(x) >= key(y))
     && CoarselyOrdered(r[size..], size, key))
  }

  lemma {:induction false} BlockwiseIsPermutation<T>(r: seq<T>, s: seq<T>, size: nat)
    requires size > 0
    requires BlockwisePermutation(r, s, size)
    ensures multiset(r) == multiset(s)
    decreases |s|
  {
    if |s| > size {
      BlockwiseIsPermutation(r[size..], s[size..], size);
      assert r == r[..size] + r[size..];
      assert s == s[..size] + s[size..];
    }
  }

  /** Shuffling a ranking within blocks keeps the ranking between blocks. */
  lemma {:induction false} BlockwiseShuffleKeepsCoarseOrder<T>(r: seq<T>, s: seq<T>, size: nat, key: T -> real)
    requires size > 0
    requires SortedDesc(s, key)
    requires BlockwisePermutation(r, s, size)
    ensures CoarselyOrdered(r, size, key)
    decreases |s|
  {
    if |s| > size {
      BlockwiseIsPermutation(r[size..], s[size..], size);
      forall x, y | x in r[..size] && y in r[size..]
        ensures key(x) >= key(y)
      {
        assert x in multiset(s[..size]);
        assert y in multiset(s[size..]);
        var i :| 0 <= i < size && s[..size][i] == x;
        var j :| 0 <= j < |s| - size && s[size..][j] == y;
        assert s[i] == x && s[size + j] == y;
      }
      BlockwiseShuffleKeepsCoarseOrder(r[size..], s[size..], size, key);
    }
  }

  /** The coarse order stated on positions: an item in an earlier block
      scores at least as much as an item in a later block. */
  lemma {:induction false} CoarseOrderByPosition<T>(r: seq<T>, size: nat, key: T -> real, i: nat, j: nat)
    requires size > 0
    requires CoarselyOrdered(r, size, key)
    requires i < |r| && j < |r| && i / size < j / size
    ensures key(r[i]) >= key(r[j])
    decreases |r|
  {
    WithinFirstBlock(i, size);
    WithinFirstBlock(j, size);
    if i < size {
      assert r[i] in r[..size] && r[j] in r[size..];
    } else {
      DivAfterOneBlock(i, size);
      DivAfterOneBlock(j, size);
      CoarseOrderByPosition(r[size..], size, key, i - size, j - size);
    }
  }

  lemma DivAfterOneBlock(i: nat, n: nat)
    requires n > 0 && i >= n
    ensures (i - n) / n == i / n - 1
  {
    var q := (i - n) / n;
    var m := (i - n) % n;
    assert i - n == q * n + m && 0 <= m < n;
    assert i == (q + 1) * n + m;
    DivOfDecomposition(i, n, q + 1, m);
  }

  lemma WithinFirstBlock(x: nat, n: nat)
    requires n > 0
    ensures x < n ==> x / n == 0
  {
    if x < n {
      DivOfDecomposition(x, n, 0, x);
    }
  }

  lemma DivOfDecomposition(x: int, n: int, q: int, m: int)
    requires n > 0 && 0 <= m < n && x == q * n + m
    ensures x / n == q
  {
    var q' := x / n;
    var m' := x % n;
    assert x == q' * n + m';
    var d := q - q';
    assert d * n == q * n - q' * n;
    assert d * n == m' - m;
    if d >= 1 {
      AtLeastOneMultiple(d, n);
    } else if d <= -1 {
      AtLeastOneMultiple(-d, n);
    }
  }

  lemma AtLeastOneMultiple(d: int, n: int)
    requires d >= 1 && n > 0
    ensures d * n >= n
  {
    assert d * n == (d - 1) * n + n;
    assert (d - 1) * n >= 0;
  }
}
