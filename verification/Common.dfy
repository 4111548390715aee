/** Vocabulary shared by every module: optional values, results carrying an
    error message, Go-style float rate comparisons on counters, and a few
    facts about sequences (distinctness, subsequences, counting). */
module Common {

  /** A value that may be absent (a Go nil pointer or a failed lookup). */
  datatype Option<+T> = None | Some(value: T)

  /** A Go `(value, error)` pair: either a value or a non-nil error. */
  datatype Result<+T> = Ok(value: T) | Err(error: string)

  /** A Go `error` return with no value attached. */
  datatype Outcome = Pass | Fail(error: string)

  /** A 128-bit universally unique identifier, as its sixteen bytes. */
  datatype Uuid = Uuid(bytes: seq<bv8>)

  /** The all-zero identifier Go calls `uuid.Nil`. */
  const NilUuid: Uuid := Uuid(seq(16, _ => 0))

  function Min(a: int, b: int): (m: int)
    ensures m <= a && m <= b
    ensures m == a || m == b
  {
    if a <= b then a else b
  }

  function Max(a: int, b: int): (m: int)
    ensures m >= a && m >= b
    ensures m == a || m == b
  {
    if a >= b then a else b
  }

  // ---------------------------------------------------------------------
  // Rates. The source compares `float64(num) / float64(den)` with a decimal
  // threshold p/q. Counters are never negative, so a zero denominator means
  // a zero numerator: 0/0 is NaN and every comparison with NaN is false.
  // Otherwise the comparison is exact cross-multiplication.
  // ---------------------------------------------------------------------

  /** `num / den >= p / q` as a float64 comparison. */
  predicate RateAtLeast(num: nat, den: nat, p: nat, q: nat)
  {
    den > 0 && q * num >= p * den
  }

  /** `num / den > p / q` as a float64 comparison. */
  predicate RateAbove(num: nat, den: nat, p: nat, q: nat)
  {
    den > 0 && q * num > p * den
  }

  /** `num / den < p / q` as a float64 comparison. */
  predicate RateBelow(num: nat, den: nat, p: nat, q: nat)
  {
    den > 0 && q * num < p * den
  }

  // ---------------------------------------------------------------------
  // Sequences
  // ---------------------------------------------------------------------

  /** No element occurs twice. */
  predicate Distinct<T(==)>(s: seq<T>)
  {
    forall i, j :: 0 <= i < j < |s| ==> s[i] != s[j]
  }

  /** `a` can be obtained from `b` by deleting elements: the order of the
      kept elements is the order they had in `b`. */
  predicate IsSubsequence<T(==)>(a: seq<T>, b: seq<T>)
    decreases |b|
  {
    |a| == 0 ||
    (|b| > 0 &&
     ((a[0] == b[0] && IsSubsequence(a[1..], b[1..])) || IsSubsequence(a, b[1..])))
  }

  /** Number of occurrences of `c` in `s`. */
  function Count<T(==)>(s: seq<T>, c: T): (n: nat)
    ensures n == multiset(s)[c]
  {
    if |s| == 0 then 0
    else
      assert s == [s[0]] + s[1..];
      (if s[0] == c then 1 else 0) + Count(s[1..], c)
  }

  lemma {:induction false} DistinctCountsAtMostOne<T>(s: seq<T>, x: T)
    requires Distinct(s)
    ensures multiset(s)[x] <= 1
    decreases |s|
  {
    if |s| > 0 {
      assert s == [s[0]] + s[1..];
      assert Distinct(s[1..]);
      DistinctCountsAtMostOne(s[1..], x);
      if x == s[0] {
        assert x !in s[1..];
      }
    }
  }

  lemma EqualPairCountsTwice<T>(s: seq<T>, i: int, j: int)
    requires 0 <= i < j < |s|
    ensures s[i] == s[j] ==> multiset(s)[s[i]] >= 2
  {
    assert s == s[..j] + s[j..];
    assert s[..j][i] == s[i];
    assert s[j..][0] == s[j];
    assert multiset(s) == multiset(s[..j]) + multiset(s[j..]);
  }

  lemma CountsAtMostOneDistinct<T>(s: seq<T>)
    requires forall x :: multiset(s)[x] <= 1
    ensures Distinct(s)
  {
    forall i, j | 0 <= i < j < |s|
      ensures s[i] != s[j]
    {
      EqualPairCountsTwice(s, i, j);
    }
  }

  /** Taking some of the elements of a duplicate-free sequence, in any order,
      gives a duplicate-free sequence. */
  lemma DistinctSubMultiset<T>(a: seq<T>, b: seq<T>)
    requires multiset(a) <= multiset(b)
    requires Distinct(b)
    ensures Distinct(a)
  {
    forall x
      ensures multiset(a)[x] <= 1
    {
      DistinctCountsAtMostOne(b, x);
    }
    CountsAtMostOneDistinct(a);
  }

  lemma DistinctConcat<T>(a: seq<T>, b: seq<T>)
    requires Distinct(a) && Distinct(b)
    requires forall x :: x in a ==> x !in b
    ensures Distinct(a + b)
  {
    forall i, j | 0 <= i < j < |a + b|
      ensures (a + b)[i] != (a + b)[j]
    {
      if j >= |a| && i < |a| {
        assert (a + b)[i] in a;
        assert (a + b)[j] == b[j - |a|];
      }
    }
  }
}
