/** The parts of Go's `strings` and `strconv` packages the request handling
    relies on: splitting and joining on a separator, prefix tests, and
    decimal conversion between `int` (64 bits on the server) and text. */
module Strings {
  import opened Common

  // ---------------------------------------------------------------------
  // Splitting and joining
  // ---------------------------------------------------------------------

  /** The parts with `sep` between each pair, as `strings.Join`. */
  function Join(parts: seq<string>, sep: string): string
    decreases |parts|
  {
    if |parts| == 0 then ""
    else if |parts| == 1 then parts[0]
    else parts[0] + sep + Join(parts[1..], sep)
  }

  /** Extending the first part extends the join at the front. */
  lemma JoinExtendFirst(c: char, parts: seq<string>, sep: string)
    requires |parts| > 0
    ensures Join(parts[0 := [c] + parts[0]], sep) == [c] + Join(parts, sep)
  {
    var longer := parts[0 := [c] + parts[0]];
    if |parts| > 1 {
      assert longer[1..] == parts[1..];
    }
  }

  /** Joining a first part in front of at least one more. */
  lemma JoinCons(p: string, ps: seq<string>, sep: string)
    requires |ps| > 0
    ensures Join([p] + ps, sep) == p + sep + Join(ps, sep)
  {
    assert ([p] + ps)[1..] == ps;
  }

  /** `r` cuts `s` at every `sep`: one more piece than there are
      separators, no piece holds one, and joining them back gives `s`. */
  predicate CutsAt(r: seq<string>, s: string, sep: char)
  {
    && |r| == Count(s, sep) + 1
    && (forall i :: 0 <= i < |r| ==> sep !in r[i])
    && Join(r, [sep]) == s
  }

  /** A leading separator opens an empty first piece. */
  lemma CutsAtSeparator(rest: seq<string>, s: string, sep: char)
    requires |s| > 0 && s[0] == sep && CutsAt(rest, s[1..], sep)
    ensures CutsAt([""] + rest, s, sep)
  {
    var r := [""] + rest;
    assert Count(s, sep) == 1 + Count(s[1..], sep);
    JoinCons("", rest, [sep]);
    assert [sep] + s[1..] == s;
    assert forall i :: 1 <= i < |r| ==> r[i] == rest[i - 1];
  }

  /** Any other leading character extends the first piece. */
  lemma CutsAtOther(rest: seq<string>, s: string, sep: char)
    requires |s| > 0 && s[0] != sep && CutsAt(rest, s[1..], sep)
    ensures CutsAt(rest[0 := [s[0]] + rest[0]], s, sep)
  {
    var r := rest[0 := [s[0]] + rest[0]];
    assert Count(s, sep) == Count(s[1..], sep);
    JoinExtendFirst(s[0], rest, [sep]);
    assert [s[0]] + s[1..] == s;
    assert sep !in r[0] by {
      assert r[0] == [s[0]] + rest[0];
    }
    assert forall i :: 1 <= i < |r| ==> r[i] == rest[i];
  }

  /** The pieces of `s` between occurrences of `sep`, as `strings.Split`
      with a one-character separator, empty pieces kept. */
  function Split(s: string, sep: char): (r: seq<string>)
    ensures |r| == Count(s, sep) + 1
    ensures forall i :: 0 <= i < |r| ==> sep !in r[i]
    ensures Join(r, [sep]) == s
    decreases |s|
  {
    if |s| == 0 then [""]
    else
      var rest := Split(s[1..], sep);
      assert CutsAt(rest, s[1..], sep);
      if s[0] == sep then
        CutsAtSeparator(rest, s, sep);
        [""] + rest
      else
        CutsAtOther(rest, s, sep);
        rest[0 := [s[0]] + rest[0]]
  }

  /** Splitting a join gives the parts back when no part holds the
      separator. */
  lemma {:induction false} SplitJoin(parts: seq<string>, sep: char)
    requires |parts| > 0
    requires forall i :: 0 <= i < |parts| ==> sep !in parts[i]
    ensures Split(Join(parts, [sep]), sep) == parts
    decreases |parts|, |parts[0]|, 1
  {
    if |parts[0]| == 0 {
      if |parts| > 1 {
        SplitJoinAfterEmpty(parts, sep);
      }
    } else {
      SplitJoinAfterChar(parts, sep);
    }
  }

  lemma {:induction false} SplitJoinAfterEmpty(parts: seq<string>, sep: char)
    requires |parts| > 1 && parts[0] == ""
    requires forall i :: 0 <= i < |parts| ==> sep !in parts[i]
    ensures Split(Join(parts, [sep]), sep) == parts
    decreases |parts|, 0, 0
  {
    var tail := parts[1..];
    var joined := Join(parts, [sep]);
    assert joined == [sep] + Join(tail, [sep]);
    assert joined[1..] == Join(tail, [sep]);
    SplitJoin(tail, sep);
    assert parts == [""] + tail;
  }

  lemma {:induction false} SplitJoinAfterChar(parts: seq<string>, sep: char)
    requires |parts| > 0 && |parts[0]| > 0
    requires forall i :: 0 <= i < |parts| ==> sep !in parts[i]
    ensures Split(Join(parts, [sep]), sep) == parts
    decreases |parts|, |parts[0]|, 0
  {
    var c := parts[0][0];
    var shorter := parts[0 := parts[0][1..]];
    assert parts[0] == [c] + shorter[0];
    assert sep !in shorter[0] by {
      assert sep !in parts[0];
    }
    assert forall i :: 0 <= i < |shorter| ==> sep !in shorter[i] by {
      forall i | 0 <= i < |shorter| ensures sep !in shorter[i] {
        if i != 0 {
          assert shorter[i] == parts[i];
        }
      }
    }
    SplitJoin(shorter, sep);
    assert parts == shorter[0 := [c] + shorter[0]];
    JoinExtendFirst(c, shorter, [sep]);
    var joined := Join(parts, [sep]);
    assert joined == [c] + Join(shorter, [sep]);
    assert joined[1..] == Join(shorter, [sep]);
    assert c != sep by {
      assert c in parts[0];
    }
  }

  /** Whether `s` begins with `prefix`, as `strings.HasPrefix`. */
  predicate HasPrefix(s: string, prefix: string)
  {
    prefix <= s
  }

  // ---------------------------------------------------------------------
  // Decimal integers
  // ---------------------------------------------------------------------

  const MinInt64: int := -0x8000_0000_0000_0000
  const MaxInt64: int := 0x7FFF_FFFF_FFFF_FFFF

  predicate IsDigit(c: char)
  {
    '0' <= c <= '9'
  }

  predicate AllDigits(s: string)
  {
    forall i :: 0 <= i < |s| ==> IsDigit(s[i])
  }

  /** The number a string of decimal digits denotes, most significant
      first. */
  function DigitsValue(s: string): (n: nat)
    requires AllDigits(s)
    decreases |s|
  {
    if |s| == 0 then 0
    else DigitsValue(s[..|s| - 1]) * 10 + (s[|s| - 1] as int - '0' as int)
  }

  /** The decimal digits of `n`, without leading zeros. */
  function Digits(n: nat): (s: string)
    ensures |s| > 0 && AllDigits(s)
    ensures |s| > 1 ==> s[0] != '0'
    decreases n
  {
    if n < 10 then [(('0' as int) + n) as char]
    else Digits(n / 10) + [(('0' as int) + n % 10) as char]
  }

  lemma {:induction false} DigitsValueOfDigits(n: nat)
    ensures DigitsValue(Digits(n)) == n
    decreases n
  {
    if n >= 10 {
      var s := Digits(n);
      DigitsValueOfDigits(n / 10);
      assert s[..|s| - 1] == Digits(n / 10);
    }
  }

  /** `strconv.Itoa`: an optional minus sign followed by the digits. */
  function Itoa(n: int): (s: string)
    ensures |s| > 0
    ensures n < 0 <==> s[0] == '-'
  {
    if n < 0 then "-" + Digits(-n) else Digits(n)
  }

  /** The text after an optional leading sign. */
  function Unsigned(s: string): (digits: string)
    ensures |digits| <= |s| && digits == s[|s| - |digits|..]
    ensures |s| > 0 && (s[0] == '+' || s[0] == '-') ==> |digits| == |s| - 1
    ensures |s| > 0 && s[0] != '+' && s[0] != '-' ==> digits == s
  {
    if |s| > 0 && (s[0] == '+' || s[0] == '-') then s[1..] else s
  }

  /** `strconv.Atoi` on a 64-bit platform: an optional sign, then one or
      more decimal digits, denoting a value of the 64-bit range. */
  function Atoi(s: string): (r: Result<int>)
    ensures r.Ok? ==> MinInt64 <= r.value <= MaxInt64
    ensures |s| == 0 ==> r.Err?
    ensures r.Ok? ==> forall i :: 0 < i < |s| ==> IsDigit(s[i])
    ensures r.Ok? ==> IsDigit(s[0]) || s[0] == '+' || s[0] == '-'
    ensures r.Ok? && s[0] == '-' ==> r.value <= 0
    ensures r.Ok? && s[0] != '-' ==> r.value >= 0
  {
    var digits := Unsigned(s);
    if |digits| == 0 || !AllDigits(digits) then Err("invalid syntax")
    else
      var magnitude: int := DigitsValue(digits);
      var v := if s[0] == '-' then -magnitude else magnitude;
      if v < MinInt64 || v > MaxInt64 then Err("value out of range")
      else
        var k := |s| - |digits|;
        assert forall i :: k <= i < |s| ==> s[i] == digits[i - k];
        Ok(v)
  }

  /** `Atoi` on a sign-free digit string whose value is in range. */
  lemma AtoiOfDigits(t: string, m: nat)
    requires |t| > 0 && AllDigits(t) && DigitsValue(t) == m && m <= MaxInt64
    ensures Atoi(t) == Ok(m)
  {
    assert IsDigit(t[0]);
    assert t[0] != '+' && t[0] != '-';
    assert Unsigned(t) == t;
    assert 0 <= m <= MaxInt64;
  }

  /** `Atoi` on a minus sign followed by a digit string whose negation is
      in range. */
  lemma AtoiOfNegatedDigits(t: string, m: int)
    requires |t| > 0 && AllDigits(t) && DigitsValue(t) == m && m <= -MinInt64
    ensures Atoi("-" + t) == Ok(-m)
  {
    var u := "-" + t;
    assert u[0] == '-' && u[1..] == t;
    assert Unsigned(u) == t;
    assert MinInt64 <= -m <= 0;
  }

  /** Reading back what `Itoa` wrote gives the number, for every 64-bit
      value. */
  lemma AtoiItoa(n: int)
    requires MinInt64 <= n <= MaxInt64
    ensures Atoi(Itoa(n)) == Ok(n)
  {
    if n < 0 {
      DigitsValueOfDigits(-n);
      AtoiOfNegatedDigits(Digits(-n), -n);
    } else {
      DigitsValueOfDigits(n);
      AtoiOfDigits(Digits(n), n);
    }
  }
}
