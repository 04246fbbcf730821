/**
 * The handful of java.lang.String and java.lang.Integer operations the modelled
 * code relies on, written out exactly: indexOf, lastIndexOf, split with a single
 * character delimiter (limit 0 and limit n > 0), joining with a delimiter, and the
 * decimal rendering and parsing of integers used when building keys and ids.
 */
module JavaStrings {
  import opened Results

  /** True when `c` occurs nowhere in `s`. */
  predicate Free(s: string, c: char) {
    forall i :: 0 <= i < |s| ==> s[i] != c
  }

  /** True when `s` begins with `prefix`. */
  predicate StartsWith(s: string, prefix: string) {
    |prefix| <= |s| && s[..|prefix|] == prefix
  }

  /** True when `s` ends with `suffix`. */
  predicate EndsWith(s: string, suffix: string) {
    |suffix| <= |s| && s[|s| - |suffix|..] == suffix
  }

  /** `s.indexOf(c, from)`: the first position at or after `from` holding `c`, or -1. */
  function IndexOfFrom(s: string, c: char, from: nat): (r: int)
    ensures r == -1 || from <= r < |s|
    ensures r == -1 ==> forall i :: from <= i < |s| ==> s[i] != c
    ensures r != -1 ==> s[r] == c && forall i :: from <= i < r ==> s[i] != c
    decreases |s| - from
  {
    if from >= |s| then -1
    else if s[from] == c then from
    else IndexOfFrom(s, c, from + 1)
  }

  /** `s.indexOf(c)`. */
  function IndexOf(s: string, c: char): (r: int)
    ensures r == -1 <==> Free(s, c)
    ensures r != -1 ==> 0 <= r < |s| && s[r] == c && Free(s[..r], c)
  {
    IndexOfFrom(s, c, 0)
  }

  /** `s.lastIndexOf(c)`: the last position holding `c`, or -1. */
  function LastIndexOf(s: string, c: char): (r: int)
    ensures r == -1 <==> Free(s, c)
    ensures r != -1 ==> 0 <= r < |s| && s[r] == c && Free(s[r + 1..], c)
  {
    if |s| == 0 then -1
    else if s[|s| - 1] == c then |s| - 1
    else
      var r := LastIndexOf(s[..|s| - 1], c);
      assert r != -1 ==> s[r + 1..] == s[..|s| - 1][r + 1..] + [s[|s| - 1]];
      r
  }

  /** The last occurrence of `c` in `a + [c] + b`, when `b` lacks it, is the one between. */
  lemma {:induction false} LastIndexOfBefore(a: string, c: char, b: string)
    requires Free(b, c)
    ensures LastIndexOf(a + [c] + b, c) == |a|
    decreases |b|
  {
    var s := a + [c] + b;
    if |b| > 0 {
      assert s[|s| - 1] == b[|b| - 1];
      assert s[..|s| - 1] == a + [c] + b[..|b| - 1];
      LastIndexOfBefore(a, c, b[..|b| - 1]);
    }
  }

  /** The elements of `xs` with `sep` between neighbours (the source's `join`, and the
      string a Java split undoes). */
  function Join(xs: seq<string>, sep: string): string
  {
    if |xs| == 0 then ""
    else if |xs| == 1 then xs[0]
    else xs[0] + sep + Join(xs[1..], sep)
  }

  /** Appending a piece to a non-empty join adds the delimiter and the piece. */
  lemma {:induction false} JoinSnoc(xs: seq<string>, x: string, sep: string)
    requires |xs| >= 1
    ensures Join(xs + [x], sep) == Join(xs, sep) + sep + x
    decreases |xs|
  {
    if |xs| > 1 {
      assert (xs + [x])[1..] == xs[1..] + [x];
      JoinSnoc(xs[1..], x, sep);
    }
  }

  /** Every piece of `s` between occurrences of `d`, empty pieces included: the split
      before any Java limit rule is applied. */
  function Pieces(s: string, d: char): (r: seq<string>)
    ensures |r| >= 1
    ensures forall i :: 0 <= i < |r| ==> Free(r[i], d)
    ensures Join(r, [d]) == s
    decreases |s|
  {
    var i := IndexOf(s, d);
    if i == -1 then [s]
    else
      var rest := Pieces(s[i + 1..], d);
      assert s == s[..i] + [d] + s[i + 1..];
      [s[..i]] + rest
  }

  /** `s.split(d, n)` for n > 0 once a delimiter is known to occur: at most `n` pieces,
      the last of which keeps the unsplit remainder. */
  function SplitLimited(s: string, d: char, n: nat): (r: seq<string>)
    requires n >= 1
    ensures |r| == Min(n, |Pieces(s, d)|)
    ensures Join(r, [d]) == s
    ensures forall i :: 0 <= i < |r| - 1 ==> Free(r[i], d)
    decreases n
  {
    var i := IndexOf(s, d);
    if n == 1 || i == -1 then [s]
    else
      var rest := SplitLimited(s[i + 1..], d, n - 1);
      assert s == s[..i] + [d] + s[i + 1..];
      assert Pieces(s, d) == [s[..i]] + Pieces(s[i + 1..], d);
      assert ([s[..i]] + rest)[1..] == rest;
      [s[..i]] + rest
  }

  function Min(a: int, b: int): int {
    if a <= b then a else b
  }

  /** Drops the trailing empty strings, as a Java split with limit 0 does. */
  function StripTrailingEmpty(xs: seq<string>): (r: seq<string>)
    ensures |r| <= |xs| && r == xs[..|r|]
    ensures |r| > 0 ==> r[|r| - 1] != ""
    ensures forall i :: |r| <= i < |xs| ==> xs[i] == ""
  {
    if |xs| > 0 && xs[|xs| - 1] == "" then StripTrailingEmpty(xs[..|xs| - 1]) else xs
  }

  /** `s.split(d, limit)` with a single non-special delimiter character, for limit >= 0.
      Without any occurrence of `d` the result is `[s]`, even for the empty string. */
  function Split(s: string, d: char, limit: nat): (r: seq<string>)
    ensures Free(s, d) ==> r == [s]
    ensures limit > 0 ==> Join(r, [d]) == s
    ensures limit > 0 ==> |r| == Min(limit, |Pieces(s, d)|)
    ensures limit > 0 ==> forall i :: 0 <= i < |r| - 1 ==> Free(r[i], d)
    ensures limit == 0 && !Free(s, d) ==> r == StripTrailingEmpty(Pieces(s, d))
    ensures limit == 0 ==> forall i :: 0 <= i < |r| ==> Free(r[i], d)
    ensures limit == 0 && |r| >= 2 ==> r[|r| - 1] != ""
  {
    if IndexOf(s, d) == -1 then [s]
    else if limit > 0 then SplitLimited(s, d, limit)
    else SplitAll(s, d)
  }

  /** `s.split(d)`, that is with limit 0: every piece, trailing empty ones dropped. */
  function SplitAll(s: string, d: char): (r: seq<string>)
    ensures r == StripTrailingEmpty(Pieces(s, d))
    ensures forall i :: 0 <= i < |r| ==> Free(r[i], d)
    ensures |r| >= 2 ==> r[|r| - 1] != ""
  {
    var ps := Pieces(s, d);
    var r := StripTrailingEmpty(ps);
    assert forall k :: 0 <= k < |r| ==> r[k] == ps[k];
    r
  }

  /** Splitting the join of `n` pieces gives them back, either with limit `n` when all but
      the last are free of the delimiter, or with limit 0 when all are free of it and the
      last of two or more is not empty. */
  lemma SplitOfJoin(xs: seq<string>, d: char, limit: nat)
    requires |xs| >= 1
    requires forall i :: 0 <= i < |xs| - 1 ==> Free(xs[i], d)
    requires limit == |xs| || (limit == 0 && (forall i :: 0 <= i < |xs| ==> Free(xs[i], d)) && (|xs| == 1 || xs[|xs| - 1] != ""))
    ensures Split(Join(xs, [d]), d, limit) == xs
  {
    if |xs| == 1 {
      assert Join(xs, [d]) == xs[0] && xs == [xs[0]];
      SplitOfOne(xs[0], d, limit);
    } else if limit > 0 {
      SplitOfJoinLimited(xs, d);
    } else {
      SplitZeroOfJoin(xs, d);
    }
  }

  /** A split with limit 1, or of text without the delimiter, gives the text alone. */
  lemma SplitOfOne(s: string, d: char, limit: nat)
    requires limit == 1 || Free(s, d)
    ensures Split(s, d, limit) == [s]
  {
  }

  /** Splitting the join of two or more pieces with their number as limit. */
  lemma SplitOfJoinLimited(xs: seq<string>, d: char)
    requires |xs| >= 2
    requires forall i :: 0 <= i < |xs| - 1 ==> Free(xs[i], d)
    ensures Split(Join(xs, [d]), d, |xs|) == xs
  {
    JoinHasDelimiter(xs, d);
    SplitLimitedOfJoin(xs, d);
  }

  /** A Java split with limit 0 is empty exactly when the text is one or more delimiters
      and nothing else. */
  lemma SplitZeroEmpty(s: string, d: char)
    ensures |Split(s, d, 0)| == 0 <==> |s| > 0 && forall i :: 0 <= i < |s| ==> s[i] == d
  {
    if Free(s, d) {
      assert Split(s, d, 0) == [s];
      if |s| > 0 {
        assert s[0] != d;
      }
    } else {
      var xs := Pieces(s, d);
      var r := StripTrailingEmpty(xs);
      assert Split(s, d, 0) == r;
      AllPiecesEmpty(s, d);
      if |r| == 0 {
        assert forall i :: 0 <= i < |xs| ==> xs[i] == "";
        assert forall i :: 0 <= i < |s| ==> s[i] == d;
        assert |s| > 0 by { var k :| 0 <= k < |s| && s[k] == d; }
      } else {
        var k := |r| - 1;
        assert xs[k] == r[k] && xs[k] != "";
        assert !(forall i :: 0 <= i < |xs| ==> xs[i] == "");
        assert !(forall i :: 0 <= i < |s| ==> s[i] == d);
      }
    }
  }

  /** Every piece between delimiters is empty exactly when every character is one. */
  lemma {:induction false} AllPiecesEmpty(s: string, d: char)
    ensures (forall i :: 0 <= i < |Pieces(s, d)| ==> Pieces(s, d)[i] == "")
            <==> forall i :: 0 <= i < |s| ==> s[i] == d
    decreases |s|
  {
    var i := IndexOf(s, d);
    if i != -1 {
      var xs := Pieces(s, d);
      var rest := Pieces(s[i + 1..], d);
      assert xs == [s[..i]] + rest;
      AllPiecesEmpty(s[i + 1..], d);
      assert forall k :: 0 <= k < |rest| ==> rest[k] == xs[k + 1];
      assert forall k :: i + 1 <= k < |s| ==> s[k] == s[i + 1..][k - i - 1];
      if i > 0 {
        assert s[0] != d && xs[0] != "";
      }
    } else if |s| > 0 {
      assert s[0] != d && Pieces(s, d)[0] == s;
    }
  }

  /** Splitting the join of delimiter-free pieces gives the pieces back. */
  lemma {:induction false} PiecesOfJoin(xs: seq<string>, d: char)
    requires |xs| >= 1
    requires forall i :: 0 <= i < |xs| ==> Free(xs[i], d)
    ensures Pieces(Join(xs, [d]), d) == xs
    decreases |xs|
  {
    var s := Join(xs, [d]);
    if |xs| == 1 {
      assert IndexOf(s, d) == -1;
    } else {
      var tail := Join(xs[1..], [d]);
      assert s == xs[0] + [d] + tail;
      assert s[|xs[0]|] == d;
      assert s[..|xs[0]|] == xs[0];
      assert IndexOf(s, d) == |xs[0]|;
      assert s[|xs[0]| + 1..] == tail;
      PiecesOfJoin(xs[1..], d);
      assert xs == [xs[0]] + xs[1..];
    }
  }

  /** A split limited to `n` pieces of the join of `n` pieces gives them back when all but
      the last are free of the delimiter: the last keeps whatever it holds. */
  lemma {:induction false} SplitLimitedOfJoin(xs: seq<string>, d: char)
    requires |xs| >= 1
    requires forall i :: 0 <= i < |xs| - 1 ==> Free(xs[i], d)
    ensures SplitLimited(Join(xs, [d]), d, |xs|) == xs
    decreases |xs|
  {
    var s := Join(xs, [d]);
    if |xs| > 1 {
      var tail := Join(xs[1..], [d]);
      assert s == xs[0] + [d] + tail;
      assert s[|xs[0]|] == d;
      assert s[..|xs[0]|] == xs[0];
      assert IndexOf(s, d) == |xs[0]|;
      assert s[|xs[0]| + 1..] == tail;
      assert SplitLimited(s, d, |xs|) == [xs[0]] + SplitLimited(tail, d, |xs| - 1);
      SplitLimitedOfJoin(xs[1..], d);
      assert xs == [xs[0]] + xs[1..];
    }
  }

  /** The join of two or more pieces contains the delimiter. */
  lemma JoinHasDelimiter(xs: seq<string>, d: char)
    requires |xs| >= 2
    ensures !Free(Join(xs, [d]), d)
  {
    assert Join(xs, [d])[|xs[0]|] == d;
  }

  /** A Java split with limit 0 of delimiter-free pieces, the last of them non-empty,
      gives the pieces back. */
  lemma SplitZeroOfJoin(xs: seq<string>, d: char)
    requires |xs| >= 1 && xs[|xs| - 1] != ""
    requires forall i :: 0 <= i < |xs| ==> Free(xs[i], d)
    ensures Split(Join(xs, [d]), d, 0) == xs
  {
    PiecesOfJoin(xs, d);
    if |xs| >= 2 {
      JoinHasDelimiter(xs, d);
    } else {
      assert Join(xs, [d]) == xs[0];
    }
  }

  // ----- Integer.toString and Integer.parseInt -----

  predicate IsDigit(c: char) {
    '0' <= c <= '9'
  }

  function DigitChar(n: nat): (c: char)
    requires n < 10
    ensures IsDigit(c) && c as int - '0' as int == n
  {
    (n + '0' as int) as char
  }

  /** The decimal digits of `n`, most significant first, without leading zeros. */
  function NatToString(n: nat): (r: string)
    ensures |r| >= 1
    ensures forall i :: 0 <= i < |r| ==> IsDigit(r[i])
    decreases n
  {
    if n < 10 then [DigitChar(n)] else NatToString(n / 10) + [DigitChar(n % 10)]
  }

  /** `Integer.toString(i)`, which is also what `"..." + i` appends. */
  function IntToString(i: int): (r: string)
    ensures |r| >= 1 && IsDigit(r[|r| - 1])
    ensures forall k :: 0 <= k < |r| ==> r[k] != '_' && r[k] != '.'
  {
    if i < 0 then "-" + NatToString(-i) else NatToString(i)
  }

  /** The value of a string of decimal digits. */
  function DigitsValue(s: string): nat
    requires forall i :: 0 <= i < |s| ==> IsDigit(s[i])
  {
    if |s| == 0 then 0
    else
      assert IsDigit(s[|s| - 1]);
      DigitsValue(s[..|s| - 1]) * 10 + (s[|s| - 1] as int - '0' as int)
  }

  predicate AllDigits(s: string) {
    |s| >= 1 && forall i :: 0 <= i < |s| ==> IsDigit(s[i])
  }

  /** The range of a Java `int`. */
  const IntMin: int := -0x8000_0000
  const IntMax: int := 0x7fff_ffff

  predicate InIntRange(v: int) {
    IntMin <= v <= IntMax
  }

  /** A narrowing cast to `int`, as `(int)` of a `long` or `BigInteger.intValue()` do it:
      the low 32 bits, read as a two's complement number. */
  function ToInt32(v: int): (r: int)
    ensures InIntRange(r)
    ensures (v - r) % 0x1_0000_0000 == 0
    ensures InIntRange(v) ==> r == v
  {
    (v - IntMin) % 0x1_0000_0000 + IntMin
  }

  /** `Integer.parseInt(s)`: an optional sign followed by at least one ASCII digit, with
      a value in the range of `int`; `None` is the NumberFormatException. */
  function ParseInt(s: string): (r: Option<int>)
    ensures r.Some? ==> |s| >= 1 && InIntRange(r.value)
    ensures r.Some? ==> AllDigits(s) || (|s| >= 1 && (s[0] == '-' || s[0] == '+') && AllDigits(s[1..]))
    ensures AllDigits(s) && DigitsValue(s) <= IntMax ==> r == Some(DigitsValue(s))
  {
    var v :=
      if |s| >= 1 && (s[0] == '-' || s[0] == '+') then
        if AllDigits(s[1..]) then
          var n: int := DigitsValue(s[1..]);
          Some(if s[0] == '-' then -n else n)
        else None
      else if AllDigits(s) then Some(DigitsValue(s))
      else None;
    if v.Some? && InIntRange(v.value) then v else None
  }

  lemma {:induction false} DigitsValueOfNatToString(n: nat)
    ensures DigitsValue(NatToString(n)) == n
    decreases n
  {
    if n >= 10 {
      var s := NatToString(n);
      assert s[..|s| - 1] == NatToString(n / 10);
      DigitsValueOfNatToString(n / 10);
    }
  }

  /** Parsing the decimal rendering of an integer gives the integer back when it is in
      the range of `int`, and fails otherwise. */
  lemma ParseIntOfIntToString(i: int)
    ensures ParseInt(IntToString(i)) == if InIntRange(i) then Some(i) else None
  {
    var s := IntToString(i);
    if i < 0 {
      assert s[1..] == NatToString(-i);
      DigitsValueOfNatToString(-i);
    } else {
      DigitsValueOfNatToString(i);
    }
  }

  /** A rendering starts with `-` exactly when the integer is negative. */
  lemma SignOfIntToString(i: int)
    ensures IntToString(i)[0] == '-' <==> i < 0
  {
    if i >= 0 {
      assert IsDigit(NatToString(i)[0]);
    }
  }

  /** Distinct naturals have distinct digit strings. */
  lemma NatToStringInjective(a: nat, b: nat)
    requires NatToString(a) == NatToString(b)
    ensures a == b
  {
    DigitsValueOfNatToString(a);
    DigitsValueOfNatToString(b);
  }

  /** Distinct integers have distinct decimal renderings. */
  lemma IntToStringInjective(a: int, b: int)
    requires IntToString(a) == IntToString(b)
    ensures a == b
  {
    SignOfIntToString(a);
    SignOfIntToString(b);
    if a < 0 {
      assert IntToString(a)[1..] == NatToString(-a);
      assert IntToString(b)[1..] == NatToString(-b);
      NatToStringInjective(-a, -b);
    } else {
      NatToStringInjective(a, b);
    }
  }
}
