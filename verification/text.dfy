/**
  The few pieces of Go's `strings` and `fmt` packages the query compiler uses,
  over strings as sequences of characters.
 */
module Text {
  import opened Wrappers

  /** `strings.Join`: the parts in order, `sep` between neighbours. */
  function Join(parts: seq<string>, sep: string): string
    decreases |parts|
  {
    if |parts| == 0 then ""
    else if |parts| == 1 then parts[0]
    else Join(parts[..|parts| - 1], sep) + sep + parts[|parts| - 1]
  }

  /** `strings.Repeat`: `n` copies of `s` back to back. */
  function Repeat(s: string, n: nat): string
  {
    if n == 0 then "" else Repeat(s, n - 1) + s
  }

  /**
    `strings.TrimRight` with a one-character cut set: the longest prefix of `s`
    that does not end in `c`, everything cut off being `c`.
   */
  function TrimRight(s: string, c: char): (r: string)
    ensures r <= s
    ensures |r| == 0 || r[|r| - 1] != c
    ensures forall i :: |r| <= i < |s| ==> s[i] == c
    decreases |s|
  {
    if |s| > 0 && s[|s| - 1] == c then TrimRight(s[..|s| - 1], c) else s
  }

  /** Number of occurrences of `c` in `s`. */
  function CountChar(s: string, c: char): nat
    decreases |s|
  {
    if |s| == 0 then 0
    else CountChar(s[..|s| - 1], c) + (if s[|s| - 1] == c then 1 else 0)
  }

  lemma {:induction false} CountCharConcat(a: string, b: string, c: char)
    ensures CountChar(a + b, c) == CountChar(a, c) + CountChar(b, c)
    decreases |b|
  {
    if |b| == 0 {
      assert a + b == a;
    } else {
      assert (a + b)[..|a + b| - 1] == a + b[..|b| - 1];
      CountCharConcat(a, b[..|b| - 1], c);
    }
  }

  /** Occurrences of `c` in `Repeat(s, n)` are those of `s`, `n` times over. */
  lemma {:induction false} CountCharRepeat(s: string, n: nat, c: char)
    ensures CountChar(Repeat(s, n), c) == n * CountChar(s, c)
  {
    if n > 0 {
      CountCharRepeat(s, n - 1, c);
      CountCharConcat(Repeat(s, n - 1), s, c);
    }
  }

  /** Occurrences of `c` in a join: those of the parts plus those of every separator. */
  lemma {:induction false} CountCharJoin(parts: seq<string>, sep: string, c: char)
    requires CountChar(sep, c) == 0
    ensures CountChar(Join(parts, sep), c) == CountCharSum(parts, c)
    decreases |parts|
  {
    if |parts| == 1 {
      assert CountCharSum(parts[..0], c) == 0;
    } else if |parts| > 1 {
      var init := parts[..|parts| - 1];
      CountCharJoin(init, sep, c);
      CountCharConcat(Join(init, sep), sep, c);
      CountCharConcat(Join(init, sep) + sep, parts[|parts| - 1], c);
    }
  }

  /** Sum over the parts of the occurrences of `c` in each. */
  function CountCharSum(parts: seq<string>, c: char): nat
    decreases |parts|
  {
    if |parts| == 0 then 0
    else CountCharSum(parts[..|parts| - 1], c) + CountChar(parts[|parts| - 1], c)
  }

  // ----- decimal rendering, as `fmt.Sprintf("%d", n)` -----

  predicate IsDigit(c: char) {
    '0' <= c <= '9'
  }

  function DigitChar(d: nat): (c: char)
    requires d < 10
    ensures IsDigit(c)
  {
    ('0' as int + d) as char
  }

  function DigitValue(c: char): (d: nat)
    requires IsDigit(c)
    ensures d < 10
  {
    c as int - '0' as int
  }

  /** The base-ten digits of `n`, most significant first, without leading zeros. */
  function Decimal(n: nat): (s: string)
    ensures |s| > 0
    ensures forall i :: 0 <= i < |s| ==> IsDigit(s[i])
    ensures |s| > 1 ==> s[0] != '0'
  {
    if n < 10 then [DigitChar(n)] else Decimal(n / 10) + [DigitChar(n % 10)]
  }

  /** `%d` of a Go `int`: a minus sign for negative values, then the digits. */
  function FormatInt(n: int): string
  {
    if n < 0 then "-" + Decimal(-n) else Decimal(n)
  }

  /** Value of a string of digits, read most significant first. */
  function DigitsValue(s: string): nat
    requires forall i :: 0 <= i < |s| ==> IsDigit(s[i])
    decreases |s|
  {
    if |s| == 0 then 0 else DigitsValue(s[..|s| - 1]) * 10 + DigitValue(s[|s| - 1])
  }

  /** Reads back a non-negative decimal number; `None` unless `s` is a non-empty digit string. */
  function ParseNat(s: string): (r: Option<nat>)
    ensures r.Some? <==> |s| > 0 && forall i :: 0 <= i < |s| ==> IsDigit(s[i])
  {
    if |s| > 0 && forall i :: 0 <= i < |s| ==> IsDigit(s[i]) then Some(DigitsValue(s)) else None
  }

  /** Rendering a number in decimal and reading it back gives the number. */
  lemma {:induction false} DecimalRoundTrip(n: nat)
    ensures ParseNat(Decimal(n)) == Some(n)
  {
    var s := Decimal(n);
    if n < 10 {
      assert s[..0] == [];
      assert DigitsValue(s) == DigitValue(DigitChar(n));
    } else {
      DecimalRoundTrip(n / 10);
      assert s[..|s| - 1] == Decimal(n / 10);
      assert DigitsValue(s) == DigitsValue(Decimal(n / 10)) * 10 + DigitValue(DigitChar(n % 10));
    }
  }

  /** `FormatInt` agrees with `Decimal` on positive numbers: no sign is emitted. */
  lemma FormatPositive(n: int)
    requires n > 0
    ensures FormatInt(n) == Decimal(n)
    ensures ParseNat(FormatInt(n)) == Some(n)
  {
    DecimalRoundTrip(n);
  }
}
