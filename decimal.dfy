/** Base-10 text of integers: the digits Go's fmt verb %d writes for an int,
    and the value a string of decimal digits stands for. Shared by the
    request-error text, the year rendering of a game and the logger. */
module Decimal {

  /** Bounds of Go's int on a 64-bit platform. */
  const MinInt64: int := -0x8000_0000_0000_0000
  const MaxInt64: int := 0x7fff_ffff_ffff_ffff
  const MaxUint64: int := 0xffff_ffff_ffff_ffff

  type int64 = x: int | -0x8000_0000_0000_0000 <= x <= 0x7fff_ffff_ffff_ffff

  predicate IsDigit(c: char) {
    '0' <= c <= '9'
  }

  predicate AllDigits(s: seq<char>) {
    forall i :: 0 <= i < |s| ==> IsDigit(s[i])
  }

  function DigitValue(c: char): (d: nat)
    requires IsDigit(c)
    ensures d < 10
  {
    c as int - '0' as int
  }

  function DigitChar(d: nat): (c: char)
    requires d < 10
    ensures IsDigit(c) && DigitValue(c) == d
  {
    ('0' as int + d) as char
  }

  /** The number a string of decimal digits denotes, most significant first. */
  function ValueOf(s: seq<char>): nat
    requires AllDigits(s)
  {
    if s == [] then 0 else ValueOf(s[..|s| - 1]) * 10 + DigitValue(s[|s| - 1])
  }

  /** The decimal digits of n, most significant first. */
  function Dec(n: nat): (s: seq<char>)
    ensures |s| >= 1
  {
    if n < 10 then [DigitChar(n)] else Dec(n / 10) + [DigitChar(n % 10)]
  }

  /** Dec(n) is all digits, reads back as n and has no leading zero. */
  lemma {:induction false} DecSpec(n: nat)
    ensures AllDigits(Dec(n)) && ValueOf(Dec(n)) == n
    ensures |Dec(n)| > 1 ==> Dec(n)[0] != '0'
    decreases n
  {
    if n >= 10 {
      DecSpec(n / 10);
      var s := Dec(n);
      assert s == Dec(n / 10) + [DigitChar(n % 10)];
      assert s[..|s| - 1] == Dec(n / 10);
      assert s[0] == Dec(n / 10)[0];
      if |Dec(n / 10)| == 1 {
        assert Dec(n / 10) == [DigitChar(n / 10)];
      }
    }
  }

  /** Go's fmt.Sprintf("%d", n) for an int n: a minus sign for negative values. */
  function FormatInt(n: int): (s: seq<char>)
    ensures |s| >= 1
    ensures n >= 0 ==> AllDigits(s) && ValueOf(s) == n
    ensures n < 0 ==> s[0] == '-' && AllDigits(s[1..]) && ValueOf(s[1..]) == -n
  {
    if n < 0 then
      DecSpec(-n);
      var s := ['-'] + Dec(-n);
      assert s[1..] == Dec(-n);
      s
    else
      DecSpec(n);
      Dec(n)
  }

  /** Distinct integers have distinct decimal texts. */
  lemma {:induction false} FormatIntInjective(a: int, b: int)
    requires FormatInt(a) == FormatInt(b)
    ensures a == b
  {
    var s := FormatInt(a);
    if a < 0 {
      assert s[0] == '-' && !IsDigit('-');
      assert b < 0;
    } else {
      assert IsDigit(s[0]);
      assert b >= 0;
    }
  }

  /** Dropping the last digit never increases the value. */
  lemma {:induction false} ValueOfPrefix(s: seq<char>, k: nat)
    requires AllDigits(s) && k <= |s|
    ensures AllDigits(s[..k]) && ValueOf(s[..k]) <= ValueOf(s)
    decreases |s| - k
  {
    if k < |s| {
      ValueOfPrefix(s, k + 1);
      assert s[..k + 1][..k] == s[..k];
    } else {
      assert s[..k] == s;
    }
  }

  /** The value of a prefix extended by one digit. */
  lemma ValueOfSnoc(s: seq<char>, k: nat)
    requires AllDigits(s) && k < |s|
    ensures AllDigits(s[..k + 1]) && ValueOf(s[..k + 1]) == ValueOf(s[..k]) * 10 + DigitValue(s[k])
  {
    assert s[..k + 1][..k] == s[..k];
  }

  function Pow10(c: nat): (p: nat)
    ensures p >= 1
  {
    if c == 0 then 1 else 10 * Pow10(c - 1)
  }

  lemma {:induction false} Pow10Mono(a: nat, b: nat)
    requires a <= b
    ensures Pow10(a) <= Pow10(b)
    decreases b
  {
    if a < b {
      Pow10Mono(a, b - 1);
    }
  }

  /** A number below 10^k has at most k digits. */
  lemma {:induction false} DecLengthBound(n: nat, k: nat)
    requires k >= 1 && n < Pow10(k)
    ensures |Dec(n)| <= k
  {
    if n >= 10 {
      DecLengthBound(n / 10, k - 1);
    }
  }

  /** Every int64 value has at most 19 digits. */
  lemma Int64Digits(n: nat)
    requires n <= MaxInt64
    ensures |Dec(n)| <= 19
  {
    assert Pow10(6) == 1_000_000;
    assert Pow10(12) == 1_000_000_000_000;
    assert Pow10(18) == 1_000_000_000_000_000_000;
    assert Pow10(19) == 10_000_000_000_000_000_000;
    DecLengthBound(n, 19);
  }
}
