/** Go's strconv.Atoi for a 64-bit int: an optional sign, then one or more
    decimal digits, with overflow reported as a range error. */
module StrConv {
  import opened Decimal

  datatype ErrKind = ErrSyntax | ErrRange

  /** strconv.NumError: the function that failed, its input and the reason. */
  datatype NumError = NumError(func: string, num: string, err: ErrKind)

  datatype IntResult = IntOk(value: int64) | IntErr(error: NumError)

  /** Outcome of the digit loop of strconv.ParseUint in base 10. */
  datatype Scan = Done(value: nat) | BadChar | Overflow

  /** The digit loop of ParseUint: a non-digit is a syntax error, and the
      first digit that takes the running value past the largest uint64 is a
      range error, even when a non-digit follows later. */
  function ScanDigits(s: seq<char>, k: nat, acc: nat): Scan
    requires k <= |s|
    decreases |s| - k
  {
    if k == |s| then Done(acc)
    else if !IsDigit(s[k]) then BadChar
    else if acc * 10 + DigitValue(s[k]) > MaxUint64 then Overflow
    else ScanDigits(s, k + 1, acc * 10 + DigitValue(s[k]))
  }

  /** The digits after an optional leading sign. */
  function Unsigned(s: string): string
    requires |s| >= 1
  {
    if s[0] == '-' || s[0] == '+' then s[1..] else s
  }

  /** strconv.Atoi: both its fast path (fewer than 19 bytes) and its slow
      path through ParseInt give the errors and values below. */
  function Atoi(s: string): (r: IntResult)
    ensures r.IntErr? ==> r.error.func == "Atoi" && r.error.num == s
  {
    if s == [] then IntErr(NumError("Atoi", s, ErrSyntax))
    else
      var neg := s[0] == '-';
      var body := Unsigned(s);
      if body == [] then IntErr(NumError("Atoi", s, ErrSyntax))
      else
        match ScanDigits(body, 0, 0)
        case BadChar => IntErr(NumError("Atoi", s, ErrSyntax))
        case Overflow => IntErr(NumError("Atoi", s, ErrRange))
        case Done(u) =>
          if !neg && u > MaxInt64 then IntErr(NumError("Atoi", s, ErrRange))
          else if neg && u > -MinInt64 then IntErr(NumError("Atoi", s, ErrRange))
          else IntOk(if neg then -(u as int) else u)
  }

  /** Text that Atoi accepts as to its shape: a sign at most, then digits only. */
  predicate WellFormed(s: string) {
    |s| >= 1 && |Unsigned(s)| >= 1 && AllDigits(Unsigned(s))
  }

  /** The integer a well-formed text stands for. */
  function SignedValue(s: string): int
    requires WellFormed(s)
  {
    if s[0] == '-' then -(ValueOf(Unsigned(s)) as int) else ValueOf(Unsigned(s))
  }

  /** Well-formed text whose value fits an int64. */
  predicate IsInt64Text(s: string) {
    WellFormed(s) && MinInt64 <= SignedValue(s) <= MaxInt64
  }

  /** The digit loop finishes exactly on all-digit text whose value fits a
      uint64, and then yields that value. */
  lemma {:induction false} ScanDigitsSpec(s: seq<char>, k: nat, acc: nat)
    requires k <= |s| && AllDigits(s[..k]) && acc == ValueOf(s[..k]) && acc <= MaxUint64
    ensures ScanDigits(s, k, acc).Done? <==> AllDigits(s) && ValueOf(s) <= MaxUint64
    ensures ScanDigits(s, k, acc).Done? ==> ScanDigits(s, k, acc).value == ValueOf(s)
    decreases |s| - k
  {
    if k == |s| {
      assert s[..k] == s;
    } else if !IsDigit(s[k]) {
      assert !AllDigits(s);
    } else {
      ValueOfSnoc(s[..k] + [s[k]], k);
      assert s[..k + 1] == s[..k] + [s[k]];
      assert (s[..k] + [s[k]])[..k] == s[..k];
      if acc * 10 + DigitValue(s[k]) > MaxUint64 {
        if AllDigits(s) {
          ValueOfPrefix(s, k + 1);
        }
      } else {
        ScanDigitsSpec(s, k + 1, acc * 10 + DigitValue(s[k]));
      }
    }
  }

  /** Atoi succeeds exactly on well-formed text whose value fits an int64,
      and then returns that value. */
  lemma AtoiSpec(s: string)
    ensures Atoi(s).IntOk? <==> IsInt64Text(s)
    ensures Atoi(s).IntOk? ==> Atoi(s).value == SignedValue(s)
  {
    if |s| >= 1 && |Unsigned(s)| >= 1 {
      ScanDigitsSpec(Unsigned(s), 0, 0);
    }
  }

  /** Length of the run of digits s starts with. */
  function DigitRun(s: seq<char>): (n: nat)
    ensures n <= |s| && AllDigits(s[..n])
    ensures n < |s| ==> !IsDigit(s[n])
  {
    if s == [] || !IsDigit(s[0]) then 0
    else
      var n := 1 + DigitRun(s[1..]);
      assert forall i :: 1 <= i < n ==> s[..n][i] == s[1..][..n - 1][i - 1];
      n
  }

  /** The value of the leading digits of s passes the largest uint64. */
  predicate RunOverflows(s: seq<char>) {
    ValueOf(s[..DigitRun(s)]) > MaxUint64
  }

  /** The digit loop reports overflow exactly when the leading digits of
      the text, up to its first non-digit, pass the largest uint64. */
  lemma {:induction false} ScanDigitsOverflow(s: seq<char>, k: nat, acc: nat)
    requires k <= |s| && AllDigits(s[..k]) && acc == ValueOf(s[..k]) && acc <= MaxUint64
    ensures ScanDigits(s, k, acc) == Overflow <==> RunOverflows(s)
    decreases |s| - k
  {
    var d := DigitRun(s);
    assert k <= d;
    if k == |s| {
      assert s[..d] == s[..k];
    } else if !IsDigit(s[k]) {
      assert s[..d] == s[..k];
    } else {
      ValueOfSnoc(s[..k] + [s[k]], k);
      assert s[..k + 1] == s[..k] + [s[k]];
      assert (s[..k] + [s[k]])[..k] == s[..k];
      assert k + 1 <= d;
      if acc * 10 + DigitValue(s[k]) > MaxUint64 {
        ValueOfPrefix(s[..d], k + 1);
        assert s[..d][..k + 1] == s[..k + 1];
      } else {
        ScanDigitsOverflow(s, k + 1, acc * 10 + DigitValue(s[k]));
      }
    }
  }

  /** Atoi reports a range error, rather than a syntax error, exactly when
      the digits after the sign overflow a uint64 before any non-digit, or
      the text is well formed and its value lies outside int64. */
  lemma AtoiRange(s: string)
    ensures Atoi(s).IntErr? && Atoi(s).error.err == ErrRange <==>
      |s| >= 1 && |Unsigned(s)| >= 1 &&
      (RunOverflows(Unsigned(s)) || (WellFormed(s) && !IsInt64Text(s)))
  {
    if |s| >= 1 && |Unsigned(s)| >= 1 {
      var u := Unsigned(s);
      ScanDigitsSpec(u, 0, 0);
      ScanDigitsOverflow(u, 0, 0);
      if AllDigits(u) {
        assert u[..DigitRun(u)] == u;
      }
    }
  }

  /** Rendering an int64 with %d and parsing it back with Atoi is the identity. */
  lemma AtoiFormatInt(n: int64)
    ensures Atoi(FormatInt(n)) == IntOk(n)
  {
    var s := FormatInt(n);
    if n < 0 {
      assert Unsigned(s) == s[1..];
    } else {
      assert Unsigned(s) == s;
    }
    AtoiSpec(s);
  }
}
