/** `strconv.Atoi` as the playlist parser uses it to read a duration, with
    `strconv.Itoa` beside it: `Atoi` reads back every integer `Itoa` writes.
    Go's `int` is taken to be 64 bits wide. */
module Strconv {
  import opened Wrappers

  const MinInt: int := -0x8000_0000_0000_0000
  const MaxInt: int := 0x7fff_ffff_ffff_ffff

  predicate IsDigit(c: char) { '0' <= c <= '9' }

  predicate IsSign(c: char) { c == '+' || c == '-' }

  predicate AllDigits(s: string) { forall i :: 0 <= i < |s| ==> IsDigit(s[i]) }

  /** The text Atoi accepts as a number: an optional `+` or `-` followed by
      one or more ASCII digits, and nothing else (no spaces, no underscores). */
  predicate IsDecimal(s: string)
  {
    var digits := if |s| > 0 && IsSign(s[0]) then s[1..] else s;
    |digits| > 0 && AllDigits(digits)
  }

  function DigitValue(c: char): nat
    requires IsDigit(c)
  {
    c as int - '0' as int
  }

  function DigitChar(d: nat): (c: char)
    requires d < 10
    ensures IsDigit(c) && DigitValue(c) == d
  {
    ('0' as int + d) as char
  }

  /** The base-10 value of a digit string, most significant digit first. */
  function DigitsValue(s: string): nat
    requires AllDigits(s)
    decreases |s|
  {
    if |s| == 0 then 0 else DigitsValue(s[..|s| - 1]) * 10 + DigitValue(s[|s| - 1])
  }

  /** The integer a decimal denotes: its digits' value, negated after a `-`.
      Leading zeros and a `+` change nothing. */
  function DecimalValue(s: string): int
    requires IsDecimal(s)
  {
    var digits := if IsSign(s[0]) then s[1..] else s;
    var n: int := DigitsValue(digits);
    if s[0] == '-' then -n else n
  }

  function Pow10(n: nat): nat
  {
    if n == 0 then 1 else 10 * Pow10(n - 1)
  }

  lemma {:induction false} Pow10Monotone(m: nat, n: nat)
    requires m <= n
    ensures Pow10(m) <= Pow10(n)
    decreases n
  {
    if m < n { Pow10Monotone(m, n - 1); }
  }

  /** A string of `k` digits denotes a number below 10^k. */
  lemma {:induction false} DigitsValueBound(s: string)
    requires AllDigits(s)
    ensures DigitsValue(s) < Pow10(|s|)
    decreases |s|
  {
    if |s| > 0 { DigitsValueBound(s[..|s| - 1]); }
  }

  /** At most 18 digits always fit in 64 bits. */
  lemma Int64FastPath(digits: string)
    requires AllDigits(digits)
    ensures |digits| <= 18 ==> DigitsValue(digits) <= MaxInt
  {
    if |digits| <= 18 {
      DigitsValueBound(digits);
      Pow10Monotone(|digits|, 18);
      assert Pow10(9) == 1_000_000_000;
      assert Pow10(18) == 1_000_000_000_000_000_000;
    }
  }

  /** `strconv.Atoi(s)`, with `None` for every case in which Go reports an
      error: a syntax error (anything but sign and digits) or a range error
      (a value outside the 64-bit range). Any decimal of fewer than 19
      characters is in range, which is Go's fast path. */
  function Atoi(s: string): (r: Option<int>)
    ensures r.Some? <==> IsDecimal(s) && MinInt <= DecimalValue(s) <= MaxInt
    ensures r.Some? ==> r.value == DecimalValue(s)
    ensures r.Some? ==> IsDecimal(s) && MinInt <= r.value <= MaxInt
    ensures IsDecimal(s) && |s| < 19 ==> r.Some?
    ensures r.Some? && r.value < 0 ==> s[0] == '-'
  {
    if |s| == 0 then None
    else
      var digits := if IsSign(s[0]) then s[1..] else s;
      if |digits| == 0 || !AllDigits(digits) then None
      else
        var n: int := DigitsValue(digits);
        Int64FastPath(digits);
        var v := if s[0] == '-' then -n else n;
        if MinInt <= v <= MaxInt then Some(v) else None
  }

  /** The decimal digits of `n`, without leading zeros. */
  function FormatNat(n: nat): (s: string)
    ensures |s| > 0 && AllDigits(s) && DigitsValue(s) == n
    decreases n
  {
    if n < 10 then [DigitChar(n)]
    else
      var s := FormatNat(n / 10) + [DigitChar(n % 10)];
      assert s[..|s| - 1] == FormatNat(n / 10);
      s
  }

  /** `strconv.Itoa(n)`: a `-` for negative numbers, then the digits. */
  function Itoa(n: int): string
  {
    if n < 0 then "-" + FormatNat(-n) else FormatNat(n)
  }

  /** Atoi reads back every 64-bit integer that Itoa writes. */
  lemma AtoiItoa(n: int)
    requires MinInt <= n <= MaxInt
    ensures Atoi(Itoa(n)) == Some(n)
  {
    var s := Itoa(n);
    if n < 0 {
      assert s[1..] == FormatNat(-n);
    }
  }

  /** A run of `k` zeros. */
  function Zeros(k: nat): (z: string)
    ensures |z| == k && AllDigits(z)
  {
    seq(k, _ => '0')
  }

  lemma {:induction false} ZerosValue(k: nat)
    ensures DigitsValue(Zeros(k)) == 0
    decreases k
  {
    if k > 0 {
      assert Zeros(k)[..k - 1] == Zeros(k - 1);
      ZerosValue(k - 1);
    }
  }

  /** Leading zeros do not change the value of a digit string. */
  lemma {:induction false} LeadingZerosValue(k: nat, d: string)
    requires AllDigits(d)
    ensures AllDigits(Zeros(k) + d) && DigitsValue(Zeros(k) + d) == DigitsValue(d)
    decreases |d|
  {
    var s := Zeros(k) + d;
    if |d| == 0 {
      assert s == Zeros(k);
      ZerosValue(k);
    } else {
      assert s[..|s| - 1] == Zeros(k) + d[..|d| - 1];
      LeadingZerosValue(k, d[..|d| - 1]);
    }
  }

  /** A sign (none, `+` or `-`), any number of leading zeros and the digits of
      `n`: read as `n` or `-n` when that is a 64-bit integer, however long the
      text (Go's slow path), and rejected when it is not. A `+` and a `-0`
      are read as Go reads them. */
  lemma AtoiPadded(sign: string, k: nat, n: nat)
    requires sign == "" || sign == "+" || sign == "-"
    ensures var v: int := if sign == "-" then -(n as int) else n;
      Atoi(sign + Zeros(k) + FormatNat(n)) == if MinInt <= v <= MaxInt then Some(v) else None
  {
    var d := Zeros(k) + FormatNat(n);
    LeadingZerosValue(k, FormatNat(n));
    var s := sign + d;
    assert sign + Zeros(k) + FormatNat(n) == s;
    SignedDecimal(sign, d);
    var v: int := if sign == "-" then -(n as int) else n;
    assert DecimalValue(s) == v;
  }

  /** A sign followed by digits is a decimal with the signed value of the
      digits. */
  lemma SignedDecimal(sign: string, d: string)
    requires sign == "" || sign == "+" || sign == "-"
    requires |d| > 0 && AllDigits(d)
    ensures IsDecimal(sign + d)
    ensures DecimalValue(sign + d) == if sign == "-" then -(DigitsValue(d) as int) else DigitsValue(d)
  {
    var s := sign + d;
    if sign == "" {
      assert s == d;
      assert !IsSign(s[0]);
    } else {
      assert s[1..] == d;
    }
  }

  /** Text other than a sign followed by digits is rejected. */
  lemma AtoiRejects()
    ensures Atoi("") == None && Atoi("-") == None && Atoi("+") == None
    ensures Atoi("1 ") == None && Atoi(" 1") == None && Atoi("1_000") == None
  {
    assert !IsDigit(' ') && !IsDigit('_') && !IsSign(' ');
    assert !IsDecimal("1 ") by { assert !IsDigit("1 "[1]); }
    assert !IsDecimal("1_000") by { assert !IsDigit("1_000"[1]); }
  }
}
