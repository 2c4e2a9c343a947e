/** Decimal integers as Rust formats and parses them: `to_string` on `usize`
    and `i64`, `str::parse::<i64>()` (optional sign, digits, range-checked) and
    `str::parse::<usize>()` (optional `+`, digits). */
module Decimal {
  import opened Wrappers

  const I64_MIN: int := -0x8000_0000_0000_0000
  const I64_MAX: int := 0x7FFF_FFFF_FFFF_FFFF

  predicate InI64(n: int) {
    I64_MIN <= n <= I64_MAX
  }

  predicate IsDigit(c: char) {
    '0' <= c <= '9'
  }

  predicate AllDigits(t: string) {
    forall i :: 0 <= i < |t| ==> IsDigit(t[i])
  }

  function DigitChar(d: nat): (c: char)
    requires d < 10
    ensures IsDigit(c)
  {
    ('0' as int + d) as char
  }

  /** Canonical decimal form of a natural number: no sign, no leading zero. */
  function NatToString(n: nat): (r: string)
    ensures |r| > 0 && AllDigits(r)
    ensures r[0] == '0' ==> n == 0
  {
    if n < 10 then [DigitChar(n)] else NatToString(n / 10) + [DigitChar(n % 10)]
  }

  /** `i64::to_string`: a leading `-` for negative numbers. */
  function IntToString(n: int): (r: string)
    ensures |r| > 0 && (r[0] == '-' || IsDigit(r[0]))
    ensures forall i :: 0 < i < |r| ==> IsDigit(r[i])
  {
    if n < 0 then "-" + NatToString(-n) else NatToString(n)
  }

  /** Value of a non-empty run of digits, most significant first. */
  function DigitsValue(ds: string): nat
    requires AllDigits(ds)
  {
    if |ds| == 0 then 0
    else DigitsValue(ds[..|ds| - 1]) * 10 + (ds[|ds| - 1] as int - '0' as int)
  }

  /** Unsigned digits, no sign, at least one digit. */
  function ParseDigits(t: string): (r: Option<nat>)
    ensures r.Some? <==> |t| > 0 && AllDigits(t)
  {
    if |t| > 0 && AllDigits(t) then Some(DigitsValue(t)) else None
  }

  /** `str::parse::<usize>()`: an optional `+`, then digits. A lone sign, a
      `-`, an empty string or any other character is an error. The 2^64 upper
      bound is not modelled (no array can hold that many elements). */
  function ParseIndex(t: string): (r: Option<nat>)
    ensures r.Some? ==> |t| > 0 && (t[0] == '+' || IsDigit(t[0]))
  {
    if |t| == 0 then None
    else if t[0] == '+' then ParseDigits(t[1..])
    else ParseDigits(t)
  }

  /** `str::parse::<i64>()`: an optional `+` or `-`, then digits; values
      outside the 64-bit signed range are errors. */
  function ParseI64(t: string): (r: Option<int>)
    ensures r.Some? ==> InI64(r.value)
    ensures r.Some? ==> |t| > 0 && (t[0] == '+' || t[0] == '-' || IsDigit(t[0]))
    ensures r.Some? ==> |t| > 1 || IsDigit(t[0])
    ensures forall k :: 0 < k < |t| && !IsDigit(t[k]) ==> r.None?
    ensures r.Some? && t[0] == '-' ==> r.value <= 0
    ensures r.Some? && t[0] != '-' ==> r.value >= 0
    ensures |t| > 0 && AllDigits(t) && DigitsValue(t) <= I64_MAX ==> r == Some(DigitsValue(t))
    ensures |t| > 0 && AllDigits(t) && DigitsValue(t) > I64_MAX ==> r.None?
  {
    var magnitude :=
      if |t| == 0 then None
      else if t[0] == '+' || t[0] == '-' then ParseDigits(t[1..])
      else ParseDigits(t);
    if magnitude.None? then None
    else
      var n: int := if |t| > 0 && t[0] == '-' then -(magnitude.value as int) else magnitude.value;
      if InI64(n) then Some(n) else None
  }

  /** Reading back the canonical form of `n` gives `n`. */
  lemma {:induction false} DigitsRoundTrip(n: nat)
    ensures DigitsValue(NatToString(n)) == n
    decreases n
  {
    if n >= 10 {
      var p := NatToString(n / 10);
      var s := p + [DigitChar(n % 10)];
      assert s[..|s| - 1] == p;
      DigitsRoundTrip(n / 10);
    }
  }

  /** `n.to_string().parse::<usize>()` gives back `n`. */
  lemma ParseIndexRoundTrip(n: nat)
    ensures ParseIndex(NatToString(n)) == Some(n)
  {
    DigitsRoundTrip(n);
  }

  /** `n.to_string().parse::<i64>()` gives back `n` for every 64-bit `n`. */
  lemma ParseI64RoundTrip(n: int)
    requires InI64(n)
    ensures ParseI64(IntToString(n)) == Some(n)
  {
    if n < 0 {
      var s := IntToString(n);
      assert s[1..] == NatToString(-n);
      DigitsRoundTrip(-n);
    } else {
      DigitsRoundTrip(n);
    }
  }

  /** Canonical decimal forms of distinct numbers differ. */
  lemma NatToStringInjective(a: nat, b: nat)
    requires NatToString(a) == NatToString(b)
    ensures a == b
  {
    DigitsRoundTrip(a);
    DigitsRoundTrip(b);
  }

  /** A `+` sign changes nothing; a `-` sign negates, down to `i64::MIN`. */
  lemma ParseI64Signs(ds: string)
    requires |ds| > 0 && AllDigits(ds)
    ensures ParseI64("+" + ds) == ParseI64(ds)
    ensures ParseI64("-" + ds) == if DigitsValue(ds) <= -I64_MIN then Some(-(DigitsValue(ds) as int)) else None
  {
    assert ("+" + ds)[1..] == ds;
    assert ("-" + ds)[1..] == ds;
  }

  /** Leading zeros do not change the value. */
  lemma {:induction false} LeadingZero(ds: string)
    requires AllDigits(ds)
    ensures AllDigits("0" + ds) && DigitsValue("0" + ds) == DigitsValue(ds)
    decreases |ds|
  {
    var z := "0" + ds;
    if |ds| > 0 {
      assert z[..|z| - 1] == "0" + ds[..|ds| - 1];
      LeadingZero(ds[..|ds| - 1]);
    }
  }

  /** `"0" + ds` parses to the same number as `ds`. */
  lemma ParseI64LeadingZero(ds: string)
    requires |ds| > 0 && AllDigits(ds)
    ensures ParseI64("0" + ds) == ParseI64(ds)
  {
    LeadingZero(ds);
  }
}
