/** Decimal text to a signed 32-bit integer, as Rust's `str::parse::<i32>`
    does it: an optional `+` or `-`, then one or more ASCII digits, and a value
    that fits in 32 bits.  Anything else is "no value" rather than an error. */
module Integers {
  import opened Wrappers

  const I32_MIN: int := -0x8000_0000
  const I32_MAX: int := 0x7FFF_FFFF

  predicate IsI32(n: int) {
    I32_MIN <= n <= I32_MAX
  }

  predicate IsDigit(c: char) {
    '0' <= c <= '9'
  }

  predicate AllDigits(s: string) {
    forall i :: 0 <= i < |s| ==> IsDigit(s[i])
  }

  /** The number a run of decimal digits denotes, most significant first. */
  function DigitsValue(s: string): nat
    requires AllDigits(s)
  {
    if |s| == 0 then 0
    else DigitsValue(s[..|s| - 1]) * 10 + (s[|s| - 1] as int - '0' as int)
  }

  /** Does `s` have the shape `[+-]?[0-9]+`? */
  predicate IsSignedDecimal(s: string) {
    || (|s| > 0 && AllDigits(s))
    || (|s| > 1 && (s[0] == '+' || s[0] == '-') && AllDigits(s[1..]))
  }

  /** The integer a signed decimal denotes; a leading `-` negates, `+` and
      leading zeros change nothing. */
  function Denoted(s: string): int
    requires IsSignedDecimal(s)
  {
    if s[0] == '-' then -(DigitsValue(s[1..]) as int)
    else if s[0] == '+' then DigitsValue(s[1..])
    else DigitsValue(s)
  }

  /** Best-effort parse: `None` for anything that is not a signed decimal
      within the 32-bit range. */
  function ParseI32(s: string): (r: Option<int>)
    ensures r.Some? <==> IsSignedDecimal(s) && IsI32(Denoted(s))
    ensures r.Some? ==> r.value == Denoted(s)
  {
    if |s| == 0 then None
    else
      var negative := s[0] == '-';
      var digits := if s[0] == '+' || s[0] == '-' then s[1..] else s;
      if |digits| == 0 || !AllDigits(digits) then None
      else
        var magnitude: int := DigitsValue(digits);
        var v := if negative then -magnitude else magnitude;
        if IsI32(v) then Some(v) else None
  }

  function DigitChar(d: nat): (c: char)
    requires d < 10
    ensures IsDigit(c) && c as int - '0' as int == d
  {
    ('0' as int + d) as char
  }

  /** The shortest decimal spelling of `n`. */
  function ShowNat(n: nat): (s: string)
    ensures |s| > 0 && AllDigits(s)
  {
    if n < 10 then [DigitChar(n)] else ShowNat(n / 10) + [DigitChar(n % 10)]
  }

  /** The shortest decimal spelling of `n`, with a `-` when negative. */
  function ShowInt(n: int): string {
    if n < 0 then "-" + ShowNat(-n) else ShowNat(n)
  }

  lemma {:induction false} DigitsValueOfShowNat(n: nat)
    ensures DigitsValue(ShowNat(n)) == n
  {
    if n >= 10 {
      var s := ShowNat(n);
      assert s[..|s| - 1] == ShowNat(n / 10);
      DigitsValueOfShowNat(n / 10);
    }
  }

  /** Parsing the spelling of any integer gives it back exactly when it is in range. */
  lemma {:induction false} ParseShowInt(n: int)
    ensures ParseI32(ShowInt(n)) == if IsI32(n) then Some(n) else None
  {
    var s := ShowInt(n);
    if n < 0 {
      var m: nat := -n;
      DigitsValueOfShowNat(m);
      assert s[0] == '-';
      assert s[1..] == ShowNat(m);
      assert DigitsValue(s[1..]) == m;
    } else {
      DigitsValueOfShowNat(n);
      assert s == ShowNat(n);
      assert s[0] != '+' && s[0] != '-' by { assert IsDigit(s[0]); }
    }
  }

  /** Every 32-bit integer survives being written out and parsed back. */
  lemma ParseShowRoundTrip(n: int)
    requires IsI32(n)
    ensures ParseI32(ShowInt(n)) == Some(n)
  {
    ParseShowInt(n);
  }
}
