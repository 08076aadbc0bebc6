/** `str::parse::<i64>` as the rate-limit `date` goes through it, and decimal formatting as its partner. */
module ParseInt {
  import opened Wrappers
  import opened Numeric

  predicate IsDigit(c: char) {
    '0' <= c <= '9'
  }

  predicate AllDigits(s: string) {
    forall i :: 0 <= i < |s| ==> IsDigit(s[i])
  }

  function DigitValue(c: char): (d: nat)
    requires IsDigit(c)
    ensures d < 10
  {
    c as int - '0' as int
  }

  function DigitChar(d: nat): (c: char)
    requires d < 10
    ensures IsDigit(c) && DigitValue(c) == d
  {
    ('0' as int + d) as char
  }

  /** The value of a string of decimal digits, most significant first. */
  function DigitsValue(s: string): nat
    requires AllDigits(s)
    decreases |s|
  {
    if s == [] then 0 else 10 * DigitsValue(s[..|s| - 1]) + DigitValue(s[|s| - 1])
  }

  /**
   * Rust's `i64::from_str`: an optional `+` or `-`, then at least one ASCII digit and nothing
   * else, with a value in the `i64` range; anything else is an error.
   */
  function ParseI64(s: string): (r: Option<I64>)
    ensures r.Some? ==> |s| >= 1 && (IsDigit(s[0]) || (|s| >= 2 && (s[0] == '-' || s[0] == '+')))
    ensures r.Some? ==> forall i :: 0 < i < |s| ==> IsDigit(s[i])
    ensures r.Some? && r.value < 0 ==> s[0] == '-'
  {
    if s == [] then None
    else
      var negative := s[0] == '-';
      var digits := if s[0] == '-' || s[0] == '+' then s[1..] else s;
      if digits == [] || !AllDigits(digits) then None
      else
        var v: int := if negative then -(DigitsValue(digits) as int) else DigitsValue(digits);
        if I64_MIN <= v <= I64_MAX then Some(v) else None
  }

  /** Decimal digits of `n`, without leading zeros. */
  function ShowNat(n: nat): (s: string)
    decreases n
  {
    if n < 10 then [DigitChar(n)] else ShowNat(n / 10) + [DigitChar(n % 10)]
  }

  /** How an `i64` is written in decimal, `-` first when negative. */
  function ShowI64(n: I64): string {
    if n < 0 then "-" + ShowNat(-(n as int)) else ShowNat(n)
  }

  lemma {:induction false} ShowNatDigits(n: nat)
    ensures ShowNat(n) != [] && AllDigits(ShowNat(n))
    ensures DigitsValue(ShowNat(n)) == n
    decreases n
  {
    var s := ShowNat(n);
    if n >= 10 {
      ShowNatDigits(n / 10);
      assert s[..|s| - 1] == ShowNat(n / 10);
      assert AllDigits(s) by {
        forall i | 0 <= i < |s| ensures IsDigit(s[i]) {
          if i < |s| - 1 {
            assert s[i] == ShowNat(n / 10)[i];
          }
        }
      }
    }
  }

  /** Parsing undoes formatting: every `i64` written in decimal reads back as itself. */
  lemma ParseShowRoundTrip(n: I64)
    ensures ParseI64(ShowI64(n)) == Some(n)
  {
    var m: nat := if n < 0 then -(n as int) else n;
    ShowNatDigits(m);
    var s := ShowI64(n);
    if n < 0 {
      assert s[0] == '-' && s[1..] == ShowNat(m);
    } else {
      assert IsDigit(s[0]);
    }
  }
}
