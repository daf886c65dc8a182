/** Value types shared by the whole model: bytes, optional values, the
    C-string prefix and suffix tests the program dispatches on, and the
    decimal numerals that `std::stoi` reads. */
module Bytes {

  /** An 8-bit unsigned byte (`unsigned char`, `uint8_t`). */
  type Byte = x: int | 0 <= x < 256

  datatype Option<T> = None | Some(value: T)

  /** `strncmp(s, prefix, strlen(prefix)) == 0`: comparison stops at the end of
      `prefix`, and a shorter `s` differs at its terminating NUL. */
  predicate StartsWith(s: string, prefix: string)
  {
    |prefix| <= |s| && s[..|prefix|] == prefix
  }

  predicate EndsWith(s: string, suffix: string)
  {
    |suffix| <= |s| && s[|s| - |suffix|..] == suffix
  }

  predicate IsDigit(c: char)
  {
    '0' <= c <= '9'
  }

  /** A non-empty run of decimal digits. */
  predicate IsDigits(s: string)
  {
    |s| > 0 && forall i :: 0 <= i < |s| ==> IsDigit(s[i])
  }

  /** An optional minus sign and at least one digit: a subset of the
      strings `std::stoi` accepts without throwing (it also skips leading
      white space, takes a `+` sign and ignores trailing non-digits). */
  predicate IsDecimal(s: string)
  {
    IsDigits(s) || (|s| > 1 && s[0] == '-' && IsDigits(s[1..]))
  }

  /** The value of a run of digits, most significant first. */
  function DigitsValue(s: string): (n: nat)
    requires forall i :: 0 <= i < |s| ==> IsDigit(s[i])
    ensures |s| == 0 ==> n == 0
  {
    if |s| == 0 then 0
    else
      assert IsDigit(s[|s| - 1]);
      DigitsValue(s[..|s| - 1]) * 10 + (s[|s| - 1] as int - '0' as int)
  }

  function DecimalValue(s: string): int
    requires IsDecimal(s)
  {
    if IsDigits(s) then DigitsValue(s) else -(DigitsValue(s[1..]) as int)
  }

  /** `std::stoi` on a plain numeral whose value fits a 32-bit `int`. Out of
      range it throws, which the program does not catch; the other spellings
      `std::stoi` takes are not modelled. */
  predicate StoiDefined(s: string)
  {
    IsDecimal(s) && -0x8000_0000 <= DecimalValue(s) < 0x8000_0000
  }

  function Stoi(s: string): (n: int)
    requires StoiDefined(s)
    ensures -0x8000_0000 <= n < 0x8000_0000
    ensures IsDigits(s) ==> n >= 0
  {
    DecimalValue(s)
  }

  /** The decimal spelling of a natural number, without leading zeros. */
  function NatToDigits(n: nat): (s: string)
    ensures IsDigits(s)
  {
    if n < 10 then [('0' as int + n) as char]
    else NatToDigits(n / 10) + [('0' as int + n % 10) as char]
  }

  /** Reading back the spelling of `n` gives `n`: `std::stoi` inverts the
      decimal rendering of a port or quality value. */
  lemma {:induction false} DigitsRoundTrip(n: nat)
    ensures DigitsValue(NatToDigits(n)) == n
  {
    var s := NatToDigits(n);
    if n >= 10 {
      DigitsRoundTrip(n / 10);
      assert s[..|s| - 1] == NatToDigits(n / 10);
    }
  }

  lemma StoiOfSpelling(n: nat)
    requires n < 0x8000_0000
    ensures StoiDefined(NatToDigits(n)) && Stoi(NatToDigits(n)) == n
  {
    DigitsRoundTrip(n);
  }
}
