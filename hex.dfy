/**
  Lower-case hexadecimal text as JavaScript's `Number.prototype.toString(16)`
  produces it for non-negative integers, fixed-width hexadecimal, and the
  value of a hexadecimal digit string.
 */
module Hex {
  import Numeric

  predicate IsHexDigit(c: char) {
    '0' <= c <= '9' || 'a' <= c <= 'f'
  }

  predicate AllHexDigits(s: string) {
    forall i :: 0 <= i < |s| ==> IsHexDigit(s[i])
  }

  function HexDigitChar(d: int): (c: char)
    requires 0 <= d < 16
    ensures IsHexDigit(c)
  {
    "0123456789abcdef"[d]
  }

  function HexDigitValue(c: char): (d: int)
    requires IsHexDigit(c)
    ensures 0 <= d < 16
  {
    if c <= '9' then c as int - '0' as int else c as int - 'a' as int + 10
  }

  /** Reading a digit back gives the value it was printed from. */
  lemma HexDigitRoundTrip(d: int)
    requires 0 <= d < 16
    ensures HexDigitValue(HexDigitChar(d)) == d
  {
  }

  function Pow16(k: nat): (p: nat)
    ensures p >= 1
  {
    if k == 0 then 1 else 16 * Pow16(k - 1)
  }

  /** `n.toString(16)`: minimal-length lower-case hexadecimal. */
  function ToHexString(n: nat): (s: string)
    ensures |s| >= 1 && AllHexDigits(s)
    decreases n
  {
    if n < 16 then [HexDigitChar(n)] else ToHexString(n / 16) + [HexDigitChar(n % 16)]
  }

  /** The last `k` hexadecimal digits of `n`, zero-padded. */
  function Padded(n: nat, k: nat): (s: string)
    ensures |s| == k && AllHexDigits(s)
  {
    if k == 0 then "" else Padded(n / 16, k - 1) + [HexDigitChar(n % 16)]
  }

  /** The value of a hexadecimal digit string, most significant digit first. */
  function HexValue(s: string): nat
    requires AllHexDigits(s)
  {
    if s == [] then 0 else HexValue(s[..|s| - 1]) * 16 + HexDigitValue(s[|s| - 1])
  }

  /**
    A number with a 1 just above its low `k` hexadecimal digits prints as
    "1" followed by those digits, zero-padded to width `k`.
   */
  lemma {:induction false} ToHexStringLeadingOne(n: nat, k: nat)
    requires Pow16(k) <= n < 2 * Pow16(k)
    ensures ToHexString(n) == "1" + Padded(n - Pow16(k), k)
    decreases k
  {
    if k > 0 {
      var p := Pow16(k - 1);
      Numeric.QuotientBounds(n, 16, p, 2 * p);
      ToHexStringLeadingOne(n / 16, k - 1);
      assert (n - Pow16(k)) / 16 == n / 16 - p;
      assert (n - Pow16(k)) % 16 == n % 16;
    }
  }

  /** Fixed-width hexadecimal reads back as the number when it fits the width. */
  lemma {:induction false} HexValuePadded(n: nat, k: nat)
    requires n < Pow16(k)
    ensures HexValue(Padded(n, k)) == n
    decreases k
  {
    if k > 0 {
      var s := Padded(n, k);
      Numeric.QuotientBounds(n, 16, 0, Pow16(k - 1));
      HexValuePadded(n / 16, k - 1);
      assert s[..|s| - 1] == Padded(n / 16, k - 1);
      HexDigitRoundTrip(n % 16);
    }
  }
}
