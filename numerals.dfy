/**
 * Positional numerals as printf writes them: "%jx" (lower-case hexadecimal)
 * for store keys and "%ld" (decimal) for the label of the aggregate entry.
 * Both print no sign, no leading zeros, and "0" for zero.
 */
module Numerals {

  /** The two bases printed here: 10 for "%ld" and 16 for "%jx". */
  predicate IsBase(base: nat)
  {
    base == 10 || base == 16
  }

  /** Euclidean division by a base, with the divisor known to be 10 or 16. */
  lemma DivMod(n: nat, base: nat)
    requires IsBase(base)
    ensures n == base * (n / base) + n % base && n % base < base
    ensures n >= base ==> 1 <= n / base < n
  {
    if base == 10 {
      assert n == 10 * (n / 10) + n % 10;
    } else {
      assert n == 16 * (n / 16) + n % 16;
    }
  }

  /** The character printf uses for digit value d (lower-case for 10..15). */
  function DigitChar(d: nat): char
    requires d < 16
  {
    if d < 10 then ('0' as int + d) as char else ('a' as int + d - 10) as char
  }

  /** The digit value of c, or -1 when c is not a digit of the given base. */
  function DigitValue(c: char, base: nat): int
    requires IsBase(base)
  {
    var v :=
      if '0' <= c <= '9' then c as int - '0' as int
      else if 'a' <= c <= 'f' then c as int - 'a' as int + 10
      else -1;
    if v < base then v else -1
  }

  predicate IsDigits(s: string, base: nat)
    requires IsBase(base)
  {
    forall i :: 0 <= i < |s| ==> DigitValue(s[i], base) >= 0
  }

  /** The numeral of n in the given base, most significant digit first. */
  function Digits(n: nat, base: nat): (s: string)
    requires IsBase(base)
    ensures |s| >= 1 && IsDigits(s, base)
    decreases n
  {
    if n < base then [DigitChar(n)]
    else
      DivMod(n, base);
      Digits(n / base, base) + [DigitChar(n % base)]
  }

  /** Reads a numeral back; the inverse of Digits. */
  function ParseDigits(s: string, base: nat): nat
    requires IsBase(base)
    requires IsDigits(s, base)
  {
    if s == [] then 0
    else ParseDigits(s[..|s| - 1], base) * base + DigitValue(s[|s| - 1], base)
  }

  lemma DigitRoundTrip(d: nat, base: nat)
    requires IsBase(base) && d < base
    ensures DigitValue(DigitChar(d), base) == d
  {
  }

  lemma {:induction false} ParseDigitsOfDigits(n: nat, base: nat)
    requires IsBase(base)
    ensures ParseDigits(Digits(n, base), base) == n
    decreases n
  {
    if n < base {
      var s := Digits(n, base);
      DigitRoundTrip(n, base);
      assert s[..0] == [];
    } else {
      DivMod(n, base);
      ParseDigitsOfDigits(n / base, base);
      ParseLastDigit(n, base);
    }
  }

  /** Reading the last digit of a numeral undoes the division by the base. */
  lemma {:induction false} ParseLastDigit(n: nat, base: nat)
    requires IsBase(base) && n >= base
    requires ParseDigits(Digits(n / base, base), base) == n / base
    ensures ParseDigits(Digits(n, base), base) == n
  {
    var s := Digits(n, base);
    var q, d := n / base, n % base;
    DivMod(n, base);
    assert s[..|s| - 1] == Digits(q, base);
    DigitRoundTrip(d, base);
    assert s[|s| - 1] == DigitChar(d);
    assert n == q * base + d;
  }

  function Pow(base: nat, k: nat): (r: nat)
    requires base >= 1
    ensures r >= 1
  {
    if k == 0 then 1 else base * Pow(base, k - 1)
  }

  /** "%jx" */
  function Hex(n: nat): (s: string)
  {
    Digits(n, 16)
  }

  /** A number below 16^k needs at most k hexadecimal digits. */
  lemma {:induction false} HexWidth(n: nat, k: nat)
    requires 1 <= k && n < Pow(16, k)
    ensures |Hex(n)| <= k
    decreases k
  {
    if n >= 16 {
      assert Pow(16, k) == 16 * Pow(16, k - 1);
      HexWidth(n / 16, k - 1);
    }
  }

  /** "%ld" on a non-negative value */
  function Decimal(n: nat): (s: string)
  {
    Digits(n, 10)
  }

}
