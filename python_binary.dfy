/**
 The two Python built-ins the embedder and the extractor use on channel values:
 `bin(n)`, which writes a non-negative integer as "0b" followed by its binary
 digits without leading zeros ("0b0" for zero), and `int(s, 2)`, which reads
 such a literal back. The lemmas connect the string rewriting done on these
 literals with plain arithmetic on the number.
 */
module PythonBinary {

  predicate IsDigit(c: char) {
    c == '0' || c == '1'
  }

  predicate AllDigits(d: string) {
    forall i | 0 <= i < |d| :: IsDigit(d[i])
  }

  /** The digit character of a bit value. */
  function DigitChar(b: nat): (c: char)
    requires b < 2
    ensures IsDigit(c)
  {
    if b == 0 then '0' else '1'
  }

  /** The binary digits of n, most significant first, without leading zeros. */
  function BinDigits(n: nat): (d: string)
    ensures |d| >= 1 && AllDigits(d)
    ensures d[|d| - 1] == DigitChar(n % 2)
    ensures n > 0 ==> d[0] == '1'
    ensures n == 0 ==> d == "0"
    decreases n
  {
    if n < 2 then [DigitChar(n)] else BinDigits(n / 2) + [DigitChar(n % 2)]
  }

  /** Python's `bin(n)` for a non-negative n. */
  function Bin(n: nat): (s: string)
    ensures |s| >= 3 && s[..2] == "0b" && AllDigits(s[2..])
  {
    "0b" + BinDigits(n)
  }

  /** The number a string of binary digits denotes, most significant first. */
  function DigitsValue(d: string): nat
    requires AllDigits(d)
    decreases |d|
  {
    if d == [] then 0
    else 2 * DigitsValue(d[..|d| - 1]) + (if d[|d| - 1] == '1' then 1 else 0)
  }

  /** A literal `int(s, 2)` accepts with the "0b" prefix the callers always write. */
  predicate IsBinLiteral(s: string) {
    |s| >= 3 && s[..2] == "0b" && AllDigits(s[2..])
  }

  /** Python's `int(s, 2)` on a prefixed binary literal. */
  function IntBase2(s: string): nat
    requires IsBinLiteral(s)
  {
    DigitsValue(s[2..])
  }

  /** `int(bin(n), 2) == n`: the digits of BinDigits denote n. */
  lemma {:induction false} BinDigitsValue(n: nat)
    ensures DigitsValue(BinDigits(n)) == n
    decreases n
  {
    if n >= 2 {
      BinDigitsValue(n / 2);
      var d := BinDigits(n);
      assert d[..|d| - 1] == BinDigits(n / 2);
    }
  }

  /** The last character of `bin(n)`, i.e. `bin(n)[-1:]`, is the parity digit of n. */
  lemma LastDigitIsParity(n: nat)
    ensures Bin(n)[|Bin(n)| - 1..] == [DigitChar(n % 2)]
    ensures Bin(n)[|Bin(n)| - 1..] == "0" <==> n % 2 == 0
    ensures Bin(n)[|Bin(n)| - 1..] == "1" <==> n % 2 == 1
  {
  }

  /**
   Dropping the last digit of `bin(n)` and appending the one-digit string
   `digit` gives a literal that `int(_, 2)` reads as n with its
   least-significant bit replaced by that digit. This holds for n == 0 too,
   where "0b0" becomes "0b" followed by the digit.
   */
  lemma {:induction false} RewriteLastDigit(n: nat, digit: string)
    requires digit == "0" || digit == "1"
    ensures IsBinLiteral(Bin(n)[..|Bin(n)| - 1] + digit)
    ensures IntBase2(Bin(n)[..|Bin(n)| - 1] + digit) == n - n % 2 + (if digit == "1" then 1 else 0)
  {
    var d := BinDigits(n);
    var s := Bin(n)[..|Bin(n)| - 1] + digit;
    var prefix := d[..|d| - 1];
    assert s == "0b" + (prefix + digit);
    assert s[2..] == prefix + digit;
    assert (prefix + digit)[..|prefix|] == prefix;
    BinDigitsValue(n);
    assert DigitsValue(d) == 2 * DigitsValue(prefix) + n % 2;
  }
}
