/**
 * Rendering of non-negative integers in a radix, as JavaScript's
 * `Number.prototype.toString(radix)` does for integral values up to 2^53
 * (above that JavaScript pads the shortest round-trip digits with zeros): lower-case
 * digits, no leading zeros, "0" for zero. The encoder uses it twice:
 * `String(n)` for integral numbers (radix 10) and the two nibbles of a
 * `\u00XX` escape (radix 16).
 */
module Radix {

  /** The digit character for d: '0'..'9' then 'a'..'f'. */
  function Digit(d: nat): (c: char)
    requires d < 16
    ensures d < 10 ==> '0' <= c <= '9'
    ensures 10 <= d ==> 'a' <= c <= 'f'
  {
    if d < 10 then ('0' as int + d) as char else ('a' as int + d - 10) as char
  }

  /** The value of a digit character, upper or lower case; -1 for any other character. */
  function DigitValue(c: char): (v: int)
    ensures -1 <= v < 16
  {
    if '0' <= c <= '9' then c as int - '0' as int
    else if 'a' <= c <= 'f' then c as int - 'a' as int + 10
    else if 'A' <= c <= 'F' then c as int - 'A' as int + 10
    else -1
  }

  predicate IsDigitOf(c: char, base: nat) {
    0 <= DigitValue(c) < base
  }

  predicate AllDigitsOf(s: string, base: nat) {
    forall i :: 0 <= i < |s| ==> IsDigitOf(s[i], base)
  }

  /** Reading a digit back gives the value it was made from. */
  lemma DigitValueOfDigit(d: nat)
    requires d < 16
    ensures DigitValue(Digit(d)) == d
  {
  }

  /** Euclidean division facts the renderer relies on. */
  lemma DivideByBase(n: nat, base: nat)
    requires 2 <= base <= n
    ensures 1 <= n / base < n
    ensures n == n / base * base + n % base
  {
  }

  /** The rendering of n in radix `base`. */
  function ToRadix(n: nat, base: nat): (r: string)
    requires 2 <= base <= 16
    ensures 1 <= |r|
    ensures AllDigitsOf(r, base)
    ensures |r| > 1 ==> r[0] != '0'
    ensures n < base <==> |r| == 1
    decreases n
  {
    if n < base then [Digit(n)]
    else
      DivideByBase(n, base);
      ToRadix(n / base, base) + [Digit(n % base)]
  }

  /** The number a string of digits denotes in radix `base`, most significant first. */
  function ValueOf(s: string, base: nat): nat
    requires 2 <= base <= 16
    requires AllDigitsOf(s, base)
  {
    if s == [] then 0 else ValueOf(s[..|s| - 1], base) * base + DigitValue(s[|s| - 1])
  }

  /** Reading the rendering of n gives n back. */
  lemma {:induction false} ValueOfToRadix(n: nat, base: nat)
    requires 2 <= base <= 16
    ensures ValueOf(ToRadix(n, base), base) == n
    decreases n
  {
    var r := ToRadix(n, base);
    if n < base {
      DigitValueOfDigit(n);
    } else {
      DivideByBase(n, base);
      ValueOfToRadix(n / base, base);
      DigitValueOfDigit(n % base);
      assert r[..|r| - 1] == ToRadix(n / base, base);
    }
  }

  /** `String(n)` for an integral number n of magnitude at most 2^53: a minus sign, then the decimal digits of |n|. */
  function NumberToString(n: int): (r: string)
    ensures n < 0 <==> (|r| > 0 && r[0] == '-')
    ensures n < 0 ==> AllDigitsOf(r[1..], 10) && r[1..] == ToRadix(-n, 10)
    ensures 0 <= n ==> AllDigitsOf(r, 10) && r == ToRadix(n, 10)
  {
    if n < 0 then "-" + ToRadix(-n, 10) else ToRadix(n, 10)
  }
}
