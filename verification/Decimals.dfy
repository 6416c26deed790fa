/** Decimal numerals. */
module Decimals {
  function Pow10(k: nat): nat {
    if k == 0 then 1 else 10 * Pow10(k - 1)
  }

  // The number that a sequence of digits denotes.
  function Denoted<T>(digits: seq<T>, digit: T -> int): int {
    if digits == [] then 0
    else Denoted(digits[..|digits| - 1], digit) * 10 + digit(digits[|digits| - 1])
  }

  lemma DenotedSnoc<T>(d: seq<T>, c: T, digit: T -> int)
    ensures Denoted(d + [c], digit) == Denoted(d, digit) * 10 + digit(c)
  {
    assert (d + [c])[..|d + [c]| - 1] == d;
  }
}
