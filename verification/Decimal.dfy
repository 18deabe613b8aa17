/** Decimal numerals as `%lu` and `%d` print them. */
module Decimal {
  import opened Prelude

  predicate IsDigit(c: byte) {
    48 <= c <= 57
  }

  /** `%lu`. */
  function Digits(n: nat): (s: Str)
    ensures s != [] && forall i | 0 <= i < |s| :: IsDigit(s[i])
  {
    if n < 10 then [48 + n] else Digits(n / 10) + [48 + n % 10]
  }

  /** The number a string of digits stands for. */
  function NumberOf(s: Str): int {
    if s == [] then 0
    else
      var last: int := s[|s| - 1];
      10 * NumberOf(s[..|s| - 1]) + last - 48
  }

  /** A numeral stands for its number and has no leading zero. */
  lemma {:induction false} DigitsExact(n: nat)
    ensures NumberOf(Digits(n)) == n
    ensures Digits(n)[0] == 48 <==> n == 0
    ensures |Digits(n)| == 1 <==> n < 10
  {
    if n < 10 {
      assert [48 + n][..0] == [];
      assert NumberOf([]) == 0;
    } else {
      DigitsExact(n / 10);
      var s := Digits(n);
      assert s[..|s| - 1] == Digits(n / 10);
    }
  }

  function Power10(n: nat): nat {
    if n == 0 then 1 else 10 * Power10(n - 1)
  }

  /** The digits are the ten decimal ones, and each counts for its power of ten. */
  lemma {:induction false} DigitsAreDecimal(k: nat, rest: Str)
    requires k < 10
    ensures var c := Ascii("0123456789")[k];
      IsDigit(c) && NumberOf([c] + rest) == k * Power10(|rest|) + NumberOf(rest)
    decreases |rest|
  {
    var c := Ascii("0123456789")[k];
    assert c == 48 + k;
    hide Ascii;
    var s := [c] + rest;
    if rest == [] {
      assert s == [c] && s[..0] == [];
    } else {
      var n := |rest| - 1;
      DigitsAreDecimal(k, rest[..n]);
      assert s[..|s| - 1] == [c] + rest[..n];
      assert 10 * (k * Power10(n)) == k * Power10(n + 1);
    }
  }
}
