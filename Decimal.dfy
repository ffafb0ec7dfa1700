/** Decimal rendering of a `Long` id, as Java's string concatenation
    `"..." + id` produces it, and the fact that distinct ids render
    differently (so an error message names exactly one id). */
module Decimal {

  function DigitChar(d: int): (c: char)
    requires 0 <= d < 10
    ensures '0' <= c <= '9'
  {
    (('0' as int) + d) as char
  }

  /** Digits of `n`, most significant first, no leading zeros. */
  function NatString(n: nat): (s: string)
    ensures |s| >= 1
    ensures n >= 10 ==> |s| >= 2
    ensures forall i :: 0 <= i < |s| ==> '0' <= s[i] <= '9'
    decreases n
  {
    if n < 10 then [DigitChar(n)] else NatString(n / 10) + [DigitChar(n % 10)]
  }

  /** `Long.toString`: a minus sign before the digits of a negative id. */
  function IdString(n: int): (s: string)
    ensures |s| >= 1
    ensures (s[0] == '-') <==> n < 0
  {
    if n < 0 then "-" + NatString(-n) else NatString(n)
  }

  lemma {:induction false} NatStringInjective(a: nat, b: nat)
    requires NatString(a) == NatString(b)
    ensures a == b
    decreases a
  {
    var s := NatString(a);
    if a < 10 && b < 10 {
      assert DigitChar(a) == s[0] == DigitChar(b);
    } else if a < 10 || b < 10 {
      // one rendering has a single digit, the other at least two
    } else {
      var n := |s|;
      assert s == NatString(a / 10) + [DigitChar(a % 10)];
      assert s == NatString(b / 10) + [DigitChar(b % 10)];
      assert DigitChar(a % 10) == s[n - 1] == DigitChar(b % 10);
      assert NatString(a / 10) == s[..n - 1] == NatString(b / 10);
      NatStringInjective(a / 10, b / 10);
    }
  }

  lemma IdStringInjective(a: int, b: int)
    requires IdString(a) == IdString(b)
    ensures a == b
  {
    var s := IdString(a);
    if a < 0 {
      assert b < 0;
      assert NatString(-a) == s[1..] == NatString(-b);
      NatStringInjective(-a, -b);
    } else {
      assert b >= 0;
      NatStringInjective(a, b);
    }
  }
}
