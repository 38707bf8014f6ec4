/** Log identifiers. The store allocates ids from a counter and shows them
    as the string "log-" followed by the counter in decimal. */
module LogIds {

  /** The character of the decimal digit d. */
  function DigitChar(d: nat): (c: char)
    requires d < 10
    ensures '0' <= c <= '9'
  {
    (48 + d) as char
  }

  /** The decimal rendering of n without leading zeros, as a template
      literal renders a non-negative integer. */
  function Decimal(n: nat): (s: string)
    ensures 1 <= |s|
    ensures (|s| == 1) == (n < 10)
    ensures forall k :: 0 <= k < |s| ==> '0' <= s[k] <= '9'
    decreases n
  {
    if n < 10 then [DigitChar(n)] else Decimal(n / 10) + [DigitChar(n % 10)]
  }

  /** Distinct numbers have distinct decimal renderings. */
  lemma {:induction false} DecimalInjective(a: nat, b: nat)
    requires Decimal(a) == Decimal(b)
    ensures a == b
    decreases a
  {
    if 10 <= a && 10 <= b {
      var sa, sb := Decimal(a), Decimal(b);
      assert sa == Decimal(a / 10) + [DigitChar(a % 10)];
      assert sb == Decimal(b / 10) + [DigitChar(b % 10)];
      assert DigitChar(a % 10) == sa[|sa| - 1] == sb[|sb| - 1] == DigitChar(b % 10);
      assert Decimal(a / 10) == sa[..|sa| - 1] == sb[..|sb| - 1] == Decimal(b / 10);
      DecimalInjective(a / 10, b / 10);
    } else if a < 10 && b < 10 {
      assert DigitChar(a) == Decimal(a)[0] == Decimal(b)[0] == DigitChar(b);
    }
  }

  /** The text form of the id with counter value k: `log-${k}`. */
  function RenderId(k: nat): (s: string)
    ensures |s| >= 5 && s[..4] == "log-" && s[4..] == Decimal(k)
  {
    "log-" + Decimal(k)
  }

  /** Two ids render to the same text only when their counters are equal,
      so comparing id strings is comparing counters. */
  lemma RenderIdInjective(a: nat, b: nat)
    requires RenderId(a) == RenderId(b)
    ensures a == b
  {
    assert Decimal(a) == RenderId(a)[4..];
    assert Decimal(b) == RenderId(b)[4..];
    DecimalInjective(a, b);
  }
}
