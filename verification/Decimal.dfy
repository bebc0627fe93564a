/** Decimal numerals: std::to_string of a non-negative int, and std::stoi on digits. */
module Decimal {

  predicate IsDigit(c: char) { '0' <= c <= '9' }

  predicate Digits(s: string)
  {
    s != "" && forall i :: 0 <= i < |s| ==> IsDigit(s[i])
  }

  function Digit(v: nat): (c: char)
    requires v < 10
    ensures IsDigit(c) && c as int - '0' as int == v
  {
    ('0' as int + v) as char
  }

  function ToString(n: nat): (s: string)
    ensures Digits(s)
  {
    if n < 10 then [Digit(n)] else ToString(n / 10) + [Digit(n % 10)]
  }

  function ToInt(s: string): nat
    requires forall i :: 0 <= i < |s| ==> IsDigit(s[i])
  {
    if s == "" then 0
    else
      assert IsDigit(s[|s| - 1]);
      10 * ToInt(s[..|s| - 1]) + (s[|s| - 1] as int - '0' as int)
  }

  lemma {:induction false} RoundTrip(n: nat)
    ensures ToInt(ToString(n)) == n
  {
    var s := ToString(n);
    if n < 10 {
      assert s[..0] == "";
    } else {
      RoundTrip(n / 10);
      assert s[..|s| - 1] == ToString(n / 10);
    }
  }

  lemma Examples()
    ensures ToString(0) == "0" && ToString(120) == "120" && ToInt("120") == 120 && ToInt("007") == 7
  {
    assert ToString(12) == "12";
    RoundTrip(120);
    assert "007"[..2] == "00" && "00"[..1] == "0" && "0"[..0] == "";
  }

  function Pow10(k: nat): nat { if k == 0 then 1 else 10 * Pow10(k - 1) }

  /** A number of at most k digits. */
  lemma {:induction false} ToIntBound(s: string, k: nat)
    requires (forall i :: 0 <= i < |s| ==> IsDigit(s[i])) && |s| <= k
    ensures ToInt(s) < Pow10(k)
  {
    if s != "" {
      assert IsDigit(s[|s| - 1]);
      ToIntBound(s[..|s| - 1], k - 1);
    } else if k > 0 {
      ToIntBound(s, k - 1);
    }
  }

  lemma {:induction false} ToStringLength(n: nat, k: nat)
    requires k >= 1 && n < Pow10(k)
    ensures |ToString(n)| <= k
  {
    if n >= 10 {
      assert Pow10(0) == 1;
      ToStringLength(n / 10, k - 1);
    }
  }

  /** At most nine digits spell the numbers below 10^9. */
  lemma NineDigits()
    ensures Pow10(9) == 1_000_000_000
  {
    assert Pow10(3) == 1000;
    assert Pow10(6) == 1_000_000;
  }
}
