/** Bitwise operations on unsigned numbers, as the source uses them on size_t and uint64_t. */
module Bits {

  function And(x: nat, y: nat): nat
  {
    if x == 0 || y == 0 then 0 else 2 * And(x / 2, y / 2) + (if x % 2 == 1 && y % 2 == 1 then 1 else 0)
  }

  function Or(x: nat, y: nat): nat
    decreases x + y
  {
    if x == 0 && y == 0 then 0
    else 2 * Or(x / 2, y / 2) + (if x % 2 == 1 || y % 2 == 1 then 1 else 0)
  }

  function Xor(x: nat, y: nat): nat
    decreases x + y
  {
    if x == 0 && y == 0 then 0
    else 2 * Xor(x / 2, y / 2) + (if x % 2 != y % 2 then 1 else 0)
  }

  function Pow2(t: nat): (p: nat)
    ensures p > 0
  {
    if t == 0 then 1 else 2 * Pow2(t - 1)
  }

  ghost predicate IsPow2(n: nat) { exists t: nat :: n == Pow2(t) }

  /** Masking with 2^t - 1 is reduction modulo 2^t. */
  lemma {:induction false} MaskIsMod(x: nat, t: nat)
    ensures And(x, Pow2(t) - 1) == x % Pow2(t)
  {
    hide *;
    if t > 0 {
      MaskIsMod(x / 2, t - 1);
      DoublePow2(t);
      MaskDouble(x, Pow2(t - 1), Pow2(t));
    } else {
      MaskNothing(x);
    }
  }

  lemma MaskDouble(x: nat, p: nat, q: nat)
    requires p > 0 && q == 2 * p && And(x / 2, p - 1) == x / 2 % p
    ensures And(x, q - 1) == x % q
  {
    hide And;
    AndOdd(x, p);
    HalveMod(x, p);
  }

  lemma MaskNothing(x: nat)
    ensures And(x, Pow2(0) - 1) == x % Pow2(0)
  {
  }

  lemma DoublePow2(t: nat)
    requires t > 0
    ensures Pow2(t) == 2 * Pow2(t - 1)
  {
  }

  lemma AndOdd(x: nat, p: nat)
    requires p > 0
    ensures And(x, 2 * p - 1) == 2 * And(x / 2, p - 1) + x % 2
  {
    var m := 2 * p - 1;
    assert m / 2 == p - 1 && m % 2 == 1;
  }

  lemma HalveMod(x: nat, p: nat)
    requires p > 0
    ensures 2 * (x / 2 % p) + x % 2 == x % (2 * p)
  {
    var h := x / 2;
    var q := h / p;
    assert h == q * p + h % p;
    assert x == q * (2 * p) + (2 * (h % p) + x % 2);
    ModUnique(x, 2 * p, q, 2 * (h % p) + x % 2);
  }

  lemma ModUnique(x: nat, d: nat, q: nat, r: nat)
    requires r < d && x == q * d + r
    ensures x % d == r && x / d == q
  {
    if x / d > q {
      MulStep(x / d, q, d);
    } else if x / d < q {
      MulStep(q, x / d, d);
    }
  }

  lemma {:induction false} MulStep(a: int, b: int, d: nat)
    requires a > b
    ensures a * d >= b * d + d
    decreases a - b
  {
    assert a * d == (a - 1) * d + d;
    if a > b + 1 {
      MulStep(a - 1, b, d);
    }
  }

  lemma MulMonotone(a: int, b: int, d: nat)
    requires a >= b
    ensures a * d >= b * d
  {
    if a > b {
      MulStep(a, b, d);
    }
  }

  /** The source's test for a power of two: n & (n - 1) == 0. */
  lemma {:induction false} AndPredZero(n: nat)
    requires n > 0
    ensures And(n, n - 1) == 0 <==> IsPow2(n)
  {
    if n == 1 {
      assert n == Pow2(0);
    } else if n % 2 == 1 {
      AndSelf(n / 2);
      forall t: nat ensures n != Pow2(t) { if t > 0 { assert Pow2(t) == 2 * Pow2(t - 1); } }
    } else {
      var h := n / 2;
      assert (n - 1) / 2 == h - 1;
      AndPredZero(h);
      if And(h, h - 1) == 0 {
        var t: nat :| h == Pow2(t);
        assert n == Pow2(t + 1);
      }
      if IsPow2(n) {
        var t: nat :| n == Pow2(t);
        assert h == Pow2(t - 1);
      }
    }
  }

  lemma {:induction false} AndSelf(n: nat)
    ensures And(n, n) == n
  {
    if n > 0 {
      AndSelf(n / 2);
      assert And(n, n) == 2 * And(n / 2, n / 2) + n % 2;
    }
  }

  /** The accumulator of a difference loop is zero exactly when nothing differed. */
  lemma {:induction false} OrZero(x: nat, y: nat)
    ensures Or(x, y) == 0 <==> x == 0 && y == 0
    decreases x + y
  {
    if x > 0 || y > 0 { OrZero(x / 2, y / 2); }
  }

  lemma {:induction false} XorZero(x: nat, y: nat)
    ensures Xor(x, y) == 0 <==> x == y
    decreases x + y
  {
    if x > 0 || y > 0 { XorZero(x / 2, y / 2); }
  }

  lemma {:induction false} Pow2Monotone(s: nat, t: nat)
    ensures s <= t ==> Pow2(s) <= Pow2(t)
    ensures s < t ==> Pow2(s) < Pow2(t)
  {
    if s < t { Pow2Monotone(s, t - 1); }
  }
}
