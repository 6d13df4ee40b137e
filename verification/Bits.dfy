/** Bit operations on Python's unbounded non-negative integers. */
module Bits {

  function And(a: nat, b: nat): (r: nat)
    decreases a
  {
    if a == 0 then 0 else (if a % 2 == 1 && b % 2 == 1 then 1 else 0) + 2 * And(a / 2, b / 2)
  }

  function Or(a: nat, b: nat): (r: nat)
    decreases a + b
  {
    if a == 0 && b == 0 then 0 else (if a % 2 == 1 || b % 2 == 1 then 1 else 0) + 2 * Or(a / 2, b / 2)
  }

  function Xor(a: nat, b: nat): (r: nat)
    decreases a + b
  {
    if a == 0 && b == 0 then 0 else (if a % 2 != b % 2 then 1 else 0) + 2 * Xor(a / 2, b / 2)
  }

  function Pow2(k: nat): (p: nat)
    ensures p > 0
  {
    if k == 0 then 1 else 2 * Pow2(k - 1)
  }

  function ShiftLeft(a: nat, n: nat): nat
    decreases n
  {
    if n == 0 then a else ShiftLeft(2 * a, n - 1)
  }

  function ShiftRight(a: nat, n: nat): nat
    decreases n
  {
    if n == 0 then a else ShiftRight(a / 2, n - 1)
  }

  ghost predicate IsPow2(c: nat) {
    exists k: nat :: c == Pow2(k)
  }

  lemma ModDouble(x: nat, m: nat)
    requires m > 0
    ensures x % (2 * m) == x % 2 + 2 * ((x / 2) % m)
  {
    var q, r := (x / 2) / m, (x / 2) % m;
    assert x / 2 == q * m + r;
    assert x == (2 * m) * q + (x % 2 + 2 * r);
    ModUnique(x, 2 * m, q, x % 2 + 2 * r);
  }

  lemma ModUnique(x: int, m: int, q: int, r: int)
    requires m > 0 && x == m * q + r && 0 <= r < m
    ensures x % m == r && x / m == q
  {
    var d := q - x / m;
    assert m * d == x % m - r;
    assert d >= 1 ==> m * d >= m;
    assert d <= -1 ==> m * d <= -m;
  }

  /** Masking with a power of two less one is the remainder. */
  lemma {:induction false} AndMask(x: nat, k: nat)
    ensures And(x, Pow2(k) - 1) == x % Pow2(k)
  {
    if k == 0 {
      AndZero(x);
    } else if x == 0 {
      ModUnique(0, Pow2(k), 0, 0);
    } else {
      var m := Pow2(k - 1);
      assert Pow2(k) == 2 * m;
      hide And, Pow2;
      AndOddMask(x, m);
      AndMask(x / 2, k - 1);
      ModDouble(x, m);
    }
  }

  lemma AndOddMask(x: nat, m: nat)
    requires x > 0 && m > 0
    ensures And(x, 2 * m - 1) == x % 2 + 2 * And(x / 2, m - 1)
  {
    assert (2 * m - 1) / 2 == m - 1 && (2 * m - 1) % 2 == 1;
  }

  lemma {:induction false} AndZero(x: nat)
    ensures And(x, 0) == 0
  {
    if x > 0 {
      AndZero(x / 2);
    }
  }

  lemma {:induction false} OrZero(x: nat)
    ensures Or(x, 0) == x
  {
    if x > 0 {
      OrZero(x / 2);
    }
  }

  /** Setting the lowest bit makes any number odd. */
  lemma OrOne(x: nat)
    ensures Or(x, 1) == x + (1 - x % 2)
  {
    OrZero(x / 2);
  }

  lemma {:induction false} AndSelf(x: nat)
    ensures And(x, x) == x
  {
    if x > 0 {
      AndSelf(x / 2);
    }
  }

  /** The constructor's test `capacity & (capacity - 1)` recognises powers of two. */
  lemma {:induction false} PowerOfTwoTest(c: nat)
    requires c > 0
    ensures And(c, c - 1) == 0 <==> IsPow2(c)
  {
    if c == 1 {
      AndZero(1);
      assert c == Pow2(0);
    } else if c % 2 == 0 {
      assert (c - 1) / 2 == c / 2 - 1;
      PowerOfTwoTest(c / 2);
      if IsPow2(c / 2) {
        var k: nat :| c / 2 == Pow2(k);
        assert c == Pow2(k + 1);
      }
      if IsPow2(c) {
        var k: nat :| c == Pow2(k);
        assert c / 2 == Pow2(k - 1);
      }
    } else {
      assert (c - 1) / 2 == c / 2 > 0;
      AndSelf(c / 2);
      forall k: nat ensures c != Pow2(k) {
        assert Pow2(k) == 1 || Pow2(k) % 2 == 0;
      }
    }
  }

  /** An odd factor cannot supply a factor of two. */
  lemma {:induction false} OddFactor(a: nat, s: nat, k: nat)
    requires s % 2 == 1 && (a * s) % Pow2(k) == 0
    ensures a % Pow2(k) == 0
  {
    if k > 0 {
      var m := Pow2(k - 1);
      ModDouble(a * s, m);
      assert (a * s) % 2 == 0;
      OddTimes(a, s);
      var b := a / 2;
      assert a == 2 * b;
      assert a * s == 2 * (b * s);
      OddFactor(b, s, k - 1);
      ModDouble(a, m);
    }
  }

  lemma OddTimes(a: nat, s: nat)
    requires s % 2 == 1
    ensures (a * s) % 2 == a % 2
  {
    var t := s / 2;
    assert a * s == 2 * (a * t) + a;
  }
}
