/** Where a double-hashing probe looks, and that it looks everywhere exactly once. */
module ProbeSequence {
  import opened Bits

  const INITIAL_CAPACITY := 8

  type Hash32 = h: nat | h < 0x1_0000_0000

  ghost predicate IsCapacity(c: nat) {
    c >= INITIAL_CAPACITY && IsPow2(c)
  }

  function HomeIndex(hashCode: Hash32, capacity: nat): nat
    requires capacity > 0
  {
    And(hashCode, capacity - 1)
  }

  function ProbeStep(hashCode: Hash32, capacity: nat): nat
    requires capacity > 0
  {
    var derived := And(Xor(ShiftRight(hashCode, 16), ShiftLeft(hashCode, 1)), 0xFFFF_FFFF);
    var step := And(Or(derived, 1), capacity - 1);
    if step != 0 then step else 1
  }

  function Offset(start: nat, n: nat, step: nat): nat {
    start + n * step
  }

  /** The slot looked at after `n` steps. */
  function ProbeIndex(hashCode: Hash32, capacity: nat, n: nat): nat
    requires capacity > 0
  {
    And(Offset(HomeIndex(hashCode, capacity), n, ProbeStep(hashCode, capacity)), capacity - 1)
  }

  lemma ProbeIndexSteps(hashCode: Hash32, capacity: nat, n: nat)
    requires capacity > 0
    ensures ProbeIndex(hashCode, capacity, n) ==
      And(Offset(HomeIndex(hashCode, capacity), n, ProbeStep(hashCode, capacity)), capacity - 1)
  {
  }

  lemma MaskIsMod(x: nat, c: nat)
    requires IsPow2(c)
    ensures c > 0 && And(x, c - 1) == x % c
  {
    var k: nat :| c == Pow2(k);
    AndMask(x, k);
  }

  lemma CapacityEven(c: nat)
    requires IsPow2(c) && c > 1
    ensures c % 2 == 0
  {
    var k: nat :| c == Pow2(k);
  }

  lemma CapacityDoubles(c: nat)
    requires IsCapacity(c)
    ensures IsCapacity(2 * c)
  {
    var k: nat :| c == Pow2(k);
    assert 2 * c == Pow2(k + 1);
  }

  lemma CapacityHalves(c: nat)
    requires IsCapacity(c) && c > INITIAL_CAPACITY
    ensures c % 2 == 0 && IsCapacity(c / 2)
  {
    var k: nat :| c == Pow2(k);
    assert c / 2 == Pow2(k - 1);
    PowersApart(k, 3);
  }

  /** There is no power of two strictly between a power and its double. */
  lemma {:induction false} PowersApart(k: nat, j: nat)
    requires Pow2(k) > Pow2(j)
    ensures Pow2(k) >= 2 * Pow2(j)
  {
    if k > 0 && j > 0 {
      PowersApart(k - 1, j - 1);
    }
  }

  /** The step is odd and inside the table. */
  lemma ProbeStepOdd(hashCode: Hash32, capacity: nat)
    requires IsCapacity(capacity)
    ensures ProbeStep(hashCode, capacity) % 2 == 1 && ProbeStep(hashCode, capacity) < capacity
  {
    hide And, Xor, Or, IsPow2;
    var derived := And(Xor(ShiftRight(hashCode, 16), ShiftLeft(hashCode, 1)), 0xFFFF_FFFF);
    var x := Or(derived, 1);
    OrOne(derived);
    MaskIsMod(x, capacity);
    CapacityEven(capacity);
    ModOfOdd(x, capacity);
  }

  lemma ModOfOdd(x: nat, c: nat)
    requires c > 0 && c % 2 == 0 && x % 2 == 1
    ensures (x % c) % 2 == 1
  {
    var q, half := x / c, c / 2;
    assert x == c * q + x % c;
    assert c * q == 2 * (half * q);
  }

  lemma ProbeIndexBound(hashCode: Hash32, capacity: nat, n: nat)
    requires IsCapacity(capacity)
    ensures ProbeIndex(hashCode, capacity, n) < capacity
  {
    hide And, IsPow2;
    MaskIsMod(Offset(HomeIndex(hashCode, capacity), n, ProbeStep(hashCode, capacity)), capacity);
  }

  lemma ModDifference(a: nat, b: nat, c: nat)
    requires c > 0 && a <= b && a % c == b % c
    ensures (b - a) % c == 0
  {
    assert a == c * (a / c) + a % c && b == c * (b / c) + b % c;
    assert b - a == c * (b / c - a / c);
    ModUnique(b - a, c, b / c - a / c, 0);
  }

  lemma OffsetsDistinct(home: nat, step: nat, c: nat, n: nat, m: nat)
    requires IsPow2(c) && step % 2 == 1 && n < m < c
    ensures Offset(home, n, step) % c != Offset(home, m, step) % c
  {
    var k: nat :| c == Pow2(k);
    hide IsPow2, Pow2;
    var x, y := Offset(home, n, step), Offset(home, m, step);
    Monotone(n, m, step);
    assert y - x == (m - n) * step;
    if x % c == y % c {
      ModDifference(x, y, c);
      OddFactor(m - n, step, k);
      ModUnique(m - n, c, 0, m - n);
    }
  }

  /** Two probes of one round never meet. */
  lemma ProbeDistinct(hashCode: Hash32, capacity: nat, n: nat, m: nat)
    requires IsCapacity(capacity) && n < m < capacity
    ensures ProbeIndex(hashCode, capacity, n) != ProbeIndex(hashCode, capacity, m)
  {
    hide And, ProbeStep, HomeIndex, IsPow2, Offset;
    var home, step := HomeIndex(hashCode, capacity), ProbeStep(hashCode, capacity);
    ProbeStepOdd(hashCode, capacity);
    OffsetsDistinct(home, step, capacity, n, m);
    MaskIsMod(Offset(home, n, step), capacity);
    MaskIsMod(Offset(home, m, step), capacity);
  }

  lemma Monotone(n: nat, m: nat, s: nat)
    requires n <= m
    ensures n * s <= m * s
  {
  }

  /** One round of probes visits every slot. */
  lemma ProbeCovers(hashCode: Hash32, capacity: nat, i: nat)
    requires IsCapacity(capacity) && i < capacity
    ensures exists n: nat :: n < capacity && ProbeIndex(hashCode, capacity, n) == i
  {
    hide ProbeIndex, IsCapacity;
    var visits := seq(capacity, n requires 0 <= n < capacity => ProbeIndex(hashCode, capacity, n));
    forall n | 0 <= n < capacity ensures visits[n] < capacity {
      ProbeIndexBound(hashCode, capacity, n);
    }
    forall n, m | 0 <= n < m < capacity ensures visits[n] != visits[m] {
      ProbeDistinct(hashCode, capacity, n, m);
    }
    Pigeonhole(visits, i);
    var n :| 0 <= n < |visits| && visits[n] == i;
  }

  /** Each slot is visited exactly once in `capacity` probes. */
  lemma ProbePermutation(hashCode: Hash32, capacity: nat, i: nat)
    requires IsCapacity(capacity) && i < capacity
    ensures exists n: nat ::
              && n < capacity && ProbeIndex(hashCode, capacity, n) == i
              && (forall m: nat :: m < capacity && ProbeIndex(hashCode, capacity, m) == i ==> m == n)
  {
    hide ProbeIndex, IsCapacity;
    ProbeCovers(hashCode, capacity, i);
    var n: nat :| n < capacity && ProbeIndex(hashCode, capacity, n) == i;
    forall m: nat | m < capacity && ProbeIndex(hashCode, capacity, m) == i ensures m == n {
      if m < n {
        ProbeDistinct(hashCode, capacity, m, n);
      } else if n < m {
        ProbeDistinct(hashCode, capacity, n, m);
      }
    }
  }

  function UpTo(n: nat): (r: set<nat>)
    ensures |r| == n
    ensures forall i: nat :: i in r <==> i < n
  {
    if n == 0 then {} else UpTo(n - 1) + {n - 1}
  }

  function Elements(s: seq<nat>): set<nat> {
    set x | x in s
  }

  lemma {:induction false} DistinctSize(s: seq<nat>)
    requires forall n, m :: 0 <= n < m < |s| ==> s[n] != s[m]
    ensures |Elements(s)| == |s|
  {
    if s == [] {
      assert Elements(s) == {};
    } else {
      var t, last := s[..|s| - 1], s[|s| - 1];
      DistinctSize(t);
      assert s == t + [last];
      assert last !in Elements(t) && Elements(s) == Elements(t) + {last};
    }
  }

  lemma Pigeonhole(s: seq<nat>, i: nat)
    requires forall n :: 0 <= n < |s| ==> s[n] < |s|
    requires forall n, m :: 0 <= n < m < |s| ==> s[n] != s[m]
    requires i < |s|
    ensures i in s
  {
    DistinctSize(s);
    SubsetOfSameSize(Elements(s), UpTo(|s|));
    assert i in UpTo(|s|);
  }

  lemma SubsetOfSameSize(a: set<nat>, b: set<nat>)
    requires a <= b && |a| == |b|
    ensures a == b
  {
    assert b == a + (b - a);
    assert |b| == |a| + |b - a|;
  }
}
