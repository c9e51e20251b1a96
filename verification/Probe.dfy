/** The number theory behind khash's probe sequence: bucket `step` of the walk from
    `home` is `(home + 1 + 2 + ... + step) mod n`, with n a power of two. */
module Probe {

  function Pow2(m: nat): (p: nat)
    ensures p >= 1
  {
    if m == 0 then 1 else 2 * Pow2(m - 1)
  }

  ghost predicate IsPow2(n: nat) {
    exists m: nat :: n == Pow2(m)
  }

  /** The triangular number 0 + 1 + ... + k. */
  function Tri(k: nat): nat {
    if k == 0 then 0 else Tri(k - 1) + k
  }

  /** Where the walk from `home` is after `step` increments. */
  function At(home: nat, step: nat, n: nat): (i: nat)
    requires n > 0
    ensures i < n
  {
    (home + Tri(step)) % n
  }

  // ----- arithmetic -----

  lemma MulAtLeast(d: int, n: nat)
    requires d >= 1
    ensures d * n >= n
  {
  }

  lemma ModUnique(a: nat, q: int, r: nat, n: nat)
    requires n > 0 && r < n && a == q * n + r
    ensures a % n == r
  {
    var k := a / n;
    assert a == k * n + a % n;
    assert (q - k) * n == a % n - r;
    assert (k - q) * n == r - a % n;
    if q > k { MulAtLeast(q - k, n); }
    if k > q { MulAtLeast(k - q, n); }
  }

  lemma ModSame(a: nat, b: nat, n: nat) returns (q: nat)
    requires n > 0 && a <= b && a % n == b % n
    ensures b - a == q * n
  {
    assert b == (b / n) * n + b % n;
    assert a == (a / n) * n + a % n;
    var d := b / n - a / n;
    assert d * n == b - a;
    if d < 0 {
      MulAtLeast(-d, n);
    }
    q := d;
  }

  lemma ModShift(x: nat, q: nat, n: nat)
    requires n > 0
    ensures (x + q * n) % n == x % n
  {
    assert x == (x / n) * n + x % n;
    assert x + q * n == (x / n + q) * n + x % n;
    ModUnique(x + q * n, x / n + q, x % n, n);
  }

  lemma ModAdd(a: nat, b: nat, n: nat)
    requires n > 0
    ensures (a % n + b) % n == (a + b) % n
  {
    assert a == (a / n) * n + a % n;
    ModShift(a % n + b, a / n, n);
  }

  lemma TriDouble(k: nat)
    ensures 2 * Tri(k) == k * (k + 1)
  {
  }

  /** An odd factor carries no power of two. */
  lemma {:induction false} OddFactor(m: nat, a: nat, b: nat, q: nat) returns (r: nat)
    requires a % 2 == 1 && a * b == q * Pow2(m)
    ensures b == r * Pow2(m)
    decreases m
  {
    if m == 0 {
      r := b;
    } else {
      var h := Pow2(m - 1);
      assert a * b == 2 * (q * h);
      if b % 2 == 1 {
        OddTimesOdd(a, b);
        assert false;
      }
      var c := b / 2;
      assert a * b == 2 * (a * c) by { assert b == 2 * c; assert a * b == a * (2 * c) == 2 * (a * c); }
      assert a * c == q * h;
      r := OddFactor(m - 1, a, c, q);
      assert b == 2 * (r * h) == r * Pow2(m);
    }
  }

  lemma OddTimesOdd(a: nat, b: nat)
    requires a % 2 == 1 && b % 2 == 1
    ensures (a * b) % 2 == 1
  {
    var c, d := a / 2, b / 2;
    assert a == 2 * c + 1 && b == 2 * d + 1;
    assert a * b == 2 * (2 * (c * d) + c + d) + 1 by {
      assert a * b == (2 * c + 1) * (2 * d + 1) == 4 * (c * d) + 2 * c + 2 * d + 1;
    }
  }

  lemma SmallMultiple(b: nat, r: nat, n: nat)
    requires b == r * n && b < n
    ensures b == 0
  {
    if r >= 1 { MulAtLeast(r, n); }
  }

  /** Two factors of opposite parity cannot both stay below a power of two that divides
      their product, unless one of them is zero. */
  lemma OppositeParity(a: nat, b: nat, q: nat, m: nat)
    requires a % 2 != b % 2 && a * b == q * Pow2(m)
    requires a < Pow2(m) && b < Pow2(m)
    ensures a == 0 || b == 0
  {
    if a % 2 == 1 {
      var r := OddFactor(m, a, b, q);
      SmallMultiple(b, r, Pow2(m));
    } else {
      assert b * a == a * b;
      var r := OddFactor(m, b, a, q);
      SmallMultiple(a, r, Pow2(m));
    }
  }

  lemma DoubleMultiple(q: nat, m: nat)
    ensures 2 * (q * Pow2(m)) == q * Pow2(m + 1)
  {
    assert Pow2(m + 1) == 2 * Pow2(m);
    var n := Pow2(m);
    assert 2 * (q * n) == q * (2 * n);
  }

  lemma TriDifference(s: nat, t: nat)
    requires s <= t
    ensures 2 * (Tri(t) - Tri(s)) == (t - s) * (t + s + 1)
  {
    TriDouble(s);
    TriDouble(t);
    assert (t - s) * (t + s + 1) == t * (t + 1) - s * (s + 1);
  }

  // ----- the walk -----

  /** Two steps that meet at one bucket are far apart in a multiplicative sense. */
  lemma SameBucket(home: nat, s: nat, t: nat, m: nat) returns (q: nat)
    requires s < t && At(home, s, Pow2(m)) == At(home, t, Pow2(m))
    ensures (t - s) * (t + s + 1) == q * Pow2(m + 1)
  {
    TriMonotone(s, t);
    q := ModSame(home + Tri(s), home + Tri(t), Pow2(m));
    TriDifference(s, t);
    DoubleMultiple(q, m);
  }

  /** Steps s < t with s + t + 1 < 2n never meet: within the first n steps no bucket is
      visited twice. */
  lemma WalkInjective(home: nat, s: nat, t: nat, m: nat)
    requires s < t && s + t + 1 < Pow2(m + 1)
    ensures At(home, s, Pow2(m)) != At(home, t, Pow2(m))
  {
    hide Pow2, Tri, At;
    if At(home, s, Pow2(m)) == At(home, t, Pow2(m)) {
      var q := SameBucket(home, s, t, m);
      OppositeParity(t - s, t + s + 1, q, m + 1);
    }
  }

  lemma TriMonotone(s: nat, t: nat)
    requires s <= t
    ensures Tri(s) <= Tri(t)
  {
  }

  /** The buckets visited by the first k steps. */
  ghost function Visited(home: nat, k: nat, n: nat): set<nat>
    requires n > 0
  {
    set s: nat | s < k :: At(home, s, n)
  }

  lemma {:induction false} VisitedCount(home: nat, k: nat, m: nat)
    requires k <= Pow2(m)
    ensures |Visited(home, k, Pow2(m))| == k
  {
    if k > 0 {
      var n := Pow2(m);
      VisitedCount(home, k - 1, m);
      var last := At(home, k - 1, n);
      assert last !in Visited(home, k - 1, n) by {
        forall s: nat | s < k - 1 ensures At(home, s, n) != last { WalkInjective(home, s, k - 1, m); }
      }
      assert Visited(home, k, n) == Visited(home, k - 1, n) + {last};
    }
  }

  ghost function Below(n: nat): (r: set<nat>)
    ensures forall i: nat :: i in r <==> i < n
  {
    if n == 0 then {} else Below(n - 1) + {n - 1}
  }

  lemma {:induction false} BelowCount(n: nat)
    ensures |Below(n)| == n
  {
    if n > 0 {
      BelowCount(n - 1);
    }
  }

  lemma SubsetSameCount<T>(a: set<T>, b: set<T>)
    requires a <= b && |a| == |b|
    ensures a == b
  {
    if exists x :: x in b && x !in a {
      var x :| x in b && x !in a;
      assert a <= b - {x};
      SubsetCount(a, b - {x});
    }
  }

  lemma {:induction false} SubsetCount<T>(a: set<T>, b: set<T>)
    requires a <= b
    ensures |a| <= |b|
    decreases a
  {
    if a != {} {
      var x :| x in a;
      SubsetCount(a - {x}, b - {x});
    }
  }

  /** The first n steps visit every one of the n buckets. */
  lemma WalkVisitsAll(home: nat, i: nat, m: nat)
    requires i < Pow2(m)
    ensures exists s: nat :: s < Pow2(m) && At(home, s, Pow2(m)) == i
  {
    var n := Pow2(m);
    VisitedCount(home, n, m);
    BelowCount(n);
    assert Visited(home, n, n) <= Below(n);
    SubsetSameCount(Visited(home, n, n), Below(n));
    assert i in Visited(home, n, n);
  }

  /** The walk is back at its starting bucket for the first time at step 2n - 1. */
  lemma FirstReturn(home: nat, m: nat)
    ensures At(home, 2 * Pow2(m) - 1, Pow2(m)) == home % Pow2(m)
    ensures forall k: nat :: 1 <= k < 2 * Pow2(m) - 1 ==> At(home, k, Pow2(m)) != home % Pow2(m)
  {
    var n := Pow2(m);
    var k0 := 2 * n - 1;
    assert At(home, 0, n) == home % n;
    FullWalk(home, n);
    assert Pow2(m + 1) == 2 * n;
    forall k: nat | 1 <= k < k0 ensures At(home, k, n) != home % n {
      WalkInjective(home, 0, k, m);
    }
  }

  lemma FullWalk(home: nat, n: nat)
    requires n > 0
    ensures At(home, 2 * n - 1, n) == home % n
  {
    var k0 := 2 * n - 1;
    TriDifference(0, k0);
    assert 2 * Tri(k0) == k0 * (2 * n) == 2 * (k0 * n);
    ModShift(home, k0, n);
  }

  lemma WalkStart(home: nat, n: nat)
    requires n > 0
    ensures At(home, 0, n) == home % n
  {
  }

  lemma PowerOf(n: nat) returns (m: nat)
    requires IsPow2(n)
    ensures n == Pow2(m)
  {
    m :| n == Pow2(m);
  }

  /** One increment of the loop: `i = (i + ++step) & mask`. */
  lemma WalkStep(home: nat, step: nat, n: nat)
    requires n > 0
    ensures (At(home, step, n) + (step + 1)) % n == At(home, step + 1, n)
  {
    ModAdd(home + Tri(step), step + 1, n);
  }

  /** The step at which the walk from `home` reaches bucket i. */
  ghost function StepOf(home: nat, i: nat, n: nat): (s: nat)
    requires IsPow2(n) && i < n
    ensures s < n && At(home, s, n) == i
  {
    var m: nat :| n == Pow2(m);
    WalkVisitsAll(home, i, m);
    var s: nat :| s < n && At(home, s, n) == i;
    s
  }

  lemma StepOfUnique(home: nat, s: nat, n: nat)
    requires IsPow2(n) && s < n
    ensures StepOf(home, At(home, s, n), n) == s
  {
    var m: nat :| n == Pow2(m);
    var t := StepOf(home, At(home, s, n), n);
    if t < s { WalkInjective(home, t, s, m); }
    if s < t { WalkInjective(home, s, t, m); }
  }
}
