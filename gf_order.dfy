/**
  The period of the walk. The element 2 ("x") has multiplicative order 255
  for the polynomial x^8 + x^4 + x^3 + x^2 + 1, so the walk from 1 visits 255
  distinct nonzero bytes at indices 0..254 and is back at 1 at index 255,
  which is the last line the script prints.

  The argument: if the walk returns to 1 after k steps and after 255 steps,
  it returns after gcd(k, 255) steps. A positive k below 255 would give a
  proper divisor of 255, and every proper divisor of 255 = 3 * 5 * 17 divides
  15, 51 or 85; but the walk is not at 1 at any of those three indices.
 */
module GfOrder {
  import opened GfStep

  /**
    The walk at the three indices the argument needs. Each value is checked by
    evaluating the walk at most fourteen steps on from the previous checkpoint.
   */
  lemma WalkLandmarks()
    ensures Walk(15) == 0x26
    ensures Walk(51) == 0x0a
    ensures Walk(85) == 0xd6
  {
    assert Walk(14) == 0x13;
    assert Walk(15) == 0x26;
    assert Walk(29) == 0x30;
    assert Walk(43) == 0x77;
    assert Walk(51) == 0x0a;
    assert Walk(65) == 0xbe;
    assert Walk(79) == 0xf0;
  }

  /** After 255 steps the walk is back at 1 (checked the same way). */
  lemma WalkFullCycle()
    ensures Walk(255) == One
  {
    WalkLandmarks();
    assert Walk(99) == 0x86;
    assert Walk(113) == 0x1f;
    assert Walk(127) == 0xcc;
    assert Walk(141) == 0x15;
    assert Walk(155) == 0x72;
    assert Walk(169) == 0xe5;
    assert Walk(183) == 0xc4;
    assert Walk(197) == 0x8d;
    assert Walk(211) == 0xb2;
    assert Walk(225) == 0x24;
    assert Walk(239) == 0x16;
    assert Walk(253) == 0x47;
  }

  /** Once the walk is back at 1 after p steps, it repeats itself from there. */
  lemma {:induction false} WalkShift(p: nat, n: nat)
    requires Walk(p) == One
    ensures Walk(p + n) == Walk(n)
  {
    if n > 0 {
      WalkShift(p, n - 1);
    }
  }

  /** A return to 1 after p steps makes the walk periodic with period p. */
  lemma {:induction false} WalkMod(p: nat, n: nat)
    requires p > 0 && Walk(p) == One
    ensures Walk(n) == Walk(n % p)
    decreases n
  {
    if n >= p {
      WalkShift(p, n - p);
      WalkMod(p, n - p);
      ModSubtract(n, p);
    }
  }

  lemma ModSubtract(n: nat, p: nat)
    requires 0 < p <= n
    ensures (n - p) % p == n % p
  {
    assert n - p == (n / p - 1) * p + n % p;
    ModUnique(n - p, p, n / p - 1, n % p);
  }

  /** A return after p steps is also a return after any multiple of p steps. */
  lemma {:induction false} WalkMultiple(p: nat, m: nat)
    requires Walk(p) == One
    ensures Walk(p * m) == One
  {
    if m > 0 {
      WalkMultiple(p, m - 1);
      WalkShift(p, p * (m - 1));
      assert p + p * (m - 1) == p * m;
    }
  }

  /** The same, with the multiple given by divisibility. */
  lemma WalkAtMultiple(d: nat, n: nat)
    requires d > 0 && n % d == 0 && Walk(d) == One
    ensures Walk(n) == One
  {
    var m := n / d;
    assert n == d * m;
    WalkMultiple(d, m);
  }

  /** Euclid's greatest common divisor. */
  function Gcd(a: nat, b: nat): (g: nat)
    requires a > 0
    ensures 0 < g <= a
    ensures a % g == 0 && b % g == 0
    decreases b
  {
    if b == 0 then
      MultipleMod(a, 1);
      a
    else
      var g := Gcd(b, a % b);
      DividesSum(a, b, g);
      DivisorBound(a, g);
      g
  }

  /** If g divides b and a % b, then g divides a. */
  lemma DividesSum(a: nat, b: nat, g: nat)
    requires b > 0 && g > 0
    requires b % g == 0 && (a % b) % g == 0
    ensures a % g == 0
  {
    var s, t, q := b / g, (a % b) / g, a / b;
    assert b == s * g;
    assert a % b == t * g;
    assert a == q * b + a % b;
    assert a == (q * s + t) * g;
    ModUnique(a, g, q * s + t, 0);
  }

  lemma MultipleMod(g: nat, k: nat)
    requires g > 0
    ensures (g * k) % g == 0
  {
    ModUnique(g * k, g, k, 0);
  }

  /** A positive multiple of g is at least g. */
  lemma DivisorBound(a: nat, g: nat)
    requires a > 0 && g > 0 && a % g == 0
    ensures g <= a
  {
    if a < g {
      ModUnique(a, g, 0, a);
      assert false;
    }
  }

  /** Division with remainder has only one result. */
  lemma ModUnique(a: int, b: int, q: int, r: int)
    requires b > 0 && 0 <= r < b && a == q * b + r
    ensures a / b == q && a % b == r
  {
    var q0, r0 := a / b, a % b;
    assert (q - q0) * b == r0 - r;
    if q - q0 >= 1 {
      MulAtLeast(q - q0, b);
      assert false;
    } else if q0 - q >= 1 {
      MulAtLeast(q0 - q, b);
      assert false;
    }
  }

  lemma MulBound(a: nat, b: nat, c: nat, e: nat)
    requires a >= c && b >= e
    ensures a * b >= c * e
  {
  }

  lemma MulAtLeast(x: int, b: int)
    requires x >= 1 && b > 0
    ensures x * b >= b
  {
  }

  /** Returns to 1 after a and after b steps give a return after gcd(a, b) steps. */
  lemma {:induction false} WalkGcd(a: nat, b: nat)
    requires a > 0 && Walk(a) == One && Walk(b) == One
    ensures Walk(Gcd(a, b)) == One
    decreases b
  {
    if b > 0 {
      WalkMod(b, a);
      WalkGcd(b, a % b);
    }
  }

  /** Every proper divisor of 255 divides 85, 51 or 15. */
  lemma ProperDivisorOf255(d: nat)
    requires 1 <= d < 255 && 255 % d == 0
    ensures 85 % d == 0 || 51 % d == 0 || 15 % d == 0
  {
    if d > 17 {
      var q := 255 / d;
      assert 255 == q * d;
      LargeDivisorOf255(d, q);
    } else {
      assert d == 1 || d == 2 || d == 3 || d == 4 || d == 5 || d == 6 || d == 7 || d == 8 || d == 9
        || d == 10 || d == 11 || d == 12 || d == 13 || d == 14 || d == 15 || d == 16 || d == 17;
    }
  }

  /** A divisor of 255 between 18 and 254 has a cofactor below 15, which leaves 85 and 51. */
  lemma LargeDivisorOf255(d: nat, q: nat)
    requires 17 < d < 255 && 255 == q * d
    ensures d == 85 || d == 51
  {
    if q >= 15 {
      MulBound(q, d, 15, 18);
      assert false;
    }
    assert q == 0 || q == 1 || q == 2 || q == 3 || q == 4 || q == 5 || q == 6 || q == 7
      || q == 8 || q == 9 || q == 10 || q == 11 || q == 12 || q == 13 || q == 14;
  }

  /** A return at a proper divisor of 255 would already show at index 15, 51 or 85. */
  lemma DivisorHitsLandmark(d: nat)
    requires 1 <= d < 255 && 255 % d == 0 && Walk(d) == One
    ensures Walk(15) == One || Walk(51) == One || Walk(85) == One
  {
    ProperDivisorOf255(d);
    if 85 % d == 0 {
      WalkAtMultiple(d, 85);
    } else if 51 % d == 0 {
      WalkAtMultiple(d, 51);
    } else {
      WalkAtMultiple(d, 15);
    }
  }

  /** An early return to 1 would already show at index 15, 51 or 85. */
  lemma EarlyReturnHitsLandmark(k: nat)
    requires 0 < k < 255
    ensures Walk(k) == One ==> Walk(15) == One || Walk(51) == One || Walk(85) == One
  {
    if Walk(k) == One {
      WalkFullCycle();
      WalkGcd(255, k);
      var d := Gcd(255, k);
      DivisorBound(k, d);
      DivisorHitsLandmark(d);
    }
  }

  /** The walk does not come back to 1 before index 255. */
  lemma NoEarlyReturn(k: nat)
    requires 0 < k < 255
    ensures Walk(k) != One
  {
    EarlyReturnHitsLandmark(k);
    WalkLandmarks();
  }

  /** The walk is at 1 exactly at the multiples of 255: the order of x is 255. */
  lemma WalkReturnsIff(n: nat)
    ensures Walk(n) == One <==> n % 255 == 0
  {
    WalkFullCycle();
    WalkMod(255, n);
    if n % 255 != 0 {
      NoEarlyReturn(n % 255);
    }
  }

  /** The walk repeats with period 255. */
  lemma WalkPeriodic(n: nat)
    ensures Walk(n + 255) == Walk(n)
  {
    WalkFullCycle();
    WalkShift(255, n);
  }

  /** Equal values j - i steps apart mean a return to 1 after j - i steps. */
  lemma {:induction false} WalkCancel(i: nat, j: nat)
    requires i <= j
    ensures Walk(i) == Walk(j) ==> Walk(j - i) == One
  {
    if i > 0 {
      XTimeInjective(Walk(i - 1), Walk(j - 1));
      WalkCancel(i - 1, j - 1);
    }
  }

  /** Two indices give the same element exactly when they agree modulo 255. */
  lemma WalkEqualIff(i: nat, j: nat)
    ensures Walk(i) == Walk(j) <==> i % 255 == j % 255
  {
    WalkFullCycle();
    WalkMod(255, i);
    WalkMod(255, j);
    var a, b := i % 255, j % 255;
    if a < b {
      WalkCancel(a, b);
      NoEarlyReturn(b - a);
    } else if b < a {
      WalkCancel(b, a);
      NoEarlyReturn(a - b);
    }
  }

  /** Indices 0..254 hold 255 pairwise distinct nonzero elements. */
  lemma WalkDistinct(i: nat, j: nat)
    requires i < j < 255
    ensures Walk(i) != Walk(j)
    ensures Walk(i) != 0
  {
    WalkEqualIff(i, j);
  }
}
