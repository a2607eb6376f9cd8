/**
  What the step means algebraically. A byte b7..b0 stands for the polynomial
  b7*x^7 + ... + b0 over GF(2), and the comment on the reduction constant
  names the modulus x^8 + x^4 + x^3 + x^2 + 1. Here polynomials over GF(2)
  get a definition of their own (coefficient lists, addition, multiplication
  by x, remainder by long division), and the step and the walk are shown to
  agree with it: the step multiplies by x modulo the modulus, so index n of
  the walk is x^n modulo the modulus.
 */
module Gf2Poly {
  import opened GfStep

  /**
    A polynomial over GF(2) as its coefficient list: index i holds the
    coefficient of x^i. Extra false entries at the end are allowed.
   */
  type Polynomial = seq<bool>

  /** The zero polynomial written with k coefficients. */
  function Zeros(k: nat): (z: Polynomial)
    ensures |z| == k
    ensures forall i | 0 <= i < k :: !z[i]
  {
    seq(k, i => false)
  }

  /** Addition over GF(2): coefficients add modulo 2. */
  function Plus(p: Polynomial, q: Polynomial): (r: Polynomial)
    requires |p| == |q|
  {
    seq(|p|, i requires 0 <= i < |p| => p[i] != q[i])
  }

  /** Multiplication by x: every coefficient moves up one degree. */
  function TimesX(p: Polynomial): (r: Polynomial)
  {
    [false] + p
  }

  /** The monomial x^n. */
  function Monomial(n: nat): (r: Polynomial)
  {
    Zeros(n) + [true]
  }

  /** A modulus: degree at least 1 and leading coefficient 1. */
  predicate IsMonic(m: Polynomial)
  {
    |m| >= 2 && m[|m| - 1]
  }

  /**
    The remainder of p divided by m, by long division: while p reaches the
    degree of m, cancel its top coefficient with a shifted copy of m. The
    result is written with exactly deg(m) coefficients.
   */
  function Rem(p: Polynomial, m: Polynomial): (r: Polynomial)
    requires IsMonic(m)
    ensures |r| == |m| - 1
    decreases |p|
  {
    if |p| < |m| then p + Zeros(|m| - 1 - |p|)
    else Rem(CancelTop(p, m), m)
  }

  /**
    One step of long division: when the top coefficient of p is 1, add m
    shifted up to the same degree, which clears it; then drop that coefficient.
   */
  function CancelTop(p: Polynomial, m: Polynomial): (r: Polynomial)
    requires IsMonic(m) && |p| >= |m|
    ensures |r| == |p| - 1
  {
    var top := |p| - 1;
    var q := if p[top] then Plus(p, Zeros(|p| - |m|) + m) else p;
    q[..top]
  }

  /** x^8 + x^4 + x^3 + x^2 + 1, the modulus the comment on the constant gives. */
  const Modulus: Polynomial := [true, false, true, true, true, false, false, false, true]

  /** The byte with only bit i set, 1 << i. */
  function Mask(i: nat): (m: Byte)
    requires i < 8
  {
    match i
    case 0 => 0x01 case 1 => 0x02 case 2 => 0x04 case 3 => 0x08
    case 4 => 0x10 case 5 => 0x20 case 6 => 0x40 case _ => 0x80
  }

  /** Bit i of a byte. */
  function Bit(b: Byte, i: nat): bool
    requires i < 8
  {
    b & Mask(i) != 0
  }

  /** The polynomial a byte stands for: bit i is the coefficient of x^i. */
  function Coeffs(b: Byte): (p: Polynomial)
    ensures |p| == 8
  {
    seq(8, i requires 0 <= i < 8 => Bit(b, i))
  }

  /** Different bytes stand for different polynomials. */
  lemma CoeffsInjective(a: Byte, b: Byte)
    requires Coeffs(a) == Coeffs(b)
    ensures a == b
  {
    forall i | 0 <= i < 8
      ensures Bit(a, i) == Bit(b, i)
    {
      assert Coeffs(a)[i] == Coeffs(b)[i];
    }
    assert Bit(a, 0) == Bit(b, 0) && Bit(a, 1) == Bit(b, 1);
    assert Bit(a, 2) == Bit(b, 2) && Bit(a, 3) == Bit(b, 3);
    assert Bit(a, 4) == Bit(b, 4) && Bit(a, 5) == Bit(b, 5);
    assert Bit(a, 6) == Bit(b, 6) && Bit(a, 7) == Bit(b, 7);
  }

  /** The reduction constant 0x1d is the modulus with its x^8 term left out. */
  lemma ModulusLowByte()
    ensures IsMonic(Modulus)
    ensures Coeffs(Poly) + [true] == Modulus
  {
  }

  /** Bit i of an XOR is the sum modulo 2 of the bits. */
  lemma BitXor(x: Byte, y: Byte, i: nat)
    requires i < 8
    ensures Bit(x ^ y, i) == (Bit(x, i) != Bit(y, i))
  {
    var m := Mask(i);
    assert m == 1 || m == 2 || m == 4 || m == 8 || m == 16 || m == 32 || m == 64 || m == 128;
    assert (x ^ y) & m == (x & m) ^ (y & m);
  }

  /** Doubling moves every bit up one place and brings in a 0. */
  lemma BitDouble(x: Byte, i: nat)
    requires i < 8
    ensures Bit(2 * x, i) == (i > 0 && Bit(x, i - 1))
  {
  }

  /** Bit i after one step: the bit below moves up, and a reduction adds coefficient i of the modulus. */
  lemma XTimeBit(b: Byte, i: nat)
    requires i < 8
    ensures Bit(XTime(b), i) == ((i > 0 && Bit(b, i - 1)) != (Bit(b, 7) && Modulus[i]))
  {
    BitDouble(b, i);
    if Bit(b, 7) {
      BitXor(2 * b, Poly, i);
      ModulusLowByte();
      assert Coeffs(Poly)[i] == Modulus[i];
    }
  }

  /** One step of the script multiplies by x modulo x^8 + x^4 + x^3 + x^2 + 1. */
  lemma XTimeIsTimesXRem(b: Byte)
    ensures Coeffs(XTime(b)) == Rem(TimesX(Coeffs(b)), Modulus)
  {
    var c := TimesX(Coeffs(b));
    var r := CancelTop(c, Modulus);
    assert Rem(c, Modulus) == r + Zeros(0);
    assert r + Zeros(0) == r;
    forall i | 0 <= i < 8
      ensures Coeffs(XTime(b))[i] == r[i]
    {
      XTimeBit(b, i);
    }
  }

  /** The modulus shifted up k + 1 places is the modulus shifted k places, times x. */
  lemma ShiftedTimesX(m: Polynomial, k: nat)
    ensures Zeros(k + 1) + m == TimesX(Zeros(k) + m)
  {
    assert Zeros(k + 1) == [false] + Zeros(k);
  }

  /** Multiplication by x distributes over addition. */
  lemma PlusTimesX(p: Polynomial, q: Polynomial)
    requires |p| == |q|
    ensures Plus(TimesX(p), TimesX(q)) == TimesX(Plus(p, q))
  {
  }

  /** Trailing zero coefficients do not change the remainder. */
  lemma {:induction false} RemPadded(p: Polynomial, k: nat, m: Polynomial)
    requires IsMonic(m)
    ensures Rem(p + Zeros(k), m) == Rem(p, m)
  {
    if k > 0 {
      var s := p + Zeros(k);
      if |s| < |m| {
        assert s + Zeros(|m| - 1 - |s|) == p + Zeros(|m| - 1 - |p|);
      } else {
        assert !s[|s| - 1];
        assert CancelTop(s, m) == p + Zeros(k - 1);
        RemPadded(p, k - 1, m);
      }
    } else {
      assert p + Zeros(0) == p;
    }
  }

  /** A division step commutes with multiplication by x. */
  lemma CancelTopTimesX(p: Polynomial, m: Polynomial)
    requires IsMonic(m) && |p| >= |m|
    ensures CancelTop(TimesX(p), m) == TimesX(CancelTop(p, m))
  {
    var c, k := TimesX(p), |p| - |m|;
    assert c[|c| - 1] == p[|p| - 1];
    var q := if p[|p| - 1] then Plus(p, Zeros(k) + m) else p;
    var qc := if c[|c| - 1] then Plus(c, Zeros(k + 1) + m) else c;
    if p[|p| - 1] {
      ShiftedTimesX(m, k);
      PlusTimesX(p, Zeros(k) + m);
    }
    assert qc == TimesX(q);
    assert TimesX(q)[..|p|] == TimesX(q[..|p| - 1]);
  }

  /** Reducing before multiplying by x gives the same remainder as reducing after. */
  lemma {:induction false} RemTimesX(p: Polynomial, m: Polynomial)
    requires IsMonic(m)
    ensures Rem(TimesX(Rem(p, m)), m) == Rem(TimesX(p), m)
    decreases |p|
  {
    if |p| < |m| {
      var k := |m| - 1 - |p|;
      assert TimesX(Rem(p, m)) == TimesX(p) + Zeros(k);
      RemPadded(TimesX(p), k, m);
    } else {
      CancelTopTimesX(p, m);
      RemTimesX(CancelTop(p, m), m);
    }
  }

  /** The identity is the constant polynomial 1. */
  lemma CoeffsOne()
    ensures Coeffs(One) == Rem(Monomial(0), Modulus)
  {
    assert Coeffs(One) == [true] + Zeros(7);
  }

  /** The walk computes powers of x: index n holds x^n modulo x^8 + x^4 + x^3 + x^2 + 1. */
  lemma {:induction false} WalkIsPowerOfX(n: nat)
    ensures Coeffs(Walk(n)) == Rem(Monomial(n), Modulus)
  {
    if n == 0 {
      CoeffsOne();
    } else {
      WalkIsPowerOfX(n - 1);
      XTimeIsTimesXRem(Walk(n - 1));
      RemTimesX(Monomial(n - 1), Modulus);
      assert TimesX(Monomial(n - 1)) == Monomial(n);
    }
  }
}
