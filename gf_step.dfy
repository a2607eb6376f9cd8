/**
  The "multiply by x" step of GF(2^8) and the walk it generates from 1.

  A field element is an 8-bit pattern b7..b0, read as the polynomial
  b7*x^7 + ... + b1*x + b0 over GF(2). The script starts from 1 and applies
  the step over and over: shift left one bit and, when bit 7 was set, fold
  the overflowing x^8 back in by XOR with the low byte of the primitive
  polynomial x^8 + x^4 + x^3 + x^2 + 1.
 */
module GfStep {

  /** A field element: the script's `GF` after masking to 8 bits. */
  type Byte = bv8

  /** The reduction constant: x^8 + x^4 + x^3 + x^2 + 1 with its x^8 term dropped. */
  const Poly: Byte := 0x1d

  /** The value the walk starts from, the multiplicative identity. */
  const One: Byte := 1

  /** The number of loop iterations, and so of printed lines. */
  const Rounds: nat := 256

  /**
    One loop iteration's update of `GF`. Python's `GF << 1` is an unbounded
    integer of at most nine bits, held here in a 16-bit vector; the `& 0xff`
    mask is what makes the narrowing cast back to a byte well defined.
   */
  function XTime(g: Byte): (r: Byte)
    // bit 7 clear: a plain doubling, no reduction
    ensures g & 0x80 == 0 ==> r == 2 * g
    // bit 7 set: doubling modulo 256, then XOR with the reduction constant
    ensures g & 0x80 != 0 ==> r == (2 * g) ^ Poly
    // the low bit of the result records whether a reduction happened
    ensures r & 1 == 1 <==> g & 0x80 != 0
    // a nonzero element never steps to zero
    ensures g != 0 ==> r != 0
  {
    var wide := (g as bv16) << 1;
    if g & 0x80 != 0 then ((wide ^ Poly as bv16) & 0xff) as Byte
    else (wide & 0xff) as Byte
  }

  /** Without reduction the step is exactly integer doubling. */
  lemma XTimeDoubles(g: Byte)
    requires g as int < 128
    ensures XTime(g) as int == 2 * (g as int)
  {
  }

  /** The step loses no information: distinct elements step to distinct elements. */
  lemma XTimeInjective(a: Byte, b: Byte)
    ensures XTime(a) == XTime(b) ==> a == b
  {
  }

  /** 2^k as an integer. */
  function Pow2(k: nat): (r: nat)
    ensures r > 0
  {
    if k == 0 then 1 else 2 * Pow2(k - 1)
  }

  lemma {:induction false} Pow2Below(k: nat)
    requires k < 7
    ensures Pow2(k) <= 64
    decreases 6 - k
  {
    if k < 6 {
      Pow2Below(k + 1);
    } else {
      assert Pow2(6) == 64;
    }
  }

  /**
    The value `GF` holds at the start of iteration n (counting from 0),
    that is, after n updates from the initial 1.
   */
  function Walk(n: nat): (r: Byte)
    ensures r != 0
  {
    if n == 0 then One else XTime(Walk(n - 1))
  }

  /** Before the first reduction the walk runs through the powers of two 1, 2, ..., 128. */
  lemma {:induction false} WalkPowersOfTwo(k: nat)
    requires k < 8
    ensures Walk(k) as int == Pow2(k)
  {
    if k > 0 {
      WalkPowersOfTwo(k - 1);
      Pow2Below(k - 1);
      XTimeDoubles(Walk(k - 1));
    }
  }

  /** Index 8 is the first reduction: 128 overflows and folds back to 0x1d. */
  lemma WalkFirstReduction()
    ensures Walk(7) == 0x80
    ensures Walk(8) == Poly
  {
  }
}
