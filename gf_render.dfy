/**
  The text of one printed line, "%3d: %s (%02x)" applied to the index, the
  binary digits of `GF` padded with zeros to eight places, and `GF` in
  lower-case hexadecimal padded with zeros to two places. The digit strings
  are built the way Python builds them (the shortest digit string, then
  padding on the left) and are shown to decode back to the numbers.
 */
module GfRender {
  import opened GfStep

  /** The digit for d, lower case above 9 as `%x` prints it. */
  function DigitChar(d: nat): (c: char)
    requires d < 16
  {
    if d < 10 then ('0' as int + d) as char else ('a' as int + d - 10) as char
  }

  /** The value of a digit character; 16 for a character that is no digit. */
  function DigitValue(c: char): (d: nat)
    ensures d <= 16
  {
    if '0' <= c <= '9' then c as int - '0' as int
    else if 'a' <= c <= 'f' then c as int - 'a' as int + 10
    else 16
  }

  /** Every character of s is a digit of the given base. */
  predicate AllDigits(s: string, base: nat)
  {
    forall k | 0 <= k < |s| :: DigitValue(s[k]) < base
  }

  /** The shortest digit string of n, most significant digit first ("0" for 0). */
  function Digits(n: nat, base: nat): (s: string)
    requires 2 <= base <= 16
    ensures |s| >= 1
    decreases n
  {
    if n < base then [DigitChar(n)]
    else Digits(n / base, base) + [DigitChar(n % base)]
  }

  /** The number a digit string denotes, most significant digit first. */
  function ValueOf(s: string, base: nat): nat
  {
    if s == [] then 0 else ValueOf(s[..|s| - 1], base) * base + DigitValue(s[|s| - 1])
  }

  /** k copies of c. */
  function Repeat(c: char, k: nat): (s: string)
    ensures |s| == k
    ensures forall j | 0 <= j < k :: s[j] == c
  {
    seq(k, j => c)
  }

  /** s padded on the left with fill up to width characters; a longer s is left as it is. */
  function PadLeft(s: string, width: nat, fill: char): (r: string)
    ensures |r| == if |s| >= width then |s| else width
  {
    if |s| >= width then s else Repeat(fill, width - |s|) + s
  }

  /** s without its leading fill characters. */
  function DropLeading(s: string, fill: char): (r: string)
    decreases |s|
  {
    if s != [] && s[0] == fill then DropLeading(s[1..], fill) else s
  }

  /** `bin(GF)[2:].zfill(8)`: the binary digits of g, zero-padded to eight. */
  function Binary(g: Byte): string
  {
    PadLeft(Digits(g as int, 2), 8, '0')
  }

  /** `%02x`: g in lower-case hexadecimal, zero-padded to two digits. */
  function Hex(g: Byte): string
  {
    PadLeft(Digits(g as int, 16), 2, '0')
  }

  /** `%3d`: i in decimal, right-aligned in three columns. */
  function Decimal(i: nat): string
  {
    PadLeft(Digits(i, 10), 3, ' ')
  }

  /** The line the script prints for index i when `GF` is g. */
  function Line(i: nat, g: Byte): string
  {
    Decimal(i) + ": " + Binary(g) + " (" + Hex(g) + ")"
  }

  lemma DigitRoundTrip(d: nat)
    requires d < 16
    ensures DigitValue(DigitChar(d)) == d
  {
  }

  /** The digit string of n is made of digits of the base and denotes n. */
  lemma DigitsRoundTrip(n: nat, base: nat)
    requires 2 <= base <= 16
    ensures AllDigits(Digits(n, base), base)
    ensures ValueOf(Digits(n, base), base) == n
  {
    DigitsAreDigits(n, base);
    DigitsValue(n, base);
  }

  lemma {:induction false} DigitsAreDigits(n: nat, base: nat)
    requires 2 <= base <= 16
    ensures AllDigits(Digits(n, base), base)
    decreases n
  {
    if n < base {
      DigitRoundTrip(n);
    } else {
      var q, r := DivMod(n, base);
      DigitsAreDigits(q, base);
      DigitRoundTrip(r);
      var s := Digits(q, base);
      assert Digits(n, base) == s + [DigitChar(r)];
    }
  }

  lemma {:induction false} DigitsValue(n: nat, base: nat)
    requires 2 <= base <= 16
    ensures ValueOf(Digits(n, base), base) == n
    decreases n
  {
    if n < base {
      DigitRoundTrip(n);
      ValueOfAppend([], DigitChar(n), base);
    } else {
      var q, r := DivMod(n, base);
      DigitsValue(q, base);
      DigitRoundTrip(r);
      ValueOfAppend(Digits(q, base), DigitChar(r), base);
    }
  }

  /** Quotient and remainder of n by the base, named, with the facts the digit lemmas use. */
  lemma DivMod(n: nat, base: nat) returns (q: nat, r: nat)
    requires 2 <= base
    ensures q == n / base && r == n % base
    ensures n == q * base + r && r < base
    ensures n >= base ==> q < n
  {
    q, r := n / base, n % base;
  }

  /** Appending a digit multiplies by the base and adds the digit. */
  lemma ValueOfAppend(s: string, c: char, base: nat)
    ensures ValueOf(s + [c], base) == ValueOf(s, base) * base + DigitValue(c)
  {
    assert (s + [c])[..|s|] == s;
  }

  /** The base to the power w. */
  function Power(base: nat, w: nat): (r: nat)
    ensures base >= 1 ==> r >= 1
  {
    if w == 0 then 1 else base * Power(base, w - 1)
  }

  /** A number below base^w has at most w digits. */
  lemma {:induction false} DigitsLength(n: nat, base: nat, w: nat)
    requires 2 <= base <= 16 && w >= 1 && n < Power(base, w)
    ensures |Digits(n, base)| <= w
  {
    if n >= base {
      var q, r := DivMod(n, base);
      var p := Power(base, w - 1);
      assert Power(base, w) == base * p;
      if w == 1 {
        assert false;
      }
      if q >= p {
        MulMonotone(base, q, p);
        assert false;
      }
      DigitsLength(q, base, w - 1);
    }
  }

  lemma MulMonotone(b: nat, x: nat, y: nat)
    requires x >= y
    ensures b * x >= b * y
  {
  }

  /** Leading zeros do not change the number a digit string denotes. */
  lemma {:induction false} ZerosInFront(k: nat, s: string, base: nat)
    ensures ValueOf(Repeat('0', k) + s, base) == ValueOf(s, base)
    decreases |s|
  {
    var z := Repeat('0', k);
    if s == [] {
      assert z + s == z;
      AllZeros(k, base);
    } else {
      assert (z + s)[..|z + s| - 1] == z + s[..|s| - 1];
      ZerosInFront(k, s[..|s| - 1], base);
    }
  }

  lemma {:induction false} AllZeros(k: nat, base: nat)
    ensures ValueOf(Repeat('0', k), base) == 0
  {
    if k > 0 {
      assert Repeat('0', k)[..k - 1] == Repeat('0', k - 1);
      AllZeros(k - 1, base);
    }
  }

  /** Padding with zeros keeps a digit string a digit string of the same number. */
  lemma ZeroPadRoundTrip(s: string, width: nat, base: nat)
    requires base >= 1 && AllDigits(s, base)
    ensures AllDigits(PadLeft(s, width, '0'), base)
    ensures ValueOf(PadLeft(s, width, '0'), base) == ValueOf(s, base)
  {
    if |s| < width {
      ZerosInFront(width - |s|, s, base);
    }
  }

  /** Padding with spaces is undone by dropping the leading spaces. */
  lemma {:induction false} SpacePadRoundTrip(s: string, width: nat)
    requires s != [] && s[0] != ' '
    ensures DropLeading(PadLeft(s, width, ' '), ' ') == s
    decreases width
  {
    if |s| < width {
      var r := PadLeft(s, width, ' ');
      assert r[1..] == PadLeft(s, width - 1, ' ');
      SpacePadRoundTrip(s, width - 1);
    }
  }

  /** The binary field: exactly eight binary digits, most significant first, denoting g. */
  lemma BinaryRoundTrip(g: Byte)
    ensures |Binary(g)| == 8
    ensures AllDigits(Binary(g), 2)
    ensures ValueOf(Binary(g), 2) == g as int
  {
    assert Power(2, 8) == 256;
    DigitsLength(g as int, 2, 8);
    DigitsRoundTrip(g as int, 2);
    ZeroPadRoundTrip(Digits(g as int, 2), 8, 2);
  }

  /** The hexadecimal field: exactly two lower-case hexadecimal digits denoting g. */
  lemma HexRoundTrip(g: Byte)
    ensures |Hex(g)| == 2
    ensures AllDigits(Hex(g), 16)
    ensures forall k | 0 <= k < 2 :: '0' <= Hex(g)[k] <= '9' || 'a' <= Hex(g)[k] <= 'f'
    ensures ValueOf(Hex(g), 16) == g as int
  {
    assert Power(16, 2) == 256;
    DigitsLength(g as int, 16, 2);
    DigitsRoundTrip(g as int, 16);
    ZeroPadRoundTrip(Digits(g as int, 16), 2, 16);
  }

  /** The index field: three columns for an index below 1000, denoting i once the padding is dropped. */
  lemma DecimalRoundTrip(i: nat)
    requires i < 1000
    ensures |Decimal(i)| == 3
    ensures AllDigits(DropLeading(Decimal(i), ' '), 10)
    ensures ValueOf(DropLeading(Decimal(i), ' '), 10) == i
  {
    assert Power(10, 3) == 1000;
    DigitsLength(i, 10, 3);
    DigitsRoundTrip(i, 10);
    SpacePadRoundTrip(Digits(i, 10), 3);
  }

  /** A step of `LineLayout`: the three fields have the fixed widths 3, 8 and 2. */
  lemma FieldWidths(i: nat, g: Byte)
    requires i < 1000
    ensures |Decimal(i)| == 3 && |Binary(g)| == 8 && |Hex(g)| == 2
  {
    assert Power(10, 3) == 1000;
    assert Power(2, 8) == 256;
    assert Power(16, 2) == 256;
    DigitsLength(i, 10, 3);
    DigitsLength(g as int, 2, 8);
    DigitsLength(g as int, 16, 2);
  }

  /** The pieces of a concatenation of six strings, cut out again at their offsets. */
  lemma Pieces(a: string, b: string, c: string, d: string, e: string, f: string)
    ensures var l, x, y, z, u := a + b + c + d + e + f, |a|, |a| + |b|, |a| + |b| + |c|, |a| + |b| + |c| + |d|;
      |l| == u + |e| + |f| && l[..x] == a && l[x..y] == b && l[y..z] == c && l[z..u] == d
      && l[u..u + |e|] == e && l[u + |e|..] == f
  {
    var l, x, y, z, u := a + b + c + d + e + f, |a|, |a| + |b|, |a| + |b| + |c|, |a| + |b| + |c| + |d|;
    assert l == (a + b + c + d) + (e + f);
    assert l[..u] == a + b + c + d && l[u..] == e + f;
    assert (a + b + c + d)[..z] == a + b + c;
    assert (a + b + c)[..y] == a + b;
  }

  /** A step of `LineLayout`: each field and separator cut out of a line at its offset. */
  lemma LineFields(i: nat, g: Byte)
    requires i < 1000
    ensures |Line(i, g)| == 18
    ensures Line(i, g)[..3] == Decimal(i) && Line(i, g)[3..5] == ": "
    ensures Line(i, g)[5..13] == Binary(g) && Line(i, g)[13..15] == " ("
    ensures Line(i, g)[15..17] == Hex(g) && Line(i, g)[17] == ')'
  {
    FieldWidths(i, g);
    Pieces(Decimal(i), ": ", Binary(g), " (", Hex(g), ")");
  }

  /**
    The layout of a printed line: 18 characters, the index in columns 0..2,
    ": ", the binary field in columns 5..12, " (", the hexadecimal field in
    columns 15..16 and ")". Each field is made of digits of its base and
    decodes to the index or the element the line was printed from.
   */
  lemma LineLayout(i: nat, g: Byte)
    requires i < 1000
    ensures |Line(i, g)| == 18
    ensures Line(i, g)[..3] == Decimal(i) && Line(i, g)[5..13] == Binary(g) && Line(i, g)[15..17] == Hex(g)
    ensures Line(i, g)[3..5] == ": " && Line(i, g)[13..15] == " (" && Line(i, g)[17] == ')'
    ensures AllDigits(DropLeading(Line(i, g)[..3], ' '), 10)
    ensures ValueOf(DropLeading(Line(i, g)[..3], ' '), 10) == i
    ensures AllDigits(Line(i, g)[5..13], 2) && ValueOf(Line(i, g)[5..13], 2) == g as int
    ensures AllDigits(Line(i, g)[15..17], 16) && ValueOf(Line(i, g)[15..17], 16) == g as int
  {
    LineFields(i, g);
    DecimalRoundTrip(i);
    BinaryRoundTrip(g);
    HexRoundTrip(g);
  }

  /** Lines that show different values differ in their binary fields. */
  lemma BinaryFieldInjective(i: nat, a: Byte, j: nat, b: Byte)
    requires i < 1000 && j < 1000
    ensures Line(i, a)[5..13] == Line(j, b)[5..13] ==> a == b
  {
    LineLayout(i, a);
    LineLayout(j, b);
  }
}
