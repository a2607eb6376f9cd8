# GF(2^8) generator walk

`verilog/reed_solomon/gf.py` lists the 256 powers of the generator x in the
Galois field GF(2^8) built on the primitive polynomial x^8 + x^4 + x^3 + x^2 + 1.
It holds the current element in `GF`, which starts at 1. For each index
0..255 it prints one line: the index, the element as eight binary digits, and
the element as two hexadecimal digits. It then multiplies `GF` by x. That is
a left shift by one bit, then XOR with the reduction constant `poly = 0x1d`
when bit 7 was set, then a mask to eight bits.

The model has five modules:

- `GfStep` (`gf_step.dfy`) defines the element type, the constants and the step `XTime`. It also defines `Walk(n)`, the value of `GF` at the start of iteration n.
- `Gf2Poly` (`gf_poly.dfy`) defines polynomials over GF(2) independently of the script: coefficient lists, addition, multiplication by x, and remainder by long division. It proves that the step is multiplication by x modulo x^8 + x^4 + x^3 + x^2 + 1, so `Walk(n)` is x^n modulo that polynomial.
- `GfOrder` (`gf_order.dfy`) proves that x has order 255:
  - the walk is at 1 exactly at the multiples of 255;
  - indices 0..254 hold 255 distinct nonzero elements;
  - index 255, the last line printed, is 1 again.

  The proof combines a gcd argument with the walk's values at a few checkpoints.
- `GfRender` (`gf_render.dfy`) models the three format fields of `"%3d: %s (%02x)"`. Each field is a shortest digit string plus padding on the left, which is how Python builds `bin(GF)[2:].zfill(8)`, `%02x` and `%3d`. Every field is proved to have a fixed width and to decode back to the number it shows.
- `GfScript` (`gf_script.dfy`) is the loop itself. It is an imperative method with a mutable `GF` whose loop invariant ties `GF` to `Walk(i)`. It returns the printed lines in order and the final value of `GF`.

Python's `GF` is an unbounded integer, but every assignment to it masks with
`0xff` and it starts at 1, so it is always one byte. The model holds it as
`bv8`. The shifted value `GF << 1` needs nine bits and is computed in a
16-bit vector before the mask.

The first reduction happens at index 8: index 7 is 0x80, and doubling it
overflows to 0x1d. This is `GfStep.WalkFirstReduction`.

## Model

| member | source | states |
|---|---|---|
| GfStep.XTime | verilog/reed_solomon/gf.py:8-11 | with bit 7 clear the result is the doubled byte; with bit 7 set it is the doubled byte (mod 256) XOR 0x1d; the result's low bit is set exactly when a reduction happened; a nonzero element never steps to 0 |
| GfStep.XTimeDoubles | verilog/reed_solomon/gf.py:8-11 | below 128 the step is integer doubling, with no reduction |
| GfStep.XTimeInjective | verilog/reed_solomon/gf.py:8-11 | distinct elements step to distinct elements |
| GfStep.Walk | verilog/reed_solomon/gf.py:3-11 | the value of `GF` at the start of iteration n is never 0 |
| GfStep.WalkPowersOfTwo | verilog/reed_solomon/gf.py:3-11 | indices 0..7 hold 1, 2, 4, ..., 128 |
| GfStep.WalkFirstReduction | verilog/reed_solomon/gf.py:4-11 | index 7 is 0x80 and index 8 is 0x1d, the first reduction |
| Gf2Poly.ModulusLowByte | verilog/reed_solomon/gf.py:4 | 0x1d is x^8 + x^4 + x^3 + x^2 + 1 with the x^8 term dropped, and that polynomial is monic of degree 8 |
| Gf2Poly.XTimeIsTimesXRem | verilog/reed_solomon/gf.py:8-11 | the polynomial of the stepped byte is x times the byte's polynomial, reduced modulo x^8 + x^4 + x^3 + x^2 + 1 |
| Gf2Poly.WalkIsPowerOfX | verilog/reed_solomon/gf.py:3-11 | the polynomial at index n of the walk is x^n modulo x^8 + x^4 + x^3 + x^2 + 1 |
| GfOrder.WalkLandmarks | verilog/reed_solomon/gf.py:3-11 | the walk at indices 15, 51 and 85 is 0x26, 0x0a and 0xd6, none of them 1 |
| GfOrder.WalkFullCycle | verilog/reed_solomon/gf.py:3-11 | after 255 steps the walk is back at 1 |
| GfOrder.WalkMod | verilog/reed_solomon/gf.py:6-11 | a return to 1 after p > 0 steps makes the walk periodic with period p |
| GfOrder.WalkGcd | verilog/reed_solomon/gf.py:6-11 | returns to 1 after a and after b steps give a return after gcd(a, b) steps |
| GfOrder.NoEarlyReturn | verilog/reed_solomon/gf.py:3-11 | the walk is not at 1 at any index 1..254 |
| GfOrder.WalkReturnsIff | verilog/reed_solomon/gf.py:3-11 | the walk is at 1 if and only if the index is a multiple of 255, so x has order 255 |
| GfOrder.WalkPeriodic | verilog/reed_solomon/gf.py:6-11 | the walk repeats with period 255 |
| GfOrder.WalkEqualIff | verilog/reed_solomon/gf.py:6-11 | two indices give the same element if and only if they agree modulo 255 |
| GfOrder.WalkDistinct | verilog/reed_solomon/gf.py:6-11 | indices 0..254 hold pairwise distinct nonzero elements |
| GfRender.Digits | verilog/reed_solomon/gf.py:7 | the shortest digit string of n, most significant digit first, as `bin` and `%x` build it, never empty; its meaning (digits of the base, denoting n, at most w digits below base^w) is given by DigitsRoundTrip and DigitsLength |
| GfRender.PadLeft | verilog/reed_solomon/gf.py:7 | padding on the left up to a field width, as `zfill(8)`, `%02x` and `%3d` do; the result has the field width or the string's own length if longer; ZeroPadRoundTrip and SpacePadRoundTrip give its meaning |
| GfRender.Binary | verilog/reed_solomon/gf.py:7 | `bin(GF)[2:].zfill(8)`: exactly eight binary digits, most significant first, denoting the element; see BinaryRoundTrip |
| GfRender.Hex | verilog/reed_solomon/gf.py:7 | `%02x`: exactly two lower-case hexadecimal digits denoting the element; see HexRoundTrip |
| GfRender.Decimal | verilog/reed_solomon/gf.py:7 | `%3d`: the index right-aligned in three columns; see DecimalRoundTrip |
| GfRender.Line | verilog/reed_solomon/gf.py:7 | the line `"%3d: %s (%02x)" % (i, bin(GF)[2:].zfill(8), GF)` prints; its layout and the decoding of its fields are given by LineLayout |
| GfRender.DigitsRoundTrip | verilog/reed_solomon/gf.py:7 | the shortest digit string of n in base 2..16 consists of digits of the base and denotes n |
| GfRender.DigitsLength | verilog/reed_solomon/gf.py:7 | a number below base^w has at most w digits |
| GfRender.ZeroPadRoundTrip | verilog/reed_solomon/gf.py:7 | zero padding on the left keeps a digit string's digits and its value |
| GfRender.SpacePadRoundTrip | verilog/reed_solomon/gf.py:7 | dropping the leading spaces undoes space padding |
| GfRender.BinaryRoundTrip | verilog/reed_solomon/gf.py:7 | `bin(GF)[2:].zfill(8)` is exactly eight binary digits, most significant first, denoting the element |
| GfRender.HexRoundTrip | verilog/reed_solomon/gf.py:7 | `%02x` is exactly two lower-case hexadecimal digits denoting the element |
| GfRender.DecimalRoundTrip | verilog/reed_solomon/gf.py:7 | `%3d` of an index below 1000 is three columns which, once the padding is dropped, are decimal digits that denote the index |
| GfRender.LineLayout | verilog/reed_solomon/gf.py:7 | a line is 18 characters: the index field in columns 0..2, ": ", the binary field in columns 5..12, " (", the hexadecimal field in columns 15..16 and ")"; each field is made of digits of its base and decodes to the index or to the element the line was printed from |
| GfRender.BinaryFieldInjective | verilog/reed_solomon/gf.py:7 | lines with equal binary fields were printed from equal elements |
| GfScript.Transcript | verilog/reed_solomon/gf.py:6-7 | the printed output is 256 lines, line i showing index i and the walk at i |
| GfScript.Update | verilog/reed_solomon/gf.py:8-11 | the if statement on `GF & 0x80`, with its two masked branches, written as statements, computes the step `XTime` |
| GfScript.Run | verilog/reed_solomon/gf.py:3-11 | the loop prints exactly the transcript: 256 lines in ascending index order, line i showing the value `GF` held before the i-th update; `GF` ends at the walk's value 256 steps on |
| GfScript.TranscriptLines | verilog/reed_solomon/gf.py:6-7 | printed line i is LineLayout applied to index i and the walk at i: 18 characters whose fields decode to i and to the value `GF` held at iteration i |
| GfScript.TranscriptDistinct | verilog/reed_solomon/gf.py:6-11 | lines 0..254 all show different elements |
| GfScript.TranscriptWrapsAround | verilog/reed_solomon/gf.py:6-11 | line 255 shows the same element as line 0, namely 1 |
| GfScript.FinalValue | verilog/reed_solomon/gf.py:6-11 | after the loop `GF` is 2 |

## Left out

- Printing: `print` and standard output are not modelled. The printed lines are the sequence `Run` returns.
- Python's `bin`, `zfill` and `%` formatting are modelled only as digit strings with padding on the left, and only for the non-negative values the script formats.
- GfRender.DecimalRoundTrip: requires an index below 1000, where `%3d` fits in three columns; the script's indices stop at 255.
- `GF` is held as a byte rather than as Python's unbounded integer. This loses nothing, because it starts at 1 and every assignment masks with `0xff`.
- That the walk reaches every nonzero byte is not stated. It follows from `WalkDistinct` by counting: 255 distinct nonzero bytes are all of them. Cardinalities of sets of bytes are not modelled.
- Logarithm and antilogarithm tables, multiplication, division, inverses, checks that the polynomial is primitive, and Reed-Solomon encoding and decoding are not part of `gf.py`. They are not modelled.
- The Verilog sources of the enclosing directory are not part of this model.
