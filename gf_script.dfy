/**
  The script itself: `GF` starts at 1, and each of 256 iterations prints the
  line for the current index and value and then updates `GF` in place. The
  printed lines are collected in order as the method's output; what they say
  is stated through `Transcript`, the lines the walk determines.
 */
module GfScript {
  import opened GfStep
  import opened GfOrder
  import opened GfRender

  /** The 256 lines the script prints, in order: line i shows index i and the walk at i. */
  function Transcript(): (t: seq<string>)
    ensures |t| == Rounds
  {
    seq(Rounds, i requires 0 <= i < Rounds => Line(i, Walk(i)))
  }

  /**
    The loop of the script. Each iteration emits the line for (i, `GF`) and
    then updates `GF`. Returns the printed lines and the final `GF`.
   */
  method Run() returns (out: seq<string>, gf: Byte)
    ensures out == Transcript()
    ensures gf == Walk(Rounds)
  {
    gf := One;
    out := [];
    var i := 0;
    while i < Rounds
      invariant 0 <= i <= Rounds
      invariant gf == Walk(i)
      invariant out == Transcript()[..i]
    {
      out := out + [Line(i, gf)];
      gf := Update(gf);
      i := i + 1;
    }
    assert out == Transcript();
  }

  /**
    The if statement of the loop body, written as statements: on bit 7 set,
    shift left, XOR with the reduction constant and mask to eight bits;
    otherwise shift left and mask. It is the statement form of `XTime`, whose
    meaning (doubling, multiplication by x modulo the field polynomial) is
    proved about the function.
   */
  method Update(gf: Byte) returns (next: Byte)
    ensures next == XTime(gf)
  {
    var wide := (gf as bv16) << 1;
    if gf & 0x80 != 0 {
      next := ((wide ^ Poly as bv16) & 0xff) as Byte;
    } else {
      next := (wide & 0xff) as Byte;
    }
  }

  /** Printed line i, read back through `LineLayout`: 18 characters whose fields decode to i and to the walk at i. */
  lemma TranscriptLines(i: nat)
    requires i < Rounds
    ensures |Transcript()[i]| == 18
    ensures ValueOf(DropLeading(Transcript()[i][..3], ' '), 10) == i
    ensures ValueOf(Transcript()[i][5..13], 2) == Walk(i) as int
    ensures ValueOf(Transcript()[i][15..17], 16) == Walk(i) as int
  {
    LineLayout(i, Walk(i));
  }

  /** The lines for indices 0..254 all show different values: the binary fields differ. */
  lemma TranscriptDistinct(i: nat, j: nat)
    requires i < j < 255
    ensures Transcript()[i][5..13] != Transcript()[j][5..13]
  {
    WalkDistinct(i, j);
    BinaryFieldInjective(i, Walk(i), j, Walk(j));
  }

  /** The last line, index 255, shows 1 again, the value of the first line. */
  lemma TranscriptWrapsAround()
    ensures Transcript()[255][3..] == Transcript()[0][3..]
  {
    WalkFullCycle();
  }

  /** When the loop ends `GF` has moved one step past 1 again, to 2. */
  lemma FinalValue()
    ensures Walk(Rounds) == 2
  {
    WalkPeriodic(1);
  }
}
