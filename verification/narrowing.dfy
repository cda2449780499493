/**
  Per-lane float32 -> bfloat16 narrowing, on raw 32-bit patterns.

  A lane holds the IEEE-754 single-precision bit pattern x. Its high half
  Hi(x) is a bfloat16 value with the mantissa truncated; the conversion in
  the header rounds instead, by adding a bias to x and keeping the high half
  of the sum. The two conversion constructors of the header do this in two
  different ways, both modelled here, together with the widening (high half
  back into a word, low half zero) that undoes the narrowing.
 */
module Narrowing {

  /*
    The vector constants the narrowing code uses but the header never
    defines. Their values are an assumption: the conventional ones for this
    algorithm (mask16 as its comment says, the round-to-nearest bias, the
    canonical quiet NaN, the half-word shift and the unit).
   */

  /** `mask16`: isolates the low 16 bits of a word. */
  const Mask16: bv32 := 0xFFFF
  /** `bias`: the rounding bias, one below half of a bfloat16 unit in the last place. */
  const Bias: bv32 := 0x7FFF
  /** `nan`: the canonical quiet NaN pattern forced onto NaN lanes. */
  const QuietNaN: bv32 := 0x7FC0_0000
  /** `sh16`: the shift that brings the high half down. */
  const Sh16: bv32 := 16
  /** `one`: isolates bit 0. */
  const One: bv32 := 1

  /** The bfloat16 pattern that every NaN lane narrows to: the high half of QuietNaN. */
  const NaNHalf: bv16 := 0x7FC0

  /** The low 16 bits of a word, as a 16-bit value. */
  function Low16(w: bv32): bv16
  {
    (w & 0xFFFF) as bv16
  }

  /** High half of a lane: sign, exponent and the top 7 mantissa bits. */
  function Hi(x: bv32): bv16
  {
    Low16(x >> 16)
  }

  /** Low half of a lane: the 16 mantissa bits that narrowing drops. */
  function Lo(x: bv32): bv16
  {
    Low16(x)
  }

  /**
    The class test `vec_test_data_class(v, __VEC_CLASS_FP_NAN)`, as the bit
    predicate of IEEE-754 single precision: exponent all ones and a nonzero
    mantissa, whatever the sign.
   */
  predicate IsNaN(x: bv32)
  {
    x & 0x7F80_0000 == 0x7F80_0000 && x & 0x007F_FFFF != 0
  }

  /**
    One lane of BF16Vec16(const FP32Vec16 &), up to and including the final
    `vec_sr(inp, sh16)`: lsb = (x >> 16) & 1, x + (lsb + bias) modulo 2^32,
    the NaN override, then the shift. The word that remains has a zero high
    half.
   */
  function NarrowWord(x: bv32): (w: bv32)
    ensures w < 0x1_0000
    ensures IsNaN(x) ==> w == QuietNaN >> Sh16
  {
    var lsb := (x >> Sh16) & One;
    var rnd := lsb + Bias;
    var sum := x + rnd;
    var sel := if IsNaN(x) then QuietNaN else sum;
    sel >> Sh16
  }

  /**
    One lane of BF16Vec8(const FP32Vec8 &), up to and including the final
    shift: the rounding increment is (x & mask16) + bias instead of
    lsb + bias, so the low half is counted twice.
   */
  function NarrowWord8(x: bv32): (w: bv32)
    ensures w < 0x1_0000
    ensures IsNaN(x) ==> w == QuietNaN >> Sh16
  {
    var lsb := x & Mask16;
    var rnd := lsb + Bias;
    var sum := x + rnd;
    var sel := if IsNaN(x) then QuietNaN else sum;
    sel >> Sh16
  }

  /**
    The bfloat16 value of a lane narrowed by the 16-lane constructor: round
    to nearest, ties to even, on the high half. A NaN lane gives NaNHalf;
    otherwise the high half is kept when the dropped half is below 0x8000,
    incremented (modulo 2^16) when it is above, and incremented on the exact
    tie only when the high half is odd. A carry out of the mantissa moves
    into the exponent unchanged, so the largest finite values round to
    infinity.
   */
  function Narrow(x: bv32): (h: bv16)
    ensures IsNaN(x) ==> h == NaNHalf
    ensures !IsNaN(x) && Lo(x) < 0x8000 ==> h == Hi(x)
    ensures !IsNaN(x) && Lo(x) > 0x8000 ==> h == Hi(x) + 1
    ensures !IsNaN(x) && Lo(x) == 0x8000 ==> h == Hi(x) + (Hi(x) & 1)
  {
    // Every branch is the same value; the split only selects the proof.
    if IsNaN(x) then
      Low16(NarrowWord(x))
    else if Lo(x) < 0x8000 then
      RoundsDown(x);
      Low16(NarrowWord(x))
    else if Lo(x) > 0x8000 then
      RoundsUp(x);
      Low16(NarrowWord(x))
    else
      RoundsTieToEven(x);
      Low16(NarrowWord(x))
  }

  lemma RoundsDown(x: bv32)
    requires !IsNaN(x) && Lo(x) < 0x8000
    ensures Low16(NarrowWord(x)) == Hi(x)
  {
  }

  lemma RoundsUp(x: bv32)
    requires !IsNaN(x) && Lo(x) > 0x8000
    ensures Low16(NarrowWord(x)) == Hi(x) + 1
  {
  }

  lemma RoundsTieToEven(x: bv32)
    requires !IsNaN(x) && Lo(x) == 0x8000
    ensures Low16(NarrowWord(x)) == Hi(x) + (Hi(x) & 1)
  {
    if Hi(x) & 1 == 0 {
      TieEven(x);
    } else {
      TieOdd(x);
    }
  }

  lemma TieEven(x: bv32)
    requires !IsNaN(x) && Lo(x) == 0x8000 && Hi(x) & 1 == 0
    ensures Low16(NarrowWord(x)) == Hi(x)
  {
  }

  lemma TieOdd(x: bv32)
    requires !IsNaN(x) && Lo(x) == 0x8000 && Hi(x) & 1 == 1
    ensures Low16(NarrowWord(x)) == Hi(x) + 1
  {
  }

  /**
    The bfloat16 value of a lane narrowed by the 8-lane constructor. Adding
    the low half twice plus 0x7FFF carries once when the low half exceeds
    0x4000 and twice when it exceeds 0xC000.
   */
  function Narrow8(x: bv32): (h: bv16)
    ensures IsNaN(x) ==> h == NaNHalf
    ensures !IsNaN(x) && Lo(x) <= 0x4000 ==> h == Hi(x)
    ensures !IsNaN(x) && 0x4000 < Lo(x) <= 0xC000 ==> h == Hi(x) + 1
    ensures !IsNaN(x) && 0xC000 < Lo(x) ==> h == Hi(x) + 2
  {
    // Every branch is the same value; the split only selects the proof.
    if IsNaN(x) then
      Low16(NarrowWord8(x))
    else if Lo(x) <= 0x4000 then
      Carries0(x);
      Low16(NarrowWord8(x))
    else if Lo(x) <= 0xC000 then
      Carries1(x);
      Low16(NarrowWord8(x))
    else
      Carries2(x);
      Low16(NarrowWord8(x))
  }

  lemma Carries0(x: bv32)
    requires !IsNaN(x) && Lo(x) <= 0x4000
    ensures Low16(NarrowWord8(x)) == Hi(x)
  {
  }

  lemma Carries1(x: bv32)
    requires !IsNaN(x) && 0x4000 < Lo(x) <= 0xC000
    ensures Low16(NarrowWord8(x)) == Hi(x) + 1
  {
  }

  lemma Carries2(x: bv32)
    requires !IsNaN(x) && 0xC000 < Lo(x)
    ensures Low16(NarrowWord8(x)) == Hi(x) + 2
  {
  }

  /** Widening of one bfloat16 lane: the value becomes the high half, the low half is zero. */
  function Widen(h: bv16): bv32
  {
    (h as bv32) << 16
  }

  lemma WidenHalves(h: bv16)
    ensures Hi(Widen(h)) == h && Lo(Widen(h)) == 0
  {
  }

  /**
    Round to nearest, ties to even, as an independent reference: the two
    candidates are x with its low half cleared and the next bfloat16 value
    above it, and the nearer one is chosen, the one with an even high half
    on a tie. Both distances are at most 2^16, so 32-bit arithmetic measures
    them exactly.
   */
  function RoundNearestEven(x: bv32): bv16
  {
    var below := Widen(Hi(x));
    var dBelow := x - below;
    var dAbove := (below + 0x1_0000) - x;
    if dBelow < dAbove || (dBelow == dAbove && Hi(x) & 1 == 0) then Hi(x) else Hi(x) + 1
  }

  lemma NearestBelow(x: bv32)
    requires Lo(x) < 0x8000
    ensures RoundNearestEven(x) == Hi(x)
  {
  }

  lemma NearestAbove(x: bv32)
    requires Lo(x) > 0x8000
    ensures RoundNearestEven(x) == Hi(x) + 1
  {
  }

  lemma NearestTie(x: bv32)
    requires Lo(x) == 0x8000
    ensures RoundNearestEven(x) == Hi(x) + (Hi(x) & 1)
  {
    if Hi(x) & 1 == 0 {
      NearestTieEven(x);
    } else {
      NearestTieOdd(x);
    }
  }

  lemma NearestTieEven(x: bv32)
    requires Lo(x) == 0x8000 && Hi(x) & 1 == 0
    ensures RoundNearestEven(x) == Hi(x)
  {
  }

  lemma NearestTieOdd(x: bv32)
    requires Lo(x) == 0x8000 && Hi(x) & 1 == 1
    ensures RoundNearestEven(x) == Hi(x) + 1
  {
  }

  /** On every non-NaN lane the 16-lane narrowing is the reference rounding. */
  lemma NarrowIsRoundNearestEven(x: bv32)
    requires !IsNaN(x)
    ensures Narrow(x) == RoundNearestEven(x)
  {
    if Lo(x) < 0x8000 {
      NearestBelow(x);
    } else if Lo(x) > 0x8000 {
      NearestAbove(x);
    } else {
      NearestTie(x);
    }
  }

  /**
    A NaN lane stays NaN: whatever the rounded sum was, both constructors
    produce NaNHalf, and widening NaNHalf gives the canonical quiet NaN,
    which is again classified as NaN.
   */
  lemma NaNPreserved(x: bv32)
    requires IsNaN(x)
    ensures Narrow(x) == NaNHalf && Narrow8(x) == NaNHalf
    ensures Widen(Narrow(x)) == QuietNaN && IsNaN(Widen(Narrow(x)))
  {
  }

  /**
    A non-NaN lane whose low half is zero is already a bfloat16 value: both
    constructors return its high half unchanged.
   */
  lemma ExactWhenLowHalfZero(x: bv32)
    requires !IsNaN(x) && Lo(x) == 0
    ensures Narrow(x) == Hi(x) && Narrow8(x) == Hi(x)
    ensures Widen(Narrow(x)) == x
  {
    WidenOfHigh(x);
  }

  lemma WidenOfHigh(x: bv32)
    requires Lo(x) == 0
    ensures Widen(Hi(x)) == x
  {
  }

  /**
    Widening then narrowing gives the bfloat16 value back, except that a NaN
    pattern comes back as the canonical NaNHalf; the same holds for both
    constructors.
   */
  lemma WidenThenNarrow(h: bv16)
    ensures !IsNaN(Widen(h)) ==> Narrow(Widen(h)) == h && Narrow8(Widen(h)) == h
    ensures IsNaN(Widen(h)) ==> Narrow(Widen(h)) == NaNHalf && Narrow8(Widen(h)) == NaNHalf
  {
    WidenHalves(h);
  }

  /**
    The 8-lane and the 16-lane narrowing agree exactly on NaN lanes, on lanes
    whose low half is at most 0x4000, on lanes whose low half lies in
    (0x8000, 0xC000], and on exact ties with an odd high half; everywhere
    else the 8-lane constructor rounds one unit too high.
   */
  lemma NarrowVariantsAgree(x: bv32)
    ensures Narrow8(x) == Narrow(x) <==>
      IsNaN(x) || Lo(x) <= 0x4000 || (0x8000 < Lo(x) <= 0xC000) || (Lo(x) == 0x8000 && Hi(x) & 1 == 1)
    ensures !IsNaN(x) && Narrow8(x) != Narrow(x) ==> Narrow8(x) == Narrow(x) + 1
  {
    if IsNaN(x) {
    } else if Lo(x) <= 0x4000 || 0x8000 < Lo(x) <= 0xC000 {
      AgreeAwayFromBoundaries(x);
    } else if Lo(x) < 0x8000 {
      DisagreeBelowTie(x);
    } else if Lo(x) == 0x8000 {
      if Hi(x) & 1 == 1 {
        AgreeOddTie(x);
      } else {
        DisagreeEvenTie(x);
      }
    } else {
      DisagreeAboveC000(x);
    }
  }

  lemma AgreeAwayFromBoundaries(x: bv32)
    requires !IsNaN(x) && (Lo(x) <= 0x4000 || 0x8000 < Lo(x) <= 0xC000)
    ensures Narrow8(x) == Narrow(x)
  {
  }

  lemma DisagreeBelowTie(x: bv32)
    requires !IsNaN(x) && 0x4000 < Lo(x) < 0x8000
    ensures Narrow8(x) != Narrow(x) && Narrow8(x) == Narrow(x) + 1
  {
    OneApart(Hi(x));
  }

  lemma AgreeOddTie(x: bv32)
    requires !IsNaN(x) && Lo(x) == 0x8000 && Hi(x) & 1 == 1
    ensures Narrow8(x) == Narrow(x)
  {
    OddTie(Hi(x));
  }

  lemma DisagreeEvenTie(x: bv32)
    requires !IsNaN(x) && Lo(x) == 0x8000 && Hi(x) & 1 == 0
    ensures Narrow8(x) != Narrow(x) && Narrow8(x) == Narrow(x) + 1
  {
    EvenTieNarrow(x);
    EvenTieNarrow8(x);
    OneApart(Hi(x));
  }

  /** The 16-lane narrowing keeps an exact tie with an even high half. */
  lemma EvenTieNarrow(x: bv32)
    requires !IsNaN(x) && Lo(x) == 0x8000 && Hi(x) & 1 == 0
    ensures Narrow(x) == Hi(x)
  {
    EvenTie(Hi(x));
  }

  /** The 8-lane narrowing rounds every exact tie up. */
  lemma EvenTieNarrow8(x: bv32)
    requires !IsNaN(x) && Lo(x) == 0x8000
    ensures Narrow8(x) == Hi(x) + 1
  {
  }

  lemma DisagreeAboveC000(x: bv32)
    requires !IsNaN(x) && 0xC000 < Lo(x)
    ensures Narrow8(x) != Narrow(x) && Narrow8(x) == Narrow(x) + 1
  {
    TwoApart(Hi(x));
  }

  lemma TwoApart(h: bv16)
    ensures h + 2 != h + 1 && h + 2 == (h + 1) + 1
  {
  }

  lemma OneApart(h: bv16)
    ensures h + 1 != h
  {
  }

  lemma OddTie(h: bv16)
    requires h & 1 == 1
    ensures h + (h & 1) == h + 1
  {
  }

  lemma EvenTie(h: bv16)
    requires h & 1 == 0
    ensures h + (h & 1) == h
  {
  }

  /**
    A concrete disagreement: 0x3F80_4001 (just above 1.0) is nearer to the
    bfloat16 value 0x3F80, which the 16-lane constructor returns, but the
    8-lane constructor returns 0x3F81.
   */
  lemma Narrow8RoundsAwayFromNearest()
    ensures Narrow(0x3F80_4001) == 0x3F80 == RoundNearestEven(0x3F80_4001)
    ensures Narrow8(0x3F80_4001) == 0x3F81
  {
    assert Lo(0x3F80_4001) == 0x4001 && Hi(0x3F80_4001) == 0x3F80;
    NarrowIsRoundNearestEven(0x3F80_4001);
  }

  /**
    The carry of the rounding addition is not special-cased: the largest
    finite single 0x7F7F_FFFF rounds to the infinity pattern 0x7F80, and so
    does the tie 0x7F7F_8000 (odd high half).
   */
  lemma CarryIntoExponent()
    ensures Narrow(0x7F7F_FFFF) == 0x7F80
    ensures Narrow(0x7F7F_8000) == 0x7F80
    ensures !IsNaN(Widen(0x7F80))
  {
    assert Lo(0x7F7F_FFFF) == 0xFFFF && Hi(0x7F7F_FFFF) == 0x7F7F;
    assert Lo(0x7F7F_8000) == 0x8000 && Hi(0x7F7F_8000) == 0x7F7F;
  }

  /**
    Single-precision test inputs with a zero low half: 1.0 to 8.0, +0.0, and
    0.5, -0.5, 0.25, -0.25, 0.75, -0.75.
   */
  const ExactTestInputs: seq<bv32> := [
    0x3F80_0000, 0x4000_0000, 0x4040_0000, 0x4080_0000,
    0x40A0_0000, 0x40C0_0000, 0x40E0_0000, 0x4100_0000,
    0x0000_0000, 0x3F00_0000, 0xBF00_0000, 0x3E80_0000,
    0xBE80_0000, 0x3F40_0000, 0xBF40_0000]

  /**
    The exactly representable test inputs narrow and widen back to
    themselves; 0.1 (0x3DCC_CCCD) and -0.1 (0xBDCC_CCCD) round up in
    magnitude.
   */
  lemma TestValuesNarrow()
    ensures forall i :: 0 <= i < |ExactTestInputs| ==> Widen(Narrow(ExactTestInputs[i])) == ExactTestInputs[i]
    ensures Narrow(0x3DCC_CCCD) == 0x3DCD && Narrow(0xBDCC_CCCD) == 0xBDCD
  {
    forall i | 0 <= i < |ExactTestInputs|
      ensures Widen(Narrow(ExactTestInputs[i])) == ExactTestInputs[i]
    {
      var x := ExactTestInputs[i];
      // Four ranges of at most four inputs, so that each input is evaluated on its own.
      if i < 8 {
        if i < 4 {
        } else {
        }
      } else {
        if i < 12 {
        } else {
        }
      }
      assert !IsNaN(x) && Lo(x) == 0;
      ExactWhenLowHalfZero(x);
    }
    assert Lo(0x3DCC_CCCD) == 0xCCCD && Hi(0x3DCC_CCCD) == 0x3DCC;
    assert Lo(0xBDCC_CCCD) == 0xCCCD && Hi(0xBDCC_CCCD) == 0xBDCC;
  }
}
