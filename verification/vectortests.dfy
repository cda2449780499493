/**
  The scenarios of csrc/cpu/vector_tests.cpp, stated against the model.

  test_BF16Vec8_save hands a buffer of floats to the BF16Vec8 load and saves
  the vector into another float buffer. Both operations move sixteen bytes,
  the first four floats, so those are what the scenarios compare. The
  conversion test loads eight floats into an FP32Vec8 and converts them to
  BF16Vec8.
 */
module VectorTests {
  import opened Register
  import opened Narrowing
  import opened Containers
  import opened BF16Vecs
  import opened Packing
  import opened FP32Layout

  /** Eight floats, as bit patterns, laid out in memory as the big-endian target stores them. */
  function FloatBuffer(ws: seq<bv32>): (mem: seq<bv8>)
    requires |ws| == 8
    ensures |mem| == 32
    ensures Words(LoadReg(mem, 0)) == ws[..4] && Words(LoadReg(mem, 16)) == ws[4..]
  {
    var r0: seq<bv8> := FromWords(ws[..4]);
    var r1: seq<bv8> := FromWords(ws[4..]);
    assert LoadReg(r0 + r1, 0) == r0 && LoadReg(r0 + r1, 16) == r1;
    r0 + r1
  }

  /** The high and low halves of a big-endian word are its first and last byte pairs. */
  lemma Be32Halves(b0: bv8, b1: bv8, b2: bv8, b3: bv8)
    ensures Hi(Be32(b0, b1, b2, b3)) == Be16(b0, b1) && Lo(Be32(b0, b1, b2, b3)) == Be16(b2, b3)
  {
    Be32High(b0, b1, b2, b3);
    Be32Low(b0, b1, b2, b3);
    HighHalfIsHi(Be32(b0, b1, b2, b3));
  }

  /** The two 16-bit elements of 32-bit element k of a register are the high and low halves of that element. */
  lemma HalvesOfWord(r: Reg, k: nat)
    requires k < 4
    ensures Halves(r)[2 * k] == Hi(Words(r)[k]) && Halves(r)[2 * k + 1] == Lo(Words(r)[k])
  {
    assert Halves(r)[2 * k] == Be16(r[4 * k], r[4 * k + 1]);
    assert Halves(r)[2 * k + 1] == Be16(r[4 * k + 2], r[4 * k + 3]);
    assert Words(r)[k] == Be32(r[4 * k], r[4 * k + 1], r[4 * k + 2], r[4 * k + 3]);
    Be32Halves(r[4 * k], r[4 * k + 1], r[4 * k + 2], r[4 * k + 3]);
  }

  /**
    A buffer whose first float has different high and low halves does not
    survive the written BF16Vec8 load followed by its save.
   */
  lemma BF16Vec8RoundTripFails(mem: seq<bv8>)
    requires |mem| >= 16
    requires Hi(Words(LoadReg(mem, 0))[0]) != Lo(Words(LoadReg(mem, 0))[0])
    ensures SaveBF16Vec8(LoadBF16Vec8(mem)) != LoadReg(mem, 0)
  {
    BF16Vec8RoundTripIff(mem);
    HalvesOfWord(LoadReg(mem, 0), 0);
  }

  /** A buffer of +0.0 floats survives the written BF16Vec8 load followed by its save. */
  lemma BF16Vec8RoundTripZeros(mem: seq<bv8>)
    requires |mem| >= 16
    requires Words(LoadReg(mem, 0)) == [0, 0, 0, 0]
    ensures SaveBF16Vec8(LoadBF16Vec8(mem)) == LoadReg(mem, 0)
  {
    var r := LoadReg(mem, 0);
    forall k | 0 <= k < 8
      ensures Halves(r)[k] == 0
    {
      HalvesOfWord(r, k / 2);
      assert k == 2 * (k / 2) || k == 2 * (k / 2) + 1;
    }
    BF16Vec8RoundTripIff(mem);
  }

  const Zeros: seq<bv32> := [0, 0, 0, 0, 0, 0, 0, 0]
  const Ones: seq<bv32> := [0x3F80_0000, 0x3F80_0000, 0x3F80_0000, 0x3F80_0000, 0x3F80_0000, 0x3F80_0000, 0x3F80_0000, 0x3F80_0000]
  /** 0.5, -0.5, 0.25, -0.25, 0.75, -0.75, 0.1, -0.1 */
  const SmallValues: seq<bv32> := [0x3F00_0000, 0xBF00_0000, 0x3E80_0000, 0xBE80_0000, 0x3F40_0000, 0xBF40_0000, 0x3DCC_CCCD, 0xBDCC_CCCD]
  /** 1.0 to 8.0 */
  const OneToEight: seq<bv32> := [0x3F80_0000, 0x4000_0000, 0x4040_0000, 0x4080_0000, 0x40A0_0000, 0x40C0_0000, 0x40E0_0000, 0x4100_0000]

  /**
    test_BF16Vec8_save: the zero buffer comes back through the written load
    and save, the ones, the small values and 1.0-8.0 do not; through the
    corrected load and save all four come back.
   */
  lemma SaveScenarios()
    ensures SaveBF16Vec8(LoadBF16Vec8(FloatBuffer(Zeros))) == LoadReg(FloatBuffer(Zeros), 0)
    ensures SaveBF16Vec8(LoadBF16Vec8(FloatBuffer(Ones))) != LoadReg(FloatBuffer(Ones), 0)
    ensures SaveBF16Vec8(LoadBF16Vec8(FloatBuffer(SmallValues))) != LoadReg(FloatBuffer(SmallValues), 0)
    ensures SaveBF16Vec8(LoadBF16Vec8(FloatBuffer(OneToEight))) != LoadReg(FloatBuffer(OneToEight), 0)
    ensures SaveBF16Vec8Fixed(LoadBF16Vec8Fixed(FloatBuffer(Zeros))) == LoadReg(FloatBuffer(Zeros), 0)
    ensures SaveBF16Vec8Fixed(LoadBF16Vec8Fixed(FloatBuffer(Ones))) == LoadReg(FloatBuffer(Ones), 0)
    ensures SaveBF16Vec8Fixed(LoadBF16Vec8Fixed(FloatBuffer(SmallValues))) == LoadReg(FloatBuffer(SmallValues), 0)
    ensures SaveBF16Vec8Fixed(LoadBF16Vec8Fixed(FloatBuffer(OneToEight))) == LoadReg(FloatBuffer(OneToEight), 0)
  {
    assert Zeros[..4] == [0, 0, 0, 0];
    BF16Vec8RoundTripZeros(FloatBuffer(Zeros));
    assert Hi(0x3F80_0000) == 0x3F80 && Lo(0x3F80_0000) == 0;
    BF16Vec8RoundTripFails(FloatBuffer(Ones));
    assert Hi(0x3F00_0000) == 0x3F00 && Lo(0x3F00_0000) == 0;
    BF16Vec8RoundTripFails(FloatBuffer(SmallValues));
    BF16Vec8RoundTripFails(FloatBuffer(OneToEight));
    FixedRoundTrip(FloatBuffer(Zeros));
    FixedRoundTrip(FloatBuffer(Ones));
    FixedRoundTrip(FloatBuffer(SmallValues));
    FixedRoundTrip(FloatBuffer(OneToEight));
  }

  /** Any buffer of eight floats survives the corrected BF16Vec8 load followed by its save. */
  lemma FixedRoundTrip(mem: seq<bv8>)
    requires |mem| >= 16
    ensures SaveBF16Vec8Fixed(LoadBF16Vec8Fixed(mem)) == LoadReg(mem, 0)
  {
    BF16Vec8FixedRoundTrip(mem, LoadBF16Vec8Fixed(mem));
  }

  /** The bfloat16 patterns of 1.0 to 8.0. */
  const OneToEightHalves: seq<bv16> := [0x3F80, 0x4000, 0x4040, 0x4080, 0x40A0, 0x40C0, 0x40E0, 0x4100]

  /**
    test_BF16Vec8_conversion: as written, 1.0-8.0 convert to eight zero
    lanes; corrected, to the bfloat16 patterns of 1.0-8.0.
   */
  lemma ConversionScenario()
    ensures FromFP32Vec8(LoadFP32Vec8(FloatBuffer(OneToEight))).Lanes() == [0, 0, 0, 0, 0, 0, 0, 0]
    ensures FromFP32Vec8Fixed(LoadFP32Vec8Fixed(FloatBuffer(OneToEight))).Lanes() == OneToEightHalves
  {
    HalvesOfZero();
    var mem := FloatBuffer(OneToEight);
    assert OneToEight[..4] + OneToEight[4..] == OneToEight;
    NarrowOneToEight();
  }

  lemma NarrowOneToEight()
    ensures NarrowLanes(OneToEight) == OneToEightHalves
  {
    forall k | 0 <= k < 8
      ensures NarrowLanes(OneToEight)[k] == OneToEightHalves[k]
    {
      var x := OneToEight[k];
      // Two ranges of four inputs, so that each input is evaluated on its own.
      if k < 4 {
      } else {
      }
      assert !IsNaN(x) && Lo(x) == 0 && Hi(x) == OneToEightHalves[k];
      ExactWhenLowHalfZero(x);
    }
  }
}
