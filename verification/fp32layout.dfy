/**
  The byte layout of the FP32 containers: FP32Vec8's load from memory, its
  widening constructor from BF16Vec8 and its save, and FP32Vec16's save.

  As written, the FP32Vec8 load passes each register through
  vec_perm(r, r, omask), which replaces the float lanes by pairs of high
  halves; the widening puts each bfloat16 value in the LOW half of its lane;
  and both saves write the registers in reverse order. Each is modelled as
  written and corrected, with lemmas stating exactly when the two agree.
 */
module FP32Layout {
  import opened Register
  import opened Narrowing
  import opened Containers
  import opened Packing

  // ---------------------------------------------------------------------
  // FP32Vec8 load and save
  // ---------------------------------------------------------------------

  /** FP32Vec8(const float *ptr) as written: vec_xl at offsets 0 and 16, each register self-permuted with omask. */
  function LoadFP32Vec8(mem: seq<bv8>): (v: FP32Vec8)
    requires |mem| >= 32
    ensures Halves(v.val0) == SpreadEven(Halves(LoadReg(mem, 0)))
    ensures Halves(v.val1) == SpreadEven(Halves(LoadReg(mem, 16)))
  {
    var r0 := LoadReg(mem, 0);
    var r1 := LoadReg(mem, 16);
    PermSelfOMaskHalves(r0);
    PermSelfOMaskHalves(r1);
    FP32Vec8(VecPerm(r0, r0, OMask), VecPerm(r1, r1, OMask))
  }

  /** FP32Vec8::save as written: val[1] is stored at offset 0 and val[0] at offset 16. */
  function SaveFP32Vec8(v: FP32Vec8): (mem: seq<bv8>)
    ensures |mem| == 32 && mem[..16] == v.val1 && mem[16..] == v.val0
  {
    v.val1 + v.val0
  }

  /** FP32Vec8(const float *ptr) with the identity control vector: the lanes are the floats read. */
  function LoadFP32Vec8Fixed(mem: seq<bv8>): (v: FP32Vec8)
    requires |mem| >= 32
    ensures v.Lanes() == Words(LoadReg(mem, 0)) + Words(LoadReg(mem, 16))
    ensures v.val0 + v.val1 == mem[..32]
  {
    var r0 := LoadReg(mem, 0);
    var r1 := LoadReg(mem, 16);
    PermIdentity(r0);
    PermIdentity(r1);
    FP32Vec8(VecPerm(r0, r0, IdentityMask), VecPerm(r1, r1, IdentityMask))
  }

  /** FP32Vec8::save with the registers in order: val[0] at offset 0, val[1] at offset 16. */
  function SaveFP32Vec8Fixed(v: FP32Vec8): (mem: seq<bv8>)
    ensures |mem| == 32 && mem[..16] == v.val0 && mem[16..] == v.val1
  {
    v.val0 + v.val1
  }

  lemma FP32Vec8FixedRoundTrip(mem: seq<bv8>, v: FP32Vec8)
    requires |mem| >= 32
    ensures SaveFP32Vec8Fixed(LoadFP32Vec8Fixed(mem)) == mem[..32]
    ensures LoadFP32Vec8Fixed(SaveFP32Vec8Fixed(v)) == v
  {
    var w := LoadFP32Vec8Fixed(SaveFP32Vec8Fixed(v));
    AppendInjective(w.val0, w.val1, v.val0, v.val1);
  }

  /**
    The written load forgets the low 16 bits of every float it reads (and
    half of the high halves): two buffers whose even 16-bit elements agree
    load as the same vector.
   */
  lemma LoadFP32Vec8Forgets(mem: seq<bv8>, other: seq<bv8>)
    requires |mem| >= 32 && |other| >= 32
    requires forall j :: 0 <= j < 4 ==> HalfAt(LoadReg(mem, 0), 2 * j) == HalfAt(LoadReg(other, 0), 2 * j)
    requires forall j :: 0 <= j < 4 ==> HalfAt(LoadReg(mem, 16), 2 * j) == HalfAt(LoadReg(other, 16), 2 * j)
    ensures LoadFP32Vec8(mem) == LoadFP32Vec8(other)
  {
    PermSelfOMaskForgets(LoadReg(mem, 0), LoadReg(other, 0));
    PermSelfOMaskForgets(LoadReg(mem, 16), LoadReg(other, 16));
  }

  /**
    The written save after the written load gives back the 32 bytes exactly
    when both 16-byte halves are equal and hold eight equal 16-bit values.
   */
  lemma FP32Vec8RoundTripIff(mem: seq<bv8>)
    requires |mem| >= 32
    ensures SaveFP32Vec8(LoadFP32Vec8(mem)) == mem[..32]
        <==> LoadReg(mem, 0) == LoadReg(mem, 16) && Uniform(Halves(LoadReg(mem, 0)))
  {
    var r0 := LoadReg(mem, 0);
    var r1 := LoadReg(mem, 16);
    var v := LoadFP32Vec8(mem);
    assert mem[..32] == mem[0..16] + mem[16..32];
    AppendInjective(v.val1, v.val0, r0, r1);
    HalvesInjective(v.val1, r0);
    HalvesInjective(v.val0, r1);
    HalvesInjective(r0, r1);
    CrossedSpreadIff(Halves(r0), Halves(r1));
  }

  /** Each of h0, h1 is SpreadEven of the other exactly when they are equal and uniform. */
  lemma CrossedSpreadIff<T>(h0: seq<T>, h1: seq<T>)
    requires |h0| == 8 && |h1| == 8
    ensures SpreadEven(h1) == h0 && SpreadEven(h0) == h1 <==> h0 == h1 && Uniform(h0)
  {
    SpreadEvenFixedIff(h0);
    if SpreadEven(h1) == h0 && SpreadEven(h0) == h1 {
      SpreadEvenTwiceIff(h1);
      assert h1[0] == h0[0] && h1[4] == h0[0];
      UniformOfChain(h1);
      assert forall k :: 0 <= k < 8 ==> h1[k] == SpreadEven(SpreadEven(h1))[k];
      assert h1 == SpreadEven(SpreadEven(h1));
      SpreadEvenTwiceIff(h1);
      SpreadEvenFixedIff(h1);
    }
  }

  /** Saving as written swaps the two 16-byte halves relative to the intended layout. */
  lemma SaveFP32Vec8CorrectIff(v: FP32Vec8)
    ensures SaveFP32Vec8(v) == SaveFP32Vec8Fixed(v) <==> v.val0 == v.val1
  {
    AppendInjective(v.val1, v.val0, v.val0, v.val1);
  }

  // ---------------------------------------------------------------------
  // Widening BF16Vec8 -> FP32Vec8
  // ---------------------------------------------------------------------

  /**
    FP32Vec8(const BF16Vec8 &) as written: vec_mergeh(zero, v) and
    vec_mergel(zero, v). On the big-endian target the zero element lands in
    the HIGH half of each word, so lane k is bfloat16 lane k zero-extended:
    a subnormal (or zero) float instead of the value.
   */
  function FromBF16Vec8(v: BF16Vec8): (f: FP32Vec8)
    ensures forall k :: 0 <= k < 8 ==> f.Lanes()[k] == v.Lanes()[k] as bv32
  {
    ZeroFirstLanes(v.reg);
    FP32Vec8(MergeHigh(ZeroReg, v.reg), MergeLow(ZeroReg, v.reg))
  }

  /** FP32Vec8(const BF16Vec8 &) corrected, vec_mergeh(v, zero): lane k is bfloat16 lane k widened. */
  function FromBF16Vec8Fixed(v: BF16Vec8): (f: FP32Vec8)
    ensures forall k :: 0 <= k < 8 ==> f.Lanes()[k] == Widen(v.Lanes()[k])
  {
    ZeroSecondLanes(v.reg);
    FP32Vec8(MergeHigh(v.reg, ZeroReg), MergeLow(v.reg, ZeroReg))
  }

  /** The 32-bit lanes of the merged pair (vec_mergeh, vec_mergel) of a and b. */
  function MergedLanes(a: Reg, b: Reg): (w: seq<bv32>)
    ensures |w| == 8
  {
    Words(MergeHigh(a, b)) + Words(MergeLow(a, b))
  }

  /** Lane k of the merged pair glues 16-bit element k of a above element k of b. */
  lemma MergedLane(a: Reg, b: Reg, k: nat)
    requires k < 8
    ensures MergedLanes(a, b)[k] == (Halves(a)[k] as bv32 << 16) | Halves(b)[k] as bv32
  {
    assert Halves(a)[k] == HalfAt(a, k) && Halves(b)[k] == HalfAt(b, k);
    if k < 4 {
      MergedLaneHigh(a, b, k);
    } else {
      MergedLaneLow(a, b, k - 4);
    }
  }

  lemma MergedLaneHigh(a: Reg, b: Reg, k: nat)
    requires k < 4
    ensures MergedLanes(a, b)[k] == (HalfAt(a, k) as bv32 << 16) | HalfAt(b, k) as bv32
  {
    assert MergedLanes(a, b)[k] == WordAt(MergeHigh(a, b), k);
    MergeHighWords(a, b);
  }

  lemma MergedLaneLow(a: Reg, b: Reg, j: nat)
    requires j < 4
    ensures MergedLanes(a, b)[j + 4] == (HalfAt(a, j + 4) as bv32 << 16) | HalfAt(b, j + 4) as bv32
  {
    assert MergedLanes(a, b)[j + 4] == WordAt(MergeLow(a, b), j);
    MergeLowWords(a, b);
  }

  lemma ZeroFirstLanes(r: Reg)
    ensures forall k :: 0 <= k < 8 ==> MergedLanes(ZeroReg, r)[k] == Halves(r)[k] as bv32
  {
    forall k | 0 <= k < 8
      ensures MergedLanes(ZeroReg, r)[k] == Halves(r)[k] as bv32
    {
      ZeroFirstLane(r, k);
    }
  }

  lemma ZeroFirstLane(r: Reg, k: nat)
    requires k < 8
    ensures MergedLanes(ZeroReg, r)[k] == Halves(r)[k] as bv32
  {
    MergedLane(ZeroReg, r, k);
    HalfOfZero(k);
    ZeroAbove(Halves(ZeroReg)[k], Halves(r)[k]);
  }

  lemma ZeroSecondLanes(r: Reg)
    ensures forall k :: 0 <= k < 8 ==> MergedLanes(r, ZeroReg)[k] == Widen(Halves(r)[k])
  {
    forall k | 0 <= k < 8
      ensures MergedLanes(r, ZeroReg)[k] == Widen(Halves(r)[k])
    {
      ZeroSecondLane(r, k);
    }
  }

  lemma ZeroSecondLane(r: Reg, k: nat)
    requires k < 8
    ensures MergedLanes(r, ZeroReg)[k] == Widen(Halves(r)[k])
  {
    MergedLane(r, ZeroReg, k);
    HalfOfZero(k);
    ZeroBelow(Halves(r)[k], Halves(ZeroReg)[k]);
  }

  lemma HalfOfZero(k: nat)
    requires k < 8
    ensures Halves(ZeroReg)[k] == 0
  {
    HalvesOfZero();
  }

  lemma ZeroAbove(z: bv16, h: bv16)
    ensures z == 0 ==> (z as bv32 << 16) | h as bv32 == h as bv32
  {
  }

  lemma ZeroBelow(h: bv16, z: bv16)
    ensures z == 0 ==> (h as bv32 << 16) | z as bv32 == Widen(h)
  {
  }

  /** The written widening agrees with the intended one exactly on the all-zero vector. */
  lemma FromBF16Vec8CorrectIff(v: BF16Vec8)
    ensures FromBF16Vec8(v).Lanes() == FromBF16Vec8Fixed(v).Lanes() <==> forall k :: 0 <= k < 8 ==> v.Lanes()[k] == 0
  {
    if FromBF16Vec8(v).Lanes() == FromBF16Vec8Fixed(v).Lanes() {
      forall k | 0 <= k < 8
        ensures v.Lanes()[k] == 0
      {
        ZeroExtendIsWidenIff(v.Lanes()[k]);
      }
    } else {
      forall k | 0 <= k < 8
        ensures v.Lanes()[k] == 0 ==> FromBF16Vec8(v).Lanes()[k] == FromBF16Vec8Fixed(v).Lanes()[k]
      {
        ZeroExtendIsWidenIff(v.Lanes()[k]);
      }
    }
  }

  lemma ZeroExtendIsWidenIff(h: bv16)
    ensures h as bv32 == Widen(h) <==> h == 0
  {
  }

  /**
    Narrowing a widened vector gives it back: the corrected widening followed
    by the corrected conversion returns every lane, except that a lane whose
    widened pattern is a NaN comes back as the canonical NaNHalf.
   */
  lemma WidenThenNarrowVector(v: BF16Vec8)
    ensures forall k :: 0 <= k < 8 ==>
      FromFP32Vec8Fixed(FromBF16Vec8Fixed(v)).Lanes()[k] == (if IsNaN(Widen(v.Lanes()[k])) then NaNHalf else v.Lanes()[k])
  {
    var f := FromBF16Vec8Fixed(v);
    forall k | 0 <= k < 8
      ensures FromFP32Vec8Fixed(f).Lanes()[k] == (if IsNaN(Widen(v.Lanes()[k])) then NaNHalf else v.Lanes()[k])
    {
      WidenThenNarrow(v.Lanes()[k]);
    }
  }

  // ---------------------------------------------------------------------
  // FP32Vec16 save
  // ---------------------------------------------------------------------

  /** FP32Vec16::save as written: val[3] at offset 0, then val[2], val[1], and val[0] at offset 48. */
  function SaveFP32Vec16(v: FP32Vec16): (mem: seq<bv8>)
    ensures |mem| == 64
    ensures LoadReg(mem, 0) == v.val3 && LoadReg(mem, 16) == v.val2
    ensures LoadReg(mem, 32) == v.val1 && LoadReg(mem, 48) == v.val0
  {
    v.val3 + v.val2 + v.val1 + v.val0
  }

  /** FP32Vec16::save with the registers in order, lane k at bytes 4k..4k+3. */
  function SaveFP32Vec16Fixed(v: FP32Vec16): (mem: seq<bv8>)
    ensures |mem| == 64
    ensures LoadReg(mem, 0) == v.val0 && LoadReg(mem, 16) == v.val1
    ensures LoadReg(mem, 32) == v.val2 && LoadReg(mem, 48) == v.val3
  {
    v.val0 + v.val1 + v.val2 + v.val3
  }

  /**
    Reading back the first eight floats of a saved FP32Vec16 with the
    corrected FP32Vec8 load gives its first eight lanes; after the written
    save it gives lanes 12..15 followed by lanes 8..11.
   */
  lemma SavedFP32Vec16ReadsBack(v: FP32Vec16)
    ensures LoadFP32Vec8Fixed(SaveFP32Vec16Fixed(v)).Lanes() == v.Lanes()[..8]
    ensures LoadFP32Vec8Fixed(SaveFP32Vec16(v)).Lanes() == v.Lanes()[12..] + v.Lanes()[8..12]
  {
    assert v.Lanes()[..8] == Words(v.val0) + Words(v.val1);
    assert v.Lanes()[12..] == Words(v.val3) && v.Lanes()[8..12] == Words(v.val2);
  }

  /** The written save agrees with the intended one exactly when val[0] == val[3] and val[1] == val[2]. */
  lemma SaveFP32Vec16CorrectIff(v: FP32Vec16)
    ensures SaveFP32Vec16(v) == SaveFP32Vec16Fixed(v) <==> v.val0 == v.val3 && v.val1 == v.val2
  {
    var a := SaveFP32Vec16(v);
    var b := SaveFP32Vec16Fixed(v);
    if a == b {
      assert LoadReg(a, 0) == LoadReg(b, 0) && LoadReg(a, 16) == LoadReg(b, 16);
    }
  }
}
