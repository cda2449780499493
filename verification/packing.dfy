/**
  The two conversion constructors BF16Vec8(const FP32Vec8 &) and
  BF16Vec16(const FP32Vec16 &): every 32-bit lane is narrowed in place
  (Narrowing.NarrowWord / NarrowWord8, leaving the bfloat16 value in the LOW
  half of the word), then pairs of registers are packed into one register of
  16-bit elements by vec_perm(inp0, inp1, omask).

  omask takes bytes 4k and 4k+1 of each word, which on the big-endian target
  is the HIGH half, the half the shift has just cleared: as written, both
  constructors produce all-zero registers whatever the input. The corrected
  constructors pack with Register.PackMask, which takes the low halves, and
  round with the 16-lane narrowing.
 */
module Packing {
  import opened Register
  import opened Narrowing
  import opened Containers

  /** Every 32-bit element of r narrowed in place by the 16-lane step. */
  function NarrowRegister(r: Reg): (n: Reg)
    ensures forall k :: 0 <= k < 4 ==> WordAt(n, k) == NarrowWord(WordAt(r, k))
  {
    FromWords(seq(4, k requires 0 <= k < 4 => NarrowWord(WordAt(r, k))))
  }

  /** Every 32-bit element of r narrowed in place by the 8-lane step. */
  function NarrowRegister8(r: Reg): (n: Reg)
    ensures forall k :: 0 <= k < 4 ==> WordAt(n, k) == NarrowWord8(WordAt(r, k))
  {
    FromWords(seq(4, k requires 0 <= k < 4 => NarrowWord8(WordAt(r, k))))
  }

  /** A word below 2^16 has a zero high half. */
  lemma HighOfSmall(w: bv32)
    ensures w < 0x1_0000 ==> (w >> 16) as bv16 == 0
  {
  }

  /** The low half of a narrowed word is the narrowed bfloat16 value. */
  lemma LowOfNarrowed(x: bv32)
    ensures (NarrowWord(x) & 0xFFFF) as bv16 == Narrow(x)
  {
  }

  /** Packing two narrowed registers with omask yields the all-zero register. */
  lemma OMaskPackIsZero(a: Reg, b: Reg)
    requires forall k :: 0 <= k < 4 ==> WordAt(a, k) < 0x1_0000 && WordAt(b, k) < 0x1_0000
    ensures VecPerm(a, b, OMask) == ZeroReg
  {
    PackOMask(a, b);
    forall k | 0 <= k < 8
      ensures HalfAt(VecPerm(a, b, OMask), k) == HalfAt(ZeroReg, k)
    {
      if k < 4 {
        HighOfSmall(WordAt(a, k));
      } else {
        HighOfSmall(WordAt(b, k - 4));
      }
    }
    HalvesDetermine(VecPerm(a, b, OMask), ZeroReg);
  }

  /** Lane-wise 16-lane narrowing of a sequence of float patterns. */
  function NarrowLanes(ws: seq<bv32>): (hs: seq<bv16>)
    ensures |hs| == |ws|
  {
    seq(|ws|, k requires 0 <= k < |ws| => Narrow(ws[k]))
  }

  lemma NarrowLanesConcat(a: seq<bv32>, b: seq<bv32>)
    ensures NarrowLanes(a + b) == NarrowLanes(a) + NarrowLanes(b)
  {
  }

  lemma PackMaskPacksNarrowedFirst(a: Reg, b: Reg, k: nat)
    requires k < 4
    ensures Halves(VecPerm(NarrowRegister(a), NarrowRegister(b), PackMask))[k] == NarrowLanes(Words(a) + Words(b))[k]
  {
    var x := WordAt(a, k);
    assert (Words(a) + Words(b))[k] == x;
    PackedLane(NarrowRegister(a), NarrowRegister(b), k, x);
  }

  lemma PackMaskPacksNarrowedSecond(a: Reg, b: Reg, k: nat)
    requires 4 <= k < 8
    ensures Halves(VecPerm(NarrowRegister(a), NarrowRegister(b), PackMask))[k] == NarrowLanes(Words(a) + Words(b))[k]
  {
    var x := WordAt(b, k - 4);
    assert (Words(a) + Words(b))[k] == x;
    PackedLane(NarrowRegister(a), NarrowRegister(b), k, x);
  }

  lemma PackedLane(na: Reg, nb: Reg, k: nat, x: bv32)
    requires k < 8
    requires (if k < 4 then WordAt(na, k) else WordAt(nb, k - 4)) == NarrowWord(x)
    ensures Halves(VecPerm(na, nb, PackMask))[k] == Narrow(x)
  {
    if k < 4 {
      PackMaskAt(na, nb, k);
    } else {
      PackMaskAt(na, nb, k - 4);
    }
    LowOfNarrowed(x);
  }

  /**
    Packing two registers narrowed by the 16-lane step with PackMask gives,
    in 16-bit element k, the rounded value of lane k of the pair.
   */
  lemma PackMaskPacksNarrowed(a: Reg, b: Reg)
    ensures Halves(VecPerm(NarrowRegister(a), NarrowRegister(b), PackMask)) == NarrowLanes(Words(a) + Words(b))
  {
    forall k | 0 <= k < 8
      ensures Halves(VecPerm(NarrowRegister(a), NarrowRegister(b), PackMask))[k] == NarrowLanes(Words(a) + Words(b))[k]
    {
      if k < 4 {
        PackMaskPacksNarrowedFirst(a, b, k);
      } else {
        PackMaskPacksNarrowedSecond(a, b, k);
      }
    }
  }

  // ---------------------------------------------------------------------
  // BF16Vec8(const FP32Vec8 &)
  // ---------------------------------------------------------------------

  /** BF16Vec8(const FP32Vec8 &) as written: every lane comes out zero, whatever v holds. */
  function FromFP32Vec8(v: FP32Vec8): (b: BF16Vec8)
    ensures b.reg == ZeroReg
  {
    var n0 := NarrowRegister8(v.val0);
    var n1 := NarrowRegister8(v.val1);
    OMaskPackIsZero(n0, n1);
    BF16Vec8(VecPerm(n0, n1, OMask))
  }

  /** BF16Vec8(const FP32Vec8 &) corrected: lane k is lane k of v rounded to nearest even. */
  function FromFP32Vec8Fixed(v: FP32Vec8): (b: BF16Vec8)
    ensures b.Lanes() == NarrowLanes(v.Lanes())
  {
    PackMaskPacksNarrowed(v.val0, v.val1);
    BF16Vec8(VecPerm(NarrowRegister(v.val0), NarrowRegister(v.val1), PackMask))
  }

  /**
    The written constructor yields lane k's narrowed value in every lane
    exactly when every lane narrows to the bfloat16 pattern 0x0000 (+0.0):
    the all-zero input of the tests, and little else.
   */
  lemma FromFP32Vec8CorrectIff(v: FP32Vec8)
    ensures FromFP32Vec8(v).Lanes() == FromFP32Vec8Fixed(v).Lanes() <==> NarrowLanes(v.Lanes()) == [0, 0, 0, 0, 0, 0, 0, 0]
  {
    HalvesOfZero();
  }

  lemma HalvesOfZero()
    ensures Halves(ZeroReg) == [0, 0, 0, 0, 0, 0, 0, 0]
  {
  }

  /** The corrected constructor is exact on lanes that already are bfloat16 values. */
  lemma FromFP32Vec8FixedExact(v: FP32Vec8)
    requires forall k :: 0 <= k < 8 ==> !IsNaN(v.Lanes()[k]) && Lo(v.Lanes()[k]) == 0
    ensures forall k :: 0 <= k < 8 ==> FromFP32Vec8Fixed(v).Lanes()[k] == Hi(v.Lanes()[k])
    ensures forall k :: 0 <= k < 8 ==> Widen(FromFP32Vec8Fixed(v).Lanes()[k]) == v.Lanes()[k]
  {
    forall k | 0 <= k < 8
      ensures FromFP32Vec8Fixed(v).Lanes()[k] == Hi(v.Lanes()[k])
      ensures Widen(FromFP32Vec8Fixed(v).Lanes()[k]) == v.Lanes()[k]
    {
      ExactWhenLowHalfZero(v.Lanes()[k]);
    }
  }

  // ---------------------------------------------------------------------
  // BF16Vec16(const FP32Vec16 &)
  // ---------------------------------------------------------------------

  /** BF16Vec16(const FP32Vec16 &) as written: both registers come out zero, whatever v holds. */
  function FromFP32Vec16(v: FP32Vec16): (b: BF16Vec16)
    ensures b.val0 == ZeroReg && b.val1 == ZeroReg
  {
    var n0 := NarrowRegister(v.val0);
    var n1 := NarrowRegister(v.val1);
    var n2 := NarrowRegister(v.val2);
    var n3 := NarrowRegister(v.val3);
    OMaskPackIsZero(n0, n1);
    OMaskPackIsZero(n2, n3);
    BF16Vec16(VecPerm(n0, n1, OMask), VecPerm(n2, n3, OMask))
  }

  /** BF16Vec16(const FP32Vec16 &) corrected: lane k is lane k of v rounded to nearest even. */
  function FromFP32Vec16Fixed(v: FP32Vec16): (b: BF16Vec16)
    ensures b.Lanes() == NarrowLanes(v.Lanes())
  {
    PackMaskPacksNarrowed(v.val0, v.val1);
    PackMaskPacksNarrowed(v.val2, v.val3);
    NarrowLanesOfPairs(Words(v.val0), Words(v.val1), Words(v.val2), Words(v.val3));
    BF16Vec16(VecPerm(NarrowRegister(v.val0), NarrowRegister(v.val1), PackMask),
              VecPerm(NarrowRegister(v.val2), NarrowRegister(v.val3), PackMask))
  }

  /** Narrowing four runs of lanes is narrowing the first two and the last two. */
  lemma NarrowLanesOfPairs(w0: seq<bv32>, w1: seq<bv32>, w2: seq<bv32>, w3: seq<bv32>)
    ensures NarrowLanes(w0 + w1 + w2 + w3) == NarrowLanes(w0 + w1) + NarrowLanes(w2 + w3)
  {
    assert w0 + w1 + w2 + w3 == (w0 + w1) + (w2 + w3);
    NarrowLanesConcat(w0 + w1, w2 + w3);
  }

  /** Every lane of the written 16-lane constructor is zero; the corrected one keeps a NaN lane NaN. */
  lemma FromFP32Vec16Lanes(v: FP32Vec16)
    ensures FromFP32Vec16(v).Lanes() == seq(16, k => 0 as bv16)
    ensures forall k :: 0 <= k < 16 && IsNaN(v.Lanes()[k]) ==> FromFP32Vec16Fixed(v).Lanes()[k] == NaNHalf
  {
    ZeroRegistersLanes();
  }

  /** Two zero registers hold sixteen zero lanes. */
  lemma ZeroRegistersLanes()
    ensures Halves(ZeroReg) + Halves(ZeroReg) == seq(16, k => 0 as bv16)
  {
    HalvesOfZero();
    var z := Halves(ZeroReg) + Halves(ZeroReg);
    assert forall k :: 0 <= k < 16 ==> z[k] == 0;
  }
}
