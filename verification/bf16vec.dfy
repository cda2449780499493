/**
  Loading, saving and replicating the BF16 containers, and the scalar store
  storeFP32<c10::BFloat16>.

  Every BF16 load and save of the header passes each register through
  vec_perm(r, r, omask). On the big-endian target the bytes in memory are
  already in element order, so the evident intent is a permutation that
  changes nothing; omask instead spreads the even 16-bit elements over the
  register (Register.SpreadEven). Each operation is modelled as written and,
  where it differs, with the identity control vector; the round-trip lemmas
  say exactly when the written version still round-trips.
 */
module BF16Vecs {
  import opened Register
  import opened Narrowing
  import opened Containers

  // ---------------------------------------------------------------------
  // BF16Vec8
  // ---------------------------------------------------------------------

  /** BF16Vec8(const void *ptr) as written: one register, then vec_perm(reg, reg, omask). */
  function LoadBF16Vec8(mem: seq<bv8>): (v: BF16Vec8)
    requires |mem| >= 16
    ensures v.Lanes() == SpreadEven(Halves(LoadReg(mem, 0)))
  {
    var r := LoadReg(mem, 0);
    PermSelfOMaskHalves(r);
    BF16Vec8(VecPerm(r, r, OMask))
  }

  /** BF16Vec8::save as written: vec_perm(reg, reg, omask), then one register store. */
  function SaveBF16Vec8(v: BF16Vec8): (mem: Reg)
    ensures Halves(mem) == SpreadEven(v.Lanes())
  {
    PermSelfOMaskHalves(v.reg);
    VecPerm(v.reg, v.reg, OMask)
  }

  /**
    Saving what was loaded gives back the sixteen bytes exactly when all
    eight bfloat16 values in them are equal: it holds for the all-zero and
    for a constant buffer, and fails for any two distinct values.
   */
  lemma BF16Vec8RoundTripIff(mem: seq<bv8>)
    requires |mem| >= 16
    ensures SaveBF16Vec8(LoadBF16Vec8(mem)) == LoadReg(mem, 0) <==> Uniform(Halves(LoadReg(mem, 0)))
  {
    PermSelfOMaskTwiceIff(LoadReg(mem, 0));
  }

  /** Loading what was saved gives back the vector exactly when all its lanes are equal. */
  lemma BF16Vec8SaveLoadIff(v: BF16Vec8)
    ensures LoadBF16Vec8(SaveBF16Vec8(v)) == v <==> Uniform(v.Lanes())
  {
    PermSelfOMaskTwiceIff(v.reg);
  }

  /** BF16Vec8(const void *ptr) with the identity control vector: the register is the bytes read. */
  function LoadBF16Vec8Fixed(mem: seq<bv8>): (v: BF16Vec8)
    requires |mem| >= 16
    ensures v.Lanes() == Halves(LoadReg(mem, 0))
  {
    var r := LoadReg(mem, 0);
    PermIdentity(r);
    BF16Vec8(VecPerm(r, r, IdentityMask))
  }

  /** BF16Vec8::save with the identity control vector. */
  function SaveBF16Vec8Fixed(v: BF16Vec8): (mem: Reg)
    ensures Halves(mem) == v.Lanes()
  {
    PermIdentity(v.reg);
    VecPerm(v.reg, v.reg, IdentityMask)
  }

  lemma BF16Vec8FixedRoundTrip(mem: seq<bv8>, v: BF16Vec8)
    requires |mem| >= 16
    ensures SaveBF16Vec8Fixed(LoadBF16Vec8Fixed(mem)) == LoadReg(mem, 0)
    ensures LoadBF16Vec8Fixed(SaveBF16Vec8Fixed(v)) == v
  {
    HalvesInjective(SaveBF16Vec8Fixed(LoadBF16Vec8Fixed(mem)), LoadReg(mem, 0));
    HalvesInjective(LoadBF16Vec8Fixed(SaveBF16Vec8Fixed(v)).reg, v.reg);
  }

  // ---------------------------------------------------------------------
  // BF16Vec16
  // ---------------------------------------------------------------------

  /** BF16Vec16(const void *ptr) as written: two registers at offsets 0 and 16, each self-permuted. */
  function LoadBF16Vec16(mem: seq<bv8>): (v: BF16Vec16)
    requires |mem| >= 32
    ensures v.Lanes() == SpreadEven(Halves(LoadReg(mem, 0))) + SpreadEven(Halves(LoadReg(mem, 16)))
  {
    var r0 := LoadReg(mem, 0);
    var r1 := LoadReg(mem, 16);
    PermSelfOMaskHalves(r0);
    PermSelfOMaskHalves(r1);
    BF16Vec16(VecPerm(r0, r0, OMask), VecPerm(r1, r1, OMask))
  }

  /** BF16Vec16::save as written: each register self-permuted, stored at offsets 0 and 16. */
  function SaveBF16Vec16(v: BF16Vec16): (mem: seq<bv8>)
    ensures |mem| == 32
    ensures Halves(LoadReg(mem, 0)) == SpreadEven(Halves(v.val0))
    ensures Halves(LoadReg(mem, 16)) == SpreadEven(Halves(v.val1))
  {
    var t0 := VecPerm(v.val0, v.val0, OMask);
    var t1 := VecPerm(v.val1, v.val1, OMask);
    PermSelfOMaskHalves(v.val0);
    PermSelfOMaskHalves(v.val1);
    assert LoadReg(t0 + t1, 0) == t0 && LoadReg(t0 + t1, 16) == t1;
    t0 + t1
  }

  /** The 32-byte round trip holds exactly when each 16-byte half holds eight equal values. */
  lemma BF16Vec16RoundTripIff(mem: seq<bv8>)
    requires |mem| >= 32
    ensures SaveBF16Vec16(LoadBF16Vec16(mem)) == mem[..32]
        <==> Uniform(Halves(LoadReg(mem, 0))) && Uniform(Halves(LoadReg(mem, 16)))
  {
    var r0 := LoadReg(mem, 0);
    var r1 := LoadReg(mem, 16);
    var v := LoadBF16Vec16(mem);
    PermSelfOMaskTwiceIff(r0);
    PermSelfOMaskTwiceIff(r1);
    Split2(mem[..32]);
    AppendInjective(VecPerm(v.val0, v.val0, OMask), VecPerm(v.val1, v.val1, OMask), r0, r1);
  }

  /** A 32-byte buffer is its two 16-byte halves. */
  lemma Split2(mem: seq<bv8>)
    requires |mem| == 32
    ensures mem == mem[0..16] + mem[16..32]
  {
  }

  /** A 64-byte buffer is its four 16-byte quarters. */
  lemma Split4(mem: seq<bv8>)
    requires |mem| == 64
    ensures mem == mem[0..16] + mem[16..32] + mem[32..48] + mem[48..64]
  {
  }

  /** Four equally long blocks are equal exactly when their concatenations are. */
  lemma Concat4Injective<T>(a0: seq<T>, a1: seq<T>, a2: seq<T>, a3: seq<T>, b0: seq<T>, b1: seq<T>, b2: seq<T>, b3: seq<T>)
    requires |a0| == |b0| && |a1| == |b1| && |a2| == |b2|
    ensures a0 + a1 + a2 + a3 == b0 + b1 + b2 + b3 <==> a0 == b0 && a1 == b1 && a2 == b2 && a3 == b3
  {
    AppendInjective(a0 + a1 + a2, a3, b0 + b1 + b2, b3);
    AppendInjective(a0 + a1, a2, b0 + b1, b2);
    AppendInjective(a0, a1, b0, b1);
  }

  /** BF16Vec16(const void *ptr) with the identity control vector. */
  function LoadBF16Vec16Fixed(mem: seq<bv8>): (v: BF16Vec16)
    requires |mem| >= 32
    ensures v.val0 + v.val1 == mem[..32]
  {
    var r0 := LoadReg(mem, 0);
    var r1 := LoadReg(mem, 16);
    PermIdentity(r0);
    PermIdentity(r1);
    BF16Vec16(VecPerm(r0, r0, IdentityMask), VecPerm(r1, r1, IdentityMask))
  }

  /** BF16Vec16::save with the identity control vector. */
  function SaveBF16Vec16Fixed(v: BF16Vec16): (mem: seq<bv8>)
    ensures mem == v.val0 + v.val1
  {
    PermIdentity(v.val0);
    PermIdentity(v.val1);
    VecPerm(v.val0, v.val0, IdentityMask) + VecPerm(v.val1, v.val1, IdentityMask)
  }

  lemma BF16Vec16FixedRoundTrip(mem: seq<bv8>, v: BF16Vec16)
    requires |mem| >= 32
    ensures SaveBF16Vec16Fixed(LoadBF16Vec16Fixed(mem)) == mem[..32]
    ensures LoadBF16Vec16Fixed(SaveBF16Vec16Fixed(v)) == v
  {
    var w := LoadBF16Vec16Fixed(SaveBF16Vec16Fixed(v));
    AppendInjective(w.val0, w.val1, v.val0, v.val1);
  }

  // ---------------------------------------------------------------------
  // BF16Vec32
  // ---------------------------------------------------------------------

  /** BF16Vec32(const void *ptr) as written: four registers read as one block, each self-permuted. */
  function LoadBF16Vec32(mem: seq<bv8>): (v: BF16Vec32)
    requires |mem| >= 64
    ensures v.Lanes() == SpreadEven(Halves(LoadReg(mem, 0))) + SpreadEven(Halves(LoadReg(mem, 16)))
                       + SpreadEven(Halves(LoadReg(mem, 32))) + SpreadEven(Halves(LoadReg(mem, 48)))
  {
    var r0 := LoadReg(mem, 0);
    var r1 := LoadReg(mem, 16);
    var r2 := LoadReg(mem, 32);
    var r3 := LoadReg(mem, 48);
    PermSelfOMaskHalves(r0);
    PermSelfOMaskHalves(r1);
    PermSelfOMaskHalves(r2);
    PermSelfOMaskHalves(r3);
    BF16Vec32(VecPerm(r0, r0, OMask), VecPerm(r1, r1, OMask), VecPerm(r2, r2, OMask), VecPerm(r3, r3, OMask))
  }

  /** BF16Vec32::save: the four registers stored as one block, with no permutation. */
  function SaveBF16Vec32(v: BF16Vec32): (mem: seq<bv8>)
    ensures |mem| == 64
    ensures LoadReg(mem, 0) == v.val0 && LoadReg(mem, 16) == v.val1
    ensures LoadReg(mem, 32) == v.val2 && LoadReg(mem, 48) == v.val3
  {
    v.val0 + v.val1 + v.val2 + v.val3
  }

  /** BF16Vec32(ss16x8x4_t data) and the identity-mask load: the registers are the bytes read. */
  function LoadBF16Vec32Fixed(mem: seq<bv8>): (v: BF16Vec32)
    requires |mem| >= 64
    ensures SaveBF16Vec32(v) == mem[..64]
  {
    var v := BF16Vec32(LoadReg(mem, 0), LoadReg(mem, 16), LoadReg(mem, 32), LoadReg(mem, 48));
    assert SaveBF16Vec32(v) == mem[..64];
    v
  }

  /**
    Since the load permutes and the save does not, the 64-byte round trip
    holds exactly when each 16-byte quarter holds eight equal values.
   */
  lemma BF16Vec32RoundTripIff(mem: seq<bv8>)
    requires |mem| >= 64
    ensures SaveBF16Vec32(LoadBF16Vec32(mem)) == mem[..64]
        <==> (Uniform(Halves(LoadReg(mem, 0))) && Uniform(Halves(LoadReg(mem, 16)))
          && Uniform(Halves(LoadReg(mem, 32))) && Uniform(Halves(LoadReg(mem, 48))))
  {
    var v := LoadBF16Vec32(mem);
    PermSelfOMaskFixedIff(LoadReg(mem, 0));
    PermSelfOMaskFixedIff(LoadReg(mem, 16));
    PermSelfOMaskFixedIff(LoadReg(mem, 32));
    PermSelfOMaskFixedIff(LoadReg(mem, 48));
    Split4(mem[..64]);
    Concat4Injective(v.val0, v.val1, v.val2, v.val3, LoadReg(mem, 0), LoadReg(mem, 16), LoadReg(mem, 32), LoadReg(mem, 48));
  }

  lemma BF16Vec32FixedRoundTrip(mem: seq<bv8>, v: BF16Vec32)
    requires |mem| >= 64
    ensures SaveBF16Vec32(LoadBF16Vec32Fixed(mem)) == mem[..64]
    ensures LoadBF16Vec32Fixed(SaveBF16Vec32(v)) == v
  {
  }

  /** BF16Vec32(const BF16Vec8 &): the one register replicated into all four. */
  function Replicate(v: BF16Vec8): (w: BF16Vec32)
    ensures |w.Lanes()| == 32
    ensures forall k :: 0 <= k < 32 ==> w.Lanes()[k] == v.Lanes()[k % 8]
  {
    var w := BF16Vec32(v.reg, v.reg, v.reg, v.reg);
    assert forall k :: 0 <= k < 32 ==> w.Lanes()[k] == v.Lanes()[k % 8] by {
      forall k | 0 <= k < 32
        ensures w.Lanes()[k] == v.Lanes()[k % 8]
      {
        if k < 8 {
          assert k % 8 == k;
        } else if k < 16 {
          assert k % 8 == k - 8;
        } else if k < 24 {
          assert k % 8 == k - 16;
        } else {
          assert k % 8 == k - 24;
        }
      }
    }
    w
  }

  /** A replicated vector saves as four copies of the source register and loads back unchanged. */
  lemma ReplicateSaveLoad(v: BF16Vec8)
    ensures SaveBF16Vec32(Replicate(v)) == v.reg + v.reg + v.reg + v.reg
    ensures LoadBF16Vec32Fixed(SaveBF16Vec32(Replicate(v))) == Replicate(v)
  {
  }

  // ---------------------------------------------------------------------
  // storeFP32<c10::BFloat16>
  // ---------------------------------------------------------------------

  /**
    storeFP32<c10::BFloat16>(v, ptr) as written: the 16-bit unit at v_ptr + 1,
    bytes 2 and 3 of the float's image, which on a big-endian target is the
    LOW half, the mantissa bits a bfloat16 drops.
   */
  function StoreFP32BF16(x: bv32): (h: bv16)
    ensures h == Lo(x)
  {
    var b := WordBytes(x);
    Be32Low(b[0], b[1], b[2], b[3]);
    Be16(b[2], b[3])
  }

  /**
    storeFP32<c10::BFloat16> as its comment intends: the high half, bytes 0
    and 1 of the image. This truncates; it does not round.
   */
  function StoreFP32BF16Fixed(x: bv32): (h: bv16)
    ensures h == Hi(x)
  {
    var b := WordBytes(x);
    Be32High(b[0], b[1], b[2], b[3]);
    HighHalfIsHi(x);
    Be16(b[0], b[1])
  }

  lemma HighHalfIsHi(x: bv32)
    ensures (x >> 16) as bv16 == Hi(x)
  {
  }

  /**
    The intended store keeps the bfloat16 value of the float: widening the
    stored half gives the float with its low half cleared, and on a float
    that is already a bfloat16 value it agrees with the rounding conversion.
   */
  lemma StoreFP32BF16FixedKeepsValue(x: bv32)
    ensures Hi(Widen(StoreFP32BF16Fixed(x))) == Hi(x) && Lo(Widen(StoreFP32BF16Fixed(x))) == 0
    ensures !IsNaN(x) && Lo(x) == 0 ==> Widen(StoreFP32BF16Fixed(x)) == x && StoreFP32BF16Fixed(x) == Narrow(x)
  {
    WidenHalves(Hi(x));
    if !IsNaN(x) && Lo(x) == 0 {
      ExactWhenLowHalfZero(x);
    }
  }

  /**
    The intended store truncates where the conversion constructors round. On
    a float that is not NaN the two agree exactly when the dropped half is
    below 0x8000 or is an exact tie on an even high half; on a NaN, exactly
    when the high half already is NaNHalf.
   */
  lemma StoreFP32BF16TruncatesIff(x: bv32)
    ensures !IsNaN(x) ==> (StoreFP32BF16Fixed(x) == Narrow(x) <==> Lo(x) < 0x8000 || (Lo(x) == 0x8000 && Hi(x) & 1 == 0))
    ensures IsNaN(x) ==> (StoreFP32BF16Fixed(x) == Narrow(x) <==> Hi(x) == NaNHalf)
  {
    if !IsNaN(x) && Lo(x) >= 0x8000 {
      OneApart(Hi(x));
      if Lo(x) == 0x8000 && Hi(x) & 1 == 1 {
        OddTie(Hi(x));
      } else if Lo(x) == 0x8000 {
        EvenTie(Hi(x));
      }
    }
  }

  /** The written store agrees with the intended one only when both halves of the float are equal. */
  lemma StoreFP32BF16CorrectIff(x: bv32)
    ensures StoreFP32BF16(x) == StoreFP32BF16Fixed(x) <==> Lo(x) == Hi(x)
  {
  }

  /** Storing 1.0f (0x3F800000) writes 0x0000, the value 0.0, instead of 0x3F80. */
  lemma StoreFP32BF16One()
    ensures StoreFP32BF16(0x3F80_0000) == 0 && StoreFP32BF16Fixed(0x3F80_0000) == 0x3F80
  {
  }
}
