/**
  The 128-bit vector register of z/Architecture as the header uses it: sixteen
  bytes in address order. The machine is big-endian, so byte 0 is the most
  significant byte of element 0 whatever the element width; a 32-bit element k
  occupies bytes 4k..4k+3 and a 16-bit element k occupies bytes 2k..2k+1.

  The three byte-level intrinsics the header relies on are modelled here:
  `vec_perm` (byte gather from a 32-byte concatenation), `vec_mergeh` and
  `vec_mergel` (interleaving of 16-bit elements).
 */
module Register {

  /** One vector register, as its sixteen bytes in address order. */
  type Reg = s: seq<bv8> | |s| == 16 witness [0, 0, 0, 0, 0, 0, 0, 0, 0, 0, 0, 0, 0, 0, 0, 0]

  /** `zero`: the all-zero register (vec_splats((signed short)0)). */
  const ZeroReg: Reg := [0, 0, 0, 0, 0, 0, 0, 0, 0, 0, 0, 0, 0, 0, 0, 0]

  /** The permute-control vector `omask` of the header. */
  const OMask: Reg := [0, 1, 4, 5, 8, 9, 12, 13, 16, 17, 20, 21, 24, 25, 28, 29]

  /** The control vector that selects the LOW 16 bits of every 32-bit word of a‖b. */
  const PackMask: Reg := [2, 3, 6, 7, 10, 11, 14, 15, 18, 19, 22, 23, 26, 27, 30, 31]

  /** The control vector under which vec_perm(r, r, m) leaves r unchanged. */
  const IdentityMask: Reg := [0, 1, 2, 3, 4, 5, 6, 7, 8, 9, 10, 11, 12, 13, 14, 15]

  /** vec_perm(a, b, m): result byte i is byte (m[i] mod 32) of the concatenation a‖b. */
  function VecPerm(a: Reg, b: Reg, m: Reg): Reg
  {
    seq(16, i requires 0 <= i < 16 => (a + b)[(m[i] % 32) as int])
  }

  /** Byte j (0 = most significant) of a 32-bit word stored big-endian. */
  function WordByte(x: bv32, j: nat): bv8
    requires j < 4
  {
    if j == 0 then (x >> 24) as bv8
    else if j == 1 then ((x >> 16) & 0xFF) as bv8
    else if j == 2 then ((x >> 8) & 0xFF) as bv8
    else (x & 0xFF) as bv8
  }

  /** Byte j (0 = most significant) of a 16-bit element stored big-endian. */
  function HalfByte(h: bv16, j: nat): bv8
    requires j < 2
  {
    if j == 0 then (h >> 8) as bv8 else (h & 0xFF) as bv8
  }

  /** The big-endian 32-bit value of four bytes. */
  function Be32(b0: bv8, b1: bv8, b2: bv8, b3: bv8): bv32
  {
    (b0 as bv32 << 24) | (b1 as bv32 << 16) | (b2 as bv32 << 8) | b3 as bv32
  }

  /** The big-endian 16-bit value of two bytes. */
  function Be16(b0: bv8, b1: bv8): bv16
  {
    (b0 as bv16 << 8) | b1 as bv16
  }

  /** 32-bit element k of a register. */
  function WordAt(r: Reg, k: nat): bv32
    requires k < 4
  {
    Be32(r[4 * k], r[4 * k + 1], r[4 * k + 2], r[4 * k + 3])
  }

  /** 16-bit element k of a register. */
  function HalfAt(r: Reg, k: nat): bv16
    requires k < 8
  {
    Be16(r[2 * k], r[2 * k + 1])
  }

  /** The four 32-bit elements of a register. */
  function Words(r: Reg): (w: seq<bv32>)
    ensures |w| == 4
  {
    seq(4, k requires 0 <= k < 4 => WordAt(r, k))
  }

  /** The eight 16-bit elements of a register. */
  function Halves(r: Reg): (h: seq<bv16>)
    ensures |h| == 8
  {
    seq(8, k requires 0 <= k < 8 => HalfAt(r, k))
  }

  lemma Be32Bytes(x: bv32)
    ensures Be32(WordByte(x, 0), WordByte(x, 1), WordByte(x, 2), WordByte(x, 3)) == x
  {
  }

  lemma Be16Bytes(h: bv16)
    ensures Be16(HalfByte(h, 0), HalfByte(h, 1)) == h
  {
  }

  /** The four bytes of a 32-bit word, most significant first. */
  function WordBytes(x: bv32): (s: seq<bv8>)
    ensures |s| == 4 && Be32(s[0], s[1], s[2], s[3]) == x
  {
    Be32Bytes(x);
    [WordByte(x, 0), WordByte(x, 1), WordByte(x, 2), WordByte(x, 3)]
  }

  /** The register whose 32-bit elements are w, laid out big-endian. */
  function FromWords(w: seq<bv32>): (r: Reg)
    requires |w| == 4
    ensures forall k :: 0 <= k < 4 ==> WordAt(r, k) == w[k]
  {
    var r: Reg := WordBytes(w[0]) + WordBytes(w[1]) + WordBytes(w[2]) + WordBytes(w[3]);
    assert forall k :: 0 <= k < 4 ==> WordAt(r, k) == w[k] by {
      forall k | 0 <= k < 4
        ensures WordAt(r, k) == w[k]
      {
        if k == 0 {
        } else if k == 1 {
        } else if k == 2 {
        } else {
        }
      }
    }
    r
  }

  /** The register whose 16-bit elements are h, laid out big-endian. */
  function FromHalves(h: seq<bv16>): (r: Reg)
    requires |h| == 8
    ensures forall k :: 0 <= k < 8 ==> HalfAt(r, k) == h[k]
  {
    var r: Reg := seq(16, i requires 0 <= i < 16 => HalfByte(h[i / 2], i % 2));
    assert forall k :: 0 <= k < 8 ==> HalfAt(r, k) == h[k] by {
      forall k | 0 <= k < 8
        ensures HalfAt(r, k) == h[k]
      {
        Be16Bytes(h[k]);
      }
    }
    r
  }

  /** Two registers with the same 16-bit elements are the same register. */
  lemma HalvesDetermine(r: Reg, s: Reg)
    requires forall k :: 0 <= k < 8 ==> HalfAt(r, k) == HalfAt(s, k)
    ensures r == s
  {
    forall i | 0 <= i < 16
      ensures r[i] == s[i]
    {
      var k := i / 2;
      assert HalfAt(r, k) == HalfAt(s, k);
      HalfBytesDetermine(r[2 * k], r[2 * k + 1], s[2 * k], s[2 * k + 1]);
    }
  }

  lemma HalfBytesDetermine(a0: bv8, a1: bv8, b0: bv8, b1: bv8)
    requires Be16(a0, a1) == Be16(b0, b1)
    ensures a0 == b0 && a1 == b1
  {
    Be16Split(a0, a1);
    Be16Split(b0, b1);
  }

  lemma Be16Split(b0: bv8, b1: bv8)
    ensures HalfByte(Be16(b0, b1), 0) == b0 && HalfByte(Be16(b0, b1), 1) == b1
  {
  }

  /** A 32-bit element is its two 16-bit elements, the even one on top. */
  lemma WordOfHalves(r: Reg, k: nat)
    requires k < 4
    ensures WordAt(r, k) == (HalfAt(r, 2 * k) as bv32 << 16) | HalfAt(r, 2 * k + 1) as bv32
  {
  }

  /** vec_mergeh on 16-bit elements: a0, b0, a1, b1, a2, b2, a3, b3. */
  function MergeHigh(a: Reg, b: Reg): Reg
  {
    FromHalves(seq(8, i requires 0 <= i < 8 => if i % 2 == 0 then HalfAt(a, i / 2) else HalfAt(b, i / 2)))
  }

  /** vec_mergel on 16-bit elements: a4, b4, a5, b5, a6, b6, a7, b7. */
  function MergeLow(a: Reg, b: Reg): Reg
  {
    FromHalves(seq(8, i requires 0 <= i < 8 => if i % 2 == 0 then HalfAt(a, 4 + i / 2) else HalfAt(b, 4 + i / 2)))
  }

  /**
    For j < 4, omask names bytes 4j and 4j+1 of a‖b in its entries 2j and
    2j+1, and bytes 4j and 4j+1 of b in its entries 2(j+4) and 2(j+4)+1.
   */
  lemma OMaskEntries(j: nat)
    requires j < 4
    ensures (OMask[2 * j] % 32) as int == 4 * j && (OMask[2 * j + 1] % 32) as int == 4 * j + 1
    ensures (OMask[2 * (j + 4)] % 32) as int == 16 + 4 * j && (OMask[2 * (j + 4) + 1] % 32) as int == 16 + (4 * j + 1)
  {
    if j == 0 {
    } else if j == 1 {
    } else if j == 2 {
    } else {
    }
  }

  /** The same for PackMask, which names bytes 4j+2 and 4j+3. */
  lemma PackMaskEntries(j: nat)
    requires j < 4
    ensures (PackMask[2 * j] % 32) as int == 4 * j + 2 && (PackMask[2 * j + 1] % 32) as int == 4 * j + 3
    ensures (PackMask[2 * (j + 4)] % 32) as int == 16 + (4 * j + 2) && (PackMask[2 * (j + 4) + 1] % 32) as int == 16 + (4 * j + 3)
  {
    if j == 0 {
    } else if j == 1 {
    } else if j == 2 {
    } else {
    }
  }

  /** Byte 16 + i of a‖b is byte i of b. */
  lemma SecondOperandByte(a: Reg, b: Reg, i: nat)
    requires i < 16
    ensures (a + b)[16 + i] == b[i]
  {
  }

  /**
    16-bit elements j and j + 4 of vec_perm(a, b, omask), for j < 4, are made
    of bytes 4j and 4j+1 of a and of b: the first two bytes of word j.
   */
  lemma OMaskBytes(a: Reg, b: Reg, j: nat)
    requires j < 4
    ensures VecPerm(a, b, OMask)[2 * j] == a[4 * j] && VecPerm(a, b, OMask)[2 * j + 1] == a[4 * j + 1]
    ensures VecPerm(a, b, OMask)[2 * (j + 4)] == b[4 * j] && VecPerm(a, b, OMask)[2 * (j + 4) + 1] == b[4 * j + 1]
  {
    OMaskEntries(j);
    SecondOperandByte(a, b, 4 * j);
    SecondOperandByte(a, b, 4 * j + 1);
  }

  /**
    16-bit elements j and j + 4 of vec_perm(a, b, PackMask), for j < 4, are
    made of bytes 4j+2 and 4j+3 of a and of b: the last two bytes of word j.
   */
  lemma PackMaskBytes(a: Reg, b: Reg, j: nat)
    requires j < 4
    ensures VecPerm(a, b, PackMask)[2 * j] == a[4 * j + 2] && VecPerm(a, b, PackMask)[2 * j + 1] == a[4 * j + 3]
    ensures VecPerm(a, b, PackMask)[2 * (j + 4)] == b[4 * j + 2] && VecPerm(a, b, PackMask)[2 * (j + 4) + 1] == b[4 * j + 3]
  {
    PackMaskEntries(j);
    SecondOperandByte(a, b, 4 * j + 2);
    SecondOperandByte(a, b, 4 * j + 3);
  }

  /**
    The 16-bit element of r that vec_perm(r, r, omask) places at position k:
    element 2k for the first four positions and 2(k - 4) for the last four,
    that is element 2 * (k mod 4).
   */
  function EvenSource(k: nat): (j: nat)
    requires k < 8
    ensures j < 8
  {
    if k < 4 then 2 * k else 2 * k - 8
  }

  /**
    vec_perm(r, r, omask) is not a permutation of r: 16-bit element k of the
    result is element EvenSource(k) of r, so the even elements appear twice
    and the odd elements not at all.
   */
  lemma PermSelfOMask(r: Reg)
    ensures forall k :: 0 <= k < 8 ==> HalfAt(VecPerm(r, r, OMask), k) == HalfAt(r, EvenSource(k))
  {
    forall k | 0 <= k < 8
      ensures HalfAt(VecPerm(r, r, OMask), k) == HalfAt(r, EvenSource(k))
    {
      if k < 4 {
        PermSelfOMaskAt(r, k);
      } else {
        PermSelfOMaskAt(r, k - 4);
      }
    }
  }

  lemma PermSelfOMaskAt(r: Reg, j: nat)
    requires j < 4
    ensures HalfAt(VecPerm(r, r, OMask), j) == HalfAt(r, 2 * j)
    ensures HalfAt(VecPerm(r, r, OMask), j + 4) == HalfAt(r, 2 * j)
  {
    OMaskBytes(r, r, j);
    EvenHalfCopied(VecPerm(r, r, OMask), j, r, j);
    EvenHalfCopied(VecPerm(r, r, OMask), j + 4, r, j);
  }

  /** A 16-bit element made of the first two bytes of word j of r is element 2j of r. */
  lemma EvenHalfCopied(p: Reg, i: nat, r: Reg, j: nat)
    requires i < 8 && j < 4
    requires p[2 * i] == r[4 * j] && p[2 * i + 1] == r[4 * j + 1]
    ensures HalfAt(p, i) == HalfAt(r, 2 * j)
  {
  }

  /**
    vec_perm(a, b, omask) takes bytes 4k and 4k+1 of a‖b: on a big-endian
    machine that is the HIGH half of 32-bit word k of the concatenation.
   */
  lemma PackOMask(a: Reg, b: Reg)
    ensures forall k :: 0 <= k < 4 ==> HalfAt(VecPerm(a, b, OMask), k) == (WordAt(a, k) >> 16) as bv16
    ensures forall k :: 4 <= k < 8 ==> HalfAt(VecPerm(a, b, OMask), k) == (WordAt(b, k - 4) >> 16) as bv16
  {
    forall k | 0 <= k < 4
      ensures HalfAt(VecPerm(a, b, OMask), k) == (WordAt(a, k) >> 16) as bv16
      ensures HalfAt(VecPerm(a, b, OMask), k + 4) == (WordAt(b, k) >> 16) as bv16
    {
      OMaskAt(a, b, k);
    }
  }

  lemma OMaskAt(a: Reg, b: Reg, k: nat)
    requires k < 4
    ensures HalfAt(VecPerm(a, b, OMask), k) == (WordAt(a, k) >> 16) as bv16
    ensures HalfAt(VecPerm(a, b, OMask), k + 4) == (WordAt(b, k) >> 16) as bv16
  {
    OMaskBytes(a, b, k);
    HighHalfCopied(VecPerm(a, b, OMask), k, a, k);
    HighHalfCopied(VecPerm(a, b, OMask), k + 4, b, k);
  }

  /** A 16-bit element made of the first two bytes of word k of a is that word's high half. */
  lemma HighHalfCopied(p: Reg, i: nat, a: Reg, k: nat)
    requires i < 8 && k < 4
    requires p[2 * i] == a[4 * k] && p[2 * i + 1] == a[4 * k + 1]
    ensures HalfAt(p, i) == (WordAt(a, k) >> 16) as bv16
  {
    Be32High(a[4 * k], a[4 * k + 1], a[4 * k + 2], a[4 * k + 3]);
  }

  /** A 16-bit element made of the last two bytes of word k of a is that word's low half. */
  lemma LowHalfCopied(p: Reg, i: nat, a: Reg, k: nat)
    requires i < 8 && k < 4
    requires p[2 * i] == a[4 * k + 2] && p[2 * i + 1] == a[4 * k + 3]
    ensures HalfAt(p, i) == (WordAt(a, k) & 0xFFFF) as bv16
  {
    Be32Low(a[4 * k], a[4 * k + 1], a[4 * k + 2], a[4 * k + 3]);
  }

  /** vec_perm(a, b, PackMask) takes the LOW half of 32-bit word k of a‖b. */
  lemma PackLowHalves(a: Reg, b: Reg)
    ensures forall k :: 0 <= k < 4 ==> HalfAt(VecPerm(a, b, PackMask), k) == (WordAt(a, k) & 0xFFFF) as bv16
    ensures forall k :: 4 <= k < 8 ==> HalfAt(VecPerm(a, b, PackMask), k) == (WordAt(b, k - 4) & 0xFFFF) as bv16
  {
    forall k | 0 <= k < 4
      ensures HalfAt(VecPerm(a, b, PackMask), k) == (WordAt(a, k) & 0xFFFF) as bv16
      ensures HalfAt(VecPerm(a, b, PackMask), k + 4) == (WordAt(b, k) & 0xFFFF) as bv16
    {
      PackMaskAt(a, b, k);
    }
  }

  lemma PackMaskAt(a: Reg, b: Reg, k: nat)
    requires k < 4
    ensures HalfAt(VecPerm(a, b, PackMask), k) == (WordAt(a, k) & 0xFFFF) as bv16
    ensures HalfAt(VecPerm(a, b, PackMask), k + 4) == (WordAt(b, k) & 0xFFFF) as bv16
  {
    PackMaskBytes(a, b, k);
    LowHalfCopied(VecPerm(a, b, PackMask), k, a, k);
    LowHalfCopied(VecPerm(a, b, PackMask), k + 4, b, k);
  }

  lemma Be32High(b0: bv8, b1: bv8, b2: bv8, b3: bv8)
    ensures (Be32(b0, b1, b2, b3) >> 16) as bv16 == Be16(b0, b1)
  {
  }

  lemma Be32Low(b0: bv8, b1: bv8, b2: bv8, b3: bv8)
    ensures (Be32(b0, b1, b2, b3) & 0xFFFF) as bv16 == Be16(b2, b3)
  {
  }

  /** Permuting a register with itself under IdentityMask changes nothing. */
  lemma PermIdentity(r: Reg)
    ensures VecPerm(r, r, IdentityMask) == r
  {
    var p := VecPerm(r, r, IdentityMask);
    assert forall i :: 0 <= i < 16 ==> p[i] == r[i];
  }

  /**
    vec_perm(r, r, omask) forgets the odd 16-bit elements: two registers that
    agree on their even elements give the same result. Hence no store-side
    permutation can recover the loaded bytes.
   */
  lemma PermSelfOMaskForgets(r: Reg, s: Reg)
    requires forall j :: 0 <= j < 4 ==> HalfAt(r, 2 * j) == HalfAt(s, 2 * j)
    ensures VecPerm(r, r, OMask) == VecPerm(s, s, OMask)
  {
    PermSelfOMask(r);
    PermSelfOMask(s);
    forall k | 0 <= k < 8
      ensures HalfAt(VecPerm(r, r, OMask), k) == HalfAt(VecPerm(s, s, OMask), k)
    {
      var j := if k < 4 then k else k - 4;
      assert EvenSource(k) == 2 * j;
      assert HalfAt(r, 2 * j) == HalfAt(s, 2 * j);
    }
    HalvesDetermine(VecPerm(r, r, OMask), VecPerm(s, s, OMask));
  }

  /** Element k of vec_mergeh(a, b), read as a 32-bit word, is a_k above b_k. */
  lemma MergeHighWords(a: Reg, b: Reg)
    ensures forall k :: 0 <= k < 4 ==> WordAt(MergeHigh(a, b), k) == (HalfAt(a, k) as bv32 << 16) | HalfAt(b, k) as bv32
  {
    forall k | 0 <= k < 4
      ensures WordAt(MergeHigh(a, b), k) == (HalfAt(a, k) as bv32 << 16) | HalfAt(b, k) as bv32
    {
      MergeHighWord(a, b, k);
    }
  }

  lemma MergeHighWord(a: Reg, b: Reg, k: nat)
    requires k < 4
    ensures WordAt(MergeHigh(a, b), k) == (HalfAt(a, k) as bv32 << 16) | HalfAt(b, k) as bv32
  {
    var h := seq(8, i requires 0 <= i < 8 => if i % 2 == 0 then HalfAt(a, i / 2) else HalfAt(b, i / 2));
    EvenOddIndex(k);
    assert h[2 * k] == HalfAt(a, k) && h[2 * k + 1] == HalfAt(b, k);
    assert MergeHigh(a, b) == FromHalves(h);
    WordFromHalves(MergeHigh(a, b), k, HalfAt(a, k), HalfAt(b, k));
  }

  /** Element k of vec_mergel(a, b), read as a 32-bit word, is a_(k+4) above b_(k+4). */
  lemma MergeLowWords(a: Reg, b: Reg)
    ensures forall k :: 0 <= k < 4 ==> WordAt(MergeLow(a, b), k) == (HalfAt(a, k + 4) as bv32 << 16) | HalfAt(b, k + 4) as bv32
  {
    forall k | 0 <= k < 4
      ensures WordAt(MergeLow(a, b), k) == (HalfAt(a, k + 4) as bv32 << 16) | HalfAt(b, k + 4) as bv32
    {
      MergeLowWord(a, b, k);
    }
  }

  lemma MergeLowWord(a: Reg, b: Reg, k: nat)
    requires k < 4
    ensures WordAt(MergeLow(a, b), k) == (HalfAt(a, k + 4) as bv32 << 16) | HalfAt(b, k + 4) as bv32
  {
    var h := seq(8, i requires 0 <= i < 8 => if i % 2 == 0 then HalfAt(a, 4 + i / 2) else HalfAt(b, 4 + i / 2));
    EvenOddIndex(k);
    assert h[2 * k] == HalfAt(a, k + 4) && h[2 * k + 1] == HalfAt(b, k + 4);
    assert MergeLow(a, b) == FromHalves(h);
    WordFromHalves(MergeLow(a, b), k, HalfAt(a, k + 4), HalfAt(b, k + 4));
  }

  /** Positions 2k and 2k+1 are the even and the odd position of pair k. */
  lemma EvenOddIndex(k: nat)
    ensures (2 * k) % 2 == 0 && (2 * k) / 2 == k && (2 * k + 1) % 2 == 1 && (2 * k + 1) / 2 == k
  {
  }

  lemma WordFromHalves(r: Reg, k: nat, hi: bv16, lo: bv16)
    requires k < 4 && HalfAt(r, 2 * k) == hi && HalfAt(r, 2 * k + 1) == lo
    ensures WordAt(r, k) == (hi as bv32 << 16) | lo as bv32
  {
    WordOfHalves(r, k);
  }

  /** Two concatenations with equally long first parts agree exactly when both parts do. */
  lemma AppendInjective<T>(a: seq<T>, b: seq<T>, c: seq<T>, d: seq<T>)
    requires |a| == |c|
    ensures a + b == c + d <==> a == c && b == d
  {
    if a + b == c + d {
      assert a == (a + b)[..|a|] && c == (c + d)[..|a|];
      assert b == (a + b)[|a|..] && d == (c + d)[|a|..];
    }
  }

  /** A sequence all of whose elements equal its first. */
  ghost predicate Uniform<T>(h: seq<T>)
  {
    forall k :: 0 <= k < |h| ==> h[k] == h[0]
  }

  /** The shuffle omask performs on the eight 16-bit elements of a register permuted with itself. */
  function SpreadEven<T>(h: seq<T>): (r: seq<T>)
    requires |h| == 8
    ensures |r| == 8
  {
    seq(8, k requires 0 <= k < 8 => h[EvenSource(k)])
  }

  /** The 16-bit elements of vec_perm(r, r, omask) are SpreadEven of those of r. */
  lemma PermSelfOMaskHalves(r: Reg)
    ensures Halves(VecPerm(r, r, OMask)) == SpreadEven(Halves(r))
  {
    PermSelfOMask(r);
  }

  /** Registers are equal exactly when their 16-bit elements are. */
  lemma HalvesInjective(r: Reg, s: Reg)
    ensures r == s <==> Halves(r) == Halves(s)
  {
    if Halves(r) == Halves(s) {
      assert forall k :: 0 <= k < 8 ==> HalfAt(r, k) == Halves(r)[k];
      HalvesDetermine(r, s);
    }
  }

  lemma SpreadEvenFixedIff<T>(h: seq<T>)
    requires |h| == 8
    ensures SpreadEven(h) == h <==> Uniform(h)
  {
    if Uniform(h) {
      assert forall k :: 0 <= k < 8 ==> SpreadEven(h)[k] == h[k];
    } else {
      UniformOfChain(h);
      var s := SpreadEven(h);
      assert s[1] == h[2] && s[2] == h[4] && s[4] == h[0] && s[3] == h[6] && s[5] == h[2] && s[6] == h[4] && s[7] == h[6];
    }
  }

  lemma {:induction false} SpreadEvenTwiceIff<T>(h: seq<T>)
    requires |h| == 8
    ensures forall k :: 0 <= k < 8 ==> SpreadEven(SpreadEven(h))[k] == h[if k % 2 == 0 then 0 else 4]
    ensures SpreadEven(SpreadEven(h)) == h <==> Uniform(h)
  {
    var twice := SpreadEven(SpreadEven(h));
    forall k | 0 <= k < 8
      ensures twice[k] == h[if k % 2 == 0 then 0 else 4]
    {
      var j := EvenSource(k);
      assert twice[k] == SpreadEven(h)[j] == h[EvenSource(j)];
    }
    if Uniform(h) {
      assert forall k :: 0 <= k < 8 ==> twice[k] == h[k];
    } else {
      UniformOfChain(h);
      assert twice[1] == h[4] && twice[2] == h[0] && twice[3] == h[4] && twice[4] == h[0];
      assert twice[5] == h[4] && twice[6] == h[0] && twice[7] == h[4];
    }
  }

  /** Equalities along the chain 1-2-4-0 and 3-6-4, 5-2, 7-6 make all eight elements equal. */
  lemma UniformOfChain<T>(h: seq<T>)
    requires |h| == 8
    ensures h[1] == h[2] && h[2] == h[4] && h[4] == h[0] && h[3] == h[6] && h[6] == h[4] && h[5] == h[2] && h[7] == h[6]
      ==> Uniform(h)
  {
  }

  /**
    vec_perm(r, r, omask) leaves r unchanged exactly when all eight 16-bit
    elements of r are equal.
   */
  lemma PermSelfOMaskFixedIff(r: Reg)
    ensures VecPerm(r, r, OMask) == r <==> Uniform(Halves(r))
  {
    PermSelfOMaskHalves(r);
    HalvesInjective(VecPerm(r, r, OMask), r);
    SpreadEvenFixedIff(Halves(r));
  }

  /**
    Applying vec_perm(., ., omask) twice gives r back exactly when all eight
    16-bit elements of r are equal; otherwise element 0 lands in every even
    position and element 4 in every odd one.
   */
  lemma PermSelfOMaskTwiceIff(r: Reg)
    ensures Halves(VecPerm(VecPerm(r, r, OMask), VecPerm(r, r, OMask), OMask)) == SpreadEven(SpreadEven(Halves(r)))
    ensures VecPerm(VecPerm(r, r, OMask), VecPerm(r, r, OMask), OMask) == r <==> Uniform(Halves(r))
  {
    var p := VecPerm(r, r, OMask);
    PermSelfOMaskHalves(r);
    PermSelfOMaskHalves(p);
    HalvesInjective(VecPerm(p, p, OMask), r);
    SpreadEvenTwiceIff(Halves(r));
  }
}
