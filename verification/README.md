# bfloat16 / float32 vector layer for s390x, modelled in Dafny

This project models `csrc/cpu/cpu_types_vxe.hpp`. The header is the vector layer that
the CPU kernels use on IBM Z (s390x), a big-endian machine with 128-bit vector
registers. It provides the containers `BF16Vec8`, `BF16Vec16` and `BF16Vec32` of
bfloat16 lanes and `FP32Vec8` and `FP32Vec16` of float lanes. It also provides their
loads and saves, the float32 to bfloat16 conversion constructors, widening, replication,
the element-wise operators, `fma`, `exp`/`tanh`/`er`, the reductions and the scalar
store `storeFP32<c10::BFloat16>`.

The model is split into modules that follow the header's layers:

- `Register` (register.dfy): a vector register as its sixteen bytes in address order.
  It covers `vec_perm`, `vec_mergeh`/`vec_mergel`, the `omask` control vector, and
  the big-endian layout of 16- and 32-bit elements.
- `Narrowing` (narrowing.dfy): the per-lane float32 to bfloat16 conversion of the two
  conversion constructors, on raw bit patterns, plus a round-to-nearest-even reference.
- `Containers` (containers.dfy): the five containers as the registers they hold, each
  with its lane sequence.
- `BF16Vecs` (bf16vec.dfy): the BF16 loads, saves and replication, and
  `storeFP32<c10::BFloat16>`.
- `Packing` (packing.dfy): the conversion constructors `BF16Vec8(const FP32Vec8 &)`
  and `BF16Vec16(const FP32Vec16 &)`. Each narrows every lane in place, then packs
  two registers into one.
- `FP32Layout` (fp32layout.dfy): the `FP32Vec8` load and save, the widening
  `FP32Vec8(const BF16Vec8 &)`, and the `FP32Vec16` save.
- `LaneAlgebra` and `FP32Lanes` (lanealgebra.dfy, fp32lanes.dfy): lane-index logic
  over an opaque lane type. The float operations are parameters: the operators, `fma`,
  `exp`/`tanh`/`er`, `reduce_sum` and `reduce_sub_sum`.
- `VectorTests` (vectortests.dfy): the scenarios of `csrc/cpu/vector_tests.cpp`,
  stated against the model.

Where the code as written does not do what its comments and tests say, the model has
both versions. The as-written member follows the code. The corrected member
(`...Fixed`, or `PackMask`/`IdentityMask` in place of `omask`) states the intended
behaviour. A lemma states exactly when the two agree. "## Findings" lists these.

Two mismatches concern the placement of code in the header rather than what it does:

- The header never closes `struct FP32Vec8`. The `FP32Vec16` operators, the second
  `reduce_sum`, `reduce_sub_sum` and the second `save` (lines 294-353) sit textually
  inside it, and `FP32Vec16` itself is never defined. The model reads those members
  as members of a 16-lane `FP32Vec16`, which is what their bodies index.
- `omask` is used before its declaration at line 383. The model uses its declared value.

Values the header uses but never defines are assumed:

- `mask16` = 0xFFFF
- `bias` = 0x7FFF
- `nan` = 0x7FC00000
- `sh16` = 16
- `one` = 1

"Is NaN" is the bit predicate: exponent all ones and mantissa nonzero.

## Model

| member | source | states |
|---|---|---|
| Register.OMaskBytes | csrc/cpu/cpu_types_vxe.hpp:383-388 | under omask, bytes 2j and 2j+1 of vec_perm(a, b, omask) are bytes 4j and 4j+1 of a, and bytes 2(j+4) and 2(j+4)+1 are bytes 4j and 4j+1 of b: the first two bytes of every 32-bit element |
| Register.WordBytes | csrc/cpu/cpu_types_vxe.hpp:374 | the four bytes of a float in memory on the big-endian target, most significant first, read back as the float |
| Register.PackOMask | csrc/cpu/cpu_types_vxe.hpp:417 | packing two registers with omask gives, in 16-bit element k, the HIGH half of 32-bit element k of inp0‖inp1 |
| Register.PackLowHalves | csrc/cpu/cpu_types_vxe.hpp:469-470 | packing with the corrected control vector gives the LOW half of 32-bit element k of inp0‖inp1, where the narrowed value lies |
| Register.PermSelfOMaskHalves | csrc/cpu/cpu_types_vxe.hpp:79 | vec_perm(r, r, omask) is not a permutation: 16-bit element k of the result is element 2·(k mod 4) of r |
| Register.PermSelfOMaskFixedIff | csrc/cpu/cpu_types_vxe.hpp:79 | vec_perm(r, r, omask) leaves r unchanged if and only if all eight 16-bit elements of r are equal |
| Register.PermSelfOMaskTwiceIff | csrc/cpu/cpu_types_vxe.hpp:86 | applying the self-permutation twice (load then save) gives r back if and only if all eight elements are equal |
| Register.PermSelfOMaskForgets | csrc/cpu/cpu_types_vxe.hpp:100-101 | the result of the self-permutation depends only on the even 16-bit elements; the odd ones are lost |
| Register.PermIdentity | csrc/cpu/cpu_types_vxe.hpp:126-129 | the identity control vector leaves a register unchanged (the corrected load) |
| Register.SpreadEvenTwiceIff | csrc/cpu/cpu_types_vxe.hpp:110-111 | spreading the even elements twice puts element 0 in every even lane and element 4 in every odd lane; the result equals the input iff the input is uniform |
| Register.MergeHighWords | csrc/cpu/cpu_types_vxe.hpp:198 | 32-bit element k of vec_mergeh(a, b) is 16-bit element k of a in the high half above element k of b |
| Register.MergeLowWords | csrc/cpu/cpu_types_vxe.hpp:199 | 32-bit element k of vec_mergel(a, b) is element k+4 of a above element k+4 of b |
| Narrowing.NarrowWord | csrc/cpu/cpu_types_vxe.hpp:430-466 | one lane of the 16-lane constructor before packing: the result fits in 16 bits, and a NaN lane yields nan >> 16 |
| Narrowing.NarrowWord8 | csrc/cpu/cpu_types_vxe.hpp:397-414 | one lane of the 8-lane constructor before packing: fits in 16 bits; a NaN lane yields nan >> 16 |
| Narrowing.Narrow | csrc/cpu/cpu_types_vxe.hpp:421-466 | 16-lane rounding: high half when the low half is below 0x8000, high half + 1 above, ties to even, 0x7FC0 for NaN |
| Narrowing.Narrow8 | csrc/cpu/cpu_types_vxe.hpp:390-414 | 8-lane rounding: high half + 0, +1 or +2 depending on whether the low half is ≤ 0x4000, ≤ 0xC000 or above |
| Narrowing.NarrowIsRoundNearestEven | csrc/cpu/cpu_types_vxe.hpp:440-449 | for every non-NaN input the 16-lane rounding equals the independent round-to-nearest-even reference |
| Narrowing.NaNPreserved | csrc/cpu/cpu_types_vxe.hpp:451-460 | a NaN lane comes out as 0x7FC0 in both variants and widens back to a NaN |
| Narrowing.ExactWhenLowHalfZero | csrc/cpu/cpu_types_vxe.hpp:397-404 | a non-NaN float with zero low half narrows to its high half in both variants and widens back to itself |
| Narrowing.WidenThenNarrow | csrc/cpu/cpu_types_vxe.hpp:463-466 | widening a bfloat16 value and narrowing it back gives it back, NaN patterns becoming 0x7FC0 |
| Narrowing.NarrowVariantsAgree | csrc/cpu/cpu_types_vxe.hpp:400-404 | the two variants agree exactly on NaN, low half ≤ 0x4000, odd ties and 0x8000 < low half ≤ 0xC000; elsewhere the 8-lane one is one higher |
| Narrowing.Narrow8RoundsAwayFromNearest | csrc/cpu/cpu_types_vxe.hpp:401-404 | 0x3F804001 narrows to 0x3F80 by nearest-even but to 0x3F81 by the 8-lane rounding |
| Narrowing.CarryIntoExponent | csrc/cpu/cpu_types_vxe.hpp:446-449 | the rounding carry is not special-cased: 0x7F7FFFFF and 0x7F7F8000 round to 0x7F80 (infinity) |
| Narrowing.TestValuesNarrow | csrc/cpu/cpu_types_vxe.hpp:430-449 | the 16-lane rounding narrows 0.0, ±0.5, ±0.25, ±0.75 and 1.0-8.0 exactly and rounds ±0.1 up in magnitude (the values are those of the input arrays in csrc/cpu/vector_tests.cpp, lines 132-177) |
| BF16Vecs.LoadBF16Vec8 | csrc/cpu/cpu_types_vxe.hpp:76-80 | the loaded lanes are the spread even 16-bit elements of the 16 bytes read |
| BF16Vecs.SaveBF16Vec8 | csrc/cpu/cpu_types_vxe.hpp:84-88 | the stored 16-bit elements are the spread even lanes of the vector |
| BF16Vecs.BF16Vec8RoundTripIff | csrc/cpu/cpu_types_vxe.hpp:76-88 | load then save reproduces the 16 bytes if and only if their eight 16-bit elements are all equal |
| BF16Vecs.BF16Vec8SaveLoadIff | csrc/cpu/cpu_types_vxe.hpp:76-88 | save then load reproduces the vector if and only if its eight lanes are all equal |
| BF16Vecs.LoadBF16Vec8Fixed | csrc/cpu/cpu_types_vxe.hpp:76-80 | the corrected load: lane k is 16-bit element k of memory |
| BF16Vecs.SaveBF16Vec8Fixed | csrc/cpu/cpu_types_vxe.hpp:84-88 | the corrected save: stored element k is lane k |
| BF16Vecs.BF16Vec8FixedRoundTrip | csrc/cpu/cpu_types_vxe.hpp:76-88 | corrected load and save are inverse in both orders |
| BF16Vecs.LoadBF16Vec16 | csrc/cpu/cpu_types_vxe.hpp:96-102 | lanes are the spread even elements of each 16-byte half |
| BF16Vecs.SaveBF16Vec16 | csrc/cpu/cpu_types_vxe.hpp:106-114 | each stored half holds the spread even elements of the corresponding register |
| BF16Vecs.BF16Vec16RoundTripIff | csrc/cpu/cpu_types_vxe.hpp:96-114 | the 32-byte round trip holds if and only if each 16-byte half holds eight equal elements |
| BF16Vecs.LoadBF16Vec16Fixed | csrc/cpu/cpu_types_vxe.hpp:96-102 | the corrected load keeps the 32 bytes as they are |
| BF16Vecs.SaveBF16Vec16Fixed | csrc/cpu/cpu_types_vxe.hpp:106-114 | the corrected save stores both registers in order |
| BF16Vecs.BF16Vec16FixedRoundTrip | csrc/cpu/cpu_types_vxe.hpp:96-114 | corrected 16-lane load and save are inverse in both orders |
| BF16Vecs.LoadBF16Vec32 | csrc/cpu/cpu_types_vxe.hpp:124-130 | lanes are the spread even elements of each 16-byte quarter |
| BF16Vecs.SaveBF16Vec32 | csrc/cpu/cpu_types_vxe.hpp:141 | the save writes the four registers unpermuted, in order |
| BF16Vecs.LoadBF16Vec32Fixed | csrc/cpu/cpu_types_vxe.hpp:124-132 | the corrected load (as the ss16x8x4_t constructor does) is undone by the save |
| BF16Vecs.BF16Vec32RoundTripIff | csrc/cpu/cpu_types_vxe.hpp:124-141 | the permuting load followed by the raw save reproduces 64 bytes iff each quarter holds eight equal elements |
| BF16Vecs.Replicate | csrc/cpu/cpu_types_vxe.hpp:134-139 | lane k of the 32-lane vector is lane k mod 8 of the 8-lane vector |
| BF16Vecs.ReplicateSaveLoad | csrc/cpu/cpu_types_vxe.hpp:134-141 | saving the replicated vector writes the register four times, and the corrected load gets it back |
| BF16Vecs.StoreFP32BF16 | csrc/cpu/cpu_types_vxe.hpp:372-376 | the unit at v_ptr + 1 is the LOW half of the float on the big-endian target |
| BF16Vecs.StoreFP32BF16Fixed | csrc/cpu/cpu_types_vxe.hpp:372-376 | the corrected store takes the high half, the float truncated to bfloat16 |
| BF16Vecs.StoreFP32BF16FixedKeepsValue | csrc/cpu/cpu_types_vxe.hpp:375 | the corrected store keeps sign, exponent and top mantissa bits, and is exact on bfloat16-representable floats |
| BF16Vecs.StoreFP32BF16TruncatesIff | csrc/cpu/cpu_types_vxe.hpp:372-376 | the corrected store truncates: for a non-NaN float it equals the rounded 16-lane narrowing iff the low half is below 0x8000 or is an even tie; for a NaN iff the high half is 0x7FC0 |
| BF16Vecs.StoreFP32BF16CorrectIff | csrc/cpu/cpu_types_vxe.hpp:375 | the written store agrees with the intended one iff the float's two halves are equal |
| BF16Vecs.StoreFP32BF16One | csrc/cpu/cpu_types_vxe.hpp:375 | 1.0f (0x3F800000) is stored as 0x0000 instead of 0x3F80 |
| Packing.NarrowRegister | csrc/cpu/cpu_types_vxe.hpp:430-466 | every 32-bit element of a register narrowed in place by the 16-lane step |
| Packing.NarrowRegister8 | csrc/cpu/cpu_types_vxe.hpp:397-414 | every 32-bit element narrowed in place by the 8-lane step |
| Packing.OMaskPackIsZero | csrc/cpu/cpu_types_vxe.hpp:413-417 | packing two registers whose elements fit in 16 bits with omask yields the all-zero register |
| Packing.PackMaskPacksNarrowed | csrc/cpu/cpu_types_vxe.hpp:463-470 | packing with the corrected mask puts the narrowed value of input lane k in element k, as the comments at lines 416 and 468 promise |
| Packing.FromFP32Vec8 | csrc/cpu/cpu_types_vxe.hpp:390-419 | as written, BF16Vec8(const FP32Vec8 &) yields the all-zero register whatever the input |
| Packing.FromFP32Vec8Fixed | csrc/cpu/cpu_types_vxe.hpp:390-419 | corrected, lane k is lane k of the input rounded to nearest even |
| Packing.FromFP32Vec8CorrectIff | csrc/cpu/cpu_types_vxe.hpp:390-419 | the written constructor gives the intended lanes iff every lane narrows to +0.0 |
| Packing.FromFP32Vec8FixedExact | csrc/cpu/cpu_types_vxe.hpp:397-404 | on lanes that are bfloat16 values, the corrected conversion is exact and widens back to the input |
| Packing.FromFP32Vec16 | csrc/cpu/cpu_types_vxe.hpp:421-475 | as written, BF16Vec16(const FP32Vec16 &) yields two all-zero registers |
| Packing.FromFP32Vec16Fixed | csrc/cpu/cpu_types_vxe.hpp:421-475 | corrected, lane k is lane k of the input rounded to nearest even |
| Packing.FromFP32Vec16Lanes | csrc/cpu/cpu_types_vxe.hpp:469-470 | every lane of the written result is zero; the corrected one maps a NaN lane to 0x7FC0 |
| FP32Layout.LoadFP32Vec8 | csrc/cpu/cpu_types_vxe.hpp:183-188 | the loaded registers hold the spread even 16-bit elements of each 16 bytes read, not the floats |
| FP32Layout.SaveFP32Vec8 | csrc/cpu/cpu_types_vxe.hpp:288-291 | val[1] is written at offset 0 and val[0] at offset 16 |
| FP32Layout.LoadFP32Vec8Fixed | csrc/cpu/cpu_types_vxe.hpp:183-185 | the corrected load: lanes are the eight floats read, in order |
| FP32Layout.SaveFP32Vec8Fixed | csrc/cpu/cpu_types_vxe.hpp:289-290 | the corrected save writes val[0] first |
| FP32Layout.FP32Vec8FixedRoundTrip | csrc/cpu/cpu_types_vxe.hpp:183-188 | corrected load and save are inverse in both orders |
| FP32Layout.LoadFP32Vec8Forgets | csrc/cpu/cpu_types_vxe.hpp:186-187 | two buffers that agree on their even 16-bit elements load as the same vector |
| FP32Layout.FP32Vec8RoundTripIff | csrc/cpu/cpu_types_vxe.hpp:288-291 | the written save after the written load reproduces 32 bytes iff both halves are equal and hold eight equal 16-bit elements |
| FP32Layout.SaveFP32Vec8CorrectIff | csrc/cpu/cpu_types_vxe.hpp:289-290 | the written save agrees with the intended layout iff val[0] == val[1] |
| FP32Layout.FromBF16Vec8 | csrc/cpu/cpu_types_vxe.hpp:197-200 | as written, float lane k is bfloat16 lane k zero-extended, i.e. in the low half |
| FP32Layout.FromBF16Vec8Fixed | csrc/cpu/cpu_types_vxe.hpp:197-200 | corrected, float lane k is bfloat16 lane k widened into the high half |
| FP32Layout.MergedLane | csrc/cpu/cpu_types_vxe.hpp:198-199 | lane k of the merged pair has element k of the first operand above element k of the second |
| FP32Layout.FromBF16Vec8CorrectIff | csrc/cpu/cpu_types_vxe.hpp:198-199 | the written widening gives the intended lanes iff every bfloat16 lane is zero |
| FP32Layout.WidenThenNarrowVector | csrc/cpu/cpu_types_vxe.hpp:197-200 | corrected widening followed by the corrected conversion returns every lane, NaN lanes as 0x7FC0 |
| FP32Layout.SaveFP32Vec16 | csrc/cpu/cpu_types_vxe.hpp:348-353 | val[3] is written at offset 0, then val[2], val[1], and val[0] at offset 48 |
| FP32Layout.SaveFP32Vec16Fixed | csrc/cpu/cpu_types_vxe.hpp:348-353 | the corrected save writes the registers in lane order |
| FP32Layout.SavedFP32Vec16ReadsBack | csrc/cpu/cpu_types_vxe.hpp:349-352 | reading back the first eight floats gives lanes 0-7 after the corrected save and lanes 12-15, 8-11 after the written one |
| FP32Layout.SaveFP32Vec16CorrectIff | csrc/cpu/cpu_types_vxe.hpp:349-352 | the written save agrees with the intended one iff val[0] == val[3] and val[1] == val[2] |
| FP32Lanes.Vec8Operator | csrc/cpu/cpu_types_vxe.hpp:260-286 | the FP32Vec8 operators give eight lanes, lane k being op(b[k], self[k]): the operands are swapped |
| FP32Lanes.VecOperator | csrc/cpu/cpu_types_vxe.hpp:294-324 | the FP32Vec16 operators keep the lane count, lane k being op(self[k], b[k]) |
| FP32Lanes.Vec8OperatorSwapsOperands | csrc/cpu/cpu_types_vxe.hpp:260-286 | the FP32Vec8 operators compute op(b[k], self[k]) in lane k |
| FP32Lanes.Vec8OperatorCorrectIff | csrc/cpu/cpu_types_vxe.hpp:274-286 | an FP32Vec8 operator equals the lane-wise op(self, b) iff op(b[k], self[k]) == op(self[k], b[k]) in every lane |
| FP32Lanes.Vec8CommutativeOperatorCorrect | csrc/cpu/cpu_types_vxe.hpp:260-272 | for a commutative op (+, ·) the swapped operands do not matter |
| FP32Lanes.Vec8SubtractCorrectIff | csrc/cpu/cpu_types_vxe.hpp:274-279 | on integers, FP32Vec8 subtraction gives self - b iff self == b |
| FP32Lanes.AddThenSubtract | csrc/cpu/cpu_types_vxe.hpp:302-316 | on integers, the FP32Vec16 operators satisfy (a + b) - b == a |
| FP32Lanes.VecAddSum | csrc/cpu/cpu_types_vxe.hpp:302-308 | the lane sum of a + b is the sum of the lane sums, for a commutative monoid |
| FP32Lanes.Fma | csrc/cpu/cpu_types_vxe.hpp:367-369 | fma gives sixteen lanes, lane k being acc[k] + a[k]·b[k] |
| FP32Lanes.FmaLanes | csrc/cpu/cpu_types_vxe.hpp:367-369 | lane k of fma is acc[k] + a[k]·b[k] |
| FP32Lanes.FmaSum | csrc/cpu/cpu_types_vxe.hpp:367-369 | the lane sum after fma is the old sum plus the lane sum of the products |
| FP32Lanes.Transcend8 | csrc/cpu/cpu_types_vxe.hpp:210-258 | exp, tanh and er give eight lanes, lane k being f of the mirrored input lane (the same position counted from the other end of its half) |
| FP32Lanes.TranscendMirrors | csrc/cpu/cpu_types_vxe.hpp:210-258 | exp/tanh/er output lane k is f of input lane 4(k/4) + 3 - k%4 |
| FP32Lanes.MirrorHalvesInvolution | csrc/cpu/cpu_types_vxe.hpp:217-225 | reversing each half of four lanes twice is the identity |
| FP32Lanes.Transcend8Fixed | csrc/cpu/cpu_types_vxe.hpp:210-228 | the intended exp/tanh/er: lane k is f of lane k |
| FP32Lanes.TranscendFixedOfMirrored | csrc/cpu/cpu_types_vxe.hpp:230-243 | the written and intended versions are each other applied to the half-reversed input |
| FP32Lanes.TranscendCorrectIff | csrc/cpu/cpu_types_vxe.hpp:245-258 | the written version is correct iff f agrees on every pair of mirrored lanes |
| FP32Lanes.TranscendCounterexample | csrc/cpu/cpu_types_vxe.hpp:217-225 | with f the identity, [0..7] maps to [3, 2, 1, 0, 7, 6, 5, 4] |
| FP32Lanes.ReduceSum | csrc/cpu/cpu_types_vxe.hpp:202-208 | the result is the left fold of the lanes in index order |
| FP32Lanes.ReduceSumReversed | csrc/cpu/cpu_types_vxe.hpp:325-332 | the result is the fold of the reversed lanes, equal to the forward sum for a commutative monoid |
| FP32Lanes.ReduceSubSum | csrc/cpu/cpu_types_vxe.hpp:334-346 | reads exactly lanes [idx·G, idx·G + G) from the top down; for a commutative monoid it is their sum |
| FP32Lanes.SubSum | csrc/cpu/cpu_types_vxe.hpp:334-346 | for a commutative monoid, reduce_sub_sum for group idx is the sum of the lanes [idx·G, idx·G + G) |
| FP32Lanes.SubSumsAreBlockSums | csrc/cpu/cpu_types_vxe.hpp:341-343 | the sub-sums for idx = 0..n-1 are the sums of the consecutive blocks of G lanes |
| FP32Lanes.SubSumsAddUp | csrc/cpu/cpu_types_vxe.hpp:325-346 | summing reduce_sub_sum over all groups equals reduce_sum, forward or reversed |
| FP32Lanes.IntSubSumsAddUp | csrc/cpu/cpu_types_vxe.hpp:334-346 | for 16 integer lanes and G = 4 the four sub-sums add up to the total |
| LaneAlgebra.FoldReverse | csrc/cpu/cpu_types_vxe.hpp:329 | summing in reverse order gives the same total when addition is a commutative monoid |
| LaneAlgebra.BlockSumsFold | csrc/cpu/cpu_types_vxe.hpp:336 | the sum of the sums of consecutive G-lane blocks is the sum of those lanes |
| VectorTests.FloatBuffer | csrc/cpu/vector_tests.cpp:193-194 | eight floats in memory read back, through 16-byte loads, as those floats |
| VectorTests.HalvesOfWord | csrc/cpu/vector_tests.cpp:132-133 | the two 16-bit elements of a float in memory are its high and low halves |
| VectorTests.BF16Vec8RoundTripFails | csrc/cpu/vector_tests.cpp:147-160 | a buffer whose first float has different halves fails the written load-save round trip |
| VectorTests.BF16Vec8RoundTripZeros | csrc/cpu/vector_tests.cpp:132-145 | a buffer of +0.0 survives the written load-save round trip |
| VectorTests.SaveScenarios | csrc/cpu/vector_tests.cpp:128-190 | zeros pass, ones, small values and 1.0-8.0 fail through the written BF16Vec8 load and save; all four buffers come back through the corrected load and save |
| VectorTests.ConversionScenario | csrc/cpu/vector_tests.cpp:192-204 | 1.0-8.0 convert to eight zero lanes as written and to 0x3F80, 0x4000, …, 0x4100 corrected |
| VectorTests.NarrowOneToEight | csrc/cpu/vector_tests.cpp:193 | the 16-lane rounding of 1.0-8.0 gives their bfloat16 patterns |

## Left out

- The dispatch macros and the kernel guard logging (csrc/cpu/cpu_types_vxe.hpp:11-25): compile-time plumbing and console output.
- The `vec_add`/`vec_sub`/`vec_mul`/`vec_div` macros (lines 29-33) and `unroll_loop` (lines 35-46): the macros become the lane operations passed as parameters, and `unroll_loop` becomes an ordinary bounded loop in `ReduceSum`, `ReduceSumReversed` and `ReduceSubSum`.
- `Vec<T>::get_elem_num` and the `VEC_ELEM_NUM` constants: the lane counts are the lengths of the lane sequences.
- `FP32Vec4` (lines 144-162), the splat, default, copy and raw-register constructors of `FP32Vec8` (lines 173-181, 190-195), and `BF16Vec32(ss16x8x4_t)`: these only copy registers. The last one is the load `LoadBF16Vec32Fixed` uses.
- `VecType`/`vec_t` (lines 355-361) and the generic `storeFP32<T>` (line 364): a type mapping and a plain assignment.
- `prefetch` (lines 477-479): inline assembly and a cache hint, with no effect on values.
- Floating-point values. Lanes of the float containers are an opaque type. `+`, `-`, `*`, `/`, `std::exp`, `std::tanh` and `std::erf` are function parameters, because IEEE-754 rounding is not what the header's lane logic decides. Float addition is not associative, so the reduction-order results hold for a commutative monoid, integers being the instance given.
- Narrowing.Mask16, Narrowing.Bias, Narrowing.QuietNaN, Narrowing.Sh16, Narrowing.One: `mask16`, `bias`, `nan`, `sh16` and `one` are not defined in the header. Their values here (0xFFFF, 0x7FFF, 0x7FC00000, 16, 1) are an assumption.
- Narrowing.IsNaN: `vec_test_data_class(v, __VEC_CLASS_FP_NAN)` is modelled as the NaN bit predicate. The header's fallback definition `(1 << 6)` at lines 379-381, used only when the system header lacks the name, is not modelled.
- FP32Lanes.ReduceSubSum: requires `(idx + 1) * G <= W`. The header does not check `idx`, and a larger `idx` reads outside the lane array, which is undefined behaviour.
- FP32Lanes.ReduceSumReversed: says nothing about float rounding order, only that the order is reversed and that it does not matter for a commutative monoid.
- The `#ifdef _ARCH_BIG_ENDIAN` / `#ifdef _ARCH_S390X` blocks of the two conversion constructors (lines 391-392 and 422-423): the model assumes both branches are taken, as on the s390x target. Each constructor opens two of them but closes only one (lines 418 and 474), so the `#endif` at line 483 closes the block opened at line 422 and the file ends with two conditionals unterminated, the one of line 391 and the include guard of line 2, which a C preprocessor rejects. The model reads each constructor body as if both conditions held and each block were closed where the function ends; on any other target the constructors would have empty bodies, which is not modelled.
- `csrc/cpu/vector_tests.cpp`: the printing is not modelled. Its BF16Vec8 tests compare eight floats, but the load and save move sixteen bytes, so the scenarios compare the first four floats. The other four output floats are never written.
- The tokenization tests under `tests/tokenization/` exercise code that is not part of this model.

## Findings

| source | as written | input that shows it | evidently intended | confidence | as-written member | corrected member |
|---|---|---|---|---|---|---|
| csrc/cpu/cpu_types_vxe.hpp:397-404 | the 8-lane constructor adds `(x & mask16) + bias`, so it rounds up whenever the low half exceeds 0x4000 | 0x3F804001 gives 0x3F81; nearest-even gives 0x3F80 | the same round-to-nearest-even as the 16-lane constructor, lines 430-449 | not executed | Narrowing.Narrow8RoundsAwayFromNearest | Narrowing.NarrowIsRoundNearestEven |
| csrc/cpu/cpu_types_vxe.hpp:417 | `vec_perm(inp0, inp1, omask)` takes bytes 0-1 of each word, the high half that the shift by 16 has just cleared | 1.0f-8.0f convert to eight zero lanes | take the low half of each word (bytes 2-3), where the narrowed value is | not executed | Packing.FromFP32Vec8CorrectIff | Packing.FromFP32Vec8Fixed |
| csrc/cpu/cpu_types_vxe.hpp:469-470 | the same omask packing in the 16-lane constructor | any input gives sixteen zero lanes | pack the low halves | not executed | Packing.FromFP32Vec16Lanes | Packing.FromFP32Vec16Fixed |
| csrc/cpu/cpu_types_vxe.hpp:79 | the BF16Vec8 load and save permute each register with itself under omask, which duplicates the even 16-bit elements and drops the odd ones | the bytes of 1.0f (3F 80 00 00 ×4) come back as 3F 80 repeated eight times | leave the big-endian element order unchanged | not executed | BF16Vecs.BF16Vec8RoundTripIff | BF16Vecs.BF16Vec8FixedRoundTrip |
| csrc/cpu/cpu_types_vxe.hpp:100-101 | the same self-permutation in the BF16Vec16 load and save | two 16-byte halves that each hold 1.0f | leave the element order unchanged | not executed | BF16Vecs.BF16Vec16RoundTripIff | BF16Vecs.BF16Vec16FixedRoundTrip |
| csrc/cpu/cpu_types_vxe.hpp:126-129 | the BF16Vec32 load permutes, but its save at line 141 does not | 64 bytes holding 1.0f do not come back | a load that the raw save undoes | not executed | BF16Vecs.BF16Vec32RoundTripIff | BF16Vecs.LoadBF16Vec32Fixed |
| csrc/cpu/cpu_types_vxe.hpp:186-187 | the FP32Vec8 load applies the omask self-permutation to whole floats | 1.0f-8.0f load as 0x3F804000, 0x40404080, 0x3F804000, 0x40404080, …, pairs of high halves | the floats read, unchanged | not executed | FP32Layout.FP32Vec8RoundTripIff | FP32Layout.FP32Vec8FixedRoundTrip |
| csrc/cpu/cpu_types_vxe.hpp:289-290 | the FP32Vec8 save writes val[1] before val[0] | 1.0f-8.0f are stored as 5.0f-8.0f, 1.0f-4.0f | lanes stored in order | not executed | FP32Layout.SaveFP32Vec8CorrectIff | FP32Layout.SaveFP32Vec8Fixed |
| csrc/cpu/cpu_types_vxe.hpp:198-199 | widening merges `zero` first, which on big-endian puts the bfloat16 value in the low half of the word | bfloat16 1.0 (0x3F80) widens to 0x00003F80, a subnormal | `vec_mergeh(v.reg, zero)`, putting it in the high half | not executed | FP32Layout.FromBF16Vec8CorrectIff | FP32Layout.FromBF16Vec8Fixed |
| csrc/cpu/cpu_types_vxe.hpp:375 | `*(v_ptr + 1)` is the low half of the float on big-endian | 1.0f stores 0x0000 | the high half, 0x3F80 | not executed | BF16Vecs.StoreFP32BF16One | BF16Vecs.StoreFP32BF16FixedKeepsValue |
| csrc/cpu/cpu_types_vxe.hpp:217-225 | exp, tanh and er reverse the lanes within each half of four | with f the identity, [0..7] gives [3, 2, 1, 0, 7, 6, 5, 4] | lane k is f of lane k | not executed | FP32Lanes.TranscendCounterexample | FP32Lanes.Transcend8Fixed |
| csrc/cpu/cpu_types_vxe.hpp:276-277 | the FP32Vec8 `-` and `/` compute `b - self` and `b / self` | self = 3, b = 1 gives -2 | `self - b`, as the FP32Vec16 operators do | not executed | FP32Lanes.Vec8SubtractCorrectIff | FP32Lanes.AddThenSubtract |
| csrc/cpu/cpu_types_vxe.hpp:349-352 | the FP32Vec16 save writes the registers in reverse order | lanes 0-15 are stored as lanes 12-15, 8-11, 4-7, 0-3 | lanes stored in order | not executed | FP32Layout.SaveFP32Vec16CorrectIff | FP32Layout.SavedFP32Vec16ReadsBack |
