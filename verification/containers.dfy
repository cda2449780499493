/**
  The vector containers of csrc/cpu/cpu_types_vxe.hpp, as the registers they
  hold. A BF16 container keeps bfloat16 lanes as the 16-bit elements of its
  registers; an FP32 container keeps float lanes as the 32-bit elements. On
  the big-endian target, lane k of a container is element k mod n of
  register k / n, n being the elements per register.
 */
module Containers {
  import opened Register

  /** BF16Vec8: eight bfloat16 lanes in one register. */
  datatype BF16Vec8 = BF16Vec8(reg: Reg)
  {
    function Lanes(): seq<bv16>
    {
      Halves(reg)
    }
  }

  /** BF16Vec16: sixteen bfloat16 lanes in two registers (ss16x8x2_t). */
  datatype BF16Vec16 = BF16Vec16(val0: Reg, val1: Reg)
  {
    function Lanes(): seq<bv16>
    {
      Halves(val0) + Halves(val1)
    }
  }

  /** BF16Vec32: thirty-two bfloat16 lanes in four registers (ss16x8x4_t). */
  datatype BF16Vec32 = BF16Vec32(val0: Reg, val1: Reg, val2: Reg, val3: Reg)
  {
    function Lanes(): seq<bv16>
    {
      Halves(val0) + Halves(val1) + Halves(val2) + Halves(val3)
    }
  }

  /** FP32Vec8: eight float lanes, as bit patterns, in two registers (f32x4x2_t). */
  datatype FP32Vec8 = FP32Vec8(val0: Reg, val1: Reg)
  {
    function Lanes(): seq<bv32>
    {
      Words(val0) + Words(val1)
    }
  }

  /** FP32Vec16: sixteen float lanes, as bit patterns, in four registers (f32x4x4_t). */
  datatype FP32Vec16 = FP32Vec16(val0: Reg, val1: Reg, val2: Reg, val3: Reg)
  {
    function Lanes(): seq<bv32>
    {
      Words(val0) + Words(val1) + Words(val2) + Words(val3)
    }
  }

  /** The sixteen bytes at offset of a buffer: what vec_xl or a vector dereference reads. */
  function LoadReg(mem: seq<bv8>, offset: nat): Reg
    requires offset + 16 <= |mem|
  {
    mem[offset..offset + 16]
  }
}
