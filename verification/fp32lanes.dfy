/**
  The lane arithmetic of FP32Vec8 and FP32Vec16 in csrc/cpu/cpu_types_vxe.hpp:
  the element-wise operators, fma, exp/tanh/er and the reductions. A vector
  is the sequence of its lanes in the order of the AliasReg values array; on
  a big-endian target that is also register element order and memory order.
  Lanes are of an opaque type T and the float operations are parameters.
 */
module FP32Lanes {
  import opened LaneAlgebra

  const IntSub: (int, int) -> int := (a: int, b: int) => a - b

  // ---------------------------------------------------------------------
  // Element-wise operators
  // ---------------------------------------------------------------------

  /**
    FP32Vec8's operator*, operator+, operator- and operator/ as written: each
    half is computed as vec_op(b.reg.val[h], reg.val[h]), so the argument is
    the LEFT operand.
   */
  function Vec8Operator<T>(op: (T, T) -> T, self: seq<T>, b: seq<T>): (r: seq<T>)
    requires |self| == 8 && |b| == 8
    ensures |r| == 8 && forall k :: 0 <= k < 8 ==> r[k] == op(b[k], self[k])
  {
    seq(8, k requires 0 <= k < 8 => op(b[k], self[k]))
  }

  /**
    FP32Vec16's operators, and the evident intent of FP32Vec8's: lane k of
    self op b is op(self[k], b[k]).
   */
  function VecOperator<T>(op: (T, T) -> T, self: seq<T>, b: seq<T>): (r: seq<T>)
    requires |self| == |b|
    ensures |r| == |self| && forall k :: 0 <= k < |self| ==> r[k] == op(self[k], b[k])
  {
    Zip(op, self, b)
  }

  /** The as-written FP32Vec8 operator is the intended one with the operands exchanged. */
  lemma Vec8OperatorSwapsOperands<T>(op: (T, T) -> T, self: seq<T>, b: seq<T>)
    requires |self| == 8 && |b| == 8
    ensures Vec8Operator(op, self, b) == VecOperator(op, b, self)
    ensures forall k :: 0 <= k < 8 ==> Vec8Operator(op, self, b)[k] == op(b[k], self[k])
  {
  }

  /**
    The as-written FP32Vec8 operator computes self op b exactly when op gives
    the same result for every lane's operands in either order.
   */
  lemma Vec8OperatorCorrectIff<T>(op: (T, T) -> T, self: seq<T>, b: seq<T>)
    requires |self| == 8 && |b| == 8
    ensures Vec8Operator(op, self, b) == VecOperator(op, self, b)
        <==> forall k :: 0 <= k < 8 ==> op(b[k], self[k]) == op(self[k], b[k])
  {
    if Vec8Operator(op, self, b) == VecOperator(op, self, b) {
      forall k | 0 <= k < 8
        ensures op(b[k], self[k]) == op(self[k], b[k])
      {
        assert Vec8Operator(op, self, b)[k] == VecOperator(op, self, b)[k];
      }
    }
  }

  /** operator* and operator+ are unaffected, as multiplication and addition commute. */
  lemma Vec8CommutativeOperatorCorrect<T(!new)>(op: (T, T) -> T, self: seq<T>, b: seq<T>)
    requires |self| == 8 && |b| == 8
    requires Commutative(op)
    ensures Vec8Operator(op, self, b) == VecOperator(op, self, b)
  {
    Vec8OperatorCorrectIff(op, self, b);
  }

  /**
    operator- as written computes self - b only when self == b: on every
    other pair some lane holds b[k] - self[k] != self[k] - b[k].
   */
  lemma Vec8SubtractCorrectIff(self: seq<int>, b: seq<int>)
    requires |self| == 8 && |b| == 8
    ensures Vec8Operator(IntSub, self, b) == VecOperator(IntSub, self, b) <==> self == b
  {
    Vec8OperatorCorrectIff(IntSub, self, b);
    if Vec8Operator(IntSub, self, b) == VecOperator(IntSub, self, b) {
      forall k | 0 <= k < 8
        ensures self[k] == b[k]
      {
        assert IntSub(b[k], self[k]) == IntSub(self[k], b[k]);
      }
    }
  }

  /** The intended operator: subtracting what was added gives back the original lanes. */
  lemma AddThenSubtract(a: seq<int>, b: seq<int>)
    requires |a| == |b|
    ensures VecOperator(IntSub, VecOperator(IntAdd, a, b), b) == a
  {
  }

  /** Summing the lanes of a + b gives the sum of a's lanes plus the sum of b's lanes. */
  lemma VecAddSum<T(!new)>(add: (T, T) -> T, zero: T, a: seq<T>, b: seq<T>)
    requires CommutativeMonoid(add, zero)
    requires |a| == |b|
    ensures Fold(add, zero, VecOperator(add, a, b)) == add(Fold(add, zero, a), Fold(add, zero, b))
  {
    FoldZip(add, zero, a, b);
  }

  // ---------------------------------------------------------------------
  // fma
  // ---------------------------------------------------------------------

  /** fma(acc, a, b): acc becomes acc + a * b, on FP32Vec16's operators. */
  function Fma<T>(add: (T, T) -> T, mul: (T, T) -> T, acc: seq<T>, a: seq<T>, b: seq<T>): (r: seq<T>)
    requires |acc| == 16 && |a| == 16 && |b| == 16
    ensures |r| == 16 && forall k :: 0 <= k < 16 ==> r[k] == add(acc[k], mul(a[k], b[k]))
  {
    VecOperator(add, acc, VecOperator(mul, a, b))
  }

  /** Lane k of fma's result depends only on lane k of its three inputs. */
  lemma FmaLanes<T>(add: (T, T) -> T, mul: (T, T) -> T, acc: seq<T>, a: seq<T>, b: seq<T>)
    requires |acc| == 16 && |a| == 16 && |b| == 16
    ensures forall k :: 0 <= k < 16 ==> Fma(add, mul, acc, a, b)[k] == add(acc[k], mul(a[k], b[k]))
  {
  }

  /**
    Accumulating a product into acc raises acc's lane sum by the sum of the
    lane products, the dot product that the attention kernels accumulate.
   */
  lemma FmaSum<T(!new)>(add: (T, T) -> T, mul: (T, T) -> T, zero: T, acc: seq<T>, a: seq<T>, b: seq<T>)
    requires CommutativeMonoid(add, zero)
    requires |acc| == 16 && |a| == 16 && |b| == 16
    ensures Fold(add, zero, Fma(add, mul, acc, a, b))
         == add(Fold(add, zero, acc), Fold(add, zero, VecOperator(mul, a, b)))
  {
    FoldZip(add, zero, acc, VecOperator(mul, a, b));
  }

  // ---------------------------------------------------------------------
  // exp, tanh, er
  // ---------------------------------------------------------------------

  /**
    FP32Vec8's exp, tanh and er as written, for the lane function f: within
    each half of four lanes, result lane j is f of input lane 3 - j.
   */
  function Transcend8<T>(f: T -> T, v: seq<T>): (r: seq<T>)
    requires |v| == 8
    ensures |r| == 8 && forall k :: 0 <= k < 8 ==> r[k] == f(v[Mirror(k)])
  {
    [f(v[3]), f(v[2]), f(v[1]), f(v[0]), f(v[7]), f(v[6]), f(v[5]), f(v[4])]
  }

  /** The lane that mirrors lane k within its half of four lanes. */
  function Mirror(k: nat): (m: nat)
    ensures k < 8 ==> m < 8 && m / 4 == k / 4 && m % 4 == 3 - k % 4
  {
    4 * (k / 4) + 3 - k % 4
  }

  /** The lanes of v with each half of four lanes reversed. */
  function MirrorHalves<T>(v: seq<T>): (r: seq<T>)
    requires |v| == 8
    ensures |r| == 8
  {
    seq(8, k requires 0 <= k < 8 => v[Mirror(k)])
  }

  lemma MirrorHalvesInvolution<T>(v: seq<T>)
    requires |v| == 8
    ensures MirrorHalves(MirrorHalves(v)) == v
  {
    assert forall k :: 0 <= k < 8 ==> Mirror(Mirror(k)) == k;
  }

  /** The as-written exp/tanh/er applies f lane-wise to the half-reversed input. */
  lemma TranscendMirrors<T>(f: T -> T, v: seq<T>)
    requires |v| == 8
    ensures Transcend8(f, v) == MapLanes(f, MirrorHalves(v))
    ensures forall k :: 0 <= k < 8 ==> Transcend8(f, v)[k] == f(v[Mirror(k)])
  {
  }

  /** exp, tanh and er as evidently intended: result lane k is f of input lane k. */
  function Transcend8Fixed<T>(f: T -> T, v: seq<T>): (r: seq<T>)
    requires |v| == 8
    ensures |r| == 8 && forall k :: 0 <= k < 8 ==> r[k] == f(v[k])
  {
    MapLanes(f, v)
  }

  /**
    The written and the intended versions differ by the mirroring alone:
    each is the other applied to the half-reversed input.
   */
  lemma TranscendFixedOfMirrored<T>(f: T -> T, v: seq<T>)
    requires |v| == 8
    ensures Transcend8(f, v) == Transcend8Fixed(f, MirrorHalves(v))
    ensures Transcend8(f, MirrorHalves(v)) == Transcend8Fixed(f, v)
  {
    TranscendMirrors(f, v);
    TranscendMirrors(f, MirrorHalves(v));
    MirrorHalvesInvolution(v);
  }

  /**
    The as-written exp/tanh/er equals the lane-wise f exactly when f gives the
    same value on every pair of mirrored lanes.
   */
  lemma TranscendCorrectIff<T>(f: T -> T, v: seq<T>)
    requires |v| == 8
    ensures Transcend8(f, v) == Transcend8Fixed(f, v) <==> forall k :: 0 <= k < 8 ==> f(v[Mirror(k)]) == f(v[k])
  {
    TranscendMirrors(f, v);
    if Transcend8(f, v) == Transcend8Fixed(f, v) {
      forall k | 0 <= k < 8
        ensures f(v[Mirror(k)]) == f(v[k])
      {
        assert Transcend8(f, v)[k] == Transcend8Fixed(f, v)[k];
      }
    }
  }

  /** For v = [0, 1, ..., 7] the as-written result is [3, 2, 1, 0, 7, 6, 5, 4]. */
  lemma TranscendCounterexample()
    ensures Transcend8((x: int) => x, [0, 1, 2, 3, 4, 5, 6, 7]) == [3, 2, 1, 0, 7, 6, 5, 4]
    ensures Transcend8((x: int) => x, [0, 1, 2, 3, 4, 5, 6, 7]) != Transcend8Fixed((x: int) => x, [0, 1, 2, 3, 4, 5, 6, 7])
  {
    assert Transcend8Fixed((x: int) => x, [0, 1, 2, 3, 4, 5, 6, 7])[0] == 0;
  }

  // ---------------------------------------------------------------------
  // Reductions
  // ---------------------------------------------------------------------

  /** FP32Vec8::reduce_sum: result starts at zero and lane i is added in step i. */
  method ReduceSum<T>(add: (T, T) -> T, zero: T, v: seq<T>) returns (result: T)
    ensures result == Fold(add, zero, v)
  {
    result := zero;
    var i := 0;
    while i < |v|
      invariant 0 <= i <= |v|
      invariant result == Fold(add, zero, v[..i])
    {
      assert v[..i + 1][..i] == v[..i];
      result := add(result, v[i]);
      i := i + 1;
    }
    assert v[..|v|] == v;
  }

  /**
    FP32Vec16::reduce_sum: step i adds lane W - 1 - i, so the lanes are added
    last to first. The sum is the forward sum whenever addition is a
    commutative monoid; for floats the two orders round differently.
   */
  method ReduceSumReversed<T(!new)>(add: (T, T) -> T, zero: T, v: seq<T>) returns (result: T)
    ensures result == Fold(add, zero, Reverse(v))
    ensures CommutativeMonoid(add, zero) ==> result == Fold(add, zero, v)
  {
    result := zero;
    var i := 0;
    while i < |v|
      invariant 0 <= i <= |v|
      invariant result == Fold(add, zero, Reverse(v)[..i])
    {
      assert Reverse(v)[..i + 1][..i] == Reverse(v)[..i];
      result := add(result, v[|v| - 1 - i]);
      i := i + 1;
    }
    assert Reverse(v)[..|v|] == Reverse(v);
    if CommutativeMonoid(add, zero) {
      FoldReverse(add, zero, v);
    }
  }

  /** The value reduce_sub_sum<g>(idx) computes: block idx of v summed last lane first. */
  ghost function SubSum<T(!new)>(add: (T, T) -> T, zero: T, v: seq<T>, g: nat, idx: nat): (r: T)
    requires (idx + 1) * g <= |v|
    ensures CommutativeMonoid(add, zero) ==> r == Fold(add, zero, Block(v, g, idx))
  {
    var r := Fold(add, zero, Reverse(Block(v, g, idx)));
    if CommutativeMonoid(add, zero) then FoldReverse(add, zero, Block(v, g, idx)); r else r
  }

  /**
    FP32Vec16::reduce_sub_sum<g>(idx): start is (idx + 1) * g - 1 and step i
    adds lane start - i. The width must be a multiple of g, and idx must name
    a block inside the vector, as the source reads lanes unchecked.
   */
  method ReduceSubSum<T(!new)>(add: (T, T) -> T, zero: T, v: seq<T>, g: nat, idx: nat) returns (result: T)
    requires 0 < g && |v| % g == 0
    requires (idx + 1) * g <= |v|
    ensures result == SubSum(add, zero, v, g, idx)
    ensures CommutativeMonoid(add, zero) ==> result == Fold(add, zero, Block(v, g, idx))
  {
    var start := (idx + 1) * g - 1;
    ghost var block := Block(v, g, idx);
    ghost var rev := Reverse(block);
    ReversedBlock(v, g, idx);
    result := zero;
    var i := 0;
    while i < g
      invariant 0 <= i <= g
      invariant result == Fold(add, zero, rev[..i])
    {
      assert rev[..i + 1][..i] == rev[..i];
      result := add(result, v[start - i]);
      i := i + 1;
    }
    assert rev[..g] == rev;
    if CommutativeMonoid(add, zero) {
      FoldReverse(add, zero, block);
    }
  }

  /** Lane j of block idx read backwards is lane (idx + 1) * g - 1 - j of v. */
  lemma ReversedBlock<T>(v: seq<T>, g: nat, idx: nat)
    requires 0 < g && (idx + 1) * g <= |v|
    ensures |Reverse(Block(v, g, idx))| == g
    ensures forall j :: 0 <= j < g ==> 0 <= (idx + 1) * g - 1 - j < |v| && Reverse(Block(v, g, idx))[j] == v[(idx + 1) * g - 1 - j]
  {
    MulPred(idx + 1, g);
    var lo := idx * g;
    assert lo + g == (idx + 1) * g;
    forall j | 0 <= j < g
      ensures 0 <= (idx + 1) * g - 1 - j < |v| && Reverse(Block(v, g, idx))[j] == v[(idx + 1) * g - 1 - j]
    {
      assert Reverse(Block(v, g, idx))[j] == v[lo + g - 1 - j];
    }
  }

  /** The sub-sums of the first n blocks, in block order. */
  ghost function SubSums<T(!new)>(add: (T, T) -> T, zero: T, v: seq<T>, g: nat, n: nat): (r: seq<T>)
    requires n * g <= |v|
    ensures |r| == n
    decreases n
  {
    if n == 0 then []
    else
      MulPred(n, g);
      SubSums(add, zero, v, g, n - 1) + [SubSum(add, zero, v, g, n - 1)]
  }

  /** In a commutative monoid each sub-sum is the forward block sum. */
  lemma {:induction false} SubSumsAreBlockSums<T(!new)>(add: (T, T) -> T, zero: T, v: seq<T>, g: nat, n: nat)
    requires CommutativeMonoid(add, zero)
    requires n * g <= |v|
    ensures SubSums(add, zero, v, g, n) == BlockSums(add, zero, v, g, n)
    decreases n
  {
    if n != 0 {
      MulPred(n, g);
      SubSumsAreBlockSums(add, zero, v, g, n - 1);
      FoldReverse(add, zero, Block(v, g, n - 1));
    }
  }

  /**
    Adding up reduce_sub_sum<g>(idx) for every group idx gives reduce_sum of
    the whole vector, in either lane order, when addition is a commutative
    monoid.
   */
  lemma SubSumsAddUp<T(!new)>(add: (T, T) -> T, zero: T, v: seq<T>, g: nat, n: nat)
    requires CommutativeMonoid(add, zero)
    requires n * g == |v|
    ensures Fold(add, zero, SubSums(add, zero, v, g, n)) == Fold(add, zero, v)
    ensures Fold(add, zero, SubSums(add, zero, v, g, n)) == Fold(add, zero, Reverse(v))
  {
    SubSumsAreBlockSums(add, zero, v, g, n);
    BlockSumsFold(add, zero, v, g, n);
    assert v[..n * g] == v;
    FoldReverse(add, zero, v);
  }

  /** The integer instance: the group sums of a 16-lane vector in groups of 4 add up to its sum. */
  lemma IntSubSumsAddUp(v: seq<int>)
    requires |v| == 16
    ensures Fold(IntAdd, 0, SubSums(IntAdd, 0, v, 4, 4)) == Fold(IntAdd, 0, v)
  {
    IntAddIsCommutativeMonoid();
    SubSumsAddUp(IntAdd, 0, v, 4, 4);
  }
}
