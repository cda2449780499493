/**
  Generic lane algebra for the float containers. A lane value is of an
  opaque type T and the lane arithmetic is passed in as functions, because
  IEEE-754 rounding is not what the containers' index logic is about. The
  header's accumulation loops are left folds; the laws of a commutative
  monoid (which integer addition satisfies, and float addition does not)
  are what makes the order of a fold irrelevant.
 */
module LaneAlgebra {

  /** ((acc + s[0]) + s[1]) + ... + s[|s|-1], the order in which an accumulation loop adds. */
  function Fold<T>(add: (T, T) -> T, acc: T, s: seq<T>): T
    decreases |s|
  {
    if |s| == 0 then acc else add(Fold(add, acc, s[..|s| - 1]), s[|s| - 1])
  }

  /** The lanes of s in the opposite order. */
  function Reverse<T>(s: seq<T>): seq<T>
  {
    seq(|s|, i requires 0 <= i < |s| => s[|s| - 1 - i])
  }

  /** Lane-wise application of a binary operation: lane k is op(a[k], b[k]). */
  function Zip<T>(op: (T, T) -> T, a: seq<T>, b: seq<T>): seq<T>
    requires |a| == |b|
  {
    seq(|a|, k requires 0 <= k < |a| => op(a[k], b[k]))
  }

  /** Lane-wise application of a unary operation: lane k is f(v[k]). */
  function MapLanes<T>(f: T -> T, v: seq<T>): seq<T>
  {
    seq(|v|, k requires 0 <= k < |v| => f(v[k]))
  }

  ghost predicate Associative<T(!new)>(add: (T, T) -> T)
  {
    forall a, b, c :: add(add(a, b), c) == add(a, add(b, c))
  }

  ghost predicate Commutative<T(!new)>(op: (T, T) -> T)
  {
    forall a, b :: op(a, b) == op(b, a)
  }

  ghost predicate Identity<T(!new)>(add: (T, T) -> T, zero: T)
  {
    forall a :: add(zero, a) == a && add(a, zero) == a
  }

  ghost predicate CommutativeMonoid<T(!new)>(add: (T, T) -> T, zero: T)
  {
    Associative(add) && Commutative(add) && Identity(add, zero)
  }

  /** Integer addition, the instance the summation properties are stated for. */
  const IntAdd: (int, int) -> int := (a: int, b: int) => a + b

  lemma IntAddIsCommutativeMonoid()
    ensures CommutativeMonoid(IntAdd, 0)
  {
  }

  /** Folding a concatenation folds the second part from where the first part ended. */
  lemma {:induction false} FoldAppend<T>(add: (T, T) -> T, acc: T, s: seq<T>, t: seq<T>)
    ensures Fold(add, acc, s + t) == Fold(add, Fold(add, acc, s), t)
    decreases |t|
  {
    if |t| == 0 {
      assert s + t == s;
    } else {
      var t' := t[..|t| - 1];
      assert (s + t)[..|s + t| - 1] == s + t';
      FoldAppend(add, acc, s, t');
    }
  }

  /** In a monoid, a fold started from acc is acc added to the fold started from zero. */
  lemma {:induction false} FoldFromAcc<T(!new)>(add: (T, T) -> T, zero: T, acc: T, s: seq<T>)
    requires Associative(add) && Identity(add, zero)
    ensures Fold(add, acc, s) == add(acc, Fold(add, zero, s))
    decreases |s|
  {
    if |s| != 0 {
      FoldFromAcc(add, zero, acc, s[..|s| - 1]);
    }
  }

  /** In a monoid, the fold of a concatenation is the sum of the two folds. */
  lemma FoldConcat<T(!new)>(add: (T, T) -> T, zero: T, s: seq<T>, t: seq<T>)
    requires Associative(add) && Identity(add, zero)
    ensures Fold(add, zero, s + t) == add(Fold(add, zero, s), Fold(add, zero, t))
  {
    FoldAppend(add, zero, s, t);
    FoldFromAcc(add, zero, Fold(add, zero, s), t);
  }

  /** In a commutative monoid, folding the lanes in reverse order gives the same sum. */
  lemma {:induction false} FoldReverse<T(!new)>(add: (T, T) -> T, zero: T, s: seq<T>)
    requires CommutativeMonoid(add, zero)
    ensures Fold(add, zero, Reverse(s)) == Fold(add, zero, s)
    decreases |s|
  {
    if |s| != 0 {
      var init := s[..|s| - 1];
      var last := s[|s| - 1];
      assert Reverse(s) == [last] + Reverse(init);
      FoldReverse(add, zero, init);
      FoldConcat(add, zero, [last], Reverse(init));
      assert Fold(add, zero, [last]) == add(Fold(add, zero, [last][..0]), last);
    }
  }

  /** Lanes [idx * g, idx * g + g) of v: the block a grouped reduction reads. */
  function Block<T>(v: seq<T>, g: nat, idx: nat): seq<T>
    requires (idx + 1) * g <= |v|
  {
    v[idx * g .. idx * g + g]
  }

  /** The sums of the first n blocks of v, in block order. */
  function BlockSums<T>(add: (T, T) -> T, zero: T, v: seq<T>, g: nat, n: nat): (r: seq<T>)
    requires n * g <= |v|
    ensures |r| == n
    decreases n
  {
    if n == 0 then []
    else
      MulPred(n, g);
      BlockSums(add, zero, v, g, n - 1) + [Fold(add, zero, Block(v, g, n - 1))]
  }

  lemma MulPred(n: nat, g: nat)
    requires n > 0
    ensures n * g == (n - 1) * g + g
  {
  }

  /**
    In a monoid, adding up the block sums of the first n blocks gives the
    sum of the first n * g lanes.
   */
  lemma {:induction false} BlockSumsFold<T(!new)>(add: (T, T) -> T, zero: T, v: seq<T>, g: nat, n: nat)
    requires Associative(add) && Identity(add, zero)
    requires n * g <= |v|
    ensures Fold(add, zero, BlockSums(add, zero, v, g, n)) == Fold(add, zero, v[..n * g])
    decreases n
  {
    if n != 0 {
      SplitLastBlock(v, g, n);
      var head := v[..(n - 1) * g];
      var last := Block(v, g, n - 1);
      FoldConcat(add, zero, head, last);
      BlockSumsFold(add, zero, v, g, n - 1);
    }
  }

  /** The first n blocks are the first n - 1 blocks followed by block n - 1. */
  lemma SplitLastBlock<T>(v: seq<T>, g: nat, n: nat)
    requires 0 < n && n * g <= |v|
    ensures (n - 1) * g + g == n * g && (n - 1) * g <= |v|
    ensures v[..n * g] == v[..(n - 1) * g] + Block(v, g, n - 1)
  {
    MulPred(n, g);
  }

  lemma SwapMiddle<T(!new)>(add: (T, T) -> T, p: T, q: T, r: T, s: T)
    requires Associative(add) && Commutative(add)
    ensures add(add(p, q), add(r, s)) == add(add(p, r), add(q, s))
  {
    calc {
      add(add(p, q), add(r, s));
      add(p, add(q, add(r, s)));
      { assert add(q, add(r, s)) == add(add(q, r), s) == add(add(r, q), s) == add(r, add(q, s)); }
      add(p, add(r, add(q, s)));
      add(add(p, r), add(q, s));
    }
  }

  /**
    In a commutative monoid the sum of a lane-wise sum is the sum of the two
    sums: reduce_sum(a + b) == reduce_sum(a) + reduce_sum(b).
   */
  lemma {:induction false} FoldZip<T(!new)>(add: (T, T) -> T, zero: T, a: seq<T>, b: seq<T>)
    requires CommutativeMonoid(add, zero)
    requires |a| == |b|
    ensures Fold(add, zero, Zip(add, a, b)) == add(Fold(add, zero, a), Fold(add, zero, b))
    decreases |a|
  {
    if |a| != 0 {
      var n := |a| - 1;
      assert Zip(add, a, b)[..n] == Zip(add, a[..n], b[..n]);
      FoldZip(add, zero, a[..n], b[..n]);
      SwapMiddle(add, Fold(add, zero, a[..n]), Fold(add, zero, b[..n]), a[n], b[n]);
    }
  }
}
