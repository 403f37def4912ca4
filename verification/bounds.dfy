/** Memory safety of evaluation: every leaf read an evaluation performs, at
    an in-range coordinate of a well-formed node, lands inside the leaf's
    descriptor.

    The constructors only check ranks and broadcast agreement, so a few
    conditions they do not check are collected in `Safe`: a Comma whose
    first statement is smaller than the second, a rank-1 diagonal of an
    empty vector, Kron's batch extents (which the node reports as products,
    see the Findings in the README), a negative repetition count, an operand
    with an empty dimension under a broadcasting node, and a rank-4 unary
    node whose second extent exceeds what its uint32_t index can address.
 */
module Bounds {
  import opened Arith
  import opened Descriptor
  import opened Values
  import opened Index
  import opened TensorOps
  import opened Laws

  /** A read inside its descriptor's extents. */
  predicate InBounds(acc: Access) {
    acc.desc.Valid() && |acc.at| == acc.desc.rank
    && forall d :: 0 <= d < |acc.at| ==> 0 <= acc.at[d] < acc.desc.Size(d)
  }

  predicate AllInBounds(rs: seq<Access>) {
    forall i :: 0 <= i < |rs| ==> InBounds(rs[i])
  }

  /** No dimension of the operand is empty. */
  predicate NoEmptyDims<S>(a: Expr<S>) {
    forall d :: 0 <= d < Rank(a) ==> Size(a, d) != 0
  }

  /** The extents Kron reports for its batch dimensions exceed neither
      operand's extent. */
  predicate KronBatchFits<S>(a: Expr<S>, b: Expr<S>) {
    forall d :: 0 <= d < Rank(a) - 2 ==>
      Size(a, d) * Size(b, d) <= Size(a, d) && Size(a, d) * Size(b, d) <= Size(b, d)
  }

  /** The conditions, beyond `WellFormed`, under which every read is in
      bounds. */
  predicate Safe<S>(e: Expr<S>) {
    match e
    case Const(_) => true
    case Leaf(_, _) => true
    case Unary(_, a) => Safe(a) && (Rank(a) == 4 ==> Size(a, 1) <= TWO_POW_32)
    case Binary(_, a, b) => Safe(a) && Safe(b) && NoEmptyDims(a) && NoEmptyDims(b)
    case If(c, a) => Safe(c) && Safe(a) && NoEmptyDims(c) && NoEmptyDims(a)
    case IfElse(c, a, b) =>
      Safe(c) && Safe(a) && Safe(b) && NoEmptyDims(c) && NoEmptyDims(a) && NoEmptyDims(b)
    case Comma(a, b) =>
      Safe(a) && Safe(b) && forall d :: 0 <= d < Rank(b) ==> Size(b, d) <= Size(a, d)
    case Self(a) => Safe(a)
    case Reverse(a, _) => Safe(a)
    case Shift(a, _, _) => Safe(a)
    case HermitianT(a) => Safe(a)
    case Diag(a) => Safe(a) && (Rank(a) == 1 ==> Size(a, 0) > 0)
    case Kron(a, b) =>
      Safe(a) && Safe(b) && KronBatchFits(a, b)
      && (Rank(a) >= 2 ==>
            Size(a, Rank(a) - 2) >= 0 && Size(a, Rank(a) - 1) >= 0
            && Size(b, Rank(a) - 2) >= 0 && Size(b, Rank(a) - 1) >= 0)
    case RepMat(a, reps) => Safe(a) && forall k :: 0 <= k < |reps| ==> reps[k] >= 0
    case FFTShift1D(a) => Safe(a)
    case FFTShift2D(a) => Safe(a)
    case IFFTShift1D(a) => Safe(a)
    case IFFTShift2D(a) => Safe(a)
    case Planar(a) => Safe(a)
    case Interleaved(a) => Safe(a)
  }

  lemma ConcatInBounds(r1: seq<Access>, r2: seq<Access>)
    requires AllInBounds(r1) && AllInBounds(r2)
    ensures AllInBounds(r1 + r2)
  {
    forall i | 0 <= i < |r1 + r2|
      ensures InBounds((r1 + r2)[i])
    {
      if i < |r1| {
        assert (r1 + r2)[i] == r1[i];
      } else {
        assert (r1 + r2)[i] == r2[i - |r1|];
      }
    }
  }

  // ------------------------------------------------- operands in range

  /** A broadcasting node hands each operand the leading coordinates, which
      are in range of the operand once its extents agree with the node's. */
  lemma BroadcastOperandInRange<S>(e: Expr<S>, ops: seq<Expr<S>>, k: int, x: seq<int>)
    requires 0 <= k < |ops| && Rank(ops[k]) <= Rank(e)
    requires SizesAgree(e, ops) && NoEmptyDims(ops[k]) && InRange(e, x)
    ensures InRange(ops[k], Project(x, Rank(ops[k])))
  {
    var op := ops[k];
    var r := Rank(op);
    if r > 0 {
      var y := Project(x, r);
      forall d | 0 <= d < r
        ensures 0 <= y[d] < Size(op, d)
      {
        assert Agrees(Candidates(ops, d), Size(e, d));
        assert Candidates(ops, d)[k] == ExpandedSize(op, d) == Size(op, d);
        assert y[d] == x[d];
      }
    }
  }

  lemma UnaryInRange<S>(f: Value<S> -> Value<S>, a: Expr<S>, x: seq<int>)
    requires Rank(a) == 4 ==> Size(a, 1) <= TWO_POW_32
    requires InRange(Unary(f, a), x)
    ensures InRange(a, UnaryCoords(x))
  {
    if |x| == 4 {
      assert 0 <= x[1] < Size(Unary(f, a), 1);
      assert UnaryCoords(x) == x;
    }
  }

  lemma CommaInRange<S>(a: Expr<S>, b: Expr<S>, x: seq<int>)
    requires Rank(a) == Rank(b) && forall d :: 0 <= d < Rank(b) ==> Size(b, d) <= Size(a, d)
    requires InRange(Comma(a, b), x)
    ensures InRange(a, x) && InRange(b, x)
  {
    forall d | 0 <= d < |x|
      ensures 0 <= x[d] < Size(a, d) && x[d] < Size(b, d)
    {
      assert 0 <= x[d] < Size(Comma(a, b), d);
    }
  }

  lemma ReverseOpInRange<S>(a: Expr<S>, dim: int, x: seq<int>)
    requires InRange(Reverse(a, dim), x)
    ensures InRange(a, ReverseCoords(a, dim, x))
  {
    if 0 <= dim < |x| {
      assert ReverseCoords(a, dim, x) == x[dim := Size(a, dim) - 1 - x[dim]];
      ReverseInRange(a, dim, x);
    } else {
      forall d | 0 <= d < |x|
        ensures 0 <= x[d] < Size(a, d)
      {
        assert 0 <= x[d] < Size(Reverse(a, dim), d);
      }
    }
  }

  lemma ShiftOpInRange<S>(a: Expr<S>, dim: int, s: int, x: seq<int>)
    requires 0 <= dim < Rank(a) && InRange(Shift(a, dim, s), x)
    ensures InRange(a, ShiftCoords(a, dim, s, x))
  {
    var n := Size(a, dim);
    assert 0 <= x[dim] < Size(Shift(a, dim, s), dim);
    ShiftCoordsAt(a, dim, s, x, n);
    ShiftIndexIsMod(x[dim], s, n);
    var y := ShiftCoords(a, dim, s, x);
    forall d | 0 <= d < |y|
      ensures 0 <= y[d] < Size(a, d)
    {
      if d != dim {
        assert 0 <= x[d] < Size(Shift(a, dim, s), d);
      }
    }
  }

  lemma DiagInRange<S>(a: Expr<S>, x: seq<int>)
    requires Rank(a) >= 1 && (Rank(a) == 1 ==> Size(a, 0) > 0)
    requires InRange(Diag(a), x)
    ensures InRange(a, DiagCoords(x))
  {
    var r := Rank(a);
    if |x| > 0 {
      var y := DiagCoords(x);
      assert |y| == r;
      forall d | 0 <= d < r
        ensures 0 <= y[d] < Size(a, d)
      {
        DiagCoordInRange(a, x, r, d);
      }
    }
  }

  lemma DiagCoordInRange<S>(a: Expr<S>, x: seq<int>, r: int, d: int)
    requires r == Rank(a) && r >= 2 && 0 <= d < r && InRange(Diag(a), x)
    ensures 0 <= DiagCoords(x)[d] < Size(a, d)
  {
    assert |x| == r - 1;
    var y := DiagCoords(x);
    if d < r - 2 {
      assert 0 <= x[d] < Size(Diag(a), d);
      assert Size(Diag(a), d) == Size(a, d);
      assert y[d] == x[d];
    } else {
      assert 0 <= x[r - 2] < Size(Diag(a), r - 2);
      assert Size(Diag(a), r - 2) == Min(Size(a, r - 1), Size(a, r - 2));
      assert y[d] == x[r - 2];
    }
  }

  /** Kron's rewrites leave the batch coordinates alone and split the two
      innermost ones by B's extents. */
  lemma KronCoordsAt<S>(b: Expr<S>, x: seq<int>, j: int, nb: int)
    requires |x| >= 2 && 0 <= j < |x| && nb == Size(b, j)
    ensures j < |x| - 2 ==> KronInner(b, x)[j] == x[j] && KronOuter(b, x)[j] == x[j]
    ensures j >= |x| - 2 ==> KronInner(b, x)[j] == CRem(x[j], nb) && KronOuter(b, x)[j] == CDiv(x[j], nb)
  {
  }

  /** Kron's coordinate split, at one of the two innermost dimensions. */
  lemma KronCoordInRange<S>(a: Expr<S>, b: Expr<S>, x: seq<int>, j: int, na: int, nb: int)
    requires Rank(a) == Rank(b) == |x| >= 2 && |x| - 2 <= j < |x|
    requires na == Size(a, j) && nb == Size(b, j) && na >= 0 && nb >= 0
    requires InRange(Kron(a, b), x)
    ensures 0 <= KronInner(b, x)[j] < nb
    ensures 0 <= KronOuter(b, x)[j] < na
  {
    assert Size(Kron(a, b), j) == na * nb;
    assert 0 <= x[j] < na * nb;
    KronSplit(x[j], na, nb);
    KronCoordsAt(b, x, j, nb);
  }

  lemma KronBatchInRange<S>(a: Expr<S>, b: Expr<S>, x: seq<int>, d: int)
    requires Rank(a) == Rank(b) == |x| >= 2 && 0 <= d < |x| - 2
    requires KronBatchFits(a, b) && InRange(Kron(a, b), x)
    ensures 0 <= KronInner(b, x)[d] < Size(b, d)
    ensures 0 <= KronOuter(b, x)[d] < Size(a, d)
  {
    assert 0 <= x[d] < Size(Kron(a, b), d);
    assert Size(Kron(a, b), d) == Size(a, d) * Size(b, d);
    KronCoordsAt(b, x, d, Size(b, d));
  }

  lemma KronInRange<S>(a: Expr<S>, b: Expr<S>, x: seq<int>)
    requires Rank(a) >= 2 && Rank(b) == Rank(a) && KronBatchFits(a, b)
    requires Size(a, Rank(a) - 2) >= 0 && Size(a, Rank(a) - 1) >= 0
    requires Size(b, Rank(a) - 2) >= 0 && Size(b, Rank(a) - 1) >= 0
    requires InRange(Kron(a, b), x)
    ensures InRange(b, KronInner(b, x)) && InRange(a, KronOuter(b, x))
  {
    var n := |x|;
    var yb, ya := KronInner(b, x), KronOuter(b, x);
    forall d | 0 <= d < n
      ensures 0 <= yb[d] < Size(b, d) && 0 <= ya[d] < Size(a, d)
    {
      KronEitherInRange(a, b, x, d);
    }
  }

  lemma KronEitherInRange<S>(a: Expr<S>, b: Expr<S>, x: seq<int>, d: int)
    requires Rank(a) >= 2 && Rank(b) == Rank(a) && KronBatchFits(a, b)
    requires Size(a, Rank(a) - 2) >= 0 && Size(a, Rank(a) - 1) >= 0
    requires Size(b, Rank(a) - 2) >= 0 && Size(b, Rank(a) - 1) >= 0
    requires InRange(Kron(a, b), x) && 0 <= d < |x|
    ensures 0 <= KronInner(b, x)[d] < Size(b, d) && 0 <= KronOuter(b, x)[d] < Size(a, d)
  {
    if d < |x| - 2 {
      KronBatchInRange(a, b, x, d);
    } else {
      KronCoordInRange(a, b, x, d, Size(a, d), Size(b, d));
    }
  }

  lemma Shift1DInRange<S>(a: Expr<S>, x: seq<int>, inv: bool)
    requires |x| == Arity(a) && forall d :: 0 <= d < |x| ==> 0 <= x[d] < Size(a, d)
    ensures InRange(a, Shift1DCoords(a, x, inv))
  {
    if |x| > 0 {
      var k := |x| - 1;
      var n := Size(a, k);
      var y := RotateAt(x, k, n, inv);
      assert Shift1DCoords(a, x, inv) == y;
      assert 0 <= x[k] < n;
      RotateAtInverse(x, k, n, inv);
      forall d | 0 <= d < |x|
        ensures 0 <= y[d] < Size(a, d)
      {
        if d < k {
          assert y[d] == x[d];
        }
      }
    }
  }

  /** The 2-D rotation keeps the leading coordinates and brings the last
      two back into their extents. */
  lemma Rotate2InRange(x: seq<int>, nj: int, nk: int, inv: bool)
    requires |x| >= 2 && 0 <= x[|x| - 2] < nj && 0 <= x[|x| - 1] < nk
    ensures forall d :: 0 <= d < |x| - 2 ==> Rotate2(x, nj, nk, inv)[d] == x[d]
    ensures 0 <= Rotate2(x, nj, nk, inv)[|x| - 2] < nj
    ensures 0 <= Rotate2(x, nj, nk, inv)[|x| - 1] < nk
  {
    var j, k := |x| - 2, |x| - 1;
    var y := RotateAt(x, j, nj, inv);
    RotateAtInverse(x, j, nj, inv);
    assert y[k] == x[k];
    RotateAtInverse(y, k, nk, inv);
  }

  lemma Shift2DInRange<S>(a: Expr<S>, x: seq<int>, inv: bool)
    requires |x| == Arity(a) && forall d :: 0 <= d < |x| ==> 0 <= x[d] < Size(a, d)
    ensures InRange(a, Shift2DCoords(a, x, inv))
  {
    if |x| <= 1 {
      Shift1DInRange(a, x, inv);
    } else {
      var j, k := |x| - 2, |x| - 1;
      var nj, nk := Size(a, j), Size(a, k);
      var y := Rotate2(x, nj, nk, inv);
      assert Shift2DCoords(a, x, inv) == y;
      Rotate2InRange(x, nj, nk, inv);
      forall d | 0 <= d < |x|
        ensures 0 <= y[d] < Size(a, d)
      {
        if d < j {
          assert y[d] == x[d];
        }
      }
    }
  }

  /** The nodes that pass the coordinates to their operand unchanged in
      range: their sizes are the operand's. */
  lemma SameSizesInRange<S>(e: Expr<S>, a: Expr<S>, x: seq<int>)
    requires Arity(e) == Arity(a) && forall d :: Size(e, d) == Size(a, d)
    requires InRange(e, x)
    ensures |x| == Arity(a) && forall d :: 0 <= d < |x| ==> 0 <= x[d] < Size(a, d)
  {
  }

  lemma InterleavedInRange<S>(a: Expr<S>, x: seq<int>, k: int, h: int)
    requires |x| >= 1 && k == LayoutDim(|x|) && h == CDiv(Size(a, k), 2)
    requires InRange(Interleaved(a), x)
    ensures InRange(a, x) && InRange(a, x[k := h + x[k]])
  {
    var n := Size(a, k);
    assert Rank(a) == |x|;
    assert 0 <= x[k] < Size(Interleaved(a), k) == h;
    assert h + h <= n;
    var y := x[k := h + x[k]];
    forall d | 0 <= d < |x|
      ensures 0 <= x[d] < Size(a, d) && 0 <= y[d] < Size(a, d)
    {
      if d != k {
        assert 0 <= x[d] < Size(Interleaved(a), d) == Size(a, d);
      }
    }
  }

  lemma PlanarOperandInRange<S>(a: Expr<S>, x: seq<int>, k: int, n: int)
    requires |x| >= 1 && k == LayoutDim(|x|) && n == Size(a, k)
    requires InRange(Planar(a), x)
    ensures x[k] >= n ==> InRange(a, x[k := x[k] - n])
    ensures x[k] < n ==> InRange(a, x)
  {
    if x[k] >= n {
      PlanarUpperInRange(a, x);
    } else {
      PlanarLowerInRange(a, x);
    }
  }

  // -------------------------------------------------------- the theorem

  /** Every read of a well-formed, safe node at an in-range coordinate is
      inside the descriptor of the leaf it reads. */
  lemma {:induction false} ReadsInBounds<S>(alg: Algebra<S>, e: Expr<S>, x: seq<int>)
    requires WellFormed(e) && Safe(e) && InRange(e, x)
    ensures AllInBounds(Reads(alg, e, x))
    decreases e, 2
  {
    if e.Const? || e.Leaf? || e.Unary? || e.Binary? || e.If? || e.IfElse? || e.Comma?
       || e.Self? || e.Reverse? || e.Shift?
    {
      ScalarAndBroadcastInBounds(alg, e, x);
    } else {
      ViewsInBounds(alg, e, x);
    }
  }

  lemma ScalarAndBroadcastInBounds<S>(alg: Algebra<S>, e: Expr<S>, x: seq<int>)
    requires e.Const? || e.Leaf? || e.Unary? || e.Binary? || e.If? || e.IfElse? || e.Comma?
       || e.Self? || e.Reverse? || e.Shift?
    requires WellFormed(e) && Safe(e) && InRange(e, x)
    ensures AllInBounds(Reads(alg, e, x))
    decreases e, 1
  {
    match e
    case Const(_) =>
    case Leaf(desc, vals) => LeafInBounds(alg, desc, vals, x);
    case Unary(f, a) => UnaryInBounds(alg, f, a, x);
    case Binary(g, a, b) => BinaryInBounds(alg, g, a, b, x);
    case If(c, a) => IfInBounds(alg, c, a, x);
    case IfElse(c, a, b) => IfElseInBounds(alg, c, a, b, x);
    case Comma(a, b) => CommaInBounds(alg, a, b, x);
    case Self(a) => SelfInBounds(alg, a, x);
    case Reverse(a, dim) => ReverseInBounds(alg, a, dim, x);
    case Shift(a, dim, s) => ShiftInBounds(alg, a, dim, s, x);
  }

  lemma ViewsInBounds<S>(alg: Algebra<S>, e: Expr<S>, x: seq<int>)
    requires !(e.Const? || e.Leaf? || e.Unary? || e.Binary? || e.If? || e.IfElse? || e.Comma?
       || e.Self? || e.Reverse? || e.Shift?)
    requires WellFormed(e) && Safe(e) && InRange(e, x)
    ensures AllInBounds(Reads(alg, e, x))
    decreases e, 1
  {
    match e
    case HermitianT(a) => HermitianInBounds(alg, a, x);
    case Diag(a) => DiagInBounds(alg, a, x);
    case Kron(a, b) => KronInBounds(alg, a, b, x);
    case RepMat(a, reps) => RepMatInBounds(alg, a, reps, x);
    case FFTShift1D(a) => Shift1DInBounds(alg, e, a, x, false);
    case FFTShift2D(a) => Shift2DInBounds(alg, e, a, x, false);
    case IFFTShift1D(a) => Shift1DInBounds(alg, e, a, x, true);
    case IFFTShift2D(a) => Shift2DInBounds(alg, e, a, x, true);
    case Planar(a) => PlanarInBounds(alg, a, x);
    case Interleaved(a) => InterleavedInBounds(alg, a, x);
  }

  lemma UnaryInBounds<S>(alg: Algebra<S>, f: Value<S> -> Value<S>, a: Expr<S>, x: seq<int>)
    requires WellFormed(Unary(f, a)) && Safe(Unary(f, a)) && InRange(Unary(f, a), x)
    ensures AllInBounds(Reads(alg, Unary(f, a), x))
    decreases Unary(f, a), 0
  {
    UnaryInRange(f, a, x);
    ReadsInBounds(alg, a, UnaryCoords(x));
  }

  lemma CommaInBounds<S>(alg: Algebra<S>, a: Expr<S>, b: Expr<S>, x: seq<int>)
    requires WellFormed(Comma(a, b)) && Safe(Comma(a, b)) && InRange(Comma(a, b), x)
    ensures AllInBounds(Reads(alg, Comma(a, b), x))
    decreases Comma(a, b), 0
  {
    CommaInRange(a, b, x);
    ReadsInBounds(alg, a, x);
    ReadsInBounds(alg, b, x);
    ConcatInBounds(Reads(alg, a, x), Reads(alg, b, x));
  }

  lemma KronInBounds<S>(alg: Algebra<S>, a: Expr<S>, b: Expr<S>, x: seq<int>)
    requires WellFormed(Kron(a, b)) && Safe(Kron(a, b)) && InRange(Kron(a, b), x)
    ensures AllInBounds(Reads(alg, Kron(a, b), x))
    decreases Kron(a, b), 0
  {
    KronInRange(a, b, x);
    ReadsInBounds(alg, b, KronInner(b, x));
    ReadsInBounds(alg, a, KronOuter(b, x));
    ConcatInBounds(Reads(alg, b, KronInner(b, x)), Reads(alg, a, KronOuter(b, x)));
  }

  lemma LeafInBounds<S>(alg: Algebra<S>, desc: Desc, vals: seq<int> -> Value<S>, x: seq<int>)
    requires WellFormed(Leaf(desc, vals)) && InRange(Leaf(desc, vals), x)
    ensures AllInBounds(Reads(alg, Leaf(desc, vals), x))
  {
    var e := Leaf(desc, vals);
    assert Reads(alg, e, x) == [Access(desc, x)];
    forall d | 0 <= d < |x|
      ensures 0 <= x[d] < desc.Size(d)
    {
      assert 0 <= x[d] < Size(e, d);
    }
  }

  lemma SelfInBounds<S>(alg: Algebra<S>, a: Expr<S>, x: seq<int>)
    requires WellFormed(Self(a)) && Safe(Self(a)) && InRange(Self(a), x)
    ensures AllInBounds(Reads(alg, Self(a), x))
    decreases Self(a), 0
  {
    SameSizesInRange(Self(a), a, x);
    ReadsInBounds(alg, a, x);
  }

  lemma ReverseInBounds<S>(alg: Algebra<S>, a: Expr<S>, dim: int, x: seq<int>)
    requires WellFormed(Reverse(a, dim)) && Safe(Reverse(a, dim)) && InRange(Reverse(a, dim), x)
    ensures AllInBounds(Reads(alg, Reverse(a, dim), x))
    decreases Reverse(a, dim), 0
  {
    ReverseOpInRange(a, dim, x);
    ReadsInBounds(alg, a, ReverseCoords(a, dim, x));
  }

  lemma ShiftInBounds<S>(alg: Algebra<S>, a: Expr<S>, dim: int, s: int, x: seq<int>)
    requires WellFormed(Shift(a, dim, s)) && Safe(Shift(a, dim, s)) && InRange(Shift(a, dim, s), x)
    ensures AllInBounds(Reads(alg, Shift(a, dim, s), x))
    decreases Shift(a, dim, s), 0
  {
    ShiftOpInRange(a, dim, s, x);
    ReadsInBounds(alg, a, ShiftCoords(a, dim, s, x));
  }

  lemma HermitianInBounds<S>(alg: Algebra<S>, a: Expr<S>, x: seq<int>)
    requires WellFormed(HermitianT(a)) && Safe(HermitianT(a)) && InRange(HermitianT(a), x)
    ensures AllInBounds(Reads(alg, HermitianT(a), x))
    decreases HermitianT(a), 0
  {
    HermitianInRange(a, x);
    ReadsInBounds(alg, a, Reversed(x));
  }

  lemma DiagInBounds<S>(alg: Algebra<S>, a: Expr<S>, x: seq<int>)
    requires WellFormed(Diag(a)) && Safe(Diag(a)) && InRange(Diag(a), x)
    ensures AllInBounds(Reads(alg, Diag(a), x))
    decreases Diag(a), 0
  {
    DiagInRange(a, x);
    ReadsInBounds(alg, a, DiagCoords(x));
  }

  lemma RepMatInBounds<S>(alg: Algebra<S>, a: Expr<S>, reps: seq<int>, x: seq<int>)
    requires WellFormed(RepMat(a, reps)) && Safe(RepMat(a, reps)) && InRange(RepMat(a, reps), x)
    ensures AllInBounds(Reads(alg, RepMat(a, reps), x))
    decreases RepMat(a, reps), 0
  {
    RepMatInRange(a, reps, x);
    ReadsInBounds(alg, a, RepCoords(a, x));
  }

  /** fftshift1D and ifftshift1D read their operand once, at rotated
      coordinates. */
  lemma Shift1DInBounds<S>(alg: Algebra<S>, e: Expr<S>, a: Expr<S>, x: seq<int>, inv: bool)
    requires e == (if inv then IFFTShift1D(a) else FFTShift1D(a))
    requires WellFormed(e) && Safe(e) && InRange(e, x)
    ensures AllInBounds(Reads(alg, e, x))
    decreases e, 0
  {
    SameSizesInRange(e, a, x);
    Shift1DInRange(a, x, inv);
    ReadsInBounds(alg, a, Shift1DCoords(a, x, inv));
    assert Reads(alg, e, x) == Reads(alg, a, Shift1DCoords(a, x, inv));
  }

  /** fftshift2D and ifftshift2D likewise. */
  lemma Shift2DInBounds<S>(alg: Algebra<S>, e: Expr<S>, a: Expr<S>, x: seq<int>, inv: bool)
    requires e == (if inv then IFFTShift2D(a) else FFTShift2D(a))
    requires WellFormed(e) && Safe(e) && InRange(e, x)
    ensures AllInBounds(Reads(alg, e, x))
    decreases e, 0
  {
    SameSizesInRange(e, a, x);
    Shift2DInRange(a, x, inv);
    ReadsInBounds(alg, a, Shift2DCoords(a, x, inv));
    assert Reads(alg, e, x) == Reads(alg, a, Shift2DCoords(a, x, inv));
  }

  lemma BinaryInBounds<S>(alg: Algebra<S>, g: (Value<S>, Value<S>) -> Value<S>,
                          a: Expr<S>, b: Expr<S>, x: seq<int>)
    requires WellFormed(Binary(g, a, b)) && Safe(Binary(g, a, b)) && InRange(Binary(g, a, b), x)
    ensures AllInBounds(Reads(alg, Binary(g, a, b), x))
    decreases Binary(g, a, b), 0
  {
    var e := Binary(g, a, b);
    BroadcastOperandInRange(e, [a, b], 0, x);
    BroadcastOperandInRange(e, [a, b], 1, x);
    ReadsInBounds(alg, a, Project(x, Rank(a)));
    ReadsInBounds(alg, b, Project(x, Rank(b)));
    ConcatInBounds(Reads(alg, a, Project(x, Rank(a))), Reads(alg, b, Project(x, Rank(b))));
  }

  lemma IfInBounds<S>(alg: Algebra<S>, c: Expr<S>, a: Expr<S>, x: seq<int>)
    requires WellFormed(If(c, a)) && Safe(If(c, a)) && InRange(If(c, a), x)
    ensures AllInBounds(Reads(alg, If(c, a), x))
    decreases If(c, a), 0
  {
    var e := If(c, a);
    var xc := Project(x, Rank(c));
    BroadcastOperandInRange(e, [c, a], 0, x);
    ReadsInBounds(alg, c, xc);
    if alg.truth(Eval(alg, c, xc)) {
      BroadcastOperandInRange(e, [c, a], 1, x);
      ReadsInBounds(alg, a, Project(x, Rank(a)));
      ConcatInBounds(Reads(alg, c, xc), Reads(alg, a, Project(x, Rank(a))));
    } else {
      assert Reads(alg, e, x) == Reads(alg, c, xc) + [];
    }
  }

  lemma IfElseInBounds<S>(alg: Algebra<S>, c: Expr<S>, a: Expr<S>, b: Expr<S>, x: seq<int>)
    requires WellFormed(IfElse(c, a, b)) && Safe(IfElse(c, a, b)) && InRange(IfElse(c, a, b), x)
    ensures AllInBounds(Reads(alg, IfElse(c, a, b), x))
    decreases IfElse(c, a, b), 0
  {
    var e := IfElse(c, a, b);
    var xc := Project(x, Rank(c));
    BroadcastOperandInRange(e, [c, a, b], 0, x);
    ReadsInBounds(alg, c, xc);
    if alg.truth(Eval(alg, c, xc)) {
      BroadcastOperandInRange(e, [c, a, b], 1, x);
      ReadsInBounds(alg, a, Project(x, Rank(a)));
      ConcatInBounds(Reads(alg, c, xc), Reads(alg, a, Project(x, Rank(a))));
    } else {
      BroadcastOperandInRange(e, [c, a, b], 2, x);
      ReadsInBounds(alg, b, Project(x, Rank(b)));
      ConcatInBounds(Reads(alg, c, xc), Reads(alg, b, Project(x, Rank(b))));
    }
  }

  lemma PlanarInBounds<S>(alg: Algebra<S>, a: Expr<S>, x: seq<int>)
    requires WellFormed(Planar(a)) && Safe(Planar(a)) && InRange(Planar(a), x)
    ensures AllInBounds(Reads(alg, Planar(a), x))
    decreases Planar(a), 0
  {
    if |x| == 0 {
      ReadsInBounds(alg, a, x);
    } else {
      var k := LayoutDim(|x|);
      var n := Size(a, k);
      PlanarOperandInRange(a, x, k, n);
      if x[k] >= n {
        ReadsInBounds(alg, a, x[k := x[k] - n]);
      } else {
        ReadsInBounds(alg, a, x);
      }
    }
  }

  lemma InterleavedInBounds<S>(alg: Algebra<S>, a: Expr<S>, x: seq<int>)
    requires WellFormed(Interleaved(a)) && Safe(Interleaved(a)) && InRange(Interleaved(a), x)
    ensures AllInBounds(Reads(alg, Interleaved(a), x))
    decreases Interleaved(a), 0
  {
    if |x| == 0 {
      ReadsInBounds(alg, a, x);
    } else {
      var k := LayoutDim(|x|);
      var h := CDiv(Size(a, k), 2);
      InterleavedInRange(a, x, k, h);
      ReadsInterleavedAt(alg, a, x, k, h);
      ReadsInBounds(alg, a, x);
      ReadsInBounds(alg, a, x[k := h + x[k]]);
      ConcatInBounds(Reads(alg, a, x), Reads(alg, a, x[k := h + x[k]]));
    }
  }

  /** Interleaved's reads, one unfolding of `Reads`, with the half extent named. */
  lemma ReadsInterleavedAt<S>(alg: Algebra<S>, a: Expr<S>, x: seq<int>, k: int, h: int)
    requires |x| >= 1 && k == LayoutDim(|x|) && h == CDiv(Size(a, k), 2)
    ensures Reads(alg, Interleaved(a), x) == Reads(alg, a, x) + Reads(alg, a, x[k := h + x[k]])
  {
    var n := Size(a, k);
    assert x[k := CDiv(n, 2) + x[k]] == x[k := h + x[k]];
  }
}
