/** Laws of the operators: how a node's value at a coordinate relates to its
    operand's value, and the round trips the operator pairs complete.

    The coordinate rewrites are reasoned about first, on plain tuples; the
    laws about values then follow by unfolding one or two nodes.
 */
module Laws {
  import opened Arith
  import opened Values
  import opened Index
  import opened TensorOps

  /** Writing a coordinate's old value back restores the tuple. */
  lemma RestoreCoord(x: seq<int>, k: int, c: int)
    requires 0 <= k < |x|
    ensures x[k := c][k := x[k]] == x
  {
  }

  // --------------------------------------------------------------- reverse

  /** Mirroring one coordinate twice, within the same extent, gives back
      the tuple. */
  lemma ReverseCoordsInvolution<S>(a: Expr<S>, dim: int, x: seq<int>)
    requires 0 <= dim < |x|
    ensures ReverseCoords(a, dim, ReverseCoords(Reverse(a, dim), dim, x)) == x
  {
    var n := Size(a, dim);
    assert Size(Reverse(a, dim), dim) == n;
    var y := ReverseCoords(Reverse(a, dim), dim, x);
    assert y == x[dim := RevIndex(x[dim], n)];
    RevIndexInvolution(x[dim], n);
    assert ReverseCoords(a, dim, y) == y[dim := RevIndex(y[dim], n)];
  }

  /** Reversing a dimension twice gives back the operand: the same values
      and the same reads. */
  lemma ReverseInvolution<S>(alg: Algebra<S>, a: Expr<S>, dim: int, x: seq<int>)
    requires 0 <= dim < |x|
    ensures Eval(alg, Reverse(Reverse(a, dim), dim), x) == Eval(alg, a, x)
    ensures Reads(alg, Reverse(Reverse(a, dim), dim), x) == Reads(alg, a, x)
  {
    var y := ReverseCoords(Reverse(a, dim), dim, x);
    ReverseCoordsInvolution(a, dim, x);
    assert Eval(alg, Reverse(Reverse(a, dim), dim), x) == Eval(alg, Reverse(a, dim), y);
    assert Eval(alg, Reverse(a, dim), y) == Eval(alg, a, ReverseCoords(a, dim, y));
    assert Reads(alg, Reverse(Reverse(a, dim), dim), x) == Reads(alg, Reverse(a, dim), y);
    assert Reads(alg, Reverse(a, dim), y) == Reads(alg, a, ReverseCoords(a, dim, y));
  }

  /** Element i of a reversed dimension is element n-1-i of the operand. */
  lemma ReverseMirrors<S>(alg: Algebra<S>, a: Expr<S>, dim: int, x: seq<int>)
    requires 0 <= dim < |x|
    ensures Eval(alg, Reverse(a, dim), x) == Eval(alg, a, x[dim := Size(a, dim) - 1 - x[dim]])
  {
    assert RevIndex(x[dim], Size(a, dim)) == Size(a, dim) - 1 - x[dim];
    assert ReverseCoords(a, dim, x) == x[dim := Size(a, dim) - 1 - x[dim]];
  }

  /** A reversed node is in range exactly where its operand is in range at
      the mirrored coordinates. */
  lemma ReverseInRange<S>(a: Expr<S>, dim: int, x: seq<int>)
    requires 0 <= dim < |x|
    ensures InRange(Reverse(a, dim), x) <==> InRange(a, x[dim := Size(a, dim) - 1 - x[dim]])
  {
    var y := x[dim := Size(a, dim) - 1 - x[dim]];
    assert Arity(Reverse(a, dim)) == Arity(a);
    if InRange(a, y) {
      ReverseInRangeFrom(a, dim, x, y);
    }
    if InRange(Reverse(a, dim), x) {
      ReverseInRangeTo(a, dim, x, y);
    }
  }

  lemma ReverseInRangeFrom<S>(a: Expr<S>, dim: int, x: seq<int>, y: seq<int>)
    requires 0 <= dim < |x| && y == x[dim := Size(a, dim) - 1 - x[dim]] && InRange(a, y)
    ensures InRange(Reverse(a, dim), x)
  {
    assert 0 <= y[dim] < Size(a, dim);
    forall d | 0 <= d < |x|
      ensures 0 <= x[d] < Size(Reverse(a, dim), d)
    {
      if d != dim {
        assert y[d] == x[d];
      }
    }
  }

  lemma ReverseInRangeTo<S>(a: Expr<S>, dim: int, x: seq<int>, y: seq<int>)
    requires 0 <= dim < |x| && y == x[dim := Size(a, dim) - 1 - x[dim]]
    requires InRange(Reverse(a, dim), x)
    ensures InRange(a, y)
  {
    forall d | 0 <= d < |y|
      ensures 0 <= y[d] < Size(a, d)
    {
      assert 0 <= x[d] < Size(Reverse(a, dim), d);
    }
  }

  // ----------------------------------------------------------------- shift

  /** ShiftOp reads element (i + shift) mod N of the shifted dimension, for
      any shift, positive or negative, larger than N or not. */
  lemma ShiftRotates<S>(alg: Algebra<S>, a: Expr<S>, dim: int, s: int, x: seq<int>)
    requires 0 <= dim < |x| && 0 <= x[dim] < Size(a, dim)
    ensures 0 <= (x[dim] + s) % Size(a, dim) < Size(a, dim)
    ensures Eval(alg, Shift(a, dim, s), x) == Eval(alg, a, x[dim := (x[dim] + s) % Size(a, dim)])
  {
    var n := Size(a, dim);
    ShiftIndexIsMod(x[dim], s, n);
    assert ShiftCoords(a, dim, s, x) == x[dim := (x[dim] + s) % n];
  }

  /** One shift rewrite, with the extent of the shifted dimension named. */
  lemma ShiftCoordsAt<S>(a: Expr<S>, dim: int, s: int, x: seq<int>, n: int)
    requires 0 <= dim < |x| && n == Size(a, dim) && n > 0
    ensures ShiftCoords(a, dim, s, x) == x[dim := ShiftIndex(x[dim], ShiftBase(s, n), n)]
  {
  }

  /** The coordinate rewrites of a shift by s and of a shift by -s undo
      each other on an in-range coordinate. */
  lemma ShiftCoordsRoundTrip<S>(a: Expr<S>, dim: int, s: int, x: seq<int>)
    requires 0 <= dim < |x| && 0 <= x[dim] < Size(a, dim)
    ensures ShiftCoords(a, dim, -s, ShiftCoords(Shift(a, dim, -s), dim, s, x)) == x
  {
    var n := Size(a, dim);
    var y := x[dim := ShiftIndex(x[dim], ShiftBase(s, n), n)];
    ShiftForth(a, dim, s, x, n, y);
    ShiftBack(a, dim, s, x, n, y);
  }

  /** The first half of ShiftCoordsRoundTrip: the shift by s, read through
      a node shifted by -s. */
  lemma ShiftForth<S>(a: Expr<S>, dim: int, s: int, x: seq<int>, n: int, y: seq<int>)
    requires 0 <= dim < |x| && n == Size(a, dim) && 0 <= x[dim] < n
    requires y == x[dim := ShiftIndex(x[dim], ShiftBase(s, n), n)]
    ensures ShiftCoords(Shift(a, dim, -s), dim, s, x) == y
  {
    ShiftKeepsSize(a, dim, -s, dim);
    ShiftCoordsAt(Shift(a, dim, -s), dim, s, x, n);
  }

  /** The second half: shifting by -s undoes it. */
  lemma ShiftBack<S>(a: Expr<S>, dim: int, s: int, x: seq<int>, n: int, y: seq<int>)
    requires 0 <= dim < |x| && n == Size(a, dim) && 0 <= x[dim] < n
    requires y == x[dim := ShiftIndex(x[dim], ShiftBase(s, n), n)]
    ensures ShiftCoords(a, dim, -s, y) == x
  {
    ShiftCoordsAt(a, dim, -s, y, n);
    ShiftIndexRoundTrip(x[dim], s, n);
    RestoreCoord(x, dim, y[dim]);
  }

  /** A shifted node has its operand's extents. */
  lemma ShiftKeepsSize<S>(a: Expr<S>, dim: int, s: int, d: int)
    ensures Size(Shift(a, dim, s), d) == Size(a, d)
  {
  }

  /** Shifting by -s and then by s gives back the operand, and the double
      shift of a well-formed operand along a non-empty dimension is itself
      well-formed. */
  lemma ShiftRoundTrip<S>(alg: Algebra<S>, a: Expr<S>, dim: int, s: int, x: seq<int>)
    requires 0 <= dim < |x| && 0 <= x[dim] < Size(a, dim)
    ensures WellFormed(a) && dim < Rank(a) ==> WellFormed(Shift(Shift(a, dim, -s), dim, s))
    ensures Eval(alg, Shift(Shift(a, dim, -s), dim, s), x) == Eval(alg, a, x)
  {
    var y := ShiftCoords(Shift(a, dim, -s), dim, s, x);
    ShiftCoordsRoundTrip(a, dim, s, x);
    assert Eval(alg, Shift(Shift(a, dim, -s), dim, s), x) == Eval(alg, Shift(a, dim, -s), y);
    assert Eval(alg, Shift(a, dim, -s), y) == Eval(alg, a, ShiftCoords(a, dim, -s, y));
    assert Size(Shift(a, dim, -s), dim) == Size(a, dim);
  }

  // ------------------------------------------------------------ fft shifts

  /** The fft shifts rotate by the sizes of their operand, which a shift
      node keeps. */
  lemma ShiftCoords1DThrough<S>(a: Expr<S>, x: seq<int>, inv: bool)
    ensures Shift1DCoords(FFTShift1D(a), x, inv) == Shift1DCoords(a, x, inv)
    ensures Shift1DCoords(IFFTShift1D(a), x, inv) == Shift1DCoords(a, x, inv)
  {
  }

  lemma FftShift2DCoordsThrough<S>(a: Expr<S>, x: seq<int>, inv: bool)
    ensures Shift2DCoords(FFTShift2D(a), x, inv) == Shift2DCoords(a, x, inv)
  {

  }

  lemma IfftShift2DCoordsThrough<S>(a: Expr<S>, x: seq<int>, inv: bool)
    ensures Shift2DCoords(IFFTShift2D(a), x, inv) == Shift2DCoords(a, x, inv)
  {

  }

  /** Rotating one coordinate forth and back gives back the tuple; the
      other coordinates are never touched. */
  lemma RotateAtInverse(x: seq<int>, k: int, n: int, inv: bool)
    requires 0 <= k < |x| && 0 <= x[k] < n
    ensures RotateAt(RotateAt(x, k, n, inv), k, n, !inv) == x
    ensures forall j :: 0 <= j < |x| && j != k ==> RotateAt(x, k, n, inv)[j] == x[j]
    ensures 0 <= RotateAt(x, k, n, inv)[k] < n
  {
    FftIfftInverse(x[k], n);
  }

  /** The 1-D rewrite rotates the last coordinate. */
  lemma Shift1DUnfold<S>(a: Expr<S>, y: seq<int>, inv: bool)
    requires |y| >= 1
    ensures Shift1DCoords(a, y, inv) == RotateAt(y, |y| - 1, Size(a, |y| - 1), inv)
  {
  }

  /** The 1-D rotations of fftshift and ifftshift undo each other. */
  lemma Shift1DCoordsInverse<S>(a: Expr<S>, x: seq<int>, inv: bool)
    requires |x| >= 1 && 0 <= x[|x| - 1] < Size(a, |x| - 1)
    ensures Shift1DCoords(a, Shift1DCoords(a, x, inv), !inv) == x
  {
    var k := |x| - 1;
    var n := Size(a, k);
    var y := Shift1DCoords(a, x, inv);
    Shift1DUnfold(a, x, inv);
    Shift1DUnfold(a, y, !inv);
    RotateAtInverse(x, k, n, inv);
  }

  /** Rotating the last two coordinates forth and back gives back the
      tuple. */
  lemma Rotate2Inverse(x: seq<int>, nj: int, nk: int, inv: bool)
    requires |x| >= 2 && 0 <= x[|x| - 2] < nj && 0 <= x[|x| - 1] < nk
    ensures Rotate2(Rotate2(x, nj, nk, inv), nj, nk, !inv) == x
  {
    var j, k := |x| - 2, |x| - 1;
    var y := RotateAt(x, j, nj, inv);
    RotateAtInverse(x, j, nj, inv);
    var z := RotateAt(y, k, nk, inv);
    RotateAtInverse(y, k, nk, inv);
    assert z == Rotate2(x, nj, nk, inv);
    RotateAtInverse(z, j, nj, !inv);
    var w := RotateAt(z, j, nj, !inv);
    assert w == RotateAt(x, k, nk, inv) by {
      assert w[j] == x[j];
    }
    RotateAtInverse(x, k, nk, inv);
    assert Rotate2(z, nj, nk, !inv) == RotateAt(w, k, nk, !inv);
  }

  /** The 2-D rotations of fftshift2D and ifftshift2D undo each other. */
  lemma Shift2DCoordsInverse<S>(a: Expr<S>, x: seq<int>, inv: bool)
    requires |x| >= 2 && 0 <= x[|x| - 2] < Size(a, |x| - 2) && 0 <= x[|x| - 1] < Size(a, |x| - 1)
    ensures Shift2DCoords(a, Shift2DCoords(a, x, inv), !inv) == x
  {
    var nj, nk := Size(a, |x| - 2), Size(a, |x| - 1);
    var z := Rotate2(x, nj, nk, inv);
    assert Shift2DCoords(a, x, inv) == z;
    assert |z| == |x|;
    assert Shift2DCoords(a, z, !inv) == Rotate2(z, nj, nk, !inv);
    Rotate2Inverse(x, nj, nk, inv);
  }

  /** ifftshift1D undoes fftshift1D, at every rank. */
  lemma FftShift1DRoundTrip<S>(alg: Algebra<S>, a: Expr<S>, x: seq<int>)
    requires |x| >= 1 && 0 <= x[|x| - 1] < Size(a, |x| - 1)
    ensures Eval(alg, IFFTShift1D(FFTShift1D(a)), x) == Eval(alg, a, x)
  {
    var y := Shift1DCoords(a, x, true);
    ShiftCoords1DThrough(a, x, true);
    assert Eval(alg, IFFTShift1D(FFTShift1D(a)), x) == Eval(alg, FFTShift1D(a), y);
    assert Eval(alg, FFTShift1D(a), y) == Eval(alg, a, Shift1DCoords(a, y, false));
    Shift1DCoordsInverse(a, x, true);
  }

  /** fftshift1D undoes ifftshift1D, at every rank. */
  lemma IfftShift1DRoundTrip<S>(alg: Algebra<S>, a: Expr<S>, x: seq<int>)
    requires |x| >= 1 && 0 <= x[|x| - 1] < Size(a, |x| - 1)
    ensures Eval(alg, FFTShift1D(IFFTShift1D(a)), x) == Eval(alg, a, x)
  {
    var y := Shift1DCoords(a, x, false);
    ShiftCoords1DThrough(a, x, false);
    assert Eval(alg, FFTShift1D(IFFTShift1D(a)), x) == Eval(alg, IFFTShift1D(a), y);
    assert Eval(alg, IFFTShift1D(a), y) == Eval(alg, a, Shift1DCoords(a, y, true));
    Shift1DCoordsInverse(a, x, false);
  }

  /** ifftshift2D undoes fftshift2D. */
  lemma FftShift2DRoundTrip<S>(alg: Algebra<S>, a: Expr<S>, x: seq<int>)
    requires |x| >= 2 && 0 <= x[|x| - 2] < Size(a, |x| - 2) && 0 <= x[|x| - 1] < Size(a, |x| - 1)
    ensures Eval(alg, IFFTShift2D(FFTShift2D(a)), x) == Eval(alg, a, x)
  {
    var y := Shift2DCoords(a, x, true);
    FftShift2DCoordsThrough(a, x, true);
    assert Eval(alg, IFFTShift2D(FFTShift2D(a)), x) == Eval(alg, FFTShift2D(a), y);
    assert Eval(alg, FFTShift2D(a), y) == Eval(alg, a, Shift2DCoords(a, y, false));
    Shift2DCoordsInverse(a, x, true);
  }

  /** fftshift2D undoes ifftshift2D. */
  lemma IfftShift2DRoundTrip<S>(alg: Algebra<S>, a: Expr<S>, x: seq<int>)
    requires |x| >= 2 && 0 <= x[|x| - 2] < Size(a, |x| - 2) && 0 <= x[|x| - 1] < Size(a, |x| - 1)
    ensures Eval(alg, FFTShift2D(IFFTShift2D(a)), x) == Eval(alg, a, x)
  {
    var y := Shift2DCoords(a, x, false);
    IfftShift2DCoordsThrough(a, x, false);
    assert Eval(alg, FFTShift2D(IFFTShift2D(a)), x) == Eval(alg, IFFTShift2D(a), y);
    assert Eval(alg, IFFTShift2D(a), y) == Eval(alg, a, Shift2DCoords(a, y, true));
    Shift2DCoordsInverse(a, x, false);
  }

  /** On an even extent fftshift1D and ifftshift1D read the same element. */
  lemma FftShiftsAgreeOnEven<S>(alg: Algebra<S>, a: Expr<S>, x: seq<int>)
    requires |x| >= 1 && Size(a, |x| - 1) > 0 && Size(a, |x| - 1) % 2 == 0
    ensures Eval(alg, FFTShift1D(a), x) == Eval(alg, IFFTShift1D(a), x)
  {
    var n := Size(a, |x| - 1);
    FftIfftCoincideOnEven(x[|x| - 1], n);
    assert Shift1DCoords(a, x, false) == Shift1DCoords(a, x, true);
  }

  // ------------------------------------------------------------- hermitian

  /** Reversing the order of a tuple twice gives it back. */
  lemma ReversedInvolution(x: seq<int>)
    ensures Reversed(Reversed(x)) == x
  {
    var y := Reversed(Reversed(x));
    forall i | 0 <= i < |x|
      ensures y[i] == x[i]
    {
      ReversedIndex(Reversed(x), i);
      ReversedIndex(x, |x| - 1 - i);
    }
  }

  /** Conjugate transposition twice gives back the operand's values,
      provided the element type's negation is an involution. */
  lemma HermitianInvolution<S(!new)>(alg: Algebra<S>, a: Expr<S>, x: seq<int>)
    requires NegInvolutive(alg)
    ensures Eval(alg, HermitianT(HermitianT(a)), x) == Eval(alg, a, x)
  {
    var y := Reversed(x);
    ReversedInvolution(x);
    assert Eval(alg, HermitianT(HermitianT(a)), x) == Conj(alg, Eval(alg, HermitianT(a), y));
    assert Eval(alg, HermitianT(a), y) == Conj(alg, Eval(alg, a, Reversed(y)));
    ConjInvolution(alg, Eval(alg, a, x));
  }

  /** Conjugate transposition twice reads the operand at the same
      coordinates. */
  lemma HermitianReadsInvolution<S>(alg: Algebra<S>, a: Expr<S>, x: seq<int>)
    ensures Reads(alg, HermitianT(HermitianT(a)), x) == Reads(alg, a, x)
  {
    var y := Reversed(x);
    ReversedInvolution(x);
    assert Reads(alg, HermitianT(HermitianT(a)), x) == Reads(alg, HermitianT(a), y);
    assert Reads(alg, HermitianT(a), y) == Reads(alg, a, Reversed(y));
  }

  /** Conjugate transposition twice keeps every size. */
  lemma HermitianSizes<S>(a: Expr<S>)
    ensures Rank(HermitianT(HermitianT(a))) == Rank(a)
    ensures forall d :: Size(HermitianT(HermitianT(a)), d) == Size(a, d)
  {
    forall d
      ensures Size(HermitianT(HermitianT(a)), d) == Size(a, d)
    {
      var r := Rank(a);
      assert Size(HermitianT(HermitianT(a)), d) == Size(HermitianT(a), r - d - 1);
      assert r - (r - d - 1) - 1 == d;
    }
  }

  /** A Hermitian transpose is in range exactly where the operand is, with
      the coordinates mirrored. */
  lemma HermitianInRange<S>(a: Expr<S>, x: seq<int>)
    requires |x| == Arity(a)
    ensures InRange(HermitianT(a), x) <==> InRange(a, Reversed(x))
  {
    if InRange(a, Reversed(x)) {
      forall d | 0 <= d < |x|
        ensures 0 <= x[d] < Size(HermitianT(a), d)
      {
        HermitianCoordAt(a, x, d);
        assert 0 <= Reversed(x)[|x| - 1 - d] < Size(a, |x| - 1 - d);
      }
    }
    if InRange(HermitianT(a), x) {
      forall d | 0 <= d < |x|
        ensures 0 <= Reversed(x)[d] < Size(a, d)
      {
        var e := |x| - 1 - d;
        HermitianCoordAt(a, x, e);
        assert 0 <= x[e] < Size(HermitianT(a), e);
      }
    }
  }

  /** Coordinate d of the transposed node is coordinate |x| - 1 - d of the operand. */
  lemma HermitianCoordAt<S>(a: Expr<S>, x: seq<int>, d: int)
    requires |x| == Arity(a) && 0 <= d < |x|
    ensures Size(HermitianT(a), d) == Size(a, |x| - 1 - d)
    ensures Reversed(x)[|x| - 1 - d] == x[d]
  {
    ReversedIndex(x, |x| - 1 - d);
  }


  // ------------------------------------------------------------------ diag

  /** diag of an n x m matrix is a vector of min(n, m) elements, element i
      being the operand's (i, i). */
  lemma DiagOfMatrix<S>(alg: Algebra<S>, a: Expr<S>, i: int)
    requires Rank(a) == 2 && InRange(Diag(a), [i])
    ensures Rank(Diag(a)) == 1 && Size(Diag(a), 0) == Min(Size(a, 0), Size(a, 1))
    ensures InRange(a, [i, i])
    ensures Eval(alg, Diag(a), [i]) == Eval(alg, a, [i, i])
  {
    assert DiagCoords([i]) == [i, i];
    assert 0 <= [i][0] < Size(Diag(a), 0);
  }

  /** At any rank from two on, element (b.., c) of the diagonal is the
      operand's in-range element (b.., c, c). */
  lemma DiagOfBatch<S>(alg: Algebra<S>, a: Expr<S>, x: seq<int>)
    requires Rank(a) >= 2 && InRange(Diag(a), x)
    ensures |x| >= 1
    ensures InRange(a, x + [x[|x| - 1]])
    ensures Eval(alg, Diag(a), x) == Eval(alg, a, x + [x[|x| - 1]])
  {
    var r := Rank(a);
    var y := x + [x[|x| - 1]];
    assert |x| == r - 1;
    forall d | 0 <= d < r
      ensures 0 <= y[d] < Size(a, d)
    {
      if d < r - 2 {
        assert y[d] == x[d] && Size(Diag(a), d) == Size(a, d);
      } else {
        assert y[d] == x[r - 2];
      }
    }
  }

  /** At rank two the diagonal's size ignores the dimension asked for: every
      `dim` gives the smaller of the two extents. */
  lemma DiagMatrixSize<S>(a: Expr<S>, d: int)
    requires Rank(a) == 2 && d >= 0
    ensures Size(Diag(a), d) == Min(Size(a, 0), Size(a, 1))
    ensures Size(Diag(a), d) <= Size(a, 0) && Size(Diag(a), d) <= Size(a, 1)
  {
  }

  /** Concrete sizes: a 3 x 5 or a 5 x 3 matrix has a diagonal of 3,
      whichever non-negative `dim` is asked for. */
  lemma DiagSizeExample<S>(vals: seq<int> -> Value<S>, d: int)
    requires d >= 0
    ensures Size(Diag(Leaf(Descriptor.Desc(2, [3, 5], [5, 1]), vals)), d) == 3
    ensures Size(Diag(Leaf(Descriptor.Desc(2, [5, 3], [1, 5]), vals)), d) == 3
  {
  }

  // ------------------------------------------------------------------ kron

  /** On a matrix coordinate, Kron passes B the remainders and A the
      quotients by B's extents. */
  lemma KronCoords2D<S>(b: Expr<S>, i: int, j: int)
    requires Size(b, 0) > 0 && Size(b, 1) > 0 && i >= 0 && j >= 0
    ensures KronInner(b, [i, j]) == [i % Size(b, 0), j % Size(b, 1)]
    ensures KronOuter(b, [i, j]) == [i / Size(b, 0), j / Size(b, 1)]
  {
  }

  /** The 2-D Kronecker product: element (i, j) is
      B(i mod p, j mod q) * A(i div p, j div q) for a p x q operand B. */
  lemma Kron2D<S>(alg: Algebra<S>, a: Expr<S>, b: Expr<S>, i: int, j: int)
    requires Size(a, 0) >= 0 && Size(a, 1) >= 0 && Size(b, 0) >= 0 && Size(b, 1) >= 0
    requires 0 <= i < Size(Kron(a, b), 0) && 0 <= j < Size(Kron(a, b), 1)
    ensures Size(b, 0) > 0 && Size(b, 1) > 0
    ensures Eval(alg, Kron(a, b), [i, j])
      == alg.mul(Eval(alg, b, [i % Size(b, 0), j % Size(b, 1)]),
                 Eval(alg, a, [i / Size(b, 0), j / Size(b, 1)]))
  {
    KronSplit(i, Size(a, 0), Size(b, 0));
    KronSplit(j, Size(a, 1), Size(b, 1));
    KronCoords2D(b, i, j);
    assert Eval(alg, Kron(a, b), [i, j])
      == alg.mul(Eval(alg, b, KronInner(b, [i, j])), Eval(alg, a, KronOuter(b, [i, j])));
  }

  /** The Kronecker product at any rank from two: the batch coordinates reach
      both operands unchanged, and the last two are split by B's extents
      into a B coordinate (the remainder) and an A coordinate (the quotient). */
  lemma KronBatched<S>(alg: Algebra<S>, a: Expr<S>, b: Expr<S>, x: seq<int>)
    requires |x| >= 2
    requires Size(b, |x| - 2) > 0 && Size(b, |x| - 1) > 0
    requires x[|x| - 2] >= 0 && x[|x| - 1] >= 0
    ensures var n := |x|; var p := Size(b, n - 2); var q := Size(b, n - 1);
      Eval(alg, Kron(a, b), x)
      == alg.mul(Eval(alg, b, x[n - 2 := x[n - 2] % p][n - 1 := x[n - 1] % q]),
                 Eval(alg, a, x[n - 2 := x[n - 2] / p][n - 1 := x[n - 1] / q]))
  {
    var n := |x|;
    var p := Size(b, n - 2);
    var q := Size(b, n - 1);
    assert KronInner(b, x) == x[n - 2 := x[n - 2] % p][n - 1 := x[n - 1] % q];
    assert KronOuter(b, x) == x[n - 2 := x[n - 2] / p][n - 1 := x[n - 1] / q];
    EvalKron(alg, a, b, x);
  }

  /** Kron's call operator, one unfolding of `Eval`. */
  lemma EvalKron<S>(alg: Algebra<S>, a: Expr<S>, b: Expr<S>, x: seq<int>)
    ensures Eval(alg, Kron(a, b), x) == alg.mul(Eval(alg, b, KronInner(b, x)), Eval(alg, a, KronOuter(b, x)))
  {
  }

  /** Both reads of a 2-D Kronecker element are in range. */
  lemma Kron2DInRange<S>(a: Expr<S>, b: Expr<S>, i: int, j: int)
    requires Rank(a) == 2 && Rank(b) == 2
    requires Size(a, 0) >= 0 && Size(a, 1) >= 0 && Size(b, 0) >= 0 && Size(b, 1) >= 0
    requires InRange(Kron(a, b), [i, j])
    ensures Size(b, 0) > 0 && Size(b, 1) > 0
    ensures InRange(b, [i % Size(b, 0), j % Size(b, 1)])
    ensures InRange(a, [i / Size(b, 0), j / Size(b, 1)])
  {
    assert 0 <= [i, j][0] < Size(Kron(a, b), 0);
    assert 0 <= [i, j][1] < Size(Kron(a, b), 1);
    KronSplit(i, Size(a, 0), Size(b, 0));
    KronSplit(j, Size(a, 1), Size(b, 1));
  }

  /** The "rect" case of the kron test vectors: a 2 x 3 matrix A with a
      2 x 2 matrix B gives a 4 x 6 result whose element (3, 5) is
      B(1, 1) * A(1, 2). */
  lemma KronRectExample<S>(alg: Algebra<S>, va: seq<int> -> Value<S>, vb: seq<int> -> Value<S>)
    ensures var a := Leaf(Descriptor.Desc(2, [2, 3], [3, 1]), va);
      var b := Leaf(Descriptor.Desc(2, [2, 2], [2, 1]), vb);
      Size(Kron(a, b), 0) == 4 && Size(Kron(a, b), 1) == 6
      && Eval(alg, Kron(a, b), [3, 5]) == alg.mul(vb([1, 1]), va([1, 2]))
  {
    var a := Leaf(Descriptor.Desc(2, [2, 3], [3, 1]), va);
    var b := Leaf(Descriptor.Desc(2, [2, 2], [2, 1]), vb);
    Kron2D(alg, a, b, 3, 5);
  }

  // ---------------------------------------------------------------- repmat

  /** A product above some non-negative number, with a non-negative second
      factor, has a positive first factor. */
  lemma PositiveFactor(n: int, r: int, c: int)
    requires r >= 0 && 0 <= c < n * r
    ensures n > 0
  {
    if n <= 0 {
      MulMonotone(n, 0, r);
    }
  }

  /** RepMat tiles its operand: every element is the operand's element at
      the coordinates reduced modulo its sizes. */
  lemma RepMatTiles<S>(alg: Algebra<S>, a: Expr<S>, reps: seq<int>, x: seq<int>)
    requires |reps| == |x| && forall k :: 0 <= k < |reps| ==> reps[k] >= 0
    requires InRange(RepMat(a, reps), x)
    ensures forall k :: 0 <= k < |x| ==> Size(a, k) > 0
    ensures Eval(alg, RepMat(a, reps), x)
      == Eval(alg, a, seq(|x|, k requires 0 <= k < |x| => x[k] % Size(a, k)))
  {
    forall k | 0 <= k < |x|
      ensures Size(a, k) > 0 && RepCoords(a, x)[k] == x[k] % Size(a, k)
    {
      assert 0 <= x[k] < Size(RepMat(a, reps), k);
      RepCoordInRange(a, reps, x, k);
    }
    assert RepCoords(a, x) == seq(|x|, k requires 0 <= k < |x| => x[k] % Size(a, k));
  }

  /** One tiled coordinate is in range of the operand's extent. */
  lemma RepCoordInRange<S>(a: Expr<S>, reps: seq<int>, x: seq<int>, k: int)
    requires 0 <= k < |x| && k < |reps| && reps[k] >= 0
    requires 0 <= x[k] < Size(RepMat(a, reps), k)
    ensures Size(a, k) > 0
    ensures RepCoords(a, x)[k] == x[k] % Size(a, k)
    ensures 0 <= RepCoords(a, x)[k] < Size(a, k)
  {
    assert Size(RepMat(a, reps), k) == Size(a, k) * reps[k];
    PositiveFactor(Size(a, k), reps[k], x[k]);
    assert RepCoords(a, x)[k] == CRem(x[k], Size(a, k));
    RepIndexInRange(x[k], Size(a, k));
  }

  /** The tiled coordinates are in range of the operand. */
  lemma RepMatInRange<S>(a: Expr<S>, reps: seq<int>, x: seq<int>)
    requires Rank(a) == |reps| == |x| && forall k :: 0 <= k < |reps| ==> reps[k] >= 0
    requires InRange(RepMat(a, reps), x)
    ensures InRange(a, RepCoords(a, x))
  {
    forall k | 0 <= k < |x|
      ensures 0 <= RepCoords(a, x)[k] < Size(a, k)
    {
      assert 0 <= x[k] < Size(RepMat(a, reps), k);
      RepCoordInRange(a, reps, x, k);
    }
  }

  /** Moving one whole tile along a dimension reads the same element. */
  lemma RepMatPeriodic<S>(alg: Algebra<S>, a: Expr<S>, reps: seq<int>, x: seq<int>, d: int)
    requires 0 <= d < |x| && Size(a, d) > 0 && x[d] >= 0
    ensures Eval(alg, RepMat(a, reps), x[d := x[d] + Size(a, d)]) == Eval(alg, RepMat(a, reps), x)
  {
    var y := x[d := x[d] + Size(a, d)];
    RepIndexInRange(x[d], Size(a, d));
    assert RepCoords(a, y) == RepCoords(a, x);
  }

  // ---------------------------------------------------- planar/interleaved

  /** Viewing an interleaved complex operand as planar doubles the layout
      dimension: reals first, then imaginaries. */
  lemma PlanarLayout<S>(alg: Algebra<S>, a: Expr<S>, x: seq<int>)
    requires |x| >= 1 && Rank(a) == |x|
    ensures Size(Planar(a), LayoutDim(|x|)) == 2 * Size(a, LayoutDim(|x|))
    ensures var k := LayoutDim(|x|);
      x[k] < Size(a, k) ==> Eval(alg, Planar(a), x) == Real(Re(alg, Eval(alg, a, x)))
    ensures var k := LayoutDim(|x|); var n := Size(a, k);
      x[k] >= n ==> Eval(alg, Planar(a), x) == Real(Im(alg, Eval(alg, a, x[k := x[k] - n])))
  {
  }

  /** The lower half of an in-range planar view reads its operand in range
      at the same coordinates. */
  lemma PlanarLowerInRange<S>(a: Expr<S>, x: seq<int>)
    requires |x| >= 1 && Rank(a) == |x| && InRange(Planar(a), x)
    requires x[LayoutDim(|x|)] < Size(a, LayoutDim(|x|))
    ensures InRange(a, x)
  {
    var k := LayoutDim(|x|);
    forall d | 0 <= d < |x|
      ensures 0 <= x[d] < Size(a, d)
    {
      assert 0 <= x[d] < Size(Planar(a), d);
      if d != k {
        assert Size(Planar(a), d) == Size(a, d);
      }
    }
  }

  /** The upper half of an in-range planar view reads its operand in range
      one layout extent lower. */
  lemma PlanarUpperInRange<S>(a: Expr<S>, x: seq<int>)
    requires |x| >= 1 && Rank(a) == |x| && InRange(Planar(a), x)
    requires x[LayoutDim(|x|)] >= Size(a, LayoutDim(|x|))
    ensures var k := LayoutDim(|x|); InRange(a, x[k := x[k] - Size(a, k)])
  {
    var k := LayoutDim(|x|);
    var n := Size(a, k);
    var y := x[k := x[k] - n];
    forall d | 0 <= d < |x|
      ensures 0 <= y[d] < Size(a, d)
    {
      PlanarUpperCoord(a, x, k, n, d);
    }
  }

  /** One coordinate of PlanarUpperInRange. */
  lemma PlanarUpperCoord<S>(a: Expr<S>, x: seq<int>, k: int, n: int, d: int)
    requires |x| >= 1 && Rank(a) == |x| && InRange(Planar(a), x)
    requires k == LayoutDim(|x|) && n == Size(a, k) && x[k] >= n && 0 <= d < |x|
    ensures 0 <= x[k := x[k] - n][d] < Size(a, d)
  {
    assert 0 <= x[d] < Size(Planar(a), d);
    if d == k {
      assert Size(Planar(a), d) == 2 * n;
    } else {
      assert Size(Planar(a), d) == Size(a, d);
    }
  }

  /** One unfolding of a planar node below the split, with the layout
      dimension and its extent named. */
  lemma EvalPlanarLow<S>(alg: Algebra<S>, a: Expr<S>, x: seq<int>, k: int, n: int)
    requires |x| >= 1 && k == LayoutDim(|x|) && n == Size(a, k) && x[k] < n
    ensures Eval(alg, Planar(a), x) == Real(Re(alg, Eval(alg, a, x)))
  {
  }

  /** One unfolding of a planar node at or above the split. */
  lemma EvalPlanarHigh<S>(alg: Algebra<S>, a: Expr<S>, x: seq<int>, k: int, n: int)
    requires |x| >= 1 && k == LayoutDim(|x|) && n == Size(a, k) && x[k] >= n
    ensures Eval(alg, Planar(a), x) == Real(Im(alg, Eval(alg, a, x[k := x[k] - n])))
  {
  }

  /** One unfolding of an interleaved node, with the layout dimension and
      half its extent named. */
  lemma EvalInterleavedAt<S>(alg: Algebra<S>, a: Expr<S>, x: seq<int>, k: int, h: int)
    requires |x| >= 1 && k == LayoutDim(|x|) && h == CDiv(Size(a, k), 2)
    ensures Eval(alg, Interleaved(a), x)
      == Complex(Re(alg, Eval(alg, a, x)), Re(alg, Eval(alg, a, x[k := h + x[k]])))
  {
    var n := Size(a, k);
    assert x[k := CDiv(n, 2) + x[k]] == x[k := h + x[k]];
  }

  /** The imaginary part an interleaved node yields half an extent below x
      is the operand's element at x. */
  lemma InterleavedImBelow<S>(alg: Algebra<S>, a: Expr<S>, x: seq<int>, y: seq<int>, k: int, h: int)
    requires |x| >= 1 && k == LayoutDim(|x|) && h == CDiv(Size(a, k), 2)
    requires y == x[k := x[k] - h]
    ensures Im(alg, Eval(alg, Interleaved(a), y)) == Re(alg, Eval(alg, a, x))
  {
    assert y[k := h + y[k]] == x by {
      assert h + y[k] == x[k];
      RestoreCoord(x, k, x[k] - h);
    }
    EvalInterleavedAt(alg, a, y, k, h);
  }

  /** The upper half of a planar view, read one layout extent above an
      in-range coordinate, holds that element's imaginary part. */
  lemma PlanarUpperHalf<S>(alg: Algebra<S>, a: Expr<S>, x: seq<int>, k: int, n: int)
    requires |x| >= 1 && k == LayoutDim(|x|) && n == Size(a, k) && 0 <= x[k]
    ensures Eval(alg, Planar(a), x[k := n + x[k]]) == Real(Im(alg, Eval(alg, a, x)))
  {
    var x2 := x[k := n + x[k]];
    assert x2[k := x2[k] - n] == x by {
      RestoreCoord(x, k, n + x[k]);
    }
    EvalPlanarHigh(alg, a, x2, k, n);
  }

  /** Re-interleaving a planar view gives back a complex operand. */
  lemma InterleavedOfPlanar<S>(alg: Algebra<S>, a: Expr<S>, x: seq<int>)
    requires |x| >= 1 && Rank(a) == |x|
    requires 0 <= x[LayoutDim(|x|)] < Size(a, LayoutDim(|x|))
    requires Eval(alg, a, x).Complex?
    ensures Eval(alg, Interleaved(Planar(a)), x) == Eval(alg, a, x)
  {
    var k := LayoutDim(|x|);
    var n := Size(a, k);
    assert Size(Planar(a), k) == 2 * n;
    assert CDiv(2 * n, 2) == n;
    EvalInterleavedAt(alg, Planar(a), x, k, n);
    EvalPlanarLow(alg, a, x, k, n);
    PlanarUpperHalf(alg, a, x, k, n);
    ComplexFromParts(alg, Eval(alg, a, x));
  }

  /** Planar doubles the split dimension and Interleaved halves it; every
      other dimension keeps its size. On an even split extent, Interleaved's
      half is exact. */
  lemma LayoutSizes<S>(a: Expr<S>, d: int)
    requires Rank(a) >= 1 && 0 <= d < Rank(a)
    ensures var k := LayoutDim(Rank(a));
      && (d != k ==> Size(Planar(a), d) == Size(a, d) && Size(Interleaved(a), d) == Size(a, d))
      && (d == k ==> Size(Planar(a), d) == 2 * Size(a, d))
      && (d == k && Size(a, d) >= 0 ==> 2 * Size(Interleaved(a), d) <= Size(a, d) < 2 * Size(Interleaved(a), d) + 2)
      && (d == k && Size(a, d) >= 0 && Size(a, d) % 2 == 0 ==> 2 * Size(Interleaved(a), d) == Size(a, d))
  {
  }

  /** Interleaving a planar view keeps every size. */
  lemma InterleavedPlanarSizes<S>(a: Expr<S>)
    ensures Rank(Interleaved(Planar(a))) == Rank(a)
    ensures forall d :: Size(Interleaved(Planar(a)), d) == Size(a, d)
  {
    forall d
      ensures Size(Interleaved(Planar(a)), d) == Size(a, d)
    {
      assert CDiv(Size(a, d) * 2, 2) == Size(a, d);
    }
  }

  /** Half of a positive even extent, in C++ division. */
  lemma HalfOfEven(n: int)
    requires n > 0 && n % 2 == 0
    ensures CDiv(n, 2) * 2 == n && 0 < CDiv(n, 2) < n
  {
  }

  /** Planar over Interleaved has the operand's sizes once the layout
      dimension is even. */
  lemma PlanarInterleavedSizes<S>(a: Expr<S>, r: int)
    requires r == Rank(a) && r >= 1 && Size(a, LayoutDim(r)) > 0 && Size(a, LayoutDim(r)) % 2 == 0
    ensures forall d :: 0 <= d < r ==> Size(Planar(Interleaved(a)), d) == Size(a, d)
  {
    var k := LayoutDim(r);
    forall d | 0 <= d < r
      ensures Size(Planar(Interleaved(a)), d) == Size(a, d)
    {
      PlanarInterleavedSizeAt(a, r, k, d);
    }
  }

  lemma PlanarInterleavedSizeAt<S>(a: Expr<S>, r: int, k: int, d: int)
    requires r == Rank(a) && r >= 1 && k == LayoutDim(r) && 0 <= d < r
    requires Size(a, k) > 0 && Size(a, k) % 2 == 0
    ensures Size(Planar(Interleaved(a)), d) == Size(a, d)
  {
    assert Rank(Interleaved(a)) == r;
    if d == k {
      HalfOfEven(Size(a, k));
      assert Size(Interleaved(a), d) == CDiv(Size(a, k), 2);
    } else {
      assert Size(Interleaved(a), d) == Size(a, d);
    }
  }

  /** The lower half of the planar view of an interleaved node holds the
      real parts, which are the even elements of the operand. */
  lemma RealPlaneOfInterleaved<S>(alg: Algebra<S>, a: Expr<S>, x: seq<int>)
    requires |x| >= 1 && Rank(a) == |x|
    requires x[LayoutDim(|x|)] < CDiv(Size(a, LayoutDim(|x|)), 2)
    ensures Eval(alg, Planar(Interleaved(a)), x) == Real(Re(alg, Eval(alg, a, x)))
  {
    var k := LayoutDim(|x|);
    var h := CDiv(Size(a, k), 2);
    assert Size(Interleaved(a), k) == h;
    EvalPlanarLow(alg, Interleaved(a), x, k, h);
    EvalInterleavedAt(alg, a, x, k, h);
  }

  /** The upper half holds the imaginary parts: the operand's elements half
      an extent further on. */
  lemma ImaginaryPlaneOfInterleaved<S>(alg: Algebra<S>, a: Expr<S>, x: seq<int>)
    requires |x| >= 1 && Rank(a) == |x|
    requires x[LayoutDim(|x|)] >= CDiv(Size(a, LayoutDim(|x|)), 2)
    ensures Eval(alg, Planar(Interleaved(a)), x) == Real(Re(alg, Eval(alg, a, x)))
  {
    var k := LayoutDim(|x|);
    var h := CDiv(Size(a, k), 2);
    assert Size(Interleaved(a), k) == h;
    EvalPlanarHigh(alg, Interleaved(a), x, k, h);
    InterleavedImBelow(alg, a, x, x[k := x[k] - h], k, h);
  }

  /** Splitting an interleaved view into planes gives back a real operand
      whose layout dimension has even size. */
  lemma PlanarOfInterleaved<S>(alg: Algebra<S>, a: Expr<S>, x: seq<int>)
    requires |x| >= 1 && Rank(a) == |x| && Size(a, LayoutDim(|x|)) % 2 == 0
    requires Eval(alg, a, x).Real?
    ensures Eval(alg, Planar(Interleaved(a)), x) == Eval(alg, a, x)
  {
    var k := LayoutDim(|x|);
    if x[k] >= CDiv(Size(a, k), 2) {
      ImaginaryPlaneOfInterleaved(alg, a, x);
    } else {
      RealPlaneOfInterleaved(alg, a, x);
    }
  }

  // --------------------------------------------------------- comma, if

  /** A chain of statements yields the last one's value and performs the
      reads of all of them in order, however it is bracketed. */
  lemma CommaAssociative<S>(alg: Algebra<S>, a: Expr<S>, b: Expr<S>, c: Expr<S>, x: seq<int>)
    ensures Eval(alg, Comma(Comma(a, b), c), x) == Eval(alg, Comma(a, Comma(b, c)), x) == Eval(alg, c, x)
    ensures Reads(alg, Comma(Comma(a, b), c), x) == Reads(alg, Comma(a, Comma(b, c)), x)
      == Reads(alg, a, x) + Reads(alg, b, x) + Reads(alg, c, x)
  {
  }

  /** IFELSE performs IF's reads, and only when the condition fails does it go on
      to read the else branch. */
  lemma IfElseExtendsIf<S>(alg: Algebra<S>, c: Expr<S>, a: Expr<S>, b: Expr<S>, x: seq<int>)
    ensures var xc := Project(x, Rank(c));
      alg.truth(Eval(alg, c, xc)) ==> Reads(alg, IfElse(c, a, b), x) == Reads(alg, If(c, a), x)
    ensures var xc := Project(x, Rank(c));
      !alg.truth(Eval(alg, c, xc))
      ==> Reads(alg, IfElse(c, a, b), x) == Reads(alg, If(c, a), x) + Reads(alg, b, Project(x, Rank(b)))
  {
  }

  /** With the same statement in both branches the condition still runs first, but its
      value no longer matters: the node reads the condition and then that statement. */
  lemma IfElseSameBranches<S>(alg: Algebra<S>, c: Expr<S>, a: Expr<S>, x: seq<int>)
    ensures Reads(alg, IfElse(c, a, a), x)
      == Reads(alg, c, Project(x, Rank(c))) + Reads(alg, a, Project(x, Rank(a)))
  {
  }

  /** IF reads like IFELSE with the same condition and branch, minus the
      else-branch: the same reads when the condition holds, the condition's
      reads alone otherwise. */
  lemma IfReadsPrefix<S>(alg: Algebra<S>, c: Expr<S>, a: Expr<S>, b: Expr<S>, x: seq<int>)
    ensures var xc := Project(x, Rank(c));
      Reads(alg, If(c, a), x)
        == if alg.truth(Eval(alg, c, xc)) then Reads(alg, IfElse(c, a, b), x) else Reads(alg, c, xc)
    ensures Reads(alg, If(c, a), x) <= Reads(alg, IfElse(c, a, b), x)
  {
  }

  // ----------------------------------------------------------------- unary

  /** Below the uint32 limit of its second index, a unary node applies its
      function to the operand's element at the same coordinates. */
  lemma UnaryPointwise<S>(alg: Algebra<S>, f: Value<S> -> Value<S>, a: Expr<S>, x: seq<int>)
    requires |x| == 4 ==> 0 <= x[1] < TWO_POW_32
    ensures Eval(alg, Unary(f, a), x) == f(Eval(alg, a, x))
  {
    assert UnaryCoords(x) == x;
  }
}
