/** The lazy expression engine: one datatype for every node class, with the
    node's rank, its per-dimension size, the constructor-time checks, the
    value it yields at a coordinate, and the ordered list of leaf reads an
    evaluation performs.

    A node of rank R is evaluated at exactly max(R, 0) coordinates (the
    source has one call operator per arity). A rank of -1 marks a plain
    scalar that is not an operator; it takes no coordinates.
 */
module TensorOps {
  import opened Arith
  import opened Descriptor
  import opened Values
  import opened Index

  datatype Expr<!S> =
    | Const(v: Value<S>)                                   // a plain scalar (rank -1)
    | Leaf(desc: Desc, vals: seq<int> -> Value<S>)         // a view over storage
    | Unary(f: Value<S> -> Value<S>, a: Expr<S>)          // matxUnaryOp
    | Binary(g: (Value<S>, Value<S>) -> Value<S>, a: Expr<S>, b: Expr<S>)  // matxBinaryOp
    | If(cond: Expr<S>, a: Expr<S>)                       // IF
    | IfElse(cond: Expr<S>, a: Expr<S>, b: Expr<S>)       // IFELSE
    | Comma(a: Expr<S>, b: Expr<S>)                       // CommaOp
    | Self(a: Expr<S>)                                    // SelfOp
    | Reverse(a: Expr<S>, dim: int)                       // ReverseOp<T, DIM>
    | Shift(a: Expr<S>, dim: int, s: int)                 // ShiftOp<T, DIM>
    | HermitianT(a: Expr<S>)                              // HermitianTransOp
    | Diag(a: Expr<S>)                                    // DiagOp
    | Kron(a: Expr<S>, b: Expr<S>)                        // KronOp
    | RepMat(a: Expr<S>, reps: seq<int>)                  // RepMatOp
    | FFTShift1D(a: Expr<S>)
    | FFTShift2D(a: Expr<S>)
    | IFFTShift1D(a: Expr<S>)
    | IFFTShift2D(a: Expr<S>)
    | Planar(a: Expr<S>)                                  // ComplexPlanarOp
    | Interleaved(a: Expr<S>)                             // ComplexInterleavedOp

  /** One read of a leaf: which descriptor, at which coordinates. */
  datatype Access = Access(desc: Desc, at: seq<int>)

  // ------------------------------------------------------------ rank, size

  function Rank<S>(e: Expr<S>): int {
    match e
    case Const(_) => -1
    case Leaf(desc, _) => desc.rank
    case Unary(_, a) => Rank(a)
    case Binary(_, a, b) => Max(Rank(a), Rank(b))
    case If(c, a) => Max(Rank(c), Rank(a))
    case IfElse(c, a, b) => Max(Rank(c), Max(Rank(a), Rank(b)))
    case Comma(_, b) => Rank(b)
    case Self(a) => Rank(a)
    case Reverse(a, _) => Rank(a)
    case Shift(a, _, _) => Rank(a)
    case HermitianT(a) => Rank(a)
    case Diag(a) => Rank(a) - 1
    case Kron(a, _) => Rank(a)
    case RepMat(a, _) => Rank(a)
    case FFTShift1D(a) => Rank(a)
    case FFTShift2D(a) => Rank(a)
    case IFFTShift1D(a) => Rank(a)
    case IFFTShift2D(a) => Rank(a)
    case Planar(a) => Rank(a)
    case Interleaved(a) => Rank(a)
  }

  /** Number of coordinates the node's call operator takes. */
  function Arity<S>(e: Expr<S>): nat {
    if Rank(e) < 0 then 0 else Rank(e)
  }

  /** `get_expanded_size`: a node's size at `dim` when it has that dimension,
      otherwise 0, meaning "no constraint". */
  function ExpandedSize<S>(e: Expr<S>, dim: int): int
    decreases e, 2
  {
    if Rank(e) > 0 && 0 <= dim < Rank(e) then Size(e, dim) else 0
  }

  /** The broadcast candidates of several operands at one dimension. */
  function Candidates<S>(ops: seq<Expr<S>>, dim: int): (cs: seq<int>)
    ensures |cs| == |ops|
  {
    seq(|ops|, k requires 0 <= k < |ops| => ExpandedSize(ops[k], dim))
  }

  /** The constructor check of a broadcasting node at one dimension: every
      non-zero candidate equals the cached size. */
  predicate Agrees(cs: seq<int>, size: int) {
    forall k :: 0 <= k < |cs| ==> cs[k] == 0 || cs[k] == size
  }

  /** The constructor checks of a broadcasting node `e` over operands `ops`,
      at every dimension below its rank. */
  predicate SizesAgree<S>(e: Expr<S>, ops: seq<Expr<S>>) {
    forall d :: 0 <= d < Rank(e) ==> Agrees(Candidates(ops, d), Size(e, d))
  }

  /** `Size(dim)`. Out-of-range dimensions are never asked for by the
      engine; a leaf answers 0 there. Broadcasting nodes answer the MAX of
      their operands' expanded sizes, the value their constructor caches. */
  function Size<S>(e: Expr<S>, dim: int): int
    decreases e, 1
  {
    match e
    case Const(_) => 0
    case Leaf(desc, _) => if 0 <= dim < |desc.sizes| then desc.sizes[dim] else 0
    case Unary(_, a) => Size(a, dim)
    case Binary(_, a, b) => Max(ExpandedSize(a, dim), ExpandedSize(b, dim))
    case If(c, a) => Max(ExpandedSize(c, dim), ExpandedSize(a, dim))
    case IfElse(c, a, b) =>
      Max(ExpandedSize(c, dim), Max(ExpandedSize(a, dim), ExpandedSize(b, dim)))
    case Comma(_, b) => Size(b, dim)
    case Self(a) => Size(a, dim)
    case Reverse(a, _) => Size(a, dim)
    case Shift(a, _, _) => Size(a, dim)
    case HermitianT(a) => Size(a, Rank(a) - dim - 1)
    case Diag(a) =>
      var r := Rank(a);
      if r <= 1 then 0
      else if dim < r - 2 then Size(a, dim)
      else Min(Size(a, r - 1), Size(a, r - 2))
    case Kron(a, b) => Size(a, dim) * Size(b, dim)
    case RepMat(a, reps) => Size(a, dim) * (if 0 <= dim < |reps| then reps[dim] else 0)
    case FFTShift1D(a) => Size(a, dim)
    case FFTShift2D(a) => Size(a, dim)
    case IFFTShift1D(a) => Size(a, dim)
    case IFFTShift2D(a) => Size(a, dim)
    case Planar(a) =>
      if Rank(a) <= 1 || dim == Rank(a) - 2 then Size(a, dim) * 2 else Size(a, dim)
    case Interleaved(a) =>
      if Rank(a) <= 1 || dim == Rank(a) - 2 then CDiv(Size(a, dim), 2) else Size(a, dim)
  }

  // ------------------------------------------------------- well-formedness

  /** The checks a node passes when it is constructed: template constraints
      the compiler enforces, the broadcast size assertions, and the
      termination of ShiftOp's normalising loops. */
  predicate WellFormed<S>(e: Expr<S>) {
    match e
    case Const(_) => true
    case Leaf(desc, _) => desc.Valid() && desc.rank <= 4
    case Unary(_, a) => WellFormed(a)
    case Binary(_, a, b) =>
      WellFormed(a) && WellFormed(b) && SizesAgree(e, [a, b])
    case If(c, a) =>
      WellFormed(c) && WellFormed(a)
      && (Rank(c) == -1 || Rank(c) == Rank(e)) && (Rank(a) == -1 || Rank(a) == Rank(e))
      && SizesAgree(e, [c, a])
    case IfElse(c, a, b) =>
      WellFormed(c) && WellFormed(a) && WellFormed(b)
      && (Rank(c) == -1 || Rank(c) == Rank(e)) && (Rank(a) == -1 || Rank(a) == Rank(e))
      && (Rank(b) == -1 || Rank(b) == Rank(e))
      && SizesAgree(e, [c, a, b])
    case Comma(a, b) => WellFormed(a) && WellFormed(b) && Rank(a) == Rank(b)
    case Self(a) => WellFormed(a)
    case Reverse(a, _) => WellFormed(a)
    case Shift(a, dim, s) =>
      WellFormed(a) && 0 <= dim < Rank(a) && ShiftTerminates(s, Size(a, dim))
    case HermitianT(a) => WellFormed(a)
    case Diag(a) => WellFormed(a) && Rank(a) >= 1
    case Kron(a, b) => WellFormed(a) && WellFormed(b) && Rank(a) >= 2 && Rank(b) == Rank(a)
    case RepMat(a, reps) => WellFormed(a) && Rank(a) >= 0 && |reps| == Rank(a)
    case FFTShift1D(a) => WellFormed(a)
    case FFTShift2D(a) => WellFormed(a)
    case IFFTShift1D(a) => WellFormed(a)
    case IFFTShift2D(a) => WellFormed(a)
    case Planar(a) => WellFormed(a)
    case Interleaved(a) => WellFormed(a)
  }

  /** A coordinate tuple that addresses an element of the node. */
  predicate InRange<S>(e: Expr<S>, x: seq<int>) {
    |x| == Arity(e) && forall d :: 0 <= d < |x| ==> 0 <= x[d] < Size(e, d)
  }

  // ---------------------------------------------------- coordinate rewrites

  /** The coordinates an operand of rank r receives from a broadcasting node:
      the leading r of them, none for a scalar or a rank-0 operand. */
  function Project(x: seq<int>, r: int): (y: seq<int>)
    ensures r <= |x| ==> |y| == if r < 0 then 0 else r
    ensures 0 < r <= |x| ==> forall d :: 0 <= d < r ==> y[d] == x[d]
  {
    if r <= 0 then [] else if r <= |x| then x[..r] else x
  }

  /** matxUnaryOp's four-index operator declares its second index uint32_t. */
  function UnaryCoords(x: seq<int>): (y: seq<int>)
    ensures |y| == |x|
  {
    if |x| == 4 then x[1 := Wrap32(x[1])] else x
  }

  /** HermitianTransOp passes the coordinates in reverse order. */
  function Reversed(x: seq<int>): (y: seq<int>)
    ensures |y| == |x|
  {
    if |x| == 0 then [] else [x[|x| - 1]] + Reversed(x[..|x| - 1])
  }

  /** Position i of the reversed tuple holds position |x| - 1 - i. */
  lemma {:induction false} ReversedIndex(x: seq<int>, i: int)
    requires 0 <= i < |x|
    ensures Reversed(x)[i] == x[|x| - 1 - i]
  {
    if i > 0 {
      var p := x[..|x| - 1];
      ReversedIndex(p, i - 1);
      assert Reversed(x)[i] == Reversed(p)[i - 1];
    }
  }

  /** DiagOp repeats the last coordinate (and reads element 0 at rank 1). */
  function DiagCoords(x: seq<int>): (y: seq<int>)
    ensures |y| == |x| + 1
  {
    if |x| == 0 then [0] else x + [x[|x| - 1]]
  }

  /** Rotate coordinate k, of extent n, by fftshift or ifftshift. */
  function RotateAt(x: seq<int>, k: int, n: int, inverse: bool): (y: seq<int>)
    requires 0 <= k < |x|
    ensures |y| == |x|
  {
    x[k := if inverse then IfftIndex(x[k], n) else FftIndex(x[k], n)]
  }

  /** ReverseOp mirrors one coordinate within its extent. */
  function ReverseCoords<S>(a: Expr<S>, dim: int, x: seq<int>): (y: seq<int>)
    ensures |y| == |x|
  {
    if 0 <= dim < |x| then x[dim := RevIndex(x[dim], Size(a, dim))] else x
  }

  /** ShiftOp moves one coordinate by the normalised shift, modulo the
      extent. The guard only matters for nodes whose constructor would not
      have returned. */
  function ShiftCoords<S>(a: Expr<S>, dim: int, s: int, x: seq<int>): (y: seq<int>)
    ensures |y| == |x|
  {
    var n := Size(a, dim);
    if 0 <= dim < |x| && ShiftTerminates(s, n) then x[dim := ShiftIndex(x[dim], ShiftBase(s, n), n)]
    else x
  }

  /** The fftshift1D/ifftshift1D rewrite: rotate the last coordinate. */
  function Shift1DCoords<S>(a: Expr<S>, x: seq<int>, inverse: bool): (y: seq<int>)
    ensures |y| == |x|
  {
    if |x| == 0 then x else RotateAt(x, |x| - 1, Size(a, |x| - 1), inverse)
  }

  /** Rotate the last two coordinates, by the extents given. */
  function Rotate2(x: seq<int>, nj: int, nk: int, inverse: bool): (y: seq<int>)
    requires |x| >= 2
    ensures |y| == |x|
  {
    RotateAt(RotateAt(x, |x| - 2, nj, inverse), |x| - 1, nk, inverse)
  }

  /** The fftshift2D/ifftshift2D rewrite: rotate the last two coordinates
      (the only one at rank 1). */
  function Shift2DCoords<S>(a: Expr<S>, x: seq<int>, inverse: bool): (y: seq<int>)
    ensures |y| == |x|
  {
    if |x| <= 1 then Shift1DCoords(a, x, inverse)
    else Rotate2(x, Size(a, |x| - 2), Size(a, |x| - 1), inverse)
  }

  /** The coordinates Kron passes to its right operand B: the last two
      reduced modulo B's extents. */
  function KronInner<S>(b: Expr<S>, x: seq<int>): (y: seq<int>)
    ensures |y| == |x|
  {
    var n := |x|;
    if n < 2 then x
    else x[n - 2 := CRem(x[n - 2], Size(b, n - 2))][n - 1 := CRem(x[n - 1], Size(b, n - 1))]
  }

  /** The coordinates Kron passes to its left operand A: the last two
      divided by B's extents. */
  function KronOuter<S>(b: Expr<S>, x: seq<int>): (y: seq<int>)
    ensures |y| == |x|
  {
    var n := |x|;
    if n < 2 then x
    else x[n - 2 := CDiv(x[n - 2], Size(b, n - 2))][n - 1 := CDiv(x[n - 1], Size(b, n - 1))]
  }

  /** RepMat wraps every coordinate into the operand's extent. */
  function RepCoords<S>(a: Expr<S>, x: seq<int>): (y: seq<int>)
    ensures |y| == |x|
  {
    seq(|x|, i requires 0 <= i < |x| => CRem(x[i], Size(a, i)))
  }

  // ------------------------------------------------------------ evaluation

  /** The value a node yields at coordinates x. */
  function Eval<S>(alg: Algebra<S>, e: Expr<S>, x: seq<int>): Value<S>
    decreases e
  {
    match e
    case Const(v) => v
    case Leaf(_, vals) => vals(x)
    case Unary(f, a) => f(Eval(alg, a, UnaryCoords(x)))
    case Binary(g, a, b) =>
      g(Eval(alg, a, Project(x, Rank(a))), Eval(alg, b, Project(x, Rank(b))))
    case If(_, _) => Void
    case IfElse(_, _, _) => Void
    case Comma(_, b) => Eval(alg, b, x)
    case Self(a) => Eval(alg, a, x)
    case Reverse(a, dim) => Eval(alg, a, ReverseCoords(a, dim, x))
    case Shift(a, dim, s) => Eval(alg, a, ShiftCoords(a, dim, s, x))
    case HermitianT(a) => Conj(alg, Eval(alg, a, Reversed(x)))
    case Diag(a) => Eval(alg, a, DiagCoords(x))
    case Kron(a, b) => alg.mul(Eval(alg, b, KronInner(b, x)), Eval(alg, a, KronOuter(b, x)))
    case RepMat(a, _) => Eval(alg, a, RepCoords(a, x))
    case FFTShift1D(a) => Eval(alg, a, Shift1DCoords(a, x, false))
    case FFTShift2D(a) => Eval(alg, a, Shift2DCoords(a, x, false))
    case IFFTShift1D(a) => Eval(alg, a, Shift1DCoords(a, x, true))
    case IFFTShift2D(a) => Eval(alg, a, Shift2DCoords(a, x, true))
    case Planar(a) =>
      if |x| == 0 then Eval(alg, a, x)
      else
        var k := LayoutDim(|x|);
        var n := Size(a, k);
        if x[k] >= n then Real(Im(alg, Eval(alg, a, x[k := x[k] - n])))
        else Real(Re(alg, Eval(alg, a, x)))
    case Interleaved(a) =>
      // From rank three on this is the intended operator: the code as written
      // does not compile there (see Construct.InterleavedAsWritten).
      if |x| == 0 then Eval(alg, a, x)
      else
        var k := LayoutDim(|x|);
        var n := Size(a, k);
        Complex(Re(alg, Eval(alg, a, x)), Re(alg, Eval(alg, a, x[k := CDiv(n, 2) + x[k]])))
  }

  /** The leaf reads an evaluation performs, in order. IF evaluates its
      operand only when the condition holds; IFELSE evaluates exactly one
      branch; Comma evaluates both operands, the first one first. Kron's two
      operand reads are unsequenced in C++; they are listed B first, as the
      expression is written. */
  function Reads<S>(alg: Algebra<S>, e: Expr<S>, x: seq<int>): seq<Access>
    decreases e
  {
    match e
    case Const(_) => []
    case Leaf(desc, _) => [Access(desc, x)]
    case Unary(_, a) => Reads(alg, a, UnaryCoords(x))
    case Binary(_, a, b) =>
      Reads(alg, a, Project(x, Rank(a))) + Reads(alg, b, Project(x, Rank(b)))
    case If(c, a) =>
      var xc := Project(x, Rank(c));
      Reads(alg, c, xc)
        + (if alg.truth(Eval(alg, c, xc)) then Reads(alg, a, Project(x, Rank(a))) else [])
    case IfElse(c, a, b) =>
      var xc := Project(x, Rank(c));
      Reads(alg, c, xc)
        + (if alg.truth(Eval(alg, c, xc)) then Reads(alg, a, Project(x, Rank(a)))
           else Reads(alg, b, Project(x, Rank(b))))
    case Comma(a, b) => Reads(alg, a, x) + Reads(alg, b, x)
    case Self(a) => Reads(alg, a, x)
    case Reverse(a, dim) => Reads(alg, a, ReverseCoords(a, dim, x))
    case Shift(a, dim, s) => Reads(alg, a, ShiftCoords(a, dim, s, x))
    case HermitianT(a) => Reads(alg, a, Reversed(x))
    case Diag(a) => Reads(alg, a, DiagCoords(x))
    case Kron(a, b) => Reads(alg, b, KronInner(b, x)) + Reads(alg, a, KronOuter(b, x))
    case RepMat(a, _) => Reads(alg, a, RepCoords(a, x))
    case FFTShift1D(a) => Reads(alg, a, Shift1DCoords(a, x, false))
    case FFTShift2D(a) => Reads(alg, a, Shift2DCoords(a, x, false))
    case IFFTShift1D(a) => Reads(alg, a, Shift1DCoords(a, x, true))
    case IFFTShift2D(a) => Reads(alg, a, Shift2DCoords(a, x, true))
    case Planar(a) =>
      if |x| == 0 then Reads(alg, a, x)
      else
        var k := LayoutDim(|x|);
        var n := Size(a, k);
        if x[k] >= n then Reads(alg, a, x[k := x[k] - n]) else Reads(alg, a, x)
    case Interleaved(a) =>
      if |x| == 0 then Reads(alg, a, x)
      else
        var k := LayoutDim(|x|);
        var n := Size(a, k);
        Reads(alg, a, x) + Reads(alg, a, x[k := CDiv(n, 2) + x[k]])
  }
}
