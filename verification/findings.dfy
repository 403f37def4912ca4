/** Places where the code as written departs from what it evidently means.
    Each is shown twice: a concrete instance of the behaviour as written,
    and the intended behaviour with the property it was meant to have.
 */
module Findings {
  import opened Arith
  import opened Descriptor
  import opened Values
  import opened Index
  import opened TensorOps
  import opened Construct
  import opened Laws
  import opened Bounds

  // ----------------------------------------------------- IF's stale size_

  /** A condition and an operator of the same shape (three elements). IF
      with the intended check order accepts them; as written it compares
      the operands' sizes against the uninitialised `size_` entry, so it
      accepts them only when that entry happens to hold 3. */
  lemma IfAcceptsOnlyMatchingGarbage<S>(vals: seq<int> -> Value<S>)
    ensures var leaf := Leaf(Desc(1, [3], [1]), vals);
      WellFormed(If(leaf, Self(leaf)))
      && forall s :: Agrees(Candidates([leaf, Self(leaf)], 0), s) <==> s == 3
  {
    var leaf := Leaf(Desc(1, [3], [1]), vals);
    var e := If(leaf, Self(leaf));
    var cs := Candidates([leaf, Self(leaf)], 0);
    assert Rank(leaf) == 1 && Rank(Self(leaf)) == 1 && Rank(e) == 1;
    assert Size(leaf, 0) == 3 && Size(Self(leaf), 0) == 3;
    assert ExpandedSize(leaf, 0) == 3 && ExpandedSize(Self(leaf), 0) == 3;
    assert cs == [3, 3];
    assert Size(e, 0) == 3;
    assert SizesAgree(e, [leaf, Self(leaf)]) by {
      assert Agrees(cs, 3);
    }
    forall s
      ensures Agrees(cs, s) <==> s == 3
    {
      if Agrees(cs, s) {
        assert cs[0] == 0 || cs[0] == s;
      }
    }
  }

  // --------------------------------------------------- Kron batch extents

  /** Rank-3 operands with two batches each: KronOp reports 2 * 2 = 4 batches
      but reads both operands at the batch coordinate unchanged, so batch 3
      reads outside B (and A). */
  lemma KronBatchReadsOutOfBounds<S>(alg: Algebra<S>, va: seq<int> -> Value<S>, vb: seq<int> -> Value<S>)
    ensures var da := Desc(3, [2, 1, 1], [1, 1, 1]);
      var a, b := Leaf(da, va), Leaf(da, vb);
      var x := [3, 0, 0];
      WellFormed(Kron(a, b)) && Size(Kron(a, b), 0) == 4 && InRange(Kron(a, b), x)
      && |Reads(alg, Kron(a, b), x)| > 0 && Reads(alg, Kron(a, b), x)[0] == Access(da, x)
      && !AllInBounds(Reads(alg, Kron(a, b), x))
  {
    var da := Desc(3, [2, 1, 1], [1, 1, 1]);
    var a, b := Leaf(da, va), Leaf(da, vb);
    var x := [3, 0, 0];
    assert KronInner(b, x) == x;
    assert Reads(alg, b, x) == [Access(da, x)];
    assert !InBounds(Access(da, x)) by {
      assert x[0] >= da.Size(0);
    }
  }

  /** The extents KronOp evidently means to report: a batch dimension, at
      which both operands are read unchanged, keeps the operands' common
      extent; the two innermost dimensions multiply. */
  function KronSizeIntended<S>(a: Expr<S>, b: Expr<S>, d: int): (r: int)
    ensures d < Rank(a) - 2 ==> r == Size(a, d)
    ensures d >= Rank(a) - 2 ==> r == Size(Kron(a, b), d)
    ensures 0 <= d < Rank(a) - 2 && BatchesMatch(a, b) ==> r == Size(a, d) == Size(b, d)
  {
    if d < Rank(a) - 2 then Size(a, d) else Size(a, d) * Size(b, d)
  }

  /** The operands agree in every batch dimension. */
  predicate BatchesMatch<S>(a: Expr<S>, b: Expr<S>) {
    forall d :: 0 <= d < Rank(a) - 2 ==> Size(a, d) == Size(b, d)
  }

  predicate InIntendedRange<S>(a: Expr<S>, b: Expr<S>, x: seq<int>) {
    |x| == Arity(a) && forall d :: 0 <= d < |x| ==> 0 <= x[d] < KronSizeIntended(a, b, d)
  }

  /** Over the intended extents, every read a Kron evaluation performs is
      inside its leaf, with no condition on the batch extents beyond their
      agreement. */
  lemma KronIntendedInBounds<S>(alg: Algebra<S>, a: Expr<S>, b: Expr<S>, x: seq<int>)
    requires WellFormed(Kron(a, b)) && Safe(a) && Safe(b) && BatchesMatch(a, b)
    requires Size(a, Rank(a) - 2) >= 0 && Size(a, Rank(a) - 1) >= 0
    requires Size(b, Rank(a) - 2) >= 0 && Size(b, Rank(a) - 1) >= 0
    requires InIntendedRange(a, b, x)
    ensures AllInBounds(Reads(alg, Kron(a, b), x))
  {
    var yb, ya := KronInner(b, x), KronOuter(b, x);
    forall d | 0 <= d < |x|
      ensures 0 <= yb[d] < Size(b, d) && 0 <= ya[d] < Size(a, d)
    {
      KronIntendedCoordInRange(a, b, x, d);
    }
    assert InRange(b, yb) && InRange(a, ya);
    ReadsInBounds(alg, b, yb);
    ReadsInBounds(alg, a, ya);
    ConcatInBounds(Reads(alg, b, yb), Reads(alg, a, ya));
  }

  lemma KronIntendedCoordInRange<S>(a: Expr<S>, b: Expr<S>, x: seq<int>, d: int)
    requires Rank(a) >= 2 && Rank(b) == Rank(a) && BatchesMatch(a, b)
    requires Size(a, Rank(a) - 2) >= 0 && Size(a, Rank(a) - 1) >= 0
    requires Size(b, Rank(a) - 2) >= 0 && Size(b, Rank(a) - 1) >= 0
    requires InIntendedRange(a, b, x) && 0 <= d < |x|
    ensures 0 <= KronInner(b, x)[d] < Size(b, d) && 0 <= KronOuter(b, x)[d] < Size(a, d)
  {
    KronCoordsAt(b, x, d, Size(b, d));
    if d >= |x| - 2 {
      KronSplit(x[d], Size(a, d), Size(b, d));
    }
  }

  // ------------------------------------------------------ flipud at rank 1

  /** At rank 1 flipud as written does not instantiate, while the branch
      written for that rank reverses the only dimension: element i of the
      result is element n - 1 - i of the operand. */
  lemma FlipUdRankOne<S>(alg: Algebra<S>, t: Expr<S>, i: int)
    requires Rank(t) == 1 && 0 <= i < Size(t, 0)
    ensures FlipUdAsWritten(t).Err?
    ensures InRange(t, [Size(t, 0) - 1 - i])
    ensures Eval(alg, FlipUd(t), [i]) == Eval(alg, t, [Size(t, 0) - 1 - i])
  {
    ReverseMirrors(alg, t, 0, [i]);
    assert [i][0 := Size(t, 0) - 1 - i] == [Size(t, 0) - 1 - i];
  }

  // ------------------------------------- interleaved at rank three or more

  /** At rank three or more interleaved(t) as written does not build, while the
      intended node pairs the element at x (the real part) with the element half
      an extent further along dimension Rank - 2 (the imaginary part). */
  lemma InterleavedBatchedRejected<S>(alg: Algebra<S>, t: Expr<S>, x: seq<int>)
    requires WellFormed(t) && Rank(t) >= 3 && |x| == Rank(t)
    ensures InterleavedAsWritten(t).Err?
    ensures var k := |x| - 2;
      Eval(alg, MakeInterleaved(t), x)
      == Complex(Re(alg, Eval(alg, t, x)), Re(alg, Eval(alg, t, x[k := CDiv(Size(t, k), 2) + x[k]])))
  {
    assert LayoutDim(|x|) == |x| - 2;
  }

  // -------------------------------------------- matxUnaryOp's uint32_t j

  /** A rank-4 operand with 2^32 + 1 rows: the four-index call operator
      narrows j = 2^32 to 0, so the in-range element (0, 2^32, 0, 0) reads
      the operand's element (0, 0, 0, 0). */
  lemma UnaryIndexWraps<S>(alg: Algebra<S>, f: Value<S> -> Value<S>, vals: seq<int> -> Value<S>)
    ensures var a := Leaf(Desc(4, [1, TWO_POW_32 + 1, 1, 1], [1, 1, 1, 1]), vals);
      var x := [0, TWO_POW_32, 0, 0];
      WellFormed(Unary(f, a)) && InRange(Unary(f, a), x)
      && Reads(alg, Unary(f, a), x) == [Access(a.desc, [0, 0, 0, 0])]
      && Eval(alg, Unary(f, a), x) == f(vals([0, 0, 0, 0]))
  {
    var a := Leaf(Desc(4, [1, TWO_POW_32 + 1, 1, 1], [1, 1, 1, 1]), vals);
    var x := [0, TWO_POW_32, 0, 0];
    assert UnaryCoords(x) == [0, 0, 0, 0];
    assert Rank(a) == 4 && Rank(Unary(f, a)) == 4;
    assert Arity(Unary(f, a)) == 4;
    forall d | 0 <= d < 4
      ensures 0 <= x[d] < Size(Unary(f, a), d)
    {
      assert Size(Unary(f, a), d) == a.desc.sizes[d];
    }
    assert InRange(Unary(f, a), x);
  }

  /** The unary node with its j index at `index_t` width, like the other
      call operators: the function applied to the operand at the same
      coordinates. It agrees with the node as written wherever j fits in
      32 bits. */
  function UnaryEvalIntended<S>(alg: Algebra<S>, f: Value<S> -> Value<S>, a: Expr<S>, x: seq<int>): (v: Value<S>)
    ensures (|x| == 4 ==> 0 <= x[1] < TWO_POW_32) ==> v == Eval(alg, Unary(f, a), x)
  {
    if |x| == 4 ==> 0 <= x[1] < TWO_POW_32 then
      UnaryPointwise(alg, f, a, x);
      f(Eval(alg, a, x))
    else f(Eval(alg, a, x))
  }
}
