/** Node construction: the constructors that run checks (the broadcasting
    nodes, IF/IFELSE, Comma) and the helper functions that pick operator
    parameters (reverseX..W, flipud, fliplr, shift0..3, diag, kron, repmat,
    interleaved).
 */
module Construct {
  import opened Arith
  import opened Results
  import opened Values
  import opened Index
  import opened TensorOps

  // ------------------------------------------------------ size inference

  /** The per-dimension loop of the matxBinaryOp and IFELSE constructors:
      cache the MAX of the candidates, then assert that every non-zero
      candidate equals it. Fails with matxInvalidSize at the first
      dimension that disagrees. */
  method InferSizes<S>(ops: seq<Expr<S>>, rank: int) returns (r: Result<seq<int>>)
    requires |ops| > 0
    ensures r.Ok? <==> forall d :: 0 <= d < rank ==> AgreesWithMax(ops, d)
    ensures r.Err? ==> r.error == InvalidSize
    ensures r.Ok? ==> |r.value| == Max(rank, 0)
    ensures r.Ok? ==> forall d :: 0 <= d < |r.value| ==> r.value[d] == MaxOf(Candidates(ops, d))
  {
    var n := Max(rank, 0);
    var sizes: seq<int> := [];
    var i := 0;
    while i < n
      invariant 0 <= i <= n
      invariant |sizes| == i
      invariant forall d :: 0 <= d < i ==> sizes[d] == MaxOf(Candidates(ops, d))
      invariant forall d :: 0 <= d < i ==> AgreesWithMax(ops, d)
    {
      if !AgreesWithMax(ops, i) {
        return Err(InvalidSize);
      }
      sizes := sizes + [MaxOf(Candidates(ops, i))];
      i := i + 1;
    }
    return Ok(sizes);
  }

  /** Every non-zero candidate at `d` equals the largest one. */
  predicate AgreesWithMax<S>(ops: seq<Expr<S>>, d: int)
    requires |ops| > 0
  {
    Agrees(Candidates(ops, d), MaxOf(Candidates(ops, d)))
  }

  /** The IF constructor as written: it tests each candidate against
      `size_[i]` before assigning it, so the test reads whatever `stale`
      value the array held. */
  method InferSizesAsWritten<S>(ops: seq<Expr<S>>, rank: int, stale: seq<int>)
    returns (r: Result<seq<int>>)
    requires |ops| > 0 && |stale| == Max(rank, 0)
    ensures r.Ok? <==> forall d :: 0 <= d < rank ==> Agrees(Candidates(ops, d), stale[d])
    ensures r.Err? ==> r.error == InvalidSize
    ensures r.Ok? ==> |r.value| == Max(rank, 0)
    ensures r.Ok? ==> forall d :: 0 <= d < |r.value| ==> r.value[d] == MaxOf(Candidates(ops, d))
  {
    var n := Max(rank, 0);
    var sizes: seq<int> := [];
    var i := 0;
    while i < n
      invariant 0 <= i <= n
      invariant |sizes| == i
      invariant forall d :: 0 <= d < i ==> sizes[d] == MaxOf(Candidates(ops, d))
      invariant forall d :: 0 <= d < i ==> Agrees(Candidates(ops, d), stale[d])
    {
      var cs := Candidates(ops, i);
      if !Agrees(cs, stale[i]) {
        assert 0 <= i < rank && !Agrees(Candidates(ops, i), stale[i]);
        return Err(InvalidSize);
      }
      var m := MaxOf(cs);
      sizes := sizes + [m];
      assert sizes[i] == MaxOf(Candidates(ops, i));
      i := i + 1;
    }
    assert n == Max(rank, 0);
    return Ok(sizes);
  }

  /** When a node caches the MAX, its constructor checks are exactly the
      per-dimension agreement with that MAX. */
  lemma SizesAgreeIffMax<S>(e: Expr<S>, ops: seq<Expr<S>>)
    requires |ops| > 0
    requires forall d :: Size(e, d) == MaxOf(Candidates(ops, d))
    ensures SizesAgree(e, ops) <==> forall d :: 0 <= d < Rank(e) ==> AgreesWithMax(ops, d)
  {
    if SizesAgree(e, ops) {
      forall d | 0 <= d < Rank(e) ensures AgreesWithMax(ops, d) {
        assert Agrees(Candidates(ops, d), Size(e, d));
        assert Size(e, d) == MaxOf(Candidates(ops, d));
      }
    } else {
      var d :| 0 <= d < Rank(e) && !Agrees(Candidates(ops, d), Size(e, d));
      assert Size(e, d) == MaxOf(Candidates(ops, d));
      assert !AgreesWithMax(ops, d);
    }
  }

  /** The node's cached size is the MAX the constructor loop computes. */
  lemma BinarySizeIsMax<S>(e: Expr<S>, d: int)
    requires e.Binary?
    ensures Size(e, d) == MaxOf(Candidates([e.a, e.b], d))
  {
    var cs := Candidates([e.a, e.b], d);
    assert cs[0] == ExpandedSize(e.a, d) && cs[1] == ExpandedSize(e.b, d);
    assert cs[1..] == [cs[1]];
  }

  lemma IfSizeIsMax<S>(e: Expr<S>, d: int)
    requires e.If?
    ensures Size(e, d) == MaxOf(Candidates([e.cond, e.a], d))
  {
    var cs := Candidates([e.cond, e.a], d);
    assert cs[0] == ExpandedSize(e.cond, d) && cs[1] == ExpandedSize(e.a, d);
    assert cs[1..] == [cs[1]];
  }

  lemma IfElseSizeIsMax<S>(e: Expr<S>, d: int)
    requires e.IfElse?
    ensures Size(e, d) == MaxOf(Candidates([e.cond, e.a, e.b], d))
  {
    var cs := Candidates([e.cond, e.a, e.b], d);
    assert cs[0] == ExpandedSize(e.cond, d) && cs[1] == ExpandedSize(e.a, d);
    assert cs[2] == ExpandedSize(e.b, d);
    assert cs[1..] == [cs[1], cs[2]];
    assert cs[1..][1..] == [cs[2]];
    assert MaxOf(cs[1..]) == Max(cs[1], cs[2]);
    assert MaxOf(cs) == Max(cs[0], MaxOf(cs[1..]));
  }

  // ------------------------------------------------- checked constructors

  /** matxBinaryOp: rank is the larger operand rank; every dimension's size
      is the MAX of the operands' expanded sizes, and construction fails
      with matxInvalidSize unless every non-zero candidate equals it. */
  method MakeBinary<S>(g: (Value<S>, Value<S>) -> Value<S>, a: Expr<S>, b: Expr<S>)
    returns (r: Result<Expr<S>>)
    requires WellFormed(a) && WellFormed(b)
    ensures r.Ok? <==> WellFormed(Binary(g, a, b))
    ensures r.Err? ==> r.error == InvalidSize
    ensures r.Ok? ==> r.value == Binary(g, a, b) && Rank(r.value) == Max(Rank(a), Rank(b))
    ensures r.Ok? ==> forall d :: 0 <= d < Rank(r.value) ==>
      Size(r.value, d) >= ExpandedSize(a, d) && Size(r.value, d) >= ExpandedSize(b, d)
      && (ExpandedSize(a, d) == 0 || ExpandedSize(a, d) == Size(r.value, d))
      && (ExpandedSize(b, d) == 0 || ExpandedSize(b, d) == Size(r.value, d))
  {
    var e := Binary(g, a, b);
    forall d | true
      ensures Size(e, d) == MaxOf(Candidates([a, b], d))
    {
      BinarySizeIsMax(e, d);
    }
    SizesAgreeIffMax(e, [a, b]);
    var sizes := InferSizes([a, b], Rank(e));
    if sizes.Err? {
      return Err(InvalidSize);
    }
    return Ok(e);
  }

  /** IFELSE: condition and branches must each be a scalar or have the
      node's rank (a static assertion), then the same size inference. */
  method MakeIfElse<S>(c: Expr<S>, a: Expr<S>, b: Expr<S>) returns (r: Result<Expr<S>>)
    requires WellFormed(c) && WellFormed(a) && WellFormed(b)
    ensures r.Ok? <==> WellFormed(IfElse(c, a, b))
    ensures r.Ok? ==> r.value == IfElse(c, a, b)
    ensures r.Ok? ==> Rank(r.value) == Max(Rank(c), Max(Rank(a), Rank(b)))
    ensures r.Err? && (forall op :: op in [c, a, b] ==> Rank(op) == -1 || Rank(op) == Rank(IfElse(c, a, b)))
      ==> r.error == InvalidSize
  {
    var e := IfElse(c, a, b);
    var rk := Rank(e);
    if !((Rank(c) == -1 || Rank(c) == rk) && (Rank(a) == -1 || Rank(a) == rk)
         && (Rank(b) == -1 || Rank(b) == rk)) {
      return Err(Rejected);
    }
    forall d | true
      ensures Size(e, d) == MaxOf(Candidates([c, a, b], d))
    {
      IfElseSizeIsMax(e, d);
    }
    SizesAgreeIffMax(e, [c, a, b]);
    assert WellFormed(e) <==> SizesAgree(e, [c, a, b]);
    var sizes := InferSizes([c, a, b], rk);
    if sizes.Err? {
      assert !SizesAgree(e, [c, a, b]);
      return Err(InvalidSize);
    }
    assert SizesAgree(e, [c, a, b]);
    return Ok(e);
  }

  /** IF with its checks in the intended order (assign, then assert, as
      IFELSE and matxBinaryOp do). */
  method MakeIf<S>(c: Expr<S>, a: Expr<S>) returns (r: Result<Expr<S>>)
    requires WellFormed(c) && WellFormed(a)
    ensures r.Ok? <==> WellFormed(If(c, a))
    ensures r.Ok? ==> r.value == If(c, a) && Rank(r.value) == Max(Rank(c), Rank(a))
    ensures (r.Err? && (Rank(c) == -1 || Rank(c) == Rank(If(c, a)))
             && (Rank(a) == -1 || Rank(a) == Rank(If(c, a)))) ==> r.error == InvalidSize
  {
    var e := If(c, a);
    var rk := Rank(e);
    if !((Rank(c) == -1 || Rank(c) == rk) && (Rank(a) == -1 || Rank(a) == rk)) {
      return Err(Rejected);
    }
    forall d | true
      ensures Size(e, d) == MaxOf(Candidates([c, a], d))
    {
      IfSizeIsMax(e, d);
    }
    SizesAgreeIffMax(e, [c, a]);
    var sizes := InferSizes([c, a], rk);
    if sizes.Err? {
      return Err(InvalidSize);
    }
    return Ok(e);
  }

  /** IF as written: the size assertions compare against the not yet
      assigned `size_` array, whose contents are `stale`. */
  method MakeIfAsWritten<S>(c: Expr<S>, a: Expr<S>, stale: seq<int>) returns (r: Result<Expr<S>>)
    requires WellFormed(c) && WellFormed(a) && |stale| == Arity(If(c, a))
    ensures r.Ok? <==>
      (Rank(c) == -1 || Rank(c) == Rank(If(c, a))) && (Rank(a) == -1 || Rank(a) == Rank(If(c, a)))
      && forall d :: 0 <= d < Rank(If(c, a)) ==> Agrees(Candidates([c, a], d), stale[d])
    ensures r.Ok? ==> r.value == If(c, a)
  {
    var e := If(c, a);
    var rk := Rank(e);
    if !((Rank(c) == -1 || Rank(c) == rk) && (Rank(a) == -1 || Rank(a) == rk)) {
      return Err(Rejected);
    }
    var sizes := InferSizesAsWritten([c, a], rk, stale);
    if sizes.Err? {
      return Err(InvalidSize);
    }
    return Ok(e);
  }

  /** CommaOp: both statements must have the same rank (matxInvalidSize);
      the node takes the second one's rank and sizes. */
  function MakeComma<S>(a: Expr<S>, b: Expr<S>): (r: Result<Expr<S>>)
    requires WellFormed(a) && WellFormed(b)
    ensures r.Ok? <==> Rank(a) == Rank(b)
    ensures r.Ok? ==> WellFormed(r.value) && Rank(r.value) == Rank(a)
    ensures r.Ok? ==> forall d :: Size(r.value, d) == Size(b, d)
    ensures r.Err? ==> r.error == InvalidSize
  {
    if Rank(a) != Rank(b) then Err(InvalidSize) else Ok(Comma(a, b))
  }

  // --------------------------------------------------------------- helpers

  /** reverseX, reverseY, reverseZ, reverseW: reverse the k-th dimension
      from the end (k = 1..4), rejected with matxInvalidDim when the rank is
      below k. */
  function ReverseFromEnd<S>(t: Expr<S>, k: int): (r: Result<Expr<S>>)
    requires 1 <= k <= 4
    ensures r.Ok? <==> Rank(t) >= k
    ensures r.Err? ==> r.error == InvalidDim
    ensures r.Ok? ==> r.value.Reverse? && 0 <= r.value.dim < Rank(t) && r.value.dim + k == Rank(t)
    ensures r.Ok? ==> Rank(r.value) == Rank(t) && forall d :: Size(r.value, d) == Size(t, d)
    ensures r.Ok? && WellFormed(t) ==> WellFormed(r.value)
  {
    if Rank(t) < k then Err(InvalidDim) else Ok(Reverse(t, Rank(t) - k))
  }

  /** fliplr: reverses the last dimension at every rank. */
  function FlipLr<S>(t: Expr<S>): (r: Expr<S>)
    ensures r.Reverse? && r.dim == Rank(t) - 1
    ensures Rank(r) == Rank(t) && forall d :: Size(r, d) == Size(t, d)
  {
    Reverse(t, Rank(t) - 1)
  }

  /** flipud as written: at rank 1 the two `return` statements deduce
      different types (ReverseOp<T,0> and ReverseOp<T,-1>), which makes the
      instantiation ill-formed; at other ranks the second-to-last dimension
      is reversed. */
  function FlipUdAsWritten<S>(t: Expr<S>): (r: Result<Expr<S>>)
    ensures r.Ok? <==> Rank(t) != 1
    ensures r.Err? ==> r.error == Rejected
    ensures r.Ok? ==> r.value.Reverse? && r.value.dim == Rank(t) - 2
  {
    if Rank(t) == 1 then Err(Rejected) else Ok(Reverse(t, Rank(t) - 2))
  }

  /** flipud as intended by its `if constexpr` branch: dimension 0 at rank 1,
      the second-to-last dimension otherwise. */
  function FlipUd<S>(t: Expr<S>): (r: Expr<S>)
    ensures r.Reverse?
    ensures Rank(t) >= 1 ==> 0 <= r.dim < Rank(t)
    ensures Rank(t) >= 2 ==> r.dim == Rank(t) - 2
    ensures Rank(r) == Rank(t) && forall d :: Size(r, d) == Size(t, d)
  {
    if Rank(t) == 1 then Reverse(t, 0) else Reverse(t, Rank(t) - 2)
  }

  /** shift0 .. shift3: a ShiftOp on a fixed dimension. The node only exists
      when the dimension is below the rank and the constructor's loops stop. */
  function ShiftAlong<S>(t: Expr<S>, k: int, s: int): (r: Expr<S>)
    requires 0 <= k <= 3
    ensures WellFormed(t) ==>
      (WellFormed(r) <==> k < Rank(t) && ShiftTerminates(s, Size(t, k)))
    ensures Rank(r) == Rank(t) && forall d :: Size(r, d) == Size(t, d)
  {
    Shift(t, k, s)
  }

  // ------------------------------------------------- complex layout helpers

  /** interleaved(t) as written. The rank-3 and rank-4 call operators return a
      braced list from a function whose return type is deduced, which does not
      compile, so a node of rank three or more is rejected. Ranks up to two
      build the node. */
  function InterleavedAsWritten<S>(t: Expr<S>): (r: Result<Expr<S>>)
    requires WellFormed(t)
    ensures r.Ok? <==> Rank(t) <= 2
    ensures r.Err? ==> r.error == Rejected
    ensures r.Ok? ==> WellFormed(r.value) && Rank(r.value) == Rank(t)
    ensures r.Ok? && Rank(t) >= 1
      ==> Size(r.value, LayoutDim(Rank(t))) == CDiv(Size(t, LayoutDim(Rank(t))), 2)
    ensures r.Ok? ==> forall d :: 0 <= d < Rank(t) && d != LayoutDim(Rank(t)) ==> Size(r.value, d) == Size(t, d)
  {
    if Rank(t) <= 2 then Ok(Interleaved(t)) else Err(Rejected)
  }

  /** interleaved(t) as the rank-1 and rank-2 operators intend it at every rank:
      the split dimension is halved and every other size is kept. */
  function MakeInterleaved<S>(t: Expr<S>): (r: Expr<S>)
    requires WellFormed(t)
    ensures WellFormed(r) && Rank(r) == Rank(t)
    ensures Rank(t) >= 1 ==> Size(r, LayoutDim(Rank(t))) == CDiv(Size(t, LayoutDim(Rank(t))), 2)
    ensures forall d :: 0 <= d < Rank(t) && d != LayoutDim(Rank(t)) ==> Size(r, d) == Size(t, d)
  {
    Interleaved(t)
  }

  /** diag: instantiable for an operand of rank one or more. The result
      drops one dimension: the batch dimensions pass through and the last
      one is as long as the shorter of the operand's last two. */
  function MakeDiag<S>(t: Expr<S>): (r: Result<Expr<S>>)
    requires WellFormed(t)
    ensures r.Ok? <==> Rank(t) >= 1
    ensures r.Err? ==> r.error == Rejected
    ensures r.Ok? ==> WellFormed(r.value) && Rank(r.value) == Rank(t) - 1
    ensures r.Ok? ==> forall d :: 0 <= d < Rank(t) - 2 ==> Size(r.value, d) == Size(t, d)
    ensures r.Ok? && Rank(t) >= 2 ==>
      var m := Size(r.value, Rank(t) - 2);
      m <= Size(t, Rank(t) - 1) && m <= Size(t, Rank(t) - 2)
      && (m == Size(t, Rank(t) - 1) || m == Size(t, Rank(t) - 2))
  {
    if Rank(t) >= 1 then Ok(Diag(t)) else Err(Rejected)
  }

  /** kron: only instantiable for operands of equal rank two or more. */
  function MakeKron<S>(a: Expr<S>, b: Expr<S>): (r: Result<Expr<S>>)
    requires WellFormed(a) && WellFormed(b)
    ensures r.Ok? <==> Rank(a) >= 2 && Rank(b) == Rank(a)
    ensures r.Err? ==> r.error == Rejected
    ensures r.Ok? ==> WellFormed(r.value) && Rank(r.value) == Rank(a)
    ensures r.Ok? ==> forall d :: Size(r.value, d) == Size(a, d) * Size(b, d)
  {
    if Rank(a) >= 2 && Rank(b) == Rank(a) then Ok(Kron(a, b)) else Err(Rejected)
  }

  /** repmat(t, reps) with one count for every dimension. */
  function RepMatUniform<S>(t: Expr<S>, reps: int): (r: Expr<S>)
    requires WellFormed(t) && Rank(t) >= 0
    ensures WellFormed(r) && Rank(r) == Rank(t)
    ensures forall d :: 0 <= d < Rank(t) ==> Size(r, d) == Size(t, d) * reps
  {
    RepMat(t, seq(Rank(t), _ => reps))
  }

  /** repmat(t, reps) with a count per dimension; the constructor reads the
      first Rank entries of the array. */
  function RepMatEach<S>(t: Expr<S>, reps: seq<int>): (r: Expr<S>)
    requires WellFormed(t) && 0 <= Rank(t) <= |reps|
    ensures WellFormed(r) && Rank(r) == Rank(t)
    ensures forall d :: 0 <= d < Rank(t) ==> Size(r, d) == Size(t, d) * reps[d]
  {
    RepMat(t, reps[..Rank(t)])
  }
}
