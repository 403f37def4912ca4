/** The bulk entry points: deep copy, out-of-place transpose and
    out-of-place permutation. Each validates the shapes and then assigns the
    destination from the source; the assignment is stated denotationally,
    as the destination's elements after the submitted work completes.
 */
module Bulk {
  import opened Results
  import opened Descriptor
  import opened Values

  /** A tensor view: its descriptor and the elements it holds. */
  datatype View<S> = View(desc: Desc, vals: seq<int> -> Value<S>)

  /** A coordinate tuple inside a descriptor's extents. */
  predicate Inside(desc: Desc, x: seq<int>) {
    |x| == desc.rank && |desc.sizes| == desc.rank
    && forall d :: 0 <= d < |x| ==> 0 <= x[d] < desc.sizes[d]
  }

  /** `out = src` run to completion: every element of the destination is
      overwritten by the source's element at the same coordinates. */
  function Assign<S>(out: View<S>, src: seq<int> -> Value<S>): (r: View<S>)
    ensures r.desc == out.desc
    ensures forall x :: Inside(out.desc, x) ==> r.vals(x) == src(x)
    ensures forall x :: !Inside(out.desc, x) ==> r.vals(x) == out.vals(x)
  {
    View(out.desc, x => if Inside(out.desc, x) then src(x) else out.vals(x))
  }

  // ------------------------------------------------------------------ copy

  /** copy(out, in): assert that every dimension's sizes agree, then assign.
      A mismatch fails with matxInvalidSize before anything is written. */
  method Copy<S>(out: View<S>, src: View<S>) returns (r: Result<View<S>>)
    requires out.desc.Valid() && src.desc.Valid() && out.desc.rank == src.desc.rank
    ensures r.Ok? <==> forall i :: 0 <= i < out.desc.rank ==> out.desc.sizes[i] == src.desc.sizes[i]
    ensures r.Err? ==> r.error == InvalidSize
    ensures r.Ok? ==> r.value.desc == out.desc
    ensures r.Ok? ==> forall x :: Inside(out.desc, x) ==> Inside(src.desc, x) && r.value.vals(x) == src.vals(x)
    ensures r.Ok? ==> forall x :: !Inside(out.desc, x) ==> r.value.vals(x) == out.vals(x)
  {
    var i := 0;
    while i < out.desc.rank
      invariant 0 <= i <= out.desc.rank
      invariant forall j :: 0 <= j < i ==> out.desc.sizes[j] == src.desc.sizes[j]
    {
      if out.desc.Size(i) != src.desc.Size(i) {
        return Err(InvalidSize);
      }
      i := i + 1;
    }
    assert out.desc.sizes == src.desc.sizes;
    return Ok(Assign(out, src.vals));
  }

  // ------------------------------------------------------------- transpose

  /** The coordinates with the last two exchanged. */
  function SwapLast2(x: seq<int>): (y: seq<int>)
    ensures |y| == |x|
  {
    var n := |x|;
    if n < 2 then x else x[n - 2 := x[n - 1]][n - 1 := x[n - 2]]
  }

  lemma SwapLast2Involution(x: seq<int>)
    ensures SwapLast2(SwapLast2(x)) == x
  {
  }

  /** transpose(out, in, linear): nothing happens at rank 0 or 1; otherwise
      a source that is not linear fails with matxInvalidSize, and a linear
      one is written transposed in its two fastest-varying dimensions.
      Whether the source is linear is a query on the storage view, so it is
      a parameter here. */
  function Transpose<S>(out: View<S>, src: View<S>, linear: bool): (r: Result<View<S>>)
    requires out.desc.rank == src.desc.rank
    ensures out.desc.rank <= 1 ==> r == Ok(out)
    ensures out.desc.rank >= 2 ==> (r.Ok? <==> linear)
    ensures r.Err? ==> r.error == InvalidSize
    ensures r.Ok? ==> r.value.desc == out.desc
    ensures r.Ok? && out.desc.rank >= 2 ==>
      forall x :: Inside(out.desc, x) ==> r.value.vals(x) == src.vals(SwapLast2(x))
    ensures r.Ok? ==> forall x :: !Inside(out.desc, x) ==> r.value.vals(x) == out.vals(x)
  {
    if out.desc.rank <= 1 then Ok(out)
    else if !linear then Err(InvalidSize)
    else Ok(Assign(out, x => src.vals(SwapLast2(x))))
  }

  /** A destination whose extents are the source's with the last two
      exchanged receives a read of the source inside its extents, for every
      coordinate inside its own extents, and only for those. */
  lemma TransposeReadsInside(out: Desc, src: Desc, x: seq<int>)
    requires out.rank == src.rank >= 2 && out.Valid() && src.Valid()
    requires out.sizes == SwapLast2(src.sizes)
    ensures Inside(out, x) <==> Inside(src, SwapLast2(x))
  {
    var n := src.rank;
    if |x| == n {
      var y := SwapLast2(x);
      if Inside(out, x) {
        forall d | 0 <= d < n
          ensures 0 <= y[d] < src.sizes[d]
        {
          if d == n - 2 {
            assert y[d] == x[n - 1] && out.sizes[n - 1] == src.sizes[d];
          } else if d == n - 1 {
            assert y[d] == x[n - 2] && out.sizes[n - 2] == src.sizes[d];
          } else {
            assert y[d] == x[d] && out.sizes[d] == src.sizes[d];
          }
        }
      }
      if Inside(src, y) {
        forall d | 0 <= d < n
          ensures 0 <= x[d] < out.sizes[d]
        {
          if d == n - 2 {
            assert y[n - 1] == x[d] && out.sizes[d] == src.sizes[n - 1];
          } else if d == n - 1 {
            assert y[n - 2] == x[d] && out.sizes[d] == src.sizes[n - 2];
          } else {
            assert y[d] == x[d] && out.sizes[d] == src.sizes[d];
          }
        }
      }
    }
  }

  /** Transposing twice, through a linear intermediate whose extents are
      the destination's with the last two exchanged, gives back the
      source's elements. */
  lemma TransposeRoundTrip<S>(tmp: View<S>, out: View<S>, src: View<S>, x: seq<int>)
    requires tmp.desc.rank == src.desc.rank == out.desc.rank >= 2
    requires tmp.desc.Valid() && out.desc.Valid() && tmp.desc.sizes == SwapLast2(out.desc.sizes)
    requires Inside(out.desc, x)
    ensures var t := Transpose(tmp, src, true).value;
      Transpose(out, t, true).value.vals(x) == src.vals(x)
  {
    var t := Transpose(tmp, src, true).value;
    var y := SwapLast2(x);
    SwapLast2Involution(x);
    TransposeReadsInside(tmp.desc, out.desc, y);
    assert t.vals(y) == src.vals(SwapLast2(y));
    assert Transpose(out, t, true).value.vals(x) == t.vals(y);
  }

  // --------------------------------------------------------------- permute

  /** `dims` lists each of the dimensions 0 .. n-1 exactly once. */
  predicate IsPermutation(dims: seq<int>, n: int) {
    |dims| == n
    && (forall i :: 0 <= i < n ==> 0 <= dims[i] < n)
    && (forall i, j :: 0 <= i < j < n ==> dims[i] != dims[j])
    && (forall j :: 0 <= j < n ==> j in dims)
  }

  /** Where `j` first occurs in `dims`, or |dims| when it does not. */
  function Position(dims: seq<int>, j: int): (p: int)
    ensures 0 <= p <= |dims|
    ensures p < |dims| <==> j in dims
    ensures p < |dims| ==> dims[p] == j && forall i :: 0 <= i < p ==> dims[i] != j
  {
    if |dims| == 0 then 0
    else if dims[0] == j then 0
    else 1 + Position(dims[1..], j)
  }

  /** The operand coordinates a permuted view reads: coordinate i of the
      view is coordinate dims[i] of the operand. */
  function Scatter(dims: seq<int>, x: seq<int>): (y: seq<int>)
    ensures |y| == |dims|
  {
    seq(|dims|, j requires 0 <= j < |dims| =>
      var p := Position(dims, j); if p < |x| then x[p] else 0)
  }

  lemma ScatterAt(dims: seq<int>, x: seq<int>, i: int)
    requires IsPermutation(dims, |dims|) && |x| == |dims| && 0 <= i < |dims|
    ensures Scatter(dims, x)[dims[i]] == x[i]
  {
    assert Position(dims, dims[i]) == i;
  }

  /** `in.Permute(dims)`: the view whose dimension i is the operand's
      dimension dims[i], sizes and strides alike, over the same elements. */
  function PermuteView<S>(src: View<S>, dims: seq<int>): (r: View<S>)
    requires src.desc.Valid() && IsPermutation(dims, src.desc.rank)
    ensures r.desc.Valid() && r.desc.rank == src.desc.rank
    ensures forall i :: 0 <= i < |dims| ==>
      r.desc.sizes[i] == src.desc.sizes[dims[i]] && r.desc.strides[i] == src.desc.strides[dims[i]]
  {
    var n := src.desc.rank;
    View(Desc(n, seq(n, i requires 0 <= i < n => src.desc.sizes[dims[i]]),
              seq(n, i requires 0 <= i < n => src.desc.strides[dims[i]])),
         x => src.vals(Scatter(dims, x)))
  }

  /** The permuted view holds, at x, the operand's element whose coordinate
      dims[i] is x[i] for every i, and x is inside the view exactly when
      that element is inside the operand. */
  lemma PermuteViewReads<S>(src: View<S>, dims: seq<int>, x: seq<int>)
    requires src.desc.Valid() && IsPermutation(dims, src.desc.rank) && |x| == src.desc.rank
    ensures var y := Scatter(dims, x);
      PermuteView(src, dims).vals(x) == src.vals(y)
      && (forall i :: 0 <= i < |x| ==> y[dims[i]] == x[i])
      && (Inside(PermuteView(src, dims).desc, x) <==> Inside(src.desc, y))
  {
    var n := src.desc.rank;
    var v := PermuteView(src, dims);
    var y := Scatter(dims, x);
    forall i | 0 <= i < n
      ensures y[dims[i]] == x[i]
    {
      ScatterAt(dims, x, i);
    }
    if Inside(v.desc, x) {
      forall j | 0 <= j < n
        ensures 0 <= y[j] < src.desc.sizes[j]
      {
        var i := Position(dims, j);
        assert dims[i] == j && y[j] == x[i];
        assert 0 <= x[i] < v.desc.sizes[i];
      }
    }
    if Inside(src.desc, y) {
      forall i | 0 <= i < n
        ensures 0 <= x[i] < v.desc.sizes[i]
      {
        assert 0 <= y[dims[i]] < src.desc.sizes[dims[i]];
      }
    }
  }

  /** permute(out, in, dims): copy the permuted view into the destination,
      with copy's size check against the permuted extents. */
  method Permute<S>(out: View<S>, src: View<S>, dims: seq<int>) returns (r: Result<View<S>>)
    requires out.desc.Valid() && src.desc.Valid() && out.desc.rank == src.desc.rank
    requires IsPermutation(dims, src.desc.rank)
    ensures r.Ok? <==> forall i :: 0 <= i < out.desc.rank ==> out.desc.sizes[i] == src.desc.sizes[dims[i]]
    ensures r.Err? ==> r.error == InvalidSize
    ensures r.Ok? ==> r.value.desc == out.desc
    ensures r.Ok? ==> forall x :: Inside(out.desc, x) ==>
      Inside(src.desc, Scatter(dims, x)) && r.value.vals(x) == src.vals(Scatter(dims, x))
    ensures r.Ok? ==> forall x :: !Inside(out.desc, x) ==> r.value.vals(x) == out.vals(x)
  {
    var view := PermuteView(src, dims);
    r := Copy(out, view);
    if r.Ok? {
      forall x | Inside(out.desc, x)
        ensures Inside(src.desc, Scatter(dims, x))
      {
        PermuteViewReads(src, dims, x);
      }
    }
  }
}
