/** The per-dimension index rewrites of the structural operators, as
    functions of one coordinate and the extent it lives in, with the laws
    that make them safe and invertible.
 */
module Index {
  import opened Arith

  // ---------------------------------------------------------------- reverse

  /** ReverseOp: coordinate c of an extent n reads coordinate n - c - 1. */
  function RevIndex(c: int, n: int): (r: int)
    ensures 0 <= c < n ==> 0 <= r < n
    ensures c + r == n - 1
  {
    n - c - 1
  }

  /** Reversing twice is the identity. */
  lemma RevIndexInvolution(c: int, n: int)
    ensures RevIndex(RevIndex(c, n), n) == c
  {
  }

  // ------------------------------------------------------------------ shift

  /** ShiftOp's normalising loops stop exactly when the extent is positive,
      or when both the extent and the shift are zero. */
  predicate ShiftTerminates(s: int, n: int) {
    n > 0 || (n == 0 && s == 0)
  }

  /** The positive-shift loop: `while (shift > n) shift -= n`. */
  function DrainDown(shift: int, n: int): (r: int)
    requires n > 0 || shift <= n
    ensures r <= n
    ensures shift <= n ==> r == shift
    ensures shift > 0 ==> r > 0
    ensures n > 0 ==> (shift - r) % n == 0
    decreases if shift > n then shift - n else 0
  {
    if shift > n then
      var r := DrainDown(shift - n, n);
      assert (shift - r) % n == 0 by {
        ModMultipleInvariant(shift - n - r, 1, n);
      }
      r
    else shift
  }

  /** The negative-shift loop: `while (-shift > n) shift += n`. */
  function RaiseUp(shift: int, n: int): (r: int)
    requires n > 0 || -shift <= n
    ensures -r <= n
    ensures -shift <= n ==> r == shift
    ensures shift < 0 ==> r < 0
    ensures n > 0 ==> (r - shift) % n == 0
    decreases if -shift > n then -shift - n else 0
  {
    if -shift > n then
      var r := RaiseUp(shift + n, n);
      assert (r - shift) % n == 0 by {
        ModMultipleInvariant(r - shift - n, 1, n);
      }
      r
    else shift
  }

  /** The `base_` ShiftOp stores: the shift brought into [0, n]. It equals n
      (rather than 0) when a positive shift is a multiple of n, because the
      positive loop tests `>`; the `%` applied at evaluation absorbs this. */
  function ShiftBase(s: int, n: int): (base: int)
    requires ShiftTerminates(s, n)
    ensures 0 <= base <= n
    ensures n > 0 ==> base % n == s % n
    ensures n > 0 ==> (base == n <==> s > 0 && s % n == 0)
  {
    if s < 0 then
      var r := RaiseUp(s, n);
      NegativeShiftBase(s, n, r);
      n + r
    else
      var r := DrainDown(s, n);
      PositiveShiftBase(s, n, r);
      r
  }

  lemma NegativeShiftBase(s: int, n: int, r: int)
    requires s < 0 && ShiftTerminates(s, n) && r == RaiseUp(s, n)
    ensures 0 <= n + r < n
    ensures (n + r) % n == s % n
  {
    CongruentOfDiff(r, s, n);
    ModMultipleInvariant(r, 1, n);
  }

  lemma PositiveShiftBase(s: int, n: int, r: int)
    requires s >= 0 && ShiftTerminates(s, n) && r == DrainDown(s, n)
    ensures 0 <= r <= n
    ensures n > 0 ==> r % n == s % n
    ensures n > 0 ==> (r == n <==> s > 0 && s % n == 0)
  {
    if n > 0 {
      assert (r - s) % n == 0 by {
        ModMultipleInvariant(s - r, -1, n);
        ModMultipleInvariant(0, -1, n);
        assert (s - r) % n == 0;
        assert -(s - r) == (s - r) + ((s - r) / n) * (-2) * n by {
          assert s - r == ((s - r) / n) * n;
        }
        ModMultipleInvariant(s - r, ((s - r) / n) * (-2), n);
      }
      CongruentOfDiff(r, s, n);
      ModMultipleInvariant(0, 1, n);
      if r < n {
        ModOfSmall(r, n);
      }
    }
  }

  /** The ShiftOp constructor itself, loops and all. */
  method NormalizeShift(s: int, n: int) returns (base: int)
    requires ShiftTerminates(s, n)
    ensures base == ShiftBase(s, n)
    ensures 0 <= base <= n
  {
    var shift := s;
    if shift < 0 {
      while -shift > n
        invariant RaiseUp(shift, n) == RaiseUp(s, n)
        decreases -shift - n
      {
        shift := shift + n;
      }
      base := n + shift;
    } else {
      while shift > n
        invariant shift >= 0
        invariant DrainDown(shift, n) == DrainDown(s, n)
        decreases shift - n
      {
        shift := shift - n;
      }
      base := shift;
    }
  }

  /** The evaluation rewrite `(base_ + c) % n`: for a non-negative sum it wraps
      into [0, n) and moves the coordinate by a whole number of extents. */
  function ShiftIndex(c: int, base: int, n: int): (r: int)
    ensures n > 0 && base + c >= 0 ==> 0 <= r < n && (base + c - r) % n == 0
  {
    if n > 0 && base + c >= 0 then
      var a := base + c;
      DivModUnique(a - a % n, a / n, 0, n);
      CRem(a, n)
    else CRem(base + c, n)
  }

  /** For an in-range coordinate, the shifted coordinate is the Euclidean
      `(c + s) mod n`, whatever the sign and magnitude of s. */
  lemma ShiftIndexIsMod(c: int, s: int, n: int)
    requires n > 0 && 0 <= c < n
    ensures ShiftIndex(c, ShiftBase(s, n), n) == (c + s) % n
    ensures 0 <= ShiftIndex(c, ShiftBase(s, n), n) < n
  {
    var base := ShiftBase(s, n);
    ModShift(base, s, c, n);
  }

  /** Shifting by s and then by -s returns every in-range coordinate. */
  lemma ShiftIndexRoundTrip(c: int, s: int, n: int)
    requires n > 0 && 0 <= c < n
    ensures ShiftIndex(ShiftIndex(c, ShiftBase(s, n), n), ShiftBase(-s, n), n) == c
  {
    ShiftIndexIsMod(c, s, n);
    var c1 := (c + s) % n;
    ShiftIndexIsMod(c1, -s, n);
    ModIdempotent(c + s, n);
    ModShift(c1, c + s, -s, n);
    ModOfSmall(c, n);
  }

  // -------------------------------------------------------------- fft shift

  /** fftshift: rotate by (n + 1) / 2. */
  function FftIndex(c: int, n: int): (r: int)
    ensures n > 0 && 0 <= c ==> r == (c + (n + 1) / 2) % n
    ensures n > 0 && 0 <= c < n ==> 0 <= r < n
  {
    CRem(c + CDiv(n + 1, 2), n)
  }

  /** ifftshift: rotate by n / 2. */
  function IfftIndex(c: int, n: int): (r: int)
    ensures n > 0 && 0 <= c ==> r == (c + n / 2) % n
    ensures n > 0 && 0 <= c < n ==> 0 <= r < n
  {
    CRem(c + CDiv(n, 2), n)
  }

  /** The two rotations add up to a full turn, so they undo each other in
      either order. */
  lemma FftIfftInverse(c: int, n: int)
    requires n > 0 && 0 <= c < n
    ensures IfftIndex(FftIndex(c, n), n) == c
    ensures FftIndex(IfftIndex(c, n), n) == c
  {
    var h1 := (n + 1) / 2;
    var h0 := n / 2;
    assert h1 + h0 == n;
    var f := FftIndex(c, n);
    assert f == (c + h1) % n;
    assert IfftIndex(f, n) == (f + h0) % n;
    RotateTwice(c, h1, h0, n);
    var i := IfftIndex(c, n);
    assert i == (c + h0) % n;
    assert FftIndex(i, n) == (i + h1) % n;
    RotateTwice(c, h0, h1, n);
  }

  lemma RotateTwice(c: int, u: int, v: int, n: int)
    requires n > 0 && 0 <= c < n && u >= 0 && v >= 0 && u + v == n
    ensures ((c + u) % n + v) % n == c
  {
    ModIdempotent(c + u, n);
    ModShift((c + u) % n, c + u, v, n);
    ModMultipleInvariant(c, 1, n);
    ModOfSmall(c, n);
  }

  /** On an even extent fftshift and ifftshift are the same rotation. */
  lemma FftIfftCoincideOnEven(c: int, n: int)
    requires n > 0 && n % 2 == 0
    ensures FftIndex(c, n) == IfftIndex(c, n)
  {
  }

  /** On an odd extent above one, neither rotation is its own inverse. */
  lemma FftNotSelfInverseOnOdd(n: int)
    requires n > 1 && n % 2 == 1
    ensures FftIndex(FftIndex(0, n), n) == 1
    ensures IfftIndex(IfftIndex(0, n), n) == n - 1
  {
    var h1 := (n + 1) / 2;
    var h0 := n / 2;
    assert h1 + h1 == n + 1 && h0 + h0 == n - 1;
    ModOfSmall(h1, n);
    ModOfSmall(h0, n);
    assert FftIndex(0, n) == h1;
    assert IfftIndex(0, n) == h0;
    ModMultipleInvariant(1, 1, n);
    ModOfSmall(1, n);
    ModOfSmall(n - 1, n);
  }

  // ------------------------------------------------------------------- kron

  /** Kron splits an output coordinate c into the pair (c / nb, c % nb): the
      first part indexes A, the second B; both are in range, and the pair
      recombines to c. */
  lemma KronSplit(c: int, na: int, nb: int)
    requires na >= 0 && nb >= 0 && 0 <= c < na * nb
    ensures nb > 0
    ensures 0 <= CDiv(c, nb) < na && 0 <= CRem(c, nb) < nb
    ensures CDiv(c, nb) * nb + CRem(c, nb) == c
  {
    var q := c / nb;
    var r := c % nb;
    assert c == q * nb + r && 0 <= r < nb;
    if q >= na {
      MulMonotone(na, q, nb);
    }
    if q < 0 {
      MulMonotone(q + 1, 0, nb);
    }
  }

  /** Conversely every pair (p, q) in range is the split of p * nb + q. */
  lemma KronJoin(p: int, q: int, na: int, nb: int)
    requires 0 <= p < na && 0 <= q < nb
    ensures 0 <= p * nb + q < na * nb
    ensures CDiv(p * nb + q, nb) == p && CRem(p * nb + q, nb) == q
  {
    DivModUnique(p * nb + q, p, q, nb);
    MulMonotone(p + 1, na, nb);
  }

  lemma MulMonotone(a: int, b: int, n: int)
    requires a <= b && n >= 0
    ensures a * n <= b * n
  {
    assert b * n == a * n + (b - a) * n;
  }

  // ----------------------------------------------------------------- repmat

  /** RepMat wraps an output coordinate into its operand's extent. */
  lemma RepIndexInRange(c: int, n: int)
    requires n > 0 && 0 <= c
    ensures 0 <= CRem(c, n) < n
    ensures c < n ==> CRem(c, n) == c
    ensures CRem(c + n, n) == CRem(c, n)
  {
    assert CRem(c, n) == c % n;
    assert CRem(c + n, n) == (c + n) % n;
    ModMultipleInvariant(c, 1, n);
  }

  // ----------------------------------------------------- complex layouts

  /** The dimension the planar/interleaved conversions split: dim 0 at rank
      one or two, otherwise the second-to-last. */
  function LayoutDim(rank: int): (k: int)
    ensures 0 <= k
    ensures rank >= 1 ==> k < rank
    ensures rank >= 2 ==> k == rank - 2
  {
    if rank <= 1 then 0 else rank - 2
  }
}
