/** Integer helpers with the semantics of the C++ operators the engine uses.

    `index_t` arithmetic in the source uses C++ `/` and `%`, which truncate
    toward zero; Dafny's operators are Euclidean. Both agree on a
    non-negative dividend and a positive divisor, which is the only case an
    in-range coordinate reaches. Division by zero is undefined behaviour in
    C++; here it yields quotient 0 and remainder equal to the dividend, a
    value no in-range coordinate ever observes.
 */
module Arith {

  function Abs(a: int): nat {
    if a < 0 then -a else a
  }

  function Max(a: int, b: int): (m: int)
    ensures m >= a && m >= b
    ensures m == a || m == b
  {
    if a >= b then a else b
  }

  function Min(a: int, b: int): (m: int)
    ensures m <= a && m <= b
    ensures m == a || m == b
  {
    if a <= b then a else b
  }

  /** C++ signed division: truncates toward zero. */
  function CDiv(a: int, n: int): (q: int)
    ensures n > 0 && a >= 0 ==> q == a / n
    ensures n > 0 && a < 0 ==> q == -((-a) / n)
  {
    if n == 0 then 0
    else
      var q0 := Abs(a) / Abs(n);
      if (a < 0) != (n < 0) then -q0 else q0
  }

  /** C++ signed remainder: the dividend's sign, the magnitude of |a| mod
      |n|; on a non-negative dividend and positive divisor it is the
      Euclidean one. */
  function CRem(a: int, n: int): (r: int)
    ensures n > 0 && a >= 0 ==> r == a % n && 0 <= r < n
    ensures n != 0 ==> Abs(r) < Abs(n)
  {
    if n == 0 then a
    else if a >= 0 then a % Abs(n)
    else -((-a) % Abs(n))
  }

  /** C++ guarantees `(a / n) * n + a % n == a`; so do CDiv and CRem. */
  lemma CDivRem(a: int, n: int)
    ensures CDiv(a, n) * n + CRem(a, n) == a
  {
    if n != 0 {
      var aa: int, nn: int := Abs(a), Abs(n);
      var q0: int, r0: int := aa / nn, aa % nn;
      assert aa == q0 * nn + r0;
      if a >= 0 && n > 0 {
        assert CDiv(a, n) * n == q0 * nn;
      } else if a >= 0 {
        assert CDiv(a, n) * n == (-q0) * (-nn);
      } else if n > 0 {
        assert CDiv(a, n) * n == -(q0 * nn);
      } else {
        assert CDiv(a, n) * n == q0 * (-nn);
      }
    }
  }

  /** The value of an `index_t` converted to `uint32_t`: reduction modulo 2^32. */
  const TWO_POW_32: int := 0x1_0000_0000

  function Wrap32(j: int): (w: int)
    ensures 0 <= w < TWO_POW_32
    ensures 0 <= j < TWO_POW_32 ==> w == j
    ensures (w - j) % TWO_POW_32 == 0
  {
    j % TWO_POW_32
  }

  /** The largest element of a non-empty sequence (the source's variadic MAX). */
  function MaxOf(s: seq<int>): (m: int)
    requires |s| > 0
    ensures forall k :: 0 <= k < |s| ==> s[k] <= m
    ensures exists k :: 0 <= k < |s| && s[k] == m
  {
    if |s| == 1 then s[0]
    else
      var rest := MaxOf(s[1..]);
      assert exists k :: 1 <= k < |s| && s[k] == rest by {
        var j :| 0 <= j < |s| - 1 && s[1..][j] == rest;
        assert s[j + 1] == rest;
      }
      Max(s[0], rest)
  }

  /** Adding the same amount to two numbers congruent modulo n keeps them congruent. */
  lemma {:induction false} ModShift(a: int, b: int, c: int, n: int)
    requires n > 0 && a % n == b % n
    ensures (a + c) % n == (b + c) % n
  {
    var qa := a / n;
    var qb := b / n;
    assert a == qa * n + a % n;
    assert b == qb * n + b % n;
    ModMultipleInvariant(b + c, qa - qb, n);
    assert a + c == (b + c) + (qa - qb) * n;
  }

  /** Adding a multiple of n does not change the Euclidean remainder. */
  lemma {:induction false} ModMultipleInvariant(a: int, k: int, n: int)
    requires n > 0
    ensures (a + k * n) % n == a % n
  {
    var q := a / n;
    var r := a % n;
    assert a == q * n + r && 0 <= r < n;
    assert a + k * n == (q + k) * n + r;
    DivModUnique(a + k * n, q + k, r, n);
  }

  /** Euclidean division is determined by its defining equation. */
  lemma DivModUnique(a: int, q: int, r: int, n: int)
    requires n > 0 && 0 <= r < n && a == q * n + r
    ensures a / n == q && a % n == r
  {
    var q' := a / n;
    var r' := a % n;
    assert a == q' * n + r' && 0 <= r' < n;
    var k := q - q';
    assert k * n == r' - r;
    if k > 0 {
      MulAtLeast(k, n);
    } else if k < 0 {
      MulAtLeast(-k, n);
    }
  }

  lemma {:induction false} MulAtLeast(k: int, n: int)
    requires k >= 1 && n > 0
    ensures k * n >= n
    decreases k
  {
    if k > 1 {
      MulAtLeast(k - 1, n);
      assert k * n == (k - 1) * n + n;
    }
  }

  /** Numbers whose difference is a multiple of n leave the same remainder. */
  lemma CongruentOfDiff(a: int, b: int, n: int)
    requires n > 0 && (a - b) % n == 0
    ensures a % n == b % n
  {
    var k := (a - b) / n;
    assert a - b == k * n + (a - b) % n;
    ModMultipleInvariant(b, k, n);
    assert a == b + k * n;
  }

  /** Taking the remainder twice changes nothing. */
  lemma ModIdempotent(a: int, n: int)
    requires n > 0
    ensures (a % n) % n == a % n
  {
    DivModUnique(a % n, 0, a % n, n);
  }

  /** A number already in [0, n) is its own remainder. */
  lemma ModOfSmall(a: int, n: int)
    requires 0 <= a < n
    ensures a % n == a
  {
    DivModUnique(a, 0, a, n);
  }
}
