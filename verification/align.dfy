/** AlignAddr: round a byte address up to the alignment of an element type.
    The address is an unsigned 64-bit integer, so the sum `addr + align - 1`
    wraps modulo 2^64; the quotient-times-divisor that follows cannot
    overflow again.
 */
module Align {
  import opened Arith

  const TWO_POW_64: int := 0x1_0000_0000_0000_0000

  /** A value of type `uint64_t`. */
  predicate IsU64(v: int) {
    0 <= v < TWO_POW_64
  }

  /** The value of an unsigned 64-bit sum: reduction modulo 2^64. */
  function Wrap64(v: int): (w: int)
    ensures IsU64(w)
    ensures IsU64(v) ==> w == v
  {
    v % TWO_POW_64
  }

  /** AlignAddr<T>(addr) with `align` = alignof(T): an address that is
      already a multiple of the alignment is returned as it is; any other is
      bumped by align - 1 (in 64-bit arithmetic) and truncated down to a
      multiple. */
  function AlignAddr(addr: int, align: int): (r: int)
    requires IsU64(addr) && IsU64(align) && align > 0
    ensures IsU64(r)
    ensures r % align == 0
    ensures addr % align == 0 ==> r == addr
  {
    if addr % align != 0 then
      var bumped := Wrap64(addr + (align - 1));
      DownToMultiple(bumped, align);
      bumped / align * align
    else addr
  }

  /** Truncating down to a multiple stays at or below the value and above
      it minus the divisor. */
  lemma DownToMultiple(v: int, a: int)
    requires v >= 0 && a > 0
    ensures v - a < v / a * a <= v
    ensures (v / a * a) % a == 0
  {
    var q := v / a;
    assert v == q * a + v % a;
    ModMultipleInvariant(0, q, a);
  }

  /** Away from the top of the address space the result is the least
      multiple of the alignment at or above addr: it is not below addr, is
      less than addr + align, and differs from addr exactly when addr was
      misaligned. */
  lemma AlignAddrRoundsUp(addr: int, align: int)
    requires IsU64(addr) && IsU64(align) && align > 0
    requires addr + align - 1 < TWO_POW_64
    ensures addr <= AlignAddr(addr, align) < addr + align
    ensures AlignAddr(addr, align) == addr <==> addr % align == 0
    ensures forall m :: addr <= m && m % align == 0 ==> AlignAddr(addr, align) <= m
  {
    var r := AlignAddr(addr, align);
    if addr % align != 0 {
      var v := addr + (align - 1);
      DownToMultiple(v, align);
      assert r == v / align * align;
      var q := addr / align;
      assert addr == q * align + addr % align;
      assert v == (q + 1) * align + (addr % align - 1);
      DivModUnique(v, q + 1, addr % align - 1, align);
      assert r == (q + 1) * align;
      forall m | addr <= m && m % align == 0
        ensures r <= m
      {
        LeastMultipleAbove(q, m, align);
      }
    } else {
      forall m | addr <= m && m % align == 0
        ensures r <= m
      {
      }
    }
  }

  /** A multiple of a above q * a + something is at least (q + 1) * a. */
  lemma LeastMultipleAbove(q: int, m: int, a: int)
    requires a > 0 && m % a == 0 && m > q * a
    ensures m >= (q + 1) * a
  {
    var k := m / a;
    assert m == k * a;
    assert (k - q) * a == m - q * a > 0;
    assert k - q >= 1;
    assert m - (q + 1) * a == (k - q - 1) * a;
  }

  /** At the very top of the address space the 64-bit sum wraps and a
      misaligned address is "aligned" to a lower one: the last byte,
      aligned to 2, becomes address 0. */
  lemma AlignAddrWrapsAtTop()
    ensures AlignAddr(TWO_POW_64 - 1, 2) == 0
  {
    assert Wrap64(TWO_POW_64 - 1 + 1) == 0;
  }
}
