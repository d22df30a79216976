/** Index arithmetic shared by the two models of the ring buffer. */
module RingIndex {
  import opened Machine
  import Multiplication

  type Byte = b: int | -128 <= b < 128

  /** The loop that folds an index back below the capacity. */
  function Wrap(cap: nat, x: nat): (r: nat)
    requires cap > 0
    ensures r < cap
    ensures x < cap ==> r == x
  {
    if x >= cap then Wrap(cap, x - cap) else x
  }

  /** Folding is the remainder. */
  lemma {:induction false} WrapIsRemainder(cap: nat, x: nat)
    requires cap > 0
    ensures Wrap(cap, x) == x % cap
  {
    if x >= cap {
      WrapIsRemainder(cap, x - cap);
      Periodic(cap, x - cap);
    }
  }

  lemma Periodic(cap: nat, x: nat)
    requires cap > 0
    ensures (x + cap) % cap == x % cap
  {
    var k := x / cap;
    assert x == Multiplication.Mul(k, cap) + x % cap;
    Multiplication.QuotientAndRest(k, cap, x % cap);
    Multiplication.QuotientAndRest(k + 1, cap, x % cap);
    Multiplication.MulAddLeft1(k, cap);
  }

  /** `m_szCapOfBytes - m_uDataOfBytes` in 64-bit unsigned arithmetic. */
  function FreeBytes(cap: nat, data: nat): int {
    if data <= cap then cap - data else cap - data + UINT64
  }

  /** The difference modulo 2^64: with more counted than fits, a huge number. */
  lemma FreeBytesWrap(cap: nat, data: nat)
    requires cap < UINT64 && data < UINT64
    ensures 0 <= FreeBytes(cap, data) < 0x1_0000_0000_0000_0000
    ensures (FreeBytes(cap, data) - (cap - data)) % 0x1_0000_0000_0000_0000 == 0
  {
  }

  /** Where byte `k` of an `n`-byte block starting at index `start` lives:
      one slice when the block fits before the end of the storage, else two. */
  function SliceIndex(cap: nat, start: nat, n: nat, k: nat): int {
    if start + n <= cap then start + k
    else if k < cap - start then start + k
    else k - (cap - start)
  }

  lemma {:induction false} WrapAdd(cap: nat, x: nat, n: nat)
    requires cap > 0
    ensures Wrap(cap, Wrap(cap, x) + n) == Wrap(cap, x + n)
  {
    if x >= cap {
      WrapAdd(cap, x - cap, n);
    }
  }

  /** Positions less than one capacity apart occupy different slots. */
  lemma {:induction false} WrapApart(cap: nat, x: nat, y: nat)
    requires cap > 0 && x < y < x + cap
    ensures Wrap(cap, x) != Wrap(cap, y)
  {
    if x >= cap {
      WrapApart(cap, x - cap, y - cap);
    }
  }

  /** The two-slice address of a block's byte is its stream position, wrapped. */
  lemma {:induction false} SliceIndexWraps(cap: nat, pos: nat, n: nat, k: nat)
    requires cap > 0 && k < n <= cap
    ensures SliceIndex(cap, Wrap(cap, pos), n, k) == Wrap(cap, pos + k)
  {
    WrapAdd(cap, pos, k);
  }
}
