/** Vocabulary shared by the forward and backward line seekers: bytes,
    cursors, newline counting over a haystack, the 32-byte AVX2 window and
    its comparison mask, and the kernels a dispatch cell can hold. */
module Simd {

  /** An unsigned byte, as the haystack holds it. */
  newtype u8 = x: int | 0 <= x < 256

  /** The byte b'\n'. */
  const NEWLINE: u8 := 10

  /** Bytes in one AVX2 register (`__m256i`). */
  const WINDOW: nat := 32

  /** A position in the haystack together with the line index there.
      Line indices are the source's `CoordType`, modelled unbounded. */
  datatype Cursor = Cursor(offset: nat, line: int)

  /** The scanning strategies a dispatch cell can point at: the resolver that
      probes the CPU on its first call, the AVX2 kernel and the scalar fallback. */
  datatype Kernel = Resolver | Avx2 | Fallback

  /** The kernel the resolver stores, given the outcome of the AVX2 probe. */
  function Chosen(avx2Detected: bool): (k: Kernel)
    ensures k != Resolver
    ensures k == Avx2 <==> avx2Detected
  {
    if avx2Detected then Avx2 else Fallback
  }

  function Min(a: nat, b: nat): nat { if a <= b then a else b }

  /** 1 for a newline byte, 0 for any other. */
  function IsNl(b: u8): nat { if b == NEWLINE then 1 else 0 }

  /** The number of newline bytes in h[lo..hi]. */
  function NlCount(h: seq<u8>, lo: nat, hi: nat): (n: nat)
    requires lo <= hi <= |h|
    ensures n <= hi - lo
    decreases hi - lo
  {
    if lo == hi then 0 else IsNl(h[lo]) + NlCount(h, lo + 1, hi)
  }

  /** Counting is additive over adjacent ranges. */
  lemma {:induction false} NlCountSplit(h: seq<u8>, lo: nat, mid: nat, hi: nat)
    requires lo <= mid <= hi <= |h|
    ensures NlCount(h, lo, hi) == NlCount(h, lo, mid) + NlCount(h, mid, hi)
    decreases mid - lo
  {
    if lo < mid {
      NlCountSplit(h, lo + 1, mid, hi);
    }
  }

  /** Peeling the last byte off a range. */
  lemma NlCountLast(h: seq<u8>, lo: nat, hi: nat)
    requires lo < hi <= |h|
    ensures NlCount(h, lo, hi) == NlCount(h, lo, hi - 1) + IsNl(h[hi - 1])
  {
    NlCountSplit(h, lo, hi - 1, hi);
  }

  /** A range without newline bytes counts zero. */
  lemma {:induction false} NlCountNone(h: seq<u8>, lo: nat, hi: nat)
    requires lo <= hi <= |h|
    requires forall i :: lo <= i < hi ==> h[i] != NEWLINE
    ensures NlCount(h, lo, hi) == 0
    decreases hi - lo
  {
    if lo < hi {
      NlCountNone(h, lo + 1, hi);
    }
  }

  function Pow2(n: nat): (p: nat)
    ensures p >= 1
  {
    if n == 0 then 1 else 2 * Pow2(n - 1)
  }

  /** `_mm256_movemask_epi8(_mm256_cmpeq_epi8(v, splat(b'\n')))` over the
      bytes h[lo..hi]: bit i of the mask is set exactly when h[lo + i] is a
      newline. For a full window the mask fits the 32 bits the intrinsic returns. */
  function Movemask(h: seq<u8>, lo: nat, hi: nat): (m: nat)
    requires lo <= hi <= |h|
    ensures m < Pow2(hi - lo)
    decreases hi - lo
  {
    if lo == hi then 0 else IsNl(h[lo]) + 2 * Movemask(h, lo + 1, hi)
  }

  /** `u32::count_ones`: the number of set bits. */
  function CountOnes(m: nat): (c: nat)
    ensures c <= m
    ensures m > 0 ==> c > 0
  {
    if m == 0 then 0 else m % 2 + CountOnes(m / 2)
  }

  /** The population count of the comparison mask is the newline count of the window. */
  lemma {:induction false} CountOnesMovemask(h: seq<u8>, lo: nat, hi: nat)
    requires lo <= hi <= |h|
    ensures CountOnes(Movemask(h, lo, hi)) == NlCount(h, lo, hi)
    decreases hi - lo
  {
    if lo < hi {
      CountOnesMovemask(h, lo + 1, hi);
      var b, rest := IsNl(h[lo]), Movemask(h, lo + 1, hi);
      var m := b + 2 * rest;
      if m != 0 {
        assert m % 2 == b && m / 2 == rest;
      }
    }
  }

  /** The lane count the AVX2 kernels compute for the window h[lo..lo + 32]. */
  function WindowCount(h: seq<u8>, lo: nat): (c: nat)
    requires lo + WINDOW <= |h|
    ensures c == NlCount(h, lo, lo + WINDOW)
    ensures c <= WINDOW
  {
    CountOnesMovemask(h, lo, lo + WINDOW);
    CountOnes(Movemask(h, lo, lo + WINDOW))
  }
}
