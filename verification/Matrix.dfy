/**
 Flat row-major buffers, the matrices they hold, dot products over column ranges,
 and two's-complement 32-bit integers. Everything else in the project states its
 results in these terms.
 */
module Matrix {

  /** A matrix with every cell defined, so that padding needs no special case. */
  type Mat = (int, int) -> int

  /** Offset of cell (r, c) in a row-major buffer of row width w. */
  function Idx(w: int, r: int, c: int): int {
    r * w + c
  }

  lemma IdxBound(w: int, rows: int, r: int, c: int)
    requires 0 <= r < rows && 0 <= c < w
    ensures 0 <= Idx(w, r, c) < rows * w
  {
    MulMono(r + 1, rows, w);
    assert (r + 1) * w == r * w + w;
    MulMono(0, r, w);
  }

  lemma MulMono(a: int, b: int, w: int)
    requires a <= b && 0 <= w
    ensures a * w <= b * w
  {
    assert (b - a) * w >= 0;
  }

  /** A later row lies entirely behind an earlier one. */
  lemma IdxOrder(w: int, r1: int, c1: int, r2: int, c2: int)
    requires r1 < r2 && c1 < w && 0 <= c2
    requires 0 <= w
    ensures Idx(w, r1, c1) < Idx(w, r2, c2)
  {
    MulMono(r1 + 1, r2, w);
    assert (r1 + 1) * w == r1 * w + w;
  }

  lemma IdxDivMod(w: int, r: int, c: int)
    requires 0 <= c < w
    ensures Idx(w, r, c) / w == r && Idx(w, r, c) % w == c
  {
    var q, m := Idx(w, r, c) / w, Idx(w, r, c) % w;
    assert Idx(w, q, m) == Idx(w, r, c);
    if q < r { IdxOrder(w, q, m, r, c); }
    if q > r { IdxOrder(w, r, c, q, m); }
  }

  /** Cell (r, c) of a row-major buffer, `d` outside the buffer. */
  function At<T>(s: seq<T>, w: int, r: int, c: int, d: T): T {
    if 0 <= r && 0 <= c < w && 0 <= Idx(w, r, c) < |s| then s[Idx(w, r, c)] else d
  }

  /** The integer matrix held by a row-major buffer. */
  function View(s: seq<int>, w: int): Mat {
    (r: int, c: int) => At(s, w, r, c, 0)
  }

  /** Sum over k in [lo, hi) of a(i, k) * b(j, k): row i of a against row j of b. */
  function Dot(a: Mat, b: Mat, i: int, j: int, lo: int, hi: int): int
    requires lo <= hi
    decreases hi - lo
  {
    if lo == hi then 0 else Dot(a, b, i, j, lo, hi - 1) + a(i, hi - 1) * b(j, hi - 1)
  }

  lemma {:induction false} DotSplit(a: Mat, b: Mat, i: int, j: int, lo: int, mid: int, hi: int)
    requires lo <= mid <= hi
    ensures Dot(a, b, i, j, lo, hi) == Dot(a, b, i, j, lo, mid) + Dot(a, b, i, j, mid, hi)
    decreases hi - mid
  {
    if mid < hi {
      DotSplit(a, b, i, j, lo, mid, hi - 1);
    }
  }

  /** Equal operands, possibly stored at shifted columns, give equal dot products. */
  lemma {:induction false} DotShift(a: Mat, b: Mat, i: int, j: int, a': Mat, b': Mat, i': int, j': int,
                                    off: int, len: int)
    requires 0 <= len
    requires forall k :: 0 <= k < len ==> a(i, k) == a'(i', off + k)
    requires forall k :: 0 <= k < len ==> b(j, k) == b'(j', off + k)
    ensures Dot(a, b, i, j, 0, len) == Dot(a', b', i', j', off, off + len)
    decreases len
  {
    if len > 0 {
      DotShift(a, b, i, j, a', b', i', j', off, len - 1);
      assert a(i, len - 1) == a'(i', off + (len - 1));
      assert b(j, len - 1) == b'(j', off + (len - 1));
    }
  }

  /** Zero padding on either operand contributes nothing. */
  lemma {:induction false} DotPadding(a: Mat, b: Mat, i: int, j: int, lo: int, hi: int)
    requires lo <= hi
    requires forall k :: lo <= k < hi ==> a(i, k) == 0 || b(j, k) == 0
    ensures Dot(a, b, i, j, lo, hi) == 0
    decreases hi - lo
  {
    if lo < hi {
      DotPadding(a, b, i, j, lo, hi - 1);
      assert a(i, hi - 1) == 0 || b(j, hi - 1) == 0;
    }
  }

  /** |a| <= p and |b| <= q bound every partial sum by p * q per column. */
  lemma {:induction false} DotBound(a: Mat, b: Mat, i: int, j: int, lo: int, hi: int, p: int, q: int)
    requires lo <= hi && 0 <= p && 0 <= q
    requires forall k :: lo <= k < hi ==> -p <= a(i, k) <= p && -q <= b(j, k) <= q
    ensures -(p * q * (hi - lo)) <= Dot(a, b, i, j, lo, hi) <= p * q * (hi - lo)
    decreases hi - lo
  {
    if lo < hi {
      DotBound(a, b, i, j, lo, hi - 1, p, q);
      ProductBound(a(i, hi - 1), b(j, hi - 1), p, q);
      assert p * q * (hi - lo) == p * q * (hi - 1 - lo) + p * q;
    }
  }

  lemma ProductBound(x: int, y: int, p: int, q: int)
    requires -p <= x <= p && -q <= y <= q
    ensures -(p * q) <= x * y <= p * q
  {
    assert (p - x) * (q + y) >= 0 && (p + x) * (q - y) >= 0;
    assert (p - x) * (q - y) >= 0 && (p + x) * (q + y) >= 0;
  }

  const TWO_31: int := 0x8000_0000
  const TWO_32: int := 0x1_0000_0000

  /** The int32 a register holds after arithmetic whose exact result is x. */
  function Wrap32(x: int): (r: int)
    ensures -TWO_31 <= r < TWO_31
    ensures -TWO_31 <= x < TWO_31 ==> r == x
  {
    (x + TWO_31) % TWO_32 - TWO_31
  }

  /** The wrapped value differs from the exact one by a multiple of 2^32. */
  lemma WrapMeaning(x: int)
    ensures (x - Wrap32(x)) % TWO_32 == 0 && TWO_32 == 4294967296
  {
    WrapCongruent(x);
    ModShift(0, -WrapQuotient(x));
  }

  /** Wrapping at every addition equals wrapping once at the end. */
  lemma WrapAdd(x: int, y: int)
    ensures Wrap32(Wrap32(x) + y) == Wrap32(x + y)
    ensures Wrap32(Wrap32(x) + Wrap32(y)) == Wrap32(x + y)
  {
    WrapCongruent(x);
    WrapCongruent(y);
    var p, q := WrapQuotient(x), WrapQuotient(y);
    ModShift(x + y + TWO_31, p);
    ModShift(x + y + TWO_31, p + q);
  }

  ghost function WrapQuotient(x: int): int {
    (x + TWO_31) / TWO_32
  }

  lemma WrapCongruent(x: int)
    ensures Wrap32(x) == x - WrapQuotient(x) * TWO_32
  {
  }

  lemma ModShift(x: int, q: int)
    ensures (x - q * TWO_32) % TWO_32 == x % TWO_32
  {
    assert (x - q * TWO_32) / TWO_32 == x / TWO_32 - q;
  }
}
