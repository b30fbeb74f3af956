/**
 The per-thread shards of the patched mul_mat and the CPU threads' loop over their share.
 */
module Shards {
  import opened Matrix
  import opened Buffers
  import opened Exactness

  /** Shard i covers [b(i), b(i + 1)). */
  type Bounds = int -> int

  ghost predicate Ascending(b: Bounds, n: nat) {
    b(0) == 0 && forall i :: 0 <= i < n ==> b(i) <= b(i + 1)
  }

  /** The first shard that ends behind x. */
  function Owner(b: Bounds, n: nat, x: int): (i: int)
    ensures 0 <= i <= n
  {
    if n == 0 then 0
    else
      var i := Owner(b, n - 1, x);
      if i < n - 1 || x < b(n) then i else n
  }

  lemma {:induction false} BoundsOrdered(b: Bounds, n: nat, i: nat, j: nat)
    requires Ascending(b, n) && i <= j <= n
    ensures b(i) <= b(j)
  {
    if i < j {
      BoundsOrdered(b, n, i, j - 1);
      assert b(j - 1) <= b(j - 1 + 1);
    }
  }

  lemma {:induction false} OwnerCovers(b: Bounds, n: nat, x: int)
    requires Ascending(b, n) && 0 <= x < b(n)
    ensures Owner(b, n, x) < n && b(Owner(b, n, x)) <= x < b(Owner(b, n, x) + 1)
    decreases n
  {
    if x < b(n - 1) {
      OwnerCovers(b, n - 1, x);
    } else {
      OwnerBeyond(b, n - 1, x);
    }
  }

  lemma {:induction false} OwnerBeyond(b: Bounds, n: nat, x: int)
    requires Ascending(b, n) && b(n) <= x
    ensures Owner(b, n, x) == n
    decreases n
  {
    if n > 0 {
      assert b(n - 1) <= b(n - 1 + 1);
      OwnerBeyond(b, n - 1, x);
    }
  }

  /** Ascending bounds partition [0, b(n)): every point lies in exactly one shard. */
  lemma Partition(b: Bounds, n: nat, x: int, i: int)
    requires Ascending(b, n) && 0 <= x < b(n) && 0 <= i < n
    ensures b(i) <= x < b(i + 1) <==> i == Owner(b, n, x)
    ensures 0 <= Owner(b, n, x) < n
  {
    OwnerCovers(b, n, x);
    var o := Owner(b, n, x);
    if i < o { BoundsOrdered(b, n, i + 1, o); }
    if o < i { BoundsOrdered(b, n, o + 1, i); }
  }

  /** Epilogue rows: `(ith * t_npu) / nth`. */
  function RowBound(t: nat, nth: nat): Bounds
    requires nth > 0
  {
    (i: int) => i * t / nth
  }

  function RoundUp4(s: int): int {
    if s % 4 != 0 then s + 4 - s % 4 else s
  }

  /** CPU columns: `(cith * ne01) / cnth` rounded up to a multiple of four. */
  function ColBound(ne01: nat, cnth: nat): Bounds
    requires cnth > 0
  {
    (i: int) => RoundUp4(i * ne01 / cnth)
  }

  lemma DivMono(x: int, y: int, d: int)
    requires x <= y && d > 0
    ensures x / d <= y / d
  {
    if x / d > y / d { MulMono(y / d + 1, x / d, d); }
  }

  lemma RowsPartition(t: nat, nth: nat)
    requires nth > 0
    ensures Ascending(RowBound(t, nth), nth) && RowBound(t, nth)(nth) == t
  {
    var b := RowBound(t, nth);
    forall i | 0 <= i < nth ensures b(i) <= b(i + 1) {
      MulMono(i, i + 1, t);
      DivMono(i * t, (i + 1) * t, nth);
    }
    IdxDivMod(nth, t, 0);
  }

  /** The column shards cover [0, ne01) and no more exactly when ne01 is a multiple of four;
      otherwise the last shard runs past the tensor. */
  lemma ColsPartition(ne01: nat, cnth: nat)
    requires cnth > 0
    ensures Ascending(ColBound(ne01, cnth), cnth)
    ensures ColBound(ne01, cnth)(cnth) == ne01 <==> ne01 % 4 == 0
    ensures ne01 % 4 != 0 ==> ColBound(ne01, cnth)(cnth) > ne01
  {
    var b := ColBound(ne01, cnth);
    forall i | 0 <= i < cnth ensures b(i) <= b(i + 1) {
      MulMono(i, i + 1, ne01);
      DivMono(i * ne01, (i + 1) * ne01, cnth);
      RoundUpMono(i * ne01 / cnth, (i + 1) * ne01 / cnth);
    }
    IdxDivMod(cnth, ne01, 0);
  }

  /** Inner and outer column bounds are multiples of four, each the first one at or behind its
      exact share. */
  lemma ColsAligned(ne01: nat, cnth: nat, i: nat)
    requires cnth > 0
    ensures ColBound(ne01, cnth)(i) % 4 == 0
    ensures 0 <= ColBound(ne01, cnth)(i) - i * ne01 / cnth < 4
  {
  }

  /** Row shards differ by at most one row; column shards by the rounding to four besides. */
  lemma ShardsBalanced(size: nat, nth: nat, i: nat)
    requires nth > 0
    ensures size / nth <= RowBound(size, nth)(i + 1) - RowBound(size, nth)(i) <= size / nth + 1
    ensures size / nth - 3 <= ColBound(size, nth)(i + 1) - ColBound(size, nth)(i) <= size / nth + 4
  {
    FloorStep(i * size, size, nth);
    assert (i + 1) * size == i * size + size;
    ColsAligned(size, nth, i);
    ColsAligned(size, nth, i + 1);
  }

  lemma FloorStep(x: int, y: int, d: nat)
    requires d > 0
    ensures x / d + y / d <= (x + y) / d <= x / d + y / d + 1
  {
    var q, r := x / d + y / d, x % d + y % d;
    assert q * d == x / d * d + y / d * d;
    assert x + y == q * d + r;
    if r < d {
      IdxDivMod(d, q, r);
    } else {
      IdxDivMod(d, q + 1, r - d);
      assert (q + 1) * d == q * d + d;
    }
  }

  lemma RoundUpMono(x: int, y: int)
    requires x <= y
    ensures RoundUp4(x) <= RoundUp4(y)
  {
  }

  /** The SIMD kernels by their arithmetic: float images of the biased accumulators of
      `cols` tokens from c and nr weight rows from s0. */
  method Gemm(fp: Float32, biased: Mat, c: nat, cols: nat, s0: nat, nr: nat)
    returns (tmp: array<real>)
    ensures fresh(tmp) && tmp.Length == cols * nr
    ensures forall j, r :: 0 <= j < cols && 0 <= r < nr ==>
              At(tmp[..], nr, j, r, 0.0) == fp.rnd(biased(c + j, s0 + r) as real)
  {
    MulMono(0, cols, nr);
    tmp := new real[cols * nr];
    forall q | 0 <= q < tmp.Length {
      tmp[q] := if nr == 0 then 0.0
                else fp.rnd(biased(c + q / nr, s0 + q % nr) as real);
    }
    forall j, r | 0 <= j < cols && 0 <= r < nr
      ensures At(tmp[..], nr, j, r, 0.0) == fp.rnd(biased(c + j, s0 + r) as real)
    {
      IdxBound(nr, cols, j, r);
      IdxDivMod(nr, j, r);
    }
  }

  /** What the CPU threads must leave in output (t, n). */
  ghost function CpuCell(fp: Float32, biased: Mat, xsc: seq<real>, xsm: seq<int>, ws: real, t: int, n: int): real
  {
    if 0 <= t < |xsc| && t < |xsm|
    then fp.mul(fp.rnd(fp.rnd(biased(t, n) as real) - fp.rnd(xsm[t] as real)), fp.div(ws, xsc[t]))
    else 0.0
  }

  /** `drow[r] = (tmp[j * nr + r] - as) * ps` for one token. */
  method CpuRow(fp: Float32, tmp: seq<real>, nr: nat, j: nat, asum: int, ps: real, t: nat, s0: nat,
                dst: array<real>, dStride: nat)
    requires (j + 1) * nr <= |tmp| && s0 + nr <= dStride && (t + 1) * dStride <= dst.Length
    modifies dst
    ensures forall r, n ::
              At(dst[..], dStride, r, n, 0.0)
              == if r == t && s0 <= n < s0 + nr
                 then fp.mul(fp.rnd(At(tmp, nr, j, n - s0, 0.0) - fp.rnd(asum as real)), ps)
                 else old(At(dst[..], dStride, r, n, 0.0))
  {
    assert (j + 1 - 1) * nr + 0 + nr == (j + 1) * nr;
    CombineWindow(dst, dStride, t, s0, tmp, nr, j, 0, 1, nr,
                  (_: real, x: real) => fp.mul(fp.rnd(x - fp.rnd(asum as real)), ps), 0.0, 0.0);
  }

  /** One pass of the token loop: `cols` tokens from c, all nr columns of the shard. */
  method CpuTokens(fp: Float32, biased: Mat, xsc: seq<real>, xsm: seq<int>, ws: real, c: nat, cols: nat,
                   s0: nat, nr: nat, dst: array<real>, dStride: nat)
    requires c + cols <= |xsc| && c + cols <= |xsm| && s0 + nr <= dStride && (c + cols) * dStride <= dst.Length
    modifies dst
    ensures forall t, n ::
              At(dst[..], dStride, t, n, 0.0)
              == if c <= t < c + cols && s0 <= n < s0 + nr
                 then fp.mul(fp.rnd(fp.rnd(biased(t, n) as real) - fp.rnd(xsm[t] as real)), fp.div(ws, xsc[t]))
                 else old(At(dst[..], dStride, t, n, 0.0))
  {
    var buffer := Gemm(fp, biased, c, cols, s0, nr);
    var tmp := buffer[..];
    for j := 0 to cols
      invariant forall t, n ::
                  At(dst[..], dStride, t, n, 0.0)
                  == if c <= t < c + j && s0 <= n < s0 + nr then CpuCell(fp, biased, xsc, xsm, ws, t, n)
                     else old(At(dst[..], dStride, t, n, 0.0))
    {
      MulMono(c + j + 1, c + cols, dStride);
      MulMono(j + 1, cols, nr);
      CpuRow(fp, tmp, nr, j, xsm[c + j], fp.div(ws, xsc[c + j]), c + j, s0, dst, dStride);
      assert forall r :: 0 <= r < nr ==> At(tmp, nr, j, r, 0.0) == fp.rnd(biased(c + j, s0 + r) as real);
    }
  }

  /** The CPU share of one thread: tokens [tNpu, ne11) in groups of four, then singly, over
      columns [s0, s1). */
  method CpuShard(fp: Float32, biased: Mat, xsc: seq<real>, xsm: seq<int>, ws: real, tNpu: nat, ne11: nat,
                  s0: nat, s1: nat, dst: array<real>, dStride: nat)
    requires tNpu <= ne11 <= |xsc| && ne11 <= |xsm| && s1 <= dStride && ne11 * dStride <= dst.Length
    modifies dst
    ensures forall t, n ::
              At(dst[..], dStride, t, n, 0.0)
              == if tNpu <= t < ne11 && s0 <= n < s1
                 then fp.mul(fp.rnd(fp.rnd(biased(t, n) as real) - fp.rnd(xsm[t] as real)), fp.div(ws, xsc[t]))
                 else old(At(dst[..], dStride, t, n, 0.0))
  {
    if s0 >= s1 { return; }
    var c := tNpu;
    while c + 4 <= ne11
      invariant tNpu <= c <= ne11
      invariant forall t, n ::
                  At(dst[..], dStride, t, n, 0.0)
                  == if tNpu <= t < c && s0 <= n < s1 then CpuCell(fp, biased, xsc, xsm, ws, t, n)
                     else old(At(dst[..], dStride, t, n, 0.0))
    {
      MulMono(c + 4, ne11, dStride);
      CpuTokens(fp, biased, xsc, xsm, ws, c, 4, s0, s1 - s0, dst, dStride);
      c := c + 4;
    }
    while c < ne11
      invariant tNpu <= c <= ne11
      invariant forall t, n ::
                  At(dst[..], dStride, t, n, 0.0)
                  == if tNpu <= t < c && s0 <= n < s1 then CpuCell(fp, biased, xsc, xsm, ws, t, n)
                     else old(At(dst[..], dStride, t, n, 0.0))
    {
      MulMono(c + 1, ne11, dStride);
      CpuTokens(fp, biased, xsc, xsm, ws, c, 1, s0, s1 - s0, dst, dStride);
      c := c + 1;
    }
  }
}
