/**
 The core kernel's view of its operands: row-major tiles streamed into micro-tile order, for
 a kernel that only knows micro-tile order.
 */
module TileKernel {
  import opened Matrix
  import opened StreamDims

  /** The buffer a DMA fills by reading `mem` through the layout d. */
  ghost predicate StreamedFrom(buf: seq<int>, mem: seq<int>, d: Dims) {
    && d.n1 > 0 && d.n2 > 0 && d.n3 > 0
    && forall q :: 0 <= q < |buf| ==> 0 <= Offset(d, q) < |mem| && buf[q] == mem[Offset(d, q)]
  }

  /** The matrix held by a micro-tile-major buffer. */
  function MicroView(buf: seq<int>, cols: nat, a: nat, b: nat): Mat
    requires 0 < a && 0 < b
  {
    (i: int, j: int) => if 0 <= Micro(cols, a, b, i, j) < |buf| then buf[Micro(cols, a, b, i, j)] else 0
  }

  function Transposed(f: Mat): Mat {
    (i: int, j: int) => f(j, i)
  }

  /** B as the kernel sees it, row j holding column j of the product's right operand. */
  function KernelB(b: seq<int>, k: nat, n: nat, s: nat, t: nat, bColMaj: bool): Mat
    requires 0 < s && 0 < t
  {
    if bColMaj then MicroView(b, k, t, s) else Transposed(MicroView(b, n, s, t))
  }

  /** The r x s x t micro-tiled kernel: c' is c plus the product of the two buffers. */
  ghost predicate KernelStep(a: seq<int>, b: seq<int>, c: seq<int>, c': seq<int>, m: nat, k: nat, n: nat,
                             r: nat, s: nat, t: nat, bColMaj: bool)
    requires 0 < r && 0 < s && 0 < t
  {
    |c'| == |c|
    && forall i, j :: 0 <= i < m && 0 <= j < n ==>
         MicroView(c', n, r, t)(i, j)
         == MicroView(c, n, r, t)(i, j) + Dot(MicroView(a, k, r, s), KernelB(b, k, n, s, t, bColMaj), i, j, 0, k)
  }

  /** A streamed tile seen through its micro-tiles is the tile. */
  lemma MicroOfStream(buf: seq<int>, mem: seq<int>, rows: nat, cols: nat, a: nat, b: nat, i: int, j: int)
    requires Divides(rows, cols, a, b) && |buf| == rows * cols == |mem|
    requires StreamedFrom(buf, mem, ToMicro(rows, cols, a, b))
    requires 0 <= i < rows && 0 <= j < cols
    ensures MicroView(buf, cols, a, b)(i, j) == View(mem, cols)(i, j)
  {
    ToMicroReads(rows, cols, a, b, i, j);
    MicroInside(rows, cols, a, b, i, j);
    IdxBound(cols, rows, i, j);
  }

  lemma MicroInside(rows: nat, cols: nat, a: nat, b: nat, i: nat, j: nat)
    requires Divides(rows, cols, a, b) && i < rows && j < cols
    ensures 0 <= Micro(cols, a, b, i, j) < rows * cols
  {
    DigitsInside(cols, b, j);
    DigitsInside(rows, a, i);
    var w, h := cols / b, rows / a;
    DivModSum(i, a);
    DivModSum(j, b);
    IdxBound(w, h, i / a, j / b);
    IdxBound(a, h * w, Idx(w, i / a, j / b), i % a);
    IdxBound(b, h * w * a, Idx(a, Idx(w, i / a, j / b), i % a), j % b);
    Product3(h, w, a);
    Product3(rows, w, b);
  }

  /** The tile of B in memory: [n, k] when column-major, [k, n] otherwise. */
  function TileB(mem: seq<int>, k: nat, n: nat, bColMaj: bool): Mat {
    if bColMaj then View(mem, k) else Transposed(View(mem, n))
  }

  lemma OperandsStreamed(memA: seq<int>, memB: seq<int>, a: seq<int>, b: seq<int>, m: nat, k: nat, n: nat,
                         r: nat, s: nat, t: nat, bColMaj: bool, i: int, j: int)
    requires Divides(m, k, r, s) && Divides(k, n, s, t)
    requires |a| == |memA| == m * k && |b| == |memB| == k * n
    requires StreamedFrom(a, memA, ToMicro(m, k, r, s))
    requires StreamedFrom(b, memB, if bColMaj then ToMicro(n, k, t, s) else ToMicro(k, n, s, t))
    requires 0 <= i < m && 0 <= j < n
    ensures Dot(MicroView(a, k, r, s), KernelB(b, k, n, s, t, bColMaj), i, j, 0, k)
         == Dot(View(memA, k), TileB(memB, k, n, bColMaj), i, j, 0, k)
  {
    forall kk | 0 <= kk < k ensures MicroView(a, k, r, s)(i, kk) == View(memA, k)(i, kk) {
      MicroOfStream(a, memA, m, k, r, s, i, kk);
    }
    forall kk | 0 <= kk < k
      ensures KernelB(b, k, n, s, t, bColMaj)(j, kk) == TileB(memB, k, n, bColMaj)(j, kk)
    {
      if bColMaj { MicroOfStream(b, memB, n, k, t, s, j, kk); } else { MicroOfStream(b, memB, k, n, s, t, kk, j); }
    }
    DotShift(MicroView(a, k, r, s), KernelB(b, k, n, s, t, bColMaj), i, j, View(memA, k), TileB(memB, k, n, bColMaj), i, j, 0, k);
  }
}
