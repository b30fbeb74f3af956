/**
 What one core of the array holds in memory: tiles streamed into micro-tile order, an
 accumulator zeroed and added to, and the tile streamed back out row-major.
 */
module ArrayTiles {
  import opened Matrix
  import opened StreamDims
  import opened TileKernel
  import opened ArraySchedule
  import opened ArrayStreams

  /** The kernel's r x s x t micro-tiles, and the storage order of B. */
  datatype Layout = Layout(r: nat, s: nat, t: nat, bColMaj: bool) {
    predicate Fits(c: Config) {
      Divides(c.m, c.k, r, s) && Divides(c.k, c.n, s, t) && Divides(c.m, c.n, r, t)
    }
  }

  /** Row-major copy of a block of a matrix, as a tap delivers it. */
  function Block(x: Mat, r0: int, c0: int, rows: nat, cols: nat): seq<int>
    requires 0 < cols
  {
    MulMono(0, rows, cols);
    seq<int>(rows * cols, q => x(r0 + q / cols, c0 + q % cols))
  }

  lemma BlockView(x: Mat, r0: int, c0: int, rows: nat, cols: nat, i: nat, j: nat)
    requires i < rows && j < cols
    ensures View(Block(x, r0, c0, rows, cols), cols)(i, j) == x(r0 + i, c0 + j)
  {
    IdxBound(cols, rows, i, j);
    IdxDivMod(cols, i, j);
  }

  function TileOfA(c: Config, a: Mat, p: ATile): seq<int>
    requires c.Valid()
  {
    Block(a, p.row * c.m, p.kt * c.k, c.m, c.k)
  }

  /** The tile of B in its storage order; bt holds B transposed. */
  function TileOfB(c: Config, l: Layout, bt: Mat, p: BTile): seq<int>
    requires c.Valid()
  {
    if l.bColMaj then Block(bt, p.col * c.n, p.kt * c.k, c.n, c.k)
    else Block(Transposed(bt), p.kt * c.k, p.col * c.n, c.k, c.n)
  }

  /** One `matmul` of the core loop on freshly streamed tiles. */
  ghost predicate Multiply(c: Config, l: Layout, a: Mat, bt: Mat, p: Pair, acc: seq<int>, acc': seq<int>)
    requires c.Valid() && l.Fits(c)
  {
    exists bufA: seq<int>, bufB: seq<int> ::
      && Streamed(c, l, TileOfA(c, a, p.a), TileOfB(c, l, bt, p.b), bufA, bufB)
      && KernelStep(bufA, bufB, acc, acc', c.m, c.k, c.n, l.r, l.s, l.t, l.bColMaj)
  }

  /** The L1 buffers after a_dims and b_dims. */
  ghost predicate Streamed(c: Config, l: Layout, memA: seq<int>, memB: seq<int>, bufA: seq<int>, bufB: seq<int>)
    requires c.Valid() && l.Fits(c)
  {
    && |bufA| == c.m * c.k && StreamedFrom(bufA, memA, ToMicro(c.m, c.k, l.r, l.s))
    && |bufB| == c.k * c.n
    && StreamedFrom(bufB, memB, if l.bColMaj then ToMicro(c.n, c.k, l.t, l.s) else ToMicro(c.k, c.n, l.s, l.t))
  }

  /** A multiplication adds the pair's product to every element of the accumulator tile. */
  lemma MultiplyAdds(c: Config, l: Layout, a: Mat, bt: Mat, p: Pair, acc: seq<int>, acc': seq<int>, i: nat, j: nat)
    requires c.Valid() && l.Fits(c) && Multiply(c, l, a, bt, p, acc, acc') && i < c.m && j < c.n
    ensures MicroView(acc', c.n, l.r, l.t)(i, j) == MicroView(acc, c.n, l.r, l.t)(i, j) + PairDot(c, a, bt, p, i, j)
  {
    var memA, memB := TileOfA(c, a, p.a), TileOfB(c, l, bt, p.b);
    var bufA, bufB :| && Streamed(c, l, memA, memB, bufA, bufB)
                      && KernelStep(bufA, bufB, acc, acc', c.m, c.k, c.n, l.r, l.s, l.t, l.bColMaj);
    StreamedDot(c, l, memA, memB, bufA, bufB, i, j);
    TileDot(c, l, a, bt, p, i, j);
  }

  lemma StreamedDot(c: Config, l: Layout, memA: seq<int>, memB: seq<int>, bufA: seq<int>, bufB: seq<int>, i: nat, j: nat)
    requires c.Valid() && l.Fits(c) && Streamed(c, l, memA, memB, bufA, bufB) && i < c.m && j < c.n
    requires |memA| == c.m * c.k && |memB| == c.k * c.n
    ensures Dot(MicroView(bufA, c.k, l.r, l.s), KernelB(bufB, c.k, c.n, l.s, l.t, l.bColMaj), i, j, 0, c.k)
         == Dot(View(memA, c.k), TileB(memB, c.k, c.n, l.bColMaj), i, j, 0, c.k)
  {
    OperandsStreamed(memA, memB, bufA, bufB, c.m, c.k, c.n, l.r, l.s, l.t, l.bColMaj, i, j);
  }

  lemma CellOfA(c: Config, a: Mat, p: ATile, i: nat, kk: nat)
    requires c.Valid() && i < c.m && kk < c.k
    ensures View(TileOfA(c, a, p), c.k)(i, kk) == a(p.row * c.m + i, p.kt * c.k + kk)
  {
    BlockView(a, p.row * c.m, p.kt * c.k, c.m, c.k, i, kk);
  }

  lemma CellOfB(c: Config, l: Layout, bt: Mat, p: BTile, j: nat, kk: nat)
    requires c.Valid() && j < c.n && kk < c.k
    ensures TileB(TileOfB(c, l, bt, p), c.k, c.n, l.bColMaj)(j, kk) == bt(p.col * c.n + j, p.kt * c.k + kk)
  {
    if l.bColMaj {
      BlockView(bt, p.col * c.n, p.kt * c.k, c.n, c.k, j, kk);
    } else {
      BlockView(Transposed(bt), p.kt * c.k, p.col * c.n, c.k, c.n, kk, j);
    }
  }

  /** Operands equal to the pair's tiles give the pair's product. */
  lemma PairDotFrom(c: Config, a: Mat, bt: Mat, p: Pair, x: Mat, y: Mat, i: nat, j: nat)
    requires forall kk :: 0 <= kk < c.k ==> x(i, kk) == a(p.a.row * c.m + i, p.a.kt * c.k + kk)
    requires forall kk :: 0 <= kk < c.k ==> y(j, kk) == bt(p.b.col * c.n + j, p.b.kt * c.k + kk)
    ensures Dot(x, y, i, j, 0, c.k) == PairDot(c, a, bt, p, i, j)
  {
    DotShift(x, y, i, j, (u: int, kk: int) => a(p.a.row * c.m + u, p.a.kt * c.k + kk),
             (v: int, kk: int) => bt(p.b.col * c.n + v, p.b.kt * c.k + kk), i, j, 0, c.k);
  }

  lemma TileDot(c: Config, l: Layout, a: Mat, bt: Mat, p: Pair, i: nat, j: nat)
    requires c.Valid() && i < c.m && j < c.n
    ensures Dot(View(TileOfA(c, a, p.a), c.k), TileB(TileOfB(c, l, bt, p.b), c.k, c.n, l.bColMaj), i, j, 0, c.k)
         == PairDot(c, a, bt, p, i, j)
  {
    var x, y := View(TileOfA(c, a, p.a), c.k), TileB(TileOfB(c, l, bt, p.b), c.k, c.n, l.bColMaj);
    forall kk | 0 <= kk < c.k ensures x(i, kk) == a(p.a.row * c.m + i, p.a.kt * c.k + kk) {
      CellOfA(c, a, p.a, i, kk);
    }
    forall kk | 0 <= kk < c.k ensures y(j, kk) == bt(p.b.col * c.n + j, p.b.kt * c.k + kk) {
      CellOfB(c, l, bt, p.b, j, kk);
    }
    PairDotFrom(c, a, bt, p, x, y, i, j);
  }

  /** The accumulator contents along one output tile: zeroed, then one multiply per pair. */
  ghost predicate Accumulates(c: Config, l: Layout, a: Mat, bt: Mat, ps: seq<Pair>, accs: seq<seq<int>>)
    requires c.Valid() && l.Fits(c)
  {
    && |accs| == |ps| + 1
    && |accs[0]| == c.m * c.n && (forall q :: 0 <= q < |accs[0]| ==> accs[0][q] == 0)
    && forall q :: 0 <= q < |ps| ==> Multiply(c, l, a, bt, ps[q], accs[q], accs[q + 1])
  }

  lemma {:induction false} AccumulatedValue(c: Config, l: Layout, a: Mat, bt: Mat, ps: seq<Pair>, accs: seq<seq<int>>,
                                            q: nat, i: nat, j: nat)
    requires c.Valid() && l.Fits(c) && Accumulates(c, l, a, bt, ps, accs) && q <= |ps| && i < c.m && j < c.n
    ensures |accs[q]| == c.m * c.n
    ensures MicroView(accs[q], c.n, l.r, l.t)(i, j) == TileValue(c, a, bt, ps[..q], i, j)
  {
    if q == 0 {
      MicroInside(c.m, c.n, l.r, l.t, i, j);
    } else {
      AccumulatedValue(c, l, a, bt, ps, accs, q - 1, i, j);
      assert Multiply(c, l, a, bt, ps[q - 1], accs[q - 1], accs[q - 1 + 1]);
      MultiplyAdds(c, l, a, bt, ps[q - 1], accs[q - 1], accs[q], i, j);
      assert ps[..q][..q - 1] == ps[..q - 1];
    }
  }

  /** What leaves a core for C tile t: streamed in, multiplied over its K tile pairs and
      streamed out through c_dims, the tile is row-major A @ B at its place. */
  lemma DrainedTileIsProduct(c: Config, l: Layout, a: Mat, bt: Mat, t: CTile, accs: seq<seq<int>>, out: seq<int>,
                             i: nat, j: nat)
    requires c.Valid() && l.Fits(c) && Accumulates(c, l, a, bt, Pairs(t, c.KTiles()), accs)
    requires |out| == c.m * c.n && StreamedFrom(out, accs[c.KTiles()], FromMicro(c.m, c.n, l.r, l.t))
    requires i < c.m && j < c.n
    ensures View(out, c.n)(i, j) == Dot(a, bt, t.row * c.m + i, t.col * c.n + j, 0, c.K)
  {
    var kTiles := c.KTiles();
    var ps := Pairs(t, kTiles);
    AccumulatedValue(c, l, a, bt, ps, accs, kTiles, i, j);
    assert ps[..kTiles] == ps;
    PairsSum(c, a, bt, t, kTiles, i, j);
    assert kTiles * c.k == c.K by { Sizes(c); }
    StreamedOut(out, accs[kTiles], c.m, c.n, l.r, l.t, i, j);
  }

  lemma StreamedOut(out: seq<int>, acc: seq<int>, m: nat, n: nat, r: nat, t: nat, i: nat, j: nat)
    requires Divides(m, n, r, t) && |out| == m * n == |acc| && StreamedFrom(out, acc, FromMicro(m, n, r, t))
    requires i < m && j < n
    ensures View(out, n)(i, j) == MicroView(acc, n, r, t)(i, j)
  {
    FromMicroReads(m, n, r, t, i, j);
    IdxBound(n, m, i, j);
    MicroInside(m, n, r, t, i, j);
  }

  /** The DMA can fill a buffer through a_dims or b_dims. */
  lemma StreamIn(mem: seq<int>, rows: nat, cols: nat, a: nat, b: nat) returns (buf: seq<int>)
    requires Divides(rows, cols, a, b) && 0 < cols && |mem| == rows * cols
    ensures |buf| == rows * cols && StreamedFrom(buf, mem, ToMicro(rows, cols, a, b))
  {
    var d := ToMicro(rows, cols, a, b);
    DigitsInside(cols, b, 0);
    forall q | 0 <= q < |mem| ensures 0 <= Offset(d, q) < |mem| {
      ToMicroOnto(rows, cols, a, b, q);
      ToMicroReads(rows, cols, a, b, RowAt(cols, a, b, q), ColAt(cols, a, b, q));
      IdxBound(cols, rows, RowAt(cols, a, b, q), ColAt(cols, a, b, q));
    }
    buf := seq<int>(|mem|, q requires 0 <= q < |mem| => mem[Offset(d, q)]);
  }

  /** And read one out through c_dims. */
  lemma StreamOut(acc: seq<int>, rows: nat, cols: nat, a: nat, b: nat) returns (out: seq<int>)
    requires Divides(rows, cols, a, b) && 0 < cols && |acc| == rows * cols
    ensures |out| == rows * cols && StreamedFrom(out, acc, FromMicro(rows, cols, a, b))
  {
    var d := FromMicro(rows, cols, a, b);
    DigitsInside(cols, b, 0);
    forall q | 0 <= q < |acc| ensures 0 <= Offset(d, q) < |acc| {
      DivBound(q, cols, rows);
      DivModSum(q, cols);
      FromMicroReads(rows, cols, a, b, q / cols, q % cols);
      MicroInside(rows, cols, a, b, q / cols, q % cols);
    }
    out := seq<int>(|acc|, q requires 0 <= q < |acc| => acc[Offset(d, q)]);
  }

  /** A kernel that adds exactly the product exists for every layout. */
  lemma KernelExists(bufA: seq<int>, bufB: seq<int>, acc: seq<int>, m: nat, k: nat, n: nat, l: Layout) returns (acc': seq<int>)
    requires Divides(m, n, l.r, l.t) && 0 < l.s && 0 < n && |acc| == m * n
    ensures KernelStep(bufA, bufB, acc, acc', m, k, n, l.r, l.s, l.t, l.bColMaj)
  {
    var x, y := MicroView(bufA, k, l.r, l.s), KernelB(bufB, k, n, l.s, l.t, l.bColMaj);
    DigitsInside(n, l.t, 0);
    acc' := seq<int>(|acc|, q requires 0 <= q < |acc| =>
      acc[q] + Dot(x, y, RowAt(n, l.r, l.t, q), ColAt(n, l.r, l.t, q), 0, k));
    forall i, j | 0 <= i < m && 0 <= j < n
      ensures MicroView(acc', n, l.r, l.t)(i, j) == MicroView(acc, n, l.r, l.t)(i, j) + Dot(x, y, i, j, 0, k)
    {
      MicroInside(m, n, l.r, l.t, i, j);
      MicroDigits(n, l.r, l.t, i, j);
    }
  }

  lemma MultiplyExists(c: Config, l: Layout, a: Mat, bt: Mat, p: Pair, acc: seq<int>) returns (acc': seq<int>)
    requires c.Valid() && l.Fits(c) && |acc| == c.m * c.n
    ensures Multiply(c, l, a, bt, p, acc, acc') && |acc'| == |acc|
  {
    var memA, memB := TileOfA(c, a, p.a), TileOfB(c, l, bt, p.b);
    var bufA := StreamIn(memA, c.m, c.k, l.r, l.s);
    var bufB: seq<int>;
    if l.bColMaj {
      bufB := StreamIn(memB, c.n, c.k, l.t, l.s);
    } else {
      bufB := StreamIn(memB, c.k, c.n, l.s, l.t);
    }
    acc' := KernelExists(bufA, bufB, acc, c.m, c.k, c.n, l);
    assert Streamed(c, l, memA, memB, bufA, bufB);
  }

  /** Every pair list can be accumulated, in every layout that fits. */
  lemma {:induction false} AccumulationExists(c: Config, l: Layout, a: Mat, bt: Mat, ps: seq<Pair>) returns (accs: seq<seq<int>>)
    requires c.Valid() && l.Fits(c)
    ensures Accumulates(c, l, a, bt, ps, accs) && |accs[|ps|]| == c.m * c.n
    decreases |ps|
  {
    if ps == [] {
      MulMono(0, c.m, c.n);
      accs := [seq<int>(c.m * c.n, q => 0)];
    } else {
      var n := |ps| - 1;
      var before := AccumulationExists(c, l, a, bt, ps[..n]);
      var last := MultiplyExists(c, l, a, bt, ps[n], before[n]);
      accs := before + [last];
      forall q | 0 <= q < |ps| ensures Multiply(c, l, a, bt, ps[q], accs[q], accs[q + 1]) {
        if q < n { assert Multiply(c, l, a, bt, ps[..n][q], before[q], before[q + 1]); }
      }
    }
  }
}
