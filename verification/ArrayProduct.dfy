/** The whole array computes C = A @ B, in every interleaving, and every execution ends. */
module ArrayProduct {
  import opened Matrix
  import opened ArraySchedule
  import opened ArrayStreams
  import opened GridNetwork
  import opened StreamDims
  import opened TileKernel
  import opened ArrayTiles

  /** The network of a configuration: the streams its issued taps spell out. */
  function GridOf(c: Config, depth: nat, cDepth: nat): Grid
    requires c.Valid()
  {
    Grid(c.cols, c.Shims(), c.RowsPerShim(), c.HalfBlock() * c.ColSteps(), c.Halves(), c.KTiles(),
         (R: int) => if 0 <= R < ROWS then CoreA(c, R) else [],
         (col: int) => if 0 <= col < c.cols then CoreB(c, col) else [],
         (col: int) => if 0 <= col < c.cols then ColC(c, col) else [],
         depth, cDepth)
  }

  lemma GridTotal(c: Config, depth: nat, cDepth: nat)
    requires c.Valid()
    ensures GridOf(c, depth, cDepth).Total() == c.RowBlocks() * c.ColSteps()
  {
    Sizes(c);
    assert c.Halves() * (c.HalfBlock() * c.ColSteps()) == c.Halves() * c.HalfBlock() * c.ColSteps();
  }

  /** The issued taps fill the network exactly: full streams, and distinct C blocks. */
  lemma GridOfValid(c: Config, depth: nat, cDepth: nat)
    requires c.Valid() && 0 < depth && 0 < cDepth
    ensures GridOf(c, depth, cDepth).Valid()
  {
    var g := GridOf(c, depth, cDepth);
    Sizes(c);
    GridTotal(c, depth, cDepth);
    var total := c.RowBlocks() * c.ColSteps();
    IdxBound(c.ColSteps(), c.RowBlocks(), 0, 0);
    MulMono(1, c.ColSteps(), c.HalfBlock());
    forall R | 0 <= R < ROWS ensures |g.a(R)| == total * c.KTiles() {
      StreamsMatch(c, R, 0, 0, 0);
    }
    forall col | 0 <= col < c.cols ensures |g.b(col)| == total * c.KTiles() && |g.c(col)| == total {
      StreamsMatch(c, 0, col, 0, 0);
    }
    forall col, p, col', p' | 0 <= col < c.cols && 0 <= col' < c.cols && 0 <= p < total && 0 <= p' < total
                              && g.c(col)[p] == g.c(col')[p']
      ensures col == col' && p == p'
    {
      BlocksDiffer(c, col, p, col', p');
    }
  }

  lemma BlocksDiffer(c: Config, col: nat, p: nat, col': nat, p': nat)
    requires c.Valid() && col < c.cols && col' < c.cols
    requires p < c.RowBlocks() * c.ColSteps() && p' < c.RowBlocks() * c.ColSteps()
    requires |ColC(c, col)| > p && |ColC(c, col')| > p' && ColC(c, col)[p] == ColC(c, col')[p']
    ensures col == col' && p == p'
  {
    Sizes(c);
    StreamsMatch(c, 0, col, p, 0);
    StreamsMatch(c, 0, col', p', 0);
    var t := TileOf(c, 0, col, p);
    TileInGrid(c, 0, col, p);
    TileOwner(c, t, 0, col, p);
    TileOwner(c, t, 0, col', p');
  }

  /** A core's p-th output is the pair list of its p-th C tile, and that is where it lands. */
  lemma WantedIsTile(c: Config, depth: nat, cDepth: nat, R: nat, col: nat, p: nat)
    requires c.Valid() && R < ROWS && col < c.cols && p < c.RowBlocks() * c.ColSteps()
    ensures var g := GridOf(c, depth, cDepth);
            && g.Target(R, col, p) == TileOf(c, R, col, p)
            && g.Wanted(R, col, p, c.KTiles()) == Pairs(TileOf(c, R, col, p), c.KTiles())
  {
    var g := GridOf(c, depth, cDepth);
    Sizes(c);
    StreamsMatch(c, R, col, p, 0);
    forall kt | 0 <= kt < c.KTiles()
      ensures g.Wanted(R, col, p, c.KTiles())[kt] == Pairs(TileOf(c, R, col, p), c.KTiles())[kt]
    {
      StreamsMatch(c, R, col, p, kt);
    }
  }

  /** What a core of the network has released is what the core loop computes over its streams,
      up to now. */
  lemma CoresRunCoreFn(c: Config, depth: nat, cDepth: nat, tr: seq<Net>, n: nat, R: nat, col: nat, outC: seq<seq<Pair>>)
    requires c.Valid() && 0 < depth && 0 < cDepth && R < ROWS && col < c.cols
    requires GridOf(c, depth, cDepth).Valid() && Run(GridOf(c, depth, cDepth), tr) && n < |tr|
    requires |CoreA(c, R)| == |CoreB(c, col)| && IsCoreOutput(c, CoreA(c, R), CoreB(c, col), outC)
    ensures tr[n].core(R, col).out <= outC
  {
    var g := GridOf(c, depth, cDepth);
    var out := tr[n].core(R, col).out;
    RunInv(g, tr, n);
    GridTotal(c, depth, cDepth);
    TilesPerCoreExact(c);
    assert CoreOk(g, tr[n], R, col);
    forall p | 0 <= p < |out| ensures out[p] == outC[p] {
      ReleasedTile(c, depth, cDepth, R, col, outC, p);
    }
  }

  lemma ReleasedTile(c: Config, depth: nat, cDepth: nat, R: nat, col: nat, outC: seq<seq<Pair>>, p: nat)
    requires c.Valid() && R < ROWS && col < c.cols && p < |outC|
    requires |CoreA(c, R)| == |CoreB(c, col)| && IsCoreOutput(c, CoreA(c, R), CoreB(c, col), outC)
    ensures GridOf(c, depth, cDepth).Wanted(R, col, p, c.KTiles()) == outC[p]
  {
    var w := GridOf(c, depth, cDepth).Wanted(R, col, p, c.KTiles());
    forall kt | 0 <= kt < c.KTiles() ensures w[kt] == outC[p][kt] {
      assert 0 <= Idx(c.KTiles(), p, kt) < |CoreA(c, R)|;
    }
  }

  /** The C tile holding an element. */
  function HomeTile(c: Config, row: nat, x: nat): CTile
    requires c.Valid()
  {
    CTile(row / c.m, x / c.n)
  }

  lemma HomeTileInGrid(c: Config, row: nat, x: nat)
    requires c.Valid() && row < c.M && x < c.N
    ensures InGrid(c, HomeTile(c, row, x))
    ensures HomeTile(c, row, x).row * c.m + row % c.m == row
    ensures HomeTile(c, row, x).col * c.n + x % c.n == x
  {
    Sizes(c);
    InTiles(row, c.m, c.RowBlocks() * ROWS, c.M);
    InTiles(x, c.n, c.ColSteps() * c.cols, c.N);
  }

  lemma InTiles(x: nat, d: nat, count: nat, size: nat)
    requires 0 < d && size == count * d && x < size
    ensures 0 <= x / d < count && x / d * d + x % d == x
  {
    HalfOf(x, d, count);
  }

  /** A finished run has written each C tile once, with exactly its pairs in order. */
  lemma TileWrittenOnce(c: Config, depth: nat, cDepth: nat, tr: seq<Net>, n: nat, t: CTile)
    requires c.Valid() && 0 < depth && 0 < cDepth && InGrid(c, t)
    requires GridOf(c, depth, cDepth).Valid() && Run(GridOf(c, depth, cDepth), tr) && n < |tr|
    requires Finished(GridOf(c, depth, cDepth), tr[n])
    ensures tr[n].mem(t) == [Pairs(t, c.KTiles())]
  {
    var R, col, p := t.row % ROWS, t.col % c.cols, OrderOf(c, t);
    OwnerRange(c, t);
    TileOwner(c, t, R, col, p);
    GridTotal(c, depth, cDepth);
    WantedIsTile(c, depth, cDepth, R, col, p);
    FinishedMemory(GridOf(c, depth, cDepth), tr, n, R, col, p);
  }

  /** Every element of C, wherever its tile was computed and whatever the interleaving and the
      FIFO depths: written once, and equal to row times column over all of K. */
  lemma ArrayComputesProduct(c: Config, depth: nat, cDepth: nat, tr: seq<Net>, n: nat, a: Mat, bt: Mat, row: nat, x: nat)
    requires c.Valid() && 0 < depth && 0 < cDepth && row < c.M && x < c.N
    requires GridOf(c, depth, cDepth).Valid() && Run(GridOf(c, depth, cDepth), tr) && n < |tr|
    requires Finished(GridOf(c, depth, cDepth), tr[n])
    ensures var writes := tr[n].mem(HomeTile(c, row, x));
            |writes| == 1 && TileValue(c, a, bt, writes[0], row % c.m, x % c.n) == Dot(a, bt, row, x, 0, c.K)
  {
    Sizes(c);
    var t := HomeTile(c, row, x);
    HomeTileInGrid(c, row, x);
    TileWrittenOnce(c, depth, cDepth, tr, n, t);
    PairsSum(c, a, bt, t, c.KTiles(), row % c.m, x % c.n);
  }

  /** C tile t of the memory holds what a core streams out for its recorded pairs. */
  ghost predicate TileDrained(c: Config, l: Layout, a: Mat, bt: Mat, t: CTile, ps: seq<Pair>, cMem: seq<int>)
    requires c.Valid() && l.Fits(c)
  {
    exists accs: seq<seq<int>>, out: seq<int> ::
      && Accumulates(c, l, a, bt, ps, accs)
      && |out| == c.m * c.n && StreamedFrom(out, accs[|ps|], FromMicro(c.m, c.n, l.r, l.t))
      && Placed(c, t, out, cMem)
  }

  ghost predicate Placed(c: Config, t: CTile, out: seq<int>, cMem: seq<int>) {
    forall i, j :: 0 <= i < c.m && 0 <= j < c.n ==>
      View(cMem, c.N)(t.row * c.m + i, t.col * c.n + j) == View(out, c.n)(i, j)
  }

  /** The memory after a run: each C tile shows the last write to it. */
  ghost predicate Shows(c: Config, l: Layout, a: Mat, bt: Mat, net: Net, cMem: seq<int>)
    requires c.Valid() && l.Fits(c)
  {
    forall t :: InGrid(c, t) ==> |net.mem(t)| > 0 && TileDrained(c, l, a, bt, t, net.mem(t)[|net.mem(t)| - 1], cMem)
  }

  /** The drained matrix is A @ B: in every finished run, for every interleaving, FIFO depths
      and fitting layout, each element of C in memory is row times column over all of K. */
  lemma DrainedIsProduct(c: Config, l: Layout, depth: nat, cDepth: nat, tr: seq<Net>, n: nat, a: Mat, bt: Mat,
                         cMem: seq<int>, row: nat, x: nat)
    requires c.Valid() && l.Fits(c) && 0 < depth && 0 < cDepth && row < c.M && x < c.N
    requires GridOf(c, depth, cDepth).Valid() && Run(GridOf(c, depth, cDepth), tr) && n < |tr|
    requires Finished(GridOf(c, depth, cDepth), tr[n]) && Shows(c, l, a, bt, tr[n], cMem)
    ensures View(cMem, c.N)(row, x) == Dot(a, bt, row, x, 0, c.K)
  {
    var t := HomeTile(c, row, x);
    HomeTileInGrid(c, row, x);
    TileWrittenOnce(c, depth, cDepth, tr, n, t);
    TileShowsProduct(c, l, a, bt, t, cMem, row % c.m, x % c.n);
  }

  lemma TileShowsProduct(c: Config, l: Layout, a: Mat, bt: Mat, t: CTile, cMem: seq<int>, i: nat, j: nat)
    requires c.Valid() && l.Fits(c) && TileDrained(c, l, a, bt, t, Pairs(t, c.KTiles()), cMem) && i < c.m && j < c.n
    ensures View(cMem, c.N)(t.row * c.m + i, t.col * c.n + j) == Dot(a, bt, t.row * c.m + i, t.col * c.n + j, 0, c.K)
  {
    var ps := Pairs(t, c.KTiles());
    var accs: seq<seq<int>>, out: seq<int> :|
      && Accumulates(c, l, a, bt, ps, accs)
      && |out| == c.m * c.n && StreamedFrom(out, accs[|ps|], FromMicro(c.m, c.n, l.r, l.t))
      && Placed(c, t, out, cMem);
    DrainedTileIsProduct(c, l, a, bt, t, accs, out, i, j);
  }

  /** Every finished run has such a memory, in every layout that fits. */
  lemma DrainedExists(c: Config, l: Layout, depth: nat, cDepth: nat, tr: seq<Net>, n: nat, a: Mat, bt: Mat)
    returns (cMem: seq<int>)
    requires c.Valid() && l.Fits(c) && 0 < depth && 0 < cDepth
    requires GridOf(c, depth, cDepth).Valid() && Run(GridOf(c, depth, cDepth), tr) && n < |tr|
    requires Finished(GridOf(c, depth, cDepth), tr[n])
    ensures |cMem| == c.M * c.N && Shows(c, l, a, bt, tr[n], cMem)
  {
    cMem := ProductMemory(c, a, bt);
    forall t | InGrid(c, t)
      ensures |tr[n].mem(t)| > 0 && TileDrained(c, l, a, bt, t, tr[n].mem(t)[|tr[n].mem(t)| - 1], cMem)
    {
      TileWrittenOnce(c, depth, cDepth, tr, n, t);
      TileFromCore(c, l, a, bt, t, cMem);
    }
  }

  function ProductMemory(c: Config, a: Mat, bt: Mat): seq<int>
    requires c.Valid()
  {
    MulMono(0, c.M, c.N);
    seq<int>(c.M * c.N, q => Dot(a, bt, q / c.N, q % c.N, 0, c.K))
  }

  lemma TileFromCore(c: Config, l: Layout, a: Mat, bt: Mat, t: CTile, cMem: seq<int>)
    requires c.Valid() && l.Fits(c) && InGrid(c, t) && cMem == ProductMemory(c, a, bt)
    ensures TileDrained(c, l, a, bt, t, Pairs(t, c.KTiles()), cMem)
  {
    var ps := Pairs(t, c.KTiles());
    var accs := AccumulationExists(c, l, a, bt, ps);
    var out := StreamOut(accs[|ps|], c.m, c.n, l.r, l.t);
    forall i, j | 0 <= i < c.m && 0 <= j < c.n
      ensures View(cMem, c.N)(t.row * c.m + i, t.col * c.n + j) == View(out, c.n)(i, j)
    {
      DrainedTileIsProduct(c, l, a, bt, t, accs, out, i, j);
      ProductCell(c, a, bt, t, i, j);
    }
    assert Placed(c, t, out, cMem);
  }

  lemma ProductCell(c: Config, a: Mat, bt: Mat, t: CTile, i: nat, j: nat)
    requires c.Valid() && InGrid(c, t) && i < c.m && j < c.n
    ensures View(ProductMemory(c, a, bt), c.N)(t.row * c.m + i, t.col * c.n + j)
         == Dot(a, bt, t.row * c.m + i, t.col * c.n + j, 0, c.K)
  {
    Sizes(c);
    IdxBound(c.m, c.RowBlocks() * ROWS, t.row, i);
    IdxBound(c.n, c.ColSteps() * c.cols, t.col, j);
    ProductAt(c, a, bt, t.row * c.m + i, t.col * c.n + j);
  }

  lemma ProductAt(c: Config, a: Mat, bt: Mat, row: nat, x: nat)
    requires c.Valid() && row < c.M && x < c.N
    ensures View(ProductMemory(c, a, bt), c.N)(row, x) == Dot(a, bt, row, x, 0, c.K)
  {
    IdxBound(c.N, c.M, row, x);
    IdxDivMod(c.N, row, x);
  }

  lemma OwnerRange(c: Config, t: CTile)
    requires c.Valid() && InGrid(c, t)
    ensures 0 <= OrderOf(c, t) < c.RowBlocks() * c.ColSteps()
  {
    Sizes(c);
    IdxBound(c.ColSteps(), c.RowBlocks(), 0, 0);
    TileOwner(c, t, 0, 0, 0);
  }

  function SumTo(f: int -> nat, n: nat): nat {
    if n == 0 then 0 else SumTo(f, n - 1) + f(n - 1)
  }

  lemma {:induction false} SumChange(f: int -> nat, f': int -> nat, x: int, n: nat)
    requires forall y :: 0 <= y < n && y != x ==> f'(y) == f(y)
    ensures SumTo(f', n) == SumTo(f, n) + if 0 <= x < n then f'(x) - f(x) else 0
  {
    if n > 0 {
      SumChange(f, f', x, n - 1);
    }
  }

  lemma {:induction false} SumBound(f: int -> nat, n: nat, b: nat)
    requires forall y :: 0 <= y < n ==> f(y) <= b
    ensures SumTo(f, n) <= n * b
  {
    if n > 0 {
      SumBound(f, n - 1, b);
      assert n * b == (n - 1) * b + b;
    }
  }

  /** How far one core is: each of its steps adds one. */
  function CoreWeight(g: Grid, k: Core): nat {
    |k.out| * (g.kTiles + 2) + if k.open then 1 + |k.acc| else 0
  }

  function RowWeight(g: Grid, s: Net, R: int): int -> nat {
    (col: int) => CoreWeight(g, s.core(R, col))
  }

  function Rows(g: Grid, s: Net): int -> nat {
    (R: int) => SumTo(RowWeight(g, s, R), g.cols)
  }

  function Weight(g: Grid, s: Net): nat {
    s.issued + SumTo(s.aPushed, g.shims) + SumTo(s.bPushed, g.cols) + SumTo(s.drained, g.cols) + SumTo(Rows(g, s), ROWS)
  }

  function MaxWeight(g: Grid): nat {
    g.halves + g.shims * (g.Total() * g.kTiles) + g.cols * (g.Total() * g.kTiles) + g.cols * g.Total()
    + ROWS * (g.cols * (g.Total() * (g.kTiles + 2)))
  }

  predicate IsCoreStep(step: Step) {
    step.Acquire? || step.Mac? || step.Release?
  }

  lemma CoreGains(g: Grid, s: Net, step: Step)
    requires g.Valid() && Inv(g, s) && Enabled(g, s, step) && IsCoreStep(step)
    ensures CoreWeight(g, Apply(g, s, step).core(step.R, step.col)) == CoreWeight(g, s.core(step.R, step.col)) + 1
  {
    var k := s.core(step.R, step.col);
    assert CoreOk(g, s, step.R, step.col);
    assert (|k.out| + 1) * (g.kTiles + 2) == |k.out| * (g.kTiles + 2) + g.kTiles + 2;
  }

  lemma RowKeeps(g: Grid, s: Net, s': Net, R: int)
    requires forall col :: s'.core(R, col) == s.core(R, col)
    ensures Rows(g, s')(R) == Rows(g, s)(R)
  {
    SumChange(RowWeight(g, s, R), RowWeight(g, s', R), -1, g.cols);
  }

  lemma CoreAdvances(g: Grid, s: Net, step: Step)
    requires g.Valid() && Inv(g, s) && Enabled(g, s, step)
    ensures SumTo(Rows(g, Apply(g, s, step)), ROWS)
         == SumTo(Rows(g, s), ROWS) + if IsCoreStep(step) then 1 else 0
  {
    var s' := Apply(g, s, step);
    var R := if IsCoreStep(step) then step.R else -1;
    if IsCoreStep(step) {
      CoreGains(g, s, step);
      SumChange(RowWeight(g, s, R), RowWeight(g, s', R), step.col, g.cols);
    }
    forall y | 0 <= y < ROWS && y != R ensures Rows(g, s')(y) == Rows(g, s)(y) {
      RowKeeps(g, s, s', y);
    }
    SumChange(Rows(g, s), Rows(g, s'), R, ROWS);
  }

  lemma StepAdvances(g: Grid, s: Net, step: Step)
    requires g.Valid() && Inv(g, s) && Enabled(g, s, step)
    ensures Weight(g, Apply(g, s, step)) == Weight(g, s) + 1
  {
    var s' := Apply(g, s, step);
    CoreAdvances(g, s, step);
    SumChange(s.aPushed, s'.aPushed, if step.PushA? then step.shim else -1, g.shims);
    SumChange(s.bPushed, s'.bPushed, if step.PushB? then step.col else -1, g.cols);
    SumChange(s.drained, s'.drained, if step.Drain? then step.col else -1, g.cols);
  }

  lemma WeightBounded(g: Grid, s: Net)
    requires g.Valid() && Inv(g, s)
    ensures Weight(g, s) <= MaxWeight(g)
  {
    IssuedInTotal(g, s);
    MulMono(s.issued * g.half, g.Total(), g.kTiles);
    SumBound(s.aPushed, g.shims, g.Total() * g.kTiles);
    SumBound(s.bPushed, g.cols, g.Total() * g.kTiles);
    SumBound(s.drained, g.cols, g.Total());
    CoresBounded(g, s);
  }

  lemma RowBounded(g: Grid, s: Net, R: int)
    requires g.Valid() && Inv(g, s) && 0 <= R < ROWS
    ensures Rows(g, s)(R) <= g.cols * (g.Total() * (g.kTiles + 2))
  {
    forall col | 0 <= col < g.cols ensures RowWeight(g, s, R)(col) <= g.Total() * (g.kTiles + 2) {
      CoreBounded(g, s, R, col);
    }
    SumBound(RowWeight(g, s, R), g.cols, g.Total() * (g.kTiles + 2));
  }

  lemma CoresBounded(g: Grid, s: Net)
    requires g.Valid() && Inv(g, s)
    ensures SumTo(Rows(g, s), ROWS) <= ROWS * (g.cols * (g.Total() * (g.kTiles + 2)))
  {
    MulMono(0, g.Total(), g.kTiles + 2);
    MulMono(0, g.cols, g.Total() * (g.kTiles + 2));
    forall R | 0 <= R < ROWS ensures Rows(g, s)(R) <= g.cols * (g.Total() * (g.kTiles + 2)) {
      RowBounded(g, s, R);
    }
    SumBound(Rows(g, s), ROWS, g.cols * (g.Total() * (g.kTiles + 2)));
  }

  lemma CoreBounded(g: Grid, s: Net, R: int, col: int)
    requires g.Valid() && Inv(g, s) && InArray(g, R, col)
    ensures CoreWeight(g, s.core(R, col)) <= g.Total() * (g.kTiles + 2)
  {
    assert CoreOk(g, s, R, col);
    var k := s.core(R, col);
    var tiles := |k.out| + if k.open then 1 else 0;
    MulMono(tiles, g.Total(), g.kTiles + 2);
    assert (|k.out| + 1) * (g.kTiles + 2) == |k.out| * (g.kTiles + 2) + g.kTiles + 2;
  }

  /** No execution is longer than MaxWeight steps; with Progress, every execution that goes on
      while it can ends with the product in memory. */
  lemma {:induction false} RunsEnd(g: Grid, tr: seq<Net>, n: nat)
    requires g.Valid() && Run(g, tr) && n < |tr|
    ensures Weight(g, tr[n]) == Weight(g, tr[0]) + n && n <= MaxWeight(g)
  {
    if n > 0 {
      RunsEnd(g, tr, n - 1);
      RunInv(g, tr, n - 1);
      assert Next(g, tr[n - 1], tr[n - 1 + 1]);
      var step :| Enabled(g, tr[n - 1], step) && tr[n] == Apply(g, tr[n - 1], step);
      StepAdvances(g, tr[n - 1], step);
    }
    RunInv(g, tr, n);
    WeightBounded(g, tr[n]);
  }
}
