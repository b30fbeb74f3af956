/**
 The 4 x cols array: its sizes, and the DMA fills and drains the host sequence issues, as
 indices of taps.
 */
module ArraySchedule {
  import opened Matrix

  const ROWS := 4

  datatype Config = Config(M: nat, K: nat, N: nat, m: nat, k: nat, n: nat, cols: nat, tbMax: nat) {
    predicate Valid() {
      && 0 < M && 0 < K && 0 < N && 0 < m && 0 < k && 0 < n
      && cols in {1, 2, 4, 8} && 0 < tbMax && tbMax % 2 == 0
      && M % (m * ROWS) == 0 && K % k == 0 && N % (n * cols) == 0
      && RowBlocks() % HalfBlock() == 0
    }

    /** Blocks of 4m rows. */
    function RowBlocks(): nat requires 0 < m { M / (m * ROWS) }
    /** Column tiles per core. */
    function ColSteps(): nat requires 0 < n && 0 < cols { N / (n * cols) }
    function KTiles(): nat requires 0 < k { K / k }
    /** tb_n_rows: row blocks per ping or pong. */
    function HalfBlock(): nat { tbMax / 2 }
    function Halves(): nat requires 0 < m && 0 < HalfBlock() { RowBlocks() / HalfBlock() }
    /** n_shim_mem_A and n_A_tiles_per_shim. */
    function Shims(): nat { if cols > ROWS then ROWS else cols }
    function RowsPerShim(): nat requires 0 < cols { if cols < 4 then ROWS / cols else 1 }
    /** n_tiles_per_core, as the code computes it. */
    function TilesPerCore(): nat
      requires 0 < m && 0 < n && 0 < cols
    {
      MulMono(0, M / m, N / n);
      (M / m) * (N / n) / (ROWS * cols)
    }
  }

  lemma ExactQuotient(x: int, d: int)
    requires 0 < d && x % d == 0
    ensures x == x / d * d
  {
  }

  lemma Sizes(c: Config)
    requires c.Valid()
    ensures c.M == c.RowBlocks() * ROWS * c.m && c.M / c.m == c.RowBlocks() * ROWS
    ensures c.N == c.ColSteps() * c.cols * c.n && c.N / c.n == c.ColSteps() * c.cols
    ensures c.K == c.KTiles() * c.k && c.Halves() * c.HalfBlock() == c.RowBlocks()
    ensures c.Shims() * c.RowsPerShim() == ROWS
    ensures 0 < c.RowBlocks() && 0 < c.ColSteps() && 0 < c.KTiles()
  {
    ExactQuotient(c.M, c.m * ROWS);
    ExactQuotient(c.N, c.n * c.cols);
    ExactQuotient(c.K, c.k);
    ExactQuotient(c.RowBlocks(), c.HalfBlock());
    var rb, cs := c.RowBlocks(), c.ColSteps();
    assert rb * (c.m * ROWS) == rb * ROWS * c.m;
    assert cs * (c.n * c.cols) == cs * c.cols * c.n;
    IdxDivMod(c.m, rb * ROWS, 0);
    IdxDivMod(c.n, cs * c.cols, 0);
  }

  /** Every core computes exactly its share of the C tiles. */
  lemma TilesPerCoreExact(c: Config)
    requires c.Valid()
    ensures c.TilesPerCore() == c.RowBlocks() * c.ColSteps()
  {
    Sizes(c);
    var rb, cs := c.RowBlocks(), c.ColSteps();
    assert (rb * ROWS) * (cs * c.cols) == (rb * cs) * (ROWS * c.cols);
    IdxDivMod(ROWS * c.cols, rb * cs, 0);
  }

  /** Tap indices issued so far: per A shim, per B column, per C column. */
  datatype Issued = Issued(aFills: seq<seq<int>>, bFills: seq<seq<int>>, drains: seq<seq<int>>)

  function AFills(c: Config, shim: nat, rows: nat): seq<int> {
    seq(rows, rb => Idx(c.Shims(), rb, shim))
  }

  function BFills(col: nat, rows: nat): seq<int> {
    seq(rows, rb => col)
  }

  function Drains(c: Config, col: nat, halves: nat): seq<int> {
    seq(halves, g => Idx(c.cols, g, col))
  }

  predicate Shaped(c: Config, q: Issued) {
    |q.aFills| == c.Shims() && |q.bFills| == |q.drains| == c.cols
  }

  /** Column col holds the fills of `rows` row blocks and `halves` drains; its A shim, when it
      has one, likewise. */
  predicate ColumnIssued(c: Config, q: Issued, col: nat, rows: nat, halves: nat)
    requires Shaped(c, q) && col < c.cols
  {
    && (col < c.Shims() ==> q.aFills[col] == AFills(c, col, rows))
    && q.bFills[col] == BFills(col, rows)
    && q.drains[col] == Drains(c, col, halves)
  }

  predicate IssuedUpTo(c: Config, q: Issued, rows: nat, halves: nat) {
    Shaped(c, q) && forall col :: 0 <= col < c.cols ==> ColumnIssued(c, q, col, rows, halves)
  }

  /** The tap index is reduced modulo the number of A taps, which never changes it. */
  lemma TapIndex(blocks: nat, shims: nat, rb: nat, col: nat)
    requires rb < blocks && 0 < shims
    ensures 0 < blocks * shims
    ensures col < shims ==> Idx(shims, rb, col) % (blocks * shims) == Idx(shims, rb, col)
  {
    IdxBound(shims, blocks, rb, 0);
    if col < shims {
      IdxBound(shims, blocks, rb, col);
      SmallMod(Idx(shims, rb, col), blocks * shims);
    }
  }

  lemma SmallMod(x: int, y: int)
    requires 0 <= x < y
    ensures x % y == x
  {
  }

  /** The fills of one column for one half block. */
  method FillColumn(c: Config, rowBase: nat, count: nat, col: nat, aFill: seq<int>, bFill: seq<int>)
    returns (a: seq<int>, b: seq<int>)
    requires c.Valid() && col < c.cols && rowBase + count <= c.RowBlocks()
    requires col < ROWS ==> aFill == AFills(c, col, rowBase)
    requires bFill == BFills(col, rowBase)
    ensures col < ROWS ==> a == AFills(c, col, rowBase + count)
    ensures b == BFills(col, rowBase + count)
  {
    a, b := aFill, bFill;
    var shims, blocks := c.Shims(), c.RowBlocks();
    for tileRow := 0 to count
      invariant col < ROWS ==> a == AFills(c, col, rowBase + tileRow)
      invariant b == BFills(col, rowBase + tileRow)
    {
      TapIndex(blocks, shims, rowBase + tileRow, col);
      var tileOffset := ((rowBase + tileRow) * shims + col) % (blocks * shims);
      if col < ROWS { a := a + [tileOffset]; }
      b := b + [col];
    }
  }

  /** One pass of the ping-pong loop: a drain and the fills of every column. */
  method IssueHalf(c: Config, q0: Issued, rowBase: nat, count: nat, h: nat) returns (q: Issued)
    requires c.Valid() && rowBase + count <= c.RowBlocks() && IssuedUpTo(c, q0, rowBase, h)
    ensures IssuedUpTo(c, q, rowBase + count, h + 1)
  {
    q := q0;
    var cIndex := h * c.cols;
    ghost var rows1, h1 := rowBase + count, h + 1;
    for col := 0 to c.cols
      invariant Shaped(c, q) && cIndex == Idx(c.cols, h, col)
      invariant forall x :: 0 <= x < col ==> ColumnIssued(c, q, x, rows1, h1)
      invariant forall x :: col <= x < c.cols ==> ColumnIssued(c, q, x, rowBase, h)
    {
      assert ColumnIssued(c, q, col, rowBase, h);
      var drain := q.drains[col] + [cIndex];
      cIndex := cIndex + 1;
      var a, b := FillColumn(c, rowBase, count, col, if col < ROWS then q.aFills[col] else [], q.bFills[col]);
      assert drain == Drains(c, col, h1);
      ghost var before := q;
      q := PutColumn(q, col, a, b, drain);
      forall x | 0 <= x < c.cols && x != col
        ensures ColumnIssued(c, q, x, rowBase, h) == ColumnIssued(c, before, x, rowBase, h)
        ensures ColumnIssued(c, q, x, rows1, h1) == ColumnIssued(c, before, x, rows1, h1)
      {
        OtherColumn(c, before, col, a, b, drain, x, rowBase, h);
        OtherColumn(c, before, col, a, b, drain, x, rows1, h1);
      }
    }
  }

  function PutColumn(q: Issued, col: nat, a: seq<int>, b: seq<int>, drain: seq<int>): Issued
    requires col < |q.bFills| == |q.drains| && (col < ROWS ==> col < |q.aFills|)
  {
    Issued(if col < ROWS then q.aFills[col := a] else q.aFills, q.bFills[col := b], q.drains[col := drain])
  }

  lemma OtherColumn(c: Config, q: Issued, col: nat, a: seq<int>, b: seq<int>, drain: seq<int>, x: nat, rows: nat, halves: nat)
    requires Shaped(c, q) && col < c.cols && x < c.cols && x != col && (col < ROWS ==> col < |q.aFills|)
    ensures ColumnIssued(c, PutColumn(q, col, a, b, drain), x, rows, halves) == ColumnIssued(c, q, x, rows, halves)
  {
  }

  /** The host sequence: transfer blocks, ping and pong, until the C taps run out. */
  method Sequence(c: Config) returns (q: Issued)
    requires c.Valid()
    ensures IssuedUpTo(c, q, c.RowBlocks(), c.Halves())
  {
    q := Issued(seq(c.Shims(), i => []), seq(c.cols, i => []), seq(c.cols, i => []));
    var blocks := (c.RowBlocks() + c.tbMax - 1) / c.tbMax;
    Sizes(c);
    BlocksCover(c, blocks);
    ghost var h := 0;
    var cIndex := 0;
    for tb := 0 to blocks
      invariant h == Clamp(2 * tb, c.Halves()) && cIndex == h * c.cols
      invariant IssuedUpTo(c, q, h * c.HalfBlock(), h)
    {
      for pingpong := 0 to 2
        invariant h == Clamp(2 * tb + pingpong, c.Halves()) && cIndex == h * c.cols
        invariant IssuedUpTo(c, q, h * c.HalfBlock(), h)
      {
        CIndexEnd(c, h);
        if cIndex < c.Halves() * c.cols {
          var rowBase := tb * c.tbMax + pingpong * c.tbMax / 2;
          HalfFits(c, tb, pingpong);
          var left := c.RowBlocks() - rowBase;
          var count := if c.HalfBlock() < left then c.HalfBlock() else left;
          q := IssueHalf(c, q, rowBase, count, cIndex / c.cols);
          cIndex := cIndex + c.cols;
          h := h + 1;
        }
      }
    }
  }

  function Clamp(x: nat, y: nat): nat {
    if x < y then x else y
  }

  lemma CIndexEnd(c: Config, h: nat)
    requires c.Valid() && h <= c.Halves()
    ensures h * c.cols < c.Halves() * c.cols <==> h < c.Halves()
    ensures h * c.cols / c.cols == h && (h + 1) * c.cols == h * c.cols + c.cols
  {
    if h < c.Halves() { IdxOrder(c.cols, h, 0, c.Halves(), 0); }
    IdxDivMod(c.cols, h, 0);
  }

  /** Row base and size of half 2 tb + pingpong. */
  lemma HalfFits(c: Config, tb: nat, pp: nat)
    requires c.Valid() && pp < 2 && 2 * tb + pp < c.Halves()
    ensures tb * c.tbMax + pp * c.tbMax / 2 == (2 * tb + pp) * c.HalfBlock()
    ensures (2 * tb + pp + 1) * c.HalfBlock() == (2 * tb + pp) * c.HalfBlock() + c.HalfBlock() <= c.RowBlocks()
  {
    Sizes(c);
    MulMono(2 * tb + pp + 1, c.Halves(), c.HalfBlock());
    assert tb * c.tbMax == (2 * tb) * c.HalfBlock();
  }

  lemma BlocksCover(c: Config, blocks: nat)
    requires c.Valid() && blocks == (c.RowBlocks() + c.tbMax - 1) / c.tbMax
    ensures 2 * blocks >= c.Halves()
  {
    Sizes(c);
    var hb := c.HalfBlock();
    assert blocks * c.tbMax >= c.RowBlocks();
    assert blocks * c.tbMax == (2 * blocks) * hb;
    if 2 * blocks < c.Halves() { IdxOrder(hb, 2 * blocks, 0, c.Halves(), 0); }
  }
}
