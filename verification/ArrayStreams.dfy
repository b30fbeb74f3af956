/**
 The tile streams the issued taps give each core, the core loop over them, and the product
 the drained C tiles hold. Tap contents follow the tiler arguments: row-major tiles inside a
 group, groups of C numbered column-fast.
 */
module ArrayStreams {
  import opened Matrix
  import opened ArraySchedule

  /** An m x k tile of A, a k x n tile of B, a 4m x n block of C, and an m x n tile of C. */
  datatype ATile = ATile(row: int, kt: int)
  datatype BTile = BTile(kt: int, col: int)
  datatype CBlock = CBlock(rowBlock: int, col: int)
  datatype CTile = CTile(row: int, col: int)

  /** One multiply of the core loop. */
  datatype Pair = Pair(a: ATile, b: BTile)

  function Flatten<T>(ss: seq<seq<T>>): seq<T> {
    if ss == [] then [] else Flatten(ss[..|ss| - 1]) + ss[|ss| - 1]
  }

  lemma {:induction false} FlattenAt<T>(ss: seq<seq<T>>, len: nat, f: nat, q: nat)
    requires forall i :: 0 <= i < |ss| ==> |ss[i]| == len
    requires f < |ss| && q < len
    ensures |Flatten(ss)| == |ss| * len
    ensures 0 <= Idx(len, f, q) < |ss| * len && Flatten(ss)[Idx(len, f, q)] == ss[f][q]
  {
    FlattenSize(ss, len);
    IdxBound(len, |ss|, f, q);
    var rest := ss[..|ss| - 1];
    FlattenSize(rest, len);
    assert |ss| * len == (|ss| - 1) * len + len;
    if f < |ss| - 1 {
      FlattenAt(rest, len, f, q);
    }
  }

  lemma {:induction false} FlattenSize<T>(ss: seq<seq<T>>, len: nat)
    requires forall i :: 0 <= i < |ss| ==> |ss[i]| == len
    ensures |Flatten(ss)| == |ss| * len
  {
    if ss != [] {
      FlattenSize(ss[..|ss| - 1], len);
      assert |ss| * len == (|ss| - 1) * len + len;
    }
  }

  /** What core-row slot `sub` of a shim receives from one fill of A tap g: the group's row of
      tiles, K fastest, repeated once per column step. */
  function ATap(c: Config, g: int, sub: nat): seq<ATile>
    requires c.Valid()
  {
    seq(c.ColSteps() * c.KTiles(), q => ATile(g * c.RowsPerShim() + sub, q % c.KTiles()))
  }

  /** One fill of B tap `col`: its column tiles col, col + cols, ..., K fastest, in either
      storage order of B. */
  function BTap(c: Config, col: int): seq<BTile>
    requires c.Valid()
  {
    seq(c.ColSteps() * c.KTiles(), q => BTile(q % c.KTiles(), col + c.cols * (q / c.KTiles())))
  }

  /** One drain of C tap g: its half block's blocks, row-major. */
  function CTap(c: Config, g: int): seq<CBlock>
    requires c.Valid()
  {
    seq(c.HalfBlock() * c.ColSteps(),
        q => CBlock(g / c.cols * c.HalfBlock() + q / c.ColSteps(), g % c.cols + c.cols * (q % c.ColSteps())))
  }

  function AStream(c: Config, fills: seq<int>, sub: nat): seq<ATile>
    requires c.Valid()
  {
    Flatten(seq(|fills|, f requires 0 <= f < |fills| => ATap(c, fills[f], sub)))
  }

  function BStream(c: Config, fills: seq<int>): seq<BTile>
    requires c.Valid()
  {
    Flatten(seq(|fills|, f requires 0 <= f < |fills| => BTap(c, fills[f])))
  }

  function CStream(c: Config, drains: seq<int>): seq<CBlock>
    requires c.Valid()
  {
    Flatten(seq(|drains|, f requires 0 <= f < |drains| => CTap(c, drains[f])))
  }

  /** Position of (row block rb, column step j, K tile kt) in the streams of A and B. */
  function Pos(c: Config, rb: int, j: int, kt: int): int
    requires c.Valid()
  {
    Idx(c.KTiles(), Idx(c.ColSteps(), rb, j), kt)
  }

  /** The same position, as a fill and an offset inside it. */
  lemma PosInFill(c: Config, rb: int, j: int, kt: int)
    requires c.Valid() && 0 <= j < c.ColSteps() && 0 <= kt < c.KTiles()
    ensures Pos(c, rb, j, kt) == Idx(c.ColSteps() * c.KTiles(), rb, Idx(c.KTiles(), j, kt))
    ensures 0 <= Idx(c.KTiles(), j, kt) < c.ColSteps() * c.KTiles()
    ensures Idx(c.KTiles(), j, kt) % c.KTiles() == kt && Idx(c.KTiles(), j, kt) / c.KTiles() == j
  {
    var J, L := c.ColSteps(), c.KTiles();
    IdxBound(L, J, j, kt);
    IdxDivMod(L, j, kt);
    assert (rb * J + j) * L + kt == rb * (J * L) + (j * L + kt);
  }

  lemma SameLength(c: Config, rb: nat, rows: nat)
    requires c.Valid() && rb < rows
    ensures rows * (c.ColSteps() * c.KTiles()) == rows * c.ColSteps() * c.KTiles()
  {
  }

  /** Core row R receives exactly the A tiles of its own rows, in core order. */
  lemma AStreamAt(c: Config, R: nat, rb: nat, j: nat, kt: nat)
    requires c.Valid() && R < ROWS && rb < c.RowBlocks() && j < c.ColSteps() && kt < c.KTiles()
    ensures var s := AStream(c, AFills(c, R / c.RowsPerShim(), c.RowBlocks()), R % c.RowsPerShim());
            && |s| == c.RowBlocks() * c.ColSteps() * c.KTiles()
            && 0 <= Pos(c, rb, j, kt) < |s| && s[Pos(c, rb, j, kt)] == ATile(rb * ROWS + R, kt)
  {
    var fills := AFills(c, R / c.RowsPerShim(), c.RowBlocks());
    var sub := R % c.RowsPerShim();
    var ss := seq(|fills|, f requires 0 <= f < |fills| => ATap(c, fills[f], sub));
    PosInFill(c, rb, j, kt);
    FlattenAt(ss, c.ColSteps() * c.KTiles(), rb, Idx(c.KTiles(), j, kt));
    SameLength(c, rb, c.RowBlocks());
    Sizes(c);
    RowOfShim(rb, c.Shims(), c.RowsPerShim(), R);
  }

  lemma RowOfShim(rb: int, shims: nat, per: nat, R: nat)
    requires shims * per == ROWS && 0 < per
    ensures Idx(shims, rb, R / per) * per + R % per == rb * ROWS + R
  {
    assert R / per * per + R % per == R;
    assert (rb * shims + R / per) * per == rb * (shims * per) + R / per * per;
  }

  /** Column col receives the B tiles of its own columns, in the same order. */
  lemma BStreamAt(c: Config, col: nat, rb: nat, j: nat, kt: nat)
    requires c.Valid() && col < c.cols && rb < c.RowBlocks() && j < c.ColSteps() && kt < c.KTiles()
    ensures var s := BStream(c, BFills(col, c.RowBlocks()));
            && |s| == c.RowBlocks() * c.ColSteps() * c.KTiles()
            && 0 <= Pos(c, rb, j, kt) < |s| && s[Pos(c, rb, j, kt)] == BTile(kt, col + c.cols * j)
  {
    var fills := BFills(col, c.RowBlocks());
    var ss := seq(|fills|, f requires 0 <= f < |fills| => BTap(c, fills[f]));
    PosInFill(c, rb, j, kt);
    FlattenAt(ss, c.ColSteps() * c.KTiles(), rb, Idx(c.KTiles(), j, kt));
    SameLength(c, rb, c.RowBlocks());
  }

  /** The p-th block drained from column col is row block p / J, column step p % J. */
  lemma CStreamAt(c: Config, col: nat, rb: nat, j: nat)
    requires c.Valid() && col < c.cols && rb < c.RowBlocks() && j < c.ColSteps()
    ensures var s := CStream(c, Drains(c, col, c.Halves()));
            && |s| == c.RowBlocks() * c.ColSteps()
            && 0 <= Idx(c.ColSteps(), rb, j) < |s| && s[Idx(c.ColSteps(), rb, j)] == CBlock(rb, col + c.cols * j)
  {
    var drains := Drains(c, col, c.Halves());
    var ss := seq(|drains|, f requires 0 <= f < |drains| => CTap(c, drains[f]));
    var hb, J := c.HalfBlock(), c.ColSteps();
    Sizes(c);
    HalfOf(rb, hb, c.Halves());
    var g, r := rb / hb, rb % hb;
    BlockInHalf(J, hb, c.Halves(), g, r, j);
    FlattenAt(ss, hb * J, g, Idx(J, r, j));
    IdxDivMod(c.cols, g, col);
  }

  lemma BlockInHalf(J: nat, hb: nat, halves: nat, g: int, r: int, j: int)
    requires 0 <= r < hb && 0 <= j < J
    ensures 0 <= Idx(J, r, j) < hb * J && Idx(J, r, j) / J == r && Idx(J, r, j) % J == j
    ensures Idx(J, g * hb + r, j) == Idx(hb * J, g, Idx(J, r, j))
    ensures halves * (hb * J) == halves * hb * J
  {
    IdxBound(J, hb, r, j);
    IdxDivMod(J, r, j);
    BlockFlat(J, hb, halves, g, r, j);
  }

  lemma BlockFlat(J: int, hb: int, halves: int, g: int, r: int, j: int)
    ensures Idx(J, g * hb + r, j) == Idx(hb * J, g, Idx(J, r, j))
    ensures halves * (hb * J) == halves * hb * J
  {
    assert g * hb * J == g * (hb * J) by { MulAssociates(g, hb, J); }
    assert (g * hb + r) * J == g * hb * J + r * J;
    MulAssociates(halves, hb, J);
  }

  lemma MulAssociates(x: int, y: int, z: int)
    ensures x * y * z == x * (y * z)
  {
  }

  lemma HalfOf(rb: nat, hb: nat, halves: nat)
    requires 0 < hb && rb < halves * hb
    ensures rb / hb < halves && rb / hb * hb + rb % hb == rb
  {
    if rb / hb >= halves { MulMono(halves, rb / hb, hb); }
  }

  /** Output tile p is the list of the p-th K tile pairs of the two streams. */
  ghost predicate IsCoreOutput(c: Config, inA: seq<ATile>, inB: seq<BTile>, outC: seq<seq<Pair>>)
    requires c.Valid() && |inA| == |inB|
  {
    && |outC| == c.TilesPerCore()
    && (forall p :: 0 <= p < |outC| ==> |outC[p]| == c.KTiles())
    && forall p, kt :: 0 <= p < |outC| && 0 <= kt < c.KTiles() ==>
         && 0 <= Idx(c.KTiles(), p, kt) < |inA|
         && outC[p][kt] == Pair(inA[Idx(c.KTiles(), p, kt)], inB[Idx(c.KTiles(), p, kt)])
  }

  /** core_fn: acquire an output tile, zero it, multiply K tile pairs into it, release. */
  method CoreFn(c: Config, inA: seq<ATile>, inB: seq<BTile>) returns (outC: seq<seq<Pair>>)
    requires c.Valid() && |inA| == |inB| == c.TilesPerCore() * c.KTiles()
    ensures IsCoreOutput(c, inA, inB, outC)
  {
    outC := [];
    var a, b := 0, 0;
    for p := 0 to c.TilesPerCore()
      invariant |outC| == p && a == b == p * c.KTiles()
      invariant forall x :: 0 <= x < p ==> |outC[x]| == c.KTiles()
      invariant forall x, kt :: 0 <= x < p && 0 <= kt < c.KTiles() ==>
                  && 0 <= Idx(c.KTiles(), x, kt) < |inA|
                  && outC[x][kt] == Pair(inA[Idx(c.KTiles(), x, kt)], inB[Idx(c.KTiles(), x, kt)])
    {
      var elemOut: seq<Pair> := [];
      MulMono(p + 1, c.TilesPerCore(), c.KTiles());
      assert (p + 1) * c.KTiles() == p * c.KTiles() + c.KTiles();
      for i := 0 to c.KTiles()
        invariant |elemOut| == i && a == b == p * c.KTiles() + i
        invariant forall kt :: 0 <= kt < i ==>
                    && 0 <= Idx(c.KTiles(), p, kt) < |inA|
                    && elemOut[kt] == Pair(inA[Idx(c.KTiles(), p, kt)], inB[Idx(c.KTiles(), p, kt)])
      {
        elemOut := elemOut + [Pair(inA[a], inB[b])];
        a, b := a + 1, b + 1;
      }
      outC := outC + [elemOut];
    }
  }

  /** The K tile pairs of one C tile, in accumulation order. */
  function Pairs(t: CTile, kTiles: nat): seq<Pair> {
    seq(kTiles, kt => Pair(ATile(t.row, kt), BTile(kt, t.col)))
  }

  /** Element (i, j) of one tile product: bt holds B transposed. */
  function PairDot(c: Config, a: Mat, bt: Mat, p: Pair, i: int, j: int): int {
    Dot((x: int, kk: int) => a(p.a.row * c.m + x, p.a.kt * c.k + kk), (y: int, kk: int) => bt(p.b.col * c.n + y, p.b.kt * c.k + kk),
        i, j, 0, c.k)
  }

  /** Element (i, j) of an accumulated output tile. */
  function TileValue(c: Config, a: Mat, bt: Mat, ps: seq<Pair>, i: int, j: int): int {
    if ps == [] then 0 else TileValue(c, a, bt, ps[..|ps| - 1], i, j) + PairDot(c, a, bt, ps[|ps| - 1], i, j)
  }

  /** The kt-th pair of C tile t contributes columns [kt * k, kt * k + k) of the product. */
  lemma MatchedPair(c: Config, a: Mat, bt: Mat, t: CTile, kt: nat, i: int, j: int)
    ensures PairDot(c, a, bt, Pair(ATile(t.row, kt), BTile(kt, t.col)), i, j)
         == Dot(a, bt, t.row * c.m + i, t.col * c.n + j, kt * c.k, kt * c.k + c.k)
  {
    var p := Pair(ATile(t.row, kt), BTile(kt, t.col));
    DotShift((x: int, kk: int) => a(p.a.row * c.m + x, p.a.kt * c.k + kk),
             (y: int, kk: int) => bt(p.b.col * c.n + y, p.b.kt * c.k + kk),
             i, j, a, bt, t.row * c.m + i, t.col * c.n + j, kt * c.k, c.k);
  }

  /** A core's accumulated tile is that tile of A @ B. */
  lemma {:induction false} PairsSum(c: Config, a: Mat, bt: Mat, t: CTile, kTiles: nat, i: int, j: int)
    ensures TileValue(c, a, bt, Pairs(t, kTiles), i, j) == Dot(a, bt, t.row * c.m + i, t.col * c.n + j, 0, kTiles * c.k)
  {
    var ps := Pairs(t, kTiles);
    if kTiles > 0 {
      PairsSum(c, a, bt, t, kTiles - 1, i, j);
      assert ps[..kTiles - 1] == Pairs(t, kTiles - 1);
      MatchedPair(c, a, bt, t, kTiles - 1, i, j);
      assert (kTiles - 1) * c.k + c.k == kTiles * c.k;
      MulMono(0, kTiles - 1, c.k);
      DotSplit(a, bt, t.row * c.m + i, t.col * c.n + j, 0, (kTiles - 1) * c.k, kTiles * c.k);
    }
  }

  /** The C tile core (R, col) computes as its p-th. */
  function TileOf(c: Config, R: int, col: int, p: int): CTile
    requires c.Valid()
  {
    CTile(p / c.ColSteps() * ROWS + R, col + c.cols * (p % c.ColSteps()))
  }

  function CoreA(c: Config, R: nat): seq<ATile>
    requires c.Valid()
  {
    AStream(c, AFills(c, R / c.RowsPerShim(), c.RowBlocks()), R % c.RowsPerShim())
  }

  function CoreB(c: Config, col: nat): seq<BTile>
    requires c.Valid()
  {
    BStream(c, BFills(col, c.RowBlocks()))
  }

  function ColC(c: Config, col: nat): seq<CBlock>
    requires c.Valid()
  {
    CStream(c, Drains(c, col, c.Halves()))
  }

  /** The host sequence issues exactly these streams, to every shim and column. */
  lemma IssuedStreams(c: Config, q: Issued, R: nat, col: nat)
    requires c.Valid() && R < ROWS && col < c.cols && IssuedUpTo(c, q, c.RowBlocks(), c.Halves())
    ensures R / c.RowsPerShim() < |q.aFills| && AStream(c, q.aFills[R / c.RowsPerShim()], R % c.RowsPerShim()) == CoreA(c, R)
    ensures BStream(c, q.bFills[col]) == CoreB(c, col) && CStream(c, q.drains[col]) == ColC(c, col)
  {
    assert c.Shims() * c.RowsPerShim() == ROWS && c.Shims() <= c.cols by { Sizes(c); }
    HalfOf(R, c.RowsPerShim(), c.Shims());
    assert ColumnIssued(c, q, R / c.RowsPerShim(), c.RowBlocks(), c.Halves());
    assert ColumnIssued(c, q, col, c.RowBlocks(), c.Halves());
  }

  lemma OrderDigits(p: nat, J: nat, blocks: nat)
    requires 0 < J && (p < blocks * J || p / J < blocks)
    ensures 0 <= p / J < blocks && 0 <= p % J < J && Idx(J, p / J, p % J) == p
  {
    if p < blocks * J { HalfOf(p, J, blocks); }
  }

  /** The streams match: item (p, kt) of core (R, col) is the kt-th pair of its p-th C tile,
      and the p-th block drained from the column is the one holding that tile. */
  lemma StreamsMatch(c: Config, R: nat, col: nat, p: nat, kt: nat)
    requires c.Valid() && R < ROWS && col < c.cols && p < c.RowBlocks() * c.ColSteps() && kt < c.KTiles()
    ensures |CoreA(c, R)| == |CoreB(c, col)| == c.RowBlocks() * c.ColSteps() * c.KTiles()
    ensures 0 <= Idx(c.KTiles(), p, kt) < c.RowBlocks() * c.ColSteps() * c.KTiles()
    ensures Pair(CoreA(c, R)[Idx(c.KTiles(), p, kt)], CoreB(c, col)[Idx(c.KTiles(), p, kt)])
         == Pairs(TileOf(c, R, col, p), c.KTiles())[kt]
    ensures |ColC(c, col)| == c.RowBlocks() * c.ColSteps()
    ensures ColC(c, col)[p] == CBlock(p / c.ColSteps(), TileOf(c, R, col, p).col)
  {
    assert 0 < c.ColSteps() by { Sizes(c); }
    var rb, j := p / c.ColSteps(), p % c.ColSteps();
    OrderDigits(p, c.ColSteps(), c.RowBlocks());
    AStreamAt(c, R, rb, j, kt);
    BStreamAt(c, col, rb, j, kt);
    CStreamAt(c, col, rb, j);
  }

  /** Position of a C tile in its core's order. */
  function OrderOf(c: Config, t: CTile): int
    requires c.Valid()
  {
    Idx(c.ColSteps(), t.row / ROWS, t.col / c.cols)
  }

  predicate InGrid(c: Config, t: CTile)
    requires c.Valid()
  {
    0 <= t.row < c.RowBlocks() * ROWS && 0 <= t.col < c.ColSteps() * c.cols
  }

  /** Every C tile belongs to exactly one core at exactly one position. */
  lemma TileOwner(c: Config, t: CTile, R: nat, col: nat, p: nat)
    requires c.Valid() && InGrid(c, t) && R < ROWS && col < c.cols && p < c.RowBlocks() * c.ColSteps()
    ensures TileOf(c, R, col, p) == t <==> R == t.row % ROWS && col == t.col % c.cols && p == OrderOf(c, t)
    ensures 0 <= OrderOf(c, t) < c.RowBlocks() * c.ColSteps()
  {
    Digits2(c.ColSteps(), c.cols, c.RowBlocks(), R, col, p, t.row, t.col);
  }

  lemma Digits2(J: nat, cols: nat, blocks: nat, R: nat, col: nat, p: nat, row: int, tcol: int)
    requires 0 < J && R < ROWS && col < cols && 0 <= row < blocks * ROWS && 0 <= tcol < J * cols
    ensures (p / J * ROWS + R == row && col + cols * (p % J) == tcol)
        <==> (R == row % ROWS && col == tcol % cols && p == Idx(J, row / ROWS, tcol / cols))
    ensures 0 <= Idx(J, row / ROWS, tcol / cols) < blocks * J
  {
    HalfOf(tcol, cols, J);
    IdxBound(J, blocks, row / ROWS, tcol / cols);
    if p / J * ROWS + R == row && col + cols * (p % J) == tcol {
      DigitsOfTile(J, cols, R, col, p / J, p % J);
      OrderDigits(p, J, p / J + 1);
    }
    if p == Idx(J, row / ROWS, tcol / cols) {
      IdxDivMod(J, row / ROWS, tcol / cols);
      assert cols * (tcol / cols) == tcol / cols * cols;
    }
  }

  lemma DigitsOfTile(J: nat, cols: nat, R: nat, col: nat, u: nat, v: nat)
    requires R < ROWS && col < cols
    ensures (u * ROWS + R) / ROWS == u && (u * ROWS + R) % ROWS == R
    ensures (col + cols * v) / cols == v && (col + cols * v) % cols == col
  {
    assert col + cols * v == Idx(cols, v, col);
    IdxDivMod(cols, v, col);
  }

  lemma TileInGrid(c: Config, R: nat, col: nat, p: nat)
    requires c.Valid() && R < ROWS && col < c.cols && p < c.RowBlocks() * c.ColSteps()
    ensures InGrid(c, TileOf(c, R, col, p))
  {
    Sizes(c);
    Digits2Range(c.ColSteps(), c.cols, c.RowBlocks(), R, col, p);
  }

  lemma Digits2Range(J: nat, cols: nat, blocks: nat, R: nat, col: nat, p: nat)
    requires 0 < J && R < ROWS && col < cols && p < blocks * J
    ensures 0 <= p / J * ROWS + R < blocks * ROWS && 0 <= col + cols * (p % J) < J * cols
  {
    OrderDigits(p, J, blocks);
    var v := p % J;
    IdxBound(cols, J, v, col);
    assert cols * v == v * cols;
  }
}
