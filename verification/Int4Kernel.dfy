/**
 The int8 x int4 kernel: byte-stepped loads of 4x16x16 micro-tiles, B as signed nibbles two
 to a byte, and the pipeline pack, multiply, unpack.
 */
module Int4Kernel {
  import opened Matrix
  import opened Buffers
  import opened StreamDims
  import opened TileKernel
  import opened MicroTiles
  import opened Nibbles
  import opened I2S

  /** aie2p micro-tile sizes: R x S of A, S x T of B, R x T of C. */
  const R := 4
  const S := 16
  const T := 16
  const A_TILE := 64
  const B_TILE := 256
  const B_TILE_BYTES := 128
  const C_TILE := 64

  /** `mac` on an accumulator tile with `len` columns of A and rows of B. */
  function MacTile(acc: seq<int>, a0: Mat, b0: Mat, len: nat): seq<int>
    requires |acc| == C_TILE
  {
    seq<int>(C_TILE, e requires 0 <= e < C_TILE => MacLane(acc[e], a0, b0, e / T, e % T, len))
  }

  function MacLane(x: int, a0: Mat, b0: Mat, r: int, c: int, len: nat): int {
    Wrap32(x + Dot(a0, Transposed(b0), r, c, 0, len))
  }

  /** Element (i, j) of a @ b over the first `hi` columns of a, as int32. */
  function Cell(a: Mat, b: Mat, i: int, j: int, hi: nat): int {
    Wrap32(Dot(a, Transposed(b), i, j, 0, hi))
  }

  /** An accumulator tile holding the outputs from (row, col) on over the first `hi` columns. */
  ghost predicate AccTile(acc: seq<int>, a: Mat, b: Mat, row: nat, col: nat, hi: nat) {
    && |acc| == C_TILE
    && forall e :: 0 <= e < C_TILE ==> acc[e] == Cell(a, b, row + e / T, col + e % T, hi)
  }

  /** What the loads of one step must deliver: `len` columns of A from (row, lo) and `len` rows
      of B from (lo, col). */
  ghost predicate Loaded(a0: Mat, b0: Mat, a: Mat, b: Mat, row: nat, lo: nat, col: nat, len: nat) {
    BlockOf(a0, a, row, lo, R, len) && BlockOf(b0, b, lo, col, len, T)
  }

  /** `part` is the rows x cols block of `whole` at (top, left). */
  ghost predicate BlockOf(part: Mat, whole: Mat, top: nat, left: nat, rows: nat, cols: nat) {
    forall p, q :: 0 <= p < rows && 0 <= q < cols ==> part(p, q) == whole(top + p, left + q)
  }

  /** The product of the loaded blocks is `len` columns of the product of the whole. */
  lemma BlockDot(a0: Mat, b0: Mat, a: Mat, b: Mat, row: nat, lo: nat, col: nat, len: nat, r: nat, c: nat)
    requires Loaded(a0, b0, a, b, row, lo, col, len) && r < R && c < T
    ensures Dot(a0, Transposed(b0), r, c, 0, len) == Dot(a, Transposed(b), row + r, col + c, lo, lo + len)
  {
    DotShift(a0, Transposed(b0), r, c, a, Transposed(b), row + r, col + c, lo, len);
  }

  /** One lane of one mac moves its element `len` columns on. */
  lemma LaneAdvances(x: int, a0: Mat, b0: Mat, a: Mat, b: Mat, row: nat, lo: nat, col: nat, len: nat, r: nat, c: nat)
    requires Loaded(a0, b0, a, b, row, lo, col, len) && r < R && c < T && x == Cell(a, b, row + r, col + c, lo)
    ensures MacLane(x, a0, b0, r, c, len) == Cell(a, b, row + r, col + c, lo + len)
  {
    BlockDot(a0, b0, a, b, row, lo, col, len, r, c);
    DotWrap(x, a, Transposed(b), row + r, col + c, lo, lo + len);
  }

  /** Adding, in int32, the columns [mid, hi) to the wrapped sum of the columns before. */
  lemma DotWrap(x: int, a: Mat, b: Mat, i: int, j: int, mid: nat, hi: nat)
    requires mid <= hi && x == Wrap32(Dot(a, b, i, j, 0, mid))
    ensures Wrap32(x + Dot(a, b, i, j, mid, hi)) == Wrap32(Dot(a, b, i, j, 0, hi))
  {
    DotSplit(a, b, i, j, 0, mid, hi);
    WrapAdd(Dot(a, b, i, j, 0, mid), Dot(a, b, i, j, mid, hi));
  }

  lemma MacAdvances(acc: seq<int>, a0: Mat, b0: Mat, a: Mat, b: Mat, row: nat, lo: nat, col: nat, len: nat)
    requires AccTile(acc, a, b, row, col, lo) && Loaded(a0, b0, a, b, row, lo, col, len)
    ensures AccTile(MacTile(acc, a0, b0, len), a, b, row, col, lo + len)
  {
    forall e | 0 <= e < C_TILE
      ensures MacTile(acc, a0, b0, len)[e] == Cell(a, b, row + e / T, col + e % T, lo + len)
    {
      LaneAdvances(acc[e], a0, b0, a, b, row, lo, col, len, e / T, e % T);
    }
  }

  /** The operands as the packed buffers hold them: `b` is the lane sequence of the bytes. */
  datatype Operands = Operands(a: seq<int>, b: seq<int>, rowA: nat, colA: nat, colB: nat) {
    predicate Valid() {
      |a| == rowA * colA * A_TILE && |b| == colA * colB * B_TILE
    }

    function A(): Mat { MicroView(a, colA * S, R, S) }

    function B(): Mat { MicroView(b, colB * T, S, T) }

    /** What the kernel must put out: the int32 product over all columns. */
    function Product(): Mat {
      (i: int, j: int) => Cell(A(), B(), i, j, colA * S)
    }

    /** The pointers' micro-tiles lie inside the buffers. */
    lemma LoadsInside(z: nat, i: nat, j: nat)
      requires Valid() && z < rowA && i < colA && j < colB
      ensures 0 <= Idx(colA, z, i) && Idx(colA, z, i) * A_TILE + A_TILE <= |a|
      ensures 0 <= Idx(colB, i, j) && Idx(colB, i, j) * B_TILE + B_TILE <= |b|
    {
      IdxBound(colA, rowA, z, i);
      IdxBound(colB, colA, i, j);
      MulMono(Idx(colA, z, i) + 1, rowA * colA, A_TILE);
      MulMono(Idx(colB, i, j) + 1, colA * colB, B_TILE);
    }

    /** A load from the stepped A offset is micro-tile (z, i); one from twice the stepped byte
        offset of B is micro-tile (i, j). */
    lemma LoadsRight(z: nat, i: nat, j: nat, pA: nat, pB: nat)
      requires Valid() && z < rowA && i < colA && j < colB
      requires pA == Idx(colA, z, i) * A_TILE && pB == Idx(colB, i, j) * B_TILE_BYTES
      ensures pA + A_TILE <= |a| && 2 * (pB + B_TILE_BYTES) <= |b|
      ensures Loaded(View(a[pA..pA + A_TILE], S), View(b[2 * pB..2 * pB + B_TILE], T), A(), B(),
                     z * R, i * S, j * T, S)
    {
      LoadsInside(z, i, j);
      LoadedTile(a, colA, R, S, z, i, pA, a[pA..pA + A_TILE]);
      LoadedTile(b, colB, S, T, i, j, 2 * pB, b[2 * pB..2 * pB + B_TILE]);
    }
  }

  lemma LoadedTile(buf: seq<int>, w: nat, a: nat, b: nat, x: nat, y: nat, from: nat, tile: seq<int>)
    requires 0 < a && 0 < b && y < w && from == Idx(w, x, y) * (a * b)
    requires from + a * b <= |buf| && tile == buf[from..from + a * b]
    ensures BlockOf(View(tile, b), MicroView(buf, w * b, a, b), x * a, y * b, a, b)
  {
    forall p, q | 0 <= p < a && 0 <= q < b
      ensures View(tile, b)(p, q) == MicroView(buf, w * b, a, b)(x * a + p, y * b + q)
    {
      LoadCell(buf, w, a, b, x, y, p, q, from);
    }
  }

  lemma LoadCell(buf: seq<int>, w: nat, a: nat, b: nat, x: nat, y: nat, p: nat, q: nat, from: nat)
    requires p < a && q < b && y < w && from == Idx(w, x, y) * (a * b) && from + a * b <= |buf|
    ensures At(buf[from..from + a * b], b, p, q, 0) == MicroView(buf, w * b, a, b)(x * a + p, y * b + q)
  {
    MicroAt(w, a, b, x, y, p, q);
    IdxBound(b, a, p, q);
    var t := Idx(w, x, y);
    FlatPlace(t, a, b, p, q);
  }

  lemma FlatPlace(t: int, a: int, b: int, p: int, q: int)
    ensures Idx(b, Idx(a, t, p), q) == t * (a * b) + Idx(b, p, q)
  {
    assert (t * a + p) * b == t * a * b + p * b;
    Product3(t, a, b);
  }

  /** The steps of the two load pointers. */
  lemma PointerSteps(colA: nat, colB: nat, z: nat, i: nat, j: nat)
    ensures Idx(colA, z, i + 1) * A_TILE == Idx(colA, z, i) * A_TILE + A_TILE
    ensures Idx(colB, i + 1, j) * B_TILE_BYTES == Idx(colB, i, j) * B_TILE_BYTES + B_TILE_BYTES * colB
    ensures (i + 1) * S == i * S + S
  {
    assert (i + 1) * colB == i * colB + colB;
  }

  lemma PointerStarts(colA: nat, colB: nat, z: nat, j: nat)
    ensures Idx(colA, z, 0) * A_TILE == z * colA * A_TILE && Idx(colB, 0, j) * B_TILE_BYTES == j * B_TILE_BYTES
    ensures 0 <= z * colA * A_TILE && 0 * S == 0 && 1 * S == S
  {
    MulMono(0, z, colA);
  }

  /** The packed byte buffer read as operand B. */
  function OperandsOf(pA: seq<int>, pB: seq<bv8>, rowA: nat, colA: nat, colB: nat): Operands {
    Operands(pA, Lanes(pB), rowA, colA, colB)
  }

  lemma LanesSlice(pB: seq<bv8>, from: nat)
    requires from + B_TILE_BYTES <= |pB|
    ensures Lanes(pB[from..from + B_TILE_BYTES]) == Lanes(pB)[2 * from..2 * from + B_TILE]
  {
    var tile := pB[from..from + B_TILE_BYTES];
    forall e | 0 <= e < B_TILE
      ensures Lanes(tile)[e] == Lanes(pB)[2 * from..2 * from + B_TILE][e]
    {
      LaneShift(pB, from, B_TILE_BYTES, e);
    }
  }

  /** The K loop of one output tile: `mul` first, then `mac`, pointers stepped after each load. */
  method OutputTile(pA: seq<int>, pB: seq<bv8>, rowA: nat, colA: nat, colB: nat, z: nat, j: nat) returns (c00: seq<int>)
    requires OperandsOf(pA, pB, rowA, colA, colB).Valid() && z < rowA && j < colB && 0 < colA
    ensures AccTile(c00, OperandsOf(pA, pB, rowA, colA, colB).A(), OperandsOf(pA, pB, rowA, colA, colB).B(),
                    z * R, j * T, colA * S)
  {
    ghost var ops := OperandsOf(pA, pB, rowA, colA, colB);
    ghost var a, b := ops.A(), ops.B();
    var pA1, pB1 := z * colA * A_TILE, j * B_TILE_BYTES;
    PointerStarts(colA, colB, z, j);
    var a0, b0 := Load(pA, pB, pA1, pB1, ops, z, 0, j);
    PointerSteps(colA, colB, z, 0, j);
    pA1, pB1 := pA1 + A_TILE, pB1 + B_TILE_BYTES * colB;
    var zero := seq<int>(C_TILE, e => 0);
    ghost var row, col, lo := z * R, j * T, S;
    c00 := Mac(zero, a0, b0, a, b, row, 0, col);
    for i := 1 to colA
      invariant pA1 == Idx(colA, z, i) * A_TILE && pB1 == Idx(colB, i, j) * B_TILE_BYTES
      invariant lo == i * S && AccTile(c00, a, b, row, col, lo)
    {
      a0, b0 := Load(pA, pB, pA1, pB1, ops, z, i, j);
      PointerSteps(colA, colB, z, i, j);
      pA1, pB1 := pA1 + A_TILE, pB1 + B_TILE_BYTES * colB;
      c00 := Mac(c00, a0, b0, a, b, row, lo, col);
      lo := lo + S;
    }
  }

  /** One mac on the loaded vectors. */
  method Mac(acc: seq<int>, a0: seq<int>, b0: seq<int>, ghost a: Mat, ghost b: Mat, ghost row: nat, ghost lo: nat, ghost col: nat)
    returns (next: seq<int>)
    requires AccTile(acc, a, b, row, col, lo) && Loaded(View(a0, S), View(b0, T), a, b, row, lo, col, S)
    ensures AccTile(next, a, b, row, col, lo + S)
  {
    MacAdvances(acc, View(a0, S), View(b0, T), a, b, row, lo, col, S);
    next := MacTile(acc, View(a0, S), View(b0, T), S);
  }

  /** The two vector loads of one step; B's lanes are unpacked by the load. */
  method Load(pA: seq<int>, pB: seq<bv8>, pA1: nat, pB1: nat, ghost ops: Operands, ghost z: nat, ghost i: nat, ghost j: nat)
    returns (a0: seq<int>, b0: seq<int>)
    requires ops == OperandsOf(pA, pB, ops.rowA, ops.colA, ops.colB) && ops.Valid()
    requires z < ops.rowA && i < ops.colA && j < ops.colB
    requires pA1 == Idx(ops.colA, z, i) * A_TILE && pB1 == Idx(ops.colB, i, j) * B_TILE_BYTES
    ensures Loaded(View(a0, S), View(b0, T), ops.A(), ops.B(), z * R, i * S, j * T, S)
  {
    ops.LoadsRight(z, i, j, pA1, pB1);
    LanesSlice(pB, pB1);
    a0, b0 := pA[pA1..pA1 + A_TILE], Lanes(pB[pB1..pB1 + B_TILE_BYTES]);
  }

  /** A finished accumulator holds its micro-tile of the product. */
  lemma FinishedTile(acc: seq<int>, ops: Operands, row: nat, col: nat)
    requires AccTile(acc, ops.A(), ops.B(), row, col, ops.colA * S)
    ensures TileOf(acc, R, T, ops.Product(), row, col)
  {
    var m := ops.Product();
    forall r: nat, c: nat | r < R && c < T
      ensures 0 <= Idx(T, r, c) < C_TILE && acc[Idx(T, r, c)] == m(row + r, col + c)
    {
      FinishedLane(acc, ops.A(), ops.B(), row, col, ops.colA * S, r, c);
    }
  }

  lemma FinishedLane(acc: seq<int>, a: Mat, b: Mat, row: nat, col: nat, hi: nat, r: nat, c: nat)
    requires AccTile(acc, a, b, row, col, hi) && r < R && c < T
    ensures 0 <= Idx(T, r, c) < C_TILE && acc[Idx(T, r, c)] == Cell(a, b, row + r, col + c, hi)
  {
    LaneOf(r, c);
  }

  lemma LaneOf(r: nat, c: nat)
    requires r < R && c < T
    ensures 0 <= Idx(T, r, c) < C_TILE && Idx(T, r, c) / T == r && Idx(T, r, c) % T == c
  {
  }

  /** Compute and store output tile (z, j). */
  method StoreTile(pA: seq<int>, pB: seq<bv8>, pC: array<int>, rowA: nat, colA: nat, colB: nat, z: nat, j: nat, pC1: nat)
    requires OperandsOf(pA, pB, rowA, colA, colB).Valid() && pC.Length == rowA * colB * C_TILE
    requires z < rowA && j < colB && 0 < colA && 0 <= Idx(colB, z, j) && pC1 == Idx(colB, z, j) * C_TILE
    requires TilesFilled(pC[..], colB, R, T, OperandsOf(pA, pB, rowA, colA, colB).Product(), Idx(colB, z, j))
    modifies pC
    ensures TilesFilled(pC[..], colB, R, T, OperandsOf(pA, pB, rowA, colA, colB).Product(), Idx(colB, z, j) + 1)
  {
    var c00 := OutputTile(pA, pB, rowA, colA, colB, z, j);
    ghost var ops := OperandsOf(pA, pB, rowA, colA, colB);
    FinishedTile(c00, ops, z * R, j * T);
    BlockInside(rowA, colB, z, j, pC1);
    StoreBlock(pC, colB, R, T, ops.Product(), c00, z, j, pC1);
  }

  lemma BlockInside(rowA: nat, colB: nat, z: nat, j: nat, at: nat)
    requires z < rowA && j < colB && at == Idx(colB, z, j) * C_TILE
    ensures 0 <= Idx(colB, z, j) && at + C_TILE <= rowA * colB * C_TILE
  {
    IdxBound(colB, rowA, z, j);
    MulMono(Idx(colB, z, j) + 1, rowA * colB, C_TILE);
  }

  /** matmul_i8i4_core. */
  method MatmulCore(pA: seq<int>, pB: seq<bv8>, pC: array<int>, rowA: nat, colA: nat, colB: nat)
    requires OperandsOf(pA, pB, rowA, colA, colB).Valid() && pC.Length == rowA * colB * C_TILE && 0 < colA
    modifies pC
    ensures TilesFilled(pC[..], colB, R, T, OperandsOf(pA, pB, rowA, colA, colB).Product(), rowA * colB)
  {
    ghost var m := OperandsOf(pA, pB, rowA, colA, colB).Product();
    EmptyFilled(pC[..], colB, R, T, m);
    for z := 0 to rowA
      invariant TilesFilled(pC[..], colB, R, T, m, z * colB)
    {
      var pC1 := z * colB * C_TILE;
      for j := 0 to colB
        invariant pC1 == Idx(colB, z, j) * C_TILE && 0 <= Idx(colB, z, j)
        invariant TilesFilled(pC[..], colB, R, T, m, Idx(colB, z, j))
      {
        StoreTile(pA, pB, pC, rowA, colA, colB, z, j, pC1);
        pC1 := pC1 + C_TILE;
      }
      assert (z + 1) * colB == z * colB + colB;
    }
  }

  /** matmul_i8_i4_i32: the core run `repeat` times over the same buffers; once is enough. */
  method MatmulRepeat(pA: seq<int>, pB: seq<bv8>, pC: array<int>, rowA: nat, colA: nat, colB: nat, repeat: nat)
    requires OperandsOf(pA, pB, rowA, colA, colB).Valid() && pC.Length == rowA * colB * C_TILE && 0 < colA
    modifies pC
    ensures repeat > 0 ==> TilesFilled(pC[..], colB, R, T, OperandsOf(pA, pB, rowA, colA, colB).Product(), rowA * colB)
    ensures repeat == 0 ==> pC[..] == old(pC[..])
  {
    for r := 0 to repeat
      invariant r > 0 ==> TilesFilled(pC[..], colB, R, T, OperandsOf(pA, pB, rowA, colA, colB).Product(), rowA * colB)
      invariant r == 0 ==> pC[..] == old(pC[..])
    {
      MatmulCore(pA, pB, pC, rowA, colA, colB);
    }
  }

  /** The packed output seen through its micro-tiles is the product. */
  lemma OutputView(pC: seq<int>, ops: Operands, i: nat, j: nat)
    requires |pC| == ops.rowA * ops.colB * C_TILE
    requires TilesFilled(pC, ops.colB, R, T, ops.Product(), ops.rowA * ops.colB)
    requires i < ops.rowA * R && j < ops.colB * T
    ensures MicroView(pC, ops.colB * T, R, T)(i, j) == Cell(ops.A(), ops.B(), i, j, ops.colA * S)
  {
    FilledView(pC, ops.rowA, ops.colB, R, T, ops.Product(), i, j);
  }

  /** The value the kernel multiplies by: the low four bits of the weight, sign extended. */
  function Low4(b: Mat): Mat {
    (i: int, j: int) => Wrap4(b(i, j))
  }

  /** pack_B_int4: tile, then pair up neighbours. */
  method PackWeights(b: seq<Int8>, K: nat, N: nat) returns (pB: seq<bv8>)
    requires K % S == 0 && N % T == 0 && |b| == K * N
    ensures |Lanes(pB)| == K * N
    ensures forall k, j :: 0 <= k < K && 0 <= j < N ==> MicroView(Lanes(pB), N, S, T)(k, j) == Wrap4(View(b, N)(k, j))
  {
    var tiles := PackTiles(b, K, N, S, T);
    var flat: seq<Int8> := Int8s(tiles[..], b, K, N);
    EvenSize(K, N);
    pB := PackNibbles(flat);
    forall k, j | 0 <= k < K && 0 <= j < N ensures MicroView(Lanes(pB), N, S, T)(k, j) == Wrap4(View(b, N)(k, j)) {
      MicroInside(K, N, S, T, k, j);
    }
  }

  lemma EvenSize(K: nat, N: nat)
    requires K % S == 0
    ensures K * N % 2 == 0
  {
    Product3(K / S, S, N);
    Whole(K, S);
    assert K * N == 2 * (K / S * N * 8);
  }

  /** Packed weights are still int8: each is one of the original ones. */
  function Int8s(tiles: seq<int>, b: seq<Int8>, K: nat, N: nat): (r: seq<Int8>)
    requires K % S == 0 && N % T == 0 && |b| == K * N == |tiles|
    requires forall i, j :: 0 <= i < K && 0 <= j < N ==> MicroView(tiles, N, S, T)(i, j) == View(b, N)(i, j)
    ensures r == tiles
  {
    assert forall q :: 0 <= q < |tiles| ==> -128 <= tiles[q] <= 127 by {
      forall q | 0 <= q < |tiles| ensures -128 <= tiles[q] <= 127 {
        WeightInside(tiles, b, K, N, q);
      }
    }
    tiles
  }

  lemma WeightInside(tiles: seq<int>, b: seq<Int8>, K: nat, N: nat, q: nat)
    requires K % S == 0 && N % T == 0 && |b| == K * N == |tiles| && q < |tiles|
    requires forall i, j :: 0 <= i < K && 0 <= j < N ==> MicroView(tiles, N, S, T)(i, j) == View(b, N)(i, j)
    ensures -128 <= tiles[q] <= 127
  {
    if N > 0 {
      ToMicroOnto(K, N, S, T, q);
      var i, j := RowAt(N, S, T, q), ColAt(N, S, T, q);
      assert MicroView(tiles, N, S, T)(i, j) == View(b, N)(i, j);
    }
  }

  /** pack_A and pack_B_int4 give the kernel operands that hold A and the weights' nibbles. */
  method PackOperands(a: seq<Int8>, b: seq<Int8>, M: nat, K: nat, N: nat) returns (pA: seq<int>, pB: seq<bv8>)
    requires M % R == 0 && K % S == 0 && N % T == 0 && |a| == M * K && |b| == K * N
    ensures OperandsOf(pA, pB, M / R, K / S, N / T).Valid()
    ensures forall i, k :: 0 <= i < M && 0 <= k < K ==> OperandsOf(pA, pB, M / R, K / S, N / T).A()(i, k) == View(a, K)(i, k)
    ensures forall j, k :: 0 <= j < N && 0 <= k < K ==>
              OperandsOf(pA, pB, M / R, K / S, N / T).B()(k, j) == Low4(View(b, N))(k, j)
  {
    var packed := PackTiles(a, M, K, R, S);
    pA := packed[..];
    pB := PackWeights(b, K, N);
    Whole(M, R);
    Whole(K, S);
    Whole(N, T);
  }

  lemma Whole(x: nat, a: nat)
    requires 0 < a && x % a == 0
    ensures x / a * a == x
  {
  }

  /** pack, multiply, unpack. Whatever the repeat count, element (i, j) is the int32 product of
      row i of A with the low nibbles of column j of B; when the weights fit four bits and K
      is below 2^21 it is the exact A @ B. */
  method GemmI8I4(a: seq<Int8>, b: seq<Int8>, M: nat, K: nat, N: nat, repeat: nat) returns (out: array<int>)
    requires M % R == 0 && K % S == 0 && N % T == 0 && 0 < K && 0 < repeat
    requires |a| == M * K && |b| == K * N
    ensures out.Length == M * N
    ensures forall i, j :: 0 <= i < M && 0 <= j < N ==> View(out[..], N)(i, j) == Cell(View(a, K), Low4(View(b, N)), i, j, K)
    ensures FitsInt4(View(b, N), K, N) && K < 0x20_0000 ==>
              forall i, j :: 0 <= i < M && 0 <= j < N ==> View(out[..], N)(i, j) == Exact(View(a, K), View(b, N), i, j, K)
  {
    var pA, pB := PackOperands(a, b, M, K, N);
    var rowA, colA, colB := M / R, K / S, N / T;
    TileCounts(M, N, R, T);
    var pC := new int[M * N];
    MatmulRepeat(pA, pB, pC, rowA, colA, colB, repeat);
    var packed := pC[..];
    out := UnpackTiles(packed, M, N, R, T);
    forall i, j | 0 <= i < M && 0 <= j < N
      ensures MicroView(packed, N, R, T)(i, j) == Cell(View(a, K), Low4(View(b, N)), i, j, K)
    {
      ProductOfPacked(packed, OperandsOf(pA, pB, rowA, colA, colB), View(a, K), Low4(View(b, N)), M, K, N, i, j);
    }
    if FitsInt4(View(b, N), K, N) && K < 0x20_0000 {
      forall i, j | 0 <= i < M && 0 <= j < N
        ensures Cell(View(a, K), Low4(View(b, N)), i, j, K) == Exact(View(a, K), View(b, N), i, j, K)
      {
        NoOverflow(View(a, K), View(b, N), i, j, K, N);
      }
    }
  }

  lemma ProductOfPacked(packed: seq<int>, ops: Operands, a: Mat, b: Mat, M: nat, K: nat, N: nat, i: nat, j: nat)
    requires M == ops.rowA * R && K == ops.colA * S && N == ops.colB * T && i < M && j < N
    requires |packed| == ops.rowA * ops.colB * C_TILE && TilesFilled(packed, ops.colB, R, T, ops.Product(), ops.rowA * ops.colB)
    requires forall i, k :: 0 <= i < M && 0 <= k < K ==> ops.A()(i, k) == a(i, k)
    requires forall j, k :: 0 <= j < N && 0 <= k < K ==> ops.B()(k, j) == b(k, j)
    ensures MicroView(packed, N, R, T)(i, j) == Cell(a, b, i, j, K)
  {
    OutputView(packed, ops, i, j);
    CellSame(ops.A(), ops.B(), a, b, i, j, K);
  }

  lemma CellSame(x: Mat, y: Mat, a: Mat, b: Mat, i: int, j: int, K: nat)
    requires forall k :: 0 <= k < K ==> x(i, k) == a(i, k)
    requires forall k :: 0 <= k < K ==> y(k, j) == b(k, j)
    ensures Cell(x, y, i, j, K) == Cell(a, b, i, j, K)
  {
    DotShift(x, Transposed(y), i, j, a, Transposed(b), i, j, 0, K);
  }

  ghost predicate Int8Mat(a: Mat) {
    forall i, k :: -128 <= a(i, k) <= 127
  }

  ghost predicate FitsInt4(b: Mat, K: nat, N: nat) {
    forall k, j :: 0 <= k < K && 0 <= j < N ==> -8 <= b(k, j) <= 7
  }

  /** a @ b, exactly. */
  function Exact(a: Mat, b: Mat, i: int, j: int, K: nat): int {
    Dot(a, Transposed(b), i, j, 0, K)
  }

  /** What the pipeline puts out for these weights is the int32 product with every int8 A. */
  ghost predicate ComputesProduct(b: Mat, K: nat, N: nat) {
    forall a: Mat, i: int, j: int :: Int8Mat(a) && 0 <= j < N ==> Cell(a, Low4(b), i, j, K) == Cell(a, b, i, j, K)
  }

  /** The pipeline computes A @ B for every int8 A exactly when all weights fit in four bits:
      one weight outside already shows in some output. */
  lemma NibblesSuffice(b: Mat, K: nat, N: nat)
    requires Int8Mat(b)
    ensures ComputesProduct(b, K, N) <==> FitsInt4(b, K, N)
  {
    if FitsInt4(b, K, N) {
      forall a: Mat, i: int, j: int | Int8Mat(a) && 0 <= j < N ensures Cell(a, Low4(b), i, j, K) == Cell(a, b, i, j, K) {
        CellSame(a, Low4(b), a, b, i, j, K);
      }
    } else {
      var k, j :| 0 <= k < K && 0 <= j < N && !(-8 <= b(k, j) <= 7);
      UnitRow(k, b, j, K);
      UnitRow(k, Low4(b), j, K);
      assert Cell(Unit(k), Low4(b), 0, j, K) != Cell(Unit(k), b, 0, j, K);
      assert Int8Mat(Unit(k));
    }
  }

  function Unit(k: int): Mat {
    (i: int, c: int) => if c == k then 1 else 0
  }

  lemma {:induction false} UnitRow(k: nat, b: Mat, j: int, hi: nat)
    ensures Exact(Unit(k), b, 0, j, hi) == if k < hi then b(k, j) else 0
  {
    if hi > 0 { UnitRow(k, b, j, hi - 1); }
  }

  /** Below 2^21 columns the int32 accumulator cannot overflow, so with four-bit weights every
      output is the exact product. */
  lemma NoOverflow(a: Mat, b: Mat, i: int, j: int, K: nat, N: nat)
    requires K < 0x20_0000 && 0 <= j < N && FitsInt4(b, K, N) && Int8Mat(a)
    ensures Cell(a, Low4(b), i, j, K) == Exact(a, b, i, j, K)
  {
    DotShift(a, Transposed(Low4(b)), i, j, a, Transposed(b), i, j, 0, K);
    DotBound(a, Transposed(b), i, j, 0, K, 128, 8);
  }
}
