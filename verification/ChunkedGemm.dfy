/**
 The chunked, zero-padded GEMM over one fixed-size program: weight slabs, activation
 staging, and the token, K and N loops that sum and window the partial products.
 */
module ChunkedGemm {
  import opened Matrix
  import opened Buffers
  import opened I2S
  import opened Oracle
  import opened XdnaProgram

  /** Sizes of the one compiled program: tokens, reduction columns, output features. */
  datatype Tiles = Tiles(m: nat, k: nat, n: nat) {
    predicate Valid() { 0 < m && 0 < k && 0 < n }
  }

  datatype ShapePlan = ShapePlan(nChunks: nat, kChunks: nat)

  datatype Resident = Resident(chunks: seq<Weights>, K: nat, N: nat, plan: ShapePlan)

  function CeilDiv(x: nat, y: nat): (q: nat)
    requires 0 < y
    ensures q * y >= x && (q > 0 ==> (q - 1) * y < x)
  {
    var q := (x + y - 1) / y;
    assert q * y + (x + y - 1) % y == x + y - 1;
    assert q > 0 ==> (q - 1) * y == q * y - y;
    q
  }

  /** plan_for: only listed shapes, cut into fixed chunks whose edges are padded. */
  function PlanFor(tile: Tiles, shapes: set<(nat, nat)>, K: nat, N: nat): (r: Option<ShapePlan>)
    requires tile.Valid()
  {
    if K % 64 != 0 || N % 64 != 0 then None
    else if (K, N) !in shapes then None
    else Some(ShapePlan(CeilDiv(N, tile.n), CeilDiv(K, tile.k)))
  }

  /** The activation matrix of one call: token t, column k, zero outside the batch. */
  function Acts(aq: seq<int>, stride: nat, T: nat, K: nat): Mat {
    (t: int, k: int) => if 0 <= t < T && 0 <= k < K then At(aq, stride, t, k, 0) else 0
  }

  /** Chunk (n0, k0) of a tensor as uploaded: its signed weights, padded with zeros. */
  ghost predicate IsSlab(bo: seq<int>, tile: Tiles, w: Mat, n0: int, k0: int) {
    && |bo| == tile.k * tile.n
    && forall j, i :: 0 <= j < tile.n && 0 <= i < tile.k ==> At(bo, tile.k, j, i, 0) == w(n0 + j, k0 + i)
  }

  /** Every chunk of a cached tensor is its slab; chunks are stored N outside K. */
  ghost predicate ResidentOk(res: Resident, tile: Tiles, shapes: set<(nat, nat)>, src: seq<bv8>)
    requires tile.Valid()
  {
    && PlanFor(tile, shapes, res.K, res.N) == Some(res.plan)
    && |res.chunks| == res.plan.nChunks * res.plan.kChunks
    && forall nc, kc :: 0 <= nc < res.plan.nChunks && 0 <= kc < res.plan.kChunks ==>
                          && 0 <= Idx(res.plan.kChunks, nc, kc) < |res.chunks|
                          && IsSlab(res.chunks[Idx(res.plan.kChunks, nc, kc)].bo, tile,
                                    Ternary(src, res.K, res.N), nc * tile.n, kc * tile.k)
  }

  /** `(int8_t)codes[i] - 1`. */
  function Signed(): (int, bv8) -> int {
    (_: int, c: bv8) => c as int - 1
  }

  /** One weight row: the signed codes from column kBegin on, the rest stays zero. */
  method BuildRow(codes: seq<bv8>, kBegin: nat, tile: Tiles, slab: array<int>, j: nat, ghost w: Mat, ghost n: int)
    requires tile.Valid() && j < tile.n && slab.Length == tile.k * tile.n && kBegin < |codes|
    requires forall k :: 0 <= k < |codes| ==> codes[k] as int - 1 == w(n, k)
    requires forall k :: |codes| <= k ==> w(n, k) == 0
    requires forall i :: 0 <= i < tile.k ==> At(slab[..], tile.k, j, i, 0) == 0
    modifies slab
    ensures forall r, i :: 0 <= i < tile.k ==>
              At(slab[..], tile.k, r, i, 0)
              == if r == j then w(n, kBegin + i) else old(At(slab[..], tile.k, r, i, 0))
  {
    var K := |codes|;
    var kmax := if tile.k < K - kBegin then tile.k else K - kBegin;
    IdxRow(tile.k, j, tile.n);
    ghost var before := slab[..];
    CombineRow(slab, j * tile.k, codes, kBegin, kmax, Signed());
    forall r, i | 0 <= i < tile.k
      ensures At(slab[..], tile.k, r, i, 0) == if r == j then w(n, kBegin + i) else At(before, tile.k, r, i, 0)
    {
      RowEffect(before, slab[..], tile.k, j, 0, codes, K, 0, kBegin, kmax, Signed(), 0, 0, r, i);
    }
  }

  lemma UnpackedRow(src: seq<bv8>, K: nat, N: nat, n: nat, codes: seq<bv8>)
    requires K % QK == 0 && N * (K / 4) <= |src| && n < N && |codes| == K
    requires 0 <= n * (K / 4) && n * (K / 4) + K / QK * LANES <= |src|
    requires forall k :: 0 <= k < K ==> codes[0 + k] == Code(src, n * (K / 4), k)
    ensures forall k :: 0 <= k < K ==> codes[k] as int - 1 == Ternary(src, K, N)(n, k)
    ensures forall k :: K <= k ==> Ternary(src, K, N)(n, k) == 0
  {
    forall k | 0 <= k < K ensures codes[k] as int - 1 == Ternary(src, K, N)(n, k) {
      InTensorAll(src, K, N, n, k);
      assert codes[0 + k] == Code(src, n * (K / 4), k);
    }
  }

  /** build_b_kn: clear the slab, then unpack and sign the rows that exist. */
  method BuildBkn(src: seq<bv8>, K: nat, N: nat, nBegin: nat, kBegin: nat, tile: Tiles, slab: array<int>)
    requires tile.Valid() && slab.Length == tile.k * tile.n
    requires K % QK == 0 && N * (K / 4) <= |src| && kBegin < K
    modifies slab
    ensures IsSlab(slab[..], tile, Ternary(src, K, N), nBegin, kBegin)
  {
    ghost var w := Ternary(src, K, N);
    var codes := new bv8[K];
    forall q | 0 <= q < slab.Length { slab[q] := 0; }
    var j := 0;
    while j < tile.n
      invariant j <= tile.n
      invariant forall r, i :: 0 <= i < tile.k ==>
                  At(slab[..], tile.k, r, i, 0) == if 0 <= r < j then w(nBegin + r, kBegin + i) else 0
    {
      var n := nBegin + j;
      if n >= N { break; }
      RowFits(K, n, N);
      UnpackRow(src, n * (K / 4), K, codes, 0);
      UnpackedRow(src, K, N, n, codes[..]);
      BuildRow(codes[..], kBegin, tile, slab, j, w, n);
      j := j + 1;
    }
  }

  function Min(x: int, y: int): int {
    if x < y then x else y
  }

  /** The caller's activation buffer really holds T rows of K columns. */
  predicate BatchFits(aq: seq<Int8>, stride: nat, T: nat, K: nat) {
    K <= stride && (T > 0 ==> (T - 1) * stride + K <= |aq|)
  }

  /** Device and host copies of A agree and hold the (t0, k0) slice of the activations,
      zero-extended past the last token and the last column. */
  ghost predicate Coherent(prog: Program, a: Mat, t0: int, k0: int)
    reads prog.hostA, prog.devA
  {
    && prog.devA[..] == prog.hostA[..]
    && forall r, i :: 0 <= r < prog.M && 0 <= i < prog.K ==> At(prog.devA[..], prog.K, r, i, 0) == a(t0 + r, k0 + i)
  }

  /** Fill the mapped A buffer with one slice. It is cleared only when the slice does not
      cover it, so a full slice must overwrite every stale cell. */
  method StageA(prog: Program, aq: seq<Int8>, stride: nat, T: nat, K: nat, t0: nat, kOff: nat)
    requires prog.Valid() && BatchFits(aq, stride, T, K) && t0 < T && kOff < K
    modifies prog.hostA
    ensures forall r, i :: 0 <= r < prog.M && 0 <= i < prog.K ==>
                             At(prog.hostA[..], prog.K, r, i, 0) == Acts(aq, stride, T, K)(t0 + r, kOff + i)
  {
    var rows, kKeep := Min(prog.M, T - t0), Min(prog.K, K - kOff);
    if rows < prog.M || kKeep < prog.K {
      forall q | 0 <= q < prog.hostA.Length { prog.hostA[q] := 0; }
    }
    MulMono(rows, prog.M, prog.K);
    MulMono(t0 + rows - 1, T - 1, stride);
    CombineWindow(prog.hostA, prog.K, 0, 0, aq, stride, t0, kOff, rows, kKeep, Overwrite(), 0, 0);
  }

  /** One dispatch, allowed only on a coherent A: a block of the true product, over the
      columns of this K slice. */
  method DispatchChunk(prog: Program, c: Weights, ghost a: Mat, ghost w: Mat, ghost t0: int, ghost n0: int, ghost k0: int)
    returns (ok: bool)
    requires prog.Valid() && Coherent(prog, a, t0, k0)
    requires IsSlab(c.bo, Tiles(prog.M, prog.K, prog.N), w, n0, k0)
    modifies prog.hostC, prog`dispatches, prog.device
    ensures ok ==> forall r, j :: 0 <= r < prog.M && 0 <= j < prog.N ==>
                                    At(prog.hostC[..], prog.N, r, j, 0) == Slice(a, w, t0 + r, n0 + j, k0, prog.K)
    ensures prog.dispatches == old(prog.dispatches) + if ok then 1 else 0
    ensures prog.device.Tried(old(prog.device.attempts), 1, ok)
  {
    ok := prog.RunMappedPresynced(c);
    if ok {
      forall r, j | 0 <= r < prog.M && 0 <= j < prog.N
        ensures At(prog.hostC[..], prog.N, r, j, 0) == Slice(a, w, t0 + r, n0 + j, k0, prog.K)
      {
        assert View(prog.hostC[..], prog.N)(r, j) == prog.Product(c, r, j);
        DotShift(View(prog.devA[..], prog.K), View(c.bo, prog.K), r, j, a, w, t0 + r, n0 + j, k0, prog.K);
      }
    }
  }

  /** The int32 contribution of columns [k0, k0 + len) to output (t, n). */
  ghost function Slice(a: Mat, w: Mat, t: int, n: int, k0: int, len: nat): int {
    Wrap32(Dot(a, w, t, n, k0, k0 + len))
  }

  /** Dispatch one chunk and fold its window of C into dst by f. */
  method ChunkStep(prog: Program, c: Weights, dst: array<int>, N: nat, d0: nat, rows: nat, nOff: nat, nKeep: nat,
                   f: (int, int) -> int, ghost a: Mat, ghost w: Mat, ghost t0: int, ghost k0: int)
    returns (ok: bool)
    requires prog.Valid() && Coherent(prog, a, t0, k0)
    requires IsSlab(c.bo, Tiles(prog.M, prog.K, prog.N), w, nOff, k0)
    requires dst !in {prog.hostA, prog.devA, prog.hostC}
    requires rows <= prog.M && nKeep <= prog.N && nOff + nKeep <= N && (d0 + rows) * N <= dst.Length
    modifies prog.hostC, prog`dispatches, prog.device, dst
    ensures Coherent(prog, a, t0, k0)
    ensures prog.dispatches == old(prog.dispatches) + if ok then 1 else 0
    ensures ok ==>
              forall r, c :: At(dst[..], N, r, c, 0)
                          == if d0 <= r < d0 + rows && nOff <= c < nOff + nKeep
                             then f(old(At(dst[..], N, r, c, 0)), Slice(a, w, t0 + r - d0, c, k0, prog.K))
                             else old(At(dst[..], N, r, c, 0))
    ensures prog.device.Tried(old(prog.device.attempts), 1, ok)
  {
    ok := DispatchChunk(prog, c, a, w, t0, nOff, k0);
    if !ok { return; }
    WindowInside(prog.N, rows, prog.M);
    CombineWindow(dst, N, d0, nOff, prog.hostC[..], prog.N, 0, 0, rows, nKeep, f, 0, 0);
  }

  /** Rows [d0, d0 + rows) have the slice's contributions folded in by f, the others are kept. */
  ghost predicate Folded(before: seq<int>, after: seq<int>, f: (int, int) -> int, a: Mat, w: Mat,
                         t0: int, d0: int, rows: int, N: nat, k0: int, len: nat)
  {
    forall r, c :: 0 <= c < N ==>
      At(after, N, r, c, 0)
      == if d0 <= r < d0 + rows then f(At(before, N, r, c, 0), Slice(a, w, t0 + r - d0, c, k0, len))
         else At(before, N, r, c, 0)
  }

  /** The loop over N chunks of one K slice: each chunk's window of C goes into dst by f. */
  method KSlice(prog: Program, res: Resident, aq: seq<Int8>, stride: nat, T: nat, t0: nat, kc: nat,
                dst: array<int>, d0: nat, f: (int, int) -> int, ghost shapes: set<(nat, nat)>, ghost src: seq<bv8>)
    returns (ok: bool)
    requires prog.Valid() && Tiles(prog.M, prog.K, prog.N).Valid()
    requires ResidentOk(res, Tiles(prog.M, prog.K, prog.N), shapes, src)
    requires BatchFits(aq, stride, T, res.K) && t0 < T && kc < res.plan.kChunks
    requires dst !in {prog.hostA, prog.devA, prog.hostC}
    requires (d0 + Min(prog.M, T - t0)) * res.N <= dst.Length
    modifies prog.hostA, prog.devA, prog.hostC, prog, prog.device, dst
    ensures ok ==> Folded(old(dst[..]), dst[..], f, Acts(aq, stride, T, res.K), Ternary(src, res.K, res.N),
                          t0, d0, Min(prog.M, T - t0), res.N, kc * prog.K, prog.K)
    ensures ok ==> prog.dispatches == old(prog.dispatches) + res.plan.nChunks && prog.syncs == old(prog.syncs) + 1
    ensures prog.device.Tried(old(prog.device.attempts), res.plan.nChunks, ok)
  {
    var K, N := res.K, res.N;
    ghost var a, w := Acts(aq, stride, T, K), Ternary(src, K, N);
    var rows := Min(prog.M, T - t0);
    var kOff := kc * prog.K;
    ChunkInside(K, prog.K, kc);
    StageA(prog, aq, stride, T, K, t0, kOff);
    prog.SyncA();
    for nc := 0 to res.plan.nChunks
      invariant Coherent(prog, a, t0, kOff)
      invariant prog.dispatches == old(prog.dispatches) + nc && prog.syncs == old(prog.syncs) + 1
      invariant prog.device.Tried(old(prog.device.attempts), nc, true)
      invariant forall r, c :: 0 <= c < N ==>
                  At(dst[..], N, r, c, 0)
                  == if d0 <= r < d0 + rows && c < nc * prog.N
                     then f(old(At(dst[..], N, r, c, 0)), Slice(a, w, t0 + r - d0, c, kOff, prog.K))
                     else old(At(dst[..], N, r, c, 0))
    {
      var nOff := nc * prog.N;
      ChunkInside(N, prog.N, nc);
      var c := res.chunks[Idx(res.plan.kChunks, nc, kc)];
      ok := ChunkStep(prog, c, dst, N, d0, rows, nOff, Min(prog.N, N - nOff), f, a, w, t0, kOff);
      if !ok { return; }
    }
    ok := true;
  }

  lemma ChunkInside(x: nat, y: nat, q: nat)
    requires 0 < y && q < CeilDiv(x, y)
    ensures 0 <= q * y < x && (q + 1) * y == q * y + y
  {
    MulMono(q, CeilDiv(x, y) - 1, y);
  }

  lemma WindowInside(w: nat, rows: nat, M: nat)
    requires rows <= M
    ensures rows > 0 ==> (rows - 1) * w + w <= M * w
  {
    MulMono(rows, M, w);
  }

  /** Columns past K carry zero activations, so the padded width sums to the true one. */
  lemma DotTrim(aq: seq<Int8>, stride: nat, T: nat, K: nat, w: Mat, t: int, n: int, hi: nat)
    requires K <= hi
    ensures Dot(Acts(aq, stride, T, K), w, t, n, 0, hi) == Dot(Acts(aq, stride, T, K), w, t, n, 0, K)
  {
    DotSplit(Acts(aq, stride, T, K), w, t, n, 0, K, hi);
    DotPadding(Acts(aq, stride, T, K), w, t, n, K, hi);
  }

  /** One more K slice added in int32 extends the partial sum. */
  lemma SliceStep(a: Mat, w: Mat, t: int, n: int, k0: nat, len: nat)
    ensures Accumulate()(Slice(a, w, t, n, 0, k0), Slice(a, w, t, n, k0, len)) == Slice(a, w, t, n, 0, k0 + len)
  {
    DotSplit(a, w, t, n, 0, k0, k0 + len);
    WrapAdd(Dot(a, w, t, n, 0, k0), Dot(a, w, t, n, k0, k0 + len));
  }

  /** Rows [0, rows) of part hold the partial sums over columns [0, hi) of tokens t0 on. */
  ghost predicate IsPartial(part: seq<int>, a: Mat, w: Mat, t0: int, rows: int, N: nat, hi: nat) {
    forall r, c :: 0 <= r < rows && 0 <= c < N ==> At(part, N, r, c, 0) == Slice(a, w, t0 + r, c, 0, hi)
  }

  method AddSlice(prog: Program, res: Resident, aq: seq<Int8>, stride: nat, T: nat, t0: nat, kc: nat, part: array<int>,
                  ghost shapes: set<(nat, nat)>, ghost src: seq<bv8>)
    returns (ok: bool)
    requires prog.Valid() && Tiles(prog.M, prog.K, prog.N).Valid()
    requires ResidentOk(res, Tiles(prog.M, prog.K, prog.N), shapes, src)
    requires BatchFits(aq, stride, T, res.K) && t0 < T && kc < res.plan.kChunks
    requires part !in {prog.hostA, prog.devA, prog.hostC}
    requires Min(prog.M, T - t0) * res.N <= part.Length
    requires IsPartial(part[..], Acts(aq, stride, T, res.K), Ternary(src, res.K, res.N), t0, Min(prog.M, T - t0), res.N,
                       kc * prog.K)
    modifies prog.hostA, prog.devA, prog.hostC, prog, prog.device, part
    ensures ok ==> IsPartial(part[..], Acts(aq, stride, T, res.K), Ternary(src, res.K, res.N), t0, Min(prog.M, T - t0),
                             res.N, (kc + 1) * prog.K)
    ensures ok ==> prog.dispatches == old(prog.dispatches) + res.plan.nChunks && prog.syncs == old(prog.syncs) + 1
    ensures prog.device.Tried(old(prog.device.attempts), res.plan.nChunks, ok)
  {
    ghost var a, w := Acts(aq, stride, T, res.K), Ternary(src, res.K, res.N);
    ghost var rows, before := Min(prog.M, T - t0), part[..];
    ok := KSlice(prog, res, aq, stride, T, t0, kc, part, 0, Accumulate(), shapes, src);
    if ok {
      ChunkInside(res.K, prog.K, kc);
      PartialStep(before, part[..], a, w, t0, rows, res.N, kc * prog.K, prog.K, (kc + 1) * prog.K);
    }
  }

  lemma PartialStep(before: seq<int>, part: seq<int>, a: Mat, w: Mat, t0: int, rows: int, N: nat, k0: nat, len: nat,
                    hi: nat)
    requires hi == k0 + len && IsPartial(before, a, w, t0, rows, N, k0)
    requires Folded(before, part, Accumulate(), a, w, t0, 0, rows, N, k0, len)
    ensures IsPartial(part, a, w, t0, rows, N, hi)
  {
    forall r, c | 0 <= r < rows && 0 <= c < N ensures At(part, N, r, c, 0) == Slice(a, w, t0 + r, c, 0, hi) {
      SliceStep(a, w, t0 + r, c, k0, len);
      assert At(before, N, r, c, 0) == Slice(a, w, t0 + r, c, 0, k0);
    }
  }

  /** Sum the K slices of one token tile in `part`. */
  method SumSlices(prog: Program, res: Resident, aq: seq<Int8>, stride: nat, T: nat, t0: nat, part: array<int>,
                   ghost shapes: set<(nat, nat)>, ghost src: seq<bv8>)
    returns (ok: bool)
    requires prog.Valid() && Tiles(prog.M, prog.K, prog.N).Valid()
    requires ResidentOk(res, Tiles(prog.M, prog.K, prog.N), shapes, src)
    requires BatchFits(aq, stride, T, res.K) && t0 < T
    requires part !in {prog.hostA, prog.devA, prog.hostC}
    requires Min(prog.M, T - t0) * res.N <= part.Length
    modifies prog.hostA, prog.devA, prog.hostC, prog, prog.device, part
    ensures ok ==> IsPartial(part[..], Acts(aq, stride, T, res.K), Ternary(src, res.K, res.N), t0, Min(prog.M, T - t0),
                             res.N, res.plan.kChunks * prog.K)
    ensures ok ==> prog.dispatches == old(prog.dispatches) + res.plan.kChunks * res.plan.nChunks
    ensures ok ==> prog.syncs == old(prog.syncs) + res.plan.kChunks
    ensures prog.device.Tried(old(prog.device.attempts), res.plan.kChunks * res.plan.nChunks, ok)
  {
    ghost var a, w := Acts(aq, stride, T, res.K), Ternary(src, res.K, res.N);
    forall q | 0 <= q < part.Length { part[q] := 0; }
    for kc := 0 to res.plan.kChunks
      invariant IsPartial(part[..], a, w, t0, Min(prog.M, T - t0), res.N, kc * prog.K)
      invariant prog.dispatches == old(prog.dispatches) + kc * res.plan.nChunks
      invariant prog.syncs == old(prog.syncs) + kc
      invariant prog.device.Tried(old(prog.device.attempts), kc * res.plan.nChunks, true)
    {
      ok := AddSlice(prog, res, aq, stride, T, t0, kc, part, shapes, src);
      MulMono(kc + 1, res.plan.kChunks, res.plan.nChunks);
      assert (kc + 1) * res.plan.nChunks == kc * res.plan.nChunks + res.plan.nChunks;
      if !ok { return; }
    }
    ok := true;
  }

  /** The two forms of one token tile: a single K slice is copied out of C directly, several
      are summed in `part` first. Either way rows [t0, t0 + rows) of acc get the padded sum. */
  method TileSum(prog: Program, res: Resident, aq: seq<Int8>, stride: nat, T: nat, t0: nat, part: array<int>,
                 acc: array<int>, ghost shapes: set<(nat, nat)>, ghost src: seq<bv8>)
    returns (ok: bool)
    requires prog.Valid() && Tiles(prog.M, prog.K, prog.N).Valid()
    requires ResidentOk(res, Tiles(prog.M, prog.K, prog.N), shapes, src) && res.K > 0
    requires BatchFits(aq, stride, T, res.K) && t0 < T
    requires part !in {prog.hostA, prog.devA, prog.hostC, acc} && acc !in {prog.hostA, prog.devA, prog.hostC}
    requires res.plan.kChunks > 1 ==> Min(prog.M, T - t0) * res.N <= part.Length
    requires (t0 + Min(prog.M, T - t0)) * res.N <= acc.Length
    modifies prog.hostA, prog.devA, prog.hostC, prog, prog.device, part, acc
    ensures ok ==>
              forall t, n :: 0 <= n < res.N ==>
                At(acc[..], res.N, t, n, 0)
                == if t0 <= t < t0 + Min(prog.M, T - t0)
                   then Slice(Acts(aq, stride, T, res.K), Ternary(src, res.K, res.N), t, n, 0, res.plan.kChunks * prog.K)
                   else old(At(acc[..], res.N, t, n, 0))
    ensures ok ==> prog.dispatches == old(prog.dispatches) + res.plan.kChunks * res.plan.nChunks
    ensures ok ==> prog.syncs == old(prog.syncs) + res.plan.kChunks
    ensures prog.device.Tried(old(prog.device.attempts), res.plan.kChunks * res.plan.nChunks, ok)
  {
    var rows := Min(prog.M, T - t0);
    if res.plan.kChunks == 1 {
      ok := KSlice(prog, res, aq, stride, T, t0, 0, acc, t0, Overwrite(), shapes, src);
      assert 0 * prog.K == 0 && 1 * prog.K == prog.K;
    } else {
      ok := SumSlices(prog, res, aq, stride, T, t0, part, shapes, src);
      if !ok { return; }
      WindowInside(res.N, rows, rows);
      CombineWindow(acc, res.N, t0, 0, part[..], res.N, 0, 0, rows, res.N, Overwrite(), 0, 0);
    }
  }

  /** One token tile: the padding columns drop out of the sum. */
  method TokenTile(prog: Program, res: Resident, aq: seq<Int8>, stride: nat, T: nat, t0: nat, part: array<int>,
                   acc: array<int>, ghost shapes: set<(nat, nat)>, ghost src: seq<bv8>)
    returns (ok: bool)
    requires prog.Valid() && Tiles(prog.M, prog.K, prog.N).Valid()
    requires ResidentOk(res, Tiles(prog.M, prog.K, prog.N), shapes, src) && res.K > 0
    requires BatchFits(aq, stride, T, res.K) && t0 < T
    requires part !in {prog.hostA, prog.devA, prog.hostC, acc} && acc !in {prog.hostA, prog.devA, prog.hostC}
    requires res.plan.kChunks > 1 ==> prog.M * res.N <= part.Length
    requires T * res.N <= acc.Length
    modifies prog.hostA, prog.devA, prog.hostC, prog, prog.device, part, acc
    ensures ok ==>
              forall t, n :: 0 <= n < res.N ==>
                At(acc[..], res.N, t, n, 0)
                == if t0 <= t < t0 + Min(prog.M, T - t0)
                   then Slice(Acts(aq, stride, T, res.K), Ternary(src, res.K, res.N), t, n, 0, res.K)
                   else old(At(acc[..], res.N, t, n, 0))
    ensures ok ==> prog.dispatches == old(prog.dispatches) + res.plan.kChunks * res.plan.nChunks
    ensures ok ==> prog.syncs == old(prog.syncs) + res.plan.kChunks
    ensures prog.device.Tried(old(prog.device.attempts), res.plan.kChunks * res.plan.nChunks, ok)
  {
    ghost var w := Ternary(src, res.K, res.N);
    var rows := Min(prog.M, T - t0);
    MulMono(rows, prog.M, res.N);
    MulMono(t0 + rows, T, res.N);
    ok := TileSum(prog, res, aq, stride, T, t0, part, acc, shapes, src);
    forall t, n {
      DotTrim(aq, stride, T, res.K, w, t, n, res.plan.kChunks * prog.K);
    }
  }

  /** The loop over token tiles: afterwards acc is the signed product, reduced to int32. */
  method AccumulateTiles(prog: Program, res: Resident, aq: seq<Int8>, stride: nat, T: nat, acc: array<int>,
                         ghost shapes: set<(nat, nat)>, ghost src: seq<bv8>)
    returns (ok: bool)
    requires prog.Valid() && Tiles(prog.M, prog.K, prog.N).Valid()
    requires ResidentOk(res, Tiles(prog.M, prog.K, prog.N), shapes, src) && res.K > 0
    requires BatchFits(aq, stride, T, res.K)
    requires acc !in {prog.hostA, prog.devA, prog.hostC} && T * res.N <= acc.Length
    modifies prog.hostA, prog.devA, prog.hostC, prog, prog.device, acc
    ensures ok ==> IsProduct(acc[..], aq, stride, T, res.K, res.N, src)
    ensures ok ==> prog.dispatches == old(prog.dispatches) + CeilDiv(T, prog.M) * (res.plan.kChunks * res.plan.nChunks)
    ensures ok ==> prog.syncs == old(prog.syncs) + CeilDiv(T, prog.M) * res.plan.kChunks
    ensures prog.device.Tried(old(prog.device.attempts), CeilDiv(T, prog.M) * (res.plan.kChunks * res.plan.nChunks), ok)
  {
    ghost var a, w := Acts(aq, stride, T, res.K), Ternary(src, res.K, res.N);
    MulMono(0, prog.M, res.N);
    var part := new int[if res.plan.kChunks > 1 then prog.M * res.N else 0];
    var t0 := 0;
    ghost var tiles := 0;
    ghost var perTile := res.plan.kChunks * res.plan.nChunks;
    while t0 < T
      invariant t0 == tiles * prog.M && tiles <= CeilDiv(T, prog.M)
      invariant forall t, n :: 0 <= t < t0 && t < T && 0 <= n < res.N ==>
                  At(acc[..], res.N, t, n, 0) == Slice(a, w, t, n, 0, res.K)
      invariant prog.dispatches == old(prog.dispatches) + tiles * perTile
      invariant prog.syncs == old(prog.syncs) + tiles * res.plan.kChunks
      invariant prog.device.Tried(old(prog.device.attempts), tiles * perTile, true)
    {
      ok := TokenTile(prog, res, aq, stride, T, t0, part, acc, shapes, src);
      TileCount(T, prog.M, tiles, perTile, res.plan.kChunks);
      if !ok { return; }
      t0 := t0 + prog.M;
      tiles := tiles + 1;
    }
    CountUnique(T, prog.M, tiles);
    ok := true;
  }

  lemma TileCount(T: nat, M: nat, tiles: nat, x: nat, y: nat)
    requires 0 < M && tiles * M < T
    ensures tiles < CeilDiv(T, M) && (tiles + 1) * M == tiles * M + M
    ensures (tiles + 1) * x == tiles * x + x <= CeilDiv(T, M) * x && (tiles + 1) * y == tiles * y + y
  {
    if tiles >= CeilDiv(T, M) { MulMono(CeilDiv(T, M), tiles, M); }
    MulMono(tiles + 1, CeilDiv(T, M), x);
  }

  lemma CountUnique(T: nat, M: nat, tiles: nat)
    requires 0 < M && tiles <= CeilDiv(T, M) && tiles * M >= T
    ensures tiles == CeilDiv(T, M)
  {
    if tiles < CeilDiv(T, M) { MulMono(tiles, CeilDiv(T, M) - 1, M); }
  }

  /** acc holds the signed ternary product of the batch, each cell reduced to int32. */
  ghost predicate IsProduct(acc: seq<int>, aq: seq<Int8>, stride: nat, T: nat, K: nat, N: nat, src: seq<bv8>) {
    && T * N <= |acc|
    && forall t, n :: 0 <= t < T && 0 <= n < N ==>
         At(acc, N, t, n, 0) == Wrap32(Dot(Acts(aq, stride, T, K), Ternary(src, K, N), t, n, 0, K))
  }
}
