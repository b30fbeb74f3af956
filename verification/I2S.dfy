/**
 The I2_S ternary weight format: 128 two-bit codes interleaved over 32 bytes, the
 packer and unpacker as loops over byte buffers, and their inverse relation.
 */
module I2S {
  import opened Matrix

  type Int8 = x: int | -128 <= x < 128

  const QK := 128
  const LANES := 32

  /** The two bits of group g: `(b >> (6 - 2 * g)) & 3`. */
  function Field(b: bv8, g: int): bv8 {
    if g == 0 then (b >> 6) & 3 else if g == 1 then (b >> 4) & 3 else if g == 2 then (b >> 2) & 3 else b & 3
  }

  /** A code moved to the bits of group g: `c << (6 - 2 * g)`, truncated to a byte. */
  function Place(c: bv8, g: int): bv8 {
    if g == 0 then c << 6 else if g == 1 then c << 4 else if g == 2 then c << 2 else c
  }

  /** Code k of the row whose packed bytes start at `base`: lane k % 32 of its block. */
  function Code(p: seq<bv8>, base: nat, k: nat): bv8
    requires base + k / QK * LANES + LANES <= |p|
  {
    Field(p[base + k / QK * LANES + k % LANES], k % QK / LANES)
  }

  /** Where the code of byte b's group g sits in its row. */
  function Slot(b: nat, g: nat): nat {
    b / LANES * QK + g * LANES + b % LANES
  }

  /** The OR of the first g of the four codes o, o + 32, o + 64, o + 96 in their places. */
  function PackByte(codes: seq<bv8>, o: nat, g: nat): bv8
    requires o + 3 * LANES < |codes| && g <= 4
  {
    if g == 0 then 0 else PackByte(codes, o, g - 1) | Place(codes[o + (g - 1) * LANES], g - 1)
  }

  /** Byte b of a packed row. */
  function Packed(codes: seq<bv8>, b: nat): bv8
    requires b / LANES * QK + QK <= |codes|
  {
    PackByte(codes, Slot(b, 0), 4)
  }

  function Pack(codes: seq<bv8>): (p: seq<bv8>)
    ensures |p| == |codes| / QK * LANES
  {
    seq(|codes| / QK * LANES, b requires 0 <= b < |codes| / QK * LANES => Packed(codes, b))
  }

  function Unpack(p: seq<bv8>): (codes: seq<bv8>)
    ensures |codes| == |p| / LANES * QK
  {
    seq(|p| / LANES * QK, k requires 0 <= k < |p| / LANES * QK => Code(p, 0, k))
  }

  /** One 32-byte block to 128 codes. */
  method UnpackBlock(p: seq<bv8>, src: nat, out: array<bv8>, dst: nat)
    requires src + LANES <= |p| && dst + QK <= out.Length
    modifies out
    ensures forall j :: 0 <= j < QK ==> out[dst + j] == Field(p[src + j % LANES], j / LANES)
    ensures forall q :: 0 <= q < dst || dst + QK <= q < out.Length ==> out[q] == old(out[q])
  {
    for g := 0 to 4
      invariant forall j :: 0 <= j < g * LANES ==> out[dst + j] == Field(p[src + j % LANES], j / LANES)
      invariant forall q :: 0 <= q < dst || dst + QK <= q < out.Length ==> out[q] == old(out[q])
    {
      for lane := 0 to LANES
        invariant forall j :: 0 <= j < g * LANES + lane ==> out[dst + j] == Field(p[src + j % LANES], j / LANES)
        invariant forall q :: 0 <= q < dst || dst + QK <= q < out.Length ==> out[q] == old(out[q])
      {
        out[dst + g * LANES + lane] := Field(p[src + lane], g);
      }
    }
  }

  /** The unpacking loop. Only whole blocks are written; the rest of `out` is kept. */
  method UnpackRow(p: seq<bv8>, base: nat, K: nat, out: array<bv8>, at: nat)
    requires base + K / QK * LANES <= |p| && at + K <= out.Length
    modifies out
    ensures forall k :: 0 <= k < K / QK * QK ==> out[at + k] == Code(p, base, k)
    ensures forall q :: 0 <= q < at || at + K / QK * QK <= q < out.Length ==> out[q] == old(out[q])
  {
    var nblocks := K / QK;
    for i := 0 to nblocks
      invariant forall k :: 0 <= k < i * QK ==> out[at + k] == Code(p, base, k)
      invariant forall q :: 0 <= q < at || at + nblocks * QK <= q < out.Length ==> out[q] == old(out[q])
    {
      UnpackBlock(p, base + i * LANES, out, at + i * QK);
      forall k | i * QK <= k < (i + 1) * QK ensures out[at + k] == Code(p, base, k) {
        BlockCode(p, base, i, k - i * QK);
        assert out[at + i * QK + (k - i * QK)] == out[at + k];
      }
    }
  }

  lemma BlockCode(p: seq<bv8>, base: nat, i: nat, j: nat)
    requires j < QK && base + i * LANES + LANES <= |p|
    ensures (i * QK + j) / QK == i
    ensures Code(p, base, i * QK + j) == Field(p[base + i * LANES + j % LANES], j / LANES)
  {
    BlockShift(i, j);
  }

  /** With K a multiple of 128 the rows are whole blocks laid end to end. */
  lemma RowsTile(K: nat, n: nat)
    requires K % QK == 0
    ensures n * (K / 4) == n * K / QK * LANES && n * K % QK == 0
  {
    var q := K / QK;
    assert K == q * QK && K / 4 == q * LANES;
    assert n * K == (n * q) * QK && n * (K / 4) == (n * q) * LANES;
  }

  lemma RowCode(p: seq<bv8>, K: nat, n: nat, k: nat)
    requires K % QK == 0 && k < K && (n + 1) * (K / 4) <= |p|
    ensures 0 <= n * (K / 4) && n * (K / 4) + k / QK * LANES + LANES <= |p|
    ensures 0 <= n * K + k && (n * K + k) / QK * LANES + LANES <= |p|
    ensures Code(p, n * (K / 4), k) == Code(p, 0, n * K + k)
  {
    RowsTile(K, n);
    var m := n * K / QK;
    RowFits(K, n, n + 1);
    assert m >= 0 && n * K == m * QK && n * (K / 4) == m * LANES;
    BlockShift(m, k);
    LastBlock(K, k);
  }

  lemma LastBlock(K: nat, k: nat)
    requires K % QK == 0 && k < K
    ensures k / QK * LANES + LANES <= K / 4
  {
  }

  lemma BlockShift(m: int, k: nat)
    ensures (m * QK + k) / QK == m + k / QK && (m * QK + k) % QK == k % QK && (m * QK + k) % LANES == k % LANES
  {
    var q, r := k / QK, k % QK;
    assert m * QK + k == Idx(QK, m + q, r);
    IdxDivMod(QK, m + q, r);
    var u, v := k / LANES, k % LANES;
    assert m * QK + k == Idx(LANES, 4 * m + u, v);
    IdxDivMod(LANES, 4 * m + u, v);
  }

  /** A whole matrix, row by row, unpacks to the codes of its concatenated bytes. */
  method UnpackMatrix(p: seq<bv8>, K: nat, N: nat, out: array<bv8>)
    requires K % QK == 0 && N * (K / 4) == |p| && out.Length == N * K
    modifies out
    ensures out[..] == Unpack(p)
  {
    UnpackSize(p, K, N);
    ghost var codes := Unpack(p);
    for n := 0 to N
      invariant 0 <= n * K <= out.Length && out[..n * K] == codes[..n * K]
    {
      RowFits(K, n, N);
      var lo, base := n * K, n * (K / 4);
      ghost var before := out[..lo];
      UnpackRow(p, base, K, out, lo);
      ghost var row := out[lo..lo + K];
      assert forall k :: 0 <= k < K ==> row[k] == out[lo + k];
      RowOfUnpack(p, K, N, n, lo, base, row);
      assert out[..lo] == before && out[..lo + K] == out[..lo] + row;
      assert codes[..lo + K] == codes[..lo] + codes[lo..lo + K];
    }
  }

  lemma UnpackSize(p: seq<bv8>, K: nat, N: nat)
    requires K % QK == 0 && N * (K / 4) == |p|
    ensures |Unpack(p)| == N * K
  {
    RowsTile(K, N);
    var blocks := N * K / QK;
    assert N * K == blocks * QK && |p| == blocks * LANES;
  }

  /** Cell (n, k) of an unpacked matrix is the code stored for weight (n, k). */
  lemma UnpackedCell(p: seq<bv8>, K: nat, N: nat, n: int, k: int)
    requires K % QK == 0 && N * (K / 4) == |p| && 0 <= n < N && 0 <= k < K
    ensures 0 <= Idx(K, n, k) < |Unpack(p)|
    ensures 0 <= n * (K / 4) && n * (K / 4) + k / QK * LANES + LANES <= |p|
    ensures Unpack(p)[Idx(K, n, k)] == Code(p, n * (K / 4), k)
  {
    UnpackSize(p, K, N);
    IdxBound(K, N, n, k);
    RowFits(K, n, N);
    RowCode(p, K, n, k);
    assert Unpack(p)[Idx(K, n, k)] == Code(p, 0, Idx(K, n, k));
  }

  /** A row's codes are the matrix's codes at the row's offset. */
  lemma RowOfUnpack(p: seq<bv8>, K: nat, N: nat, n: nat, lo: nat, base: nat, row: seq<bv8>)
    requires |row| == K && K % QK == 0 && base + K / QK * LANES <= |p|
    requires forall k :: 0 <= k < K ==> row[k] == Code(p, base, k)
    requires N * (K / 4) == |p| && n < N && lo == n * K && base == n * (K / 4) && lo + K <= |Unpack(p)|
    ensures row == Unpack(p)[lo..lo + K]
  {
    var part := Unpack(p)[lo..lo + K];
    forall k | 0 <= k < K ensures row[k] == part[k] {
      UnpackedCell(p, K, N, n, k);
    }
  }

  lemma RowFits(K: nat, n: nat, N: nat)
    requires n < N
    ensures 0 <= n * K && (n + 1) * K == n * K + K <= N * K
    ensures 0 <= n * (K / 4) && (n + 1) * (K / 4) == n * (K / 4) + K / 4 <= N * (K / 4)
  {
    MulMono(n + 1, N, K);
    MulMono(n + 1, N, K / 4);
  }

  /** The packing loop: clear the bytes, then OR each code into its lane. */
  method PackRow(codes: seq<bv8>, out: array<bv8>)
    requires |codes| % QK == 0 && out.Length == |codes| / 4
    modifies out
    ensures out[..] == Pack(codes)
  {
    for b := 0 to out.Length
      invariant forall c :: 0 <= c < b ==> out[c] == 0
    {
      out[b] := 0;
    }
    for i := 0 to |codes| / QK
      invariant forall b :: 0 <= b < i * LANES ==> out[b] == Packed(codes, b)
      invariant forall b :: i * LANES <= b < out.Length ==> out[b] == 0
    {
      PackBlock(codes, out, i * QK, i * LANES);
      forall b | i * LANES <= b < (i + 1) * LANES ensures out[b] == Packed(codes, b) {
        assert Slot(b, 0) == i * QK + (b - i * LANES);
      }
    }
  }

  /** How many codes byte `lane` of a block holds once the block's first j codes are in. */
  function Filled(j: nat, lane: nat): (g: nat)
    ensures j <= QK && lane < LANES ==> g <= 4
  {
    j / LANES + if lane < j % LANES then 1 else 0
  }

  method PackBlock(codes: seq<bv8>, out: array<bv8>, src: nat, dst: nat)
    requires src + QK <= |codes| && dst + LANES <= out.Length
    requires forall b :: dst <= b < dst + LANES ==> out[b] == 0
    modifies out
    ensures forall b :: dst <= b < dst + LANES ==> out[b] == PackByte(codes, src + (b - dst), 4)
    ensures forall b :: 0 <= b < dst || dst + LANES <= b < out.Length ==> out[b] == old(out[b])
  {
    LanesEmpty(codes, out[..], src, dst);
    for j := 0 to QK
      invariant LanesHold(codes, out[..], src, dst, j)
      invariant forall b :: 0 <= b < dst || dst + LANES <= b < out.Length ==> out[b] == old(out[b])
    {
      PackCode(codes, out, src, dst, j);
    }
    LanesDone(codes, out[..], src, dst);
  }

  /** OR code j of a block into its lane. */
  method PackCode(codes: seq<bv8>, out: array<bv8>, src: nat, dst: nat, j: nat)
    requires src + QK <= |codes| && dst + LANES <= out.Length && j < QK && LanesHold(codes, out[..], src, dst, j)
    modifies out
    ensures LanesHold(codes, out[..], src, dst, j + 1)
    ensures forall b :: 0 <= b < dst || dst + LANES <= b < out.Length ==> out[b] == old(out[b])
  {
    var group, lane := j / LANES, j % LANES;
    ghost var before := out[..];
    var temp := Place(codes[src + j], group);
    LanesStep(codes, before, src, dst, j);
    out[dst + lane] := out[dst + lane] | temp;
    assert out[..] == before[dst + lane := before[dst + lane] | temp];
  }

  lemma LanesEmpty(codes: seq<bv8>, bytes: seq<bv8>, src: nat, dst: nat)
    requires src + QK <= |codes| && dst + LANES <= |bytes|
    requires forall b :: dst <= b < dst + LANES ==> bytes[b] == 0
    ensures LanesHold(codes, bytes, src, dst, 0)
  {
  }

  lemma LanesDone(codes: seq<bv8>, bytes: seq<bv8>, src: nat, dst: nat)
    requires src + QK <= |codes| && dst + LANES <= |bytes| && LanesHold(codes, bytes, src, dst, QK)
    ensures forall b :: dst <= b < dst + LANES ==> bytes[b] == PackByte(codes, src + (b - dst), 4)
  {
    forall b | dst <= b < dst + LANES ensures bytes[b] == PackByte(codes, src + (b - dst), 4) {
      assert Filled(QK, b - dst) == 4;
    }
  }

  /** The 32 bytes from dst hold the block's first j codes. */
  ghost predicate LanesHold(codes: seq<bv8>, bytes: seq<bv8>, src: nat, dst: nat, j: nat)
    requires src + QK <= |codes| && dst + LANES <= |bytes| && j <= QK
  {
    forall b :: dst <= b < dst + LANES ==> bytes[b] == PackByte(codes, src + (b - dst), Filled(j, b - dst))
  }

  lemma LanesStep(codes: seq<bv8>, bytes: seq<bv8>, src: nat, dst: nat, j: nat)
    requires src + QK <= |codes| && dst + LANES <= |bytes| && j < QK && LanesHold(codes, bytes, src, dst, j)
    ensures LanesHold(codes, bytes[dst + j % LANES := bytes[dst + j % LANES] | Place(codes[src + j], j / LANES)],
                      src, dst, j + 1)
  {
    FilledStep(j);
    PackStep(codes, src, j);
  }

  /** OR-ing in code j advances its byte by one code. */
  lemma PackStep(codes: seq<bv8>, src: nat, j: nat)
    requires src + QK <= |codes| && j < QK
    ensures PackByte(codes, src + j % LANES, j / LANES + 1)
         == PackByte(codes, src + j % LANES, j / LANES) | Place(codes[src + j], j / LANES)
  {
    assert j % LANES + j / LANES * LANES == j;
  }

  lemma FilledStep(j: nat)
    requires j < QK
    ensures forall lane :: 0 <= lane < LANES ==>
                             Filled(j + 1, lane) == Filled(j, lane) + if lane == j % LANES then 1 else 0
    ensures Filled(j, j % LANES) == j / LANES < 4
  {
  }

  /** Unpacking inverts packing exactly when every code fits its two bits. */
  lemma UnpackPack(codes: seq<bv8>)
    requires |codes| % QK == 0
    ensures Unpack(Pack(codes)) == codes <==> forall k :: 0 <= k < |codes| ==> codes[k] <= 3
  {
    var p := Pack(codes);
    assert |p| / LANES * QK == |codes|;
    if forall k :: 0 <= k < |codes| ==> codes[k] <= 3 {
      forall k | 0 <= k < |codes| ensures Unpack(p)[k] == codes[k] {
        FieldOf(codes, k);
      }
    } else {
      var k :| 0 <= k < |codes| && codes[k] > 3;
      UnpackedSmall(p, k);
    }
  }

  lemma UnpackedSmall(p: seq<bv8>, k: nat)
    requires k < |p| / LANES * QK
    ensures Unpack(p)[k] <= 3
  {
    FieldSmall(p[k / QK * LANES + k % LANES], k % QK / LANES);
  }

  lemma FieldSmall(b: bv8, g: int)
    ensures Field(b, g) <= 3
  {
  }

  lemma SlotInverse(k: nat)
    ensures var b, g := k / QK * LANES + k % LANES, k % QK / LANES;
            Slot(b, 0) + g * LANES == k && b / LANES == k / QK && g < 4
  {
    var block, lane, rest := k / QK, k % LANES, k % QK;
    assert k == Idx(LANES, 4 * block + rest / LANES, rest % LANES);
    IdxDivMod(LANES, 4 * block + rest / LANES, rest % LANES);
    IdxDivMod(LANES, block, lane);
  }

  lemma SlotIndex(b: nat, g: nat)
    requires g < 4
    ensures var k := Slot(b, 0) + g * LANES;
            k / QK * LANES + k % LANES == b && k % QK / LANES == g
  {
    var block, lane := b / LANES, b % LANES;
    var k := Slot(b, 0) + g * LANES;
    assert k == Idx(QK, block, g * LANES + lane) == Idx(LANES, 4 * block + g, lane);
    IdxDivMod(QK, block, g * LANES + lane);
    IdxDivMod(LANES, 4 * block + g, lane);
    IdxDivMod(LANES, g, lane);
  }

  lemma FieldOf(codes: seq<bv8>, k: nat)
    requires |codes| % QK == 0 && k < |codes|
    requires forall k :: 0 <= k < |codes| ==> codes[k] <= 3
    ensures Code(Pack(codes), 0, k) == codes[k]
  {
    SlotInverse(k);
    var b, g := k / QK * LANES + k % LANES, k % QK / LANES;
    var o := Slot(b, 0);
    assert o + g * LANES == k;
    CodeRange(k, |codes|);
    assert Pack(codes)[b] == PackByte(codes, o, 4);
    FourFields(codes, o);
    FieldsDisjoint(codes[o], codes[o + LANES], codes[o + 2 * LANES], codes[o + 3 * LANES]);
  }

  /** Code k's byte exists, and so do the three codes that share it. */
  lemma CodeRange(k: nat, n: nat)
    requires n % QK == 0 && k < n
    ensures k / QK * QK + QK <= n && k / QK * LANES + LANES <= n / QK * LANES && n / QK * LANES / LANES * QK == n
    ensures (k / QK * LANES + k % LANES) / LANES * QK + QK <= n
    ensures Slot(k / QK * LANES + k % LANES, 0) + 3 * LANES < n
  {
    SlotInverse(k);
  }

  lemma FourFields(codes: seq<bv8>, o: nat)
    requires o + 3 * LANES < |codes|
    ensures PackByte(codes, o, 4)
         == Merge(codes[o], codes[o + LANES], codes[o + 2 * LANES], codes[o + 3 * LANES])
  {
    assert PackByte(codes, o, 1) == 0 | Place(codes[o], 0);
    assert PackByte(codes, o, 2) == PackByte(codes, o, 1) | Place(codes[o + LANES], 1);
    assert PackByte(codes, o, 3) == PackByte(codes, o, 2) | Place(codes[o + 2 * LANES], 2);
  }

  function Merge(c0: bv8, c1: bv8, c2: bv8, c3: bv8): bv8 {
    (((0 | (c0 << 6)) | (c1 << 4)) | (c2 << 2)) | c3
  }

  lemma FieldsDisjoint(c0: bv8, c1: bv8, c2: bv8, c3: bv8)
    requires c0 <= 3 && c1 <= 3 && c2 <= 3 && c3 <= 3
    ensures var b := Merge(c0, c1, c2, c3);
            Field(b, 0) == c0 && Field(b, 1) == c1 && Field(b, 2) == c2 && Field(b, 3) == c3
  {
  }

  /** Packing inverts unpacking for every byte string of whole blocks. */
  lemma PackUnpack(p: seq<bv8>)
    requires |p| % LANES == 0
    ensures Pack(Unpack(p)) == p
  {
    var codes := Unpack(p);
    assert |codes| / QK * LANES == |p|;
    forall b | 0 <= b < |p| ensures Pack(codes)[b] == p[b] {
      RepackedByte(p, b);
    }
  }

  lemma RepackedByte(p: seq<bv8>, b: nat)
    requires |p| % LANES == 0 && b < |p|
    ensures Slot(b, 0) + 3 * LANES < |Unpack(p)| && PackByte(Unpack(p), Slot(b, 0), 4) == p[b]
  {
    UnpackedSlot(p, b, 0);
    UnpackedSlot(p, b, 1);
    UnpackedSlot(p, b, 2);
    UnpackedSlot(p, b, 3);
    FourFields(Unpack(p), Slot(b, 0));
    FieldsCover(p[b]);
  }

  lemma UnpackedSlot(p: seq<bv8>, b: nat, g: nat)
    requires |p| % LANES == 0 && b < |p| && g < 4
    ensures 0 <= Slot(b, 0) + g * LANES < |Unpack(p)| && Unpack(p)[Slot(b, 0) + g * LANES] == Field(p[b], g)
  {
    SlotIndex(b, g);
    var k := Slot(b, 0) + g * LANES;
    assert k / QK * LANES + k % LANES == b;
    assert k < |p| / LANES * QK;
  }

  lemma FieldsCover(b: bv8)
    ensures Merge(Field(b, 0), Field(b, 1), Field(b, 2), Field(b, 3)) == b
  {
  }

  /** The bit order, on one block: the byte 0x1B holds the codes 0, 1, 2, 3 of weights 0, 32, 64
      and 96 from its highest bits down, and its neighbour those of weights 1, 33, 65 and 97. */
  lemma BitOrder(p: seq<bv8>)
    requires |p| == LANES && p[0] == 0x1B && p[1] == 0xE4
    ensures |Unpack(p)| == QK
    ensures Unpack(p)[0] == 0 && Unpack(p)[32] == 1 && Unpack(p)[64] == 2 && Unpack(p)[96] == 3
    ensures Unpack(p)[1] == 3 && Unpack(p)[33] == 2 && Unpack(p)[65] == 1 && Unpack(p)[97] == 0
  {
  }
}
