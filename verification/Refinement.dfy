/** The accelerated accumulator against the naive integer oracle, down to the output bits. */
module Refinement {
  import opened Matrix
  import opened Buffers
  import opened I2S
  import opened Oracle
  import opened Exactness
  import opened ChunkedGemm

  /** Inside the batch the zero-extended activations are the caller's buffer. */
  lemma ActsInside(aq: seq<Int8>, stride: nat, T: nat, K: nat, b: Mat, t: int, n: int)
    requires 0 <= t < T
    ensures Dot(Acts(aq, stride, T, K), b, t, n, 0, K) == Dot(View(aq, stride), b, t, n, 0, K)
  {
    DotShift(Acts(aq, stride, T, K), b, t, n, View(aq, stride), b, t, n, 0, K);
  }

  /** i2s_unpack_matrix gives the oracle exactly the codes the packed tensor holds. */
  lemma OracleReadsCodes(w: seq<int>, src: seq<bv8>, K: nat, N: nat, n: int, k: int)
    requires K % QK == 0 && N * (K / 4) == |src| && |w| == |Unpack(src)|
    requires forall q :: 0 <= q < |w| ==> w[q] == Unpack(src)[q] as int
    requires 0 <= n < N && 0 <= k < K
    ensures View(w, K)(n, k) == Codes(src, K, N)(n, k)
  {
    UnpackedCell(src, K, N, n, k);
  }

  /** Reading the same codes, the reference accumulator and the packed one agree. */
  lemma ReferenceDot(w: seq<int>, a: Mat, src: seq<bv8>, K: nat, N: nat, t: int, n: int)
    requires K % QK == 0 && N * (K / 4) == |src| && |w| == |Unpack(src)|
    requires forall q :: 0 <= q < |w| ==> w[q] == Unpack(src)[q] as int
    requires 0 <= n < N
    ensures Dot(a, View(w, K), t, n, 0, K) == Dot(a, Codes(src, K, N), t, n, 0, K)
  {
    forall k | 0 <= k < K ensures View(w, K)(n, k) == Codes(src, K, N)(n, k) {
      OracleReadsCodes(w, src, K, N, n, k);
    }
    DotShift(a, View(w, K), t, n, a, Codes(src, K, N), t, n, 0, K);
  }

  /** Bytes behind the packed weights, such as the tensor scale, do not matter. */
  lemma PackedPrefix(packed: seq<bv8>, src: seq<bv8>, K: nat, N: nat, a: Mat, t: int, n: int)
    requires K % QK == 0 && N * (K / 4) == |packed| && packed <= src && 0 <= n < N
    ensures Dot(a, Codes(packed, K, N), t, n, 0, K) == Dot(a, Codes(src, K, N), t, n, 0, K)
  {
    forall k | 0 <= k < K ensures Codes(packed, K, N)(n, k) == Codes(src, K, N)(n, k) {
      PackedCell(packed, src, K, N, n, k);
    }
    DotShift(a, Codes(packed, K, N), t, n, a, Codes(src, K, N), t, n, 0, K);
  }

  lemma PackedCell(packed: seq<bv8>, src: seq<bv8>, K: nat, N: nat, n: int, k: int)
    requires K % QK == 0 && N * (K / 4) == |packed| && packed <= src && 0 <= n < N && 0 <= k < K
    ensures Codes(packed, K, N)(n, k) == Codes(src, K, N)(n, k)
  {
    InTensorAll(packed, K, N, n, k);
    InTensorAll(src, K, N, n, k);
  }

  /** `rows` holds the activations without their stride, as the oracle reads them. */
  ghost predicate RowCopy(rows: seq<Int8>, aq: seq<Int8>, stride: nat, T: nat, K: nat) {
    forall t, k :: 0 <= t < T && 0 <= k < K ==> View(rows, K)(t, k) == View(aq, stride)(t, k)
  }

  /** Every accumulator cell is the reference accumulator minus the activation sum, both
      taken as int32, for any shape, batch, stride, earlier buffer contents and bytes behind
      the packed weights. */
  lemma RefinesReference(acc: seq<int>, ref: seq<int>, w: seq<int>, aq: seq<Int8>, stride: nat, rows: seq<Int8>,
                         T: nat, K: nat, N: nat, src: seq<bv8>, t: int, n: int)
    requires IsProduct(acc, aq, stride, T, K, N, src) && RowCopy(rows, aq, stride, T, K)
    requires K % QK == 0 && 0 <= N * (K / 4) <= |src| && |w| == |Unpack(src[..N * (K / 4)])|
    requires forall q :: 0 <= q < |w| ==> w[q] == Unpack(src[..N * (K / 4)])[q] as int
    requires 0 <= t < T && 0 <= n < N
    requires View(ref, N)(t, n) == Wrap32(Dot(View(rows, K), View(w, K), t, n, 0, K))
    ensures At(acc, N, t, n, 0) == Wrap32(View(ref, N)(t, n) - Dot(View(rows, K), Ones(), t, n, 0, K))
  {
    var a := View(rows, K);
    ReferenceDot(w, a, src[..N * (K / 4)], K, N, t, n);
    PackedPrefix(src[..N * (K / 4)], src, K, N, a, t, n);
    SignedDot(rows, aq, stride, T, K, N, src, t, n);
    OffsetIdentity(a, src, K, N, t, n);
    WrapAdd(Dot(a, View(w, K), t, n, 0, K), -Dot(a, Ones(), t, n, 0, K));
  }

  lemma SignedDot(rows: seq<Int8>, aq: seq<Int8>, stride: nat, T: nat, K: nat, N: nat, src: seq<bv8>, t: int, n: int)
    requires RowCopy(rows, aq, stride, T, K) && 0 <= t < T
    ensures Dot(Acts(aq, stride, T, K), Ternary(src, K, N), t, n, 0, K)
         == Dot(View(rows, K), Ternary(src, K, N), t, n, 0, K)
  {
    var w := Ternary(src, K, N);
    ActsInside(aq, stride, T, K, w, t, n);
    DotShift(View(rows, K), w, t, n, View(aq, stride), w, t, n, 0, K);
  }

  /** i2s_apply_epilogue: the reference output of every token and feature. */
  method ApplyEpilogue(fp: Float32, acc: seq<int>, N: nat, T: nat, scales: seq<real>, sums: seq<int>, ws: real, dst: array<real>)
    requires |acc| == T * N == dst.Length && |scales| == |sums| == T
    modifies dst
    ensures forall t, n :: 0 <= t < T && 0 <= n < N ==>
              At(dst[..], N, t, n, 0.0) == fp.mul(fp.rnd((View(acc, N)(t, n) - sums[t]) as real), fp.div(ws, scales[t]))
  {
    for t := 0 to T
      invariant forall r, n :: 0 <= r < t && 0 <= n < N ==>
                  At(dst[..], N, r, n, 0.0) == fp.mul(fp.rnd((View(acc, N)(r, n) - sums[r]) as real), fp.div(ws, scales[r]))
    {
      var post, asum := fp.div(ws, scales[t]), sums[t];
      RowsInside(N, t, T);
      MulMono(t + 1, T, N);
      CombineWindow(dst, N, t, 0, acc, N, t, 0, 1, N, (_: real, x: int) => fp.mul(fp.rnd((x - asum) as real), post), 0.0, 0);
    }
  }

  /** For any exact width of ternary weights nothing wraps, and the number the NPU
      epilogue scales is the one the CPU loop and the reference epilogue scale. */
  lemma SameBits(fp: Float32, acc: seq<int>, aq: seq<Int8>, stride: nat, T: nat, K: nat, N: nat, src: seq<bv8>,
                 t: int, n: int)
    requires IsProduct(acc, aq, stride, T, K, N, src) && fp.Ieee()
    requires ExactWidth(aq, K) && K % QK == 0 && N * (K / 4) <= |src| && 0 <= t < T && 0 <= n < N
    requires TernaryRow(src, K, N, n)
    ensures var a := View(aq, stride);
            var biased := Dot(a, Codes(src, K, N), t, n, 0, K);
            var asum := Dot(a, Ones(), t, n, 0, K);
            && At(acc, N, t, n, 0) == biased - asum
            && fp.rnd(At(acc, N, t, n, 0) as real) == fp.rnd(fp.rnd(biased as real) - fp.rnd(asum as real))
            && fp.rnd(At(acc, N, t, n, 0) as real) == fp.rnd((biased - asum) as real)
  {
    ActsInside(aq, stride, T, K, Ternary(src, K, N), t, n);
    BitIdentical(fp, aq, stride, src, K, N, t, n);
    OffsetIdentity(View(aq, stride), src, K, N, t, n);
  }
}
