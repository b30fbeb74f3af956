/**
 The integer oracle every accelerated path must reproduce: the naive accumulation over
 unsigned codes, its signed counterpart, and the identity between the two.
 */
module Oracle {
  import opened Matrix
  import opened I2S

  type Byte = x: int | 0 <= x < 256

  /** Signed ternary weight (n, k) of a packed [N, K] tensor; zero outside it. */
  function Ternary(p: seq<bv8>, K: nat, N: nat): Mat {
    (n: int, k: int) => if InTensor(p, K, N, n, k) then CodeOf(p, K, n, k) - 1 else 0
  }

  /** Unsigned code (n, k) of the same tensor. */
  function Codes(p: seq<bv8>, K: nat, N: nat): Mat {
    (n: int, k: int) => if InTensor(p, K, N, n, k) then CodeOf(p, K, n, k) else 0
  }

  predicate InTensor(p: seq<bv8>, K: nat, N: nat, n: int, k: int) {
    0 <= n < N && 0 <= k < K && 0 <= n * (K / 4) && n * (K / 4) + k / QK * LANES + LANES <= |p|
  }

  function CodeOf(p: seq<bv8>, K: nat, n: int, k: int): (c: int)
    requires 0 <= k && 0 <= n * (K / 4) && n * (K / 4) + k / QK * LANES + LANES <= |p|
    ensures 0 <= c <= 3
  {
    FieldSmall(p[n * (K / 4) + k / QK * LANES + k % LANES], k % QK / LANES);
    Code(p, n * (K / 4), k) as int
  }

  /** Enough packed bytes for an [N, K] tensor of whole blocks: every cell is inside. */
  lemma InTensorAll(p: seq<bv8>, K: nat, N: nat, n: int, k: int)
    requires K % QK == 0 && N * (K / 4) <= |p| && 0 <= n < N && 0 <= k < K
    ensures InTensor(p, K, N, n, k)
  {
    RowFits(K, n, N);
    RowCode(p, K, n, k);
  }

  /** The naive triple loop, with the int32 accumulator wrapping at every step. */
  method RefAccumulate(w: seq<Byte>, aq: seq<Int8>, K: nat, N: nat, T: nat, acc: array<int>)
    requires |w| == N * K && |aq| == T * K && acc.Length == T * N
    modifies acc
    ensures forall t, n :: 0 <= t < T && 0 <= n < N ==>
                             View(acc[..], N)(t, n) == Wrap32(Dot(View(aq, K), View(w, K), t, n, 0, K))
  {
    for t := 0 to T
      invariant forall q :: 0 <= q < t * N && q < acc.Length ==> acc[q] == RefCell(w, aq, K, N, q)
    {
      IdxRow(N, t, T);
      for n := 0 to N
        invariant forall q :: 0 <= q < t * N + n && q < acc.Length ==> acc[q] == RefCell(w, aq, K, N, q)
      {
        var s := RefDot(w, aq, K, t, n, N, T);
        IdxDivMod(N, t, n);
        IdxBound(N, T, t, n);
        acc[t * N + n] := s;
      }
    }
    forall t, n | 0 <= t < T && 0 <= n < N
      ensures View(acc[..], N)(t, n) == Wrap32(Dot(View(aq, K), View(w, K), t, n, 0, K))
    {
      IdxBound(N, T, t, n);
      IdxDivMod(N, t, n);
      assert acc[Idx(N, t, n)] == RefCell(w, aq, K, N, Idx(N, t, n));
    }
  }

  lemma IdxRow(N: nat, t: nat, T: nat)
    requires t < T
    ensures 0 <= t * N && (t + 1) * N == t * N + N <= T * N
  {
    MulMono(t + 1, T, N);
  }

  ghost function RefCell(w: seq<int>, aq: seq<int>, K: nat, N: nat, q: nat): int
    requires N > 0
  {
    Wrap32(Dot(View(aq, K), View(w, K), q / N, q % N, 0, K))
  }

  method RefDot(w: seq<Byte>, aq: seq<Int8>, K: nat, t: nat, n: nat, ghost N: nat, ghost T: nat) returns (s: int)
    requires |w| == N * K && |aq| == T * K && t < T && n < N
    ensures s == Wrap32(Dot(View(aq, K), View(w, K), t, n, 0, K))
  {
    s := 0;
    for k := 0 to K
      invariant s == Wrap32(Dot(View(aq, K), View(w, K), t, n, 0, k))
    {
      IdxBound(K, N, n, k);
      IdxBound(K, T, t, k);
      ghost var before := Dot(View(aq, K), View(w, K), t, n, 0, k);
      WrapAdd(before, aq[t * K + k] * w[n * K + k]);
      s := Wrap32(s + aq[t * K + k] * w[n * K + k]);
    }
  }

  function Ones(): Mat {
    (r: int, c: int) => 1
  }

  /** Subtracting the activation sum turns the biased accumulator into the signed one. */
  lemma OffsetIdentity(a: Mat, p: seq<bv8>, K: nat, N: nat, t: int, n: int)
    requires K % QK == 0 && N * (K / 4) <= |p| && 0 <= n < N
    ensures Dot(a, Codes(p, K, N), t, n, 0, K) - Dot(a, Ones(), t, n, 0, K) == Dot(a, Ternary(p, K, N), t, n, 0, K)
  {
    forall k | 0 <= k < K ensures Ternary(p, K, N)(n, k) == Codes(p, K, N)(n, k) - 1 {
      InTensorAll(p, K, N, n, k);
    }
    OffsetDot(a, Codes(p, K, N), Ternary(p, K, N), t, n, K);
  }

  lemma {:induction false} OffsetDot(a: Mat, u: Mat, s: Mat, t: int, n: int, hi: nat)
    requires forall k :: 0 <= k < hi ==> s(n, k) == u(n, k) - 1
    ensures Dot(a, u, t, n, 0, hi) - Dot(a, Ones(), t, n, 0, hi) == Dot(a, s, t, n, 0, hi)
  {
    if hi > 0 {
      OffsetDot(a, u, s, t, n, hi - 1);
      var x, c := a(t, hi - 1), u(n, hi - 1);
      assert s(n, hi - 1) == c - 1;
      assert x * c - x * 1 == x * (c - 1);
    }
  }
}
