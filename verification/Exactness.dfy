/**
 Why the CPU and NPU outputs are the same bits: every integer that reaches floating
 point is exact in binary32, so both paths multiply equal numbers by the same factor.
 */
module Exactness {
  import opened Matrix
  import opened Oracle
  import opened I2S

  const TWO_24 := 0x100_0000

  function Pow2(e: nat): (p: nat)
    ensures p >= 1
  {
    if e == 0 then 1 else 2 * Pow2(e - 1)
  }

  /** An integer with a 24-bit significand: the precision of binary32
      (section 3.3 of IEEE 754-2019). */
  ghost predicate Significand24(x: int) {
    exists m: int, e: nat :: Scaled(m, e) == x && -TWO_24 < m < TWO_24
  }

  function Scaled(m: int, e: nat): int {
    m * Pow2(e)
  }

  lemma SmallIsExact(x: int)
    requires -TWO_24 <= x <= TWO_24
    ensures Significand24(x)
  {
    if x == TWO_24 || x == -TWO_24 {
      assert Pow2(1) == 2 * Pow2(0);
      assert Scaled(x / 2, 1) == x;
    } else {
      assert Scaled(x, 0) == x;
    }
  }

  lemma OddBeyondIsNot(x: int)
    requires x % 2 == 1 && (x >= TWO_24 || x <= -TWO_24)
    ensures !Significand24(x)
  {
    forall m: int, e: nat | Scaled(m, e) == x
      ensures !(-TWO_24 < m < TWO_24)
    {
      ScaledParity(m, e);
    }
  }

  lemma ScaledParity(m: int, e: nat)
    ensures if e == 0 then Scaled(m, e) == m else Scaled(m, e) % 2 == 0
  {
    if e > 0 {
      assert Scaled(m, e) == 2 * (m * Pow2(e - 1));
    }
  }

  /** Activations no lower than -lim, int8 otherwise, and codes 0, 1 or 2, on columns [0, K). */
  ghost predicate InRange(a: Mat, u: Mat, t: int, n: int, K: nat, lim: int) {
    forall k :: 0 <= k < K ==> -lim <= a(t, k) <= 127 && 0 <= u(n, k) <= 2
  }

  /** Bounds of the three accumulators of one output, for every prefix of the K loop. */
  lemma PartialSums(a: Mat, u: Mat, s: Mat, t: int, n: int, K: nat, lim: int, hi: nat)
    requires 127 <= lim && InRange(a, u, t, n, K, lim) && hi <= K
    requires forall k :: 0 <= k < K ==> s(n, k) == u(n, k) - 1
    ensures -(lim * 2 * hi) <= Dot(a, u, t, n, 0, hi) <= lim * 2 * hi
    ensures -(lim * hi) <= Dot(a, Ones(), t, n, 0, hi) <= lim * hi
    ensures -(lim * hi) <= Dot(a, s, t, n, 0, hi) <= lim * hi
  {
    DotBound(a, u, t, n, 0, hi, lim, 2);
    DotBound(a, Ones(), t, n, 0, hi, lim, 1);
    DotBound(a, s, t, n, 0, hi, lim, 1);
  }

  /** Every biased accumulator over K columns is exact in binary32. */
  ghost predicate AlwaysExact(K: nat, lim: int) {
    forall a: Mat, u: Mat, t: int, n: int :: InRange(a, u, t, n, K, lim) ==> Significand24(Dot(a, u, t, n, 0, K))
  }

  /** When q columns of the largest products and one more of r just exceed 2^24, q columns are
      exactly how far the biased accumulator stays exact. */
  lemma ExactUpTo(lim: int, q: nat, r: int, K: nat)
    requires 127 <= lim && 0 < r <= lim && 2 * lim * q + r == TWO_24 + 1
    ensures AlwaysExact(K, lim) <==> K <= q
  {
    if K <= q {
      forall a: Mat, u: Mat, t: int, n: int | InRange(a, u, t, n, K, lim)
        ensures Significand24(Dot(a, u, t, n, 0, K))
      {
        WithinExact(lim, q, r, K, a, u, t, n);
      }
    } else {
      WorstInexact(lim, q, r, K);
    }
  }

  lemma WithinExact(lim: int, q: nat, r: int, K: nat, a: Mat, u: Mat, t: int, n: int)
    requires 127 <= lim && 0 < r && 2 * lim * q + r == TWO_24 + 1 && K <= q && InRange(a, u, t, n, K, lim)
    ensures Significand24(Dot(a, u, t, n, 0, K))
  {
    WithinLimit(lim, q, r, K);
    DotBound(a, u, t, n, 0, K, lim, 2);
    SmallIsExact(Dot(a, u, t, n, 0, K));
  }

  lemma WorstInexact(lim: int, q: nat, r: int, K: nat)
    requires 127 <= lim && 0 < r <= lim && 2 * lim * q + r == TWO_24 + 1 && K > q
    ensures InRange(WorstActs(lim, q, r), WorstCodes(q), 0, 0, K, lim)
    ensures !Significand24(Dot(WorstActs(lim, q, r), WorstCodes(q), 0, 0, 0, K))
  {
    WorstInRange(lim, q, r, K);
    OddBeyondIsNot(-TWO_24 - 1);
    assert Dot(WorstActs(lim, q, r), WorstCodes(q), 0, 0, 0, K) == -TWO_24 - 1 by {
      WorstTail(lim, q, r, K);
      assert -2 * lim * q == -(2 * lim * q);
    }
  }

  lemma WorstInRange(lim: int, q: nat, r: int, K: nat)
    requires 127 <= lim && 0 < r <= lim
    ensures InRange(WorstActs(lim, q, r), WorstCodes(q), 0, 0, K, lim)
  {
  }

  lemma WithinLimit(lim: int, q: nat, r: int, K: nat)
    requires 0 <= lim && 0 < r && 2 * lim * q + r == TWO_24 + 1 && K <= q
    ensures lim * 2 * (K - 0) <= TWO_24
  {
    MulMono(K, q, lim * 2);
    assert q * (lim * 2) == 2 * lim * q && K * (lim * 2) == lim * 2 * K;
  }

  /** For any int8 activations the limit is 65536 columns. */
  lemma ExactUpTo65536(K: nat)
    ensures AlwaysExact(K, 128) <==> K <= 65536
  {
    ExactUpTo(128, 65536, 1, K);
  }

  /** The quantiser stores nothing below -127, and for such rows the limit is 66052 columns. */
  lemma ExactUpTo66052(K: nat)
    ensures AlwaysExact(K, 127) <==> K <= 66052
  {
    ExactUpTo(127, 66052, 9, K);
  }

  function WorstActs(lim: int, q: nat, r: int): Mat {
    (t: int, k: int) => if k < q then -lim else if k == q then -r else 0
  }

  function WorstCodes(q: nat): Mat {
    (n: int, k: int) => if k < q then 2 else 1
  }

  lemma {:induction false} WorstDot(lim: int, q: nat, r: int, hi: nat)
    requires hi <= q
    ensures Dot(WorstActs(lim, q, r), WorstCodes(q), 0, 0, 0, hi) == -2 * lim * hi
  {
    if hi > 0 {
      WorstDot(lim, q, r, hi - 1);
      assert -2 * lim * hi == -2 * lim * (hi - 1) - 2 * lim;
    }
  }

  lemma {:induction false} WorstTail(lim: int, q: nat, r: int, K: nat)
    requires K > q
    ensures Dot(WorstActs(lim, q, r), WorstCodes(q), 0, 0, 0, K) == -2 * lim * q - r
  {
    if K == q + 1 {
      WorstDot(lim, q, r, q);
    } else {
      WorstTail(lim, q, r, K - 1);
    }
  }

  /** binary32 arithmetic as far as the two epilogues need it: rounding of exact results
      to the nearest value, with multiplication and division left uninterpreted. */
  datatype Float32 = Float32(rnd: real -> real, mul: (real, real) -> real, div: (real, real) -> real)
  {
    /** Rounding keeps every value that is already representable. */
    ghost predicate Ieee() {
      forall x: int :: Significand24(x) ==> rnd(x as real) == x as real
    }

    /** The patched CPU loop (the gemm's float result minus the float activation sum), the NPU
        epilogue (the converted signed accumulator) and the reference epilogue (the difference
        taken in int32, then converted) give the same number. */
    lemma SameValue(biased: int, asum: int)
      requires Ieee()
      requires -TWO_24 <= biased <= TWO_24 && -TWO_24 <= asum <= TWO_24
      requires -TWO_24 <= biased - asum <= TWO_24
      ensures rnd(rnd(biased as real) - rnd(asum as real)) == rnd((biased - asum) as real) == (biased - asum) as real
    {
      SmallIsExact(biased);
      SmallIsExact(asum);
      SmallIsExact(biased - asum);
      assert biased as real - asum as real == (biased - asum) as real;
    }
  }

  /** The packed codes of row n are ternary: the unused code 3 does not occur. */
  ghost predicate TernaryRow(p: seq<bv8>, K: nat, N: nat, n: int) {
    forall k :: 0 <= k < K ==> Codes(p, K, N)(n, k) <= 2
  }

  /** Widths for which nothing is lost: 65536 columns of int8, or 66052 of activations the
      quantiser can store. */
  predicate ExactWidth(aq: seq<Int8>, K: nat) {
    K <= 65536 || (K <= 66052 && forall q :: 0 <= q < |aq| ==> -127 <= aq[q])
  }

  /** The bound that goes with such a width. */
  function Limit(K: nat): nat {
    if K <= 65536 then 128 else 127
  }

  lemma WidthBound(K: nat)
    requires K <= 66052
    ensures Limit(K) * 2 * K <= TWO_24
  {
  }

  /** For such widths the int32 accumulators of both engines never overflow and the CPU loop,
      the NPU epilogue and the reference epilogue multiply the same number by the factor. */
  lemma BitIdentical(fp: Float32, aq: seq<Int8>, stride: nat, p: seq<bv8>, K: nat, N: nat, t: int, n: int)
    requires fp.Ieee() && ExactWidth(aq, K) && K % QK == 0 && N * (K / 4) <= |p| && 0 <= n < N
    requires TernaryRow(p, K, N, n)
    ensures var a := View(aq, stride);
            var biased := Dot(a, Codes(p, K, N), t, n, 0, K);
            var asum := Dot(a, Ones(), t, n, 0, K);
            var signed := Dot(a, Ternary(p, K, N), t, n, 0, K);
            && Wrap32(biased) == biased && Wrap32(asum) == asum && Wrap32(signed) == signed
            && fp.rnd(fp.rnd(biased as real) - fp.rnd(asum as real)) == fp.rnd(signed as real) == fp.rnd((biased - asum) as real)
  {
    SumsBounded(aq, stride, p, K, N, t, n);
    var a := View(aq, stride);
    OffsetIdentity(a, p, K, N, t, n);
    fp.SameValue(Dot(a, Codes(p, K, N), t, n, 0, K), Dot(a, Ones(), t, n, 0, K));
  }

  lemma SumsBounded(aq: seq<Int8>, stride: nat, p: seq<bv8>, K: nat, N: nat, t: int, n: int)
    requires ExactWidth(aq, K) && K % QK == 0 && N * (K / 4) <= |p| && 0 <= n < N && TernaryRow(p, K, N, n)
    ensures var a := View(aq, stride);
            && -TWO_24 <= Dot(a, Codes(p, K, N), t, n, 0, K) <= TWO_24
            && -TWO_24 <= Dot(a, Ones(), t, n, 0, K) <= TWO_24
            && -TWO_24 <= Dot(a, Ternary(p, K, N), t, n, 0, K) <= TWO_24
  {
    var a := View(aq, stride);
    assert InRange(a, Codes(p, K, N), t, n, K, Limit(K));
    forall k | 0 <= k < K ensures Ternary(p, K, N)(n, k) == Codes(p, K, N)(n, k) - 1 {
      InTensorAll(p, K, N, n, k);
    }
    PartialSums(a, Codes(p, K, N), Ternary(p, K, N), t, n, K, Limit(K), K);
    WidthBound(K);
  }
}
