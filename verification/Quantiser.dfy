/** Per-token activation quantisation, over exact reals. */
module Quantiser {
  import opened Matrix
  import opened I2S
  import opened Oracle
  import opened Exactness

  function Abs(x: real): real {
    if x < 0.0 then -x else x
  }

  /** r is nearest to x, and a tie goes away from zero. */
  predicate Away(x: real, r: int) {
    if x < 0.0 then r as real - 0.5 < x <= r as real + 0.5 else r as real - 0.5 <= x < r as real + 0.5
  }

  /** roundf: nearest integer, halves away from zero. */
  function RoundAway(x: real): (r: int)
    ensures Away(x, r)
  {
    if x < 0.0 then -(0.5 - x).Floor else (x + 0.5).Floor
  }

  ghost predicate Bounds(x: seq<real>, amax: real) {
    forall k :: 0 <= k < |x| ==> Abs(x[k]) <= amax
  }

  /** First pass: the largest magnitude, zero for an empty row. */
  method MaxMagnitude(x: seq<real>) returns (amax: real)
    ensures 0.0 <= amax && Bounds(x, amax)
    ensures amax == 0.0 || exists k :: 0 <= k < |x| && Abs(x[k]) == amax
  {
    amax := 0.0;
    for k := 0 to |x|
      invariant 0.0 <= amax && Bounds(x[..k], amax)
      invariant amax == 0.0 || exists j :: 0 <= j < |x| && Abs(x[j]) == amax
    {
      var a := Abs(x[k]);
      assert Bounds(x[..k], if a > amax then a else amax);
      if a > amax { amax := a; }
    }
  }

  /** The code's two clamps. */
  function Clamp(v: int): Int8 {
    if v > 127 then 127 else if v < -128 then -128 else v
  }

  /** The stored code of one element: scale, round, clamp. */
  function Stored(x: real, s: real): Int8 {
    Clamp(RoundAway(x * s))
  }

  lemma ScaledInside(x: real, m: real, s: real)
    requires 0.0 < m && 0.0 < s && s * m == 127.0 && Abs(x) <= m
    ensures Abs(x * s) <= 127.0
    ensures Abs(x) == m ==> Abs(x * s) == 127.0
  {
    MulOrder(Abs(x), m, s);
    if x < 0.0 { assert x * s == -((-x) * s); }
  }

  lemma MulOrder(a: real, b: real, s: real)
    requires 0.0 <= a <= b && 0.0 <= s
    ensures 0.0 <= a * s <= b * s
  {
    assert (b - a) * s >= 0.0;
  }

  /** Rounding a value within +-127 stays there, so neither clamp fires. */
  lemma NoClamp(v: real)
    requires Abs(v) <= 127.0
    ensures -127 <= RoundAway(v) <= 127 && Clamp(RoundAway(v)) == RoundAway(v)
    ensures Abs(v) == 127.0 ==> RoundAway(v) == 127 || RoundAway(v) == -127
  {
  }

  /** Dequantised, a code is within half a step of its value. */
  lemma HalfStep(x: real, s: real, q: int)
    requires 0.0 < s && Abs(q as real - x * s) <= 0.5
    ensures Abs(q as real / s - x) <= 1.0 / (2.0 * s)
  {
    var d := q as real / s - x;
    assert q as real / s * s == q as real;
    assert d * s == q as real - x * s;
    var h := 1.0 / (2.0 * s);
    assert h * s == 0.5 by { assert h * (2.0 * s) == 1.0; }
    if Abs(d) > h {
      assert (Abs(d) - h) * s > 0.0;
      if d < 0.0 { assert (-d) * s == -(d * s); }
    }
  }

  /** q is the code of x at scale s: nearest with ties away from zero, in range, and at most
      half a step off. */
  ghost predicate Nearest(x: real, q: int, s: real)
    requires 0.0 < s
  {
    && -127.0 <= x * s <= 127.0 && -127 <= q <= 127
    && (if x * s < 0.0 then q as real - 0.5 < x * s <= q as real + 0.5 else q as real - 0.5 <= x * s < q as real + 0.5)
    && -(1.0 / (2.0 * s)) <= q as real / s - x <= 1.0 / (2.0 * s)
  }

  /** The scale and codes of one row. */
  ghost predicate Quantised(x: seq<real>, q: seq<int>, s: real) {
    && |q| == |x| && 0.0 < s
    && forall k :: 0 <= k < |x| ==> Nearest(x[k], q[k], s)
  }

  ghost predicate Extreme(q: int) {
    q == 127 || q == -127
  }

  lemma StoredAt(x: real, m: real, s: real)
    requires 0.0 < m && 0.0 < s && s * m == 127.0 && Abs(x) <= m
    ensures Nearest(x, Stored(x, s), s)
    ensures Abs(x) == m ==> Extreme(Stored(x, s))
  {
    ScaledInside(x, m, s);
    NoClamp(x * s);
    HalfStep(x, s, RoundAway(x * s));
  }

  /** Second pass: store the codes and sum them in int32. */
  method Encode(x: seq<real>, s: real, q: array<int>) returns (sum: int)
    requires q.Length == |x|
    modifies q
    ensures forall k :: 0 <= k < |x| ==> q[k] == Stored(x[k], s)
    ensures sum == Wrap32(Sum(q[..], |x|))
  {
    sum := 0;
    for k := 0 to |x|
      invariant forall j :: 0 <= j < k ==> q[j] == Stored(x[j], s)
      invariant sum == Wrap32(Sum(q[..k], k))
    {
      ghost var before := q[..k];
      q[k] := Stored(x[k], s);
      SumStep(before, q[k], sum);
      assert q[..k + 1] == before + [q[k]];
      sum := Wrap32(sum + q[k]);
    }
    assert q[..|x|] == q[..];
  }

  /** One row as a matrix. */
  function Line(q: seq<int>): Mat {
    (r: int, c: int) => if 0 <= c < |q| then q[c] else 0
  }

  function Sum(q: seq<int>, n: nat): int {
    Dot(Line(q), Ones(), 0, 0, 0, n)
  }

  lemma SumStep(before: seq<int>, next: int, sum: int)
    requires sum == Wrap32(Sum(before, |before|))
    ensures Wrap32(sum + next) == Wrap32(Sum(before + [next], |before| + 1))
  {
    DotShift(Line(before), Ones(), 0, 0, Line(before + [next]), Ones(), 0, 0, 0, |before|);
    WrapAdd(Sum(before, |before|), next);
  }

  /** The sum of row t of a batch is the activation sum the epilogues subtract. */
  lemma RowSum(aq: seq<int>, stride: nat, K: nat, t: nat)
    requires K <= stride && 0 <= t * stride && t * stride + K <= |aq|
    ensures Sum(aq[t * stride..t * stride + K], K) == Dot(View(aq, stride), Ones(), t, 0, 0, K)
  {
    DotShift(Line(aq[t * stride..t * stride + K]), Ones(), 0, 0, View(aq, stride), Ones(), t, 0, 0, K);
  }

  /** x[j] is an element of the largest magnitude. */
  ghost predicate Largest(x: seq<real>, j: int) {
    0 <= j < |x| && forall k :: 0 <= k < |x| ==> Abs(x[k]) <= Abs(x[j])
  }

  /** i2s_quantize_activations: every code is its scaled value rounded, the clamps never fire,
      the largest element of a row that reaches 1e-5 is scaled to exactly 127, and a row below
      that is scaled as if it reached it. */
  method Quantise(x: seq<real>, q: array<int>) returns (scale: real, sum: int)
    requires q.Length == |x|
    modifies q
    ensures Quantised(x, q[..], scale)
    ensures sum == Wrap32(Sum(q[..], |x|))
    ensures forall j :: Largest(x, j) && Abs(x[j]) >= 0.00001 ==> scale * Abs(x[j]) == 127.0 && Extreme(q[j])
    ensures (forall k :: 0 <= k < |x| ==> Abs(x[k]) < 0.00001) ==> scale == 12700000.0
    ensures scale == 12700000.0 || exists k :: 0 <= k < |x| && Extreme(q[k])
  {
    var amax := MaxMagnitude(x);
    if amax < 0.00001 { amax := 0.00001; }
    scale := 127.0 / amax;
    ScaleOf(amax);
    sum := Encode(x, scale, q);
    RowStored(x, q[..], amax, scale);
    RowScaled(x, q[..], amax, scale);
  }

  lemma ScaleOf(m: real)
    requires 0.0 < m
    ensures 127.0 / m * m == 127.0 && 0.0 < 127.0 / m
    ensures m == 0.00001 ==> 127.0 / m == 12700000.0
  {
  }

  lemma RowStored(x: seq<real>, q: seq<int>, m: real, s: real)
    requires |q| == |x| && 0.0 < m && 0.0 < s && s * m == 127.0 && Bounds(x, m)
    requires forall k :: 0 <= k < |x| ==> q[k] == Stored(x[k], s)
    ensures Quantised(x, q, s)
    ensures forall k :: 0 <= k < |x| && Abs(x[k]) == m ==> Extreme(q[k])
  {
    forall k | 0 <= k < |x| ensures Nearest(x[k], q[k], s) && (Abs(x[k]) == m ==> Extreme(q[k])) {
      StoredAt(x[k], m, s);
    }
  }

  /** The clipped maximum is the largest magnitude of any row that reaches the clip. */
  lemma RowScaled(x: seq<real>, q: seq<int>, m: real, s: real)
    requires |q| == |x| && Bounds(x, m) && 0.00001 <= m && s * m == 127.0
    requires m == 0.00001 || exists k :: 0 <= k < |x| && Abs(x[k]) == m
    requires forall k :: 0 <= k < |x| && Abs(x[k]) == m ==> Extreme(q[k])
    requires m == 0.00001 ==> s == 12700000.0
    ensures forall j :: Largest(x, j) && Abs(x[j]) >= 0.00001 ==> s * Abs(x[j]) == 127.0 && Extreme(q[j])
    ensures (forall k :: 0 <= k < |x| ==> Abs(x[k]) < 0.00001) ==> s == 12700000.0
    ensures s == 12700000.0 || exists k :: 0 <= k < |x| && Extreme(q[k])
  {
    forall j | Largest(x, j) && Abs(x[j]) >= 0.00001 ensures s * Abs(x[j]) == 127.0 && Extreme(q[j]) {
      assert Abs(x[j]) == m;
    }
  }

  /** The sum stays within 127 per element, so int32 holds it exactly for any real row. */
  lemma SumFits(x: seq<real>, q: seq<int>, s: real)
    requires Quantised(x, q, s)
    ensures -127 * |x| <= Sum(q, |x|) <= 127 * |x|
    ensures 127 * |x| < TWO_31 ==>
              Wrap32(Sum(q, |x|)) == Sum(q, |x|)
  {
    DotBound(Line(q), Ones(), 0, 0, 0, |x|, 127, 1);
  }

  /** A stored row stays clear of -128, so its biased accumulators are exact in binary32 up to
      66052 columns. */
  lemma RowExact(x: seq<real>, q: seq<int>, s: real, u: Mat, n: int)
    requires Quantised(x, q, s) && |x| <= 66052 && forall k :: 0 <= k < |x| ==> 0 <= u(n, k) <= 2
    ensures Significand24(Dot(Line(q), u, 0, n, 0, |x|))
  {
    ExactUpTo66052(|x|);
    assert InRange(Line(q), u, 0, n, |x|, 127);
  }
}
