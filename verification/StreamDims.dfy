/**
 The strided stream layouts between row-major tiles and micro-tile-major order, and their
 inverse relation. A layout is four (size, stride) pairs, outermost first.
 */
module StreamDims {
  import opened Matrix

  datatype Dims = Dims(n0: nat, s0: nat, n1: nat, s1: nat, n2: nat, s2: nat, n3: nat, s3: nat)

  /** Memory offset of stream element q: mixed-radix digits of q times the strides. */
  function Offset(d: Dims, q: int): int
    requires d.n1 > 0 && d.n2 > 0 && d.n3 > 0
  {
    q / d.n3 / d.n2 / d.n1 * d.s0 + q / d.n3 / d.n2 % d.n1 * d.s1 + q / d.n3 % d.n2 * d.s2 + q % d.n3 * d.s3
  }

  /** The stream position with digits i0, i1, i2, i3. */
  function Position(d: Dims, i0: int, i1: int, i2: int, i3: int): int {
    Idx(d.n3, Idx(d.n2, Idx(d.n1, i0, i1), i2), i3)
  }

  lemma OffsetAt(d: Dims, i0: int, i1: int, i2: int, i3: int)
    requires 0 <= i1 < d.n1 && 0 <= i2 < d.n2 && 0 <= i3 < d.n3
    ensures Offset(d, Position(d, i0, i1, i2, i3)) == i0 * d.s0 + i1 * d.s1 + i2 * d.s2 + i3 * d.s3
  {
    IdxDivMod(d.n3, Idx(d.n2, Idx(d.n1, i0, i1), i2), i3);
    IdxDivMod(d.n2, Idx(d.n1, i0, i1), i2);
    IdxDivMod(d.n1, i0, i1);
  }

  /** a x b micro-tiles divide the tile. */
  predicate Divides(rows: nat, cols: nat, a: nat, b: nat) {
    0 < a && 0 < b && rows % a == 0 && cols % b == 0
  }

  /** a_dims with (m, k, r, s); b_dims with (n, k, t, s) when B is column-major and with
      (k, n, s, t) otherwise: stream a row-major tile in micro-tile-major order. */
  function ToMicro(rows: nat, cols: nat, a: nat, b: nat): Dims
    requires 0 < a && 0 < b
  {
    Dims(rows / a, a * cols, cols / b, b, a, cols, b, 1)
  }

  /** c_dims with (m, n, r, t), or (n, m, t, r) when C is column-major: stream a
      micro-tile-major tile in row-major order. */
  function FromMicro(rows: nat, cols: nat, a: nat, b: nat): Dims
    requires 0 < a && 0 < b
  {
    Dims(rows / a, a * cols, a, b, cols / b, a * b, b, 1)
  }

  /** Where element (i, j) of the tile lies in micro-tile-major order: the order of pack_A. */
  function Micro(cols: nat, a: nat, b: nat, i: int, j: int): int
    requires 0 < a && 0 < b
  {
    Idx(b, Idx(a, Idx(cols / b, i / a, j / b), i % a), j % b)
  }

  lemma DivModSum(x: int, a: int)
    requires a > 0
    ensures x / a * a + x % a == x && 0 <= x % a < a
  {
  }

  lemma DigitsInside(cols: nat, b: nat, j: nat)
    requires 0 < b && cols % b == 0 && j < cols
    ensures 0 <= j / b < cols / b && cols / b * b == cols
  {
    if j / b >= cols / b { MulMono(cols / b, j / b, b); }
  }

  /** Streaming through ToMicro puts element (i, j) at its micro-tile position. */
  lemma ToMicroReads(rows: nat, cols: nat, a: nat, b: nat, i: nat, j: nat)
    requires Divides(rows, cols, a, b) && i < rows && j < cols
    ensures ToMicro(rows, cols, a, b).n1 > 0
    ensures Offset(ToMicro(rows, cols, a, b), Micro(cols, a, b, i, j)) == Idx(cols, i, j)
  {
    DigitsInside(cols, b, j);
    DivModSum(i, a);
    DivModSum(j, b);
    OffsetAt(ToMicro(rows, cols, a, b), i / a, j / b, i % a, j % b);
    Regroup(i / a, a, cols, i % a, i);
  }

  lemma Regroup(x: int, a: int, w: int, y: int, i: int)
    requires x * a + y == i
    ensures x * (a * w) + y * w == i * w
  {
    assert x * (a * w) == x * a * w;
    assert (x * a + y) * w == x * a * w + y * w;
  }

  /** Streaming a micro-tile-major tile through FromMicro lists it row-major. */
  lemma FromMicroReads(rows: nat, cols: nat, a: nat, b: nat, i: nat, j: nat)
    requires Divides(rows, cols, a, b) && i < rows && j < cols
    ensures FromMicro(rows, cols, a, b).n2 > 0
    ensures Offset(FromMicro(rows, cols, a, b), Idx(cols, i, j)) == Micro(cols, a, b, i, j)
  {
    DigitsInside(cols, b, j);
    DivModSum(i, a);
    DivModSum(j, b);
    FromMicroDigits(cols, cols / b, a, b, i / a, i % a, j / b, j % b);
    OffsetAt(FromMicro(rows, cols, a, b), i / a, i % a, j / b, j % b);
  }

  /** Both sides of FromMicroReads, from the digits of row and column. */
  lemma FromMicroDigits(cols: nat, w: nat, a: nat, b: nat, x: nat, p: nat, y: nat, q: nat)
    requires cols == w * b
    ensures Idx(b, Idx(w, Idx(a, x, p), y), q) == Idx(cols, x * a + p, y * b + q)
    ensures x * (a * cols) + p * b + y * (a * b) + q == Idx(b, Idx(a, Idx(w, x, y), p), q)
  {
    var i := x * a + p;
    assert (i * w + y) * b == i * w * b + y * b;
    Product3(i, w, b);
    MicroExpand(w, a, b, x, y, p, q);
    Product3(x, w, a * b);
    Product3(w, a, b);
    Product3(a, w, b);
    assert w * (a * b) == a * cols;
    assert x * w * (a * b) == x * (a * cols);
  }

  lemma MicroExpand(w: int, a: int, b: int, x: int, y: int, p: int, q: int)
    ensures Idx(b, Idx(a, Idx(w, x, y), p), q) == x * w * (a * b) + y * (a * b) + p * b + q
  {
    var z := x * w + y;
    assert (z * a + p) * b == z * a * b + p * b;
    assert z * a * b == z * (a * b);
    assert z * (a * b) == x * w * (a * b) + y * (a * b);
  }

  lemma DivBound(q: int, d: int, L: int)
    requires 0 < d && 0 <= q < L * d
    ensures 0 <= q / d < L
  {
    if q / d >= L { MulMono(L, q / d, d); }
  }

  lemma Product3(x: int, y: int, z: int)
    ensures x * y * z == x * z * y == x * (y * z)
  {
  }

  /** Row and column of the element at position q of the stream. */
  function RowAt(cols: nat, a: nat, b: nat, q: nat): int
    requires 0 < a && 0 < b && 0 < cols / b
  {
    q / b / a / (cols / b) * a + q / b % a
  }

  function ColAt(cols: nat, a: nat, b: nat, q: nat): int
    requires 0 < a && 0 < b && 0 < cols / b
  {
    q / b / a % (cols / b) * b + q % b
  }

  /** Every stream position is the position of one element of the tile, so with
      ToMicroReads the stream is a permutation and Micro its inverse. */
  lemma ToMicroOnto(rows: nat, cols: nat, a: nat, b: nat, q: nat)
    requires Divides(rows, cols, a, b) && 0 < cols && q < rows * cols
    ensures 0 < cols / b
    ensures 0 <= RowAt(cols, a, b, q) < rows && 0 <= ColAt(cols, a, b, q) < cols
    ensures Micro(cols, a, b, RowAt(cols, a, b, q), ColAt(cols, a, b, q)) == q
  {
    DigitsInside(cols, b, 0);
    DivModSum(rows, a);
    var w, h := cols / b, rows / a;
    Product3(rows, w, b);
    DivBound(q, b, rows * w);
    Product3(h, a, w);
    DivBound(q / b, a, h * w);
    var v := q / b;
    var u := v / a;
    DivBound(u, w, h);
    Digits(a, b, w, h, u / w, u % w, v % a, q % b);
    DivModSum(u, w);
    DivModSum(v, a);
    DivModSum(q, b);
  }

  lemma Digits(a: int, b: int, w: int, h: int, x: int, y: int, p: int, z: int)
    requires 0 <= x < h && 0 <= y < w && 0 <= p < a && 0 <= z < b
    ensures 0 <= x * a + p < h * a && (x * a + p) / a == x && (x * a + p) % a == p
    ensures 0 <= y * b + z < w * b && (y * b + z) / b == y && (y * b + z) % b == z
  {
    IdxBound(a, h, x, p);
    IdxBound(b, w, y, z);
    IdxDivMod(a, x, p);
    IdxDivMod(b, y, z);
  }

  /** Row and column of the element at its own micro-tile position. */
  lemma MicroDigits(cols: nat, a: nat, b: nat, i: nat, j: nat)
    requires 0 < a && 0 < b && cols % b == 0 && j < cols
    ensures 0 < cols / b && 0 <= Micro(cols, a, b, i, j)
    ensures RowAt(cols, a, b, Micro(cols, a, b, i, j)) == i && ColAt(cols, a, b, Micro(cols, a, b, i, j)) == j
  {
    DigitsInside(cols, b, j);
    DivModSum(i, a);
    DivModSum(j, b);
    var w := cols / b;
    var u := Idx(w, i / a, j / b);
    var v := Idx(a, u, i % a);
    MulMono(0, i / a, w);
    MulMono(0, u, a);
    MulMono(0, v, b);
    IdxDivMod(b, v, j % b);
    IdxDivMod(a, u, i % a);
    IdxDivMod(w, i / a, j / b);
  }
}
