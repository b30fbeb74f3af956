/** The packers around the int8 x int4 kernel: row-major matrices to and from micro-tiles. */
module MicroTiles {
  import opened Matrix
  import opened Buffers
  import opened StreamDims
  import opened TileKernel

  /** Element (x * a + p, y * b + q) of a matrix w micro-tiles wide. */
  lemma MicroAt(w: nat, a: nat, b: nat, x: nat, y: nat, p: nat, q: nat)
    requires p < a && q < b
    ensures Micro(w * b, a, b, x * a + p, y * b + q) == Idx(b, Idx(a, Idx(w, x, y), p), q)
  {
    IdxDivMod(a, x, p);
    IdxDivMod(b, y, q);
    IdxDivMod(b, w, 0);
  }

  /** What belongs in line r, column c of the packed buffer seen as lines of one micro-tile
      row each. */
  function Tiled(mem: Mat, w: nat, a: nat, b: nat): Mat
    requires 0 < w && 0 < a
  {
    (r: int, c: int) => mem(r / a / w * a + r % a, r / a % w * b + c)
  }

  lemma TiledLine(w: nat, a: nat, z: nat, i: nat, p: nat)
    requires i < w && p < a
    ensures Idx(a, Idx(w, z, i), p) / a / w == z && Idx(a, Idx(w, z, i), p) / a % w == i
    ensures Idx(a, Idx(w, z, i), p) % a == p
  {
    IdxDivMod(a, Idx(w, z, i), p);
    IdxDivMod(w, z, i);
  }

  ghost predicate LinesPacked(buf: seq<int>, mem: Mat, w: nat, a: nat, b: nat, lines: int)
    requires 0 < w && 0 < a
  {
    forall r, c :: 0 <= r < lines && 0 <= c < b ==> At(buf, b, r, c, 0) == Tiled(mem, w, a, b)(r, c)
  }

  /** Copy micro-tile (z, i) behind the ones already packed. */
  method PackTile(src: seq<int>, cols: nat, w: nat, h: nat, a: nat, b: nat, z: nat, i: nat, out: array<int>)
    requires 0 < a && 0 < b && cols == w * b && |src| == h * a * cols && out.Length == h * w * a * b
    requires z < h && i < w && LinesPacked(out[..], View(src, cols), w, a, b, (z * w + i) * a)
    modifies out
    ensures LinesPacked(out[..], View(src, cols), w, a, b, (z * w + i + 1) * a)
  {
    var d := z * w + i;
    TileFits(w, h, a, b, cols, z, i);
    ghost var before := out[..];
    CombineWindow(out, b, d * a, 0, src, cols, z * a, i * b, a, b, Overwrite(), 0, 0);
    forall r, c | 0 <= r < (d + 1) * a && 0 <= c < b
      ensures At(out[..], b, r, c, 0) == Tiled(View(src, cols), w, a, b)(r, c)
    {
      if r >= d * a {
        TiledLine(w, a, z, i, r - d * a);
        assert Idx(a, Idx(w, z, i), r - d * a) == r;
      } else {
        assert At(out[..], b, r, c, 0) == At(before, b, r, c, 0);
      }
    }
  }

  lemma TileFits(w: nat, h: nat, a: nat, b: nat, cols: nat, z: nat, i: nat)
    requires 0 < a && 0 < b && cols == w * b && z < h && i < w
    ensures (z * w + i) * a + a == (z * w + i + 1) * a && ((z * w + i) * a + a) * b <= h * w * a * b
    ensures i * b + b <= cols && (z * a + a - 1) * cols + i * b + b <= h * a * cols
    ensures (z * a + a) * cols <= h * a * cols
  {
    var d := z * w + i;
    IdxBound(w, h, z, i);
    assert (d + 1) * a == d * a + a;
    MulMono(d + 1, h * w, a);
    MulMono((d + 1) * a, h * w * a, b);
    assert (i + 1) * b == i * b + b;
    MulMono(i + 1, w, b);
    assert (z + 1) * a == z * a + a;
    MulMono(z + 1, h, a);
    MulMono((z + 1) * a, h * a, cols);
    assert (z * a + a) * cols == (z * a + a - 1) * cols + cols;
  }

  /** pack_A, and the tiling half of pack_B_int4: a x b micro-tiles one after the other. */
  method PackTiles(src: seq<int>, rows: nat, cols: nat, a: nat, b: nat) returns (out: array<int>)
    requires Divides(rows, cols, a, b) && |src| == rows * cols
    ensures fresh(out) && out.Length == rows * cols
    ensures forall i, j :: 0 <= i < rows && 0 <= j < cols ==> MicroView(out[..], cols, a, b)(i, j) == View(src, cols)(i, j)
  {
    var h, w := rows / a, cols / b;
    TileCounts(rows, cols, a, b);
    out := new int[rows * cols];
    if w == 0 { return; }
    for z := 0 to h
      invariant LinesPacked(out[..], View(src, cols), w, a, b, z * w * a)
    {
      for i := 0 to w
        invariant LinesPacked(out[..], View(src, cols), w, a, b, (z * w + i) * a)
      {
        PackTile(src, cols, w, h, a, b, z, i, out);
      }
      assert (z + 1) * w == z * w + w;
    }
    PackedView(out[..], View(src, cols), rows, cols, a, b);
  }

  lemma TileCounts(rows: nat, cols: nat, a: nat, b: nat)
    requires Divides(rows, cols, a, b)
    ensures rows / a * a == rows && cols / b * b == cols && rows / a * (cols / b) * a * b == rows * cols
    ensures cols / b == 0 <==> cols == 0
  {
    var h, w := rows / a, cols / b;
    DivModSum(rows, a);
    DivModSum(cols, b);
    Product3(h, w, a);
    Product3(rows, w, b);
  }

  lemma PackedView(buf: seq<int>, mem: Mat, rows: nat, cols: nat, a: nat, b: nat)
    requires Divides(rows, cols, a, b) && 0 < cols / b && |buf| == rows * cols
    requires LinesPacked(buf, mem, cols / b, a, b, rows / a * (cols / b) * a)
    ensures forall i, j :: 0 <= i < rows && 0 <= j < cols ==> MicroView(buf, cols, a, b)(i, j) == mem(i, j)
  {
    var h, w := rows / a, cols / b;
    forall i, j | 0 <= i < rows && 0 <= j < cols ensures MicroView(buf, cols, a, b)(i, j) == mem(i, j) {
      DigitsInside(rows, a, i);
      DigitsInside(cols, b, j);
      MicroInside(rows, cols, a, b, i, j);
      var x, y, p, q := i / a, j / b, i % a, j % b;
      DivModSum(i, a);
      DivModSum(j, b);
      var line := Idx(a, Idx(w, x, y), p);
      IdxBound(w, h, x, y);
      IdxBound(a, h * w, Idx(w, x, y), p);
      TiledLine(w, a, x, y, p);
      assert At(buf, b, line, q, 0) == Tiled(mem, w, a, b)(line, q);
    }
  }

  /** Rows above `top`, and columns left of `left` in the rows of the current micro-tiles. */
  ghost predicate Placed(buf: seq<int>, packed: seq<int>, rows: nat, cols: nat, a: nat, b: nat, top: nat, left: nat)
    requires 0 < a && 0 < b
  {
    forall r, c :: 0 <= r < rows && 0 <= c < cols && (r < top || (r < top + a && c < left)) ==>
      View(buf, cols)(r, c) == MicroView(packed, cols, a, b)(r, c)
  }

  /** Where the cells of micro-tile (z, i) lie among the lines of the packed buffer. */
  lemma MicroLine(packed: seq<int>, rows: nat, cols: nat, a: nat, b: nat, z: nat, i: nat, r: nat, c: nat)
    requires Divides(rows, cols, a, b) && |packed| == rows * cols && r < rows && c < cols
    requires z * a <= r < z * a + a && i * b <= c < i * b + b
    ensures MicroView(packed, cols, a, b)(r, c) == At(packed, b, (z * (cols / b) + i) * a + r - z * a, c - i * b, 0)
  {
    MicroInside(rows, cols, a, b, r, c);
    DivModSum(cols, b);
    MicroAt(cols / b, a, b, z, i, r - z * a, c - i * b);
  }

  lemma WindowFits(rows: nat, cols: nat, a: nat, b: nat, z: nat, i: nat, line: int)
    requires Divides(rows, cols, a, b) && z < rows / a && i < cols / b && line == (z * (cols / b) + i) * a
    ensures 0 <= z * a && 0 <= i * b && 0 <= line && z * a + a == (z + 1) * a && i * b + b == (i + 1) * b <= cols
    ensures (z * a + a) * cols <= rows * cols && (line + a - 1) * b + b <= rows * cols
  {
    assert rows / a * a == rows && cols / b * b == cols && rows / a * (cols / b) * a * b == rows * cols by {
      TileCounts(rows, cols, a, b);
    }
    TileFits(cols / b, rows / a, a, b, cols, z, i);
    Distributes(line + a - 1, 1, b);
    Distributes(i, 1, b);
    Distributes(z, 1, a);
  }

  lemma Distributes(x: int, y: int, w: int)
    ensures (x + y) * w == x * w + y * w
  {
  }

  lemma WindowLines(packed: seq<int>, rows: nat, cols: nat, a: nat, b: nat, z: nat, i: nat, top: nat, left: nat, line: nat)
    requires Divides(rows, cols, a, b) && |packed| == rows * cols && z < rows / a && i < cols / b
    requires top == z * a && left == i * b && line == (z * (cols / b) + i) * a
    ensures WindowAt(packed, rows, cols, a, b, top, left, line)
  {
    forall r, c | top <= r < top + a && left <= c < left + b && 0 <= r < rows && 0 <= c < cols
      ensures MicroView(packed, cols, a, b)(r, c) == At(packed, b, line + r - top, c - left, 0)
    {
      MicroLine(packed, rows, cols, a, b, z, i, r, c);
    }
  }

  /** The micro-tile at (top, left) starts at `line` of the packed buffer. */
  ghost predicate WindowAt(packed: seq<int>, rows: nat, cols: nat, a: nat, b: nat, top: nat, left: nat, line: nat)
    requires 0 < a && 0 < b
  {
    forall r, c :: top <= r < top + a && left <= c < left + b && 0 <= r < rows && 0 <= c < cols ==>
      MicroView(packed, cols, a, b)(r, c) == At(packed, b, line + r - top, c - left, 0)
  }

  /** Copy one micro-tile to its place. */
  method PlaceTile(packed: seq<int>, rows: nat, cols: nat, a: nat, b: nat, top: nat, left: nat, line: nat, out: array<int>)
    requires 0 < a && 0 < b && left + b <= cols && (top + a) * cols <= out.Length && (line + a - 1) * b + b <= |packed|
    requires WindowAt(packed, rows, cols, a, b, top, left, line)
    requires Placed(out[..], packed, rows, cols, a, b, top, left)
    modifies out
    ensures Placed(out[..], packed, rows, cols, a, b, top, left + b)
  {
    ghost var before := out[..];
    CombineWindow(out, cols, top, left, packed, b, line, 0, a, b, Overwrite(), 0, 0);
    forall r, c | 0 <= r < rows && 0 <= c < cols && (r < top || (r < top + a && c < left + b))
      ensures View(out[..], cols)(r, c) == MicroView(packed, cols, a, b)(r, c)
    {
      assert r < top || c < left ==> View(before, cols)(r, c) == MicroView(packed, cols, a, b)(r, c);
    }
  }

  /** unpack_C: the inverse of packing. */
  method UnpackTiles(packed: seq<int>, rows: nat, cols: nat, a: nat, b: nat) returns (out: array<int>)
    requires Divides(rows, cols, a, b) && |packed| == rows * cols
    ensures fresh(out) && out.Length == rows * cols
    ensures forall r, c :: 0 <= r < rows && 0 <= c < cols ==> View(out[..], cols)(r, c) == MicroView(packed, cols, a, b)(r, c)
  {
    var h, w := rows / a, cols / b;
    TileCounts(rows, cols, a, b);
    out := new int[rows * cols];
    for z := 0 to h
      invariant Placed(out[..], packed, rows, cols, a, b, z * a, 0)
    {
      for i := 0 to w
        invariant Placed(out[..], packed, rows, cols, a, b, z * a, i * b)
      {
        var line := (z * w + i) * a;
        WindowFits(rows, cols, a, b, z, i, line);
        WindowLines(packed, rows, cols, a, b, z, i, z * a, i * b, line);
        PlaceTile(packed, rows, cols, a, b, z * a, i * b, line, out);
      }
      assert (z + 1) * a == z * a + a;
    }
  }

  /** The packers' order is exactly the order of the array's strided input streams. */
  lemma PackIsStream(buf: seq<int>, mem: seq<int>, rows: nat, cols: nat, a: nat, b: nat)
    requires Divides(rows, cols, a, b) && 0 < cols && |buf| == |mem| == rows * cols
    requires forall i, j :: 0 <= i < rows && 0 <= j < cols ==> MicroView(buf, cols, a, b)(i, j) == View(mem, cols)(i, j)
    ensures StreamedFrom(buf, mem, ToMicro(rows, cols, a, b))
  {
    TileCounts(rows, cols, a, b);
    forall q | 0 <= q < |buf|
      ensures 0 <= Offset(ToMicro(rows, cols, a, b), q) < |mem| && buf[q] == mem[Offset(ToMicro(rows, cols, a, b), q)]
    {
      ToMicroOnto(rows, cols, a, b, q);
      var i, j := RowAt(cols, a, b, q), ColAt(cols, a, b, q);
      ToMicroReads(rows, cols, a, b, i, j);
      IdxBound(cols, rows, i, j);
      assert MicroView(buf, cols, a, b)(i, j) == View(mem, cols)(i, j);
    }
  }

  /** The unpacker's order is exactly the order of the array's output streams. */
  lemma UnpackIsStream(out: seq<int>, packed: seq<int>, rows: nat, cols: nat, a: nat, b: nat)
    requires Divides(rows, cols, a, b) && 0 < cols && |out| == |packed| == rows * cols
    requires forall i, j :: 0 <= i < rows && 0 <= j < cols ==> View(out, cols)(i, j) == MicroView(packed, cols, a, b)(i, j)
    ensures StreamedFrom(out, packed, FromMicro(rows, cols, a, b))
  {
    TileCounts(rows, cols, a, b);
    forall q | 0 <= q < |out|
      ensures 0 <= Offset(FromMicro(rows, cols, a, b), q) < |packed| && out[q] == packed[Offset(FromMicro(rows, cols, a, b), q)]
    {
      var i, j := q / cols, q % cols;
      DivBound(q, cols, rows);
      assert Idx(cols, i, j) == q;
      FromMicroReads(rows, cols, a, b, i, j);
      MicroInside(rows, cols, a, b, i, j);
      assert View(out, cols)(i, j) == MicroView(packed, cols, a, b)(i, j);
    }
  }

  /** Where element (r, c) of a x b micro-tile (z, y) is stored, w micro-tiles to a row. */
  function PlaceOf(w: nat, a: nat, b: nat, z: int, y: int, r: int, c: int): int {
    Idx(a * b, Idx(w, z, y), Idx(b, r, c))
  }

  /** The first `tiles` micro-tiles of the buffer hold their elements of m. */
  ghost predicate TilesFilled(buf: seq<int>, w: nat, a: nat, b: nat, m: Mat, tiles: int) {
    forall z: nat, y: nat, r: nat, c: nat ::
      y < w && r < a && c < b && Idx(w, z, y) < tiles && 0 <= PlaceOf(w, a, b, z, y, r, c) < |buf| ==>
        buf[PlaceOf(w, a, b, z, y, r, c)] == m(z * a + r, y * b + c)
  }

  /** The block is the micro-tile of m at (row, col). */
  ghost predicate TileOf(block: seq<int>, a: nat, b: nat, m: Mat, row: nat, col: nat) {
    && |block| == a * b
    && forall r: nat, c: nat :: r < a && c < b ==>
         0 <= Idx(b, r, c) < |block| && block[Idx(b, r, c)] == m(row + r, col + c)
  }

  /** `after` is `before` with the block stored at `at`. */
  ghost predicate StoredAt(before: seq<int>, after: seq<int>, block: seq<int>, at: nat) {
    && |after| == |before|
    && forall q :: 0 <= q < |after| ==> after[q] == if at <= q < at + |block| then block[q - at] else before[q]
  }

  lemma EmptyFilled(buf: seq<int>, w: nat, a: nat, b: nat, m: Mat)
    ensures TilesFilled(buf, w, a, b, m, 0)
  {
    forall z: nat, y: nat | y < w ensures Idx(w, z, y) >= 0 {
      MulMono(0, z, w);
    }
  }

  lemma EarlierPlace(w: nat, a: nat, b: nat, z: nat, y: nat, r: nat, c: nat, d: nat)
    requires Idx(w, z, y) < d && r < a && c < b
    ensures PlaceOf(w, a, b, z, y, r, c) < d * (a * b)
  {
    IdxBound(b, a, r, c);
    IdxOrder(a * b, Idx(w, z, y), Idx(b, r, c), d, 0);
  }

  lemma SameTile(w: nat, z: nat, y: nat, z': nat, y': nat)
    requires y < w && y' < w && Idx(w, z, y) == Idx(w, z', y')
    ensures z == z' && y == y'
  {
    IdxDivMod(w, z, y);
    IdxDivMod(w, z', y');
  }

  /** Storing the next micro-tile fills one more. */
  lemma StoreFills(before: seq<int>, after: seq<int>, w: nat, a: nat, b: nat, m: Mat, block: seq<int>,
                   z: nat, y: nat, d: nat, at: nat)
    requires y < w && d == Idx(w, z, y) && at == d * (a * b) && TilesFilled(before, w, a, b, m, d)
    requires TileOf(block, a, b, m, z * a, y * b) && StoredAt(before, after, block, at)
    ensures TilesFilled(after, w, a, b, m, d + 1)
  {
    forall z': nat, y': nat, r: nat, c: nat
      | y' < w && r < a && c < b && Idx(w, z', y') < d + 1 && 0 <= PlaceOf(w, a, b, z', y', r, c) < |after|
      ensures after[PlaceOf(w, a, b, z', y', r, c)] == m(z' * a + r, y' * b + c)
    {
      if Idx(w, z', y') == d {
        SameTile(w, z, y, z', y');
        assert PlaceOf(w, a, b, z, y, r, c) == at + Idx(b, r, c);
      } else {
        EarlierPlace(w, a, b, z', y', r, c, d);
      }
    }
  }

  /** Store the next micro-tile of a buffer. */
  method StoreBlock(out: array<int>, w: nat, a: nat, b: nat, ghost m: Mat, block: seq<int>, ghost z: nat, ghost y: nat,
                    at: nat)
    requires y < w && 0 <= Idx(w, z, y) && at == Idx(w, z, y) * (a * b) && at + |block| <= out.Length
    requires TilesFilled(out[..], w, a, b, m, Idx(w, z, y)) && TileOf(block, a, b, m, z * a, y * b)
    modifies out
    ensures TilesFilled(out[..], w, a, b, m, Idx(w, z, y) + 1)
  {
    ghost var before := out[..];
    CombineRow(out, at, block, 0, |block|, Overwrite());
    StoreFills(before, out[..], w, a, b, m, block, z, y, Idx(w, z, y), at);
  }

  lemma PackedPlace(buf: seq<int>, h: nat, w: nat, a: nat, b: nat, z: nat, y: nat, r: nat, c: nat)
    requires |buf| == h * w * (a * b) && z < h && y < w && r < a && c < b
    ensures 0 <= PlaceOf(w, a, b, z, y, r, c) < |buf|
    ensures MicroView(buf, w * b, a, b)(z * a + r, y * b + c) == buf[PlaceOf(w, a, b, z, y, r, c)]
  {
    IdxBound(w, h, z, y);
    IdxBound(b, a, r, c);
    IdxBound(a * b, h * w, Idx(w, z, y), Idx(b, r, c));
    MicroAt(w, a, b, z, y, r, c);
    var t := Idx(w, z, y);
    assert (t * a + r) * b == t * a * b + r * b;
    Product3(t, a, b);
  }

  /** A buffer with all its micro-tiles filled is the matrix. */
  lemma FilledView(buf: seq<int>, h: nat, w: nat, a: nat, b: nat, m: Mat, i: nat, j: nat)
    requires 0 < a && 0 < b && |buf| == h * w * (a * b) && TilesFilled(buf, w, a, b, m, h * w)
    requires i < h * a && j < w * b
    ensures MicroView(buf, w * b, a, b)(i, j) == m(i, j)
  {
    var z, y, r, c := i / a, j / b, i % a, j % b;
    DivBound(i, a, h);
    DivBound(j, b, w);
    DivModSum(i, a);
    DivModSum(j, b);
    PackedPlace(buf, h, w, a, b, z, y, r, c);
    IdxBound(w, h, z, y);
    assert buf[PlaceOf(w, a, b, z, y, r, c)] == m(z * a + r, y * b + c);
  }
}
