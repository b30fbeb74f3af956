/** Row-by-row transfers between row-major buffers, the only way the runtime moves data. */
module Buffers {
  import opened Matrix

  /** memcpy: the transferred cell replaces the old one. */
  function Overwrite<T>(): (T, T) -> T {
    (_: T, x: T) => x
  }

  /** `pr[j] += cr[j]` on int32 cells. */
  function Accumulate(): (int, int) -> int {
    (sum: int, x: int) => Wrap32(sum + x)
  }

  /** for i < len: dst[at + i] := f(dst[at + i], src[from + i]). */
  method CombineRow<S, T>(dst: array<T>, at: nat, src: seq<S>, from: nat, len: nat, f: (T, S) -> T)
    requires at + len <= dst.Length && from + len <= |src|
    modifies dst
    ensures forall q :: 0 <= q < dst.Length ==>
                          dst[q] == if at <= q < at + len then f(old(dst[q]), src[from + q - at]) else old(dst[q])
  {
    for i := 0 to len
      invariant forall q :: 0 <= q < dst.Length ==>
                              dst[q] == if at <= q < at + i then f(old(dst[q]), src[from + q - at]) else old(dst[q])
    {
      dst[at + i] := f(dst[at + i], src[from + i]);
    }
  }

  /** What one row transfer does to cell (r, c). */
  lemma RowEffect<S, T>(a: seq<T>, b: seq<T>, dw: nat, row: nat, dOff: nat, src: seq<S>, sw: nat, sRow: nat, sOff: nat,
                        len: nat, f: (T, S) -> T, d: T, e: S, r: int, c: int)
    requires |a| == |b| && dOff + len <= dw && sOff + len <= sw
    requires 0 <= Idx(dw, row, dOff) && Idx(dw, row, dOff) + len <= |a|
    requires 0 <= Idx(sw, sRow, sOff) && Idx(sw, sRow, sOff) + len <= |src|
    requires forall q :: 0 <= q < |a| ==>
                           b[q] == if Idx(dw, row, dOff) <= q < Idx(dw, row, dOff) + len
                                   then f(a[q], src[Idx(sw, sRow, sOff) + q - Idx(dw, row, dOff)]) else a[q]
    ensures At(b, dw, r, c, d)
         == if r == row && dOff <= c < dOff + len then f(At(a, dw, r, c, d), At(src, sw, sRow, sOff + c - dOff, e))
            else At(a, dw, r, c, d)
  {
    if 0 <= r && 0 <= c < dw {
      if r < row { IdxOrder(dw, r, c, row, dOff); }
      if r > row && len > 0 { IdxOrder(dw, row, dOff + len - 1, r, c); }
    }
  }

  /** for r < rows: combine `len` cells of source row s0 + r into row d0 + r of dst.
      Every cell outside the window keeps its value. */
  method CombineWindow<S, T>(dst: array<T>, dw: nat, d0: nat, dOff: nat, src: seq<S>, sw: nat, s0: nat, sOff: nat,
                             rows: nat, len: nat, f: (T, S) -> T, ghost d: T, ghost e: S)
    requires dOff + len <= dw && sOff + len <= sw
    requires (d0 + rows) * dw <= dst.Length
    requires rows > 0 ==> (s0 + rows - 1) * sw + sOff + len <= |src|
    modifies dst
    ensures forall r, c ::
              At(dst[..], dw, r, c, d)
              == if d0 <= r < d0 + rows && dOff <= c < dOff + len
                 then f(old(At(dst[..], dw, r, c, d)), At(src, sw, s0 + r - d0, sOff + c - dOff, e))
                 else old(At(dst[..], dw, r, c, d))
  {
    for i := 0 to rows
      invariant forall r, c ::
                  At(dst[..], dw, r, c, d)
                  == if d0 <= r < d0 + i && dOff <= c < dOff + len
                     then f(old(At(dst[..], dw, r, c, d)), At(src, sw, s0 + r - d0, sOff + c - dOff, e))
                     else old(At(dst[..], dw, r, c, d))
    {
      RowsInside(dw, d0 + i, d0 + rows);
      RowsInside(sw, s0 + i, s0 + rows);
      ghost var before := dst[..];
      CombineRow(dst, (d0 + i) * dw + dOff, src, (s0 + i) * sw + sOff, len, f);
      forall r, c
        ensures At(dst[..], dw, r, c, d)
             == if r == d0 + i && dOff <= c < dOff + len
                then f(At(before, dw, r, c, d), At(src, sw, s0 + i, sOff + c - dOff, e))
                else At(before, dw, r, c, d)
      {
        RowEffect(before, dst[..], dw, d0 + i, dOff, src, sw, s0 + i, sOff, len, f, d, e, r, c);
      }
    }
  }

  lemma RowsInside(w: nat, r: nat, rows: nat)
    requires r < rows
    ensures 0 <= r * w <= (rows - 1) * w && (rows - 1) * w + w == rows * w
  {
    MulMono(r, rows - 1, w);
  }
}
