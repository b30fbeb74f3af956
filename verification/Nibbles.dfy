/** Signed 4-bit values packed two to a byte, low nibble first. */
module Nibbles {
  import opened I2S

  /** The value a 4-bit signed load yields for the low four bits of x. */
  function Wrap4(x: int): (r: int)
    ensures -8 <= r <= 7
    ensures r == x <==> -8 <= x <= 7
  {
    (x + 8) % 16 - 8
  }

  /** `x & 0x0F` of an int8. */
  function LowBits(x: Int8): (b: bv8)
    ensures b < 16
  {
    (x % 16) as bv8
  }

  /** Sign extension of a nibble by the load unit. */
  function Extend(b: bv8): int {
    if b < 8 then b as int else b as int - 16
  }

  /** `(hi << 4) | lo`, low nibble first. */
  function PackPair(lo: Int8, hi: Int8): bv8 {
    (LowBits(hi) << 4) | LowBits(lo)
  }

  /** Lane e of the byte stream read as int4. */
  function Lane(bytes: seq<bv8>, e: nat): int
    requires e / 2 < |bytes|
  {
    Extend(if e % 2 == 0 then bytes[e / 2] & 0x0F else (bytes[e / 2] >> 4) & 0x0F)
  }

  function Lanes(bytes: seq<bv8>): seq<int> {
    seq<int>(2 * |bytes|, e requires 0 <= e < 2 * |bytes| => Lane(bytes, e))
  }

  lemma NibblesApart(h: bv8, l: bv8)
    requires h < 16 && l < 16
    ensures ((h << 4) | l) & 0x0F == l
    ensures (((h << 4) | l) >> 4) & 0x0F == h
  {
  }

  lemma ExtendLow(x: Int8)
    ensures Extend(LowBits(x)) == Wrap4(x)
  {
    var m := x % 16;
    assert LowBits(x) as int == m;
  }

  /** Reading a packed pair back gives both values reduced to four bits, so the round trip is
      exact just for -8..7. */
  lemma PairRoundTrip(lo: Int8, hi: Int8)
    ensures Extend(PackPair(lo, hi) & 0x0F) == Wrap4(lo)
    ensures Extend((PackPair(lo, hi) >> 4) & 0x0F) == Wrap4(hi)
    ensures Extend(PackPair(lo, hi) & 0x0F) == lo && Extend((PackPair(lo, hi) >> 4) & 0x0F) == hi
            <==> -8 <= lo <= 7 && -8 <= hi <= 7
  {
    NibblesApart(LowBits(hi), LowBits(lo));
    ExtendLow(lo);
    ExtendLow(hi);
  }

  /** The nibble half of pack_B_int4. */
  method PackNibbles(flat: seq<Int8>) returns (bytes: seq<bv8>)
    requires |flat| % 2 == 0
    ensures |bytes| == |flat| / 2
    ensures |Lanes(bytes)| == |flat| && forall e :: 0 <= e < |flat| ==> Lanes(bytes)[e] == Wrap4(flat[e])
  {
    bytes := seq(|flat| / 2, q requires 0 <= q < |flat| / 2 => PackPair(flat[2 * q], flat[2 * q + 1]));
    forall e | 0 <= e < |flat| ensures Lanes(bytes)[e] == Wrap4(flat[e]) {
      LaneOfPair(bytes, e, flat[2 * (e / 2)], flat[2 * (e / 2) + 1]);
    }
  }

  lemma LaneOfPair(bytes: seq<bv8>, e: nat, lo: Int8, hi: Int8)
    requires e / 2 < |bytes| && bytes[e / 2] == PackPair(lo, hi)
    ensures Lane(bytes, e) == Wrap4(if e % 2 == 0 then lo else hi)
  {
    PairRoundTrip(lo, hi);
  }

  lemma LaneShift(bytes: seq<bv8>, from: nat, len: nat, e: nat)
    requires from + len <= |bytes| && e < 2 * len
    ensures Lanes(bytes[from..from + len])[e] == Lanes(bytes)[2 * from + e]
  {
    assert (2 * from + e) / 2 == from + e / 2 && (2 * from + e) % 2 == e % 2;
  }

  /** The first value of a pair is in the low nibble. */
  lemma LowNibbleFirst()
    ensures PackPair(1, -2) == 0xE1
    ensures Lanes([0xE1]) == [1, -2]
  {
    assert LowBits(1) == 1 && LowBits(-2) == 14;
    assert Lane([0xE1], 0) == 1 && Lane([0xE1], 1) == -2;
  }
}
