/**
 The model coordinate digest: bytes folded into a 64-bit state by xor and an odd multiplier.
 */
module CoordDigest {
  import opened Exactness
  import opened Oracle

  const TWO_64 := 0x1_0000_0000_0000_0000
  const OFFSET := 1469598103934665603
  const PRIME := 1099511628211
  /** PRIME * INVERSE == 1 modulo 2^64. */
  const INVERSE := 14886173955864302971

  type State = h: int | 0 <= h < TWO_64

  /** Bitwise exclusive or of the lowest n bits. */
  function Xor(x: nat, y: nat, n: nat): (r: nat)
    ensures r < Pow2(n)
  {
    if n == 0 then 0 else 2 * Xor(x / 2, y / 2, n - 1) + (x % 2 + y % 2) % 2
  }

  lemma XorHalves(x: nat, y: nat, n: nat)
    requires n > 0
    ensures Xor(x, y, n) / 2 == Xor(x / 2, y / 2, n - 1) && Xor(x, y, n) % 2 == (x % 2 + y % 2) % 2
  {
    Halves(Xor(x / 2, y / 2, n - 1), (x % 2 + y % 2) % 2);
  }

  lemma Halves(h: nat, bit: nat)
    requires bit < 2
    ensures (2 * h + bit) / 2 == h && (2 * h + bit) % 2 == bit
  {
  }

  lemma BitTwice(a: nat, b: nat)
    requires a < 2 && b < 2
    ensures ((a + b) % 2 + b) % 2 == a
  {
  }

  lemma {:induction false} XorTwice(x: nat, y: nat, n: nat)
    requires x < Pow2(n)
    ensures Xor(Xor(x, y, n), y, n) == x
  {
    if n > 0 {
      XorTwice(x / 2, y / 2, n - 1);
      XorHalves(x, y, n);
      XorHalves(Xor(x, y, n), y, n);
      BitTwice(x % 2, y % 2);
    }
  }

  lemma {:induction false} XorSymmetric(x: nat, y: nat, n: nat)
    ensures Xor(x, y, n) == Xor(y, x, n)
  {
    if n > 0 { XorSymmetric(x / 2, y / 2, n - 1); }
  }

  lemma {:induction false} PowSum(a: nat, b: nat)
    ensures Pow2(a + b) == Pow2(a) * Pow2(b)
  {
    if b > 0 { PowSum(a, b - 1); }
  }

  lemma PowDouble(n: nat, p: int)
    requires Pow2(n) == p
    ensures Pow2(2 * n) == p * p
  {
    PowSum(n, n);
  }

  lemma PowWord(bits: nat)
    requires bits == 64
    ensures Pow2(bits) == TWO_64
  {
    var b := bits / 64;
    assert Pow2(b) == 2 * Pow2(b - 1) == 2;
    PowDouble(b, 2);
    PowDouble(2 * b, 4);
    PowDouble(4 * b, 16);
    PowDouble(8 * b, 256);
    PowDouble(16 * b, 0x1_0000);
    PowDouble(32 * b, 0x1_0000_0000);
  }

  /** `h ^= byte`. */
  function Mix(h: State, b: Byte): State {
    PowWord(64);
    Xor(h, b, 64)
  }

  /** `h *= prime` on uint64_t. */
  function Scale(h: State): State {
    h * PRIME % TWO_64
  }

  function Unscale(h: State): State {
    h * INVERSE % TWO_64
  }

  function Round(h: State, b: Byte): State {
    Scale(Mix(h, b))
  }

  function Unround(h: State, b: Byte): State {
    Mix(Unscale(h), b)
  }

  lemma MixTwice(h: State, b: Byte)
    ensures Mix(Mix(h, b), b) == h
  {
    PowWord(64);
    XorTwice(h, b, 64);
  }

  lemma MixSeparates(h: State, b: Byte, b': Byte)
    requires Mix(h, b) == Mix(h, b')
    ensures b == b'
  {
    PowWord(64);
    XorSymmetric(h, b, 64);
    XorSymmetric(h, b', 64);
    XorTwice(b, h, 64);
    XorTwice(b', h, 64);
  }

  lemma ModPlus(x: int, q: int)
    ensures (x + q * TWO_64) % TWO_64 == x % TWO_64
  {
    assert (x + q * TWO_64) / TWO_64 == x / TWO_64 + q;
  }

  lemma InverseProduct(h: State)
    ensures Unscale(Scale(h)) == h && Scale(Unscale(h)) == h
  {
    var p, q := h * PRIME / TWO_64, h * INVERSE / TWO_64;
    assert PRIME * INVERSE == 1 + 887285111055 * TWO_64;
    ModPlus(h, h * 887285111055 - p * INVERSE);
    ModPlus(h, h * 887285111055 - q * PRIME);
  }

  /** Each round is a bijection of the state. */
  lemma RoundBijective(h: State, b: Byte)
    ensures Unround(Round(h, b), b) == h && Round(Unround(h, b), b) == h
  {
    InverseProduct(Mix(h, b));
    InverseProduct(h);
    MixTwice(h, b);
    MixTwice(Unscale(h), b);
  }

  /** Different bytes lead to different states. */
  lemma RoundSeparates(h: State, b: Byte, b': Byte)
    requires Round(h, b) == Round(h, b')
    ensures b == b'
  {
    InverseProduct(Mix(h, b));
    InverseProduct(Mix(h, b'));
    MixSeparates(h, b, b');
  }

  /** The digest of an image, from a starting state. */
  function Fold(bytes: seq<Byte>, h: State): State {
    if bytes == [] then h else Round(Fold(bytes[..|bytes| - 1], h), bytes[|bytes| - 1])
  }

  /** bitnet_model_coord_digest over the struct's bytes, padding included. */
  method Digest(image: seq<Byte>) returns (h: State)
    ensures h == Fold(image, OFFSET)
  {
    h := OFFSET;
    for i := 0 to |image|
      invariant h == Fold(image[..i], OFFSET)
    {
      assert image[..i + 1][..i] == image[..i];
      h := Round(h, image[i]);
    }
    assert image[..|image|] == image;
  }

  lemma {:induction false} FoldConcat(x: seq<Byte>, y: seq<Byte>, h: State)
    ensures Fold(x + y, h) == Fold(y, Fold(x, h))
  {
    if y == [] {
      assert x + y == x;
    } else {
      FoldConcat(x, y[..|y| - 1], h);
      assert (x + y)[..|x + y| - 1] == x + y[..|y| - 1];
    }
  }

  /** Over a fixed suffix, equal digests come from equal states. */
  lemma {:induction false} FoldInjective(y: seq<Byte>, h: State, h': State)
    requires Fold(y, h) == Fold(y, h')
    ensures h == h'
  {
    if y != [] {
      var last := y[|y| - 1];
      RoundBijective(Fold(y[..|y| - 1], h), last);
      RoundBijective(Fold(y[..|y| - 1], h'), last);
      FoldInjective(y[..|y| - 1], h, h');
    }
  }

  lemma FoldLast(p: seq<Byte>, b: Byte, h: State)
    ensures Fold(p + [b], h) == Round(Fold(p, h), b)
  {
    assert (p + [b])[..|p|] == p;
  }

  /** Between a common head and a common tail, equal digests come from equal bytes. */
  lemma ByteInside(p: seq<Byte>, b: Byte, b': Byte, tail: seq<Byte>, h: State)
    requires Fold(p + [b] + tail, h) == Fold(p + [b'] + tail, h)
    ensures b == b'
  {
    FoldConcat(p + [b], tail, h);
    FoldConcat(p + [b'], tail, h);
    FoldInjective(tail, Fold(p + [b], h), Fold(p + [b'], h));
    FoldLast(p, b, h);
    FoldLast(p, b', h);
    RoundSeparates(Fold(p, h), b, b');
  }

  /** Images of equal length that agree except perhaps at byte i have equal digests only if
      they are equal: a change of a single byte always shows. */
  lemma SingleByteShows(x: seq<Byte>, y: seq<Byte>, i: nat)
    requires i < |x| == |y| && forall j :: 0 <= j < |x| && j != i ==> x[j] == y[j]
    ensures Fold(x, OFFSET) == Fold(y, OFFSET) <==> x == y
  {
    var tail := x[i + 1..];
    assert x == x[..i] + [x[i]] + tail && y == x[..i] + [y[i]] + tail;
    if Fold(x, OFFSET) == Fold(y, OFFSET) {
      ByteInside(x[..i], x[i], y[i], tail, OFFSET);
    }
  }

  lemma {:induction false} XorZero(x: nat, n: nat)
    requires x < Pow2(n)
    ensures Xor(x, 0, n) == x
  {
    if n > 0 { XorZero(x / 2, n - 1); }
  }

  /** Exclusive or with one clears the lowest bit of an odd state. */
  lemma MixOne(h: State)
    requires h % 2 == 1
    ensures Mix(h, 1) == h - 1
  {
    PowWord(64);
    XorZero(h / 2, 63);
    XorHalves(h, 1, 64);
  }

  lemma RoundOne(h: State, b: Byte)
    requires h % 2 == 1 && b == 1
    ensures Round(h, b) == (h - 1) * PRIME % TWO_64
  {
    MixOne(h);
  }

  lemma RoundZero(h: State, b: Byte)
    requires b == 0
    ensures Round(h, b) == h * PRIME % TWO_64
  {
    MixZero(h);
  }

  lemma MixZero(h: State)
    ensures Mix(h, 0) == h
  {
    PowWord(64);
    XorZero(h, 64);
  }

  lemma ShortFolds(h: State, a: Byte, b: Byte)
    ensures Fold([a], h) == Round(h, a) && Fold([a, b], h) == Round(Round(h, a), b)
  {
    assert [a][..0] == [] && [a, b][..1] == [a];
  }

  lemma ShortProducts()
    ensures (OFFSET - 1) * PRIME % TWO_64 == 4953162257141659110
    ensures 4953162257141659110 * PRIME % TWO_64 == 11125488673309971922
  {
  }

  lemma FirstByte(one: Byte)
    requires one == 1
    ensures Round(OFFSET, one) == 4953162257141659110
  {
    RoundOne(OFFSET, one);
    ShortProducts();
  }

  lemma SecondByte(h: State, zero: Byte)
    requires h == 4953162257141659110 && zero == 0
    ensures Round(h, zero) == 11125488673309971922
  {
    RoundZero(h, zero);
    ShortProducts();
  }

  /** The constants, the order of the two operations and the order of the bytes, on two short
      images: the start value is odd, so a first byte of 1 takes one from it before the
      multiplication, and a byte of 0 only multiplies. */
  lemma ShortDigests(one: Byte, zero: Byte)
    requires one == 1 && zero == 0
    ensures Fold([one], OFFSET) == 4953162257141659110
    ensures Fold([one, zero], OFFSET) == 11125488673309971922
  {
    ShortFolds(OFFSET, one, zero);
    FirstByte(one);
    SecondByte(Round(OFFSET, one), zero);
  }
}
