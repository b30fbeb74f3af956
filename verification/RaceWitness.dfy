/**
 Two requests the runtime can receive, on which two threads without a barrier between graph
 nodes leave a wrong output after a failure.
 */
module RaceWitness {
  import opened Matrix
  import opened I2S
  import opened Oracle
  import opened Exactness
  import opened ChunkedGemm
  import opened Shards
  import opened ForkJoin
  import opened ForkJoinRace
  import opened MulMatCall
  import TokenSplit
  import XdnaRuntime

  /** The request passes the gate of the patched mul_mat, with the default token split. */
  ghost predicate Receivable(r: Request) {
    && r.Valid() && r.ne11 >= TokenSplit.M_TILE
    && PlanFor(XdnaRuntime.BITNET_TILES, XdnaRuntime.BITNET_SHAPES, r.K, r.ne01).Some?
    && r.tNpu == TokenSplit.Split(-1, 0.5, r.ne11)
    && BatchFits(r.aq, r.stride, r.ne11, r.K)
  }

  /** 1024 tokens of constant activations against a 2560 x 2560 tensor of weights -1. */
  function Uniform(v: Int8): Request {
    Request(seq(1024 * 2560, q => v), 2560, seq(1024, t => 1.0), seq<int>(1024, t => 2560 * v),
            seq(2560 * 640, b => 0), 2560, 1024, 2560, 1024, 1.0)
  }

  lemma {:induction false} ConstantDot(a: Mat, b: Mat, i: int, j: int, hi: nat, x: int, y: int)
    requires forall k :: 0 <= k < hi ==> a(i, k) == x && b(j, k) == y
    ensures Dot(a, b, i, j, 0, hi) == hi * (x * y)
  {
    if hi > 0 {
      ConstantDot(a, b, i, j, hi - 1, x, y);
      assert hi * (x * y) == (hi - 1) * (x * y) + x * y;
    }
  }

  lemma UniformActivation(v: Int8, t: int, k: int)
    requires 0 <= t < 1024 && 0 <= k < 2560
    ensures View(Uniform(v).aq, 2560)(t, k) == v
  {
    IdxBound(2560, 1024, t, k);
  }

  lemma UniformCode(v: Int8, n: int, k: int)
    requires 0 <= n < 2560 && 0 <= k < 2560
    ensures Codes(Uniform(v).src, 2560, 2560)(n, k) == 0 && Ternary(Uniform(v).src, 2560, 2560)(n, k) == -1
  {
    InTensorAll(Uniform(v).src, 2560, 2560, n, k);
  }

  lemma UniformReceivable(v: Int8)
    ensures Receivable(Uniform(v))
  {
    var r := Uniform(v);
    forall t | 0 <= t < r.ne11 ensures r.sums[t] == Dot(View(r.aq, r.stride), Ones(), t, 0, 0, r.K) {
      forall k | 0 <= k < 2560 ensures View(r.aq, 2560)(t, k) == v { UniformActivation(v, t, k); }
      ConstantDot(View(r.aq, 2560), Ones(), t, 0, 2560, v, 1);
    }
    forall n | 0 <= n < r.ne01 ensures TernaryRow(r.src, r.K, r.ne01, n) {
      forall k | 0 <= k < 2560 ensures Codes(r.src, 2560, 2560)(n, k) <= 2 { UniformCode(v, n, k); }
    }
  }

  lemma UniformSum(v: Int8, t: int, n: int)
    requires 0 <= t < 1024 && 0 <= n < 2560
    ensures Uniform(v).Signed()(t, n) == -2560 * v
  {
    var r := Uniform(v);
    forall k | 0 <= k < 2560
      ensures View(r.aq, 2560)(t, k) == v && Ternary(r.src, 2560, 2560)(n, k) == -1
    {
      UniformActivation(v, t, k);
      UniformCode(v, n, k);
    }
    ConstantDot(View(r.aq, 2560), Ternary(r.src, 2560, 2560), t, n, 2560, v, -1);
  }

  /** Exact arithmetic, one instance of binary32's rules. */
  function Exactly(): Float32 {
    Float32((x: real) => x, (x: real, y: real) => x * y, (x: real, y: real) => if y == 0.0 then 0.0 else x / y)
  }

  function Requests(): nat -> Request {
    (c: nat) => if c == 0 then Uniform(0) else Uniform(1)
  }

  function Outcomes(): nat -> bool {
    (c: nat) => c != 0
  }

  /** Two threads; the first call fails, the later ones succeed. */
  ghost function Racy(): System {
    System(2, (c: nat) => CallOf(Exactly(), Requests()(c), Outcomes()(c)), false)
  }

  lemma RacyServes()
    ensures Exactly().Ieee() && Serves(Exactly(), Racy(), Requests(), Outcomes())
    ensures forall c: nat :: Receivable(Requests()(c))
  {
    forall c: nat ensures Receivable(Requests()(c)) && Requests()(c).Valid() {
      UniformReceivable(0);
      UniformReceivable(1);
    }
  }

  /** The failed first call and the successful second one. */
  ghost function Failed(): Call {
    CallOf(Exactly(), Uniform(0), false)
  }

  ghost function Succeeds(): Call {
    CallOf(Exactly(), Uniform(1), true)
  }

  lemma RacyCalls()
    ensures Racy().calls(0) == Failed() && Racy().calls(1) == Succeeds()
  {
    var calls := (c: nat) => CallOf(Exactly(), Requests()(c), Outcomes()(c));
    assert Racy().calls == calls;
    assert Requests()(0) == Uniform(0) && !Outcomes()(0) && Requests()(1) == Uniform(1) && Outcomes()(1);
  }

  lemma SlowShard()
    ensures (512, 0) in Shard(2, Failed(), Epilogue, 1)
  {
    var k := Failed();
    assert k.ne11 == 1024 && k.ne01 == 2560 && k.tNpu == 1024;
    InShardSet(2, k, Epilogue, 1, (512, 0));
  }

  /** The reference of the failed call, and what its scale makes of the next call's sums. */
  lemma Values()
    ensures Failed().Ref((512, 0)) == 0.0
    ensures Failed().convert(512, Succeeds().refAcc(512, 0)) == -2560.0
  {
    UniformSum(0, 512, 0);
    UniformSum(1, 512, 0);
    ConvertExact(0);
    ConvertExact(-2560);
  }

  lemma ConvertExact(acc: int)
    ensures Failed().convert(512, acc) == acc as real
  {
    var r := Uniform(0);
    assert r.Scale(512) == 1.0 && r.ws == 1.0;
    assert Exactly().div(1.0, 1.0) == 1.0;
  }

  /** A reachable state in which an output of the failed call has been overwritten with a value
      that is not its reference. */
  lemma NodeBarrierNeeded() returns (s: State)
    ensures forall c: nat :: Receivable(Requests()(c))
    ensures Serves(Exactly(), Racy(), Requests(), Outcomes()) && !Racy().nodeBarrier && Reach(Racy(), s)
    ensures Racy().calls(0).Ref((512, 0)) == 0.0
    ensures |s.dst(0, (512, 0))| > 0 && s.dst(0, (512, 0))[|s.dst(0, (512, 0))| - 1] == Write(1, -2560.0)
  {
    RacyServes();
    s := WrongOutput();
  }

  lemma WrongOutput() returns (s: State)
    ensures Reach(Racy(), s) && !Racy().nodeBarrier && Racy().calls(0).Ref((512, 0)) == 0.0
    ensures |s.dst(0, (512, 0))| > 0 && s.dst(0, (512, 0))[|s.dst(0, (512, 0))| - 1] == Write(1, -2560.0)
  {
    RacyCalls();
    SlowShard();
    Values();
    s := WritesWrong(Racy(), 0, (512, 0));
  }
}
