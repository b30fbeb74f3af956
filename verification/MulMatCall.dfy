/**
 The mul_mat call the fork/join protocol runs on, built from the tensors of one request:
 the protocol's assumptions about the two engines, proved from what the engines compute.
 */
module MulMatCall {
  import opened Matrix
  import opened I2S
  import opened Oracle
  import opened Exactness
  import opened ChunkedGemm
  import opened Shards
  import opened ForkJoin
  import opened ForkJoinSafety
  import opened ForkJoinTermination
  import XdnaProgram
  import XdnaRuntime
  import opened Refinement

  /** One request: quantised activations with a scale and a sum per token, packed weights. */
  datatype Request = Request(aq: seq<Int8>, stride: nat, scales: seq<real>, sums: seq<int>, src: seq<bv8>,
                             K: nat, ne11: nat, ne01: nat, tNpu: nat, ws: real)
  {
    ghost predicate Valid() {
      && 0 < tNpu <= ne11 && ne01 % 4 == 0
      && K % QK == 0 && ExactWidth(aq, K) && ne01 * (K / 4) <= |src|
      && |scales| == |sums| == ne11
      && (forall t :: 0 <= t < ne11 ==> sums[t] == Dot(View(aq, stride), Ones(), t, 0, 0, K))
      && forall n :: 0 <= n < ne01 ==> TernaryRow(src, K, ne01, n)
    }

    function Signed(): Mat {
      (t: int, n: int) => Dot(View(aq, stride), Ternary(src, K, ne01), t, n, 0, K)
    }

    function Biased(): Mat {
      (t: int, n: int) => Dot(View(aq, stride), Codes(src, K, ne01), t, n, 0, K)
    }

    function Scale(t: int): real {
      if 0 <= t < |scales| then scales[t] else 1.0
    }
  }

  ghost function CallOf(fp: Float32, r: Request, npuOk: bool): Call {
    Call(r.ne11, r.ne01, r.tNpu, npuOk, r.Signed(),
         (t: int, acc: int) => fp.mul(fp.rnd(acc as real), fp.div(r.ws, r.Scale(t))),
         (t: int, n: int) => CpuCell(fp, r.Biased(), r.scales, r.sums, r.ws, t, n))
  }

  lemma {:induction false} OnesAnyRow(a: Mat, t: int, n: int, K: nat)
    ensures Dot(a, Ones(), t, n, 0, K) == Dot(a, Ones(), t, 0, 0, K)
  {
    if K > 0 { OnesAnyRow(a, t, n, K - 1); }
  }

  /** The number each engine multiplies by the factor of the token. */
  lemma SameNumber(fp: Float32, r: Request, t: int, n: int)
    requires fp.Ieee() && r.Valid() && 0 <= t < r.ne11 && 0 <= n < r.ne01
    ensures fp.rnd(fp.rnd(r.Biased()(t, n) as real) - fp.rnd(r.sums[t] as real)) == fp.rnd(r.Signed()(t, n) as real)
    ensures fp.rnd(r.Signed()(t, n) as real) == fp.rnd((r.Biased()(t, n) - r.sums[t]) as real)
  {
    BitIdentical(fp, r.aq, r.stride, r.src, r.K, r.ne01, t, n);
    OnesAnyRow(View(r.aq, r.stride), t, n, r.K);
  }

  lemma CallCells(fp: Float32, r: Request, npuOk: bool, t: int, n: int)
    requires 0 <= t < |r.scales| == |r.sums|
    ensures var k := CallOf(fp, r, npuOk);
            && k.cpu(t, n) == CpuCell(fp, r.Biased(), r.scales, r.sums, r.ws, t, n)
            && k.convert(t, k.refAcc(t, n)) == fp.mul(fp.rnd(r.Signed()(t, n) as real), fp.div(r.ws, r.scales[t]))
            && k.Ref((t, n)) == fp.mul(fp.rnd(r.Signed()(t, n) as real), fp.div(r.ws, r.scales[t]))
  {
    var k := CallOf(fp, r, npuOk);
    assert r.Scale(t) == r.scales[t] && k.refAcc == r.Signed();
    Converted(fp, r, npuOk, t, r.Signed()(t, n));
  }

  lemma Converted(fp: Float32, r: Request, npuOk: bool, t: int, acc: int)
    ensures CallOf(fp, r, npuOk).convert(t, acc) == fp.mul(fp.rnd(acc as real), fp.div(r.ws, r.Scale(t)))
  {
  }

  lemma EnginesAgree(fp: Float32, r: Request, t: int, n: int)
    requires fp.Ieee() && r.Valid() && 0 <= t < r.ne11 && 0 <= n < r.ne01
    ensures CpuCell(fp, r.Biased(), r.scales, r.sums, r.ws, t, n)
         == fp.mul(fp.rnd(r.Signed()(t, n) as real), fp.div(r.ws, r.scales[t]))
  {
    SameNumber(fp, r, t, n);
  }

  /** Every well-formed request gives a call the protocol accepts: both engines agree on every
      output, whichever computes it. */
  lemma CallIsValid(fp: Float32, r: Request, npuOk: bool, nth: nat)
    requires fp.Ieee() && r.Valid() && (nth == 1 ==> r.tNpu == r.ne11)
    ensures CallOf(fp, r, npuOk).Valid(nth)
  {
    var k := CallOf(fp, r, npuOk);
    forall t, n | 0 <= t < k.ne11 && 0 <= n < k.ne01
      ensures k.cpu(t, n) == k.convert(t, k.refAcc(t, n))
    {
      EnginesAgree(fp, r, t, n);
      CallCells(fp, r, npuOk, t, n);
    }
  }

  /** What a successful accumulate of the NPU's share leaves in g_acc is the accumulator the
      protocol's epilogue relies on. */
  lemma ProductHolds(fp: Float32, r: Request, npuOk: bool, acc: seq<int>)
    requires fp.Ieee() && r.Valid()
    requires IsProduct(acc, r.aq, r.stride, r.tNpu, r.K, r.ne01, r.src)
    ensures AccHolds(CallOf(fp, r, npuOk), View(acc, r.ne01))
  {
    forall t, n | 0 <= t < r.tNpu && 0 <= n < r.ne01
      ensures View(acc, r.ne01)(t, n) == r.Signed()(t, n)
    {
      SameBits(fp, acc, r.aq, r.stride, r.tNpu, r.K, r.ne01, r.src, t, n);
      OffsetIdentity(View(r.aq, r.stride), r.src, r.K, r.ne01, t, n);
    }
  }

  /** The output the protocol is judged against is the reference epilogue of the naive
      accumulator. */
  lemma RefIsReference(fp: Float32, r: Request, npuOk: bool, t: int, n: int)
    requires fp.Ieee() && r.Valid() && 0 <= t < r.ne11 && 0 <= n < r.ne01
    ensures CallOf(fp, r, npuOk).Ref((t, n)) == fp.mul(fp.rnd((r.Biased()(t, n) - r.sums[t]) as real), fp.div(r.ws, r.scales[t]))
  {
    SameNumber(fp, r, t, n);
    CallCells(fp, r, npuOk, t, n);
  }

  /** A system whose calls are the given requests, with any outcomes. */
  ghost predicate Serves(fp: Float32, sys: System, requests: nat -> Request, oks: nat -> bool) {
    && sys.nth > 0
    && forall c: nat :: requests(c).Valid() && sys.calls(c) == CallOf(fp, requests(c), oks(c))
                        && (sys.nth == 1 ==> requests(c).tNpu == requests(c).ne11)
  }

  lemma ServesValid(fp: Float32, sys: System, requests: nat -> Request, oks: nat -> bool)
    requires fp.Ieee() && Serves(fp, sys, requests, oks)
    ensures sys.Valid()
  {
    forall c: nat ensures sys.calls(c).Valid(sys.nth) {
      CallIsValid(fp, requests(c), oks(c), sys.nth);
    }
  }

  /** In any run of the protocol, once all threads have left a call each output cell holds the
      reference epilogue of the naive accumulator. */
  lemma ProtocolOutput(fp: Float32, sys: System, requests: nat -> Request, oks: nat -> bool,
                       tr: seq<State>, m: nat, c: nat, t: int, n: int)
    requires fp.Ieee() && Serves(fp, sys, requests, oks) && sys.Guarded()
    requires Run(sys, tr) && m < |tr| && AllLeft(tr[m], c)
    requires 0 <= t < requests(c).ne11 && 0 <= n < requests(c).ne01
    ensures Holds(fp, requests(c), tr[m].dst(c, (t, n)), t, n)
  {
    ServesValid(fp, sys, requests, oks);
    RefIsReference(fp, requests(c), oks(c), t, n);
    if oks(c) {
      SuccessExactlyOnce(sys, tr, m, c, (t, n));
    } else {
      FailureRecomputes(sys, tr, m, c, (t, n));
    }
  }

  /** The last write to an output is the reference epilogue of the naive accumulator. */
  ghost predicate Holds(fp: Float32, r: Request, log: seq<Write>, t: int, n: int) {
    && |log| > 0 && 0 <= t < |r.sums| && t < |r.scales|
    && log[|log| - 1].value
       == fp.mul(fp.rnd((Dot(View(r.aq, r.stride), Codes(r.src, r.K, r.ne01), t, n, 0, r.K) - r.sums[t]) as real),
                 fp.div(r.ws, r.scales[t]))
  }

  /** What accumulate can leave behind: the product of the NPU's share, or anything at all
      when it fails. */
  ghost predicate Outcome(r: Request, ok: bool, buf: seq<int>) {
    ok ==> IsProduct(buf, r.aq, r.stride, r.tNpu, r.K, r.ne01, r.src)
  }

  /** Thread 0's call: the runtime's accumulate produces such an outcome in g_acc, whatever the
      state of its cache and whatever the device does, and succeeds exactly if the request is
      acceptable and nothing it attempts throws. */
  method Accumulate(rt: XdnaRuntime.Runtime, stem: string, ptr: nat, r: Request) returns (ok: bool)
    requires rt.Valid() && rt.Request(ptr, r.K, r.ne01) && rt.Bytes(ptr) == r.src
    requires rt.Supports(r.K, r.ne01) ==> BatchFits(r.aq, r.stride, r.tNpu, r.K)
    modifies rt.repr
    ensures rt.Valid() && Outcome(r, ok, rt.gAcc[..])
    ensures ok <==> old(rt.Accepts(rt.failed, rt.resident, ptr, r.K, r.ne01))
                    && XdnaProgram.NoFault(rt.device.faults, old(rt.device.attempts),
                                           old(rt.device.attempts + rt.Due(rt.programs, rt.resident, stem, ptr, r.K, r.ne01, r.tNpu)))
  {
    ok := rt.AccumulateBatch(stem, ptr, r.K, r.ne01, r.aq, r.tNpu, r.stride);
  }

  /** Every outcome is a step the protocol allows thread 0. */
  lemma OutcomeFinishes(fp: Float32, sys: System, requests: nat -> Request, oks: nat -> bool, s: State, buf: seq<int>)
    requires fp.Ieee() && Serves(fp, sys, requests, oks) && |s.threads| == sys.nth && s.threads[0].pc == Work
    requires Outcome(requests(s.threads[0].call), oks(s.threads[0].call), buf)
    ensures Enabled(sys, s, Finish(View(buf, requests(s.threads[0].call).ne01)))
  {
    var c := s.threads[0].call;
    if oks(c) { ProductHolds(fp, requests(c), oks(c), buf); }
  }

  /** A step of the real system: accumulate returns with an outcome of its request. */
  ghost predicate EngineStep(sys: System, requests: nat -> Request, s: State, step: Step)
    requires |s.threads| == sys.nth > 0
  {
    && Ready(sys, s, step)
    && (step.Finish? ==> ReturnsOutcome(sys, requests, s.threads[0].call, step.acc))
  }

  ghost predicate ReturnsOutcome(sys: System, requests: nat -> Request, c: nat, acc: Mat) {
    exists buf: seq<int> :: Outcome(requests(c), sys.calls(c).npuOk, buf) && acc == View(buf, requests(c).ne01)
  }

  ghost predicate EngineNext(sys: System, requests: nat -> Request, s: State, s': State)
    requires |s.threads| == sys.nth > 0
  {
    exists step :: EngineStep(sys, requests, s, step) && s' == Apply(sys, s, step)
  }

  ghost predicate EngineRun(sys: System, requests: nat -> Request, tr: seq<State>) {
    && sys.nth > 0 && |tr| > 0 && Init(sys, tr[0])
    && (forall n :: 0 <= n < |tr| ==> |tr[n].threads| == sys.nth)
    && forall n :: 0 <= n < |tr| - 1 ==> EngineNext(sys, requests, tr[n], tr[n + 1])
  }

  lemma EngineStepAllowed(fp: Float32, sys: System, requests: nat -> Request, oks: nat -> bool, s: State, step: Step)
    requires fp.Ieee() && Serves(fp, sys, requests, oks) && |s.threads| == sys.nth
    requires EngineStep(sys, requests, s, step)
    ensures Enabled(sys, s, step)
  {
    if step.Finish? {
      var c := s.threads[0].call;
      var buf: seq<int> :| Outcome(requests(c), sys.calls(c).npuOk, buf) && step.acc == View(buf, requests(c).ne01);
      OutcomeFinishes(fp, sys, requests, oks, s, buf);
    }
  }

  /** Where the protocol can go on, the real system can: accumulate has an outcome to return. */
  lemma EngineProgress(fp: Float32, sys: System, requests: nat -> Request, oks: nat -> bool, s: State)
    requires fp.Ieee() && Serves(fp, sys, requests, oks) && sys.Guarded() && Inv(sys, s)
    ensures exists step :: EngineStep(sys, requests, s, step) && !step.Scribble?
  {
    ServesValid(fp, sys, requests, oks);
    Progress(sys, s);
    var step :| Enabled(sys, s, step) && !step.Scribble?;
    if step.Finish? {
      var c := s.threads[0].call;
      var buf := SomeProduct(requests(c));
      var acc := View(buf, requests(c).ne01);
      assert ReturnsOutcome(sys, requests, c, acc);
      assert EngineStep(sys, requests, s, Finish(acc));
    } else {
      assert EngineStep(sys, requests, s, step);
    }
  }

  lemma SomeProduct(r: Request) returns (buf: seq<int>)
    ensures IsProduct(buf, r.aq, r.stride, r.tNpu, r.K, r.ne01, r.src)
  {
    var a, w := Acts(r.aq, r.stride, r.tNpu, r.K), Ternary(r.src, r.K, r.ne01);
    MulMono(0, r.tNpu, r.ne01);
    buf := seq<int>(r.tNpu * r.ne01, q => if r.ne01 == 0 then 0 else Wrap32(Dot(a, w, q / r.ne01, q % r.ne01, 0, r.K)));
    forall t, n | 0 <= t < r.tNpu && 0 <= n < r.ne01 ensures At(buf, r.ne01, t, n, 0) == Wrap32(Dot(a, w, t, n, 0, r.K)) {
      IdxBound(r.ne01, r.tNpu, t, n);
      IdxDivMod(r.ne01, t, n);
    }
  }

  /** The runtime refines the protocol: runs over real buffers are runs of the protocol. */
  lemma EngineRunIsRun(fp: Float32, sys: System, requests: nat -> Request, oks: nat -> bool, tr: seq<State>)
    requires fp.Ieee() && Serves(fp, sys, requests, oks) && EngineRun(sys, requests, tr)
    ensures Run(sys, tr)
  {
    forall n | 0 <= n < |tr| - 1 ensures Next(sys, tr[n], tr[n + 1]) {
      assert EngineNext(sys, requests, tr[n], tr[n + 1]);
      var step :| EngineStep(sys, requests, tr[n], step) && tr[n + 1] == Apply(sys, tr[n], step);
      EngineStepAllowed(fp, sys, requests, oks, tr[n], step);
    }
  }

  /** End to end: in any interleaving of any number of threads over any sequence of requests,
      with accumulate returning any outcome it can have, once all threads have left a call
      each output cell holds the reference epilogue of the naive accumulator. */
  lemma OutputIsReference(fp: Float32, sys: System, requests: nat -> Request, oks: nat -> bool,
                          tr: seq<State>, m: nat, c: nat, t: int, n: int)
    requires fp.Ieee() && Serves(fp, sys, requests, oks) && sys.Guarded()
    requires EngineRun(sys, requests, tr) && m < |tr| && AllLeft(tr[m], c)
    requires 0 <= t < requests(c).ne11 && 0 <= n < requests(c).ne01
    ensures Holds(fp, requests(c), tr[m].dst(c, (t, n)), t, n)
  {
    EngineRunIsRun(fp, sys, requests, oks, tr);
    ProtocolOutput(fp, sys, requests, oks, tr, m, c, t, n);
  }

  /** Real runs can be continued by any number of steps that are not writes into g_acc. */
  lemma {:induction false} EngineGoesOn(fp: Float32, sys: System, requests: nat -> Request, oks: nat -> bool, n: nat)
    returns (tr: seq<State>, steps: seq<Step>)
    requires fp.Ieee() && Serves(fp, sys, requests, oks) && sys.Guarded()
    ensures EngineRun(sys, requests, tr) && Execution(sys, tr, steps) && Reals(steps, |steps|) >= n
  {
    ServesValid(fp, sys, requests, oks);
    if n == 0 {
      var s := State(seq(sys.nth, i requires 0 <= i < sys.nth => Entry(sys, 0, i, 0)), (t: int, j: int) => 0, false,
                     (d: nat, x: Cell) => []);
      tr, steps := [s], [];
    } else {
      var before, done := EngineGoesOn(fp, sys, requests, oks, n - 1);
      var s := before[|done|];
      RunInv(sys, before, |done|);
      EngineProgress(fp, sys, requests, oks, s);
      var step :| EngineStep(sys, requests, s, step) && !step.Scribble?;
      EngineStepAllowed(fp, sys, requests, oks, s, step);
      Extends(sys, before, done, step);
      EngineExtends(sys, requests, before, step);
      RealsPrefix(done, step, |done|);
      tr, steps := before + [Apply(sys, s, step)], done + [step];
    }
  }

  lemma EngineExtends(sys: System, requests: nat -> Request, tr: seq<State>, step: Step)
    requires EngineRun(sys, requests, tr) && EngineStep(sys, requests, tr[|tr| - 1], step)
    ensures EngineRun(sys, requests, tr + [Apply(sys, tr[|tr| - 1], step)])
  {
    var longer := tr + [Apply(sys, tr[|tr| - 1], step)];
    assert EngineNext(sys, requests, tr[|tr| - 1], longer[|tr|]);
    forall n | 0 <= n < |longer| - 1 ensures EngineNext(sys, requests, longer[n], longer[n + 1]) {
      if n < |tr| - 1 { assert EngineNext(sys, requests, tr[n], tr[n + 1]); }
    }
  }

  /** Every sequence of requests is answered: some real run, and by EveryCallEnds every one that
      goes on, ends call c with the reference in each of its outputs. */
  lemma RequestAnswered(fp: Float32, sys: System, requests: nat -> Request, oks: nat -> bool, c: nat)
    returns (tr: seq<State>)
    requires fp.Ieee() && Serves(fp, sys, requests, oks) && sys.Guarded()
    ensures EngineRun(sys, requests, tr) && AllLeft(tr[|tr| - 1], c)
    ensures forall t, n :: 0 <= t < requests(c).ne11 && 0 <= n < requests(c).ne01 ==>
              Holds(fp, requests(c), tr[|tr| - 1].dst(c, (t, n)), t, n)
  {
    ServesValid(fp, sys, requests, oks);
    var steps: seq<Step>;
    tr, steps := EngineGoesOn(fp, sys, requests, oks, Bound(sys, c) + 1);
    EveryCallEnds(sys, tr, steps, |steps|, c);
    forall t, n | 0 <= t < requests(c).ne11 && 0 <= n < requests(c).ne01
      ensures Holds(fp, requests(c), tr[|tr| - 1].dst(c, (t, n)), t, n)
    {
      OutputIsReference(fp, sys, requests, oks, tr, |tr| - 1, c, t, n);
    }
  }
}
