/**
 The fork/join protocol of the patched mul_mat: thread 0 drives the NPU while the others
 compute their columns, a barrier, a shared verdict, a sharded epilogue (or the recompute
 after a failure) and a second barrier. A state machine over any number of threads and an
 unbounded sequence of mul_mats; every step is one shared-memory access of one thread.
 */
module ForkJoin {
  import opened Matrix
  import opened Shards

  type Cell = (int, int)

  /** One mul_mat: sizes, the NPU's share of tokens, whether its accumulate will succeed, the
      true accumulator, and the output values of the two engines. */
  datatype Call = Call(ne11: nat, ne01: nat, tNpu: nat, npuOk: bool, refAcc: Mat,
                       convert: (int, int) -> real, cpu: (int, int) -> real)
  {
    /** The share is part of the batch, columns come in fours, and both engines agree. */
    ghost predicate Valid(nth: nat) {
      && 0 < tNpu <= ne11 && ne01 % 4 == 0 && (nth == 1 ==> tNpu == ne11)
      && forall t, n :: 0 <= t < ne11 && 0 <= n < ne01 ==> cpu(t, n) == convert(t, refAcc(t, n))
    }

    /** The reference output. */
    function Ref(x: Cell): real {
      convert(x.0, refAcc(x.0, x.1))
    }
  }

  /** `nodeBarrier`: threads that recompute after a failure meet at ggml's barrier between
      graph nodes before they enter the next mul_mat. */
  datatype System = System(nth: nat, calls: nat -> Call, nodeBarrier: bool) {
    ghost predicate Valid() {
      nth > 0 && forall c: nat :: calls(c).Valid(nth)
    }

    /** When the block's own barriers protect every verdict: ggml separates graph nodes, there
        is one thread, or no failed call is followed by a successful one. */
    ghost predicate Guarded() {
      nodeBarrier || nth == 1 || forall c: nat :: calls(c).npuOk || !calls(c + 1).npuOk
    }

    /** Barriers a thread meets in one call: a failed call lacks the second one unless graph
        nodes are separated. */
    function Uses(c: nat): nat {
      if nodeBarrier || calls(c).npuOk then 2 else 1
    }
  }

  /** The three kinds of output writes: CPU share, epilogue, recompute. */
  datatype Kind = Cpu | Epilogue | Recompute

  datatype Pc =
    | Work              // thread 0 inside accumulate, others in their CPU share
    | Store(r: bool)    // accumulate returned r
    | Stored            // verdict stored
    | Barrier1          // waiting at the first barrier
    | Load              // about to load the verdict
    | Scale             // epilogue rows
    | Redo              // failure fall-through
    | Barrier2          // waiting at the second barrier (or the node barrier)

  /** `arrived` counts the barriers this thread has reached. */
  datatype Thread = Thread(call: nat, pc: Pc, todo: set<Cell>, arrived: nat)

  datatype Write = Write(thread: nat, value: real)

  /** Shared state: g_acc, xdna_result and the log of writes to every call's dst cells. */
  datatype State = State(threads: seq<Thread>, acc: Mat, result: bool, dst: (nat, Cell) -> seq<Write>)

  predicate InTensor(k: Call, x: Cell) {
    0 <= x.0 < k.ne11 && 0 <= x.1 < k.ne01
  }

  /** The cells each kind of write covers in one call. */
  predicate Region(k: Call, kind: Kind, x: Cell) {
    InTensor(k, x) && match kind case Cpu => k.tNpu <= x.0 case Epilogue => x.0 < k.tNpu case Recompute => true
  }

  /** Thread i's shard of a kind of write, as the code computes its bounds. */
  predicate InShard(nth: nat, k: Call, kind: Kind, i: nat, x: Cell)
    requires nth > 0
  {
    && Region(k, kind, x)
    && match kind
       case Cpu => i > 0 && nth > 1 && ColBound(k.ne01, nth - 1)(i - 1) <= x.1 < ColBound(k.ne01, nth - 1)(i)
       case Epilogue => RowBound(k.tNpu, nth)(i) <= x.0 < RowBound(k.tNpu, nth)(i + 1)
       case Recompute => RowBound(k.ne01, nth)(i) <= x.1 < RowBound(k.ne01, nth)(i + 1)
  }

  function Shard(nth: nat, k: Call, kind: Kind, i: nat): set<Cell>
    requires nth > 0
  {
    set t: int, n: int | 0 <= t < k.ne11 && 0 <= n < k.ne01 && InShard(nth, k, kind, i, (t, n)) :: (t, n)
  }

  /** The one thread whose shard holds x. */
  function ShardOwner(nth: nat, k: Call, kind: Kind, x: Cell): nat
    requires nth > 0
  {
    match kind
    case Cpu => if nth > 1 then 1 + Owner(ColBound(k.ne01, nth - 1), nth - 1, x.1) else 0
    case Epilogue => Owner(RowBound(k.tNpu, nth), nth, x.0)
    case Recompute => Owner(RowBound(k.ne01, nth), nth, x.1)
  }

  lemma CpuShardOwner(nth: nat, k: Call, i: nat, x: Cell)
    requires nth > 0 && k.Valid(nth) && i < nth && Region(k, Cpu, x)
    ensures InShard(nth, k, Cpu, i, x) <==> i == ShardOwner(nth, k, Cpu, x)
    ensures 0 < ShardOwner(nth, k, Cpu, x) < nth
  {
    ColsPartition(k.ne01, nth - 1);
    Partition(ColBound(k.ne01, nth - 1), nth - 1, x.1, if i > 0 then i - 1 else 0);
  }

  lemma EpilogueShardOwner(nth: nat, k: Call, i: nat, x: Cell)
    requires nth > 0 && k.Valid(nth) && i < nth && Region(k, Epilogue, x)
    ensures InShard(nth, k, Epilogue, i, x) <==> i == ShardOwner(nth, k, Epilogue, x)
    ensures ShardOwner(nth, k, Epilogue, x) < nth
  {
    RowsPartition(k.tNpu, nth);
    Partition(RowBound(k.tNpu, nth), nth, x.0, i);
  }

  lemma RecomputeShardOwner(nth: nat, k: Call, i: nat, x: Cell)
    requires nth > 0 && k.Valid(nth) && i < nth && Region(k, Recompute, x)
    ensures InShard(nth, k, Recompute, i, x) <==> i == ShardOwner(nth, k, Recompute, x)
    ensures ShardOwner(nth, k, Recompute, x) < nth
  {
    RowsPartition(k.ne01, nth);
    Partition(RowBound(k.ne01, nth), nth, x.1, i);
  }

  lemma InShardSet(nth: nat, k: Call, kind: Kind, i: nat, x: Cell)
    requires nth > 0 && InTensor(k, x)
    ensures x in Shard(nth, k, kind, i) <==> InShard(nth, k, kind, i, x)
  {
    assert x == (x.0, x.1);
  }

  /** The shards of each kind tile its region without overlap. */
  lemma ShardsTile(nth: nat, k: Call, kind: Kind, i: nat, x: Cell)
    requires nth > 0 && k.Valid(nth) && i < nth && Region(k, kind, x)
    ensures x in Shard(nth, k, kind, i) <==> i == ShardOwner(nth, k, kind, x)
    ensures ShardOwner(nth, k, kind, x) < nth && (kind == Cpu ==> ShardOwner(nth, k, kind, x) > 0)
  {
    InShardSet(nth, k, kind, i, x);
    match kind
    case Cpu => CpuShardOwner(nth, k, i, x);
    case Epilogue => EpilogueShardOwner(nth, k, i, x);
    case Recompute => RecomputeShardOwner(nth, k, i, x);
  }

  /** Both engines together: every output cell of a successful call is in exactly one shard
      of exactly one kind. */
  lemma EnginesTile(nth: nat, k: Call, x: Cell)
    requires nth > 0 && k.Valid(nth) && InTensor(k, x)
    ensures Region(k, Cpu, x) <==> !Region(k, Epilogue, x)
    ensures forall i, j :: 0 <= i < nth && 0 <= j < nth && x in Shard(nth, k, Cpu, i) ==> x !in Shard(nth, k, Epilogue, j)
    ensures exists i :: 0 <= i < nth && (x in Shard(nth, k, Cpu, i) || x in Shard(nth, k, Epilogue, i))
  {
    var kind := if x.0 < k.tNpu then Epilogue else Cpu;
    ShardsTile(nth, k, kind, 0, x);
    ShardsTile(nth, k, kind, ShardOwner(nth, k, kind, x), x);
  }

  function Entry(sys: System, c: nat, i: nat, arrived: nat): Thread
    requires sys.nth > 0
  {
    Thread(c, Work, if i > 0 then Shard(sys.nth, sys.calls(c), Cpu, i) else {}, arrived)
  }

  ghost predicate Init(sys: System, s: State)
    requires sys.nth > 0
  {
    && s.threads == seq(sys.nth, i requires 0 <= i < sys.nth => Entry(sys, 0, i, 0))
    && forall c: nat, x: Cell :: s.dst(c, x) == []
  }

  datatype Step =
    | Scribble(acc: Mat)      // accumulate writes anything into g_acc
    | Finish(acc: Mat)        // accumulate returns
    | StoreVerdict
    | Arrive(i: nat)
    | Leave(i: nat)
    | LoadVerdict(i: nat)
    | WriteCell(i: nat, x: Cell)

  /** The NPU rows of g_acc hold the true accumulator of this call. */
  ghost predicate AccHolds(k: Call, acc: Mat) {
    forall t, n :: 0 <= t < k.tNpu && 0 <= n < k.ne01 ==> acc(t, n) == k.refAcc(t, n)
  }

  /** A barrier lets a thread go once every thread has arrived at it. */
  predicate AllArrived(s: State, i: nat)
    requires i < |s.threads|
  {
    forall j :: 0 <= j < |s.threads| ==> s.threads[j].arrived >= s.threads[i].arrived
  }

  /** A step is possible, and accumulate reports success only with the true accumulator. */
  ghost predicate Enabled(sys: System, s: State, step: Step)
    requires |s.threads| == sys.nth > 0
  {
    && Ready(sys, s, step)
    && (step.Finish? && sys.calls(s.threads[0].call).npuOk ==> AccHolds(sys.calls(s.threads[0].call), step.acc))
  }

  /** Where the acting thread must be. */
  predicate Ready(sys: System, s: State, step: Step)
    requires |s.threads| == sys.nth > 0
  {
    match step
    case Scribble(_) => s.threads[0].pc == Work
    case Finish(_) => s.threads[0].pc == Work
    case StoreVerdict => s.threads[0].pc.Store?
    case Arrive(i) =>
      && i < sys.nth && s.threads[i].todo == {}
      && (s.threads[i].pc in {Stored, Scale, Redo} || (s.threads[i].pc == Work && i > 0))
    case Leave(i) =>
      i < sys.nth && s.threads[i].pc in {Barrier1, Barrier2} && AllArrived(s, i)
    case LoadVerdict(i) => i < sys.nth && s.threads[i].pc == Load
    case WriteCell(i, x) =>
      i < sys.nth && x in s.threads[i].todo && s.threads[i].pc in {Work, Scale, Redo}
  }

  /** The thread after its step. */
  function Move(sys: System, s: State, i: nat, step: Step): Thread
    requires |s.threads| == sys.nth > 0 && i < sys.nth && Ready(sys, s, step)
  {
    var t := s.threads[i];
    var k := sys.calls(t.call);
    match step
    case Scribble(_) => t
    case Finish(_) => t.(pc := Store(k.npuOk))
    case StoreVerdict => t.(pc := Stored)
    case Arrive(_) =>
      if t.pc == Redo && !sys.nodeBarrier then Entry(sys, t.call + 1, i, t.arrived)
      else t.(pc := if t.pc in {Scale, Redo} then Barrier2 else Barrier1, arrived := t.arrived + 1)
    case Leave(_) => if t.pc == Barrier1 then t.(pc := Load) else Entry(sys, t.call + 1, i, t.arrived)
    case LoadVerdict(_) =>
      if s.result then t.(pc := Scale, todo := Shard(sys.nth, k, Epilogue, i))
      else t.(pc := Redo, todo := Shard(sys.nth, k, Recompute, i))
    case WriteCell(_, x) => t.(todo := t.todo - {x})
  }

  function Actor(step: Step): nat {
    match step
    case Arrive(i) => i
    case Leave(i) => i
    case LoadVerdict(i) => i
    case WriteCell(i, _) => i
    case _ => 0
  }

  /** What a thread writes: the epilogue converts whatever g_acc holds at that moment. */
  function Value(sys: System, s: State, i: nat, x: Cell): real
    requires i < |s.threads|
  {
    var k := sys.calls(s.threads[i].call);
    if s.threads[i].pc == Scale then k.convert(x.0, s.acc(x.0, x.1)) else k.cpu(x.0, x.1)
  }

  function Apply(sys: System, s: State, step: Step): State
    requires |s.threads| == sys.nth > 0 && Ready(sys, s, step)
  {
    var i := Actor(step);
    var moved := s.(threads := s.threads[i := Move(sys, s, i, step)]);
    match step
    case Scribble(acc) => moved.(acc := acc)
    case Finish(acc) => moved.(acc := acc)
    case StoreVerdict => moved.(result := s.threads[0].pc.r)
    case WriteCell(_, x) =>
      var c, w := s.threads[i].call, Write(i, Value(sys, s, i, x));
      moved.(dst := (d: nat, y: Cell) => if d == c && y == x then s.dst(d, y) + [w] else s.dst(d, y))
    case _ => moved
  }

  ghost predicate Next(sys: System, s: State, s': State)
    requires |s.threads| == sys.nth > 0
  {
    exists step :: Enabled(sys, s, step) && s' == Apply(sys, s, step)
  }

  /** A finite prefix of an execution: any interleaving, any number of mul_mats. */
  ghost predicate Run(sys: System, tr: seq<State>) {
    && sys.nth > 0 && |tr| > 0 && Init(sys, tr[0])
    && (forall n :: 0 <= n < |tr| ==> |tr[n].threads| == sys.nth)
    && forall n :: 0 <= n < |tr| - 1 ==> Next(sys, tr[n], tr[n + 1])
  }
}
