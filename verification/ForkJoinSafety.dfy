/** Safety and progress of the fork/join protocol over every execution. */
module ForkJoinSafety {
  import opened Matrix
  import opened ForkJoin

  function Phase(pc: Pc): nat {
    match pc
    case Work => 0 case Store(_) => 0 case Stored => 0
    case Barrier1 => 1 case Load => 1 case Scale => 1 case Redo => 1
    case Barrier2 => 2
  }

  /** Barriers a thread meets before call c. */
  function Before(sys: System, c: nat): nat {
    if c == 0 then 0 else Before(sys, c - 1) + sys.Uses(c - 1)
  }

  /** Barriers this thread has left. */
  function Departed(sys: System, t: Thread): nat {
    Before(sys, t.call) + if t.pc in {Load, Scale, Redo, Barrier2} then 1 else 0
  }

  /** Thread 0 has stored this call's verdict. */
  predicate VerdictStored(pc: Pc) {
    pc in {Stored, Barrier1, Load, Scale, Redo, Barrier2}
  }

  function KindPc(kind: Kind): Pc {
    match kind case Cpu => Work case Epilogue => Scale case Recompute => Redo
  }

  /** The thread is past its writes of this kind. */
  predicate After(kind: Kind, pc: Pc) {
    if kind == Cpu then pc != Work else pc == Barrier2
  }

  /** If x is in this thread's shard of call c, it has written it. */
  predicate Done(t: Thread, c: nat, kind: Kind, x: Cell) {
    t.call > c || (t.call == c && (After(kind, t.pc) || (t.pc == KindPc(kind) && x !in t.todo)))
  }

  ghost predicate ThreadOk(sys: System, i: nat, t: Thread)
    requires sys.nth > 0
  {
    var k := sys.calls(t.call);
    && t.arrived == Before(sys, t.call) + Phase(t.pc) && Phase(t.pc) <= sys.Uses(t.call)
    && (t.pc.Store? || t.pc == Stored ==> i == 0)
    && (t.pc.Store? ==> t.pc.r == k.npuOk)
    && (t.pc == Scale ==> k.npuOk) && (t.pc == Redo ==> !k.npuOk)
    && ((i == 0 && t.pc in {Work, Stored}) || t.pc.Store? ==> t.todo == {})
    && (forall kind :: t.pc == KindPc(kind) ==> t.todo <= Shard(sys.nth, k, kind, i))
  }

  ghost predicate ThreadsOk(sys: System, s: State) {
    && |s.threads| == sys.nth > 0
    && forall i :: 0 <= i < sys.nth ==> ThreadOk(sys, i, s.threads[i])
  }

  /** Nobody is past a barrier that some thread has not reached. */
  ghost predicate BarriersOk(sys: System, s: State) {
    forall i, j :: 0 <= i < |s.threads| && 0 <= j < |s.threads| ==> Departed(sys, s.threads[i]) <= s.threads[j].arrived
  }

  ghost predicate SharedOk(sys: System, s: State)
    requires |s.threads| > 0
  {
    var t := s.threads[0];
    && (VerdictStored(t.pc) ==> s.result == sys.calls(t.call).npuOk)
    && (!VerdictStored(t.pc) && t.call > 0 ==> s.result == sys.calls(t.call - 1).npuOk)
    && (t.pc != Work && sys.calls(t.call).npuOk ==> AccHolds(sys.calls(t.call), s.acc))
  }

  /** The writes of one kind to x, given how far the owning thread is. */
  function Part(sys: System, s: State, c: nat, kind: Kind, x: Cell): seq<Write>
    requires |s.threads| == sys.nth > 0
  {
    var k := sys.calls(c);
    var o := ShardOwner(sys.nth, k, kind, x);
    if Region(k, kind, x) && o < sys.nth && Done(s.threads[o], c, kind, x) then [Write(o, k.Ref(x))] else []
  }

  function SecondKind(k: Call): Kind {
    if k.npuOk then Epilogue else Recompute
  }

  function Log(sys: System, s: State, c: nat, x: Cell): seq<Write>
    requires |s.threads| == sys.nth > 0
  {
    Part(sys, s, c, Cpu, x) + Part(sys, s, c, SecondKind(sys.calls(c)), x)
  }

  /** dst holds exactly the writes the threads' positions account for. */
  ghost predicate LogsOk(sys: System, s: State)
    requires |s.threads| == sys.nth > 0
  {
    forall c: nat, x: Cell :: s.dst(c, x) == Log(sys, s, c, x)
  }

  ghost predicate Inv(sys: System, s: State) {
    ThreadsOk(sys, s) && BarriersOk(sys, s) && SharedOk(sys, s) && LogsOk(sys, s)
  }

  lemma {:induction false} BeforeOrdered(sys: System, c: nat, d: nat)
    requires c < d
    ensures Before(sys, c) + sys.Uses(c) <= Before(sys, d)
    ensures d > c + 1 ==> Before(sys, c) + sys.Uses(c) < Before(sys, d)
    decreases d
  {
    if c < d - 1 { BeforeOrdered(sys, c, d - 1); }
  }

  /** A thread is at most one call ahead of another, before its first barrier there, and then
      the other one has reached the last barrier of its own call. */
  lemma Ahead(sys: System, s: State, i: nat, j: nat)
    requires ThreadsOk(sys, s) && BarriersOk(sys, s) && i < sys.nth && j < sys.nth
    requires s.threads[i].call > s.threads[j].call
    ensures s.threads[i].call == s.threads[j].call + 1 && Phase(s.threads[i].pc) <= 1
    ensures s.threads[i].pc !in {Load, Scale, Redo, Barrier2}
    ensures Phase(s.threads[j].pc) == sys.Uses(s.threads[j].call)
  {
    var t, u := s.threads[i], s.threads[j];
    assert ThreadOk(sys, i, t) && ThreadOk(sys, j, u);
    BeforeOrdered(sys, u.call, t.call);
    assert Departed(sys, t) <= u.arrived;
  }

  /** A thread about to load a verdict, or acting on one, finds that of its own call: thread 0
      is in the same call, or one further after two failures in a row. */
  lemma VerdictReady(sys: System, s: State, i: nat)
    requires sys.Guarded() && ThreadsOk(sys, s) && BarriersOk(sys, s) && SharedOk(sys, s) && i < sys.nth
    requires s.threads[i].pc in {Load, Scale, Redo}
    ensures s.result == sys.calls(s.threads[i].call).npuOk
  {
    var t, z := s.threads[i], s.threads[0];
    assert ThreadOk(sys, 0, z) && ThreadOk(sys, i, t);
    assert Departed(sys, t) <= z.arrived;
    if z.call > t.call {
      Ahead(sys, s, 0, i);
      assert !sys.calls(t.call).npuOk && !sys.calls(t.call + 1).npuOk;
    } else if z.call < t.call {
      Ahead(sys, s, i, 0);
    }
  }

  lemma InitInv(sys: System, s: State)
    requires sys.Valid() && Init(sys, s)
    ensures Inv(sys, s)
  {
    forall c: nat, x: Cell ensures s.dst(c, x) == Log(sys, s, c, x) {
      EntryWritesNothing(sys, s, c, x, Cpu);
      EntryWritesNothing(sys, s, c, x, SecondKind(sys.calls(c)));
    }
  }

  lemma EntryWritesNothing(sys: System, s: State, c: nat, x: Cell, kind: Kind)
    requires sys.Valid() && Init(sys, s)
    ensures Part(sys, s, c, kind, x) == []
  {
    var k := sys.calls(c);
    var o := ShardOwner(sys.nth, k, kind, x);
    if Region(k, kind, x) {
      ShardsTile(sys.nth, k, kind, 0, x);
      ShardsTile(sys.nth, k, kind, o, x);
      assert s.threads[o] == Entry(sys, 0, o, 0);
    }
  }

  /** A thread's own account of a cell of its shard, across a step that is not a write. */
  lemma DoneStays(sys: System, s: State, step: Step, c: nat, x: Cell, kind: Kind)
    requires sys.Valid() && sys.Guarded() && ThreadsOk(sys, s) && Enabled(sys, s, step) && !step.WriteCell?
    requires kind == Cpu || kind == SecondKind(sys.calls(c))
    requires Region(sys.calls(c), kind, x) && ShardOwner(sys.nth, sys.calls(c), kind, x) == Actor(step)
    ensures Done(Move(sys, s, Actor(step), step), c, kind, x) == Done(s.threads[Actor(step)], c, kind, x)
  {
    var i := Actor(step);
    ShardsTile(sys.nth, sys.calls(c), kind, i, x);
    assert ThreadOk(sys, i, s.threads[i]);
  }

  /** Steps other than writes leave every cell's account unchanged. */
  lemma PartStays(sys: System, s: State, step: Step, c: nat, x: Cell, kind: Kind)
    requires sys.Valid() && sys.Guarded() && Inv(sys, s) && Enabled(sys, s, step) && !step.WriteCell?
    requires kind == Cpu || kind == SecondKind(sys.calls(c))
    ensures Part(sys, Apply(sys, s, step), c, kind, x) == Part(sys, s, c, kind, x)
  {
    var k, i := sys.calls(c), Actor(step);
    var o := ShardOwner(sys.nth, k, kind, x);
    if Region(k, kind, x) && o == i {
      DoneStays(sys, s, step, c, x, kind);
    }
  }

  /** Whether a write by thread i to y is the write of this kind to x in call c. */
  predicate Writes(s: State, i: nat, y: Cell, c: nat, x: Cell, kind: Kind)
    requires i < |s.threads|
  {
    c == s.threads[i].call && x == y && KindPc(kind) == s.threads[i].pc
  }

  lemma OwnWrite(sys: System, s: State, i: nat, y: Cell, c: nat, x: Cell, kind: Kind)
    requires sys.Valid() && ThreadsOk(sys, s) && Enabled(sys, s, WriteCell(i, y)) && Writes(s, i, y, c, x, kind)
    ensures Part(sys, s, c, kind, x) == []
    ensures Part(sys, Apply(sys, s, WriteCell(i, y)), c, kind, x) == [Write(i, sys.calls(c).Ref(x))]
  {
    assert ThreadOk(sys, i, s.threads[i]);
    assert x in Shard(sys.nth, sys.calls(c), kind, i);
    ShardsTile(sys.nth, sys.calls(c), kind, i, x);
  }

  lemma OtherWrite(sys: System, s: State, i: nat, y: Cell, c: nat, x: Cell, kind: Kind)
    requires sys.Valid() && ThreadsOk(sys, s) && Enabled(sys, s, WriteCell(i, y)) && !Writes(s, i, y, c, x, kind)
    ensures Part(sys, Apply(sys, s, WriteCell(i, y)), c, kind, x) == Part(sys, s, c, kind, x)
  {
    assert ThreadOk(sys, i, s.threads[i]);
  }

  /** A write adds its cell to the account of its own kind and call, and nothing else. */
  lemma PartWrites(sys: System, s: State, i: nat, y: Cell, c: nat, x: Cell, kind: Kind)
    requires sys.Valid() && Inv(sys, s) && Enabled(sys, s, WriteCell(i, y))
    ensures var s' := Apply(sys, s, WriteCell(i, y));
            if Writes(s, i, y, c, x, kind)
            then Part(sys, s, c, kind, x) == [] && Part(sys, s', c, kind, x) == [Write(i, sys.calls(c).Ref(x))]
            else Part(sys, s', c, kind, x) == Part(sys, s, c, kind, x)
  {
    if Writes(s, i, y, c, x, kind) {
      OwnWrite(sys, s, i, y, c, x, kind);
    } else {
      OtherWrite(sys, s, i, y, c, x, kind);
    }
  }

  /** CPU writes come before any epilogue or recompute write of the same call. */
  lemma NoSecondYet(sys: System, s: State, i: nat, x: Cell)
    requires sys.Valid() && ThreadsOk(sys, s) && BarriersOk(sys, s) && i < sys.nth && s.threads[i].pc == Work
    ensures Part(sys, s, s.threads[i].call, SecondKind(sys.calls(s.threads[i].call)), x) == []
  {
    var c := s.threads[i].call;
    var o := ShardOwner(sys.nth, sys.calls(c), SecondKind(sys.calls(c)), x);
    if o < sys.nth {
      assert ThreadOk(sys, i, s.threads[i]) && ThreadOk(sys, o, s.threads[o]);
      assert Departed(sys, s.threads[o]) <= s.threads[i].arrived;
      if s.threads[o].call > c { Ahead(sys, s, o, i); }
    }
  }

  /** While a thread scales, thread 0 is in the same call behind its verdict. */
  lemma ScalesTogether(sys: System, s: State, i: nat)
    requires ThreadsOk(sys, s) && BarriersOk(sys, s) && i < sys.nth && s.threads[i].pc == Scale
    ensures s.threads[0].call == s.threads[i].call && VerdictStored(s.threads[0].pc)
  {
    assert ThreadOk(sys, 0, s.threads[0]) && ThreadOk(sys, i, s.threads[i]);
    assert Departed(sys, s.threads[i]) <= s.threads[0].arrived;
    if s.threads[0].call > s.threads[i].call {
      Ahead(sys, s, 0, i);
    } else if s.threads[0].call < s.threads[i].call {
      Ahead(sys, s, i, 0);
    }
  }

  /** Whatever is written, by either engine, is the reference value. */
  lemma ValueIsRef(sys: System, s: State, i: nat, x: Cell)
    requires sys.Valid() && Inv(sys, s) && Enabled(sys, s, WriteCell(i, x))
    ensures Value(sys, s, i, x) == sys.calls(s.threads[i].call).Ref(x)
  {
    var t := s.threads[i];
    var k := sys.calls(t.call);
    assert ThreadOk(sys, i, t) && k.Valid(sys.nth);
    if t.pc == Scale {
      assert x in Shard(sys.nth, k, Epilogue, i);
      ScalesTogether(sys, s, i);
      assert s.acc(x.0, x.1) == k.refAcc(x.0, x.1);
    } else {
      assert x in Shard(sys.nth, k, if t.pc == Work then Cpu else Recompute, i);
      assert k.cpu(x.0, x.1) == k.convert(x.0, k.refAcc(x.0, x.1));
    }
  }

  lemma LogsStep(sys: System, s: State, step: Step)
    requires sys.Valid() && sys.Guarded() && Inv(sys, s) && Enabled(sys, s, step)
    ensures LogsOk(sys, Apply(sys, s, step))
  {
    var s' := Apply(sys, s, step);
    forall c: nat, x: Cell ensures s'.dst(c, x) == Log(sys, s', c, x) {
      assert s.dst(c, x) == Log(sys, s, c, x);
      if step.WriteCell? {
        LogWrite(sys, s, step.i, step.x, c, x);
      } else {
        PartStays(sys, s, step, c, x, Cpu);
        PartStays(sys, s, step, c, x, SecondKind(sys.calls(c)));
      }
    }
  }

  lemma LogWrite(sys: System, s: State, i: nat, y: Cell, c: nat, x: Cell)
    requires sys.Valid() && Inv(sys, s) && Enabled(sys, s, WriteCell(i, y))
    ensures var s' := Apply(sys, s, WriteCell(i, y));
            s'.dst(c, x) == Log(sys, s', c, x)
  {
    var k := sys.calls(c);
    PartWrites(sys, s, i, y, c, x, Cpu);
    PartWrites(sys, s, i, y, c, x, SecondKind(k));
    assert s.dst(c, x) == Log(sys, s, c, x);
    if c == s.threads[i].call && x == y {
      ValueIsRef(sys, s, i, x);
      assert ThreadOk(sys, i, s.threads[i]);
      if s.threads[i].pc == Work {
        NoSecondYet(sys, s, i, x);
      }
    }
  }

  /** A thread entering its next call has met exactly the barriers before it. */
  lemma EntryOk(sys: System, t: Thread, i: nat)
    requires sys.Valid() && t.arrived == Before(sys, t.call) + sys.Uses(t.call)
    ensures ThreadOk(sys, i, Entry(sys, t.call + 1, i, t.arrived))
    ensures Departed(sys, Entry(sys, t.call + 1, i, t.arrived)) == t.arrived
  {
  }

  /** A step leads its thread to t', which is consistent, has arrived no less, and has left a
      barrier only if everyone was there. */
  ghost predicate MovesTo(sys: System, s: State, step: Step, t': Thread)
    requires |s.threads| == sys.nth > 0 && Actor(step) < sys.nth
  {
    var t := s.threads[Actor(step)];
    && ThreadOk(sys, Actor(step), t') && t'.arrived >= t.arrived
    && (Departed(sys, t') == Departed(sys, t) || (step.Leave? && Departed(sys, t') == t.arrived))
  }

  predicate EntersNext(sys: System, s: State, step: Step)
    requires |s.threads| == sys.nth > 0 && Actor(step) < sys.nth
  {
    var t := s.threads[Actor(step)];
    (step.Arrive? && t.pc == Redo && !sys.nodeBarrier) || (step.Leave? && t.pc == Barrier2)
  }

  lemma EnterStep(sys: System, s: State, step: Step)
    requires sys.Valid() && ThreadsOk(sys, s) && Enabled(sys, s, step) && EntersNext(sys, s, step)
    ensures MovesTo(sys, s, step, Move(sys, s, Actor(step), step))
  {
    var i := Actor(step);
    assert ThreadOk(sys, i, s.threads[i]);
    EntryOk(sys, s.threads[i], i);
    assert Move(sys, s, i, step) == Entry(sys, s.threads[i].call + 1, i, s.threads[i].arrived);
  }

  lemma LoadStep(sys: System, s: State, step: Step)
    requires sys.Valid() && sys.Guarded() && ThreadsOk(sys, s) && BarriersOk(sys, s) && SharedOk(sys, s)
    requires Enabled(sys, s, step) && step.LoadVerdict?
    ensures MovesTo(sys, s, step, Move(sys, s, step.i, step))
  {
    assert ThreadOk(sys, step.i, s.threads[step.i]);
    VerdictReady(sys, s, step.i);
  }

  lemma LocalStep(sys: System, s: State, step: Step)
    requires sys.Valid() && ThreadsOk(sys, s) && Enabled(sys, s, step)
    requires !step.LoadVerdict? && !step.WriteCell? && !EntersNext(sys, s, step)
    ensures MovesTo(sys, s, step, Move(sys, s, Actor(step), step))
  {
    assert ThreadOk(sys, Actor(step), s.threads[Actor(step)]);
  }

  lemma WriteStep(sys: System, s: State, step: Step)
    requires sys.Valid() && ThreadsOk(sys, s) && Enabled(sys, s, step) && step.WriteCell?
    ensures MovesTo(sys, s, step, Move(sys, s, step.i, step))
  {
    assert ThreadOk(sys, step.i, s.threads[step.i]);
  }

  lemma ThreadStep(sys: System, s: State, step: Step)
    requires sys.Valid() && sys.Guarded() && Inv(sys, s) && Enabled(sys, s, step)
    ensures MovesTo(sys, s, step, Move(sys, s, Actor(step), step))
  {
    if EntersNext(sys, s, step) {
      EnterStep(sys, s, step);
    } else if step.LoadVerdict? {
      LoadStep(sys, s, step);
    } else if step.WriteCell? {
      WriteStep(sys, s, step);
    } else {
      LocalStep(sys, s, step);
    }
  }

  lemma BarriersStep(sys: System, s: State, step: Step)
    requires sys.Valid() && sys.Guarded() && Inv(sys, s) && Enabled(sys, s, step)
    ensures ThreadsOk(sys, Apply(sys, s, step)) && BarriersOk(sys, Apply(sys, s, step))
  {
    var i := Actor(step);
    var t' := Move(sys, s, i, step);
    ThreadStep(sys, s, step);
    assert Apply(sys, s, step).threads == s.threads[i := t'];
    BarriersKept(sys, s, step, t', s.threads[i := t']);
  }

  lemma BarriersKept(sys: System, s: State, step: Step, t': Thread, after: seq<Thread>)
    requires ThreadsOk(sys, s) && BarriersOk(sys, s) && Actor(step) < sys.nth && MovesTo(sys, s, step, t')
    requires step.Leave? ==> AllArrived(s, step.i)
    requires after == s.threads[Actor(step) := t']
    ensures forall j, k :: 0 <= j < sys.nth && 0 <= k < sys.nth ==> Departed(sys, after[j]) <= after[k].arrived
  {
  }

  lemma SharedStep(sys: System, s: State, step: Step)
    requires sys.Valid() && sys.Guarded() && ThreadsOk(sys, s) && SharedOk(sys, s) && Enabled(sys, s, step)
    ensures SharedOk(sys, Apply(sys, s, step))
  {
    assert ThreadOk(sys, 0, s.threads[0]);
  }

  lemma StepInv(sys: System, s: State, s': State)
    requires sys.Valid() && sys.Guarded() && Inv(sys, s) && Next(sys, s, s')
    ensures Inv(sys, s')
  {
    var step :| Enabled(sys, s, step) && s' == Apply(sys, s, step);
    BarriersStep(sys, s, step);
    SharedStep(sys, s, step);
    LogsStep(sys, s, step);
  }

  /** The invariant holds in every state of every execution. */
  lemma {:induction false} RunInv(sys: System, tr: seq<State>, n: nat)
    requires sys.Valid() && sys.Guarded() && Run(sys, tr) && n < |tr|
    ensures Inv(sys, tr[n])
  {
    if n == 0 {
      InitInv(sys, tr[0]);
    } else {
      RunInv(sys, tr, n - 1);
      assert Next(sys, tr[n - 1], tr[n - 1 + 1]);
      StepInv(sys, tr[n - 1], tr[n]);
    }
  }

  /** The protocol relies on nothing in g_acc while thread 0 is inside accumulate, and on nothing
      a failing accumulate leaves there: any contents may appear at any moment. */
  lemma AnyContents(sys: System, s: State, acc: Mat)
    requires |s.threads| == sys.nth > 0 && s.threads[0].pc == Work
    ensures Next(sys, s, s.(acc := acc))
    ensures !sys.calls(s.threads[0].call).npuOk ==>
              Next(sys, s, s.(acc := acc, threads := s.threads[0 := s.threads[0].(pc := Store(false))]))
  {
    assert s.threads[0 := s.threads[0]] == s.threads;
    assert Enabled(sys, s, Scribble(acc)) && Apply(sys, s, Scribble(acc)) == s.(acc := acc);
    if !sys.calls(s.threads[0].call).npuOk { assert Enabled(sys, s, Finish(acc)); }
  }

  /** While accumulate may write g_acc no thread reads it, and every epilogue reads the
      accumulator of its own call. */
  lemma AccumulatorExclusive(sys: System, tr: seq<State>, n: nat, i: nat)
    requires sys.Valid() && sys.Guarded() && Run(sys, tr) && n < |tr| && i < sys.nth
    requires tr[n].threads[i].pc == Scale
    ensures tr[n].threads[0].pc != Work
    ensures AccHolds(sys.calls(tr[n].threads[i].call), tr[n].acc)
  {
    RunInv(sys, tr, n);
    ScalesTogether(sys, tr[n], i);
    assert ThreadOk(sys, i, tr[n].threads[i]);
  }

  /** Thread 0 stores a verdict only when no thread has an earlier one left to load; after two
      failures in a row a slow thread may, and both verdicts are the same. */
  lemma VerdictNotOverwritten(sys: System, tr: seq<State>, n: nat, i: nat)
    requires sys.Valid() && sys.Guarded() && Run(sys, tr) && n < |tr| && i < sys.nth
    requires tr[n].threads[0].pc.Store?
    ensures var t, z := tr[n].threads[i], tr[n].threads[0];
            || (t.call == z.call && (t.pc in {Work, Barrier1} || i == 0))
            || (t.call + 1 == z.call && t.pc == Barrier2)
            || (t.call + 1 == z.call && t.pc in {Barrier1, Load, Redo} && !tr[n].result && !z.pc.r
                && !sys.calls(t.call).npuOk && !sys.nodeBarrier)
  {
    RunInv(sys, tr, n);
    var s := tr[n];
    assert ThreadOk(sys, 0, s.threads[0]) && ThreadOk(sys, i, s.threads[i]);
    assert Departed(sys, s.threads[i]) <= s.threads[0].arrived;
    if s.threads[0].call > s.threads[i].call {
      Ahead(sys, s, 0, i);
      assert sys.calls(s.threads[i].call).npuOk || sys.nodeBarrier || !sys.calls(s.threads[i].call + 1).npuOk;
    } else if s.threads[0].call < s.threads[i].call {
      Ahead(sys, s, i, 0);
    }
  }

  /** Every thread has left call c. */
  predicate AllLeft(s: State, c: nat) {
    forall i :: 0 <= i < |s.threads| ==> s.threads[i].call > c
  }

  /** After a successful call every output cell was written exactly once, by its owner, with
      the reference value. */
  lemma SuccessExactlyOnce(sys: System, tr: seq<State>, n: nat, c: nat, x: Cell)
    requires sys.Valid() && sys.Guarded() && Run(sys, tr) && n < |tr|
    requires sys.calls(c).npuOk && AllLeft(tr[n], c) && InTensor(sys.calls(c), x)
    ensures var k := sys.calls(c);
            var kind := if x.0 < k.tNpu then Epilogue else Cpu;
            tr[n].dst(c, x) == [Write(ShardOwner(sys.nth, k, kind, x), k.Ref(x))]
  {
    RunInv(sys, tr, n);
    var k := sys.calls(c);
    assert tr[n].dst(c, x) == Log(sys, tr[n], c, x);
    ShardsTile(sys.nth, k, if x.0 < k.tNpu then Epilogue else Cpu, 0, x);
  }

  /** No thread has entered the recompute of call c. */
  predicate NotFallenThrough(s: State, c: nat) {
    forall i :: 0 <= i < |s.threads| ==>
      s.threads[i].call <= c && (s.threads[i].call == c ==> s.threads[i].pc !in {Redo, Barrier2})
  }

  /** In a failed call no NPU row is written before the fall-through, and after it by the
      recompute only. */
  lemma FailureKeepsNpuRows(sys: System, tr: seq<State>, n: nat, c: nat, x: Cell)
    requires sys.Valid() && sys.Guarded() && Run(sys, tr) && n < |tr|
    requires !sys.calls(c).npuOk && InTensor(sys.calls(c), x) && x.0 < sys.calls(c).tNpu
    ensures NotFallenThrough(tr[n], c) ==> tr[n].dst(c, x) == []
    ensures forall w :: w in tr[n].dst(c, x) ==>
              w == Write(ShardOwner(sys.nth, sys.calls(c), Recompute, x), sys.calls(c).Ref(x))
  {
    RunInv(sys, tr, n);
    assert tr[n].dst(c, x) == Log(sys, tr[n], c, x);
    ShardsTile(sys.nth, sys.calls(c), Recompute, 0, x);
  }

  /** Once every thread has left a failed call, each cell ends with the reference value, and
      nothing else was ever written to it. */
  lemma FailureRecomputes(sys: System, tr: seq<State>, n: nat, c: nat, x: Cell)
    requires sys.Valid() && sys.Guarded() && Run(sys, tr) && n < |tr|
    requires !sys.calls(c).npuOk && InTensor(sys.calls(c), x) && AllLeft(tr[n], c)
    ensures var log := tr[n].dst(c, x);
            && |log| > 0 && log[|log| - 1] == Write(ShardOwner(sys.nth, sys.calls(c), Recompute, x), sys.calls(c).Ref(x))
            && forall w :: w in log ==> w.value == sys.calls(c).Ref(x)
  {
    RunInv(sys, tr, n);
    assert tr[n].dst(c, x) == Log(sys, tr[n], c, x);
    ShardsTile(sys.nth, sys.calls(c), Recompute, 0, x);
  }

  /** Some thread with the least progress is never blocked: no execution deadlocks. */
  lemma Progress(sys: System, s: State)
    requires sys.Valid() && sys.Guarded() && Inv(sys, s)
    ensures exists step :: Enabled(sys, s, step) && !step.Scribble?
  {
    var i := LeastArrived(s, |s.threads|);
    var t := s.threads[i];
    assert ThreadOk(sys, i, t);
    if t.pc == Load {
      assert Enabled(sys, s, LoadVerdict(i));
    } else if t.pc in {Barrier1, Barrier2} {
      assert Enabled(sys, s, Leave(i));
    } else if t.pc == Stored {
      assert Enabled(sys, s, Arrive(i));
    } else if t.pc.Store? {
      assert Enabled(sys, s, StoreVerdict);
    } else if t.pc == Work && i == 0 {
      assert Enabled(sys, s, Finish(sys.calls(t.call).refAcc));
    } else if t.todo == {} {
      assert Enabled(sys, s, Arrive(i));
    } else {
      var x :| x in t.todo;
      assert Enabled(sys, s, WriteCell(i, x));
    }
  }

  lemma LeastArrived(s: State, n: nat) returns (i: nat)
    requires 0 < n <= |s.threads|
    ensures i < n && forall j :: 0 <= j < n ==> s.threads[i].arrived <= s.threads[j].arrived
  {
    i := 0;
    for m := 1 to n
      invariant i < m && forall j :: 0 <= j < m ==> s.threads[i].arrived <= s.threads[j].arrived
    {
      if s.threads[m].arrived < s.threads[i].arrived { i := m; }
    }
  }
}
