/**
 Every call ends: each step other than a write into the accumulator brings its thread one
 step further, and a call holds only so many of them.
 */
module ForkJoinTermination {
  import opened ForkJoin
  import opened ForkJoinSafety

  /** The sum of f over the calls before c. */
  function SumTo(f: nat -> nat, c: nat): nat {
    if c == 0 then 0 else SumTo(f, c - 1) + f(c - 1)
  }

  lemma {:induction false} SumOrdered(f: nat -> nat, c: nat, d: nat)
    requires c <= d
    ensures SumTo(f, c) <= SumTo(f, d)
  {
    if c < d { SumOrdered(f, c, d - 1); }
  }

  /** The sizes of a thread's two phases in each call, and the barriers it meets there. */
  datatype Sizes = Sizes(first: (nat, nat) -> nat, later: (nat, nat) -> nat, uses: nat -> nat) {
    /** All steps of thread i in one call: the two phases, arriving, leaving and loading,
        arriving again, and leaving the second barrier where there is one. */
    function CallSteps(c: nat, i: nat): nat {
      first(c, i) + 3 + later(c, i) + uses(c)
    }

    function PerCall(i: nat): nat -> nat {
      (c: nat) => CallSteps(c, i)
    }

    /** Steps a thread has done: those of its earlier calls and, from its place in this call and
        the number of cells it has left to write, those of this one. */
    function Done(i: nat, t: Thread): int {
      SumTo(PerCall(i), t.call) + DoneInCall(t.pc, i, first(t.call, i), later(t.call, i), |t.todo|)
    }
  }

  function DoneInCall(pc: Pc, i: nat, first: nat, later: nat, left: nat): int {
    match pc
    case Work => if i == 0 then 0 else first - left
    case Store(_) => 1
    case Stored => 2
    case Barrier1 => first + 1
    case Load => first + 2
    case Scale => first + 3 + later - left
    case Redo => first + 3 + later - left
    case Barrier2 => first + 4 + later
  }

  /** Thread 0 finishes and stores the verdict; the others write their CPU shard. Afterwards
      everybody writes the shard of the verdict. */
  function SizesOf(sys: System): Sizes
    requires sys.nth > 0
  {
    Sizes((c: nat, i: nat) => if i == 0 then 2 else |Shard(sys.nth, sys.calls(c), Cpu, i)|,
          (c: nat, i: nat) => |Shard(sys.nth, sys.calls(c), SecondKind(sys.calls(c)), i)|,
          (c: nat) => sys.Uses(c))
  }

  lemma EntersAtZero(sys: System, c: nat, i: nat, a: nat)
    requires sys.nth > 0
    ensures SizesOf(sys).Done(i, Entry(sys, c, i, a)) == SumTo(SizesOf(sys).PerCall(i), c)
  {
  }

  /** A thread about to enter its next call has done all its steps of this one but the last. */
  lemma LastStep(z: Sizes, i: nat, t: Thread)
    requires (t.pc == Redo && t.todo == {} && z.uses(t.call) == 1) || (t.pc == Barrier2 && z.uses(t.call) == 2)
    ensures z.Done(i, t) + 1 == SumTo(z.PerCall(i), t.call + 1)
  {
  }

  lemma EnterFacts(sys: System, s: State, step: Step)
    requires sys.Valid() && ThreadsOk(sys, s) && Enabled(sys, s, step) && EntersNext(sys, s, step)
    ensures var t := s.threads[Actor(step)];
            && ((t.pc == Redo && t.todo == {} && sys.Uses(t.call) == 1) || (t.pc == Barrier2 && sys.Uses(t.call) == 2))
            && Move(sys, s, Actor(step), step) == Entry(sys, t.call + 1, Actor(step), t.arrived)
  {
    assert ThreadOk(sys, Actor(step), s.threads[Actor(step)]);
  }

  /** The step of the actor, seen by its weight. */
  ghost predicate Gains(sys: System, s: State, step: Step, gain: int)
    requires |s.threads| == sys.nth > 0 && Ready(sys, s, step) && Actor(step) < sys.nth
  {
    Gained(sys, Actor(step), s.threads[Actor(step)], Move(sys, s, Actor(step), step), gain)
  }

  ghost predicate Gained(sys: System, i: nat, t: Thread, t': Thread, gain: int)
    requires sys.nth > 0
  {
    SizesOf(sys).Done(i, t') == SizesOf(sys).Done(i, t) + gain
  }

  lemma EnterDone(sys: System, i: nat, t: Thread)
    requires sys.nth > 0
    requires (t.pc == Redo && t.todo == {} && sys.Uses(t.call) == 1) || (t.pc == Barrier2 && sys.Uses(t.call) == 2)
    ensures Gained(sys, i, t, Entry(sys, t.call + 1, i, t.arrived), 1)
  {
    assert SizesOf(sys).uses(t.call) == sys.Uses(t.call);
    LastStep(SizesOf(sys), i, t);
    EntersAtZero(sys, t.call + 1, i, t.arrived);
  }

  /** A step inside the call raises the number of steps done in it by one. */
  lemma InCall(z: Sizes, i: nat, t: Thread, t': Thread)
    requires t'.call == t.call
    requires DoneInCall(t'.pc, i, z.first(t.call, i), z.later(t.call, i), |t'.todo|)
          == DoneInCall(t.pc, i, z.first(t.call, i), z.later(t.call, i), |t.todo|) + 1
    ensures z.Done(i, t') == z.Done(i, t) + 1
  {
  }

  lemma LoadGains(sys: System, s: State, i: nat)
    requires sys.Valid() && sys.Guarded() && Inv(sys, s) && Enabled(sys, s, LoadVerdict(i))
    ensures Gains(sys, s, LoadVerdict(i), 1)
  {
    var t := s.threads[i];
    VerdictReady(sys, s, i);
    var t' := Move(sys, s, i, LoadVerdict(i));
    assert t'.todo == Shard(sys.nth, sys.calls(t.call), SecondKind(sys.calls(t.call)), i);
    assert SizesOf(sys).later(t.call, i) == |t'.todo|;
    InCall(SizesOf(sys), i, t, t');
  }

  lemma WriteGains(sys: System, s: State, i: nat, x: Cell)
    requires sys.Valid() && ThreadsOk(sys, s) && Enabled(sys, s, WriteCell(i, x))
    ensures Gains(sys, s, WriteCell(i, x), 1)
  {
    var t := s.threads[i];
    assert ThreadOk(sys, i, t);
    assert t.pc == Work ==> i > 0;
    var t' := Move(sys, s, i, WriteCell(i, x));
    assert t' == t.(todo := t.todo - {x});
    OneLess(t.todo, x);
    InCall(SizesOf(sys), i, t, t');
  }

  lemma OneLess(todo: set<Cell>, x: Cell)
    requires x in todo
    ensures |todo - {x}| == |todo| - 1
  {
  }

  /** The places in a call that follow each other. */
  predicate Advances(i: nat, t: Thread, pc: Pc) {
    || (i == 0 && t.pc == Work && pc.Store?)
    || (i == 0 && t.pc.Store? && pc == Stored)
    || (i == 0 && t.pc == Stored && pc == Barrier1)
    || (i > 0 && t.pc == Work && t.todo == {} && pc == Barrier1)
    || (t.pc == Barrier1 && pc == Load)
    || (t.pc in {Scale, Redo} && t.todo == {} && pc == Barrier2)
  }

  /** Where the other steps lead a thread. */
  lemma LocalFacts(sys: System, s: State, step: Step)
    requires sys.Valid() && ThreadsOk(sys, s) && Enabled(sys, s, step) && !EntersNext(sys, s, step)
    requires step.Finish? || step.StoreVerdict? || step.Arrive? || step.Leave?
    ensures var i := Actor(step);
            var t, t' := s.threads[i], Move(sys, s, i, step);
            t'.call == t.call && t'.todo == t.todo && Advances(i, t, t'.pc)
  {
    assert ThreadOk(sys, Actor(step), s.threads[Actor(step)]);
  }

  lemma LocalGains(sys: System, s: State, step: Step)
    requires sys.Valid() && ThreadsOk(sys, s) && Enabled(sys, s, step) && !EntersNext(sys, s, step)
    requires step.Finish? || step.StoreVerdict? || step.Arrive? || step.Leave?
    ensures Gains(sys, s, step, 1)
  {
    var i := Actor(step);
    LocalFacts(sys, s, step);
    assert i == 0 ==> SizesOf(sys).first(s.threads[i].call, i) == 2;
    InCall(SizesOf(sys), i, s.threads[i], Move(sys, s, i, step));
  }

  /** Every step except a write into the accumulator is one more step of its thread. */
  lemma StepGains(sys: System, s: State, step: Step)
    requires sys.Valid() && sys.Guarded() && Inv(sys, s) && Enabled(sys, s, step)
    ensures Gains(sys, s, step, if step.Scribble? then 0 else 1)
  {
    if step.Scribble? {
    } else if EntersNext(sys, s, step) {
      EnterFacts(sys, s, step);
      EnterDone(sys, Actor(step), s.threads[Actor(step)]);
    } else if step.LoadVerdict? {
      LoadGains(sys, s, step.i);
    } else if step.WriteCell? {
      WriteGains(sys, s, step.i, step.x);
    } else {
      LocalGains(sys, s, step);
    }
  }

  /** Steps done by the first n threads together. */
  function WeightOf(z: Sizes, threads: seq<Thread>, n: nat): int
    requires n <= |threads|
  {
    if n == 0 then 0 else WeightOf(z, threads, n - 1) + z.Done(n - 1, threads[n - 1])
  }

  lemma {:induction false} WeightOfMove(z: Sizes, threads: seq<Thread>, i: nat, t: Thread, n: nat)
    requires i < |threads| && n <= |threads|
    ensures WeightOf(z, threads[i := t], n) == WeightOf(z, threads, n)
            + if i < n then z.Done(i, t) - z.Done(i, threads[i]) else 0
  {
    if n > 0 { WeightOfMove(z, threads, i, t, n - 1); }
  }

  function Weight(sys: System, s: State): int
    requires |s.threads| == sys.nth > 0
  {
    WeightOf(SizesOf(sys), s.threads, sys.nth)
  }

  lemma WeightStep(sys: System, s: State, step: Step)
    requires sys.Valid() && sys.Guarded() && Inv(sys, s) && Enabled(sys, s, step)
    ensures Weight(sys, Apply(sys, s, step)) == Weight(sys, s) + if step.Scribble? then 0 else 1
  {
    var i := Actor(step);
    StepGains(sys, s, step);
    assert Apply(sys, s, step).threads == s.threads[i := Move(sys, s, i, step)];
    WeightOfMove(SizesOf(sys), s.threads, i, Move(sys, s, i, step), sys.nth);
  }

  /** A run together with the steps it takes. */
  ghost predicate Execution(sys: System, tr: seq<State>, steps: seq<Step>) {
    && Run(sys, tr) && |tr| == |steps| + 1
    && forall n :: 0 <= n < |steps| ==> Enabled(sys, tr[n], steps[n]) && tr[n + 1] == Apply(sys, tr[n], steps[n])
  }

  /** How many of the steps are not writes into the accumulator. */
  function Reals(steps: seq<Step>, n: nat): nat
    requires n <= |steps|
  {
    if n == 0 then 0 else Reals(steps, n - 1) + if steps[n - 1].Scribble? then 0 else 1
  }

  lemma {:induction false} ZeroWeight(z: Sizes, threads: seq<Thread>, n: nat)
    requires n <= |threads| && forall i :: 0 <= i < n ==> z.Done(i, threads[i]) == 0
    ensures WeightOf(z, threads, n) == 0
  {
    if n > 0 { ZeroWeight(z, threads, n - 1); }
  }

  lemma InitWeight(sys: System, s: State)
    requires sys.nth > 0 && Init(sys, s)
    ensures Weight(sys, s) == 0
  {
    forall i | 0 <= i < sys.nth ensures SizesOf(sys).Done(i, s.threads[i]) == 0 {
      EntersAtZero(sys, 0, i, 0);
    }
    ZeroWeight(SizesOf(sys), s.threads, sys.nth);
  }

  lemma {:induction false} ExecutionWeight(sys: System, tr: seq<State>, steps: seq<Step>, n: nat)
    requires sys.Valid() && sys.Guarded() && Execution(sys, tr, steps) && n < |tr|
    ensures Weight(sys, tr[n]) == Reals(steps, n)
  {
    if n == 0 {
      InitWeight(sys, tr[0]);
    } else {
      ExecutionWeight(sys, tr, steps, n - 1);
      RunInv(sys, tr, n - 1);
      WeightStep(sys, tr[n - 1], steps[n - 1]);
      assert tr[n - 1 + 1] == Apply(sys, tr[n - 1], steps[n - 1]);
    }
  }

  /** The steps the first n threads can take in the calls up to c and the one after it. */
  function BoundOf(z: Sizes, c: nat, n: nat): nat {
    if n == 0 then 0 else BoundOf(z, c, n - 1) + SumTo(z.PerCall(n - 1), c + 2)
  }

  function Bound(sys: System, c: nat): nat
    requires sys.nth > 0
  {
    BoundOf(SizesOf(sys), c, sys.nth)
  }

  lemma {:induction false} WeightBounded(z: Sizes, threads: seq<Thread>, c: nat, n: nat)
    requires n <= |threads|
    requires forall i :: 0 <= i < n ==> z.Done(i, threads[i]) <= SumTo(z.PerCall(i), c + 2)
    ensures WeightOf(z, threads, n) <= BoundOf(z, c, n)
  {
    if n > 0 { WeightBounded(z, threads, c, n - 1); }
  }

  lemma ThreadBounded(z: Sizes, i: nat, t: Thread, c: nat)
    requires t.call <= c + 1 && 1 <= z.uses(t.call) && (i == 0 ==> z.first(t.call, i) == 2)
    requires t.pc.Store? || t.pc == Stored ==> i == 0
    ensures z.Done(i, t) <= SumTo(z.PerCall(i), c + 2)
  {
    SumOrdered(z.PerCall(i), t.call + 1, c + 2);
  }

  /** While thread j is still in call c, nobody is past the call after it. */
  lemma AtMostNext(sys: System, s: State, c: nat, i: nat, j: nat)
    requires sys.Valid() && Inv(sys, s) && i < sys.nth && j < sys.nth && s.threads[j].call <= c
    ensures SizesOf(sys).Done(i, s.threads[i]) <= SumTo(SizesOf(sys).PerCall(i), c + 2)
  {
    if s.threads[i].call > s.threads[j].call { Ahead(sys, s, i, j); }
    ThreadWithin(sys, i, s.threads[i], c);
  }

  lemma ThreadWithin(sys: System, i: nat, t: Thread, c: nat)
    requires sys.Valid() && ThreadOk(sys, i, t) && i < sys.nth && t.call <= c + 1
    ensures SizesOf(sys).Done(i, t) <= SumTo(SizesOf(sys).PerCall(i), c + 2)
  {
    ThreadBounded(SizesOf(sys), i, t, c);
  }

  lemma StillIn(sys: System, s: State, c: nat)
    requires sys.Valid() && Inv(sys, s) && !AllLeft(s, c)
    ensures Weight(sys, s) <= Bound(sys, c)
  {
    var j :| 0 <= j < sys.nth && s.threads[j].call <= c;
    forall i | 0 <= i < sys.nth
      ensures SizesOf(sys).Done(i, s.threads[i]) <= SumTo(SizesOf(sys).PerCall(i), c + 2)
    {
      AtMostNext(sys, s, c, i, j);
    }
    WeightBounded(SizesOf(sys), s.threads, c, sys.nth);
  }

  /** In every execution, with and without a barrier between graph nodes, all threads have left
      call c after a bounded number of steps that are not writes into the accumulator. */
  lemma EveryCallEnds(sys: System, tr: seq<State>, steps: seq<Step>, n: nat, c: nat)
    requires sys.Valid() && sys.Guarded() && Execution(sys, tr, steps) && n < |tr|
    ensures Reals(steps, n) > Bound(sys, c) ==> AllLeft(tr[n], c)
  {
    RunInv(sys, tr, n);
    ExecutionWeight(sys, tr, steps, n);
    if !AllLeft(tr[n], c) { StillIn(sys, tr[n], c); }
  }

  /** Such a step is always possible. */
  lemma OneMore(sys: System, tr: seq<State>, steps: seq<Step>) returns (longer: seq<State>, more: seq<Step>)
    requires sys.Valid() && sys.Guarded() && Execution(sys, tr, steps)
    ensures Execution(sys, longer, more) && tr <= longer && Reals(more, |more|) == Reals(steps, |steps|) + 1
  {
    RunInv(sys, tr, |steps|);
    Progress(sys, tr[|steps|]);
    var step :| Enabled(sys, tr[|steps|], step) && !step.Scribble?;
    longer, more := tr + [Apply(sys, tr[|steps|], step)], steps + [step];
    Extends(sys, tr, steps, step);
    RealsPrefix(steps, step, |steps|);
  }

  /** So every execution can be continued until all threads have left call c, and however it is
      continued with such steps it gets there. */
  lemma CallCompletes(sys: System, tr: seq<State>, steps: seq<Step>, c: nat) returns (tr': seq<State>, steps': seq<Step>)
    requires sys.Valid() && sys.Guarded() && Execution(sys, tr, steps)
    ensures Execution(sys, tr', steps') && tr <= tr' && |tr'| == |steps'| + 1 && AllLeft(tr'[|steps'|], c)
  {
    tr', steps' := GoOn(sys, tr, steps, Bound(sys, c) + 1);
    EveryCallEnds(sys, tr', steps', |steps'|, c);
  }

  /** Every execution can be continued by n such steps. */
  lemma {:induction false} GoOn(sys: System, tr: seq<State>, steps: seq<Step>, n: nat) returns (tr': seq<State>, steps': seq<Step>)
    requires sys.Valid() && sys.Guarded() && Execution(sys, tr, steps)
    ensures Execution(sys, tr', steps') && tr <= tr' && Reals(steps', |steps'|) >= n
  {
    if n == 0 {
      tr', steps' := tr, steps;
    } else {
      var longer, more := GoOn(sys, tr, steps, n - 1);
      tr', steps' := OneMore(sys, longer, more);
    }
  }

  lemma Extends(sys: System, tr: seq<State>, steps: seq<Step>, step: Step)
    requires Execution(sys, tr, steps) && Enabled(sys, tr[|steps|], step)
    ensures Execution(sys, tr + [Apply(sys, tr[|steps|], step)], steps + [step])
  {
    var longer, more := tr + [Apply(sys, tr[|steps|], step)], steps + [step];
    assert Next(sys, tr[|steps|], longer[|tr|]);
    forall n | 0 <= n < |longer| - 1 ensures Next(sys, longer[n], longer[n + 1]) {
      if n < |tr| - 1 { assert Next(sys, tr[n], tr[n + 1]); }
    }
  }

  lemma {:induction false} RealsPrefix(steps: seq<Step>, step: Step, n: nat)
    requires n <= |steps|
    ensures Reals(steps + [step], n) == Reals(steps, n)
  {
    if n > 0 { RealsPrefix(steps, step, n - 1); }
  }
}
