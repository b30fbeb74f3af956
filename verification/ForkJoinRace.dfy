/**
 When the block's own barriers are enough. Without a barrier between graph nodes a failed
 call followed by a successful one always has an execution in which a slow thread takes the
 success path of the failed call; in every other system none exists.
 */
module ForkJoinRace {
  import opened ForkJoin
  import opened ForkJoinSafety

  ghost predicate Reach(sys: System, s: State) {
    exists tr :: Run(sys, tr) && tr[|tr| - 1] == s
  }

  lemma Reached(sys: System, s: State, step: Step)
    requires Reach(sys, s) && |s.threads| == sys.nth > 0 && Enabled(sys, s, step)
    ensures Reach(sys, Apply(sys, s, step))
  {
    var tr :| Run(sys, tr) && tr[|tr| - 1] == s;
    var s' := Apply(sys, s, step);
    var longer := tr + [s'];
    assert Next(sys, s, s');
    forall n | 0 <= n < |longer| - 1 ensures Next(sys, longer[n], longer[n + 1]) {
      if n < |tr| - 1 { assert Next(sys, tr[n], tr[n + 1]); }
    }
    assert Run(sys, longer) && longer[|longer| - 1] == s';
  }

  /** All threads stand at the start of call c. */
  ghost predicate AllEntered(sys: System, s: State, c: nat, a: nat) {
    |s.threads| == sys.nth > 0 && forall i :: 0 <= i < sys.nth ==> s.threads[i] == Entry(sys, c, i, a)
  }

  lemma Begin(sys: System) returns (s: State)
    requires sys.nth > 0
    ensures Reach(sys, s) && AllEntered(sys, s, 0, 0)
  {
    s := State(seq(sys.nth, i requires 0 <= i < sys.nth => Entry(sys, 0, i, 0)), (t: int, n: int) => 0, false,
               (d: nat, x: Cell) => []);
    var tr := [s];
    assert Run(sys, tr) && tr[|tr| - 1] == s;
  }

  /** A thread writes the rest of its cells. */
  lemma {:induction false} WriteOut(sys: System, s: State, i: nat) returns (s': State)
    requires Reach(sys, s) && |s.threads| == sys.nth && i < sys.nth && s.threads[i].pc in {Work, Scale, Redo}
    ensures Reach(sys, s') && s'.threads == s.threads[i := s.threads[i].(todo := {})]
    ensures s'.acc == s.acc && s'.result == s.result
    decreases |s.threads[i].todo|
  {
    if s.threads[i].todo == {} {
      s' := s;
    } else {
      var x :| x in s.threads[i].todo;
      Reached(sys, s, WriteCell(i, x));
      s' := WriteOut(sys, Apply(sys, s, WriteCell(i, x)), i);
    }
  }

  /** Thread 0 drives its call up to the stored verdict. */
  lemma ToVerdict(sys: System, s: State, c: nat, a: nat) returns (s': State)
    requires Reach(sys, s) && |s.threads| == sys.nth > 0 && s.threads[0] == Entry(sys, c, 0, a)
    ensures Reach(sys, s') && s'.threads == s.threads[0 := Thread(c, Stored, {}, a)]
    ensures s'.acc == sys.calls(c).refAcc && s'.result == sys.calls(c).npuOk
  {
    var finish := Finish(sys.calls(c).refAcc);
    Reached(sys, s, finish);
    var t := Apply(sys, s, finish);
    Reached(sys, t, StoreVerdict);
    s' := Apply(sys, t, StoreVerdict);
  }

  /** A thread does its first phase and waits at the first barrier. */
  lemma ToBarrier(sys: System, s: State, i: nat, c: nat, a: nat) returns (s': State)
    requires Reach(sys, s) && |s.threads| == sys.nth && i < sys.nth && s.threads[i] == Entry(sys, c, i, a)
    ensures Reach(sys, s') && s'.threads == s.threads[i := Thread(c, Barrier1, {}, a + 1)]
    ensures if i == 0 then s'.acc == sys.calls(c).refAcc && s'.result == sys.calls(c).npuOk
            else s'.acc == s.acc && s'.result == s.result
  {
    var t: State;
    if i == 0 {
      t := ToVerdict(sys, s, c, a);
    } else {
      t := WriteOut(sys, s, i);
    }
    Reached(sys, t, Arrive(i));
    s' := Apply(sys, t, Arrive(i));
  }

  ghost predicate AllWaiting(sys: System, s: State, c: nat, a: nat) {
    && |s.threads| == sys.nth > 0
    && (forall i :: 0 <= i < sys.nth ==> s.threads[i] == Thread(c, Barrier1, {}, a))
    && s.acc == sys.calls(c).refAcc && s.result == sys.calls(c).npuOk
  }

  lemma AllToBarrier(sys: System, s0: State, c: nat, a: nat) returns (s: State)
    requires Reach(sys, s0) && AllEntered(sys, s0, c, a)
    ensures Reach(sys, s) && AllWaiting(sys, s, c, a + 1)
  {
    s := ToBarrier(sys, s0, 0, c, a);
    ghost var b := a + 1;
    for n := 1 to sys.nth
      invariant Reach(sys, s) && |s.threads| == sys.nth
      invariant s.acc == sys.calls(c).refAcc && s.result == sys.calls(c).npuOk
      invariant forall i :: 0 <= i < n ==> s.threads[i] == Thread(c, Barrier1, {}, b)
      invariant forall i :: n <= i < sys.nth ==> s.threads[i] == Entry(sys, c, i, a)
    {
      s := ToBarrier(sys, s, n, c, a);
    }
  }

  /** Where a thread stands after acting on the verdict of call c. */
  function Acted(sys: System, c: nat, i: nat, a: nat): Thread
    requires sys.nth > 0
  {
    if sys.Uses(c) == 2 then Thread(c, Barrier2, {}, a + 1) else Entry(sys, c + 1, i, a)
  }

  /** A thread leaves the first barrier, acts on the verdict and writes its shard. */
  lemma Act(sys: System, s: State, i: nat, c: nat, a: nat) returns (s': State)
    requires Reach(sys, s) && |s.threads| == sys.nth && i < sys.nth
    requires s.threads[i] == Thread(c, Barrier1, {}, a) && AllArrived(s, i) && s.result == sys.calls(c).npuOk
    ensures Reach(sys, s') && s'.threads == s.threads[i := Acted(sys, c, i, a)]
    ensures s'.acc == s.acc && s'.result == s.result
  {
    var t := LoadOwn(sys, s, i, c, a);
    var u := WriteOut(sys, t, i);
    Reached(sys, u, Arrive(i));
    s' := Apply(sys, u, Arrive(i));
  }

  /** A thread leaves the first barrier and loads the verdict. */
  lemma LoadOwn(sys: System, s: State, i: nat, c: nat, a: nat) returns (s': State)
    requires Reach(sys, s) && |s.threads| == sys.nth && i < sys.nth
    requires s.threads[i] == Thread(c, Barrier1, {}, a) && AllArrived(s, i)
    ensures Reach(sys, s') && |s'.threads| == sys.nth && s'.acc == s.acc && s'.result == s.result
    ensures s'.threads == s.threads[i := if s.result then Thread(c, Scale, Shard(sys.nth, sys.calls(c), Epilogue, i), a)
                                         else Thread(c, Redo, Shard(sys.nth, sys.calls(c), Recompute, i), a)]
  {
    Reached(sys, s, Leave(i));
    var t := Apply(sys, s, Leave(i));
    Reached(sys, t, LoadVerdict(i));
    s' := Apply(sys, t, LoadVerdict(i));
  }

  lemma AllAct(sys: System, s0: State, c: nat, a: nat) returns (s: State)
    requires Reach(sys, s0) && AllWaiting(sys, s0, c, a)
    ensures Reach(sys, s) && |s.threads| == sys.nth
    ensures forall i :: 0 <= i < sys.nth ==> s.threads[i] == Acted(sys, c, i, a)
  {
    s := s0;
    for n := 0 to sys.nth
      invariant Reach(sys, s) && |s.threads| == sys.nth && s.result == sys.calls(c).npuOk
      invariant forall i :: 0 <= i < n ==> s.threads[i] == Acted(sys, c, i, a)
      invariant forall i :: n <= i < sys.nth ==> s.threads[i] == Thread(c, Barrier1, {}, a)
    {
      s := Act(sys, s, n, c, a);
    }
  }

  lemma AllLeave(sys: System, s0: State, c: nat, a: nat) returns (s: State)
    requires Reach(sys, s0) && |s0.threads| == sys.nth > 0
    requires forall i :: 0 <= i < sys.nth ==> s0.threads[i] == Thread(c, Barrier2, {}, a)
    ensures Reach(sys, s) && AllEntered(sys, s, c + 1, a)
  {
    s := s0;
    ghost var next := c + 1;
    for n := 0 to sys.nth
      invariant Reach(sys, s) && |s.threads| == sys.nth
      invariant forall i :: 0 <= i < n ==> s.threads[i] == Entry(sys, next, i, a)
      invariant forall i :: n <= i < sys.nth ==> s.threads[i] == Thread(c, Barrier2, {}, a)
    {
      Reached(sys, s, Leave(n));
      s := Apply(sys, s, Leave(n));
    }
  }

  /** All threads go through call c in step, whatever its outcome. */
  lemma CallThrough(sys: System, s: State, c: nat, a: nat) returns (s': State, a': nat)
    requires Reach(sys, s) && AllEntered(sys, s, c, a)
    ensures Reach(sys, s') && AllEntered(sys, s', c + 1, a')
  {
    var t := AllToBarrier(sys, s, c, a);
    var u := AllAct(sys, t, c, a + 1);
    if sys.Uses(c) == 2 {
      a' := a + 2;
      s' := AllLeave(sys, u, c, a');
    } else {
      s', a' := u, a + 1;
    }
  }

  /** Every call can be reached in step, with and without a barrier between graph nodes. */
  lemma {:induction false} ReachCall(sys: System, c: nat) returns (s: State, a: nat)
    requires sys.nth > 0
    ensures Reach(sys, s) && AllEntered(sys, s, c, a)
  {
    if c == 0 {
      s := Begin(sys);
      a := 0;
    } else {
      s, a := ReachCall(sys, c - 1);
      s, a := CallThrough(sys, s, c - 1, a);
    }
  }

  /** Thread 1 stands in the failed call c, scaling, while g_acc belongs to the next call. */
  ghost predicate Overtaken(sys: System, s: State, c: nat) {
    && |s.threads| == sys.nth >= 2
    && s.threads[1].call == c && s.threads[1].pc == Scale
    && s.threads[1].todo == Shard(sys.nth, sys.calls(c), Epilogue, 1)
    && s.acc == sys.calls(c + 1).refAcc
  }

  /** Thread 0 recomputes, runs through the next call's accumulate and replaces the verdict
      before thread 1 has loaded it. */
  lemma Overtake(sys: System, c: nat) returns (s: State)
    requires sys.nth >= 2 && !sys.nodeBarrier && !sys.calls(c).npuOk && sys.calls(c + 1).npuOk
    ensures Reach(sys, s) && Overtaken(sys, s, c)
  {
    var a: nat;
    s, a := ReachCall(sys, c);
    s := AllToBarrier(sys, s, c, a);
    Reached(sys, s, Leave(1));
    s := Apply(sys, s, Leave(1));
    s := Act(sys, s, 0, c, a + 1);
    s := ToVerdict(sys, s, c + 1, a + 1);
    Reached(sys, s, LoadVerdict(1));
    s := Apply(sys, s, LoadVerdict(1));
  }

  /** What the slow thread then writes: the failed call's scales over the next call's sums. */
  lemma WritesWrong(sys: System, c: nat, x: Cell) returns (s: State)
    requires sys.nth >= 2 && !sys.nodeBarrier && !sys.calls(c).npuOk && sys.calls(c + 1).npuOk
    requires x in Shard(sys.nth, sys.calls(c), Epilogue, 1)
    ensures Reach(sys, s) && |s.dst(c, x)| > 0
    ensures s.dst(c, x)[|s.dst(c, x)| - 1] == Write(1, sys.calls(c).convert(x.0, sys.calls(c + 1).refAcc(x.0, x.1)))
  {
    var t := Overtake(sys, c);
    Reached(sys, t, WriteCell(1, x));
    s := Apply(sys, t, WriteCell(1, x));
  }

  /** Nobody takes the success path of a failed call. */
  ghost predicate NeverScalesFailed(sys: System) {
    forall s, i :: Reach(sys, s) && 0 <= i < |s.threads| && s.threads[i].pc == Scale ==>
      sys.calls(s.threads[i].call).npuOk
  }

  /** The barriers protect every verdict exactly when graph nodes are separated, there is one
      thread, or no failed call is followed by a successful one. */
  lemma GuardIsExact(sys: System)
    requires sys.Valid()
    ensures sys.Guarded() <==> NeverScalesFailed(sys)
  {
    if sys.Guarded() {
      forall s, i | Reach(sys, s) && 0 <= i < |s.threads| && s.threads[i].pc == Scale
        ensures sys.calls(s.threads[i].call).npuOk
      {
        var tr :| Run(sys, tr) && tr[|tr| - 1] == s;
        RunInv(sys, tr, |tr| - 1);
        assert ThreadOk(sys, i, s.threads[i]);
      }
    } else {
      var c: nat :| !sys.calls(c).npuOk && sys.calls(c + 1).npuOk;
      var s := Overtake(sys, c);
      assert s.threads[1].pc == Scale;
    }
  }
}
