/**
 The array as a network of bounded FIFOs: A broadcast along core rows, B along columns, C
 joined over the four rows of a column, with the host issuing half blocks and waiting for
 their drains. Any interleaving of host, producers, cores and drains.
 */
module GridNetwork {
  import opened Matrix
  import opened ArraySchedule
  import opened ArrayStreams

  /** The streams of one configuration and the FIFO depths. `half` counts the C blocks a
      column drains per half block. */
  datatype Grid = Grid(cols: nat, shims: nat, per: nat, half: nat, halves: nat, kTiles: nat,
                       a: int -> seq<ATile>, b: int -> seq<BTile>, c: int -> seq<CBlock>, depth: nat, cDepth: nat)
  {
    function Total(): nat { halves * half }

    ghost predicate Valid() {
      && 0 < cols && 0 < per && shims * per == ROWS && 0 < half && 0 < kTiles && 0 < depth && 0 < cDepth
      && (forall R :: 0 <= R < ROWS ==> |a(R)| == Total() * kTiles)
      && (forall col :: 0 <= col < cols ==> |b(col)| == Total() * kTiles && |c(col)| == Total())
      && forall col, p, col', p' :: (0 <= col < cols && 0 <= col' < cols && 0 <= p < Total() && 0 <= p' < Total()
                                     && c(col)[p] == c(col')[p']) ==> col == col' && p == p'
    }

    /** The pairs core (R, col) must multiply for its p-th output tile. */
    function Wanted(R: int, col: int, p: int, n: nat): seq<Pair>
    {
      seq(n, kt => PairAt(R, col, Idx(kTiles, p, kt)))
    }

    function PairAt(R: int, col: int, w: int): Pair {
      if 0 <= w < |a(R)| && w < |b(col)| then Pair(a(R)[w], b(col)[w]) else Pair(ATile(0, 0), BTile(0, 0))
    }

    /** Where row R's part of the p-th block drained from col lands. */
    function Target(R: int, col: int, p: int): CTile {
      if 0 <= p < |c(col)| then CTile(c(col)[p].rowBlock * ROWS + R, c(col)[p].col) else CTile(-1, -1)
    }
  }

  /** A core: the open accumulator tile, and every output tile it has released. */
  datatype Core = Core(open: bool, acc: seq<Pair>, out: seq<seq<Pair>>) {
    /** Input pairs consumed so far. */
    function Work(kTiles: nat): nat { |out| * kTiles + |acc| }
  }

  /** issued: half blocks given to the DMAs; pushed: items put into the A FIFOs of a shim and
      the B FIFO of a column; drained: blocks taken from a column; mem: writes to C tiles. */
  datatype Net = Net(issued: nat, aPushed: int -> nat, bPushed: int -> nat, core: (int, int) -> Core,
                     drained: int -> nat, mem: CTile -> seq<seq<Pair>>)

  datatype Step =
    | Issue
    | PushA(shim: int)
    | PushB(col: int)
    | Acquire(R: int, col: int)
    | Mac(R: int, col: int)
    | Release(R: int, col: int)
    | Drain(col: int)

  ghost predicate Init(g: Grid, s: Net) {
    && s.issued == 0
    && (forall x :: s.aPushed(x) == 0 && s.bPushed(x) == 0 && s.drained(x) == 0)
    && (forall R, col :: s.core(R, col) == Core(false, [], []))
    && forall t :: s.mem(t) == []
  }

  predicate InArray(g: Grid, R: int, col: int) {
    0 <= R < ROWS && 0 <= col < g.cols
  }

  /** The host blocks on the drains of everything issued, except between ping and pong of the
      first transfer block. */
  ghost predicate HostReady(g: Grid, s: Net) {
    s.issued <= 1 || forall col :: 0 <= col < g.cols ==> s.drained(col) == s.issued * g.half
  }

  ghost predicate Enabled(g: Grid, s: Net, step: Step)
    requires g.Valid()
  {
    match step
    case Issue => s.issued < g.halves && HostReady(g, s)
    case PushA(shim) =>
      && 0 <= shim < g.shims && s.aPushed(shim) < s.issued * g.half * g.kTiles
      && forall R, col :: InArray(g, R, col) && R / g.per == shim ==>
                            s.aPushed(shim) - s.core(R, col).Work(g.kTiles) < g.depth
    case PushB(col) =>
      && 0 <= col < g.cols && s.bPushed(col) < s.issued * g.half * g.kTiles
      && forall R :: 0 <= R < ROWS ==> s.bPushed(col) - s.core(R, col).Work(g.kTiles) < g.depth
    case Acquire(R, col) =>
      && InArray(g, R, col) && !s.core(R, col).open && |s.core(R, col).out| < g.Total()
      && |s.core(R, col).out| - s.drained(col) < g.cDepth
    case Mac(R, col) =>
      && InArray(g, R, col) && s.core(R, col).open && |s.core(R, col).acc| < g.kTiles
      && s.core(R, col).Work(g.kTiles) < s.aPushed(R / g.per) && s.core(R, col).Work(g.kTiles) < s.bPushed(col)
    case Release(R, col) =>
      InArray(g, R, col) && s.core(R, col).open && |s.core(R, col).acc| == g.kTiles
    case Drain(col) =>
      && 0 <= col < g.cols && s.drained(col) < s.issued * g.half
      && forall R :: 0 <= R < ROWS ==> |s.core(R, col).out| > s.drained(col)
  }

  function SetNat(f: int -> nat, x: int, v: nat): int -> nat {
    (y: int) => if y == x then v else f(y)
  }

  function SetCore(f: (int, int) -> Core, R: int, col: int, v: Core): (int, int) -> Core {
    (x: int, y: int) => if x == R && y == col then v else f(x, y)
  }

  /** The joined block of four tiles goes to its four places in C. */
  function DrainInto(g: Grid, s: Net, col: int): CTile -> seq<seq<Pair>> {
    (t: CTile) =>
      var p, R := s.drained(col), t.row % ROWS;
      if t == g.Target(R, col, p) && p < |s.core(R, col).out| then s.mem(t) + [s.core(R, col).out[p]] else s.mem(t)
  }

  ghost function Apply(g: Grid, s: Net, step: Step): Net
    requires g.Valid() && Enabled(g, s, step)
  {
    match step
    case Issue => s.(issued := s.issued + 1)
    case PushA(shim) => s.(aPushed := SetNat(s.aPushed, shim, s.aPushed(shim) + 1))
    case PushB(col) => s.(bPushed := SetNat(s.bPushed, col, s.bPushed(col) + 1))
    case Acquire(R, col) => s.(core := SetCore(s.core, R, col, s.core(R, col).(open := true, acc := [])))
    case Mac(R, col) =>
      var k := s.core(R, col);
      s.(core := SetCore(s.core, R, col, k.(acc := k.acc + [g.PairAt(R, col, k.Work(g.kTiles))])))
    case Release(R, col) =>
      var k := s.core(R, col);
      s.(core := SetCore(s.core, R, col, Core(false, [], k.out + [k.acc])))
    case Drain(col) => s.(drained := SetNat(s.drained, col, s.drained(col) + 1), mem := DrainInto(g, s, col))
  }

  ghost predicate CoreOk(g: Grid, s: Net, R: int, col: int)
    requires g.Valid()
  {
    var k := s.core(R, col);
    && (!k.open ==> k.acc == []) && |k.acc| <= g.kTiles && |k.out| + (if k.open then 1 else 0) <= g.Total()
    && k.acc == g.Wanted(R, col, |k.out|, |k.acc|)
    && (forall p :: 0 <= p < |k.out| ==> k.out[p] == g.Wanted(R, col, p, g.kTiles))
    && k.Work(g.kTiles) <= s.aPushed(R / g.per) && k.Work(g.kTiles) <= s.bPushed(col)
    && s.drained(col) <= |k.out|
  }

  ghost predicate CountsOk(g: Grid, s: Net) {
    && s.issued <= g.halves
    && (forall shim :: 0 <= shim < g.shims ==> s.aPushed(shim) <= s.issued * g.half * g.kTiles)
    && (forall col :: 0 <= col < g.cols ==> s.bPushed(col) <= s.issued * g.half * g.kTiles
                                            && s.drained(col) <= s.issued * g.half)
  }

  /** Each C tile has been written once if its block is drained, and not at all before. */
  ghost predicate MemOk(g: Grid, s: Net) {
    forall R, col, p :: InArray(g, R, col) && 0 <= p < g.Total() ==>
      s.mem(g.Target(R, col, p)) == if p < s.drained(col) then [g.Wanted(R, col, p, g.kTiles)] else []
  }

  ghost predicate Inv(g: Grid, s: Net)
    requires g.Valid()
  {
    CountsOk(g, s) && MemOk(g, s) && forall R, col :: InArray(g, R, col) ==> CoreOk(g, s, R, col)
  }

  lemma InitInv(g: Grid, s: Net)
    requires g.Valid() && Init(g, s)
    ensures Inv(g, s)
  {
  }

  lemma ShimOf(g: Grid, R: int)
    requires g.Valid() && 0 <= R < ROWS
    ensures 0 <= R / g.per < g.shims
  {
    HalfOf(R, g.per, g.shims);
  }

  lemma TargetsDiffer(g: Grid, R: int, col: int, p: int, R': int, col': int, p': int)
    requires g.Valid() && InArray(g, R, col) && InArray(g, R', col') && 0 <= p < g.Total() && 0 <= p' < g.Total()
    ensures g.Target(R, col, p) == g.Target(R', col', p') <==> R == R' && col == col' && p == p'
    ensures g.Target(R, col, p).row % ROWS == R
  {
  }

  /** Wrapping up a full accumulator leaves the number of consumed pairs unchanged. */
  lemma WorkReleased(g: Grid, k: Core)
    requires |k.acc| == g.kTiles
    ensures Core(false, [], k.out + [k.acc]).Work(g.kTiles) == k.Work(g.kTiles)
  {
    assert (|k.out| + 1) * g.kTiles == |k.out| * g.kTiles + g.kTiles;
  }

  lemma CoresStep(g: Grid, s: Net, step: Step, R: int, col: int)
    requires g.Valid() && Inv(g, s) && Enabled(g, s, step) && InArray(g, R, col)
    ensures CoreOk(g, Apply(g, s, step), R, col)
  {
    assert CoreOk(g, s, R, col);
    var k := s.core(R, col);
    match step {
      case Mac(R', col') =>
        if R' == R && col' == col {
          assert Idx(g.kTiles, |k.out|, |k.acc|) == k.Work(g.kTiles);
          assert g.Wanted(R, col, |k.out|, |k.acc| + 1)
              == g.Wanted(R, col, |k.out|, |k.acc|) + [g.PairAt(R, col, k.Work(g.kTiles))];
        }
      case Release(R', col') =>
        if R' == R && col' == col { WorkReleased(g, k); }
      case _ =>
    }
  }

  lemma CountsStep(g: Grid, s: Net, step: Step)
    requires g.Valid() && Inv(g, s) && Enabled(g, s, step)
    ensures CountsOk(g, Apply(g, s, step))
  {
    if step == Issue {
      MulMono(s.issued, s.issued + 1, g.half);
      MulMono(s.issued * g.half, (s.issued + 1) * g.half, g.kTiles);
    }
  }

  lemma IssuedInTotal(g: Grid, s: Net)
    requires g.Valid() && CountsOk(g, s)
    ensures s.issued * g.half <= g.Total()
  {
    MulMono(s.issued, g.halves, g.half);
  }

  lemma MemStep(g: Grid, s: Net, step: Step)
    requires g.Valid() && Inv(g, s) && Enabled(g, s, step)
    ensures MemOk(g, Apply(g, s, step))
  {
    if step.Drain? {
      var q := s.drained(step.col);
      IssuedInTotal(g, s);
      forall R, col, p | InArray(g, R, col) && 0 <= p < g.Total()
        ensures Apply(g, s, step).mem(g.Target(R, col, p))
             == if p < Apply(g, s, step).drained(col) then [g.Wanted(R, col, p, g.kTiles)] else []
      {
        TargetsDiffer(g, R, col, p, R, step.col, q);
        assert CoreOk(g, s, R, col) && CoreOk(g, s, R, step.col);
      }
    }
  }

  /** Every step of every interleaving keeps the invariant. */
  lemma StepInv(g: Grid, s: Net, step: Step)
    requires g.Valid() && Inv(g, s) && Enabled(g, s, step)
    ensures Inv(g, Apply(g, s, step))
  {
    CountsStep(g, s, step);
    MemStep(g, s, step);
    forall R, col | InArray(g, R, col) ensures CoreOk(g, Apply(g, s, step), R, col) {
      CoresStep(g, s, step, R, col);
    }
  }

  ghost predicate Run(g: Grid, tr: seq<Net>)
    requires g.Valid()
  {
    |tr| > 0 && Init(g, tr[0]) && forall n :: 0 <= n < |tr| - 1 ==> Next(g, tr[n], tr[n + 1])
  }

  ghost predicate Next(g: Grid, s: Net, s': Net)
    requires g.Valid()
  {
    exists step :: Enabled(g, s, step) && s' == Apply(g, s, step)
  }

  lemma {:induction false} RunInv(g: Grid, tr: seq<Net>, n: nat)
    requires g.Valid() && Run(g, tr) && n < |tr|
    ensures Inv(g, tr[n])
  {
    if n == 0 {
      InitInv(g, tr[0]);
    } else {
      RunInv(g, tr, n - 1);
      assert Next(g, tr[n - 1], tr[n - 1 + 1]);
      var step :| Enabled(g, tr[n - 1], step) && tr[n] == Apply(g, tr[n - 1], step);
      StepInv(g, tr[n - 1], step);
    }
  }

  /** No FIFO holds more than its depth, and the drains lag by at most the first transfer block,
      later by one half block. */
  ghost predicate Bounded(g: Grid, s: Net)
    requires g.Valid()
  {
    && (forall R, col :: InArray(g, R, col) ==> FifosFit(g, s, R, col))
    && forall col :: 0 <= col < g.cols ==> Lag(g, s, col) <= if s.issued <= 2 then 2 * g.half else g.half
  }

  function Lag(g: Grid, s: Net, col: int): int {
    s.issued * g.half - s.drained(col)
  }

  ghost predicate FifosFit(g: Grid, s: Net, R: int, col: int)
    requires g.Valid()
  {
    var k := s.core(R, col);
    && s.aPushed(R / g.per) - k.Work(g.kTiles) <= g.depth && s.bPushed(col) - k.Work(g.kTiles) <= g.depth
    && |k.out| + (if k.open then 1 else 0) - s.drained(col) <= g.cDepth
  }

  lemma FifosStep(g: Grid, s: Net, step: Step, R: int, col: int)
    requires g.Valid() && Enabled(g, s, step) && InArray(g, R, col)
    requires CoreOk(g, s, R, col) && FifosFit(g, s, R, col)
    ensures FifosFit(g, Apply(g, s, step), R, col)
  {
    var k := s.core(R, col);
    match step {
      case PushA(shim) => assert Apply(g, s, step).core(R, col) == k;
      case Mac(R', col') =>
        if R' == R && col' == col { assert Apply(g, s, step).core(R, col).Work(g.kTiles) == k.Work(g.kTiles) + 1; }
      case Release(R', col') =>
        if R' == R && col' == col { WorkReleased(g, k); }
      case _ =>
    }
  }

  lemma LagStep(g: Grid, s: Net, step: Step, col: int)
    requires g.Valid() && Enabled(g, s, step) && 0 <= col < g.cols
    requires Lag(g, s, col) <= if s.issued <= 2 then 2 * g.half else g.half
    ensures Lag(g, Apply(g, s, step), col) <= if Apply(g, s, step).issued <= 2 then 2 * g.half else g.half
  {
    if step == Issue {
      assert (s.issued + 1) * g.half == s.issued * g.half + g.half;
      if s.issued <= 1 { MulMono(s.issued + 1, 2, g.half); }
    }
  }

  /** The bounds hold in every state of every interleaving. */
  lemma {:induction false} RunBounded(g: Grid, tr: seq<Net>, n: nat)
    requires g.Valid() && Run(g, tr) && n < |tr|
    ensures Bounded(g, tr[n])
  {
    if n > 0 {
      RunBounded(g, tr, n - 1);
      RunInv(g, tr, n - 1);
      assert Next(g, tr[n - 1], tr[n - 1 + 1]);
      var step :| Enabled(g, tr[n - 1], step) && tr[n] == Apply(g, tr[n - 1], step);
      forall R, col | InArray(g, R, col) ensures FifosFit(g, tr[n], R, col) {
        FifosStep(g, tr[n - 1], step, R, col);
      }
      forall col | 0 <= col < g.cols
        ensures Lag(g, tr[n], col) <= if tr[n].issued <= 2 then 2 * g.half else g.half
      {
        LagStep(g, tr[n - 1], step, col);
      }
    }
  }

  /** Ping and pong of the first transfer block overlap: the first bound is attained. */
  lemma TwoInFlight(g: Grid, s: Net)
    requires g.Valid() && Init(g, s) && g.halves >= 2
    ensures Run(g, [s, s.(issued := 1), s.(issued := 2)])
    ensures forall col :: 0 <= col < g.cols ==> Lag(g, s.(issued := 2), col) == 2 * g.half
  {
    var tr := [s, s.(issued := 1), s.(issued := 2)];
    assert Enabled(g, s, Issue) && tr[1] == Apply(g, s, Issue);
    assert Enabled(g, tr[1], Issue) && tr[2] == Apply(g, tr[1], Issue);
    assert Next(g, tr[0], tr[1]) && Next(g, tr[1], tr[2]);
  }

  /** Everything is issued and drained. */
  predicate Finished(g: Grid, s: Net) {
    s.issued == g.halves && forall col :: 0 <= col < g.cols ==> s.drained(col) == g.Total()
  }

  /** A core with the least work done can always be served, so no interleaving deadlocks. */
  lemma Progress(g: Grid, s: Net)
    requires g.Valid() && Inv(g, s) && !Finished(g, s)
    ensures exists step :: Enabled(g, s, step)
  {
    var R, col := LeastWork(g, s);
    ShimOf(g, R);
    assert CoreOk(g, s, R, col);
    if s.core(R, col).Work(g.kTiles) < s.issued * g.half * g.kTiles {
      LeastIsServed(g, s, R, col);
    } else {
      AllWorkDone(g, s, R, col);
    }
  }

  lemma LeastWork(g: Grid, s: Net) returns (R: int, col: int)
    requires g.Valid()
    ensures InArray(g, R, col)
    ensures forall x, y :: InArray(g, x, y) ==> s.core(R, col).Work(g.kTiles) <= s.core(x, y).Work(g.kTiles)
  {
    R, col := 0, 0;
    for y := 0 to g.cols
      invariant InArray(g, R, col)
      invariant forall i, j :: 0 <= i < ROWS && 0 <= j < y ==> s.core(R, col).Work(g.kTiles) <= s.core(i, j).Work(g.kTiles)
    {
      for x := 0 to ROWS
        invariant InArray(g, R, col)
        invariant forall i, j :: 0 <= i < ROWS && 0 <= j < y ==> s.core(R, col).Work(g.kTiles) <= s.core(i, j).Work(g.kTiles)
        invariant forall i :: 0 <= i < x ==> s.core(R, col).Work(g.kTiles) <= s.core(i, y).Work(g.kTiles)
      {
        if s.core(x, y).Work(g.kTiles) < s.core(R, col).Work(g.kTiles) { R, col := x, y; }
      }
    }
  }

  lemma LeastIsServed(g: Grid, s: Net, R: int, col: int)
    requires g.Valid() && Inv(g, s) && InArray(g, R, col)
    requires forall x, y :: InArray(g, x, y) ==> s.core(R, col).Work(g.kTiles) <= s.core(x, y).Work(g.kTiles)
    requires s.core(R, col).Work(g.kTiles) < s.issued * g.half * g.kTiles
    ensures exists step :: Enabled(g, s, step)
  {
    var k := s.core(R, col);
    ShimOf(g, R);
    assert CoreOk(g, s, R, col);
    if s.aPushed(R / g.per) == k.Work(g.kTiles) {
      assert Enabled(g, s, PushA(R / g.per));
    } else if s.bPushed(col) == k.Work(g.kTiles) {
      assert Enabled(g, s, PushB(col));
    } else if k.open {
      assert Enabled(g, s, if |k.acc| < g.kTiles then Mac(R, col) else Release(R, col));
    } else {
      IssuedInTotal(g, s);
      FewerTiles(|k.out|, s.issued * g.half, g.kTiles);
      if |k.out| - s.drained(col) < g.cDepth {
        assert Enabled(g, s, Acquire(R, col));
      } else {
        DrainOrRelease(g, s, col, |k.out|);
      }
    }
  }

  lemma FewerTiles(x: int, y: int, k: nat)
    requires x * k < y * k
    ensures x < y
  {
    if x >= y { MulMono(y, x, k); }
  }

  /** If every core of a column consumed enough for n tiles and fewer are drained, the column
      can drain or one of its cores can release. */
  lemma DrainOrRelease(g: Grid, s: Net, col: int, n: int)
    requires g.Valid() && Inv(g, s) && 0 <= col < g.cols
    requires s.drained(col) < n <= s.issued * g.half
    requires forall R :: 0 <= R < ROWS ==> n * g.kTiles <= s.core(R, col).Work(g.kTiles)
    ensures exists step :: Enabled(g, s, step)
  {
    if R :| 0 <= R < ROWS && |s.core(R, col).out| <= s.drained(col) {
      ReleaseReady(g, s, R, col, n);
    } else {
      assert Enabled(g, s, Drain(col));
    }
  }

  /** A core that consumed enough for n tiles but released fewer holds a full one. */
  lemma ReleaseReady(g: Grid, s: Net, R: int, col: int, n: int)
    requires g.Valid() && InArray(g, R, col) && CoreOk(g, s, R, col)
    requires |s.core(R, col).out| < n && n * g.kTiles <= s.core(R, col).Work(g.kTiles)
    ensures Enabled(g, s, Release(R, col))
  {
    var k := s.core(R, col);
    MulMono(|k.out| + 1, n, g.kTiles);
    assert (|k.out| + 1) * g.kTiles == |k.out| * g.kTiles + g.kTiles;
  }

  lemma AllWorkDone(g: Grid, s: Net, R: int, col: int)
    requires g.Valid() && Inv(g, s) && InArray(g, R, col) && !Finished(g, s)
    requires forall x, y :: InArray(g, x, y) ==> s.issued * g.half * g.kTiles <= s.core(x, y).Work(g.kTiles)
    ensures exists step :: Enabled(g, s, step)
  {
    if y :| 0 <= y < g.cols && s.drained(y) < s.issued * g.half {
      DrainOrRelease(g, s, y, s.issued * g.half);
    } else {
      assert HostReady(g, s);
      assert Enabled(g, s, Issue);
    }
  }

  /** Whatever the interleaving, a finished array has written every C tile exactly once, with
      the same accumulated pairs. */
  lemma FinishedMemory(g: Grid, tr: seq<Net>, n: nat, R: int, col: int, p: int)
    requires g.Valid() && Run(g, tr) && n < |tr| && Finished(g, tr[n])
    requires InArray(g, R, col) && 0 <= p < g.Total()
    ensures tr[n].mem(g.Target(R, col, p)) == [g.Wanted(R, col, p, g.kTiles)]
  {
    RunInv(g, tr, n);
  }
}
