/**
 One compiled kernel of fixed tile sizes with its staging buffers. The device works on
 its own copy of A: `SyncA` is the only host-to-device transfer of activations. Loading a
 program, uploading weights and dispatching either complete or throw; which attempts throw is
 an input, and a throw is reported as `ok == false`.
 */
module XdnaProgram {
  import opened Matrix
  import opened Buffers

  /** A weight chunk resident on the device; never written after its upload. */
  datatype Weights = Weights(bo: seq<int>)

  datatype Option<+T> = None | Some(value: T)

  /** No attempt in [from, to) throws. */
  ghost predicate NoFault(faults: nat -> bool, from: nat, to: nat) {
    forall i: nat :: from <= i < to ==> !faults(i)
  }

  /** n attempts were due from `from` on: they have all been made, the last one just before
      `to`, without a throw, or the first throw among them was the last one made. */
  ghost predicate Attempted(faults: nat -> bool, from: nat, to: nat, n: int, ok: bool) {
    if ok then to == from + n && NoFault(faults, from, to)
    else from < to <= from + n && NoFault(faults, from, to - 1) && faults(to - 1)
  }

  /** So they succeed exactly if none of the n throws. */
  lemma SucceedsExactly(faults: nat -> bool, from: nat, to: nat, n: nat, ok: bool)
    requires Attempted(faults, from, to, n, ok)
    ensures ok <==> NoFault(faults, from, from + n)
  {
  }

  lemma AttemptedThen(faults: nat -> bool, from: nat, mid: nat, to: nat, n: nat, more: nat, ok: bool)
    requires Attempted(faults, from, mid, n, true) && Attempted(faults, mid, to, more, ok)
    ensures Attempted(faults, from, to, n + more, ok)
  {
  }

  /** The device with any schedule of faults, indexed by a count of the attempts made on it. */
  class Device {
    const faults: nat -> bool
    var attempts: nat

    constructor (faults: nat -> bool)
      ensures this.faults == faults && attempts == 0
    {
      this.faults := faults;
      attempts := 0;
    }

    method Attempt() returns (ok: bool)
      modifies this
      ensures attempts == old(attempts) + 1 && ok == !faults(old(attempts))
    {
      ok := !faults(attempts);
      attempts := attempts + 1;
    }

    /** Work of n attempts begun at attempt `from` is over. */
    ghost predicate Tried(from: nat, n: int, ok: bool)
      reads this
    {
      Attempted(faults, from, attempts, n, ok)
    }
  }

  class Program {
    const device: Device
    const M: nat
    const K: nat
    const N: nat
    const hostA: array<int>
    const devA: array<int>
    const hostC: array<int>
    var dispatches: nat
    var syncs: nat

    predicate Valid() {
      && 0 < N && hostA.Length == M * K && devA.Length == M * K && hostC.Length == M * N
      && hostA != devA && hostA != hostC && devA != hostC
    }

    /** Staging starts with whatever the allocator returned. */
    constructor (device: Device, M: nat, K: nat, N: nat)
      requires 0 < N
      ensures Valid() && this.device == device && this.M == M && this.K == K && this.N == N
      ensures fresh(hostA) && fresh(devA) && fresh(hostC)
      ensures dispatches == 0 && syncs == 0
    {
      MulMono(0, M, K);
      MulMono(0, M, N);
      this.device, this.M, this.K, this.N := device, M, K, N;
      hostA := new int[M * K];
      devA := new int[M * K];
      hostC := new int[M * N];
      dispatches, syncs := 0, 0;
    }

    /** The product the device computes for row t of A and output column j. */
    ghost function Product(w: Weights, t: int, j: int): int
      reads devA
    {
      Wrap32(Dot(View(devA[..], K), View(w.bo, K), t, j, 0, K))
    }

    method Upload(slab: array<int>) returns (r: Option<Weights>)
      requires slab.Length == K * N
      modifies device
      ensures r.Some? ==> r.value.bo == slab[..]
      ensures device.Tried(old(device.attempts), 1, r.Some?)
    {
      var ok := device.Attempt();
      r := if ok then Some(Weights(slab[..])) else None;
    }

    method SyncA()
      requires Valid()
      modifies devA, this`syncs
      ensures devA[..] == hostA[..] && syncs == old(syncs) + 1
    {
      forall q | 0 <= q < devA.Length {
        devA[q] := hostA[q];
      }
      syncs := syncs + 1;
    }

    /** Dispatch on the device's current copy of A; C is read back on completion. */
    method RunMappedPresynced(w: Weights) returns (ok: bool)
      requires Valid()
      modifies hostC, this`dispatches, device
      ensures ok ==> forall t, j :: 0 <= t < M && 0 <= j < N ==> View(hostC[..], N)(t, j) == Product(w, t, j)
      ensures dispatches == old(dispatches) + if ok then 1 else 0
      ensures device.Tried(old(device.attempts), 1, ok)
    {
      ok := device.Attempt();
      if !ok { return; }
      forall q | 0 <= q < hostC.Length {
        hostC[q] := Wrap32(Dot(View(devA[..], K), View(w.bo, K), q / N, q % N, 0, K));
      }
      dispatches := dispatches + 1;
      forall t, j | 0 <= t < M && 0 <= j < N ensures View(hostC[..], N)(t, j) == Product(w, t, j) {
        IdxBound(N, M, t, j);
        IdxDivMod(N, t, j);
      }
    }

    /** The copying form: stage a whole tile, dispatch, copy the result out. */
    method Run(w: Weights, a: seq<int>, c: array<int>) returns (ok: bool)
      requires Valid() && |a| == M * K && c.Length == M * N && c != hostA && c != devA && c != hostC
      modifies hostA, devA, hostC, c, this`syncs, this`dispatches, device
      ensures ok ==> forall t, j :: 0 <= t < M && 0 <= j < N ==>
                                      View(c[..], N)(t, j) == Wrap32(Dot(View(a, K), View(w.bo, K), t, j, 0, K))
      ensures !ok ==> c[..] == old(c[..])
      ensures device.Tried(old(device.attempts), 1, ok)
    {
      CombineRow(hostA, 0, a, 0, |a|, Overwrite());
      assert hostA[..] == a;
      SyncA();
      ok := RunMappedPresynced(w);
      if ok {
        CombineRow(c, 0, hostC[..], 0, c.Length, Overwrite());
        assert c[..] == hostC[..];
      }
    }
  }
}
