/**
 The runtime shim: programs per artifact stem, the memoising cache of resident tensors
 with its record of failures, and the entry points ggml calls.
 */
module XdnaRuntime {
  import opened Matrix
  import opened Buffers
  import opened I2S
  import opened Oracle
  import opened Exactness
  import opened XdnaProgram
  import opened ChunkedGemm

  type Ptr = nat
  type TileSizes = t: Tiles | t.Valid() witness Tiles(1, 1, 1)

  /** Supported (K, N), with whole blocks of packed weights in every row. */
  type Shapes = s: set<(nat, nat)> | forall p :: p in s ==> 0 < p.0 && p.0 % QK == 0

  /** Outcome of get_resident: a null return and an exception are told apart. */
  datatype Lookup = Found(res: Resident) | Refused | Threw

  /** One chunk of the N-outside-K push order: chunk q is (q / kChunks, q % kChunks). */
  ghost predicate ChunkOk(c: Weights, q: nat, plan: ShapePlan, tile: Tiles, w: Mat)
  {
    plan.kChunks > 0 && IsSlab(c.bo, tile, w, (q / plan.kChunks) * tile.n, (q % plan.kChunks) * tile.k)
  }

  /** Build and upload chunk (nc, kc). */
  method UploadChunk(prog: Program, src: seq<bv8>, K: nat, N: nat, nc: nat, kc: nat, plan: ShapePlan, slab: array<int>)
    returns (r: Option<Weights>)
    requires prog.Valid() && Tiles(prog.M, prog.K, prog.N).Valid() && slab.Length == prog.K * prog.N
    requires K % QK == 0 && N * (K / 4) <= |src|
    requires plan == ShapePlan(CeilDiv(N, prog.N), CeilDiv(K, prog.K)) && nc < plan.nChunks && kc < plan.kChunks
    modifies slab, prog.device
    ensures prog.device.Tried(old(prog.device.attempts), 1, r.Some?)
    ensures r.Some? ==> ChunkOk(r.value, Idx(plan.kChunks, nc, kc), plan, Tiles(prog.M, prog.K, prog.N), Ternary(src, K, N))
  {
    ChunkInside(K, prog.K, kc);
    ChunkInside(N, prog.N, nc);
    BuildBkn(src, K, N, nc * prog.N, kc * prog.K, Tiles(prog.M, prog.K, prog.N), slab);
    r := prog.Upload(slab);
    IdxDivMod(plan.kChunks, nc, kc);
  }

  /** The upload loops, N outside K. `count` chunks reached the device even when a later
      upload throws and the whole entry is dropped. */
  method UploadAll(prog: Program, src: seq<bv8>, K: nat, N: nat, plan: ShapePlan)
    returns (chunks: seq<Weights>, ok: bool)
    requires prog.Valid() && Tiles(prog.M, prog.K, prog.N).Valid()
    requires K % QK == 0 && N * (K / 4) <= |src|
    requires plan == ShapePlan(CeilDiv(N, prog.N), CeilDiv(K, prog.K))
    modifies prog.device
    ensures prog.device.Tried(old(prog.device.attempts), plan.nChunks * plan.kChunks, ok)
    ensures !ok ==> prog.device.attempts == old(prog.device.attempts) + |chunks| + 1
    ensures |chunks| <= plan.nChunks * plan.kChunks
    ensures ok <==> |chunks| == plan.nChunks * plan.kChunks
    ensures forall q :: 0 <= q < |chunks| ==>
                          ChunkOk(chunks[q], q, plan, Tiles(prog.M, prog.K, prog.N), Ternary(src, K, N))
  {
    chunks, ok := [], true;
    var slab := new int[prog.K * prog.N];
    for nc := 0 to plan.nChunks
      invariant |chunks| == nc * plan.kChunks && prog.device.Tried(old(prog.device.attempts), |chunks|, true)
      invariant forall q :: 0 <= q < |chunks| ==>
                  ChunkOk(chunks[q], q, plan, Tiles(prog.M, prog.K, prog.N), Ternary(src, K, N))
    {
      IdxRow(plan.kChunks, nc, plan.nChunks);
      for kc := 0 to plan.kChunks
        invariant |chunks| == nc * plan.kChunks + kc && prog.device.Tried(old(prog.device.attempts), |chunks|, true)
        invariant forall q :: 0 <= q < |chunks| ==>
                    ChunkOk(chunks[q], q, plan, Tiles(prog.M, prog.K, prog.N), Ternary(src, K, N))
      {
        var r := UploadChunk(prog, src, K, N, nc, kc, plan, slab);
        IdxBound(plan.kChunks, plan.nChunks, nc, kc);
        if r.None? {
          ok := false;
          return;
        }
        chunks := chunks + [r.value];
      }
    }
  }

  lemma PushedIsResident(res: Resident, tile: Tiles, shapes: set<(nat, nat)>, src: seq<bv8>)
    requires tile.Valid() && PlanFor(tile, shapes, res.K, res.N) == Some(res.plan)
    requires |res.chunks| == res.plan.nChunks * res.plan.kChunks
    requires forall q :: 0 <= q < |res.chunks| ==> ChunkOk(res.chunks[q], q, res.plan, tile, Ternary(src, res.K, res.N))
    ensures ResidentOk(res, tile, shapes, src)
  {
    forall nc, kc | 0 <= nc < res.plan.nChunks && 0 <= kc < res.plan.kChunks
      ensures 0 <= Idx(res.plan.kChunks, nc, kc) < |res.chunks|
      ensures IsSlab(res.chunks[Idx(res.plan.kChunks, nc, kc)].bo, tile, Ternary(src, res.K, res.N), nc * tile.n, kc * tile.k)
    {
      IdxBound(res.plan.kChunks, res.plan.nChunks, nc, kc);
      IdxDivMod(res.plan.kChunks, nc, kc);
    }
  }

  /** All chunks of a tensor as an entry, or none, and how many uploads completed. */
  method UploadEntry(prog: Program, src: seq<bv8>, K: nat, N: nat, plan: ShapePlan, tile: Tiles, ghost shapes: set<(nat, nat)>)
    returns (r: Option<Resident>, count: nat)
    requires prog.Valid() && tile == Tiles(prog.M, prog.K, prog.N) && tile.Valid()
    requires K % QK == 0 && N * (K / 4) <= |src| && PlanFor(tile, shapes, K, N) == Some(plan)
    modifies prog.device
    ensures prog.device.Tried(old(prog.device.attempts), plan.nChunks * plan.kChunks, r.Some?)
    ensures r.Some? ==> r.value.K == K && r.value.N == N && ResidentOk(r.value, tile, shapes, src) && count == |r.value.chunks|
    ensures r.None? ==> prog.device.attempts == old(prog.device.attempts) + count + 1
  {
    var chunks, ok := UploadAll(prog, src, K, N, plan);
    count := |chunks|;
    if !ok { return None, count; }
    var res := Resident(chunks, K, N, plan);
    PushedIsResident(res, tile, shapes, src);
    r := Some(res);
  }

  /** The shapes of BitNet-2B's offloadable linears. */
  const BITNET_SHAPES: Shapes := {(2560, 2560), (2560, 6912), (6912, 2560), (6912, 6912)}

  /** The shapes the shipped runtime supports, and their chunk counts. */
  lemma BitNetShapes(K: nat, N: nat)
    ensures PlanFor(BITNET_TILES, BITNET_SHAPES, K, N)
         == if K in {2560, 6912} && N in {2560, 6912}
            then Some(ShapePlan(if N == 2560 then 1 else 3, if K == 2560 then 1 else 3)) else None
  {
  }

  const BITNET_TILES: TileSizes := Tiles(1024, 2560, 2560)

  /** What a program has done so far. */
  datatype Counted = Counted(dispatches: nat, syncs: nat)

  /** The counters after `tiles` token tiles of one plan. */
  function Spent(c: Counted, tiles: nat, plan: ShapePlan): Counted {
    MulMono(0, plan.kChunks, plan.nChunks);
    MulMono(0, tiles, plan.kChunks * plan.nChunks);
    MulMono(0, tiles, plan.kChunks);
    Counted(c.dispatches + tiles * (plan.kChunks * plan.nChunks), c.syncs + tiles * plan.kChunks)
  }

  /** Chunks held by all cached entries. */
  ghost function ChunkSum(m: map<Ptr, Resident>): nat {
    if m == map[] then 0
    else
      var p :| p in m;
      |m[p].chunks| + ChunkSum(m - {p})
  }

  lemma {:induction false} ChunkSumOf(m: map<Ptr, Resident>, q: Ptr)
    requires q in m
    ensures ChunkSum(m) == |m[q].chunks| + ChunkSum(m - {q})
    decreases |m|
  {
    var p :| p in m && ChunkSum(m) == |m[p].chunks| + ChunkSum(m - {p});
    if p != q {
      ChunkSumOf(m - {p}, q);
      ChunkSumOf(m - {q}, p);
      assert m - {p} - {q} == m - {q} - {p};
    }
  }

  lemma ChunkSumAdd(m: map<Ptr, Resident>, q: Ptr, r: Resident)
    requires q !in m
    ensures ChunkSum(m[q := r]) == ChunkSum(m) + |r.chunks|
  {
    ChunkSumOf(m[q := r], q);
    assert m[q := r] - {q} == m;
  }

  lemma Distribute(b: int, x: int, y: int)
    ensures b * (x + y) == b * x + b * y
  {
  }

  class Runtime {
    const tile: TileSizes
    const shapes: Shapes
    /** The read-only weight memory of the loaded model. */
    const tensors: map<Ptr, seq<bv8>>
    const device: Device

    var gAcc: array<int>
    var gAccN: nat
    var programs: map<string, Program>
    var resident: map<Ptr, Resident>
    var failed: set<Ptr>
    var residentBytes: nat

    /** Chunks counted for entries that a throwing upload then dropped. */
    ghost var dropped: nat

    ghost var repr: set<object>

    /** Each program has the one tile size and buffers of its own. */
    ghost predicate ProgramOk(p: Program)
      reads this`gAcc, this`repr
    {
      && p.Valid() && p.device == device && Tiles(p.M, p.K, p.N) == tile
      && gAcc !in {p.hostA, p.devA, p.hostC}
      && {p, p.hostA, p.devA, p.hostC} <= repr
    }

    ghost predicate ProgramsOk()
      reads this`programs, this`gAcc, this`repr
    {
      && this in repr && gAcc in repr && device in repr
      && forall stem :: stem in programs ==> ProgramOk(programs[stem])
    }

    ghost predicate EntryOk(ptr: Ptr, res: Resident)
    {
      Readable(ptr, res.K, res.N) && ResidentOk(res, tile, shapes, Bytes(ptr))
    }

    /** Cache refinement: every entry is what rebuilding its tensor's chunks would give. */
    ghost predicate CacheOk()
      reads this`resident
    {
      forall ptr :: ptr in resident ==> EntryOk(ptr, resident[ptr])
    }

    /** Device bytes of one chunk. */
    function ChunkBytes(): nat {
      MulMono(0, tile.k, tile.n);
      tile.k * tile.n
    }

    /** Device bytes of the cached entries. */
    ghost function CachedBytes(): nat
      reads this`resident
    {
      MulMono(0, ChunkBytes(), ChunkSum(resident));
      ChunkBytes() * ChunkSum(resident)
    }

    /** g_resident_bytes counts the cached entries and whatever dropped entries had uploaded. */
    ghost predicate CountOk()
      reads this`resident, this`residentBytes, this`dropped
    {
      residentBytes == CachedBytes() + ChunkBytes() * dropped
    }

    ghost predicate Valid()
      reads this
    {
      ProgramsOk() && CacheOk() && CountOk()
    }

    /** The counter is the size of the cache exactly when nothing uploaded was ever dropped. */
    lemma CounterExact()
      requires Valid()
      ensures residentBytes == CachedBytes() <==> dropped == 0
    {
      MulMono(1, tile.k, tile.n);
      if dropped > 0 { MulMono(1, dropped, ChunkBytes()); }
    }

    /** The packed bytes behind a pointer. */
    function Bytes(ptr: Ptr): seq<bv8> {
      if ptr in tensors then tensors[ptr] else []
    }

    predicate Readable(ptr: Ptr, K: nat, N: nat) {
      N * (K / 4) <= |Bytes(ptr)|
    }

    /** bitnet_xdna_supports. */
    predicate Supports(K: nat, N: nat)
    {
      PlanFor(tile, shapes, K, N).Some?
    }

    /** The caller's promise: a shape that will be read is backed by enough bytes. */
    predicate Request(ptr: Ptr, K: nat, N: nat)
    {
      Supports(K, N) ==> Readable(ptr, K, N)
    }

    /** Dispatches and A-syncs of a stem's program so far. */
    ghost function Counts(stem: string): Counted
      reads this`programs, set s | s in programs :: programs[s]
    {
      if stem in programs then Counted(programs[stem].dispatches, programs[stem].syncs) else Counted(0, 0)
    }

    constructor (tile: TileSizes, shapes: Shapes, tensors: map<Ptr, seq<bv8>>, faults: nat -> bool)
      ensures Valid() && fresh(repr)
      ensures this.tile == tile && this.shapes == shapes && this.tensors == tensors && device.faults == faults
      ensures programs == map[] && resident == map[] && failed == {} && residentBytes == 0 && dropped == 0
    {
      this.tile, this.shapes, this.tensors := tile, shapes, tensors;
      gAcc := new int[0];
      device := new Device(faults);
      gAccN := 0;
      programs, resident, failed, residentBytes, dropped := map[], map[], {}, 0, 0;
      repr := {this, gAcc, device};
    }

    /** The shipped configuration: 1024 x 2560 x 2560 tiles and the BitNet-2B shapes. */
    constructor BitNet2B(tensors: map<Ptr, seq<bv8>>, faults: nat -> bool)
      ensures Valid() && fresh(repr)
      ensures tile == BITNET_TILES && shapes == BITNET_SHAPES && this.tensors == tensors && device.faults == faults
      ensures programs == map[] && resident == map[] && failed == {} && residentBytes == 0 && dropped == 0
      ensures forall K, N :: Supports(K, N) <==> K in {2560, 6912} && N in {2560, 6912}
    {
      tile, shapes, this.tensors := BITNET_TILES, BITNET_SHAPES, tensors;
      gAcc := new int[0];
      device := new Device(faults);
      gAccN := 0;
      programs, resident, failed, residentBytes, dropped := map[], map[], {}, 0, 0;
      repr := {this, gAcc, device};
    }

    /** The program creations a request on a stem is due. */
    function Creation(p: map<string, Program>, stem: string): nat {
      if stem in p then 0 else 1
    }

    /** Chunks of a supported tensor. */
    function Chunks(K: nat, N: nat): nat
    {
      MulMono(0, CeilDiv(N, tile.n), CeilDiv(K, tile.k));
      CeilDiv(N, tile.n) * CeilDiv(K, tile.k)
    }

    /** The attempts due before an acceptable request has its entry: creating its program unless
        there is one and uploading its chunks, or none when they are cached. */
    function LookupDue(p: map<string, Program>, m: map<Ptr, Resident>, stem: string, ptr: Ptr, K: nat, N: nat): nat
    {
      if ptr in m then 0 else Creation(p, stem) + Chunks(K, N)
    }

    /** The attempts due to run an entry: its program, and a dispatch per chunk and token tile. */
    function RunDue(p: map<string, Program>, stem: string, K: nat, N: nat, T: nat): nat
    {
      MulMono(0, CeilDiv(T, tile.m), Chunks(K, N));
      Creation(p, stem) + CeilDiv(T, tile.m) * Chunks(K, N)
    }

    /** All of them: a program created by the lookup is there for the run. */
    function Due(p: map<string, Program>, m: map<Ptr, Resident>, stem: string, ptr: Ptr, K: nat, N: nat, T: nat): nat
    {
      LookupDue(p, m, stem, ptr, K, N) + Rest(p, m, stem, ptr, K, N, T)
    }

    function Rest(p: map<string, Program>, m: map<Ptr, Resident>, stem: string, ptr: Ptr, K: nat, N: nat, T: nat): nat
    {
      RunDue(p, stem, K, N, T) - if ptr in m then 0 else Creation(p, stem)
    }

    /** In closed form. */
    lemma DueCounts(p: map<string, Program>, m: map<Ptr, Resident>, stem: string, ptr: Ptr, K: nat, N: nat, T: nat)
      ensures Due(p, m, stem, ptr, K, N, T)
           == (if stem in p then 0 else 1)
              + (CeilDiv(T, tile.m) + if ptr in m then 0 else 1) * (CeilDiv(N, tile.n) * CeilDiv(K, tile.k))
    {
      Distribute(Chunks(K, N), CeilDiv(T, tile.m), if ptr in m then 0 else 1);
    }

    /** Uploads completed before the throw, of `made` attempts that begin with `created` program
        creations. */
    function Completed(made: int, created: nat): nat {
      if made - 1 - created > 0 then made - 1 - created else 0
    }

    /** program_for: the stem's program, created on first use; creation may throw. */
    method ProgramFor(stem: string) returns (prog: Option<Program>)
      requires ProgramsOk()
      modifies this`programs, this`repr, device
      ensures ProgramsOk()
      ensures prog.Some? ==> stem in programs && prog.value == programs[stem]
      ensures stem in old(programs) ==> prog.Some? && programs == old(programs)
      ensures stem !in old(programs) && prog.Some? ==> fresh(prog.value) && prog.value.dispatches == prog.value.syncs == 0
      ensures prog.None? ==> programs == old(programs)
      ensures KeepsPrograms(old(programs), programs, stem) && Counts(stem) == old(Counts(stem))
      ensures fresh(repr - old(repr)) && old(repr) <= repr
      ensures device.Tried(old(device.attempts), old(Creation(programs, stem)), prog.Some?)
    {
      if stem in programs { return Some(programs[stem]); }
      var ok := device.Attempt();
      if !ok { return None; }
      var p := new Program(device, tile.m, tile.k, tile.n);
      programs := programs[stem := p];
      repr := repr + {p, p.hostA, p.devA, p.hostC};
      prog := Some(p);
    }

    lemma EntryCounted(m: map<Ptr, Resident>, ptr: Ptr, res: Resident)
      requires ptr !in m
      ensures ChunkBytes() * ChunkSum(m[ptr := res]) == ChunkBytes() * ChunkSum(m) + ChunkBytes() * |res.chunks|
    {
      ChunkSumAdd(m, ptr, res);
      Distribute(ChunkBytes(), ChunkSum(m), |res.chunks|);
    }

    /** Build, upload and cache a tensor's chunks. Every upload that completes is counted, also
        those of an entry that is dropped because a later one throws. */
    method MakeResident(stem: string, ptr: Ptr, K: nat, N: nat, plan: ShapePlan) returns (r: Lookup)
      requires ProgramsOk() && CountOk() && ptr !in resident && stem in programs
      requires PlanFor(tile, shapes, K, N) == Some(plan) && Readable(ptr, K, N)
      modifies this`resident, this`residentBytes, this`dropped, device
      ensures ProgramsOk() && CountOk() && Counts(stem) == old(Counts(stem)) && !r.Refused?
      ensures r.Found? ==> r.res.K == K && r.res.N == N && EntryOk(ptr, r.res)
      ensures resident == if r.Found? then old(resident)[ptr := r.res] else old(resident)
      ensures dropped == old(dropped) + if r.Found? then 0 else device.attempts - old(device.attempts) - 1
      ensures device.Tried(old(device.attempts), Chunks(K, N), r.Found?)
    {
      assert ProgramOk(programs[stem]);
      var entry, count := UploadEntry(programs[stem], Bytes(ptr), K, N, plan, tile, shapes);
      MulMono(0, count, ChunkBytes());
      residentBytes := residentBytes + ChunkBytes() * count;
      if entry.None? {
        Distribute(ChunkBytes(), dropped, count);
        dropped := dropped + count;
        return Threw;
      }
      EntryCounted(resident, ptr, entry.value);
      resident := resident[ptr := entry.value];
      r := Found(entry.value);
    }

    /** What the code demands of a request it may serve: no recorded failure, and either an
        entry of the same shape or, without an entry, a supported one. */
    predicate Accepts(f: set<Ptr>, m: map<Ptr, Resident>, ptr: Ptr, K: nat, N: nat)
    {
      ptr !in f && if ptr in m then m[ptr].K == K && m[ptr].N == N else Supports(K, N)
    }

    /** get_resident: refuse recorded failures and reused pointers of another shape, return
        the cached entry, otherwise plan, build, upload and cache. */
    method GetResident(stem: string, ptr: Ptr, K: nat, N: nat) returns (r: Lookup)
      requires Valid() && Request(ptr, K, N)
      modifies this`programs, this`repr, this`resident, this`residentBytes, this`dropped, device
      ensures Valid() && fresh(repr - old(repr)) && old(repr) <= repr
      ensures KeepsPrograms(old(programs), programs, stem) && Counts(stem) == old(Counts(stem))
      ensures r.Found? ==> ptr !in failed && EntryOk(ptr, r.res) && r.res.K == K && r.res.N == N
      ensures resident == if r.Found? then old(resident)[ptr := r.res] else old(resident)
      ensures r.Refused? <==> !Accepts(failed, old(resident), ptr, K, N)
      ensures ptr in old(resident) && !r.Refused? ==> r == Found(old(resident)[ptr])
      ensures r.Threw? ==>
                dropped == old(dropped) + Completed(device.attempts - old(device.attempts), old(Creation(programs, stem)))
      ensures !r.Threw? ==> dropped == old(dropped)
      ensures r.Refused? ==> device.attempts == old(device.attempts)
      ensures r.Found? ==> if ptr in old(resident) then programs == old(programs) else stem in programs
      ensures !r.Refused? ==> device.Tried(old(device.attempts), old(LookupDue(programs, resident, stem, ptr, K, N)), r.Found?)
    {
      if ptr in failed { return Refused; }
      if ptr in resident {
        assert EntryOk(ptr, resident[ptr]);
        if resident[ptr].K != K || resident[ptr].N != N { return Refused; }
        return Found(resident[ptr]);
      }
      var plan := PlanFor(tile, shapes, K, N);
      if plan.None? { return Refused; }
      var prog := ProgramFor(stem);
      if prog.None? { return Threw; }
      ghost var mid := device.attempts;
      r := MakeResident(stem, ptr, K, N, plan.value);
      AttemptedThen(device.faults, old(device.attempts), mid, device.attempts, old(Creation(programs, stem)), Chunks(K, N),
                    r.Found?);
    }

    /** The lookup of one request: record f and entries m before and after. It serves only what
        is acceptable and leaves anything not served recorded; an entry is served as it is. */
    predicate Looked(f: set<Ptr>, f': set<Ptr>, m: map<Ptr, Resident>, m': map<Ptr, Resident>,
                     ptr: Ptr, K: nat, N: nat, r: Option<Resident>)
    {
      && (r.Some? ==> Accepts(f, m, ptr, K, N))
      && f' == (if r.Some? then f else f + {ptr})
      && m' == (if r.Some? then m[ptr := r.value] else m)
      && (r.Some? ==> r.value.K == K && r.value.N == N && (ptr in m ==> r.value == m[ptr]))
      && (Accepts(f, m, ptr, K, N) && ptr in m ==> r.Some?)
    }

    /** get_resident_logged: whatever is not a resident entry is recorded as a failure. */
    method GetResidentLogged(stem: string, ptr: Ptr, K: nat, N: nat) returns (r: Option<Resident>)
      requires Valid() && Request(ptr, K, N)
      modifies this`programs, this`repr, this`resident, this`residentBytes, this`dropped, this`failed, device
      ensures Valid() && fresh(repr - old(repr)) && old(repr) <= repr
      ensures KeepsPrograms(old(programs), programs, stem) && Counts(stem) == old(Counts(stem))
      ensures r.Some? ==> EntryOk(ptr, r.value)
      ensures r.Some? ==> if ptr in old(resident) then programs == old(programs) else stem in programs
      ensures r.Some? ==> ptr !in failed && ptr in resident && resident[ptr] == r.value && r.value.K == K && r.value.N == N
      ensures r.Some? ==> old(Accepts(failed, resident, ptr, K, N))
      ensures CacheStep(old(failed), failed, old(resident), resident, ptr, K, N)
      ensures !old(Accepts(failed, resident, ptr, K, N)) ==> device.attempts == old(device.attempts)
      ensures old(Accepts(failed, resident, ptr, K, N)) ==>
                device.Tried(old(device.attempts), old(LookupDue(programs, resident, stem, ptr, K, N)), r.Some?)
      ensures dropped == old(dropped)
                         + Lost(old(failed), failed, old(resident), old(programs), device.attempts - old(device.attempts), stem, ptr, K, N)
    {
      if ptr in failed { assert failed == failed + {ptr}; return None; }
      var l := GetResident(stem, ptr, K, N);
      if l.Found? {
        LookupStep(old(failed), failed, old(resident), resident, ptr, K, N, Some(l.res));
        return Some(l.res);
      }
      failed := failed + {ptr};
      LookupStep(old(failed), failed, old(resident), resident, ptr, K, N, None);
      r := None;
    }

    /** g_acc.resize: only ever grows, keeping what it held. */
    method GrowAcc(cells: nat, N: nat)
      requires ProgramsOk()
      modifies this`gAcc, this`gAccN, this`repr
      ensures gAccN == N
      ensures ProgramsOk() && fresh(repr - old(repr)) && old(repr) <= repr
      ensures gAcc.Length == if old(gAcc.Length) < cells then cells else old(gAcc.Length)
      ensures gAcc[..old(gAcc.Length)] == old(gAcc[..])
      ensures if cells <= old(gAcc.Length) then gAcc == old(gAcc) else fresh(gAcc)
    {
      gAccN := N;
      if gAcc.Length < cells {
        var grown := new int[cells];
        forall q | 0 <= q < gAcc.Length { grown[q] := gAcc[q]; }
        gAcc := grown;
        repr := repr + {grown};
      }
    }

    /** The program to dispatch on and an accumulator large enough for the result. */
    method Prepare(stem: string, cells: nat, N: nat) returns (prog: Option<Program>)
      requires ProgramsOk()
      modifies this`gAcc, this`gAccN, this`programs, this`repr, device
      ensures ProgramsOk() && fresh(repr - old(repr)) && old(repr) <= repr
      ensures KeepsPrograms(old(programs), programs, stem) && Counts(stem) == old(Counts(stem))
      ensures prog.Some? ==> stem in programs && prog.value == programs[stem] && cells <= gAcc.Length && gAccN == N
      ensures device.Tried(old(device.attempts), old(Creation(programs, stem)), prog.Some?)
    {
      prog := ProgramFor(stem);
      if prog.Some? {
        ghost var grown := repr;
        GrowAcc(cells, N);
        assert repr - old(repr) == (repr - grown) + (grown - old(repr));
      }
    }

    /** The dispatching half of accumulate: any throw leaves only scratch state changed. */
    method RunResident(stem: string, ptr: Ptr, res: Resident, aq: seq<Int8>, T: nat, stride: nat) returns (ok: bool)
      requires ProgramsOk() && EntryOk(ptr, res) && BatchFits(aq, stride, T, res.K)
      modifies repr - {this}, this`gAcc, this`gAccN, this`programs, this`repr
      ensures ProgramsOk() && fresh(repr - old(repr)) && old(repr) <= repr
      ensures KeepsPrograms(old(programs), programs, stem)
      ensures ok ==> IsProduct(gAcc[..], aq, stride, T, res.K, res.N, Bytes(ptr)) && gAccN == res.N && stem in programs
      ensures ok ==> Counts(stem) == Spent(old(Counts(stem)), CeilDiv(T, tile.m), res.plan)
      ensures device.Tried(old(device.attempts), RunDue(old(programs), stem, res.K, res.N, T), ok)
    {
      MulMono(0, T, res.N);
      var prog := Prepare(stem, T * res.N, res.N);
      if prog.None? { return false; }
      ghost var mid := device.attempts;
      ok := Dispatch(stem, ptr, res, aq, T, stride);
      AttemptedThen(device.faults, old(device.attempts), mid, device.attempts, old(Creation(programs, stem)),
                    RunDue(programs, stem, res.K, res.N, T), ok);
    }

    /** All token tiles on the stem's program. */
    method Dispatch(stem: string, ptr: Ptr, res: Resident, aq: seq<Int8>, T: nat, stride: nat) returns (ok: bool)
      requires ProgramsOk() && EntryOk(ptr, res) && BatchFits(aq, stride, T, res.K)
      requires stem in programs && T * res.N <= gAcc.Length
      modifies repr - {this}
      ensures ProgramsOk()
      ensures ok ==> IsProduct(gAcc[..], aq, stride, T, res.K, res.N, Bytes(ptr))
      ensures ok ==> Counts(stem) == Spent(old(Counts(stem)), CeilDiv(T, tile.m), res.plan)
      ensures device.Tried(old(device.attempts), RunDue(programs, stem, res.K, res.N, T), ok)
    {
      var prog := programs[stem];
      assert ProgramOk(prog);
      ok := AccumulateTiles(prog, res, aq, stride, T, gAcc, shapes, Bytes(ptr));
      assert Chunks(res.K, res.N) == res.plan.kChunks * res.plan.nChunks;
    }

    /** Running an entry leaves cache, failure record and byte count alone. */
    method RunCached(stem: string, ptr: Ptr, K: nat, N: nat, aq: seq<Int8>, T: nat, stride: nat) returns (ok: bool)
      requires Valid() && ptr in resident && resident[ptr].K == K && resident[ptr].N == N && BatchFits(aq, stride, T, K)
      modifies repr - {this}, this`gAcc, this`gAccN, this`programs, this`repr
      ensures Valid() && fresh(repr - old(repr)) && old(repr) <= repr
      ensures KeepsPrograms(old(programs), programs, stem)
      ensures ok ==> IsProduct(gAcc[..], aq, stride, T, K, N, Bytes(ptr)) && gAccN == N && stem in programs
      ensures ok ==> Counts(stem) == Spent(old(Counts(stem)), CeilDiv(T, tile.m), ShapePlan(CeilDiv(N, tile.n), CeilDiv(K, tile.k)))
      ensures device.Tried(old(device.attempts), RunDue(old(programs), stem, K, N, T), ok)
    {
      assert EntryOk(ptr, resident[ptr]);
      ok := RunResident(stem, ptr, resident[ptr], aq, T, stride);
      assert CacheOk() && CountOk();
    }

    /** What one request does to the failure record f and the entries m: only its pointer is added
        to either; a recorded pointer changes nothing; an unsupported shape, or a cached pointer
        asked for another one, is recorded; and a pointer not recorded before is recorded exactly
        if no entry of the requested shape is there afterwards. */
    predicate CacheStep(f: set<Ptr>, f': set<Ptr>, m: map<Ptr, Resident>, m': map<Ptr, Resident>, ptr: Ptr, K: nat, N: nat)
    {
      && f <= f' <= f + {ptr}
      && KeepsAll(m, m') && m'.Keys <= m.Keys + {ptr}
      && (ptr in f ==> m' == m)
      && (ptr !in m && !Supports(K, N) ==> ptr in f')
      && (ptr in m && !(m[ptr].K == K && m[ptr].N == N) ==> ptr in f')
      && (ptr !in f ==> (f' == f <==> ptr in m' && m'[ptr].K == K && m'[ptr].N == N))
    }

    lemma LookupStep(f: set<Ptr>, f': set<Ptr>, m: map<Ptr, Resident>, m': map<Ptr, Resident>,
                     ptr: Ptr, K: nat, N: nat, r: Option<Resident>)
      requires Looked(f, f', m, m', ptr, K, N, r)
      ensures CacheStep(f, f', m, m', ptr, K, N)
      ensures Accepts(f, m, ptr, K, N) ==> (ptr in f' <==> r.None?)
    {
      assert ptr !in f && r.None? ==> f' != f;
    }

    /** bitnet_xdna_accumulate. An acceptable request makes the attempts it is due until one
        throws, succeeds exactly if none does, and then the shared accumulator is the product;
        whatever fails, the cache stays right and only the lookup adds to the failure record. */
    method AccumulateBatch(stem: string, ptr: Ptr, K: nat, N: nat, aq: seq<Int8>, T: nat, stride: nat) returns (ok: bool)
      requires Valid() && Request(ptr, K, N) && (Supports(K, N) ==> BatchFits(aq, stride, T, K))
      modifies repr
      ensures Valid() && fresh(repr - old(repr)) && old(repr) <= repr
      ensures old(Accepts(failed, resident, ptr, K, N)) ==>
                device.Tried(old(device.attempts), old(Due(programs, resident, stem, ptr, K, N, T)), ok)
      ensures !old(Accepts(failed, resident, ptr, K, N)) ==> !ok && device.attempts == old(device.attempts)
      ensures ok <==> old(Accepts(failed, resident, ptr, K, N))
                      && NoFault(device.faults, old(device.attempts),
                                 old(device.attempts + Due(programs, resident, stem, ptr, K, N, T)))
      ensures KeepsPrograms(old(programs), programs, stem)
      ensures ok ==> Supports(K, N) && IsProduct(gAcc[..], aq, stride, T, K, N, Bytes(ptr)) && gAccN == N
      ensures ok ==> ptr !in failed && ptr in resident && resident[ptr].K == K && resident[ptr].N == N && stem in programs
      ensures ok ==> Counts(stem) == Spent(old(Counts(stem)), CeilDiv(T, tile.m), ShapePlan(CeilDiv(N, tile.n), CeilDiv(K, tile.k)))
      ensures CacheStep(old(failed), failed, old(resident), resident, ptr, K, N)
      ensures dropped == old(dropped)
                         + Lost(old(failed), failed, old(resident), old(programs), device.attempts - old(device.attempts), stem, ptr, K, N)
      ensures ptr in old(failed) ==> gAcc == old(gAcc) && gAcc[..] == old(gAcc[..])
    {
      ghost var found, mid;
      ok, found, mid := LookUpAndRun(stem, ptr, K, N, aq, T, stride);
      Together(device.faults, old(device.attempts), mid, device.attempts, old(LookupDue(programs, resident, stem, ptr, K, N)),
               old(Rest(programs, resident, stem, ptr, K, N, T)), old(Accepts(failed, resident, ptr, K, N)), found, ok);
    }

    /** The lookup, up to attempt `mid`, and, if it found an entry, its run. */
    method LookUpAndRun(stem: string, ptr: Ptr, K: nat, N: nat, aq: seq<Int8>, T: nat, stride: nat)
      returns (ok: bool, ghost found: bool, ghost mid: nat)
      requires Valid() && Request(ptr, K, N) && (Supports(K, N) ==> BatchFits(aq, stride, T, K))
      modifies repr
      ensures Valid() && fresh(repr - old(repr)) && old(repr) <= repr
      ensures KeepsPrograms(old(programs), programs, stem)
      ensures if old(Accepts(failed, resident, ptr, K, N))
              then Attempted(device.faults, old(device.attempts), mid, old(LookupDue(programs, resident, stem, ptr, K, N)), found)
              else !found && mid == old(device.attempts)
      ensures if found then Attempted(device.faults, mid, device.attempts, old(Rest(programs, resident, stem, ptr, K, N, T)), ok)
              else !ok && device.attempts == mid && gAcc == old(gAcc) && gAcc[..] == old(gAcc[..])
      ensures ok ==> IsProduct(gAcc[..], aq, stride, T, K, N, Bytes(ptr)) && gAccN == N && stem in programs
      ensures ok ==> Counts(stem) == Spent(old(Counts(stem)), CeilDiv(T, tile.m), ShapePlan(CeilDiv(N, tile.n), CeilDiv(K, tile.k)))
      ensures found ==> ptr !in failed && ptr in resident && resident[ptr].K == K && resident[ptr].N == N && Supports(K, N)
      ensures CacheStep(old(failed), failed, old(resident), resident, ptr, K, N)
      ensures dropped == old(dropped) + Lost(old(failed), failed, old(resident), old(programs), mid - old(device.attempts), stem, ptr, K, N)
    {
      var res := GetResidentLogged(stem, ptr, K, N);
      found, mid := res.Some?, device.attempts;
      if res.None? { return false, found, mid; }
      assert old(Rest(programs, resident, stem, ptr, K, N, T)) == RunDue(programs, stem, K, N, T);
      ghost var known := programs;
      ok := RunCached(stem, ptr, K, N, aq, T, stride);
      KeptTwice(old(programs), known, programs, stem);
    }

    /** Lookup and run together: a throw in the lookup ends the call. */
    lemma Together(faults: nat -> bool, from: nat, mid: nat, to: nat, lookup: nat, run: nat, accepted: bool, found: bool, ok: bool)
      requires accepted ==> Attempted(faults, from, mid, lookup, found)
      requires if found then accepted && Attempted(faults, mid, to, run, ok) else !ok && to == mid
      ensures accepted ==> Attempted(faults, from, to, lookup + run, ok)
      ensures ok <==> accepted && NoFault(faults, from, from + (lookup + run))
    {
      if found { AttemptedThen(faults, from, mid, to, lookup, run, ok); }
      if accepted { SucceedsExactly(faults, from, to, lookup + run, ok); }
    }

    /** The uploads a call lost: those that completed before an upload of its entry threw. */
    function Lost(f: set<Ptr>, f': set<Ptr>, m: map<Ptr, Resident>, p: map<string, Program>, made: int,
                  stem: string, ptr: Ptr, K: nat, N: nat): nat
    {
      if Accepts(f, m, ptr, K, N) && ptr in f' then Completed(made, Creation(p, stem)) else 0
    }

    /** Row t of the accumulator, converted and scaled into row t of dst. */
    method EpilogueRow(fp: Float32, N: nat, t: nat, post: real, dst: array<real>, stride: nat)
      requires N <= stride && (t + 1) * N <= gAcc.Length && (t + 1) * stride <= dst.Length
      modifies dst
      ensures forall r, j ::
                At(dst[..], stride, r, j, 0.0)
                == if r == t && 0 <= j < N then fp.mul(fp.rnd(At(gAcc[..], N, t, j, 0) as real), post)
                   else old(At(dst[..], stride, r, j, 0.0))
    {
      assert (t + 1 - 1) * N + 0 + N == (t + 1) * N;
      CombineWindow(dst, stride, t, 0, gAcc[..], N, t, 0, 1, N, (_: real, acc: int) => fp.mul(fp.rnd(acc as real), post), 0.0, 0);
    }

    /** bitnet_xdna_epilogue: scale rows [rowBegin, rowEnd) of the accumulator into dst. */
    method Epilogue(fp: Float32, N: nat, rowBegin: nat, rowEnd: nat, actScales: seq<real>, ws: real,
                    dst: array<real>, stride: nat)
      requires rowBegin <= rowEnd <= |actScales| && N <= stride
      requires rowEnd * N <= gAcc.Length && rowEnd * stride <= dst.Length
      modifies dst
      ensures forall t, j ::
                At(dst[..], stride, t, j, 0.0)
                == if rowBegin <= t < rowEnd && 0 <= j < N
                   then fp.mul(fp.rnd(At(gAcc[..], N, t, j, 0) as real), fp.div(ws, actScales[t]))
                   else old(At(dst[..], stride, t, j, 0.0))
    {
      for t := rowBegin to rowEnd
        invariant forall r, j ::
                    At(dst[..], stride, r, j, 0.0)
                    == if rowBegin <= r < t && 0 <= j < N
                       then fp.mul(fp.rnd(At(gAcc[..], N, r, j, 0) as real), fp.div(ws, actScales[r]))
                       else old(At(dst[..], stride, r, j, 0.0))
      {
        MulMono(t + 1, rowEnd, N);
        MulMono(t + 1, rowEnd, stride);
        EpilogueRow(fp, N, t, fp.div(ws, actScales[t]), dst, stride);
      }
    }

    /** bitnet_xdna_mul_mat: accumulate, then the whole epilogue; a failure writes nothing. */
    method MulMat(fp: Float32, stem: string, ptr: Ptr, K: nat, N: nat, aq: seq<Int8>, T: nat, aStride: nat,
                  actScales: seq<real>, ws: real, dst: array<real>, stride: nat) returns (ok: bool)
      requires Valid() && Request(ptr, K, N) && (Supports(K, N) ==> BatchFits(aq, aStride, T, K))
      requires T <= |actScales| && N <= stride && T * stride <= dst.Length && dst !in repr
      modifies repr, dst
      ensures Valid()
      ensures ok <==> old(Accepts(failed, resident, ptr, K, N))
                      && NoFault(device.faults, old(device.attempts),
                                 old(device.attempts + Due(programs, resident, stem, ptr, K, N, T)))
      ensures !ok ==> dst[..] == old(dst[..])
      ensures ok ==>
                forall t, j ::
                  At(dst[..], stride, t, j, 0.0)
                  == if 0 <= t < T && 0 <= j < N
                     then fp.mul(fp.rnd(Wrap32(Dot(Acts(aq, aStride, T, K), Ternary(Bytes(ptr), K, N), t, j, 0, K)) as real),
                                 fp.div(ws, actScales[t]))
                     else old(At(dst[..], stride, t, j, 0.0))
    {
      ok := AccumulateBatch(stem, ptr, K, N, aq, T, aStride);
      if ok {
        Epilogue(fp, N, 0, T, actScales, ws, dst, stride);
      }
    }
  }

  /** One accumulate request of a run. */
  datatype Call = Call(stem: string, ptr: Ptr, K: nat, N: nat, aq: seq<Int8>, T: nat, stride: nat)

  predicate CallOk(rt: Runtime, c: Call)
  {
    rt.Request(c.ptr, c.K, c.N) && (rt.Supports(c.K, c.N) ==> BatchFits(c.aq, c.stride, c.T, c.K))
  }

  predicate SameShape(c: Call, d: Call) {
    c.K == d.K && c.N == d.N
  }

  /** What can be seen of the runtime between two calls of a run. */
  datatype Seen = Seen(failed: set<Ptr>, resident: map<Ptr, Resident>, programs: map<string, Program>,
                       acc: seq<int>, bytes: nat, dropped: nat, attempts: nat)

  ghost function Snapshot(rt: Runtime): Seen
    reads rt, rt.gAcc, rt.device
  {
    Seen(rt.failed, rt.resident, rt.programs, rt.gAcc[..], rt.residentBytes, rt.dropped, rt.device.attempts)
  }

  /** The accumulator contents are the product the call asked for. */
  ghost predicate Answered(rt: Runtime, c: Call, acc: seq<int>) {
    IsProduct(acc, c.aq, c.stride, c.T, c.K, c.N, rt.Bytes(c.ptr))
  }

  /** The pointer is cached with the call's shape. */
  predicate Served(entries: map<Ptr, Resident>, c: Call) {
    c.ptr in entries && entries[c.ptr].K == c.K && entries[c.ptr].N == c.N
  }

  /** Programs are never replaced, and only the requested stem can gain one. */
  ghost predicate KeepsPrograms(before: map<string, Program>, after: map<string, Program>, stem: string) {
    before.Keys <= after.Keys <= before.Keys + {stem} && KeepsAll(before, after)
  }

  lemma KeptTwice(before: map<string, Program>, between: map<string, Program>, after: map<string, Program>, stem: string)
    requires KeepsPrograms(before, between, stem) && KeepsPrograms(between, after, stem)
    ensures KeepsPrograms(before, after, stem)
  {
  }

  predicate KeepsAll<K, V(==)>(before: map<K, V>, after: map<K, V>) {
    forall k :: k in before ==> k in after && after[k] == before[k]
  }

  /** Everything one call does to what can be seen: an acceptable one makes the attempts it is
      due until one throws and succeeds exactly if none does, any other makes none and fails; it
      changes the record and the cache as one lookup does, loses the uploads a throw cut off, and
      the byte counter stays explained. */
  ghost predicate Answers(rt: Runtime, c: Call, ok: bool, s: Seen, s': Seen)
  {
    && (if rt.Accepts(s.failed, s.resident, c.ptr, c.K, c.N)
        then Attempted(rt.device.faults, s.attempts, s'.attempts,
                       rt.Due(s.programs, s.resident, c.stem, c.ptr, c.K, c.N, c.T), ok)
        else !ok && s'.attempts == s.attempts)
    && s'.dropped == s.dropped + rt.Lost(s.failed, s'.failed, s.resident, s.programs, s'.attempts - s.attempts,
                                         c.stem, c.ptr, c.K, c.N)
    && rt.CacheStep(s.failed, s'.failed, s.resident, s'.resident, c.ptr, c.K, c.N)
    && KeepsPrograms(s.programs, s'.programs, c.stem)
    && (ok ==> Answered(rt, c, s'.acc) && Served(s'.resident, c) && c.stem in s'.programs && c.ptr !in s'.failed)
    && (c.ptr in s.failed ==> s'.acc == s.acc)
    && s'.bytes == rt.ChunkBytes() * ChunkSum(s'.resident) + rt.ChunkBytes() * s'.dropped
  }

  /** One call of a run. */
  method OneCall(rt: Runtime, c: Call) returns (ok: bool, acc: seq<int>)
    requires rt.Valid() && CallOk(rt, c)
    modifies rt.repr
    ensures rt.Valid() && fresh(rt.repr - old(rt.repr))
    ensures Answers(rt, c, ok, old(Snapshot(rt)), Snapshot(rt)) && acc == rt.gAcc[..]
  {
    ok := rt.AccumulateBatch(c.stem, c.ptr, c.K, c.N, c.aq, c.T, c.stride);
    acc := rt.gAcc[..];
  }

  /** What can be seen before the first call and after each one. */
  ghost predicate IsTrace(rt: Runtime, calls: seq<Call>, oks: seq<bool>, trace: seq<Seen>)
  {
    && |oks| <= |calls| && |trace| == |oks| + 1
    && forall i :: 0 <= i < |oks| ==> Answers(rt, calls[i], oks[i], trace[i], trace[i + 1])
  }

  /** Any run of requests with any faults: every call acts as one call does, on what the calls
      before it left. */
  method RunCalls(rt: Runtime, calls: seq<Call>) returns (oks: seq<bool>, accs: seq<seq<int>>, ghost trace: seq<Seen>)
    requires rt.Valid() && forall i :: 0 <= i < |calls| ==> CallOk(rt, calls[i])
    modifies rt.repr
    ensures rt.Valid() && |oks| == |accs| == |calls| && IsTrace(rt, calls, oks, trace)
    ensures trace[0] == old(Snapshot(rt)) && trace[|calls|] == Snapshot(rt)
    ensures forall i :: 0 <= i < |calls| && oks[i] ==> Answered(rt, calls[i], accs[i])
  {
    oks, accs, trace := [], [], [Snapshot(rt)];
    for n := 0 to |calls|
      invariant rt.Valid() && |oks| == |accs| == n && fresh(rt.repr - old(rt.repr))
      invariant IsTrace(rt, calls, oks, trace) && trace[0] == old(Snapshot(rt)) && trace[n] == Snapshot(rt)
      invariant forall i :: 0 <= i < n ==> accs[i] == trace[i + 1].acc
    {
      var ok, acc := OneCall(rt, calls[n]);
      TraceExtend(rt, calls, oks, trace, ok, Snapshot(rt));
      oks, accs, trace := oks + [ok], accs + [acc], trace + [Snapshot(rt)];
    }
    forall i | 0 <= i < |calls| && oks[i] ensures Answered(rt, calls[i], accs[i]) {
      assert Answers(rt, calls[i], oks[i], trace[i], trace[i + 1]);
    }
  }

  lemma TraceExtend(rt: Runtime, calls: seq<Call>, oks: seq<bool>, trace: seq<Seen>, ok: bool, s: Seen)
    requires IsTrace(rt, calls, oks, trace) && |oks| < |calls|
    requires Answers(rt, calls[|oks|], ok, trace[|oks|], s)
    ensures IsTrace(rt, calls, oks + [ok], trace + [s])
  {
    var oks', trace' := oks + [ok], trace + [s];
    forall i | 0 <= i < |oks'| ensures Answers(rt, calls[i], oks'[i], trace'[i], trace'[i + 1]) {
      if i < |oks| { assert Answers(rt, calls[i], oks[i], trace[i], trace[i + 1]); }
    }
  }

  /** Nothing recorded, cached, created or dropped is ever taken back. */
  lemma {:induction false} TraceGrows(rt: Runtime, calls: seq<Call>, oks: seq<bool>, trace: seq<Seen>, i: nat, j: nat)
    requires IsTrace(rt, calls, oks, trace) && i <= j < |trace|
    ensures trace[i].failed <= trace[j].failed && trace[i].dropped <= trace[j].dropped
    ensures KeepsAll(trace[i].resident, trace[j].resident) && KeepsAll(trace[i].programs, trace[j].programs)
    decreases j
  {
    if i < j {
      TraceGrows(rt, calls, oks, trace, i, j - 1);
      assert Answers(rt, calls[j - 1], oks[j - 1], trace[j - 1], trace[j - 1 + 1]);
    }
  }

  /** Over any run: a failed pointer is refused from then on with the accumulator untouched, a
      pointer is only ever served with one shape, and one stem has one program. */
  lemma RunFacts(rt: Runtime, calls: seq<Call>, oks: seq<bool>, trace: seq<Seen>, i: nat, j: nat)
    requires IsTrace(rt, calls, oks, trace) && i < j < |oks|
    ensures calls[j].ptr in trace[i + 1].failed ==> !oks[j] && trace[j + 1].acc == trace[j].acc
    ensures oks[i] && calls[j].ptr == calls[i].ptr && !SameShape(calls[i], calls[j]) ==>
              !oks[j] && calls[j].ptr in trace[j + 1].failed
    ensures oks[i] && oks[j] && calls[i].stem == calls[j].stem ==>
              && calls[i].stem in trace[i + 1].programs && calls[i].stem in trace[j + 1].programs
              && trace[i + 1].programs[calls[i].stem] == trace[j + 1].programs[calls[i].stem]
  {
    assert Answers(rt, calls[i], oks[i], trace[i], trace[i + 1]);
    assert Answers(rt, calls[j], oks[j], trace[j], trace[j + 1]);
    TraceGrows(rt, calls, oks, trace, i + 1, j);
    if oks[i] && calls[j].ptr == calls[i].ptr && !SameShape(calls[i], calls[j]) {
      OtherShape(rt, calls[j], oks[j], trace[j], trace[j + 1]);
    }
    if oks[i] && oks[j] { SameProgram(rt, calls, oks, trace, i, j); }
  }

  /** A cached pointer asked for another shape is refused and recorded. */
  lemma OtherShape(rt: Runtime, c: Call, ok: bool, s: Seen, s': Seen)
    requires Answers(rt, c, ok, s, s') && c.ptr in s.resident && !Served(s.resident, c)
    ensures !ok && c.ptr in s'.failed
  {
  }

  lemma SameProgram(rt: Runtime, calls: seq<Call>, oks: seq<bool>, trace: seq<Seen>, i: nat, j: nat)
    requires IsTrace(rt, calls, oks, trace) && i < j < |oks| && oks[i] && oks[j]
    ensures calls[i].stem == calls[j].stem ==>
              && calls[i].stem in trace[i + 1].programs && calls[i].stem in trace[j + 1].programs
              && trace[i + 1].programs[calls[i].stem] == trace[j + 1].programs[calls[i].stem]
  {
    assert Answers(rt, calls[i], oks[i], trace[i], trace[i + 1]);
    TraceGrows(rt, calls, oks, trace, i + 1, j + 1);
  }

  /** A pointer once served and always asked for with one shape is never recorded, whatever
      throws in between; asked for again, it is due no upload and served exactly if none of the
      attempts it is due throws. */
  lemma {:induction false} ServedStays(rt: Runtime, calls: seq<Call>, oks: seq<bool>, trace: seq<Seen>, i: nat, n: nat)
    requires IsTrace(rt, calls, oks, trace) && i < n <= |oks| && oks[i]
    requires forall j :: i < j < n && calls[j].ptr == calls[i].ptr ==> SameShape(calls[i], calls[j])
    ensures calls[i].ptr !in trace[n].failed && Served(trace[n].resident, calls[i])
    ensures n < |oks| && calls[n].ptr == calls[i].ptr && SameShape(calls[i], calls[n]) ==>
              (oks[n] <==> NoFault(rt.device.faults, trace[n].attempts,
                                   trace[n].attempts + rt.RunDue(trace[n].programs, calls[n].stem, calls[n].K,
                                                                 calls[n].N, calls[n].T)))
    decreases n
  {
    assert Answers(rt, calls[n - 1], oks[n - 1], trace[n - 1], trace[n - 1 + 1]);
    if i < n - 1 {
      ServedStays(rt, calls, oks, trace, i, n - 1);
    }
    if n < |oks| {
      assert Answers(rt, calls[n], oks[n], trace[n], trace[n + 1]);
    }
  }

  /** From a fresh runtime the byte counter equals the bytes of the cached entries exactly when
      no call dropped chunks it had uploaded. */
  lemma CounterOverRun(rt: Runtime, calls: seq<Call>, oks: seq<bool>, trace: seq<Seen>, n: nat)
    requires IsTrace(rt, calls, oks, trace) && n < |trace|
    requires trace[0].dropped == 0 && trace[0].bytes == rt.ChunkBytes() * ChunkSum(trace[0].resident)
    ensures trace[n].bytes == rt.ChunkBytes() * ChunkSum(trace[n].resident)
            <==> forall i :: 0 <= i < n ==> trace[i].dropped == trace[i + 1].dropped
  {
    MulMono(1, rt.tile.k, rt.tile.n);
    DroppedNothing(rt, calls, oks, trace, n);
    if n > 0 {
      assert Answers(rt, calls[n - 1], oks[n - 1], trace[n - 1], trace[n - 1 + 1]);
      NoExtra(rt.ChunkBytes(), ChunkSum(trace[n].resident), trace[n].dropped);
    }
  }

  lemma NoExtra(b: nat, x: nat, d: nat)
    requires 0 < b
    ensures b * x + b * d == b * x <==> d == 0
  {
    if d > 0 { MulMono(1, d, b); }
  }

  lemma {:induction false} DroppedNothing(rt: Runtime, calls: seq<Call>, oks: seq<bool>, trace: seq<Seen>, n: nat)
    requires IsTrace(rt, calls, oks, trace) && n < |trace| && trace[0].dropped == 0
    ensures trace[n].dropped == 0 <==> forall i :: 0 <= i < n ==> trace[i].dropped == trace[i + 1].dropped
  {
    if n > 0 {
      DroppedNothing(rt, calls, oks, trace, n - 1);
      assert Answers(rt, calls[n - 1], oks[n - 1], trace[n - 1], trace[n - 1 + 1]);
    }
  }
}
