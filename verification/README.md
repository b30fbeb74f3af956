# BitNet XDNA offload: a verified model

The repository runs the ternary matrix products of BitNet-2B on an NPU. Each product is cut
into fixed-size, zero-padded chunks for one compiled program; part of the token batch stays on
the CPU at the same time; the result is promised to be bit-identical to a naive integer loop.
This project models that path in Dafny, from packed weights to output floats, and proves the
promise on all shapes, batches, buffer contents, faults and interleavings.

`dafny verify dfyconfig.toml` checks everything.

## How it fits together

| part | modules |
|---|---|
| flat buffers, dot products, int32 wrap-around, row transfers | `Matrix`, `Buffers` |
| I2_S packing, integer oracle, activation quantiser, exactness in binary32 | `I2S`, `Oracle`, `Quantiser`, `Exactness` |
| one program with host and device buffers; chunked GEMM; runtime with cache and failure record | `XdnaProgram`, `ChunkedGemm`, `XdnaRuntime`, `Refinement` |
| gate, token split, thread shards, CPU loop | `TokenSplit`, `Shards` |
| fork/join protocol as a state machine; safety over every run; every call ends; when its barriers suffice; requests as calls | `ForkJoin`, `ForkJoinSafety`, `ForkJoinTermination`, `ForkJoinRace`, `MulMatCall`, `RaceWitness` |
| 4 x cols array: stream layouts, schedule, tile streams, FIFO network, product | `StreamDims`, `TileKernel`, `ArraySchedule`, `ArrayStreams`, `ArrayTiles`, `GridNetwork`, `ArrayProduct` |
| int8 x int4 kernel and its packers | `Nibbles`, `MicroTiles`, `Int4Kernel` |
| coordinate digest | `CoordDigest` |

Buffers are row-major sequences seen as total matrices (`View`, `At`), so padding, strides and
stale contents need no special case. Code that updates buffers, maps or flags is a method or a
class proved against functions on those views; the protocol and the array are state machines
whose runs are sequences of states. Which attempts on the device throw is an input: a schedule
of faults indexed by a count of program creations, uploads and dispatches. The environment, the device answer, the weight memory and the artifact stem are inputs.

A `Float32` carries uninterpreted multiplication and division and a rounding that keeps
representable values, so "bit-identical" means the same operation on the same arguments; every
output is stated in these operations, `mul(rnd(x), div(ws, scale))`.

The int8 x int4 kernel starts with an unconditional load and multiplication, so it needs at
least one column block; `0 < K` and `0 < repeat` in `GemmI8I4` say just that.

## What turned out to need a condition

- Token split: fractions near or at one and overrides that do not fit hand over a batch that is
  not a tile multiple (`WholeTilesFails`); `WholeTiles` and `HeaderPromise` give the exact
  condition over all settings. `runtime/bitnet_xdna.h:39` promises a tile multiple without it.
  With a fraction of zero the share is not monotone (`ZeroFractionDrops`).
- CPU columns: rounding shards up to four covers the tensor exactly when ne01 is a multiple of
  four (`ColsPartition`); every shape the plan accepts is.
- After an NPU failure threads leave the block without a second barrier. That is safe exactly
  when graph nodes are separated by a barrier, as ggml does, or there is one thread, or no
  failed call is followed by a successful one (`GuardIsExact`); `RaceWitness.NodeBarrierNeeded`
  is an execution on receivable requests that goes wrong otherwise.
- binary32 holds every biased accumulator exactly just up to K = 65536 for int8 activations, and
  up to K = 66052 for rows the quantiser can store; the theorems call these exact widths.
- Nibble packing and I2_S packing lose nothing exactly for values that fit their fields.

## Where the code was followed against its comments

- `runtime/bitnet_xdna.h:9` gives a default threshold of 64 tokens; the code starts at 1024 and
  raises any smaller setting to 1024 (`runtime/bitnet_xdna.cpp:122`, `:285`).
- `runtime/bitnet_xdna.cpp:49-51` describes 2 x 3456 chunks; the code pads 6912 to three chunks
  of 2560.
- Asking for a resident pointer with another shape records that pointer as failed for good, so
  even the shape it was cached with is refused afterwards (`runtime/bitnet_xdna.cpp:174`, `:209`).
- The byte counter also counts chunks of an entry that is dropped because a later upload throws
  (`runtime/bitnet_xdna.cpp:193`).
- The digest covers every byte of the struct, padding included, though its comment speaks of the
  meaningful bytes (`runtime/bitnet_coord.c:51`).

## Model

| member | source | states |
|---|---|---|
| `MulMatCall.OutputIsReference` | patches/001-bitnet-xdna.patch:70-147 | End to end: any number of threads and any interleaving over any sequence of ternary requests of an exact width, with accumulate handing over any buffer it can (the product of the NPU share on success, anything on failure), where barriers suffice. Once every thread has left a call, each output ends as the integer difference of biased accumulator and activation sum, converted, times the quotient ws / token scale |
| `MulMatCall.ProtocolOutput` | patches/001-bitnet-xdna.patch:70-147 | The same for every run of the protocol |
| `MulMatCall.RequestAnswered` | patches/001-bitnet-xdna.patch:70-147 | Such runs exist for every sequence of requests and outcomes, with and without a barrier between graph nodes, and they leave every call: each output of each call is reached and is the reference value |
| `MulMatCall.EngineProgress` | patches/001-bitnet-xdna.patch:78-141 | From every state such runs reach, the real system has a next step that is not a write into the accumulator |
| `MulMatCall.EngineRunIsRun` | patches/001-bitnet-xdna.patch:78-82 | Runs in which thread 0 carries real accumulate buffers are runs of the protocol |
| `MulMatCall.OutcomeFinishes` | patches/001-bitnet-xdna.patch:78-82 | Every outcome accumulate can have is a step the protocol allows thread 0 |
| `MulMatCall.Accumulate` | runtime/bitnet_xdna.cpp:339-422 | The runtime call of thread 0 has such an outcome, whatever its cache holds and the device does; it succeeds if and only if the request is acceptable and none of the attempts it is due throws |
| `MulMatCall.CallIsValid` | patches/001-bitnet-xdna.patch:94-123 | For an exact width and ternary weights, the CPU value and the NPU value of every output of a request are the same bits, which is what the protocol needs to mix them |
| `MulMatCall.SameNumber` | patches/001-bitnet-xdna.patch:106-123 | The numbers the engines multiply by the factor of the token: the rounded difference of the CPU loop, the converted signed accumulator and the converted integer difference are one |
| `MulMatCall.ProductHolds` | patches/001-bitnet-xdna.patch:79-82 | What a successful accumulate leaves in the shared buffer is the accumulator the epilogue threads rely on, with nothing lost to int32 |
| `MulMatCall.RefIsReference` | runtime/bitnet_i2s.c:80-89 | The value the protocol is judged against is what the reference epilogue computes: the converted difference times ws / token scale |
| `MulMatCall.EnginesAgree` | patches/001-bitnet-xdna.patch:106-123 | One output: the CPU formula with the float activation sum equals the converted signed accumulator times ws / token scale |
| `XdnaRuntime.Runtime.AccumulateBatch` | runtime/bitnet_xdna.cpp:339-422 | A request is served if and only if its pointer is not recorded, its shape is supported (or that of its entry) and none of the attempts it is due throws: program creation on first use, chunk uploads unless cached, ceil(T/m)*nChunks*kChunks dispatches, made in this order up to the first throw. Success means the shared accumulator is the signed ternary product of the batch for any shape, stride and stale contents; a pointer is newly recorded exactly when no entry of the requested shape is left, so a throwing dispatch records nothing; dropped uploads are exactly those a throw cut off |
| `XdnaRuntime.Runtime.DueCounts` | runtime/bitnet_xdna.cpp:181-386 | The attempts due in closed form: one if the program is not there yet, and per chunk one upload if the tensor is not cached and one dispatch per token tile |
| `XdnaRuntime.Runtime.LookupStep` | runtime/bitnet_xdna.cpp:204-218 | What every outcome of a lookup does to failure record and cache; an acceptable pointer is recorded exactly when its lookup throws |
| `XdnaRuntime.Runtime.GetResident` | runtime/bitnet_xdna.cpp:168-202 | Refuses recorded failures and shape changes without an attempt, returns the cached entry unchanged and without an attempt, and otherwise makes the program creation and uploads due; a new entry is what rebuilding its chunks would give, and nothing is cached when one throws |
| `XdnaRuntime.Runtime.GetResidentLogged` | runtime/bitnet_xdna.cpp:204-218 | A pointer is recorded exactly when the lookup leaves it without an entry of the requested shape; success leaves the record alone |
| `XdnaRuntime.Runtime.MakeResident` | runtime/bitnet_xdna.cpp:181-201 | Building an entry yields chunks equal to the slabs of the tensor and caches it; after a throw nothing is cached and exactly the uploads completed before it are counted without an entry |
| `XdnaRuntime.Runtime.CounterExact` | runtime/bitnet_xdna.cpp:193-193 | The byte counter equals the bytes of the cached entries if and only if no uploaded chunk was ever dropped |
| `XdnaRuntime.UploadAll` | runtime/bitnet_xdna.cpp:189-194 | N outside K: chunk q is slab (q / kChunks, q % kChunks), also for the chunks pushed before an upload that throws |
| `XdnaRuntime.UploadEntry` | runtime/bitnet_xdna.cpp:183-194 | All chunks as an entry, or, at the first upload that throws, none and the count of those completed before it |
| `XdnaRuntime.UploadChunk` | runtime/bitnet_xdna.cpp:191-192 | One uploaded chunk is its slab of signed weights, a device copy of its own |
| `XdnaRuntime.PushedIsResident` | runtime/bitnet_xdna.cpp:385-386 | Reading at nc*kChunks+kc in the K-outside-N loop finds the chunk pushed for (nc, kc) in the N-outside-K loop |
| `XdnaRuntime.Runtime.ProgramFor` | runtime/bitnet_xdna.cpp:90-98 | At most one program per artifact stem, never replaced; a throw leaves the map unchanged |
| `XdnaRuntime.Runtime.GrowAcc` | runtime/bitnet_xdna.cpp:348-348 | The accumulator grows to exactly the size asked for, never shrinks, and keeps what it held |
| `XdnaRuntime.Runtime.RunResident` | runtime/bitnet_xdna.cpp:346-421 | The dispatching half: served if and only if neither program creation nor a dispatch throws, with product and dispatch count; a throw changes only scratch state |
| `XdnaRuntime.Runtime.Epilogue` | runtime/bitnet_xdna.cpp:424-434 | Exactly rows [begin, end) of dst are rewritten, each cell the converted accumulator times ws / token scale; everything else, also inside a wider stride, is kept |
| `XdnaRuntime.Runtime.MulMat` | runtime/bitnet_xdna.cpp:325-337 | Succeeds exactly as accumulate does; otherwise returns 0 with dst untouched. Success writes the converted product times ws / token scale in all T x N cells and nothing else |
| `XdnaRuntime.RunCalls` | runtime/bitnet_xdna.cpp:163-218 | Any run of requests with any faults is a sequence of single calls, each acting on what the calls before it left, and every success is right |
| `XdnaRuntime.RunFacts` | runtime/bitnet_xdna.cpp:88-218 | Over any run: a failed pointer is refused from then on with the accumulator untouched, a pointer is only ever served with one shape, and one stem has one program |
| `XdnaRuntime.ServedStays` | runtime/bitnet_xdna.cpp:163-218 | Over any run: a pointer once served and always asked for with one shape is never recorded, whatever dispatches throw in between; asked for again it is due no upload and is served if and only if none of its attempts throws |
| `XdnaRuntime.TraceGrows` | runtime/bitnet_xdna.cpp:88-113 | Nothing recorded, cached, created or dropped is taken back along a run |
| `XdnaRuntime.CounterOverRun` | runtime/bitnet_xdna.cpp:193-193 | From a fresh runtime the byte counter is right after a run if and only if no call of it dropped chunks it had uploaded |
| `XdnaRuntime.OneCall` | runtime/bitnet_xdna.cpp:339-345 | Everything one call does to failure record, cache, programs, accumulator, attempts, dropped chunks and byte counter |
| `XdnaRuntime.Runtime.constructor` | runtime/bitnet_xdna.cpp:88-113 | The initial state is consistent, with nothing cached and nothing failed |
| `XdnaRuntime.Runtime.BitNet2B` | runtime/bitnet_xdna.cpp:36-61 | The shipped instance: 1024 x 2560 x 2560 tiles, and exactly the shapes with K and N in {2560, 6912} are supported |
| `XdnaRuntime.BitNetShapes` | runtime/bitnet_xdna.cpp:52-61 | Their plans: 2560 is one chunk, 6912 three, on either side; every other shape has none |
| `ChunkedGemm.AccumulateTiles` | runtime/bitnet_xdna.cpp:356-420 | Token, K and N loops together: served if and only if none of its ceil(T/m)*kChunks*nChunks dispatches throws, stopping at the first that does; then acc is the product reduced to int32, after ceil(T/m)*kChunks activation syncs |
| `ChunkedGemm.TokenTile` | runtime/bitnet_xdna.cpp:359-419 | One token tile writes exactly its rows, each cell the sum over the true K columns; padding contributes nothing |
| `ChunkedGemm.TileSum` | runtime/bitnet_xdna.cpp:399-418 | The copy-out form for one K slice and the summing form for several give the same padded sum |
| `ChunkedGemm.SumSlices` | runtime/bitnet_xdna.cpp:361-413 | The partial buffer holds the sum over all K slices, whatever it held before |
| `ChunkedGemm.AddSlice` | runtime/bitnet_xdna.cpp:368-412 | One more K slice extends every partial sum by its columns, wrapping as int32 does |
| `ChunkedGemm.KSlice` | runtime/bitnet_xdna.cpp:368-413 | One sync, then all N chunks: each column of the window is combined with the product over this slice exactly once; rows outside are kept |
| `ChunkedGemm.ChunkStep` | runtime/bitnet_xdna.cpp:380-411 | One chunk changes only its window |
| `ChunkedGemm.DispatchChunk` | runtime/bitnet_xdna.cpp:385-386 | Dispatch is only made on a coherent A (device copy = host copy = current slice, zero extended) and gives a block of the true product over the columns of the slice |
| `ChunkedGemm.StageA` | runtime/bitnet_xdna.cpp:369-377 | After staging, every cell of the mapped buffer is the slice, zero beyond the last token and column, though it is cleared only for short slices |
| `ChunkedGemm.BuildBkn` | runtime/bitnet_xdna.cpp:146-161 | The slab is the signed weights of its chunk, zero in every padded row and column |
| `ChunkedGemm.BuildRow` | runtime/bitnet_xdna.cpp:155-159 | One weight row fills its slab row and no other |
| `ChunkedGemm.DotTrim` | runtime/bitnet_xdna.cpp:39-42 | Padded K columns add nothing to a sum |
| `ChunkedGemm.SliceStep` | runtime/bitnet_xdna.cpp:404-409 | Wrapped partial sums of adjacent column ranges add up to the wrapped sum of their union |
| `ChunkedGemm.CeilDiv` | runtime/bitnet_xdna.cpp:58-59 | Chunk counts cover the size with less than one chunk to spare |
| `XdnaProgram.Program.SyncA` | runtime/xdna_gemm.cpp:103-109 | The only host-to-device copy of A: afterwards device and host agree |
| `XdnaProgram.Program.RunMappedPresynced` | runtime/xdna_gemm.cpp:116-141 | One attempt: completes with C the product of the device copies of A and B and one more dispatch counted, or throws |
| `XdnaProgram.Program.Upload` | runtime/xdna_gemm.cpp:91-98 | One attempt: the uploaded weights are a snapshot of the slab, or the call throws |
| `XdnaProgram.Program.Run` | runtime/xdna_gemm.cpp:143-147 | Copy in, sync, dispatch, copy out: C is the product of the arguments |
| `XdnaProgram.Device.Attempt` | runtime/xdna_gemm.cpp:91-141 | One attempt on the device throws or completes as the schedule of faults says |
| `XdnaProgram.SucceedsExactly` | runtime/bitnet_xdna.cpp:359-420 | Work that stops at its first throw succeeds if and only if none of the attempts due throws |
| `Buffers.CombineWindow` | runtime/bitnet_xdna.cpp:374-377 | A row-by-row transfer changes exactly its window, each cell by the given combination of old and source cell |
| `Refinement.RefinesReference` | runtime/bitnet_xdna.cpp:143-146 | Each accumulator cell equals the reference accumulator of the row-wise copied activations minus their sum, as int32, for any shape, batch, stride and bytes behind the packed weights |
| `Refinement.SameBits` | runtime/bitnet_xdna.cpp:424-434 | For an exact width the accumulator is the biased sum minus the activation sum, and NPU, CPU and reference epilogues multiply the same number by the factor of the token |
| `Refinement.OracleReadsCodes` | runtime/bitnet_i2s.c:32-37 | The matrix the oracle reads holds the packed code of every weight |
| `Refinement.ApplyEpilogue` | runtime/bitnet_i2s.c:80-89 | Every output of the reference epilogue: the integer difference of accumulator and sum of its token, converted, times ws / token scale |
| `Oracle.RefAccumulate` | runtime/bitnet_i2s.c:64-78 | The triple loop computes every dot product of activations with codes, wrapping in int32 at each step |
| `Oracle.OffsetIdentity` | runtime/bitnet_i2s.c:39-41 | Biased sum minus activation sum is the signed ternary sum |
| `Exactness.BitIdentical` | runtime/bitnet_i2s.c:80-89 | Up to 65536 columns of int8, or 66052 of activations no lower than -127, no int32 accumulator overflows and the three epilogues scale the same number |
| `Exactness.ExactUpTo65536` | patches/001-bitnet-xdna.patch:106-111 | Every int8 input has a biased accumulator exact in binary32 (section 3.3 of IEEE 754-2019) if and only if K is at most 65536 |
| `Exactness.ExactUpTo66052` | patches/001-bitnet-xdna.patch:106-111 | Every input no lower than -127, as the quantiser stores, has one if and only if K is at most 66052 |
| `Exactness.PartialSums` | runtime/bitnet_xdna.cpp:404-406 | Bounds of biased, activation and signed sums for every prefix of the K loop |
| `Exactness.Float32.SameValue` | patches/001-bitnet-xdna.patch:108-111 | Operands within 2^24 lose nothing in conversion or subtraction |
| `I2S.UnpackPack` | tests/test_i2s_packing.c:22-32 | Unpacking inverts packing if and only if every code fits two bits, for rows of any number of whole blocks |
| `I2S.PackUnpack` | tests/test_i2s_packing.c:22-32 | Packing inverts unpacking for every byte string of whole blocks: the fields never collide and cover all bits |
| `I2S.PackRow` | tests/test_i2s_packing.c:22-32 | The OR loops compute the packing function |
| `I2S.UnpackRow` | runtime/bitnet_i2s.c:11-26 | The block, group and lane loops give the code of every weight of whole blocks and write nothing else |
| `I2S.UnpackMatrix` | runtime/bitnet_i2s.c:32-37 | Row by row unpacking is unpacking of the whole byte string |
| `I2S.UnpackedCell` | runtime/bitnet_i2s.c:32-37 | Cell (n, k) of the matrix is code k of packed row n |
| `I2S.FieldsDisjoint` | runtime/bitnet_i2s.c:12-16 | Four two-bit codes in one byte are recovered separately |
| `I2S.BitOrder` | runtime/bitnet_i2s.c:11-26 | The order on literal bytes: weights 0, 32, 64 and 96 from the highest bits of byte 0 down, weights 1, 33, 65 and 97 in byte 1 |
| `Quantiser.Quantise` | runtime/bitnet_i2s.c:43-62 | For every real row: the largest element, if it reaches 1e-5, is scaled to exactly 127 and stored as 127 or -127; a row below that is scaled by 127 / 1e-5; every code is nearest to its scaled value with ties away from zero, no clamp is active, the dequantised error is at most half a step, and the sum is that of the codes |
| `Quantiser.MaxMagnitude` | runtime/bitnet_i2s.c:45-49 | The first pass finds the largest magnitude |
| `Quantiser.StoredAt` | runtime/bitnet_i2s.c:54-58 | One code: in range, nearest, and +-127 for an element of the largest magnitude |
| `Quantiser.RowScaled` | runtime/bitnet_i2s.c:50-51 | Clipping the maximum at 1e-5 leaves every row that reaches it scaled by its own largest element |
| `Quantiser.NoClamp` | runtime/bitnet_i2s.c:55-56 | Neither clamp can fire |
| `Quantiser.SumFits` | runtime/bitnet_i2s.c:52-60 | The sum is within 127 per element, so int32 holds it |
| `Quantiser.RowSum` | runtime/bitnet_i2s.c:59-61 | The quantiser's sum is the activation sum the epilogues subtract |
| `Quantiser.RowExact` | runtime/bitnet_i2s.c:54-60 | Stored rows have exact biased accumulators up to 66052 columns |
| `TokenSplit.WholeTiles` | runtime/bitnet_xdna.cpp:298-323 | Over every override, fraction and batch: the share is a tile multiple if and only if the last tile fits or the batch is one; otherwise it is the whole batch |
| `TokenSplit.HeaderPromise` | runtime/bitnet_xdna.h:39-40 | The promise of whole tiles, or a whole small batch, is kept if and only if the batch is at most one tile or the share fits |
| `TokenSplit.WholeTilesFails` | runtime/bitnet_xdna.cpp:304-321 | 1900 tokens with fraction 0.9, fraction 1 or two forced tiles: a share that is not a tile multiple |
| `TokenSplit.NearFraction` | runtime/bitnet_xdna.cpp:317-319 | When no clamp applies the share is within half a tile of the fraction |
| `TokenSplit.Monotone` | runtime/bitnet_xdna.cpp:298-323 | More tokens never shrink the share if and only if an override is set or the fraction is positive |
| `TokenSplit.ZeroFractionDrops` | runtime/bitnet_xdna.cpp:311-315 | Fraction 0: 1024 tokens all go to the NPU, 1025 none |
| `TokenSplit.HalfIsWholeTiles` | runtime/bitnet_xdna.cpp:313-322 | The default fraction always gives whole tiles, at least one |
| `TokenSplit.SplitInRange` | runtime/bitnet_xdna.cpp:298-323 | The share is part of the batch for every fraction and override |
| `TokenSplit.SplitCases` | runtime/bitnet_xdna.cpp:298-323 | The share under every setting: an override hands over exactly its tiles or the whole batch, at most one tile is not divided, fractions of one and above give everything, of zero and below nothing, and any other the nearest tiles between one tile and the batch |
| `TokenSplit.Gate.Available` | runtime/bitnet_xdna.cpp:261-290 | The first answer is final and keeps its settings; the first call takes over forced tiles, a split within 0 to 1 and a token threshold of at least one tile, and answers 1 exactly when enabled on a device |
| `TokenSplit.Gate.OpensAt` | runtime/bitnet_xdna.cpp:292-296 | No batch below a full tile passes the gate, and with the smallest threshold exactly those of a full tile do |
| `TokenSplit.Gate.NoPaddedDispatch` | patches/001-bitnet-xdna.patch:70-82 | With worker threads and default settings whatever passes the gate is dispatched in full tiles only: each step of the token loop has 1024 rows |
| `Shards.RowsPartition` | patches/001-bitnet-xdna.patch:136-137 | Floor-divided row shards are ascending and end at the NPU share |
| `Shards.ColsPartition` | patches/001-bitnet-xdna.patch:87-92 | Rounded-up column shards end exactly at ne01 if and only if ne01 is a multiple of four; otherwise the last one runs past it |
| `Shards.ColsAligned` | patches/001-bitnet-xdna.patch:87-92 | Every column bound is a multiple of four, the first one at or behind its exact share |
| `Shards.ShardsBalanced` | patches/001-bitnet-xdna.patch:87-137 | Row shards differ by at most one row, column shards by the rounding to four besides |
| `Shards.Partition` | patches/001-bitnet-xdna.patch:87-137 | Ascending bounds give every index to exactly one shard |
| `Shards.CpuShard` | patches/001-bitnet-xdna.patch:100-124 | The groups-of-four loop and the tail write each cell of the token range and column shard with the rounded difference of float accumulator and float activation sum, times ws / token scale, and no other cell |
| `Shards.CpuTokens` | patches/001-bitnet-xdna.patch:102-112 | One group of tokens over the columns of the shard |
| `ForkJoin.ShardsTile` | patches/001-bitnet-xdna.patch:87-137 | CPU, epilogue and recompute shards each tile their region: a cell is in the shard of thread i exactly when i owns it |
| `ForkJoin.EnginesTile` | patches/001-bitnet-xdna.patch:83-138 | CPU and epilogue shards of all threads together cover the output without overlap |
| `ForkJoinSafety.StepInv` | patches/001-bitnet-xdna.patch:70-147 | Every step of every thread keeps the protocol invariant, wherever barriers suffice |
| `ForkJoinSafety.RunInv` | patches/001-bitnet-xdna.patch:70-147 | There the invariant holds in every state of every execution over an unbounded sequence of calls |
| `ForkJoinSafety.AccumulatorExclusive` | patches/001-bitnet-xdna.patch:139-141 | No thread reads the accumulator while accumulate may write it, and each epilogue reads the one of its own call |
| `ForkJoinSafety.AnyContents` | patches/001-bitnet-xdna.patch:78-82 | While thread 0 is inside accumulate, and when it returns a failure, the accumulator may hold anything |
| `ForkJoinSafety.VerdictNotOverwritten` | patches/001-bitnet-xdna.patch:79-130 | A verdict is stored only when no thread has an earlier one left to load, except between two failures, where both verdicts are the same |
| `ForkJoinSafety.ValueIsRef` | patches/001-bitnet-xdna.patch:106-138 | Whatever any thread writes is the reference value |
| `ForkJoinSafety.SuccessExactlyOnce` | patches/001-bitnet-xdna.patch:130-142 | After a successful call each output cell was written exactly once, by its owner, with the reference value |
| `ForkJoinSafety.FailureKeepsNpuRows` | patches/001-bitnet-xdna.patch:144-147 | In a failed call no NPU row is written before the fall-through, and only by the recompute after it |
| `ForkJoinSafety.FailureRecomputes` | patches/001-bitnet-xdna.patch:144-147 | A failed call ends with the reference value in every cell and never wrote anything else |
| `ForkJoinSafety.Progress` | patches/001-bitnet-xdna.patch:128-141 | No reachable state is stuck |
| `ForkJoinTermination.WeightStep` | patches/001-bitnet-xdna.patch:70-147 | Every step other than a write into the accumulator brings the run exactly one step further |
| `ForkJoinTermination.EveryCallEnds` | patches/001-bitnet-xdna.patch:70-147 | In every execution, with and without a barrier between graph nodes, all threads have left call c after a bounded number of such steps |
| `ForkJoinTermination.GoOn` | patches/001-bitnet-xdna.patch:70-147 | Every execution can be continued by any number of such steps |
| `ForkJoinTermination.CallCompletes` | patches/001-bitnet-xdna.patch:128-147 | Every execution can be continued until all threads have left any given call |
| `ForkJoinRace.GuardIsExact` | patches/001-bitnet-xdna.patch:128-147 | No thread takes the success path of a failed call if and only if graph nodes are separated by a barrier, there is one thread, or no failed call is followed by a successful one |
| `ForkJoinRace.Overtake` | patches/001-bitnet-xdna.patch:130-147 | In every other system a slow thread can scale for the failed call while the accumulator belongs to the next one |
| `ForkJoinRace.WritesWrong` | patches/001-bitnet-xdna.patch:130-138 | What it then writes: the next accumulator under the scales of the failed call |
| `ForkJoinRace.ReachCall` | patches/001-bitnet-xdna.patch:70-147 | Every call of every sequence can be reached with all threads at its start, whatever the outcomes before it, with and without a barrier between graph nodes |
| `RaceWitness.NodeBarrierNeeded` | patches/001-bitnet-xdna.patch:70-147 | Two requests that pass the gate (1024 tokens against 2560 x 2560 weights) on which an output ends at -2560 where the reference is 0 |
| `StreamDims.ToMicroReads` | npu/whole_array_tuned.py:167-174 | Streaming a row-major tile through a_dims or b_dims puts element (i, j) at its micro-tile position |
| `StreamDims.ToMicroOnto` | npu/whole_array_tuned.py:167-190 | Every stream position is the position of one element: the stream is a permutation |
| `StreamDims.FromMicroReads` | npu/whole_array_tuned.py:199-203 | c_dims lists a micro-tile-major tile row-major: the inverse permutation |
| `ArrayTiles.DrainedTileIsProduct` | npu/whole_array_tuned.py:167-239 | A C tile in memory: row-major tiles streamed through a_dims and b_dims (either storage order of B), multiplied over the K tile pairs into a zeroed micro-tiled accumulator and streamed out through c_dims, is row-major A @ B at its place |
| `ArrayTiles.AccumulatedValue` | npu/whole_array_tuned.py:231-238 | After each multiply the accumulator tile holds the sum over the pairs so far |
| `ArrayTiles.AccumulationExists` | npu/whole_array_tuned.py:231-238 | Every list of tile pairs can be streamed in and accumulated in every layout that fits |
| `ArrayTiles.MultiplyAdds` | npu/whole_array_tuned.py:234-236 | One multiply adds the product of its tile pair to every element |
| `TileKernel.OperandsStreamed` | npu/whole_array_tuned.py:186-190 | Both b_dims forms present the same logical B to the kernel |
| `ArraySchedule.Sequence` | npu/whole_array_tuned.py:317-361 | The host loops issue to every column the fills of all row blocks in order and every C tap once |
| `ArraySchedule.IssueHalf` | npu/whole_array_tuned.py:332-353 | One ping or pong: one drain and the fills of its row blocks for each column |
| `ArraySchedule.FillColumn` | npu/whole_array_tuned.py:342-355 | The fills of one column in one half block; the modulo of the tap index never changes it |
| `ArraySchedule.TilesPerCoreExact` | npu/whole_array_tuned.py:131-131 | The tile count a core loops over is exactly row blocks times column steps |
| `ArrayStreams.CoreFn` | npu/whole_array_tuned.py:225-239 | The core loop consumes both streams in order, K tiles to an output tile |
| `ArrayStreams.StreamsMatch` | npu/whole_array_tuned.py:265-310 | Item (p, kt) of core (R, col) is the kt-th matched A/B tile pair of its p-th C tile, and the p-th block drained from its column is the one holding that tile |
| `ArrayStreams.IssuedStreams` | npu/whole_array_tuned.py:332-356 | The streams the host issues are exactly these |
| `ArrayStreams.TileOwner` | npu/whole_array_tuned.py:225-255 | Every C tile belongs to exactly one core at exactly one position |
| `ArrayStreams.PairsSum` | npu/whole_array_tuned.py:231-238 | The accumulated pairs of a C tile are that tile of A @ B |
| `GridNetwork.StepInv` | npu/whole_array_tuned.py:225-255 | Every step of host, producers, cores and drains keeps the network invariant, for any FIFO depths of at least one |
| `GridNetwork.RunInv` | npu/whole_array_tuned.py:225-361 | The invariant holds in every state of every interleaving |
| `GridNetwork.Progress` | npu/whole_array_tuned.py:161-255 | No interleaving deadlocks: until everything is drained some step is possible |
| `GridNetwork.RunBounded` | npu/whole_array_tuned.py:161-356 | In every state of every interleaving no FIFO holds more than its depth, and the drains of a column lag the issued half blocks by at most two, after the first transfer block by one |
| `GridNetwork.TwoInFlight` | npu/whole_array_tuned.py:332-361 | Ping and pong of the first transfer block are in flight together: the bound of two is attained |
| `GridNetwork.FinishedMemory` | npu/whole_array_tuned.py:199-223 | A finished run has each wanted tile in its place, written once |
| `ArrayProduct.GridOfValid` | npu/whole_array_tuned.py:139-223 | The issued taps fill the network exactly: full streams and distinct C blocks |
| `ArrayProduct.TileWrittenOnce` | npu/whole_array_tuned.py:317-361 | After a finished run every C tile was written once, with its K tile pairs in order |
| `ArrayProduct.ArrayComputesProduct` | npu/whole_array_tuned.py:77-361 | The pairs recorded for every element of C sum to row times column over all of K, independent of the interleaving and of the FIFO depths |
| `ArrayProduct.DrainedIsProduct` | npu/whole_array_tuned.py:77-361 | The matrix in memory after any finished run is A @ B: every interleaving, FIFO depth, micro-tile layout that fits and storage order of B |
| `ArrayProduct.DrainedExists` | npu/whole_array_tuned.py:199-223 | Every finished run has such a memory |
| `ArrayProduct.CoresRunCoreFn` | npu/whole_array_tuned.py:225-239 | What a core of the network has released is a prefix of what the core loop computes over its streams |
| `ArrayProduct.RunsEnd` | npu/whole_array_tuned.py:225-361 | Every execution is bounded: each step adds one to a weight with a fixed maximum |
| `Int4Kernel.GemmI8I4` | npu/kernels/mm_i8_i4.cc:154-157 | pack, multiply (any repeat count from 1), unpack: element (i, j) is the int32 product of row i of A with the low nibbles of column j of B, and exactly A @ B for weights in -8..7 and K below 2^21 |
| `Int4Kernel.NibblesSuffice` | npu/experiments/int4_gemm.py:42-49 | What the pipeline puts out is the int32 product for every int8 A if and only if all weights lie in -8..7 |
| `Int4Kernel.NoOverflow` | npu/kernels/mm_i8_i4.cc:71-83 | Below 2^21 columns the int32 result is the exact product |
| `Int4Kernel.MatmulRepeat` | npu/kernels/mm_i8_i4.cc:154-157 | Running the core again leaves the same output as running it once |
| `Int4Kernel.MatmulCore` | npu/kernels/mm_i8_i4.cc:43-89 | Every packed output place holds its product element |
| `Int4Kernel.OutputTile` | npu/kernels/mm_i8_i4.cc:61-81 | The first mul and the following macs over stepped pointers give the tile over all of K |
| `Int4Kernel.MacAdvances` | npu/kernels/mm_i8_i4.cc:72-80 | One mac on loaded tiles moves every element of the accumulator along K |
| `Int4Kernel.Operands.LoadsRight` | npu/kernels/mm_i8_i4.cc:62-79 | The stepped byte pointer always lands on the 128 bytes of micro-tile (i, j), the A pointer on (z, i) |
| `Int4Kernel.PointerSteps` | npu/kernels/mm_i8_i4.cc:66-79 | One step of each pointer is one micro-tile further along K |
| `Int4Kernel.OutputView` | npu/kernels/mm_i8_i4.cc:83-84 | The packed output seen through its micro-tiles is the product |
| `Int4Kernel.PackOperands` | npu/experiments/int4_gemm.py:33-74 | The packers give operands that hold A and the nibbles of B |
| `Int4Kernel.PackWeights` | npu/experiments/int4_gemm.py:42-74 | Tiling and pairing of B keep every weight, reduced to four bits |
| `Nibbles.PairRoundTrip` | npu/experiments/int4_gemm.py:72-74 | Both values of a packed pair come back if and only if they lie in -8..7 |
| `Nibbles.PackNibbles` | npu/experiments/int4_gemm.py:71-74 | Lane e of the packed bytes is value e reduced to four bits |
| `Nibbles.LowNibbleFirst` | npu/experiments/int4_gemm.py:72-74 | The order on a literal pair: 1 and -2 pack to 0xE1 |
| `MicroTiles.PackTiles` | npu/experiments/int4_gemm.py:33-39 | The tile loops put every element at its micro-tile position |
| `MicroTiles.UnpackTiles` | npu/experiments/int4_gemm.py:77-84 | The inverse: every element back at its row and column |
| `MicroTiles.FilledView` | npu/experiments/int4_gemm.py:77-84 | A buffer whose micro-tiles are all stored is the matrix |
| `MicroTiles.PackIsStream` | npu/experiments/int4_gemm.py:33-39 | The order of pack_A is exactly the stream order of the array's a_dims |
| `MicroTiles.UnpackIsStream` | npu/experiments/int4_gemm.py:77-84 | The order of unpack_C is exactly the stream order of the array's c_dims |
| `CoordDigest.SingleByteShows` | runtime/bitnet_coord.c:50-57 | Images of equal length that agree except perhaps at one byte have equal digests if and only if they are equal |
| `CoordDigest.ShortDigests` | runtime/bitnet_coord.c:50-57 | The digests of the images [1] and [1, 0] as numbers: start value, multiplier, order of xor and multiplication, and order of the bytes |
| `CoordDigest.RoundBijective` | runtime/bitnet_coord.c:55-55 | Each xor-then-multiply round is a bijection of the 64-bit state |
| `CoordDigest.FoldInjective` | runtime/bitnet_coord.c:55-55 | Equal digests after the same suffix come from equal states |
| `CoordDigest.Digest` | runtime/bitnet_coord.c:50-57 | The loop computes the fold |

## Left out

- Device internals, XRT objects, kernel lookup and instruction streams: a dispatch either completes with the product of the device buffers or throws.
- Memory allocation that fails: the faults are those of the device.
- Timing, statistics, at-exit printing, environment parsing and artifact paths: their values are inputs; the messages kept with failed pointers are not, only which pointers failed.
- The mutex around the runtime state: calls to it are sequential in the runtime module, and only thread 0 makes them in the protocol.
- ggml's barrier and SIMD kernels: a barrier lets a thread go once all have arrived, and the kernels are given by the biased accumulators they compute, converted to float.
- The CPU block after the fall-through is not part of the patch: the recompute is modelled by floor-divided column shards that write the CPU value.
- Which calls enter the offload block: the protocol's runs consist of the calls that do.
- Rounding inside the float multiplication and division, NaN and infinities: multiplication and division stay uninterpreted.
- Quantiser and token split in exact reals: the rounding of the scale in float and of the fraction in double is not modelled.
- int32 overflow is undefined in C: accumulators wrap here, and the exactness lemmas show when they cannot.
- Strides into dst count floats instead of bytes.
- Dispatches are counted per program, not per process.
- DispatchChunk: bytes of A and B on the device are integers; that they fit int8 follows from the codes and activations and is not stated again.
- The byte-level address arithmetic of the array's buffer descriptors (strides of at most 2^20, wrap sizes): taps are given by the tile order their arguments spell out, row-major inside a group, groups of C column-fast.
- Column-major C (`c_col_maj`): only the row-major output order is modelled.
- GridNetwork: each L3-L2-L1 chain is one FIFO, a shim pushes the tiles of its rows together, and acquire-multiply-release of one tile pair is one step; a coarser interleaving than the hardware's.
- KernelStep: the array's micro-tiled kernel adds exact integers; the wrap-around of its output type is left to the bounds on the whole product.
- Int4Kernel: the vector load that widens nibbles and the 4x16x16 mac are given by their arithmetic.
- The matched int8 x int8 core has the same loop nest over different constants and would repeat the proof.
- The `unzip` and `hi_first` nibble orders and the `DIAG` inputs are diagnostics.
- Standalone `i2s_codes_to_signed` and `zero_core`: one-line loops; the signing is part of building a slab.
- Field-by-field coordinate comparisons: each branch says what it compares.
- Sweeps, benchmarks, extraction tools, the reference array designs and everything under `artifacts/`.
