# KWS-SoC verification

Dafny proofs about the keyword-spotting SoC's firmware and simulation models. The
programs that change state are modelled as classes with the same fields, loops and
branches; each is proved against a specification that does not mention how it is
computed.

- **Streaming engine** (`StreamSpec`, `LayerMeaning`, `StreamEngine`): per-layer context
  frames, partial pooling groups and an averaging ring compute only the new frames of
  every 1600-sample hop. Proved to give, after any number of samples pushed in any chunks, the scores of
  the network run once over the whole recording.
- **QSPI flash simulator** (`FlashSpec`, `FlashSim`, `FlashInvariant`, `FlashWire`,
  `FlashTransactions`, `FlashRead`, `FlashSession`, `FlashSound`, `FlashCommands`,
  `FlashSerial`, `FlashDual`): the step function over chip select, clock and data,
  invariants of every run, and whole wire-level sessions: what is erased and programmed is
  what is read back on one, two or four lines, and exactly when no call of a session stops
  the simulator.
- **Heap allocator** (`HeapSpec`, `HeapMemory`, `Heap`, `HeapClient`): first fit,
  splitting and coalescing on headers stored in the same byte array as the payloads, and
  what any program on top of malloc, free, calloc and realloc may rely on.
- **Continuous capture** (`DmaRing`, `DmaRun`, `WindowLoop`): the DMA, its interrupt
  handler and the sliding window of the main loop, interleaved in every way. `DmaRun` is
  the step function of the hardware and the loop on it, `WindowLoop` the arithmetic of the
  windows, `DmaRing` the firmware's array and wrapping 32-bit counters, proved to follow
  both.
- **Peak normalisation** (`PeakNorm`).
- **Accelerated convolution** (`AccelConv`): padding, bias folding and the valid
  convolution of the accelerator give the zero-padded convolution of the layer.
- **UART receiver of the testbench** (`UartDecode`): exact baud-rate tolerance.
- **Streaming firmware** (`HopCapture`, `ScoreDetector`, `KeywordFirmware`,
  `KeywordDevice`): the hand-over of hops between interrupt handler and main loop, the
  smoothing and the debounced detector, and the whole path from DMA words to reports.
- `FixedPoint` and `Ring` hold what several of them share: fixed-width integers, the
  convolution filter, and buffers written round and round.

The NNoM primitives are not part of the repository. The convolution is taken from the
software reference in `test/accel/accel_test.c`, pooling is the maximum over valid
windows; the two dense layers and the softmax are an arbitrary function, and all weights
are parameters.

## What the code does not do

- With `KWS_DS_EN=0` the clip is 16000 bytes and the ring 16384. The comment at
  `test/common/kws_bare_main.c:367-371` calls the remaining 384 bytes sufficient, but the
  guard at line 687 lets the main loop lag by up to a clip: `DmaRing.FullRateClipOverrun`
  reaches the case, `DmaRing.GuardSuffices` is the exact condition for every configuration.
- `AUDIO_LOSS` reports the lag beyond one clip. The bytes left out of every window also
  include the last step (`WindowLoop.SkippedBytes`; `WindowLoop.Forfeited` says which bytes
  a whole run leaves out).
- `peak_norm_clip` rounds halves away from zero (`PeakNorm.HalfUnit`); the comment above
  it writes `round`, which in Python takes halves to the even neighbour. The two differ
  exactly on clips with a sample half-way above an even number
  (`PeakNorm.NormalisedAsTrained`, `PeakNorm.TieOccurs`). It is idempotent except for a
  peak of 1.
- The streaming firmware tests `hop_ready` and then executes `wfi`. If the interrupt that
  completes a hop falls in between, the DMA is disabled and nothing wakes the core, where
  `wfi` waits for an interrupt. `HopCapture.StuckExactly` says which runs end like this,
  `HopCapture.WakeUpMissed` gives one for every batch and hop size.
- The flash simulator leaves the state of a finished read unchanged on the opcodes 0x66,
  0x81 and 0x99, so an assertion of its own can fail later: `FlashSession.IgnoredAfterRead`
  is the exact condition on the bytes of the transaction, `FlashInvariant.IdleReadSound`
  that on a whole run.
- Same padding uses half a kernel on both sides, so with an even kernel the layer writes
  one frame less than planned for some strides (`AccelConv.PaddedLength`).
- A request within 7 bytes of 2^32 is rounded to 0 by the allocator
  (`HeapSpec.RoundUpCovers`).

## Model

| member | source | states |
|---|---|---|
| StreamEngine.Engine.KwsPush | test/model/streaming/kws_stream_b.c:331-352 | Pushing any number of samples makes the history the old history plus those samples; the call returns 1 exactly when a 1600-sample boundary was crossed, and then the scores are those of the whole-recording network on all complete hops; otherwise the score buffer is untouched (LayerMeaning.BatchMeans says what that network computes). The loop ends because less than a hop is waiting on entry to every pass. |
| StreamEngine.Engine.RunHop | test/model/streaming/kws_stream_b.c:160-322 | One hop of 1600 samples advances the network state so that it is again the state of the whole recording run once, and returns the head applied to the truncated average of the last 15 output frames of that run. Both early returns are proved dead. |
| StreamEngine.HistoryDeterminesState | test/model/streaming/kws_stream_b.c:331-352 | Two engines that were pushed the same samples, in whatever chunks, agree on every context, every held partial frame, the average ring, the counters and the waiting samples. |
| StreamEngine.FillLevels | test/model/streaming/kws_stream_b.c:197-278 | After h hops pool2 has produced floor(25h/4) frames and conv4 floor(25h/8), pool2 holds 25h mod 4 frames and pool3 floor(25h/4) mod 2, and the average ring holds min(15, floor(25h/8)), full from hop 5 on. |
| StreamSpec.FrameCounts | test/model/streaming/kws_stream_b.c:27-48 | The number of frames of every layer of the whole-recording run, and of the frames each pooling layer has left over, as functions of the number of samples. |
| StreamSpec.ConsistentIsBatch | test/model/streaming/kws_stream_b.c:160-258 | A family of layer outputs in which every layer is the right function of its neighbour is the whole-recording run, so tracking neighbours is enough. |
| StreamSpec.ChunkedCausalIsCausal | test/model/streaming/kws_stream_b.c:64-156 | For every split of a frame sequence into chunks, the outputs of the causal convolution called chunk by chunk with the two-frame context update are those of one causal convolution of the whole. |
| StreamSpec.ChunkedPoolIsPool | test/model/streaming/kws_stream_b.c:119-143 | For every split into chunks, the outputs of pooling with held partial frames are those of one valid max-pool of the whole, and what is held at the end is the remainder of the whole. |
| StreamSpec.CausalAppend | test/model/streaming/kws_stream_b.c:64-156 | A causal convolution of a concatenation is the convolution of the first part followed by that of the second part with the last two frames as context; contexts compose the same way. |
| StreamSpec.PoolAppend | test/model/streaming/kws_stream_b.c:119-143 | Pooling a concatenation is pooling the first part and then its remainder with the second part; remainders compose the same way. |
| StreamSpec.SincAppend | test/model/streaming/kws_stream_b.c:162-181 | The strided first layer over a longer recording is the layer over the shorter one followed by the layer over the last 128 samples and the new ones, when the old length is a multiple of 16. |
| StreamSpec.PoolLength | test/model/streaming/kws_stream_b.c:102-143 | A pool of n frames gives floor(n/k) frames and leaves n mod k. |
| StreamSpec.MeanFits | test/model/streaming/kws_stream_b.c:281-286 | The truncated mean of int8 values is an int8 value, so the narrowing cast loses nothing. |
| LayerMeaning.BatchMeans | test/model/streaming/kws_stream_b.c:160-258 | What the whole-recording network is, value by value, with no layer function named: every first-layer value is the weighted sum of the 129 samples that end there, every later convolution value that of the two frames before and the present one under the three groups of taps, rounded to nearest with halves up, saturated to int8 and rectified; every pooled value is at least every value of its channel in its group of 4, 4 or 2 frames and equals one of them. |
| LayerMeaning.ScoresMean | test/model/streaming/kws_stream_b.c:272-322 | The scores are the head applied to the frame of channel means over the last 15 output frames (over all while there are fewer), rounded toward zero. |
| LayerMeaning.PoolMeans | test/model/streaming/kws_stream_b.c:102-117 | Every pooled value is the maximum of its channel over its group: at least each of the k values and equal to one of them. |
| LayerMeaning.ConvolutionMeans | test/model/streaming/kws_stream_b.c:64-94 | Each value of a causal convolution after its ReLU, as an exact weighted sum over named frames, rounded, saturated and rectified. |
| LayerMeaning.SincMeans | test/model/streaming/kws_stream_b.c:162-181 | Each value of the strided first layer, as an exact weighted sum over named samples. |
| LayerMeaning.AverageMeans | test/model/streaming/kws_stream_b.c:281-286 | A channel average is the sum divided by the count, rounded toward zero. |
| FixedPoint.RequantiseRounds | test/accel/accel_test.c:68-72 | A value is the shifted and clipped accumulator with half the divisor added if and only if it is the quotient rounded to nearest with halves up and saturated to int8. |
| StreamEngine.ConvolveFrames | test/model/streaming/kws_stream_b.c:82-93 | The valid three-tap convolution over context and new frames is the causal convolution of the new frames. |
| StreamEngine.CausalConv1d | test/model/streaming/kws_stream_b.c:64-94 | Copying context and new frames into the scratch buffer and convolving gives the causal convolution of the new frames after that context. |
| StreamEngine.UpdateCtx2 | test/model/streaming/kws_stream_b.c:145-156 | The context becomes the last two of the old context followed by the new frames, also when fewer than two are new. |
| StreamEngine.MaxpoolValid | test/model/streaming/kws_stream_b.c:102-117 | The loop writes, for every whole group of k frames and every channel, the largest value of the group, and returns the number of groups. |
| StreamEngine.PoolWithPartial | test/model/streaming/kws_stream_b.c:122-143 | Outputs are the channel-wise largest values of the whole groups of held and new frames, and exactly the remainder is held afterwards. |
| StreamEngine.Engine.PushFrames | test/model/streaming/kws_stream_b.c:262-270 | After the new frames are written the ring again holds the last 15 frames of the stream, each in its slot. |
| StreamEngine.Engine.SlotAverage | test/model/streaming/kws_stream_b.c:281-286 | The sum over the occupied slots of one channel stays an int32 and its truncated quotient is the mean of that channel. |
| StreamEngine.Engine.GapAverage | test/model/streaming/kws_stream_b.c:272-286 | The average over the occupied slots equals the average of the last min(15, total) frames in stream order, wherever the oldest one sits. |
| StreamEngine.Engine.SincStage | test/model/streaming/kws_stream_b.c:162-181 | The stage appends exactly the next 100 frames of the whole-recording first layer and keeps the last 128 samples of the recording. |
| StreamEngine.Engine.FrontStage | test/model/streaming/kws_stream_b.c:162-200 | The first two stages append the next 100 sinc frames and exactly 25 pooled frames of the whole-recording run. |
| StreamEngine.Engine.MiddleStage | test/model/streaming/kws_stream_b.c:202-258 | The middle stages append the next frames of pool2 and pool3 of the whole-recording run; 25 frames always give 6 or 7, and then 3 or 4, within the declared scratch sizes. |
| StreamEngine.Engine.BackStage | test/model/streaming/kws_stream_b.c:248-322 | The last stages append the next conv4 frames to the ring and score the average of the last 15 of them. |
| StreamEngine.Engine.Reset | test/model/streaming/kws_stream_b.c:326-329 | An all-zero state is the state of the empty recording. |
| StreamEngine.Engine.Feed | test/model/streaming/kws_stream_b.c:338-349 | Filling the waiting hop appends to the history; the hop runs exactly when it becomes complete. |
| Ring.Push | test/model/streaming/kws_stream_b.c:264-269 | Writing value number t of a history to slot t mod capacity keeps the last capacity values in their slots. |
| Ring.Contents | test/model/streaming/kws_stream_b.c:262-278 | The occupied slots are the history itself until the ring is full and from then on a rotation of its last values. |
| Ring.SlotSum | test/model/streaming/kws_stream_b.c:280-286 | A sum over the occupied slots is the sum over the last values in time order. |
| FlashSim.Simulator.Call | sim/flashsim.cpp:155-645 | One call of the simulator, on its fields and its two buffers, changes the state and returns the pins as the step function used in all run properties says. |
| FlashSim.Simulator.ChipSelectHigh | sim/flashsim.cpp:167-249 | Raising chip select performs an accepted write, or ends or continues a read, as in the step function. |
| FlashSim.Simulator.CompleteWrite | sim/flashsim.cpp:172-217 | By kind of write: a program leaves in each cell of its page exactly the bits set both before and in the page buffer, a sector erase sets the 64 KB that share the upper address bits, a bulk erase everything, a status write no memory; each starts its own number of busy calls. |
| FlashSpec.WrittenMeans | sim/flashsim.cpp:172-217 | The same on the step function. |
| FlashSpec.AndBoth | sim/flashsim.cpp:188-188 | A bit of the conjunction is set exactly if it is set on both sides. |
| FlashSim.Simulator.FallingEdge | sim/flashsim.cpp:262-636 | One falling edge shifts the pins in and, at a byte boundary, decodes the command or processes the byte. |
| FlashInvariant.WriteEntered | sim/flashsim.cpp:304-456 | A write state is entered only with WEL set, WIP clear and outside deep power down, whatever command or data byte arrives. |
| FlashInvariant.InvRun | sim/flashsim.cpp:155-645 | Every run keeps the invariant that ties the bus width, the read states, the write flags and the busy timer together, unless a finished read, its state left over, takes a byte 0xA? of another transaction for its mode byte. |
| FlashInvariant.OnlyIgnoredStray | sim/flashsim.cpp:390-449 | Such a stray mode byte is only possible after one of the ignored opcodes 0x66, 0x81 and 0x99 on top of a finished read. |
| FlashInvariant.IdleReadSound | sim/flashsim.cpp:224-303 | For every run: the bus-mode assertions of the idle read states fail at some point of it if and only if somewhere in it a stray mode byte is taken and chip select rises after that. |
| FlashInvariant.InvStart | sim/flashsim.cpp:79-98 | The invariant holds after a first call with chip select high. |
| FlashInvariant.BusModeFollowsState | sim/flashsim.cpp:167-303 | In every such run the assertions of the idle read states hold, WIP implies time left on the timer, and whenever chip select is raised the bus is quad (dual) exactly in the quad (dual) idle read state. |
| FlashInvariant.WriteInvRun | sim/flashsim.cpp:155-645 | In every state that any run reaches from a new simulator, with no exception for opcodes, transaction lengths or the first call, WIP implies time left on the timer and no other write is accepted while WIP is set. |
| FlashInvariant.MemoryChangesOnlyByWrites | sim/flashsim.cpp:159-223 | In all those states memory changes only on a chip-select-high call out of an accepted program or erase with WIP clear, which then starts a new busy period; a write state is entered only with WEL set and WIP clear. So two writes never overlap. |
| FlashInvariant.WriteInProgressLifetime | sim/flashsim.cpp:159-165 | In all those states, once a write has started, WIP stays set and memory unchanged for exactly as many calls as the timer holds, whatever the host sends, resets included, unless it sends the release command 0xAB. |
| FlashSession.IgnoredAfterRead | sim/flashsim.cpp:224-248 | The same for one transaction: after a finished read of any of the four kinds, a transaction of any length that begins with an ignored opcode leaves an idle read state on the one-bit bus, whose assertion then fails, if and only if the byte in the place of the old mode byte (the fifth after a read command, the fourth after a continued read) was sent and has the high nibble 0xA; otherwise the flash is back at rest. |
| FlashWire.SelectedRun | sim/flashsim.cpp:250-277 | While chip select is low only falling clock edges matter: any clocking gives the state and the outputs of the falling-edge data alone. |
| FlashWire.SpiByteEdges | sim/flashsim.cpp:273-277 | Eight edges on the one-bit bus shift in the byte they spell and process one byte boundary. |
| FlashWire.QuadByteEdges | sim/flashsim.cpp:265-268 | Two edges on the quad bus do the same; the first shows the high nibble of the output byte. |
| FlashTransactions.FillCells | sim/flashsim.cpp:604-608 | After any byte string has been sent, each cell of the page buffer holds the last byte sent to it under the wrap at 256, and cells never sent to are unchanged. |
| FlashTransactions.AddressEdges | sim/flashsim.cpp:596-628 | Three address bytes spell the address, most significant byte first. |
| FlashTransactions.ProgramEdges | sim/flashsim.cpp:596-622 | Command, address and any data string, on one or four lines, leave the page buffer filled from the address on. |
| FlashRead.ReadHead | sim/flashsim.cpp:553-595 | After address, mode byte and four dummy clocks the first byte of memory is in the output register, for a cold and a continued read. |
| FlashRead.ReadData | sim/flashsim.cpp:564-570 | Two edges per byte then return the memory from the address on, high nibble first, for any length inside the memory. |
| FlashSession.PowerUp | sim/flashsim.cpp:79-98 | Whatever the uninitialised fields held, one call with chip select high leaves the simulator at rest with memory unchanged. |
| FlashSession.WriteEnable | sim/flashsim.cpp:345-349 | The write-enable transaction sets WEL and changes no memory. |
| FlashSession.WaitOut | sim/flashsim.cpp:159-165 | Waiting with chip select high until the timer ends brings the simulator back to rest with WEL clear. |
| FlashSession.Erase | sim/flashsim.cpp:191-200 | A complete sector erase at any address (the simulator accepts those below 4 MB) sets the 64 KB that share the upper address bits to 0xFF and nothing else. |
| FlashSound.EraseSound | sim/flashsim.cpp:623-628 | The falling edges of a sector erase stop the simulator at its assertion exactly for addresses of 4 MB or more. |
| FlashSound.SpiByteSound | sim/flashsim.cpp:273-277 | A byte on the one-bit bus can stop the simulator only at its last bit. |
| FlashSession.Program | sim/flashsim.cpp:172-190 | A complete single or quad page program of any byte string leaves in every cell it was sent to exactly the bits set both before and in the last byte sent there, sets no bit that was clear, and changes nothing else. |
| FlashSession.ProgrammedCells | sim/flashsim.cpp:181-189 | Programming with the filled page buffer, in terms of the addresses the bytes are sent to: the bits of each cell are those set before and in the last byte sent to it; cells never sent to are unchanged. |
| FlashSession.QuadRead | sim/flashsim.cpp:224-291 | A quad read transaction, cold or continued, returns for each byte of memory its high and then its low nibble from the address on and leaves memory unchanged; a mode byte 0xA? leaves the continued read state, any other one the resting state. |
| FlashSession.ChainedReads | sim/flashsim.cpp:553-595 | Any number of chained continued reads all return the same memory. |
| FlashSession.ProgramReadBack | sim/flashsim.cpp:172-200 | Enable, erase, enable, program (single or quad, any string, any address), read: the page holds the last byte sent to each cell and 0xFF elsewhere, the rest of the sector 0xFF, other memory its old content, and the read returns exactly that memory. |
| FlashSession.ProgramOverOldData | sim/flashsim.cpp:181-189 | Without the erase the two nibbles read back for each address are the cell whose bits are those set before and in the last byte sent there. |
| FlashCommands.WriteRefused | sim/flashsim.cpp:311-436 | Without WEL no program, erase or status write does anything, however long its data. |
| FlashCommands.WriteDisable | sim/flashsim.cpp:336-339 | The write-disable transaction clears WEL. |
| FlashCommands.BulkErased | sim/flashsim.cpp:210-223 | A bulk erase sets every byte of memory to 0xFF. |
| FlashCommands.StatusWritten | sim/flashsim.cpp:467-484 | A status write sets bits 2, 3, 4 and 7 of the register to those of the byte sent, keeps the others and leaves WEL clear. |
| FlashCommands.StatusRead | sim/flashsim.cpp:498-502 | A status read of any length shows the register bit by bit on the data line, highest first: bit 0 is the write in progress, bit 1 the write enable. |
| FlashCommands.IdRead | sim/flashsim.cpp:485-497 | The identification reads 0x01, 0x15, 0x23. |
| FlashCommands.PowerDown | sim/flashsim.cpp:405-413 | The power-down command leaves the flash asleep with its memory unchanged. |
| FlashCommands.SleepsOn | sim/flashsim.cpp:309-313 | In deep power down no call changes memory, registers or state unless it completes the release command. |
| FlashCommands.ShownByte | sim/flashsim.cpp:255-276 | Eight edges on the one-bit bus show the output byte, highest bit first. |
| FlashSerial.SerialReadBack | sim/flashsim.cpp:507-533 | A slow or fast read of any length returns the memory from the address on, bit by bit, highest first, and changes nothing. |
| FlashDual.DualReadBack | sim/flashsim.cpp:534-579 | A dual read, cold or continued, of any length returns the memory two bits per clock and changes nothing; a mode byte 0xA? leaves the continued read state, any other one the resting state. |
| FlashSound.ReadDataSound | sim/flashsim.cpp:564-570 | Every byte boundary of a read fetches, also the one that returns the last nibble: n boundaries stay inside the memory array exactly when the n addresses do. |
| FlashSound.TxnSound | sim/flashsim.cpp:155-645 | No call of a transaction stops the simulator or leaves its memory exactly if its falling edges do not and the write it ends with lies inside the memory. |
| FlashSound.ProgramTxnSound | sim/flashsim.cpp:172-190 | A page program of any byte string on either bus never stops the simulator. |
| FlashSound.EraseTxnSound | sim/flashsim.cpp:623-628 | A whole sector erase transaction is sound exactly below 4 MB. |
| FlashSound.ReadTxnSound | sim/flashsim.cpp:553-595 | A whole read transaction, cold or continued, is sound exactly if it ends before the last byte of memory. |
| FlashSound.SessionSound | sim/flashsim.cpp:155-645 | Enable, erase, enable, program, read: no call of the whole session stops the simulator if and only if the sector lies below 4 MB and the read ends before the last byte of memory. |
| FlashSound.ProgramAndReadBack | sim/flashsim.cpp:155-645 | The simulator object driven call by call through that session: its memory array holds the bytes sent (0xFF in the rest of the sector, old memory elsewhere), and the pins the host samples are the nibbles of that memory. |
| FlashSound.Drive | sim/flashsim.cpp:155-645 | Any sound sequence of calls leaves the object in the state of the run, and the pins sampled at falling edges are those of the step function. |
| Heap.Allocator.Malloc | test/common/malloc.c:95-121 | The result is NULL exactly when the size is 0 or no free block has the rounded size; otherwise the block list is that of a first-fit allocation, the payload covers the rounded request, belonged to no live block before and belongs to one now, and every live payload byte is unchanged. |
| Heap.Allocator.Free | test/common/malloc.c:123-133 | A live block is released and all free neighbours are merged; NULL is ignored; no byte of a remaining live payload changes. |
| Heap.Allocator.Calloc | test/common/malloc.c:135-157 | The result is NULL exactly when the product is 0, overflows or no block fits; otherwise it is a new live block, owned for the rounded product, zero over the whole product; every live payload is unchanged. |
| Heap.Allocator.Realloc | test/common/malloc.c:159-190 | NULL is returned exactly for size 0 or when no block fits; any other result is the start of a live block that owns the requested size, and is the old pointer exactly when the block is large enough. A moved block starts with the old bytes and the old one is freed; with a NULL pointer it is an allocation, with size 0 a release. Every other live payload is unchanged, and after a failure the old one too. |
| Heap.SafeSizeMul | test/common/malloc.c:76-93 | The product is accepted exactly when it fits 32 bits, and is then exact. |
| Heap.Allocator.InitHeapOnce | test/common/malloc.c:24-45 | The first call installs one free block over the whole heap, or none if there is no room for a header; later calls change nothing. |
| Heap.Allocator.SplitBlock | test/common/malloc.c:47-61 | In memory, the cut writes two headers that link to a tiling with the rest as a new free block, or nothing when the rest is too small; no live payload byte changes. |
| Heap.Allocator.CoalesceAll | test/common/malloc.c:63-74 | The walk merges every run of adjacent free blocks and changes no live block and no live payload byte. |
| Heap.Allocator.StoreOwned | test/common/malloc.c:183-186 | A caller that writes inside its own live block harms no header. |
| HeapClient.Client.RunProgram | test/common/malloc.c:95-190 | Any number of malloc, free, calloc, realloc calls and writes of any program that passes NULL or live pointers: its results, NULLs included, and the blocks at the end are the first-fit answers, one call after the other, from the blocks at the start. What it holds is what the promises of the calls add up to (new blocks are distinct and disjoint from all held ones, calloc gives zeros, realloc keeps the common bytes, nothing else changes), memory contains exactly those bytes behind live pointers, and a program that holds nothing leaves the single initial block. |
| HeapClient.Client.Perform | test/common/malloc.c:95-190 | One call keeps the program's picture of memory right, does what it promises, and its result and the blocks it leaves are the first-fit answer to the blocks before. |
| HeapClient.NullExactly | test/common/malloc.c:95-190 | That answer is NULL exactly for a free, size 0, an overflow, or when no free block is large enough and the old one of a realloc is not either. |
| HeapClient.NothingHeld | test/common/malloc.c:41-44 | A program that holds no pointer leaves the heap as one free block. |
| HeapMemory.AllocateBacks | test/common/malloc.c:108-116 | An allocation puts its own block behind a pointer and leaves what stands behind every other pointer. |
| HeapMemory.ReleaseBacks | test/common/malloc.c:123-133 | A release takes away what stands behind its own pointer and behind no other. |
| HeapMemory.MovedPointer | test/common/malloc.c:181-188 | After the allocation and the release of a realloc the new block is live, large enough and not at the old pointer. |
| HeapSpec.RunKeeps | test/common/malloc.c:95-133 | After any sequence of allocations and releases the blocks tile the heap exactly in address order, no two neighbours are both free, and if nothing is live only the initial free block is left, whatever the order of the releases. |
| HeapSpec.AllocateKeeps | test/common/malloc.c:108-116 | First fit with splitting keeps the exact tiling and the absence of free neighbours. |
| HeapSpec.AllocateLive | test/common/malloc.c:108-116 | An allocation adds one live block of at least the rounded size, carved out of a free one, and moves no other. |
| HeapSpec.GrantedBlock | test/common/malloc.c:47-61 | An allocation grants exactly the rounded request when more than 20 bytes would be left over, 12 of which become the header of a new free block, and otherwise the whole block. |
| HeapSpec.ReleaseKeeps | test/common/malloc.c:123-133 | A release keeps the exact tiling and leaves no two free neighbours. |
| HeapSpec.ReleaseLive | test/common/malloc.c:123-133 | A release removes exactly the released block from the live ones. |
| HeapSpec.CoalesceTiles | test/common/malloc.c:63-74 | Full coalescing of any tiling is a tiling of the same range without free neighbours. |
| HeapSpec.CoalesceLive | test/common/malloc.c:63-74 | Coalescing leaves the live blocks as they are. |
| HeapSpec.AllFreeIsInitial | test/common/malloc.c:41-44 | A tiling without live blocks and without free neighbours is the single initial free block. |
| HeapSpec.TilesDisjoint | test/common/malloc.c:4-8 | Distinct blocks of a tiling are disjoint and neighbours touch. |
| HeapSpec.RoundUpCovers | test/common/malloc.c:108 | The 32-bit rounding covers the request exactly when the request is at most 2^32 - 8; above that it wraps to 0. |
| HeapMemory.LinkedCut | test/common/malloc.c:53-60 | The bytes a split writes are the linked headers of the cut list. |
| HeapMemory.LinkedJoin | test/common/malloc.c:67-69 | The bytes a merge writes are the linked headers of the merged list. |
| HeapMemory.OwnedWriteKeepsHeaders | test/common/malloc.c:183-186 | No header lies inside a live payload. |
| HeapMemory.HeaderWriteKeepsPayloads | test/common/malloc.c:47-74 | No header write touches a live payload. |
| HeapMemory.FreshPayload | test/common/malloc.c:112-116 | The returned range was owned by no live block before the call. |
| HeapMemory.FindAfterAllocate | test/common/malloc.c:108-116 | A live block is still the block at its pointer after another allocation. |
| HeapMemory.ReleaseOwned | test/common/malloc.c:123-133 | Every byte owned by another live block is still owned after a release. |
| DmaRing.Capture.Snapshot | test/common/kws_bare_main.c:707-714 | For every interleaving of DMA bytes and interrupts before every read, sample j, read at an index computed from wrapped 32-bit counters, is the newest byte in the slot of stream position window start + j * decimation at the moment of the read. |
| DmaRing.Intact | test/common/kws_bare_main.c:707-714 | If the stream moves by at most one ring from the window start to the end of the copy, the copy is the decimated stream. |
| DmaRing.Capture.Pass | test/common/kws_bare_main.c:661-980 | One pass with the given events between its steps leaves exactly the hardware state those events lead to; whichever way the loss guard goes the copied window is the exact decimated stream, and the threshold moves as the run model says from the counter values seen, under 2 * clip + burst + arrivals <= ring and gaps below 2^31. |
| DmaRing.Capture.MainLoop | test/common/kws_bare_main.c:661-980 | For every sequence of rounds with any events: the firmware ends in the hardware state and with the threshold of the run model; it makes one copy for every round whose wait completes, and copy k is the decimated stream up to window k of the run, the last copy being what the input buffer holds. If no audio is lost, consecutive window ends lie apart by what the pass between them measured, within the same limits. In calm rounds whose passes meet their steps no audio is lost and every byte below the threshold is in a window. |
| DmaRing.Capture.TakeWindow | test/common/kws_bare_main.c:666-714 | The first half of a pass: the counter is noted, the guard taken or not, and the copy is the decimated stream. |
| DmaRing.Capture.RunEvents | test/common/kws_bare_main.c:580-588 | Any sequence of DMA bytes and burst interrupts leaves the ring, address and counter in the state that the hardware model reaches. |
| DmaRing.Capture.BurstInterrupt | test/common/kws_bare_main.c:580-588 | The destination address stays the burst's place in the ring and the counter the number of counted bytes modulo 2^32. |
| DmaRing.Capture.Move | test/common/kws_bare_main.c:446-453 | A moved byte lands in the slot of its stream position, so the ring always holds the last ring-full of the stream. |
| DmaRing.Capture.LossGuard | test/common/kws_bare_main.c:687-693 | The guard is taken exactly when more than one clip waits beyond the threshold; the threshold then becomes the counted bytes, and the reported loss lies between the lag at the test and the lag at the jump, less a clip. |
| DmaRing.Capture.Await | test/common/kws_bare_main.c:661-664 | The signed 32-bit comparison on wrapped counters makes the wait end at the poll, and in the hardware state, of the wait model. |
| DmaRun.WaitCompletes | test/common/kws_bare_main.c:661-664 | The wait completes exactly if the events on offer bring the counter to the threshold. |
| DmaRun.WaitIsPrompt | test/common/kws_bare_main.c:661-664 | If at most one burst completes between polls, the wait ends less than a burst past the threshold. |
| DmaRun.EveryRoundPasses | test/common/kws_bare_main.c:661-980 | If the events of every wait bring enough bytes, every round makes a pass. |
| DmaRun.CalmIsPrompt | test/common/kws_bare_main.c:661-694 | Rounds in which no burst completes between the end of a wait and the loss test give the prompt runs of the window model. |
| DmaRun.NoAudioLost | test/common/kws_bare_main.c:661-694 | Such rounds whose passes meet their steps lose no audio, and the windows cover every byte. |
| DmaRing.Capture.Advance | test/common/kws_bare_main.c:951-980 | The threshold moves by exactly the bytes the counter measured during the pass, but at least by the minimum step and at most by a clip (by the fixed step or the clip when so configured), although both counter values have wrapped. |
| DmaRing.SignedGap | test/common/kws_bare_main.c:662-662 | The signed reading of a wrapped difference is the true gap while the gap is within 2^31. |
| DmaRing.GuardSuffices | test/common/kws_bare_main.c:687-713 | In every state the loss guard lets through, with any burst in flight, every ring that holds its stream still holds every byte of the window when the copy ends, if and only if 2 * clip + burst + arrivals <= ring. |
| DmaRing.WindowKeptExactly | test/common/kws_bare_main.c:707-713 | Every ring that holds a stream still holds the whole window exactly while the stream is at most one ring past the window start. |
| DmaRing.FullRateClipOverrun | test/common/kws_bare_main.c:366-375 | With the 16000-byte clip in the 16384-byte ring, for every burst size, DMA events from power-up reach a state 385 bytes past the threshold in which the guard lets the copy start, and the first sample copied is not the stream's. |
| DmaRing.NextBurst | test/common/kws_bare_main.c:582-587 | Because the burst divides the ring, comparing with the end of the ring is the modular advance. |
| DmaRing.WindowSlot | test/common/kws_bare_main.c:707-712 | Index arithmetic on wrapped 32-bit values gives the stream position modulo the ring. |
| Ring.SlotOwner | test/common/kws_bare_main.c:707-713 | Which stream byte a slot holds: the newest written to it; byte t is there exactly until one ring more has been moved. |
| Ring.FilledHolds | test/common/kws_bare_main.c:446-453 | For every stream there is a ring that holds it, so statements about all such rings are not empty. |
| WindowLoop.LagOverRun | test/common/kws_bare_main.c:661-980 | Over a run without a resynchronisation the lag changes by exactly the measured bytes less the steps plus the bytes that arrive between the bottom of a pass and the start of the next. |
| WindowLoop.RunSlides | test/common/kws_bare_main.c:951-968 | In a run without loss each window end lies beyond the one before by the measured bytes, by the minimum step below it, by a clip above it. |
| WindowLoop.WindowsOverlap | test/common/kws_bare_main.c:951-968 | Under the dynamic policy two consecutive windows of such a run share exactly the clip less the measured bytes. |
| WindowLoop.RunCovers | test/common/kws_bare_main.c:386-399 | A loss-free run leaves no byte below the threshold outside every window, if steps are at most a clip. |
| WindowLoop.PassCovers | test/common/kws_bare_main.c:962-980 | One pass without loss keeps that coverage. |
| WindowLoop.Forfeited | test/common/kws_bare_main.c:682-694 | For every run, with any number of resynchronisations: a byte below the last window is in no window if and only if some resynchronisation skipped it, that is, it lies between what the windows before had reached and the start of the new one. |
| WindowLoop.SkippedBytes | test/common/kws_bare_main.c:682-694 | The number of bytes one resynchronisation skips is the lag beyond a clip plus the step before it. |
| WindowLoop.UncoveredAreGaps | test/common/kws_bare_main.c:682-694 | For windows with increasing ends, the bytes in no window are exactly those of the gaps between them. |
| WindowLoop.NoLoss | test/common/kws_bare_main.c:687-694 | If no pass takes more bytes than its step and nothing arrives unmeasured, the audio-loss branch is never taken and the lag stays under one burst. |
| WindowLoop.CertainLoss | test/common/kws_bare_main.c:393-398 | If every pass takes more bytes than its step, audio is lost within clip + 2 passes. |
| WindowLoop.StepMeets | test/common/kws_bare_main.c:953-968 | A pass of n bytes is met by its step exactly when n is at most a clip (at most the fixed step when one is configured). |
| PeakNorm.PeakNormClip | test/common/kws_bare_main.c:422-444 | The in-place loops replace the first n samples by their normalisation and leave the rest. |
| PeakNorm.Nearest | test/common/kws_bare_main.c:431-439 | The scaled magnitude is the integer nearest to 96 * s / peak, a half going up: this characterises it. |
| PeakNorm.HalfUnit | test/common/kws_bare_main.c:431-439 | Every scaled sample is within half a unit of 96 * s / peak, and a half goes away from zero. |
| PeakNorm.Monotone | test/common/kws_bare_main.c:431-439 | Larger samples never become smaller than smaller ones. |
| PeakNorm.SignKept | test/common/kws_bare_main.c:431-439 | Signs are kept and no non-zero sample becomes zero. |
| PeakNorm.InRange | test/common/kws_bare_main.c:440-441 | Neither clamp ever acts on a sample within the peak. |
| PeakNorm.PeakAfter | test/common/kws_bare_main.c:416-421 | A clip with a peak of 2 or more peaks at exactly 96 afterwards, a peak of 1 becomes 64, silence stays silent. |
| PeakNorm.IdempotentUnlessPeakOne | test/common/kws_bare_main.c:422-444 | Normalising twice is normalising once if and only if the peak is not 1. |
| PeakNorm.RoundsAsTrained | test/common/kws_bare_main.c:416-439 | A sample is rounded as the round of the training pipeline rounds it (a half to the even neighbour) if and only if its exact magnitude is not half-way above an even number. |
| PeakNorm.NormalisedAsTrained | test/common/kws_bare_main.c:416-444 | A clip is normalised as in training if and only if none of its samples is such a tie. |
| PeakNorm.TieOccurs | test/common/kws_bare_main.c:416-439 | Such ties occur: 3 in a clip that peaks at 64 becomes 5 instead of 4. |
| PeakNorm.PeakIsMaximum | test/common/kws_bare_main.c:424-428 | The peak bounds every magnitude and is attained. |
| AccelConv.Driver.Conv2dRun | test/common/nnom_conv1d_hw.c:254-311 | The fast path is taken exactly under its conditions, and then every output byte is its zero-padded weighted sum plus the shifted bias, rounded to nearest with halves up and saturated to int8, and nothing else is written; otherwise nothing is. |
| AccelConv.OutputRounds | test/common/nnom_conv1d_hw.c:271-307 | The same on the output frames of the layer, for every window and channel. |
| AccelConv.PadThenValid | test/common/nnom_conv1d_hw.c:277-307 | The valid convolution of the padded buffer is the convolution in which frames outside the input count as zero, for every stride, pad and kernel. |
| AccelConv.PaddedWindow | test/accel/accel_test.c:60-69 | A window of the padded input sums, frame by frame, to the zero-extended sum. |
| AccelConv.PaddedLength | test/common/nnom_conv1d_hw.c:167-178 | With half a kernel of padding an odd kernel gives the planned length for every stride; an even kernel does exactly when the stride does not divide the input length less one, and is otherwise one frame short. |
| AccelConv.OutputLength | test/common/nnom_conv1d_hw.c:167-178 | The computed length counts the window positions: every stride that starts inside the input with same padding, every window that fits with valid padding. |
| AccelConv.OutputsFit | test/accel/accel_test.c:58-58 | The accelerator's own length counts the windows that fit. |
| AccelConv.Driver.FoldBias | test/common/nnom_conv1d_hw.c:271-275 | The scratch arrays hold the shifted bias plus half the divisor rounded down, and the shifts, within a quarter of the accumulator range. |
| AccelConv.BiasFits | test/common/nnom_conv1d_hw.c:271-275 | For shifts up to 22 and 29 the folded bias is at most 2^30 in magnitude. |
| AccelConv.RoundHalfUp | test/common/nnom_conv1d_hw.c:271-275 | Adding half the divisor before the right shift rounds to the nearest integer, a half going up: this characterises it. |
| AccelConv.Driver.Pad | test/common/nnom_conv1d_hw.c:284-300 | The scratch buffer starts with the input between two zero margins. |
| AccelConv.AccelConv1d | test/accel/accel_test.c:52-73 | The four loops write the requantised sum of every window and channel in order, and nothing beyond them. |
| AccelConv.Accumulate | test/accel/accel_test.c:60-67 | No partial sum leaves int32 when the window has at most 255 * 255 bytes and the bias is within 2^30, and the result is bias plus dot product. |
| AccelConv.PartialSum | test/accel/accel_test.c:60-67 | Bound on every partial sum of a window. |
| AccelConv.UnpaddedFrame | test/common/nnom_conv1d_hw.c:281-283 | Without padding an output frame is the same filter application the streaming engine uses. |
| UartDecode.BaudTolerance | kws_soc_vpi.cpp:671-757 | For every bit period T and decoder divisor N: all byte sequences with all idle gaps are decoded exactly if and only if 9T <= 9N + floor(N/2) + 1 and 9N + floor(N/2) < 10T. |
| UartDecode.MessageDecoded | kws_soc_vpi.cpp:739-757 | Within the tolerance any message with any gaps is printed byte by byte and leaves the receiver at rest. |
| UartDecode.FrameDecoded | kws_soc_vpi.cpp:739-757 | One tolerated frame prints its byte and leaves the receiver at rest before the next frame. |
| UartDecode.AfterSample | kws_soc_vpi.cpp:746-749 | After sample k of a frame the shifter holds its k lowest bits and the timer one bit time. |
| UartDecode.SampleInSlot | kws_soc_vpi.cpp:739-749 | Sample k, taken kN + floor(N/2) cycles after the start edge, falls into bit slot k. |
| UartDecode.TooFast | kws_soc_vpi.cpp:750-756 | Beyond the lower bound a zero byte is followed by a spurious second byte. |
| UartDecode.TooSlow | kws_soc_vpi.cpp:750-756 | Beyond the upper bound a long enough run of back-to-back frames loses a byte, however long the line rests after it. |
| UartDecode.SpentRun | kws_soc_vpi.cpp:739-757 | Every printed byte accounts for its own full frame time of cycles. |
| UartDecode.Decoder.Watch | kws_soc_vpi.cpp:687-758 | The simulation loop runs the automaton over the line. |
| HopCapture.RunKeeps | test/model/streaming/kws_bare_stream.c:288-342 | For every interleaving of DMA words, interrupts and main-loop steps: a ready hop means the DMA is disabled, the hop buffer is full and made of whole batches, and everything the DMA moved is, in order, in the hops taken and the buffers. |
| HopCapture.HopsInOrder | test/model/streaming/kws_bare_stream.c:291-342 | Hop k is one unbroken stretch of the stream starting k periods in; no sample is dropped between hops exactly when the batch size divides the hop size. |
| HopCapture.Capture.TrapHandler | test/model/streaming/kws_bare_stream.c:288-304 | The handler appends the batch's samples as far as they fit, and disables or re-arms the DMA. |
| HopCapture.Capture.Extract | test/model/streaming/kws_bare_stream.c:291-296 | Whatever samples the words carry in bits 16 to 23, with anything above and below: the loop appends exactly those until the hop is full; the rest is dropped. |
| HopCapture.SampleOf | test/model/streaming/kws_bare_stream.c:293-293 | A word that carries a sample in bits 16 to 23 contributes exactly that sample, whatever its other bits. |
| HopCapture.HeardCarried | test/model/streaming/kws_bare_stream.c:288-304 | What has been captured are the samples that the words moved carry. |
| HopCapture.Capture.MainLoop | test/model/streaming/kws_bare_stream.c:332-342 | A main-loop step is a step of the model; when a hop is taken the safe copy is the complete hop buffer. |
| HopCapture.StuckForever | test/model/streaming/kws_bare_stream.c:333-336 | A main loop that waits in wfi while a hop is ready is never woken, whatever happens. |
| HopCapture.StuckExactly | test/model/streaming/kws_bare_stream.c:333-336 | A run of any events gets there if and only if somewhere in it the loop goes on from a failed first test to wfi although the hop has become ready in between. |
| HopCapture.WakeUpMissed | test/model/streaming/kws_bare_stream.c:333-336 | For every batch size and every hop size from one batch on there is a run from the start that reaches it: every batch is served in time but the last, whose interrupt comes between the test and wfi. |
| ScoreDetector.Detector.UpdateSmooth | test/model/streaming/kws_bare_stream.c:247-261 | The smoothed scores are the truncated means of the last min(window, k) rows, wherever the oldest row sits in the ring. |
| ScoreDetector.Detector.ProcessHop | test/model/streaming/kws_bare_stream.c:349-379 | One hop appends its row and the verdict of the detector on the smoothed rows. |
| ScoreDetector.Best | test/model/streaming/kws_bare_stream.c:358-366 | The best class is the first of those with the highest score. |
| ScoreDetector.FiresExactly | test/model/streaming/kws_bare_stream.c:352-379 | A hop is reported exactly if one of the ten keyword classes has the highest score, is the first that has it and is above the threshold, and none of the last KWS_DEBOUNCE_HOPS hops was reported; the report is that class and its score. |
| ScoreDetector.SmoothedMeans | test/model/streaming/kws_bare_stream.c:247-261 | A smoothed score is the sum of the last SMOOTH_WIN scores of its class (of all while there are fewer) divided by their number, rounded toward zero. |
| ScoreDetector.ReportsApart | test/model/streaming/kws_bare_stream.c:352-379 | Any two reports are at least KWS_DEBOUNCE_HOPS + 1 hops apart. |
| ScoreDetector.CountdownMeans | test/model/streaming/kws_bare_stream.c:352-356 | The countdown exceeds d exactly if one of the last KWS_DEBOUNCE_HOPS - d hops was reported. |
| KeywordFirmware.Firmware.ServeHop | test/model/streaming/kws_bare_stream.c:344-379 | Serving one hop of any length of at least 1600 samples keeps every row of scores equal to that of the network run once over the whole recording so far, and the reports equal to the detector on those rows. |
| KeywordFirmware.Firmware.Score | test/model/streaming/kws_bare_stream.c:344-347 | Such a hop always produces scores. |
| KeywordFirmware.ReportsDetermined | test/model/streaming/kws_bare_stream.c:332-380 | Two firmwares that served the same hops have made the same reports. |
| KeywordFirmware.ReportExactly | test/model/streaming/kws_bare_stream.c:332-380 | Report k is made exactly if the smoothed whole-recording scores up to hop k are confident for one of the ten keywords and no report was made in the last KWS_DEBOUNCE_HOPS hops. |
| KeywordDevice.Device.RunEvents | test/model/streaming/kws_bare_stream.c:288-380 | Capture and main loop together, for every interleaving of DMA words, interrupts and main-loop steps: the hops scored are, in order, exactly the hops taken, also while the copied hop is still being scored. |
| KeywordDevice.ScoresOfTheStream | test/model/streaming/kws_bare_stream.c:288-350 | If the words the DMA moved carry given samples in bits 16 to 23, row k of the scores is that of the network run once over the samples of hops 0 to k; with a batch that divides the hop those are all samples up to there. |
| KeywordDevice.ReportsOfTheStream | test/model/streaming/kws_bare_stream.c:288-380 | Two devices that heard the same samples for n hops have made the same n reports, whatever the interleavings were. |
| KeywordDevice.TakenStretches | test/model/streaming/kws_bare_stream.c:291-342 | The samples of the first n hops taken are one stretch of the hop size out of every period of the stream. |
| ScoreDetector.ReportsStand | test/model/streaming/kws_bare_stream.c:349-379 | Later hops change no earlier report. |

## Left out

- The NNoM library (dense layers, softmax, requantisation variants, the software fallback
  of the accelerated layer) and all weight tables: the library source is not part of this
  model; the fallback is only recorded as not taking the fast path.
- Layout of a frame inside the streaming engine's byte buffers: there a frame is one
  value and a buffer an array of frames. The flat layout is modelled in `AccelConv`.
- Signed overflow of `gap_head` after about 2^31 output frames: the counter is unbounded.
- FLASHSIM::load, set, simtick, debug output and the idle throttle: file handling, host
  delays and printing. Bits of the status register that no command sets are not modelled.
- Flash reads that run past the end of memory, status writes and clears with too many
  clocks and sector addresses of 4 MB or more stop the original simulator or leave its
  memory; the step method requires their absence, and `FlashSound` says exactly when a
  transaction causes it. Transactions of more than 2^32 clocks are covered only by the
  statements about writes.
- The wake-up time after a release from deep power down, the configuration register read
  and the electronic signature of command 0xAB: part of the step function, without a
  statement of their own.
- `Simulator.Call`, `FlashSession`: transactions that stop before their address is complete
  are covered by the run invariants but not by the session lemmas.
- Heap.Allocator.Calloc: requires a product of at most 2^32 - 8 (or one that overflows),
  because above that the rounded request wraps to 0.
- Heap.Allocator.Realloc: requires a size of at most 2^32 - 8, for the same reason.
- Heap.Allocator.Malloc: payloads are not claimed to be 8-byte aligned; a 12-byte header
  gives only 4. The linker symbols are assumed to lie above address 0 and inside memory.
- Reading a pointer that is not live (double free, use after free): callers must pass
  live pointers, as in C.
- DmaRing.Capture.Occur: the DMA starts no burst before the handler of the last one
  has run, and keeps the address it was given; the register accesses that arm it, the CSR
  and PLIC set-up and the UART prints are not modelled.
- Classification, voting and printing between the snapshot and the bottom of the main
  loop: they only let time pass, which is part of the hardware schedule.
- HopCapture.Capture.TrapHandler: no new burst completes while the handler runs. `wfi` is
  taken to wait for an interrupt; an implementation that resumes at once avoids the
  missed wake-up.
- Layers with a height or a kernel height other than 1, dilation, or parameters above the
  driver's 8-bit ranges: they take the fallback or do not occur.
- Parity, framing errors and bit periods that are not whole cycles in `UartDecode`; the
  receiver itself never checks the stop bit.
- Sockets, argument parsing, waveform output and console output of the testbenches,
  Python scripts, PLL generation and build files: I/O plumbing.
- `dataflow_test.c`, `slide_test.c` and the other test mains: they repeat the ring logic or
  only print.
