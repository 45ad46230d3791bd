# Stream plumbing of the Bluetooth audio firmware

A Dafny model of the code that moves and frames bytes between the radio, the two processor cores
and the codecs, and of three smaller state machines beside it, with proofs of what it keeps over
whole runs. `dafny verify dfyconfig.toml` checks everything.

The code is imperative, and so is the model: classes hold the ring positions, buffers, flags and
counters that the source keeps in statics, their methods update them in place with the source's
branches and loops, and each method is proved equal to a transition function on values. The
theorems are about those functions: over every run, every interleaving, every cutting of a stream
into calls.

| Component | Modules |
|---|---|
| Byte queue and ring laws | `Ring`, `ByteQueue` |
| Input cache between MCU and co-processor (CP), AAC and LHDC framing on it | `CpInCache`, `Framing`, `CpPipeline`, `PacketPipeline`, `PacketProgress` |
| PCM slots handed back by the CP | `CpSlots`, `SlotProtocol` |
| LHDC packet reassembly, alone and on the whole path to the decoder | `LhdcAssembler`, `LhdcChannel`, `LhdcChain` |
| Upsampler of the voice path | `UpsampleFir` |
| Re-blocking of SCO frames | `ScoReblock` |
| mSBC link: receiver, senders, both together | `MsbcDecoder`, `MsbcStream`, `MsbcTails`, `MsbcRecovery`, `MsbcUplink`, `MsbcLoopback` |
| Echo reference queue | `EchoQueue` |
| Audio request list and its message handler | `AudioList`, `AudioHandler` |
| Code patcher | `ThumbBranch`, `CodePatch`, `PatchUnit` |
| Factory command link and test pattern | `CdcParser`, `CdcLink`, `PcmPattern` |

Concurrency is modelled as interleaved steps over sequentially consistent memory: the ring protocol
at the granularity of one byte copied and one position published, the slot protocol at one access
to the shared slot words and one byte of PCM copied out. `CpPipeline` and `SlotProtocol` give the
steps; the classes `Cache` and `Slots` give the same calls as imperative code, and
`CopyAllIsRingWrite` and `McuStepsAreProcess` say that the steps add up to the calls.

## Where the code does less than it seems to

The code is modelled as it is; in these places the exact condition, or a run, is proved.

- `store_sbc_buffer` accepts AAC packets of any length and keeps the length modulo 65536; a packet
  comes back whole if and only if it has fewer than 2048 bytes (`Framing.AacHead`). Behind one of
  2048 to 65535 bytes the CP never takes another byte, in spite of the queue reset that the bad
  length asks for, while everything before it can still be delivered
  (`PacketPipeline.OversizePacketWedges`, `PacketProgress.WedgedRun`,
  `PacketProgress.AllUpToCanBeDelivered`).
- The MCU looks at its slot twice; a slot finished between the looks is freed unheard
  (`SlotProtocol.GoodSlotCanBeDropped`). A slot resumed half filled is never heard either, since
  only the length of its last pass is compared (`SlotProtocol.SlotsRetireInOrder`), and the resumed
  pass may run over into the next slot, even while the MCU copies it, so that bytes are played that
  were not decoded into it (`SlotProtocol.ResumedPassCorruptsNextSlot`,
  `SlotProtocol.SpillDuringCopy`); a pass from the start of its slot never does
  (`SlotProtocol.WriteStaysInSlot`).
- A gap of a positive multiple of 256 LHDC packets is invisible to the 8-bit number. Where it begins
  inside a frame complete so far, two frames are joined or one is swallowed, unless the joined run
  overflows the packet buffer (`LhdcChannel.HiddenGapIff`, `LhdcChannel.HiddenGapSwallows`); no
  other gap harms a frame that lost nothing (`LhdcChannel.ExactlyIntactFramesArrive`).
- A voice pipeline serves every call after the first exactly if block minus frame divides the frame
  (`ScoReblock.ServedIffDivides`).
- The mSBC receiver accepts a header one word early or late without ever correcting the lock
  (`MsbcStream.WindowGood`), and may drop its very first lock, taken on a window that is still half
  zeroed history, to find it again in a later call (`MsbcStream.FirstCall`). A lock farther off is
  kept as long as the windows it checks read as mute (`MsbcRecovery.ApartCall`). The condition in
  front of the flag 3 at line 1061 of `voicebtpcmplay.cpp` ends in a semicolon, so the flag is set
  without it; the model does the same.
- A bad frame tail makes the mSBC receiver give up the next frame as well
  (`MsbcTails.OneBadTail`).
- `patch_enable` gives back the wrong slot when the second one for a function is missing
  (`CodePatch.ThirdErrorLeaks`), and `patch_disable` frees only slots whose number is below 8
  modulo 32 (`CodePatch.DisableUndoesEnable`).
- A command frame above 255 bytes fails its own checksum except for two chance values, because the
  length is cut to a byte (`CdcParser.WhichFramesPass`).
- A lent echo frame is overwritten by the next put if the ring was full
  (`EchoQueue.BorrowedFrameSurvives`).
- The test pattern read from an odd position starts one byte early (`PcmPattern.ContinuesIffEven`).
- The second ASSERT of the audio list can never fail, on any list (`AudioList.WhenAssertsFail`).
- Opening a stream while another one of its direction runs removes the tail of the audio list, which
  may be a playback still waiting: it never plays (`AudioHandler.WaitingPlaybackIsLost`,
  `AudioHandler.PlaybackOverStreamIsUnlisted`). `AudioHandler.StepInOrderIff` gives the exact
  condition, message by message, under which playbacks play in the order of acceptance.
- A capture buffer place for which the queue holds too little is sent as it stands
  (`MsbcUplink.PackedAt`).

## Model

| member | source | states |
|---|---|---|
| `ByteQueue.CQueue.constructor` | utils/cqueue/cqueue.c:29-39 | a queue over a buffer starts empty |
| `ByteQueue.CQueue.Length` | utils/cqueue/cqueue.c:51-54 | the number of bytes waiting, without changing the queue |
| `ByteQueue.CQueue.Available` | utils/cqueue/cqueue.c:57-60 | the room left: together with the bytes waiting it is the buffer size |
| `ByteQueue.CQueue.EnCQueue` | utils/cqueue/cqueue.c:64-86 | all-or-nothing append: succeeds exactly when the bytes fit, and a refusal leaves queue and buffer alone, whether or not the copy wraps |
| `ByteQueue.CQueue.DeCQueue` | utils/cqueue/cqueue.c:285-312 | drops a prefix, or nothing when there are fewer bytes (the form without a destination) |
| `ByteQueue.CQueue.Peek` | utils/cqueue/cqueue.c:315-336 | the two segments put together are the first bytes of the queue; an error gives none |
| `ByteQueue.CQueue.Reset` | utils/cqueue/cqueue.c:407-411 | empties the queue |
| `Ring.AppendAtEnd` | apps/audioplayers/a2dpplay.cpp:2541-2585 | a wrapped write right behind the unread bytes appends to what is read |
| `Ring.StoreOne` | apps/audioplayers/a2dpplay.cpp:2541-2585 | storing one byte in the free part changes no unread byte |
| `Ring.AdvIsMod` | utils/cqueue/cqueue.c:308-308 | the remainder form and the compare-and-subtract form of moving a position agree |
| `CpInCache.Free` | apps/audioplayers/a2dpplay.cpp:2514-2526 | free and unread bytes make up all but one byte of the cache |
| `CpInCache.AacReadSize` | apps/audioplayers/a2dpplay.cpp:2129-2146 | the length given to the decoder is the smallest power of two from 64 to 2048 above the packet length |
| `CpInCache.Cache.constructor` | apps/audioplayers/a2dpplay.cpp:2475-2475 | the cache starts empty |
| `CpInCache.Cache.McuLoad` | apps/audioplayers/a2dpplay.cpp:2502-2592 | under any stale read position: the bytes moved leave the front of the queue, appear behind the unread bytes in order, and are as many as the snapshot allows |
| `CpInCache.Cache.CopySegments` | apps/audioplayers/a2dpplay.cpp:2541-2585 | for every split of the queue bytes into two segments and every wrap, the copies are one ring write and the new write position follows it |
| `CpInCache.Cache.CopyWrapped` | apps/audioplayers/a2dpplay.cpp:2552-2563 | one segment copied in two pieces at the end of the cache is one ring write |
| `CpInCache.Cache.GetData` | apps/audioplayers/a2dpplay.cpp:2235-2248 | the one or two copies give the bytes from the position on, in order |
| `CpInCache.Cache.LoadSbc` | apps/audioplayers/a2dpplay.cpp:2171-2210 | the span lent to the decoder lies in the cache without wrapping, holds the oldest unread bytes, and is as long as frame size, end of the cache and visible bytes allow |
| `CpInCache.Cache.ConsumeSbc` | apps/audioplayers/a2dpplay.cpp:2213-2218 | consuming drops exactly that many unread bytes |
| `CpInCache.Cache.AacHeader` | apps/audioplayers/a2dpplay.cpp:2122-2126 | the length is read correctly when its second byte has wrapped |
| `CpInCache.Cache.LoadAac` | apps/audioplayers/a2dpplay.cpp:2107-2167 | the load is the parse of the visible bytes: a whole packet is copied out and consumed, otherwise the read position stays, with the return values kept apart; the reset of the queue is asked for exactly with a rejected length |
| `CpInCache.Cache.Take` | apps/audioplayers/a2dpplay.cpp:2081-2086 | a payload behind its header is copied out and header and payload are consumed together |
| `CpInCache.Cache.SeekTag` | apps/audioplayers/a2dpplay.cpp:2062-2075 | the scan stops, and finds the first tag among the visible bytes or runs out of them |
| `CpInCache.Cache.LoadLhdc` | apps/audioplayers/a2dpplay.cpp:2035-2102 | either the read position stays or junk, header and payload of the first container are consumed; latency change and decoder not ready leave the cache alone |
| `CpInCache.StoreAac` | apps/audioplayers/a2dpplay.cpp:461-470 | length prefix and packet enter the queue together or not at all |
| `CpInCache.StoreLhdc` | apps/audioplayers/a2dpplay.cpp:424-449 | tag, length and payload enter the queue together or not at all |
| `Framing.ParseAac` | apps/audioplayers/a2dpplay.cpp:2107-2167 | a payload handed out is the bytes behind a two-byte length, and what is consumed covers exactly both |
| `Framing.AacHead` | apps/audioplayers/a2dpplay.cpp:2122-2150 | a stored AAC packet of any length: its header keeps the length modulo 65536, the load rejects it or takes that many bytes, and gives the whole packet if and only if it has fewer than 2048 bytes |
| `Framing.WholeHead` | apps/audioplayers/a2dpplay.cpp:461-470 | a stored packet at the front gives the whole packet if it is taken by its length and is rejected otherwise |
| `Framing.PartOfHead` | apps/audioplayers/a2dpplay.cpp:2116-2153 | a packet cut short gives nothing, except that a bad length is rejected as soon as both its bytes are there |
| `Framing.ParseLhdcIsFirstContainer` | apps/audioplayers/a2dpplay.cpp:2062-2091 | what the byte-by-byte scan returns is what the first tag announces, stated without the scan |
| `Framing.ParseLhdcNoTag` | apps/audioplayers/a2dpplay.cpp:2062-2075 | without a tag nothing is ever consumed |
| `Framing.JunkHidesNoTag` | apps/audioplayers/a2dpplay.cpp:2071-2075 | the tag has no border: junk before a container cannot form an overlapping tag with it |
| `Framing.LhdcResync` | apps/audioplayers/a2dpplay.cpp:2035-2102 | behind any junk without a tag the load returns precisely the next stored container |
| `Framing.LhdcPartial` | apps/audioplayers/a2dpplay.cpp:2077-2079 | a container of which the end is missing is left alone, junk included |
| `Framing.LittleEndian32` | apps/audioplayers/a2dpplay.cpp:434-434 | the four bytes of a stored length read back as that length |
| `Framing.StreamHead` | apps/audioplayers/a2dpplay.cpp:2035-2167 | on a prefix of stored packets a load goes by the first packet alone: nothing before all its bytes are there, then the packet, or a rejection as soon as a bad length is |
| `Framing.EnoughBytesMeanAFrame` | apps/audioplayers/a2dpplay.cpp:1918-1918 | as many visible bytes as the longest packet takes always contain a whole one |
| `CpPipeline.StepKeepsInv` | apps/audioplayers/a2dpplay.cpp:2502-2592 | every interleaved step of either core keeps: nothing lost, repeated or reordered between queue, cache and consumer, and partial copies agree with the cache |
| `CpPipeline.RingRefinesFifo` | apps/audioplayers/a2dpplay.cpp:2502-2592 | in every state of every interleaving: accepted bytes = consumed + unread + waiting, used + free = size - 1, and stale snapshots meet what the cache operations assume |
| `CpPipeline.NoUnreadByteOverwritten` | apps/audioplayers/a2dpplay.cpp:2541-2585 | no byte step of the MCU touches an unread byte, so a lent span keeps its contents |
| `CpPipeline.CopyAllIsRingWrite` | apps/audioplayers/a2dpplay.cpp:2541-2585 | the byte-by-byte copy of the model adds up to the ring write of the whole-call contract |
| `PacketPipeline.LoadIsNextPacket` | apps/audioplayers/a2dpplay.cpp:2107-2167 | in reachable states a load goes by the next undelivered packet, and a rejection means that this one is too long |
| `PacketPipeline.PacketsArriveInOrder` | apps/audioplayers/a2dpplay.cpp:2107-2167 | for every run, both formats and packets of any length the header can hold: delivered packets are a prefix of those accepted, the bytes consumed are exactly theirs, and none at or behind an AAC packet of 2048 bytes or more is delivered |
| `PacketPipeline.FullCacheDelivers` | apps/audioplayers/a2dpplay.cpp:2502-2592 | a cache with as many bytes as the longest packet delivers the next packet if it fits |
| `PacketPipeline.OversizeAheadIff` | apps/audioplayers/a2dpplay.cpp:2146-2150 | the rejected length is at the head exactly when the next accepted packet has 2048 bytes or more and two of its bytes have arrived |
| `PacketPipeline.OversizePacketWedges` | apps/audioplayers/a2dpplay.cpp:2799-2805 | from there on no byte is ever taken again, not even after the reset of the queue |
| `PacketProgress.NextPacketCanBeDelivered` | apps/audioplayers/a2dpplay.cpp:2502-2592 | progress: from every reachable state finitely many steps deliver the next packet if it is taken and smaller than the cache |
| `PacketProgress.AllUpToCanBeDelivered` | apps/audioplayers/a2dpplay.cpp:2107-2167 | so every accepted packet before the first that is too long can be delivered, in every reachable state |
| `PacketProgress.OversizeArrives` | apps/audioplayers/a2dpplay.cpp:461-470 | from every reachable state in which a packet of 2048 bytes or more is next, finitely many steps reach the wedge |
| `PacketProgress.WedgedRun` | apps/audioplayers/a2dpplay.cpp:461-470 | a run into the wedge, for every packet of 2048 to 65535 bytes |
| `CpSlots.Slots.constructor` | apps/audioplayers/a2dpplay.cpp:2468-2499 | the primed slots are done and full, the others idle |
| `CpSlots.Slots.CpBegin` | apps/audioplayers/a2dpplay.cpp:2442-2465 | a pass starts only on a slot that is not finished: at the start of an idle one, behind what one in work holds, or at its start again when that fills it |
| `CpSlots.Slots.CpEnd` | apps/audioplayers/a2dpplay.cpp:2361-2388 | a retried pass leaves slot and index; any other one finishes the slot by comparing the length of this pass |
| `CpSlots.Slots.McuProcess` | apps/audioplayers/a2dpplay.cpp:2595-2641 | for a request of any length: PCM comes out of a done slot of the loop size only if that is the length asked for, the return value says which test failed; any finished slot is freed and the index moves |
| `SlotProtocol.StepKeepsInv` | apps/audioplayers/a2dpplay.cpp:2361-2388 | every step of either core keeps the protocol invariant, including the two separate looks of the MCU and its copy byte by byte beside a writing CP |
| `SlotProtocol.FinishedSlotsAreTheRange` | apps/audioplayers/a2dpplay.cpp:2263-2281 | in every reachable state the finished slots are the cyclic range between the two indices, all three when these meet on one |
| `SlotProtocol.CoresKeepToTheirSlots` | apps/audioplayers/a2dpplay.cpp:2263-2281 | the CP changes only unfinished slots, the MCU frees only finished ones |
| `SlotProtocol.DoneSlotHolds` | apps/audioplayers/a2dpplay.cpp:2459-2461 | in every reachable state a slot done in one pass holds the decoded PCM with exactly the spill of resumed passes laid over its beginning |
| `SlotProtocol.SlotsRetireInOrder` | apps/audioplayers/a2dpplay.cpp:2595-2641 | slots are freed once each in the order of their finish; PCM is copied exactly if the first look saw the slot done and its last pass filled it from the start; byte for byte it is what was decoded or what had been spilled there by then, so it is right if and only if the spilled bytes equal those they cover |
| `SlotProtocol.ForeignIsSpilled` | apps/audioplayers/a2dpplay.cpp:2616-2616 | what counts as foreign in a copy is the spill at the moment that byte is copied |
| `SlotProtocol.OnlyResumedPassesSpill` | apps/audioplayers/a2dpplay.cpp:2459-2461 | only a resumed pass on the slot before spills into a slot, with all that it produced beyond its own slot, and only the next finish of that slot clears it |
| `SlotProtocol.PassesBeginInPlace` | apps/audioplayers/a2dpplay.cpp:2442-2465 | over all runs: a pass on a slot just claimed, or never retried since, begins at its start, and any other one behind the bytes of the passes since the claim, or at the start again when these fill the slot; so does the last pass of every finish |
| `SlotProtocol.PassesAreLogged` | apps/audioplayers/a2dpplay.cpp:2361-2388 | the passes meant there are those since the claim, each with what it produced |
| `SlotProtocol.NextSlotCanRetire` | apps/audioplayers/a2dpplay.cpp:2595-2641 | from every reachable state with a finished slot, steps of the MCU alone free the next one |
| `SlotProtocol.NextSlotCanFinish` | apps/audioplayers/a2dpplay.cpp:2391-2430 | from every reachable state with a slot to spare, steps of the CP alone finish another one, and one begun anew holds any block the decoder gives |
| `SlotProtocol.ResumedPassCorruptsNextSlot` | apps/audioplayers/a2dpplay.cpp:2459-2461 | a run in which the MCU copies bytes out of a finished slot that the decoder did not put there |
| `SlotProtocol.SpillDuringCopy` | apps/audioplayers/a2dpplay.cpp:2616-2616 | a run in which the spill comes in the middle of the copy: the PCM is neither what was decoded nor what the slot holds then |
| `SlotProtocol.LogsOnlyGrow` | apps/audioplayers/a2dpplay.cpp:2595-2641 | the logs record events in their order |
| `SlotProtocol.McuStepsAreProcess` | apps/audioplayers/a2dpplay.cpp:2595-2641 | the interleaved steps taken in a row are the whole-call operation: same table, PCM exactly with return value 0, same PCM |
| `SlotProtocol.GoodSlotCanBeDropped` | apps/audioplayers/a2dpplay.cpp:2607-2637 | a run in which a complete slot is freed without its PCM: the CP finishes it between the two looks |
| `SlotProtocol.WriteStaysInSlot` | apps/audioplayers/a2dpplay.cpp:2459-2461 | a pass that began at the start of its slot changes no byte of the other slots, whatever passes came before it |
| `SlotProtocol.WriteTouches` | apps/audioplayers/a2dpplay.cpp:2459-2461 | a pass writes into its own slot and, only where it runs over, into the next one |
| `LhdcAssembler.Assembler.constructor` | apps/audioplayers/a2dpplay.cpp:1585-1591 | the initial assembly state |
| `LhdcAssembler.Assembler.Reset` | apps/audioplayers/a2dpplay.cpp:1577-1583 | out of step, waiting for a first fragment, empty buffer |
| `LhdcAssembler.Assembler.Assemble` | apps/audioplayers/a2dpplay.cpp:1672-1786 | state, return value and payload of the buffer-filling code are those of the transition function, for fragments of any length |
| `LhdcAssembler.Assembler.Switch` | apps/audioplayers/a2dpplay.cpp:1707-1784 | the two assembly states, with the overflow exits |
| `LhdcAssembler.ReachableInv` | apps/audioplayers/a2dpplay.cpp:1672-1786 | waiting for a last fragment implies being in step, waiting for a first one implies an empty buffer, and the expected number follows the latest packet |
| `LhdcAssembler.WaitingHoldsAnOpenRun` | apps/audioplayers/a2dpplay.cpp:1726-1779 | after any packets, the buffer is the concatenation of an unbroken run from a first fragment on |
| `LhdcAssembler.DeliveredIsAPacketOrARun` | apps/audioplayers/a2dpplay.cpp:1672-1786 | safety: a delivered payload is one unfragmented packet or an unbroken modulo-256 run from a first fragment to the first last one |
| `LhdcAssembler.PayloadIffOne` | apps/audioplayers/a2dpplay.cpp:1672-1786 | a payload comes with return value 1 and only then |
| `LhdcChannel.PacketStep` | apps/audioplayers/a2dpplay.cpp:1672-1786 | one packet of a frame hands out the frame exactly when it is the last one and all arrived |
| `LhdcChannel.ExactlyIntactFramesArrive` | apps/audioplayers/a2dpplay.cpp:1672-1786 | for every loss pattern in which no gap that begins inside a frame complete so far is a multiple of 256: exactly the frames that lost nothing come out, whole, once and in order |
| `LhdcChannel.RecoversAfterGap` | apps/audioplayers/a2dpplay.cpp:1689-1704 | after any history at all and a gap that shows, the damaged frame is dropped and every later frame is exact |
| `LhdcChannel.LosslessRoundTrip` | apps/audioplayers/a2dpplay.cpp:1672-1786 | reassembly inverts fragmentation for every frame sequence, across the 8-bit wrap |
| `LhdcChannel.HiddenGapIff` | apps/audioplayers/a2dpplay.cpp:1689-1704 | the exact outcome of a gap the numbers do not show, after any history that leaves a frame open: two frames joined if that fits, nothing otherwise; right if and only if a damaged frame overflows the buffer, or a whole one that fits is joined to an empty beginning |
| `LhdcChannel.HiddenGapSwallows` | apps/audioplayers/a2dpplay.cpp:1689-1704 | if such a gap ends on an unfragmented packet, that frame is lost though it arrived |
| `LhdcChain.FeedIsThrough` | apps/audioplayers/a2dpplay.cpp:1672-1786 | the assembler over the packets that a channel lets through is the transmission of the theorems above |
| `LhdcChain.DecoderGetsIntactFrames` | apps/audioplayers/a2dpplay.cpp:382-470 | end to end, under any interleaving: handed out are the first frames that lost nothing, accepted those that found room, and the decoder has got the first of the accepted ones, whole and in order |
| `LhdcChain.AcceptedFramesCanBeDelivered` | apps/audioplayers/a2dpplay.cpp:2035-2102 | from every state of that path finitely many steps bring every accepted frame to the decoder |
| `UpsampleFir.Upsampler.constructor` | apps/audioplayers/voicebtpcmplay.cpp:2194-2197 | the history starts silent |
| `UpsampleFir.Upsampler.Run` | apps/audioplayers/voicebtpcmplay.cpp:2200-2241 | one call of any length: its output is the convolution of history and input, and the history becomes the latest 23 samples |
| `UpsampleFir.Upsampler.Emit` | apps/audioplayers/voicebtpcmplay.cpp:2207-2219 | all phases of one input sample, in order |
| `UpsampleFir.Upsampler.OneTap` | apps/audioplayers/voicebtpcmplay.cpp:2209-2217 | the 24-tap sum reads the first samples from the history and wraps as a 32-bit int |
| `UpsampleFir.Upsampler.Carry` | apps/audioplayers/voicebtpcmplay.cpp:2222-2239 | both branches leave the latest 23 samples in the history |
| `UpsampleFir.Upsampler.Memmove16` | apps/audioplayers/voicebtpcmplay.cpp:2232-2234 | the overlapping forward copy within the history is safe |
| `UpsampleFir.ConvSplit` | apps/audioplayers/voicebtpcmplay.cpp:2200-2241 | a convolution cut anywhere goes on from the last 23 samples |
| `UpsampleFir.ConvAt` | apps/audioplayers/voicebtpcmplay.cpp:2205-2220 | each output is the 24-tap sum over its own window of the stream |
| `UpsampleFir.ChunkInvariance` | apps/audioplayers/voicebtpcmplay.cpp:2200-2241 | for any split of a stream into calls, shorter or longer than 23, the outputs are the direct convolution of the zero-prefixed stream |
| `UpsampleFir.LargestRowSum` | apps/audioplayers/voicebtpcmplay.cpp:2158-2182 | no row of either table has an absolute sum above 71978, which one row reaches |
| `UpsampleFir.NoWrap` | apps/audioplayers/voicebtpcmplay.cpp:2209-2217 | with samples of magnitude at most 29835 no partial sum of any phase leaves 32 bits |
| `UpsampleFir.BoundIsTight` | apps/audioplayers/voicebtpcmplay.cpp:2158-2182 | with magnitude 29836 a window exists whose sum does |
| `UpsampleFir.TapIsFloor` | apps/audioplayers/voicebtpcmplay.cpp:2209-2217 | with samples of magnitude at most 29835 an output is the exact 24-tap sum over 65536, rounded down |
| `UpsampleFir.ConvIsFloor` | apps/audioplayers/voicebtpcmplay.cpp:2200-2241 | so is every output of a whole stream, each of its own window and phase |
| `UpsampleFir.AccIsExactModulo` | apps/audioplayers/voicebtpcmplay.cpp:2209-2217 | whatever the samples, the accumulator is the exact sum modulo 2 to the 32 |
| `UpsampleFir.ImpulseResponse` | apps/audioplayers/voicebtpcmplay.cpp:2209-2217 | a window silent but for one place gives that sample times the coefficient of that place |
| `ScoReblock.Path.constructor` | apps/audioplayers/wl_sco_process.c:364-409 | both queues start empty |
| `ScoReblock.Path.Get` | apps/audioplayers/wl_sco_process.c:140-160 | all the bytes asked for, or zeros and an error with the queue untouched |
| `ScoReblock.Path.Feed` | apps/audioplayers/wl_sco_process.c:547-588 | the frame goes in and at most one block is processed, which may change the state of the filters |
| `ScoReblock.Path.Run` | apps/audioplayers/wl_sco_process.c:529-613 | queues and caller's buffer after one call are those of the step function |
| `ScoReblock.SteadyCall` | apps/audioplayers/wl_sco_process.c:529-613 | from the second call on nothing overflows, a frame is served, and the queues together hold one frame |
| `ScoReblock.OneFrameDelay` | apps/audioplayers/wl_sco_process.c:529-613 | over any number of calls: every call after the first serves a whole frame, and what is served is the input, run block by block through filters that keep a state, without gap and one frame late |
| `ScoReblock.RxOutputIsPreviousInput` | apps/audioplayers/wl_sco_process.c:547-601 | on the receive path output k is input k - 1 |
| `ScoReblock.FirmwareSizesFit` | apps/audioplayers/wl_sco_process.c:386-398 | the 16 kHz and 8 kHz sizes meet the condition |
| `ScoReblock.UnderrunOtherwise` | apps/audioplayers/wl_sco_process.c:596-601 | when the divisibility is lost, some later call leaves the caller's own input in the buffer |
| `ScoReblock.ServedIffDivides` | apps/audioplayers/wl_sco_process.c:529-613 | every call after the first is served if and only if block minus frame divides the frame |
| `MsbcDecoder.Decoder.constructor` | apps/audioplayers/voicebtpcmplay.cpp:876-884 | zeroed buffer, out of step |
| `MsbcDecoder.Decoder.Decode` | apps/audioplayers/voicebtpcmplay.cpp:881-1253 | state, flags and frames of one call, whatever the number of frames in it, are those of the step function |
| `MsbcDecoder.Decoder.Receive` | apps/audioplayers/voicebtpcmplay.cpp:905-910 | the words arrive right behind the 60 kept ones |
| `MsbcDecoder.Decoder.Judge` | apps/audioplayers/voicebtpcmplay.cpp:926-1078 | search while out of step, then every window flagged; a flag above 1 loses the step |
| `MsbcDecoder.Decoder.FindHeader` | apps/audioplayers/voicebtpcmplay.cpp:928-931 | the first header, or none |
| `MsbcDecoder.Decoder.CheckWindows` | apps/audioplayers/voicebtpcmplay.cpp:968-1066 | the flags of the windows in order, a window given up after a bad tail |
| `MsbcDecoder.Decoder.Check` | apps/audioplayers/voicebtpcmplay.cpp:993-1064 | header one word early, in place or one word late, with the tail of that place; mute pattern; anything else is out of step |
| `MsbcDecoder.Decoder.OrFlags` | apps/audioplayers/voicebtpcmplay.cpp:1072-1077 | the OR of the flags exceeds 1 exactly if one of them does |
| `MsbcDecoder.Decoder.Extract` | apps/audioplayers/voicebtpcmplay.cpp:1081-1089 | good windows are handed on byte by byte, the others left to concealment |
| `MsbcDecoder.Decoder.ShiftDown` | apps/audioplayers/voicebtpcmplay.cpp:1245-1248 | the last 60 words become the history, copied in place |
| `MsbcDecoder.Search` | apps/audioplayers/voicebtpcmplay.cpp:928-931 | the place found is a header and none lies before it |
| `MsbcStream.WindowsTile` | apps/audioplayers/voicebtpcmplay.cpp:1081-1089 | while locked, the windows of all calls together tile the delayed stream with no gap or overlap, whatever the calls' lengths |
| `MsbcStream.SearchFindsPhase` | apps/audioplayers/voicebtpcmplay.cpp:926-953 | on a well-formed stream the search stops at the true phase |
| `MsbcStream.WindowGood` | apps/audioplayers/voicebtpcmplay.cpp:1014-1052 | a window in place, one word early or one late is flagged good: a lock off by one word is never noticed |
| `MsbcStream.CallDelivers` | apps/audioplayers/voicebtpcmplay.cpp:881-1253 | one call on a well-formed stream: all frames good and equal to the stream, the lock kept or found |
| `MsbcStream.EveryFrameArrives` | apps/audioplayers/voicebtpcmplay.cpp:881-1253 | out of step or locked at most one word off, also across the frame boundary: any run of calls on a well-formed stream delivers every frame exactly, and the lock never drops |
| `MsbcStream.FirstCall` | apps/audioplayers/voicebtpcmplay.cpp:926-953 | from power-up: exactly when the first call locks, and that the decoder is on track after it either way |
| `MsbcStream.ColdFirstWindow` | apps/audioplayers/voicebtpcmplay.cpp:1053-1064 | the window that straddles the zeroed history is out of step unless it reads as mute |
| `MsbcStream.FromColdStart` | apps/audioplayers/voicebtpcmplay.cpp:881-1253 | from power-up, after the first words every frame of the stream is delivered exactly |
| `MsbcTails.WindowByTail` | apps/audioplayers/voicebtpcmplay.cpp:1014-1052 | a window at most one word off is judged by the tail of its frame: a bad one gives it up and asks for the next to be given up |
| `MsbcTails.TailsDecide` | apps/audioplayers/voicebtpcmplay.cpp:881-1253 | with the headers in place, whatever the tails and however the words are cut into calls: exactly the windows told by the rule are given up, every other frame is delivered, the lock is kept |
| `MsbcTails.LostIff` | apps/audioplayers/voicebtpcmplay.cpp:984-989 | the rule in closed form: a window is given up if its tail is bad or an odd number of bad ones come right before it |
| `MsbcTails.OneBadTail` | apps/audioplayers/voicebtpcmplay.cpp:968-1066 | one bad tail costs exactly its frame and the next, across calls too, and never the lock |
| `MsbcRecovery.ApartCall` | apps/audioplayers/voicebtpcmplay.cpp:993-1077 | a call whose lock is two words or more off hands over nothing, and loses the step if and only if a window it checks does not read as mute |
| `MsbcRecovery.Reacquires` | apps/audioplayers/voicebtpcmplay.cpp:881-1253 | from such a lock, for any cutting into calls: nothing wrong is ever handed over, and after the first call that checks a window which does not read as mute every frame is delivered at the true phase |
| `MsbcRecovery.SkipCostsOneFrame` | apps/audioplayers/voicebtpcmplay.cpp:968-991 | a window still to be given up costs exactly one frame, in step or not, and every other one is delivered |
| `MsbcRecovery.BoundaryCostsOneFrame` | apps/audioplayers/voicebtpcmplay.cpp:993-1064 | a lock one word behind headers that lie before the frame boundary, on a buffer that does not begin with the rest of one: one frame is lost, and the lock kept exactly if that window reads as mute |
| `MsbcRecovery.FalseStart` | apps/audioplayers/voicebtpcmplay.cpp:993-1013 | the one case left: at offset 0 a buffer that begins like the rest of a header passes for one, and by its tail a window is handed over that is no frame |
| `MsbcUplink.Uplink.constructor` | apps/audioplayers/voicebtpcmplay.cpp:387-394 | zeroed frame buffer, count zero |
| `MsbcUplink.Uplink.Process` | apps/audioplayers/voicebtpcmplay.cpp:387-438 | the words of one call are the frame bytes behind what was kept, shifted by the offset, and the last frame is kept |
| `MsbcUplink.Uplink.Compose` | apps/audioplayers/voicebtpcmplay.cpp:402-421 | header, payload and padding stand in the upper half of the buffer |
| `MsbcUplink.Uplink.Output` | apps/audioplayers/voicebtpcmplay.cpp:424-427 | each word carries its byte in the upper half |
| `MsbcUplink.Uplink.Shift` | apps/audioplayers/voicebtpcmplay.cpp:429-432 | the new frame becomes the kept one |
| `MsbcUplink.ConstantDelay` | apps/audioplayers/voicebtpcmplay.cpp:387-438 | over any calls, the words are the frame byte stream at a fixed delay |
| `MsbcUplink.StreamFrame` | apps/audioplayers/voicebtpcmplay.cpp:402-421 | frame m of the stream carries payload m and number m |
| `MsbcUplink.ParsesIffSent` | apps/audioplayers/voicebtpcmplay.cpp:844-866 | for each number, exactly the header the senders write is accepted as that number |
| `MsbcUplink.RefusesTheRest` | apps/audioplayers/voicebtpcmplay.cpp:844-866 | every other header is refused with a negative status and no number |
| `MsbcUplink.Capture.NextCounter` | apps/audioplayers/voicebtpcmplay.cpp:1924-1944 | the static counter steps through the four header bytes |
| `MsbcUplink.Capture.Pack` | apps/audioplayers/voicebtpcmplay.cpp:1979-2086 | buffer and counter after a call in which the queue holds a payload for some frame places and too little for others |
| `MsbcUplink.PackedAt` | apps/audioplayers/voicebtpcmplay.cpp:1999-2039 | each place of the buffer: the frame with the next number, or on an underrun what stood there, and the number is not used up |
| `MsbcUplink.PackedIsStream` | apps/audioplayers/voicebtpcmplay.cpp:2022-2036 | with no underrun the capture path packs the same frames as the other sender, numbered on from one |
| `MsbcLoopback.StreamShape` | apps/audioplayers/voicebtpcmplay.cpp:402-421 | with payloads free of a header pattern, headers stand at frame starts only and every frame ends in zero |
| `MsbcLoopback.PaddedWellFormed` | apps/audioplayers/voicebtpcmplay.cpp:424-427 | the senders' words are a well-formed stream for the receiver |
| `MsbcLoopback.Loopback` | apps/audioplayers/voicebtpcmplay.cpp:881-1253 | receiver on a sender's words: every frame in order, byte for byte, with its number, for any cutting of the receiver's calls |
| `MsbcLoopback.UplinkLoopback` | apps/audioplayers/voicebtpcmplay.cpp:387-438 | the same for the low-delay sender with either offset and any cutting of its calls |
| `MsbcLoopback.CaptureLoopback` | apps/audioplayers/voicebtpcmplay.cpp:2022-2036 | the same for the capture path |
| `AudioList.Manager.StreamExist` | apps/audioplayers/app_audio.cpp:457-480 | whether one of the known streams is listed |
| `AudioList.Manager.FilterExist` | apps/audioplayers/app_audio.cpp:482-505 | a second ring, or another playback when three entries wait |
| `AudioList.Manager.PlaybackExist` | apps/audioplayers/app_audio.cpp:508-521 | whether a playback is listed |
| `AudioList.Manager.Append` | apps/audioplayers/app_audio.cpp:523-597 | list and answer of the append, the order kept, with the overflow branch |
| `AudioList.Manager.Remove` | apps/audioplayers/app_audio.cpp:599-688 | list and next request of the removal; both ASSERTs hold inside it |
| `AudioList.WhenAssertsFail` | apps/audioplayers/app_audio.cpp:624-648 | on any list: the second ASSERT cannot fail, the first fails exactly when a non-playback follows the first playback |
| `AudioList.AppendKeepsValid` | apps/audioplayers/app_audio.cpp:523-597 | append keeps streams before playbacks, at most one ring and three other playbacks |
| `AudioList.RemoveKeepsValid` | apps/audioplayers/app_audio.cpp:599-688 | so does removal at either end, and both ASSERTs hold |
| `AudioList.ListedIff` | apps/audioplayers/app_audio.cpp:482-597 | a prompt that is no ring is listed last exactly while fewer than three requests are; a ring exactly while none is, or empties a list of 20 |
| `AudioList.OpenThenClose` | apps/audioplayers/app_audio.cpp:599-611 | closing a stream undoes its opening |
| `AudioList.StreamsThatLeave` | apps/audioplayers/app_audio.cpp:457-480 | the known streams, and no others, leave the list when they close |
| `AudioList.LatestStreamResumes` | apps/audioplayers/app_audio.cpp:630-657 | when the last playback closes over several streams, the one opened last goes on |
| `AudioHandler.Handler.constructor` | apps/audioplayers/app_audio.cpp:352-428 | nothing listed, nothing running |
| `AudioHandler.Handler.OpenStream` | services/bt_app/app_bt_stream.cpp:4354-4485 | list, running streams and devices asked after an open: a running stream of the same direction is closed first and an entry at the tail of the list removed with it |
| `AudioHandler.Handler.CloseStream` | services/bt_app/app_bt_stream.cpp:4487-4562 | a close ends only the stream that runs, and only if its device stops |
| `AudioHandler.Handler.Handle` | apps/audioplayers/app_audio.cpp:352-428 | list, running streams and devices asked after an open, close or close-all message or a clear, whatever the devices answer |
| `AudioHandler.EveryReachableList` | apps/audioplayers/app_audio.cpp:352-428 | after any messages and any answers of the devices: no ASSERT can fire, not even in the removal that an open makes by itself, at most one ring and four playbacks are listed |
| `AudioHandler.StepInOrderIff` | apps/audioplayers/app_audio.cpp:352-428 | the exact condition, told from state and message: playbacks stay in turn after a message if and only if it is orderly |
| `AudioHandler.QuietIsOrderly` | services/bt_app/app_bt_stream.cpp:4383-4411 | no start while a stream of its direction runs is enough for that |
| `AudioHandler.PlayedInOrder` | apps/audioplayers/app_audio.cpp:352-428 | after orderly messages the playbacks that played are the first of those accepted, in order |
| `AudioHandler.EveryPlaybackGetsItsTurn` | apps/audioplayers/app_audio.cpp:612-657 | with only playbacks on the output, closing one after the other plays every accepted one, whether or not the devices start |
| `AudioHandler.WaitingPlaybackIsLost` | services/bt_app/app_bt_stream.cpp:4393-4411 | a run in which a stream opened over a playback pushes the waiting playback off the list, and it never plays |
| `AudioHandler.PlaybackOverStreamIsUnlisted` | services/bt_app/app_bt_stream.cpp:4393-4411 | a run in which a playback opened over a running stream plays but is unlisted at once, and the playback requested after it never plays |
| `AudioHandler.PromptIsListed` | apps/audioplayers/app_audio.cpp:495-500 | in any state with fewer than three requests a prompt that is no ring is listed last, unless it starts over a running output stream |
| `AudioHandler.ThreePromptsAndARing` | apps/audioplayers/app_audio.cpp:482-505 | a run in which three prompts are listed in order, a fourth and a second ring are refused, a ring is not |
| `AudioHandler.CloseAllForgets` | apps/audioplayers/app_audio.cpp:417-424 | after a close-all every run goes on as from the start |
| `AudioHandler.PlaysAfterCloseAll` | services/bt_app/app_bt_stream.cpp:4354-4485 | after a close-all whatever is opened is asked to play, and runs if its device starts |
| `AudioHandler.DirectionsAreApart` | services/bt_app/app_bt_stream.cpp:4383-4411 | opening or closing in one direction leaves the stream of the other running |
| `ThumbBranch.BranchReaches` | platform/cmsis/patch.c:97-119 | for all addresses the word decodes as a T4 branch, and goes to the new function if and only if the displacement is in [-2^24, 2^24 - 2] |
| `ThumbBranch.OffsetOfEncoded` | platform/cmsis/patch.c:107-113 | the decoded offset is the displacement exactly when the bits that do not fit are copies of the sign |
| `PatchUnit.Unit.Take` | platform/cmsis/patch.c:138-148 | the first free slot, its bit set and no other changed |
| `PatchUnit.Unit.EnableId` | platform/cmsis/patch.c:47-59 | comparator and remapped word of that slot only |
| `PatchUnit.Unit.PatchEnable` | platform/cmsis/patch.c:121-197 | bitmap, comparators, words and return value are those of the step function |
| `PatchUnit.Unit.PatchFunc` | platform/cmsis/patch.c:152-193 | one slot or two for a function, with the exit that frees the last slot probed |
| `PatchUnit.Unit.PatchDisable` | platform/cmsis/patch.c:199-230 | both halves of an identifier, with their error exits |
| `PatchUnit.ByteMask` | platform/cmsis/patch.c:203-226 | a slot bit held in a byte is empty for numbers of 8 and more modulo 32 |
| `CodePatch.FirstFree` | platform/cmsis/patch.c:138-148 | the slot given is free and all before it are taken |
| `CodePatch.EnableSucceedsIff` | platform/cmsis/patch.c:121-197 | enabling gives an identifier exactly when a slot is free, or for a function that is not word aligned a second one too; otherwise it gives an error |
| `CodePatch.FetchAfterPut` | platform/cmsis/patch.c:47-59 | one comparator changes the fetches of its own word and no other |
| `CodePatch.OnlyTheBranchChanges` | platform/cmsis/patch.c:173-193 | word-aligned or not, the two halfwords at the function become the branch and no other halfword of the code changes |
| `CodePatch.PatchedFunctionJumps` | platform/cmsis/patch.c:173-193 | fetched and decoded at its address, a patched function jumps to the new one exactly when it is in reach |
| `CodePatch.ThirdErrorLeaks` | platform/cmsis/patch.c:161-165 | the third error leaves the bitmap as it was exactly if the taken slot was the last; otherwise a slot leaks and a live one is marked free |
| `CodePatch.CleanIsKept` | platform/cmsis/patch.c:121-197 | bitmap and comparators stay in step except in that one case |
| `CodePatch.EnableErrors` | platform/cmsis/patch.c:121-197 | what each error means, told from the bitmap: unknown kind, no free slot, a single one for a branch that needs two; the first two change nothing |
| `CodePatch.CodePatchIsFetched` | platform/cmsis/patch.c:121-150 | a code patch is what fetches from its word give, and nothing else changes |
| `CodePatch.DataPatchIsRead` | platform/cmsis/patch.c:121-150 | a data patch is what loads of its word read; other loads and all fetches stay |
| `CodePatch.DisableTouches` | platform/cmsis/patch.c:199-230 | disabling switches off the slots the identifier names and no other, and fails exactly on a slot the chip does not have |
| `CodePatch.DisableUndoesEnable` | platform/cmsis/patch.c:199-230 | disabling switches off exactly what was enabled, and returns the slots in the bitmap if and only if their numbers are below 8 modulo 32 |
| `EchoQueue.Queue.constructor` | apps/audioplayers/voicebtpcmplay.cpp:2476-2488 | empty, with the size the stream setup computes, if that fits the 16 bits it is kept in |
| `EchoQueue.Queue.MoreData` | apps/audioplayers/voicebtpcmplay.cpp:2435-2457 | positions, flag, data and ASSERT of a put are those of the step function |
| `EchoQueue.Queue.DataCome` | apps/audioplayers/voicebtpcmplay.cpp:2273-2295 | the same for lending a frame |
| `EchoQueue.Queue.Reset` | apps/audioplayers/voicebtpcmplay.cpp:2490-2499 | empties the ring and clears the flag |
| `EchoQueue.PutIsFifo` | apps/audioplayers/voicebtpcmplay.cpp:2435-2457 | on an aligned ring a put appends, and the overflow ASSERT fires exactly when the frame does not fit |
| `EchoQueue.BorrowIsFifo` | apps/audioplayers/voicebtpcmplay.cpp:2273-2295 | lending takes the oldest frame, and the underflow ASSERT fires exactly when there is none |
| `EchoQueue.BorrowedFrameSurvives` | apps/audioplayers/voicebtpcmplay.cpp:2291-2295 | the lent frame survives the next put exactly if the ring was not full |
| `EchoQueue.RingIsFifo` | apps/audioplayers/voicebtpcmplay.cpp:2435-2457 | over every run the ring is a bounded FIFO: same frames, same overflow and underflow, no other ASSERT |
| `EchoQueue.SizesThatFit` | apps/audioplayers/voicebtpcmplay.cpp:2437-2438 | drained rounds end in a position ASSERT exactly if the size is not a multiple of the frame length |
| `EchoQueue.StreamSizeFits` | services/bt_app/app_bt_stream.cpp:3874-3883 | the size the stream setup computes is the samples, two bytes each, rounded up to whole frames, and at least one frame |
| `EchoQueue.AssertsGuard` | apps/audioplayers/voicebtpcmplay.cpp:2435-2457 | on any ring the ASSERTs let a put or a lending through exactly when it has the frame length, stays inside the buffer and finds room or a frame |
| `CdcLink.Receiver.constructor` | apps/factory/app_factory_cdc_comm.c:47-54 | ready for a header |
| `CdcLink.Receiver.ResetParseState` | apps/factory/app_factory_cdc_comm.c:47-54 | ready for a header again, nothing pending |
| `CdcLink.Receiver.Sum8` | apps/factory/app_factory_cdc_comm.c:15-25 | the byte sum over a length cut to a byte |
| `CdcLink.Receiver.HandleData` | apps/factory/app_factory_cdc_comm.c:152-209 | checksum test first, then the rules for system commands |
| `CdcLink.Receiver.Receive` | apps/factory/app_factory_cdc_comm.c:211-265 | each turn leaves the meaning of the stream as it was, or hands over its first message or its error |
| `CdcLink.Receiver.Resynchronise` | apps/factory/app_factory_cdc_comm.c:224-233 | the mismatch branch only sees four fresh bytes, and keeps what starts at the first prefix character |
| `CdcLink.Receiver.ParseHeader` | apps/factory/app_factory_cdc_comm.c:234-243 | a header at a prefix is accepted or ends the session |
| `CdcLink.Receiver.CommLoop` | apps/factory/app_factory_cdc_comm.c:267-312 | the running receiver gives the messages and the end that the stream specification says |
| `CdcLink.SendReply` | apps/factory/app_factory_cdc_comm.c:27-45 | a reply is a frame, or refused when it does not fit |
| `CdcParser.SessionAfterJunk` | apps/factory/app_factory_cdc_comm.c:224-233 | junk without a prefix character does not change what a stream means |
| `CdcParser.SessionTakesIff` | apps/factory/app_factory_cdc_comm.c:56-209 | exactly which command and length pairs a session handles, and the error each other frame ends it with |
| `CdcParser.WhichFramesPass` | apps/factory/app_factory_cdc_comm.c:27-45 | a frame passes the receiver's checksum exactly if it has up to 255 bytes, or by two chance values beyond that |
| `CdcParser.OneWrongByteFails` | apps/factory/app_factory_cdc_comm.c:152-164 | any one changed byte fails the checksum test |
| `CdcParser.CorruptFrameIsRefused` | apps/factory/app_factory_cdc_comm.c:211-265 | a frame with one wrong byte outside prefix and length is never taken for a message |
| `CdcParser.TrafficRoundTrip` | apps/factory/app_factory_cdc_comm.c:267-312 | of any traffic of junk and good frames every frame is handled, whole and in order |
| `PcmPattern.Generator.Output` | apps/factory/app_factory_audio.cpp:1187-1233 | buffer and saved position after a call of any length |
| `PcmPattern.Generator.Fill` | apps/factory/app_factory_audio.cpp:1194-1214 | the loop ends, on remaining count and position, and writes the rest of the pattern and then whole ones |
| `PcmPattern.ContinuesIffEven` | apps/factory/app_factory_audio.cpp:1197-1198 | a call continues the pattern exactly unless it reads from an odd position |
| `PcmPattern.SavedAdvances` | apps/factory/app_factory_audio.cpp:1187-1233 | the saved position is the one reached, a position at the end standing for the start |
| `PcmPattern.CallsContinue` | apps/factory/app_factory_audio.cpp:1187-1233 | over any calls of even lengths the output is a prefix of the endless repetition |
| `PcmPattern.PlaysThePattern` | apps/factory/app_factory_audio.cpp:1187-1233 | byte k ever played is byte k modulo the pattern length |
## Left out

- Codecs, loss concealment, echo cancelling, noise suppression and resampling libraries: foreign
  code; a frame handed to them is the end of the model, and the processing of a voice block is an
  arbitrary length-preserving function with a state of its own.
- Mutexes, mailboxes, timers, traces, USB and UART transport: sections under a lock are atomic
  steps, and what arrives from a device is an argument.
- Weak memory ordering between the cores: memory is sequentially consistent.
- LDAC and the scalable codec, the loads that run without the co-processor, and `mtu_count`.
- CpInCache.Cache.LoadLhdc: the latency index and the readiness of the decoder are arguments; the
  sum of header size and announced length at line 2077 of `a2dpplay.cpp` has 32 bits and wraps for a
  corrupt header announcing 2^32 - 8 bytes or more, which the model adds without bound; a payload of
  4089 bytes or more, with its header, runs over the 4096 bytes of `lhdc_input_mid_buf`, which the
  model has no bound for.
- CpInCache.StoreLhdc: an assembled payload of 4089 to 4095 bytes, with its header, runs over the
  4096 bytes of `lhdcTempBuf` in the source; the model stores it as if it fitted.
- LhdcChain: assumes the same of such frames; whether the byte queue has room is an argument.
- LhdcChannel.ExactlyIntactFramesArrive: assumes that no gap inside an open frame is hidden, though
  the code gets those right whose joined run overflows; `LhdcChannel.HiddenGapIff` decides each one.
- PacketPipeline: `AllExact` leaves out stored packets whose length the header cannot hold (65536
  bytes for AAC), since their tail is read as headers; `Framing.AacHead` covers a load on them.
- SlotProtocol: the length and the state of a finished slot are stored in one step, the MCU always
  asks for the loop size, and bytes are copied in ascending order; what a resumed pass on the last
  slot writes beyond the slots, and perhaps beyond `cp_out_cache`, is dropped.
- LhdcAssembler: the header flag masks are not defined in the tree, so a packet carries its three
  flags as booleans; latency bits and statistics counters are not modelled.
- LhdcAssembler.Assembler.Assemble: an unfragmented payload must fit the packet buffer, into which
  it is copied unchecked.
- UpsampleFir: ratios other than 3 and 6; the table choice of the source falls back to 16 kHz.
- MsbcDecoder.Decoder.Decode: words come in whole frames of 60 and fit the buffer behind the
  history; the build variant with a PCM mask and the alternative decoder further down the file are
  not modelled.
- MsbcRecovery.Reacquires: at offset 0 only for streams that never begin a frame's worth of words
  like the rest of a header; `MsbcRecovery.FalseStart` says what happens otherwise.
- MsbcUplink: an encoder call is a 57-byte payload; the frame count is unbounded, which the modulo 4
  does not see.
- `process_downlink_msbc_frames`, which reads ahead of the words received for offsets 0 and 1.
- AudioList: exhaustion of the request pool.
- AudioHandler: codes other than open, close and close-all; what a device answers when asked to
  start or stop is an argument, and a stream identifier is one bit, as in every request the tree
  makes.
- PatchUnit: the bitmap words are modelled bit by bit as booleans; the words around an unaligned
  function come from a memory argument, and the comparator address registers cover the low 29 bits.
- EchoQueue.Queue.constructor: requires a size below 65536, which the 16-bit size and positions
  need.
- EchoQueue: bytes of a frame are copied whole, so frame lengths count in bytes and are even in use.
- CdcLink: the effects of system commands and the transport behind a reply; after an error the
  session ends, where the source flushes its input and starts over.
- CdcLink.Receiver.CommLoop: a stream that stops short is an end of its own; time-outs are not
  modelled.
- PcmPattern.Generator.Output: the pattern is not empty; on an empty one the source's loop would not
  end.
- LED and key handling, battery and charger code, boot sequencing and configuration tables: they
  have little state that spans calls.

