# Supertooth in Dafny

A model of the integer, stateful core of the Supertooth Bluetooth sniffer, with proofs.  Words and bit
buffers are sequences of bits, first bit on air (or bit 0) first; frequencies are in Hz.

- **BLE bits to frames.** `BleScan` says on a whole stream what a packet is and what a left-to-right scanner
  reports; `BleFramer` is the push-bit framer with its candidate buffer, rescans and queue, and delivers exactly
  that; `BlePackets` says bit by bit what counts as a packet, `BleScanFacts` which packets the scanner can miss,
  and `BleOverflow` has a stream on which the queue loses some. `BleWhitening`, `BleCrc`, `BleCrcCode`,
  `LinearAlgebra` and `BleCodec` cover whitening, the CRC and its generator, its inversion by Gauss-Jordan
  elimination, and the way from a transmitted PDU to the decoded one. `BleLink` and `BleRegistry` learn one CRCInit
  for each access address under eviction.
- **Block pipeline.** `Dispatcher` is the reference-counted pool with its reader rings as interleaved atomic
  steps; `Drain` composes any number of dispatchers, workers and event queues and proves the end-of-capture
  check sound, and `Progress` that no state is a dead end. `Rings` has the rings, the pool search, the collector
  and the channel gather on their arrays.
- **Channelizer.** `Chunking` shows the down-converter and the filter bank independent of how the input is cut
  into calls; `Geometry` is the lane and bin arithmetic from a tune request to the channel tables.
- **BR/EDR.** `BredrScan` says on a whole stream which packets it holds; `BredrFramer` is the bit-by-bit state
  machine over the sync words of `BredrSync`, and `BredrStream` proves that it reports exactly those packets.
  `BredrFec` and `BredrRepetition` are the two error correcting codes, `WhiteningTables` and `BredrWhitening` the
  whitening, `BredrHec` both checks; `BredrHeader`, `BredrPayload` and `BredrPacket` decode header, payload and the
  two as one stream; `BredrClocks` says which trial clocks a header check can tell apart, and `ClockTracker` is the
  drift state machine.
- `Bits`, `Distances`, `Arith` and `Wrappers` are shared vocabulary.

## Where code and comments differ

The model follows the code.

- `src/core/protocol/bredr/bredr_bitstream_decoder.c:266-273` gives trailer nibble 0x5 for a sync word that ends in
  one; the code at line 289 expects 0xA, the alternating continuation packed first bit lowest (`TrailerFor`).
- `src/core/protocol/bredr/bredr_bitstream_decoder.c:130-135` says that the sync window runs on across packets; the code
  shifts it only while searching, so after a packet it still holds that packet's sync word, and the first 63 windows
  behind a packet straddle it (`BredrScan.Scan`, `BredrStream.SecondPacket`).
- `src/core/protocol/bredr/bredr_codec.c:817-821` speaks of up to 36 UAPs for a header; over the 64 trial clocks the
  code yields them in equal pairs (`BredrClocks.TrialUapsPair`), and for one clock exactly one.
- `session_tune` returns an error for a rate that cannot be split only after writing centre and rate
  (`Geometry.Session.Tune`, `Geometry.RefusedTune`).
- A one- or two-channel BR/EDR tune is widened to 4 MHz and so also covers the neighbouring channels
  (`Geometry.BredrWindow`, `Geometry.NarrowTuneWidens`).
- A DM payload shorter than its type's maximum is decoded together with whatever was captured behind it; one
  uncorrectable block there loses the payload (`BredrPayload.DmRoundTrip`, `BredrPayload.NoiseLosesPayload`).
- A sender's step between clock values 31 and 32, or 63 and 0, is invisible to the header check
  (`ClockTracker.MaskedDrift`), because it accepts a clock value and its complement alike
  (`BredrClocks.TrialAccepts`).

## Model

| member | source | states |
|---|---|---|
| BleFramer.Decoder.PushBit | src/core/protocol/ble/ble_bitstream_decoder.c:389-411 | the streaming framer equals the offline scanner: after any bits, the buffer is the scanner's undecided tail, the frames a push queues are exactly those the longer stream has and the shorter one lacks (as far as the eight-deep queue has room), and the branch for a full buffer is never taken |
| BleFramer.Decoder.BufferBit | src/core/protocol/ble/ble_bitstream_decoder.c:389-411 | the same push from any coherent buffer: a full one gives its candidate up with an error and keeps its seven newest bits |
| BleFramer.Decoder.Drain | src/core/protocol/ble/ble_bitstream_decoder.c:294-372 | the `for(;;)` loop terminates, consumes the scanner's frames of the buffer and leaves exactly the scanner's undecided tail |
| BleFramer.Decoder.PduStep | src/core/protocol/ble/ble_bitstream_decoder.c:330-371 | one turn of the loop in the PDU state, with every frame it finds accounted for |
| BleFramer.Decoder.RejectAndRescan | src/core/protocol/ble/ble_bitstream_decoder.c:98-114 | rejecting a candidate gives up one position: the rescan finds what a scan from the next bit finds |
| BleFramer.Decoder.FinishCandidate | src/core/protocol/ble/ble_bitstream_decoder.c:116-135 | a consumed candidate is skipped whole and the rescan goes on right behind it |
| BleFramer.Decoder.RestartSearch | src/core/protocol/ble/ble_bitstream_decoder.c:87-96 | back to searching with the seven newest bits kept |
| BleFramer.Decoder.Classify | src/core/protocol/ble/ble_bitstream_decoder.c:195-225 | a candidate is dropped only if the scanner rejects it too, and no bit behind it is lost |
| BleFramer.Decoder.CompleteCandidate | src/core/protocol/ble/ble_bitstream_decoder.c:247-288 | the completed candidate is the scanner's packet; an advertising packet is consumed, a data packet is stepped over by one bit |
| BleFramer.Decoder.ShiftBits | src/core/protocol/ble/ble_bitstream_decoder.c:46-63 | in-place shift of the packed buffer |
| BleFramer.Decoder.FindNextPreamble | src/core/protocol/ble/ble_bitstream_decoder.c:66-79 | first preamble position, none skipped |
| BleFramer.Decoder.MaxRun | src/core/protocol/ble/ble_bitstream_decoder.c:153-168 | the longest run of equal bits in the access address: one of that length exists, none longer |
| BleFramer.Decoder.DataAaPlausible | src/core/protocol/ble/ble_bitstream_decoder.c:172-179 | an address is plausible exactly when it has no seven equal bits in a row |
| BleFramer.Decoder.GetFrame | src/core/protocol/ble/ble_bitstream_decoder.c:413-423 | the queue hands out frames oldest first |
| BleFramer.ProcessStream | src/core/service/ble_channel_processor.c:150-172 | the worker's loop: frames handed on plus frames queued are those of the stream, minus what overflowed |
| BleFramer.DeliveredUnlessOverflowed | src/core/protocol/ble/ble_bitstream_decoder.c:235-245 | a worker that takes one frame per reporting push gets every frame of the stream in order if and only if no push overflows the queue |
| BleFramer.TakingLosesOnlyOverflow | src/core/protocol/ble/ble_bitstream_decoder.c:235-245 | one push and one take keep every frame in order but those beyond the eight oldest waiting, and take exactly one when there is one |
| BleOverflow.QueueOverflows | src/core/protocol/ble/ble_bitstream_decoder.c:235-245 | that does happen: a data candidate of 776 bits whose payload holds nine empty data packets completes ten frames with its last bit |
| BleScan.JudgeStable | src/core/protocol/ble/ble_bitstream_decoder.c:294-372 | a verdict, once reached, does not change when more bits arrive |
| BleScan.ScanExtends | src/core/protocol/ble/ble_bitstream_decoder.c:294-372 | scanning can be resumed: frames of a concatenation are those of the first part and those found from its undecided tail |
| BleScan.ScanSkips | src/core/protocol/ble/ble_bitstream_decoder.c:66-79 | positions without a preamble can be skipped without losing a packet |
| BleScan.WaitIsBounded | src/core/protocol/ble/ble_bitstream_decoder.c:389-400 | an undecided tail is shorter than 2120 bits, so the candidate buffer never overflows |
| BleScan.RestIsSuffix | src/core/protocol/ble/ble_bitstream_decoder.c:389-400 | the undecided tail is the end of the stream |
| BlePackets.JudgedByItsBits | src/core/protocol/ble/ble_bitstream_decoder.c:140-240 | a position is given up exactly when its bits rule a packet out (preamble not alternating into the address, seven equal address bits in a row, LLID 00 or a bit above MD set); otherwise it is a packet as soon as the bits its header announces are in, with these fields |
| BleFramer.Decoder.BufferIsNewest | src/core/protocol/ble/ble_bitstream_decoder.c:389-411 | in every reachable state the buffer holds the last cand_bits bits pushed |
| BleScanFacts.ReportedUnlessSwallowed | src/core/protocol/ble/ble_bitstream_decoder.c:98-135 | every packet followed by enough bits is reported, unless it starts inside a reported packet |
| BleScanFacts.OnlyAdvertisingSwallows | src/core/protocol/ble/ble_bitstream_decoder.c:247-288 | only an advertising packet can hide another packet |
| BleScanFacts.StartsGiveFrames | src/core/protocol/ble/ble_bitstream_decoder.c:235-245 | the reported frames are the packets at the reported positions, field by field |
| BleScanFacts.StartsIncrease | src/core/protocol/ble/ble_bitstream_decoder.c:235-245 | frames come out in stream order, none twice |
| BleWhitening.Dewhiten | src/core/protocol/ble/ble_codec.c:116-131 | the in-place loop over bytes and bits combines the buffer with the register's output |
| BleWhitening.Involution | src/core/protocol/ble/ble_codec.c:116-131 | dewhitening is its own inverse |
| BleWhitening.PrefixCommutes | src/core/protocol/ble/ble_bitstream_decoder.c:330-341 | dewhitening two header bytes alone gives the first two bytes of the dewhitened frame |
| BleWhitening.Recurrence | src/core/protocol/ble/ble_codec.c:116-131 | the key obeys D^7 + D^4 + 1 on every channel (Vol 6 Part B, section 3.2) |
| BleWhitening.DewhitenedAsDrawn | src/core/protocol/ble/ble_codec.c:116-131 | on every channel each bit is combined with the output, after as many clocks, of the register drawn in section 3.2, loaded with a one and the channel index, highest bit first |
| BleWhitening.StreamSplit | src/core/protocol/ble/ble_codec.c:116-131 | the key over a concatenation splits, the second part continuing from the register reached |
| BleCrc.CrcCalc | src/core/protocol/ble/ble_codec.c:141-158 | the byte and bit loop computes the CRC of Vol 6 Part B, section 3.1.1 |
| BleCrc.CrcBijective | src/core/protocol/ble/ble_codec.c:141-158 | for every message, CRC and CRCInit determine each other |
| BleCrc.InitUnique | src/core/protocol/ble/ble_codec.c:141-158 | at most one CRCInit explains a message and its CRC |
| BleCrc.CrcAffine | src/core/protocol/ble/ble_codec.c:141-158 | the CRC is linear over GF(2) in register and message together |
| BleCrcCode.CrcIsRemainder | src/core/protocol/ble/ble_codec.c:141-158 | for every message and initial value, message, initial value and CRC together are a multiple of x^24 + x^10 + x^9 + x^6 + x^4 + x^3 + x + 1 |
| BleCrcCode.CodewordDivisible | src/core/protocol/ble/ble_codec.c:141-158 | from a zero register a message followed by its CRC is a multiple of that generator |
| BleCrcCode.Taps | src/core/protocol/ble/ble_codec.c:141-158 | the register adds back exactly the generator's terms |
| BleCrc.Parity32Correct | src/core/protocol/ble/ble_codec.c:188-195 | folding and table lookup give the parity of all 32 bits |
| BleCrc.ColumnsInjective | src/core/protocol/ble/ble_codec.c:197-245 | the CRC's 24x24 matrix is non-singular, so no column lacks a pivot |
| BleCrc.RecoveryTable.TablesInit | src/core/protocol/ble/ble_codec.c:197-245 | the table built once is the inverse of the CRC's matrix |
| BleCrc.RecoveryTable.ReverseInitLen2 | src/core/protocol/ble/ble_codec.c:247-260 | the recovered CRCInit is the one, for every two-byte PDU and every received CRC, that yields that CRC |
| LinearAlgebra.Invert | src/core/protocol/ble/ble_codec.c:197-245 | Gauss-Jordan over GF(2): succeeds exactly when the map is injective, and then ends with its inverse |
| LinearAlgebra.Pivot | src/core/protocol/ble/ble_codec.c:220-232 | a row swap keeps left = right * T; no pivot means a singular matrix |
| LinearAlgebra.ClearColumn | src/core/protocol/ble/ble_codec.c:233-240 | clearing a column keeps left = right * T and completes one more identity column |
| LinearAlgebra.NoPivotMeansSingular | src/core/protocol/ble/ble_codec.c:220-232 | a column without pivot yields a non-zero vector in the kernel |
| LinearAlgebra.FullyEliminated | src/core/protocol/ble/ble_codec.c:241-244 | after the last column right is the inverse and the map is injective |
| BleCodec.FramerAndCodecAgree | src/core/protocol/ble/ble_codec.c:290-312 | every frame the framer accepts is decoded, with the framer's header and payload length |
| BleCodec.DecodedExactly | src/core/protocol/ble/ble_codec.c:290-378 | any captured frame: refused exactly outside 5 to 261 bytes; else header, payload as announced but cut off at what was captured, the reversed CRC, and the check from 0x555555 for an advertising frame |
| BleCodec.AdvertisingRoundTrip | src/core/protocol/ble/ble_codec.c:290-378 | a transmitted advertising PDU, whatever CRCInit it was sent with, is framed, consumed whole and decoded to header, payload and CRC sent, with the CRC accepted exactly when it was computed from the advertising CRCInit |
| BleCodec.DataRoundTrip | src/core/protocol/ble/ble_codec.c:290-378 | a transmitted data PDU is refused exactly when its preamble, address or header bits are not what they must be, each named bit by bit; otherwise it is framed, stepped over by one bit, and decoded to what was sent |
| BleCodec.ExtractCrcReverses | src/core/protocol/ble/ble_codec.c:133-173 | the received CRC is the 24 bits in reverse order |
| BleLink.AddCandidate | src/core/protocol/ble/ble_registry.c:265-282 | a full candidate list forgets its oldest entry, a known candidate changes nothing |
| BleLink.GateSound | src/core/protocol/ble/ble_registry.c:292-336 | an error-free PDU of a link with CRCInit I can only confirm I and is accepted only under I |
| BleLink.GateLearns | src/core/protocol/ble/ble_registry.c:292-336 | an empty error-free PDU makes I a candidate; while it is one, the next non-empty error-free PDU is accepted |
| BleLink.ConfirmedIsFinal | src/core/protocol/ble/ble_registry.c:292-336 | a confirmed CRCInit never changes, whatever arrives |
| BleLink.LearningExact | src/core/protocol/ble/ble_registry.c:292-336 | over any error-free run from a fresh link, I is confirmed if and only if a non-empty PDU followed an empty one |
| BleLink.AcceptedEverAfter | src/core/protocol/ble/ble_registry.c:292-336 | from then on every error-free PDU is accepted, and before that none is |
| BleLink.StaysCandidate | src/core/protocol/ble/ble_registry.c:265-336 | a candidate stays one through any PDUs, damaged or not, and seeds, until the link is confirmed or more other CRCInits were offered than there were free places and older candidates |
| BleLink.NewestKept | src/core/protocol/ble/ble_registry.c:265-282 | after any number of new distinct offers the candidates are the four newest, so the bound above is tight |
| BleLink.LearntFromEvidence | src/core/protocol/ble/ble_registry.c:292-346 | on any run from a fresh link candidates were offered by an empty PDU or a seed, and a confirmed CRCInit was offered and then fitted by a non-empty PDU |
| BleLink.LearnsInNoise | src/core/protocol/ble/ble_registry.c:292-346 | with damaged PDUs and seeds anywhere: once the true CRCInit is newly offered, the next error-free non-empty PDU leaves the link confirmed if at most three others were offered in between, and confirmed wrongly only if a wrong value was offered and fitted |
| BleRegistry.Registry.GateDataPdu | src/core/protocol/ble/ble_registry.c:292-336 | the PDU's address gets its slot or not, the slot's link goes through the gate, and no other slot changes; table invariants kept |
| BleRegistry.Registry.SeedCandidate | src/core/protocol/ble/ble_registry.c:338-346 | an announced CRCInit gets its address a slot at once and becomes a candidate unless one is confirmed |
| BleRegistry.Registry.ConnAcquire | src/core/protocol/ble/ble_registry.c:240-263 | a slot is had, forced, or earned by the third retained sighting, and by nothing else |
| BleRegistry.Registry.ConnCreate | src/core/protocol/ble/ble_registry.c:159-192 | a new slot has a fresh id; capacity 512 is kept by reusing the victim |
| BleRegistry.Registry.VictimIndex | src/core/protocol/ble/ble_registry.c:106-157 | the victim is the first minimum of (has candidates, packets, least recently used) among unconfirmed links; a confirmed one only when all are |
| BleRegistry.Registry.PendingBump | src/core/protocol/ble/ble_registry.c:210-238 | one sighting counted; a full tally loses its oldest entry |
| BleRegistry.Registry.PendingRemove | src/core/protocol/ble/ble_registry.c:202-208 | exactly one tally entry goes |
| BleRegistry.Registry.TryCandidates | src/core/protocol/ble/ble_registry.c:318-334 | the first candidate that explains the PDU is confirmed |
| BleRegistry.EvictedLast | src/core/protocol/ble/ble_registry.c:106-192 | a slot is lost only in a full table; a confirmed one only when every link is confirmed |
| BleRegistry.EvictTransitive | src/core/protocol/ble/ble_registry.c:106-157 | the eviction order is transitive, so its minimum is well defined |
| BleRegistry.VictimIs | src/core/protocol/ble/ble_registry.c:106-157 | the victim in the links' own fields: confirmed only when all are; else without candidates if any is, then fewest packets modulo 2^32, then least recently used, then first |
| BleRegistry.SightingCounts | src/core/protocol/ble/ble_registry.c:210-238 | a sighting adds one to its own address and changes no other count, except the one evicted |
| BleRegistry.RunCounts | src/core/protocol/ble/ble_registry.c:202-263 | over any run in which an address keeps its entry, its count grows by its sightings, whatever else is sighted, evicted or given a slot |
| BleRegistry.ThirdSightingEarns | src/core/protocol/ble/ble_registry.c:240-263 | so an address never seen earns its slot with the third sighting |
| BleRegistry.LeastRecentGoes | src/core/protocol/ble/ble_registry.c:210-238 | over any run from an empty tally, an entry is pushed out only by a newcomer to a tally of 1024, and no other entry was sighted longer ago |
| BleRegistry.NewSlot | src/core/protocol/ble/ble_registry.c:159-192 | addresses stay distinct and ids are never reused |
| BleRegistry.SlotsUnique | src/core/protocol/ble/ble_registry.c:98-192 | no address and no id has two slots |
| Dispatcher.RefcountsConserved | src/core/radio/sample_dispatcher.c:10-32 | on every interleaving each refcount equals the references of producer, ring slots and views; a free or owned block is in no ring and no view |
| Dispatcher.InvKept | src/core/radio/sample_dispatcher.c:76-120 | every atomic step of producer and readers keeps the invariant |
| Dispatcher.HeldIsStable | src/core/radio/sample_dispatcher.c:201-238 | a held block keeps its samples until it is released |
| Dispatcher.BackpressureIsLossless | src/core/radio/sample_dispatcher.c:355-389 | with check-then-push and consumers running, no reader drops a block: each pops exactly the pushed sequence in order |
| Dispatcher.LiveAccounting | src/core/radio/sample_dispatcher.c:283-311 | in live mode offered = popped + queued + dropped for every reader, and order is kept |
| Dispatcher.DroppedExactlyWhenFull | src/core/radio/sample_dispatcher.c:101-120 | on every interleaving, in either mode, a reader's drops are exactly the attempts made while its ring held eight blocks, and its deliveries exactly the others |
| Dispatcher.RoomMeansDelivery | src/core/radio/sample_dispatcher.c:283-311 | a reader whose ring is never full at an attempt drops nothing, live or not, and is delivered the offered sequence up to the block on its way |
| Dispatcher.FreeIsFound | src/core/radio/sample_dispatcher.c:263-281 | the search for a block never gives up while some block stays free |
| Dispatcher.AcquireAlone | src/core/radio/sample_dispatcher.c:263-281 | left alone it claims the first free block at or after the index, going round once, and moves the index behind it |
| Dispatcher.OfferAlone | src/core/radio/sample_dispatcher.c:283-389 | left alone an offer gives the block to every reader with room, counts one drop for each full one, and leaves one reference for each reader that got it |
| Dispatcher.SendAlone | src/core/radio/sample_dispatcher.c:283-389 | what was filled into the block is what is offered and delivered |
| Dispatcher.OwnedIsUnseen | src/core/radio/sample_dispatcher.c:263-281 | the producer writes only into a block no reader can see |
| Dispatcher.ReaderActionsOfferNothing | src/core/radio/sample_dispatcher.c:201-238 | readers never add to what is offered |
| Drain.DrainSound | src/core/service/session.c:535-564 | on every interleaving of a whole session, when the one-by-one check passes, no block is referenced anywhere, every reader has popped everything offered to it, and every submitted event has been popped |
| Drain.DrainedForGood | src/core/service/session.c:535-564 | and nothing reappears afterwards, whatever runs on |
| Drain.DrainCompletes | src/core/service/session.c:535-564 | once everything is quiet and the queues are empty, the check, left alone, passes |
| Progress.AlwaysDrainable | src/core/service/session.c:535-564 | no state of a session is a dead end: from every reachable state, whatever is in flight, there is a run on after which the drain is through and everything offered and submitted was taken |
| Progress.EveryEventTaken | src/core/service/session.c:535-564 | when the drain is through, each event queue has been relieved of exactly as many events as were handed to it |
| Progress.EmptyOne | src/core/radio/sample_dispatcher.c:355-389 | a dispatcher under backpressure can always be emptied: its readers work off their rings, its producer finishes its block, its readers work off again |
| Drain.ServiceOrdered | src/core/service/channelizer_service.c:579-596 | the order of the check visits every feeder before what it feeds, for any lane count |
| Drain.InvKept | src/core/service/session.c:535-564 | every step of every dispatcher, worker, collector and of the check keeps the invariant |
| Drain.StarvedProducer | src/core/service/channelizer_service.c:405-509 | behind quiet dispatchers no worker holds a block to produce from |
| Rings.ReaderRing.TryPush | src/core/radio/sample_dispatcher.c:101-120 | append, or refuse a full ring |
| Rings.ReaderRing.Pop | src/core/radio/sample_dispatcher.c:76-99 | take the oldest block |
| Rings.Pool.Acquire | src/core/radio/sample_dispatcher.c:263-281 | first free block at or after the index, going round once; fails exactly when none is free |
| Rings.Collector.Submit | src/core/service/collector.c:59-102 | the queue holds the newest events; only overwrite-oldest drops, and counts it; a blocking submit on a full queue changes nothing |
| Rings.Collector.Pop | src/core/service/collector.c:104-127 | the oldest retained event; while nothing is dropped the popped events are the submitted ones in order |
| Rings.Gather | src/core/radio/sample_dispatcher.c:224-237 | one channel's samples out of a frame-major block: every stride-th frame up to the last, never cut short by the scratch bound |
| Rings.ViewCapFits | src/core/radio/sample_dispatcher.c:180-198 | the scratch has room for every frame of a block |
| Chunking.DdcStage.Execute | src/core/dsp/ddc_stage.c:119-189 | one call rotates, filters whole windows, and carries less than D samples; the base is that of the first carried sample |
| Chunking.DdcChunksDoNotMatter | src/core/dsp/ddc_stage.c:119-189 | for every split of the input into calls, outputs, filter state and carry are those of one call on the concatenation |
| Chunking.DdcOutputs | src/core/dsp/ddc_stage.c:119-189 | output k, however the input is cut: with decimation 1 sample k mixed by the oscillator as k samples left it, else the filter's, after k windows, on mixed samples k D to k D + D - 1; the rest is carried |
| Chunking.DdcCounts | src/core/dsp/ddc_stage.c:119-189 | total / D outputs, total % D samples carried |
| Chunking.DdcBaseIsFirstSample | src/core/dsp/ddc_stage.c:151-154 | the reported base is the start plus D for every output so far |
| Chunking.DdcOutputFits | src/core/dsp/ddc_stage.c:171-187 | a call never yields more samples than it was given |
| Chunking.FilterBank.Execute | src/core/dsp/channelizer_bank.c:123-184 | the leftover frame, the whole frames and the ragged tail are the windows of carry and input |
| Chunking.BankChunksDoNotMatter | src/core/dsp/channelizer_bank.c:123-184 | for every split, frames and state are those of one call; total / M2 frames, total % M2 carried |
| Chunking.BankFrames | src/core/dsp/channelizer_bank.c:123-184 | frame k is the filter's, after k frames, on samples k M2 to k M2 + M2 - 1; the rest is carried |
| Chunking.FeedBlock | src/core/service/channelizer_service.c:480-504 | feeding a block in sub-chunks yields the frames of the whole block, at most MaxFrames a sub-chunk, each stamped with its place; when output blocks run out (live mode) exactly the sub-chunks fed so far have come out and the rest of the block is dropped |
| Chunking.FramesPerCall | src/core/service/channelizer_service.c:115-127 | a sub-chunk never gives more frames than planned, whatever is carried |
| Chunking.MaxFramesIs | src/core/service/channelizer_service.c:115-127 | the planned frames are the most, in fours and at least four, that leave room for two more in a block |
| Chunking.FramesFitBlock | src/core/service/channelizer_service.c:115-127 | those frames fit an output block if and only if four frames do |
| Geometry.PlanSplits | src/core/service/channelizer_service.c:20-57 | an accepted rate is K equal lanes of an even number of bins within 20 MHz, with as few lanes as possible |
| Geometry.PlanExactly | src/core/service/channelizer_service.c:20-57 | and every split of that kind is accepted |
| Geometry.SupportedCounts | src/core/service/channelizer_service.c:59-76 | the accepted BR/EDR counts are exactly 2..20 even, 24, 28, 32, 36, 40, 42, 48, 54, 60, 64, 72 and 79 |
| Geometry.SnapBredrCount | src/core/service/channelizer_service.c:78-97 | the greatest supported count not above the one asked for |
| Geometry.BinsAndCenters | src/core/dsp/channelizer_bank.c:30-60 | bins and on-raster centres inside the span correspond one to one |
| Geometry.BinIsCentred | src/core/service/channelizer_service.c:170-234 | the bin a channel is sent to is centred on the channel |
| Geometry.BinsDistinct | src/core/service/channelizer_service.c:170-234 | different channels go to different (lane, bin) |
| Geometry.Covered | src/core/service/channelizer_service.c:170-234 | a channel has a descriptor exactly when it is near the radio centre, inside the span and on the raster |
| Geometry.OutputRate | src/core/service/channelizer_service.c:170-175 | D * M2 * stride * 2 MHz is the sample rate |
| Geometry.BuildDescriptors | src/core/service/channelizer_service.c:170-234 | the two table-filling loops |
| Geometry.LayoutValid | src/core/service/channelizer_service.c:236-286 | an accepted layout, with the fallback from 2 MHz to 1 MHz, is a valid geometry |
| Geometry.Session.Tune | src/core/service/session.c:228-253 | status and written fields; a tune refused for its rate has already overwritten centre and rate |
| Geometry.BredrTuneAccepted | src/core/service/session.c:138-253 | a BR/EDR tune succeeds exactly for a window within 0..78 of at most three channels, of all 79, or of a count that splits into even lanes, at a rate the device sustains; which refusal it meets otherwise |
| Geometry.BleTuneAccepted | src/core/service/session.c:138-253 | a BLE tune succeeds exactly when BR/EDR is not enabled beside BLE and the window within 0..39 has a width that splits, at a rate the device sustains |
| Geometry.TuneIsCentred | src/core/service/session.c:138-202 | the radio is centred midway between the window's first and last channel |
| Geometry.RateRefused | src/core/service/session.c:228-253 | a BR/EDR tune in range is refused for its rate if and only if it asks for an unsupported count of four or more |
| Geometry.RefusedTune | src/core/service/session.c:228-253 | for instance 22 channels from channel 0, after which centre and rate are those of the refused tune |
| Geometry.TuneIsServed | src/core/service/session.c:204-253 | every tune that succeeds has a channelizer layout, whichever protocol's channels it refers to, on the 2 MHz grid exactly in a BLE-only session whose rate splits on it and on the 1 MHz grid otherwise |
| Geometry.BredrWindow | src/core/service/session.c:151-202 | the BR/EDR table of an accepted tune is exactly the window asked for if and only if it asks for at least three channels |
| Geometry.NarrowTuneWidens | src/core/service/session.c:151-202 | for one channel the window fails: channel 10 alone also has the descriptors of 9 and 11 |
| Geometry.BredrPresent | src/core/service/channelizer_service.c:181-206 | channel by channel, including the neighbours a one- or two-channel tune also covers |
| Geometry.HybridBle | src/core/service/session.c:151-202 | with both protocols a BLE channel is covered exactly when the BR/EDR channel on its frequency is |
| Geometry.BleWindow | src/core/service/session.c:169-178 | the BLE-only table is exactly the window asked for, for every count, on both grids |
| BredrFec.FecRemainder | src/core/protocol/bredr/bredr_codec.c:149-167 | the shift-and-cancel loop |
| BredrFec.RemainderIsEval | src/core/protocol/bredr/bredr_codec.c:149-167 | that loop is evaluation modulo x^5 + x^3 + x + 1 |
| BredrFec.EncodedIsCodeword | src/core/protocol/bredr/bredr_codec.c:151-157 | what the encoder of section 7.5 sends is divisible by the decoder's reciprocal generator |
| BredrFec.ParityUnique | src/core/protocol/bredr/bredr_codec.c:149-167 | each ten-bit word has one parity extension |
| BredrFec.BlockDecoding | src/core/protocol/bredr/bredr_codec.c:711-734 | whatever comes out is a codeword at the reported distance; one flip is repaired, two are refused |
| BredrFec.FecDecode23 | src/core/protocol/bredr/bredr_codec.c:692-740 | the decoder's loops; not a whole number of blocks is refused |
| BredrFec.FecRoundTrip | src/core/protocol/bredr/bredr_codec.c:692-740 | any number of blocks, at most one flip in each: the message and the number of flips come back |
| BredrFec.DoubleFlipRefused | src/core/protocol/bredr/bredr_codec.c:730-732 | exactly two flips in any one block fail the whole decode |
| BredrFec.AllRepaired | src/core/protocol/bredr/bredr_codec.c:692-740 | the same for any stream of codewords |
| BredrRepetition.FecDecode13 | src/core/protocol/bredr/bredr_codec.c:662-690 | the majority loop with its error count |
| BredrRepetition.Closest | src/core/protocol/bredr/bredr_codec.c:662-690 | the decoded word is a nearest one, and the count is its distance |
| WhiteningTables.TableStep | src/core/protocol/bredr/bredr_codec.c:22-35 | each step along the data table is one clock of the register, entry by entry |
| WhiteningTables.Seeds | src/core/protocol/bredr/bredr_codec.c:22-27 | each index entry points where the register holds that clock's load |
| BredrWhitening.TableIsRegister | src/core/protocol/bredr/bredr_codec.c:238-242 | for every clock value and offset the tables give the key of D^7 + D^4 + 1 (section 7.2) |
| BredrWhitening.XorWhitening | src/core/protocol/bredr/bredr_codec.c:244-270 | the loop over a packed buffer, with its capacity cut |
| BredrWhitening.WhiteningInvolution | src/core/protocol/bredr/bredr_codec.c:244-270 | whitening twice gives the data back |
| BredrWhitening.WhiteningSplits | src/core/protocol/bredr/bredr_codec.c:244-270 | whitening splits over concatenation with the offset shifted |
| BredrWhitening.ClocksDiffer | src/core/protocol/bredr/bredr_codec.c:850-856 | two clock values dewhiten any header differently within seven bits |
| BredrHec.DecodeUapFromHec | src/core/protocol/bredr/bredr_codec.c:823-832 | the backward loop |
| BredrHec.HecBijective | src/core/protocol/bredr/bredr_codec.c:809-832 | the backward loop inverts the generator of section 7.1.1: for fixed data, check value and UAP determine each other |
| BredrHec.ComputePayloadCrc | src/core/protocol/bredr/bredr_codec.c:452-466 | the register loop |
| BredrHec.CrcStepIsCcitt | src/core/protocol/bredr/bredr_codec.c:446-466 | its step is D^16 + D^12 + D^5 + 1 of section 7.1.2, read from the other end |
| BredrHec.PayloadPinsUap | src/core/protocol/bredr/bredr_codec.c:452-466 | for any payload and received CRC at most one UAP matches, and which one shows in the register run backwards |
| BredrHeader.DecodeHeaderBits | src/core/protocol/bredr/bredr_codec.c:834-857 | majority, dewhitening, and zeros from four corrections on |
| BredrHeader.AirOrder | src/core/protocol/bredr/bredr_codec.c:410-444 | the header's fields lie in the air in the order LT_ADDR, type, flow, ARQN, SEQN, check |
| BredrHeader.HeaderRoundTrip | src/core/protocol/bredr/bredr_codec.c:410-444 | any header, UAP and clock; at most one flip a triple and three in all: the fields come back and the check accepts the sender's UAP and no other |
| BredrHeader.CleanExact | src/core/protocol/bredr/bredr_codec.c:922-958 | the clean check accepts exactly what some transmitter with that UAP and clock sends |
| BredrHeader.HeavyDamage | src/core/protocol/bredr/bredr_codec.c:842-846 | four or more corrections give an all-zero header that the check accepts for UAP zero alone |
| BredrHeader.TrialClocksDiffer | src/core/protocol/bredr/bredr_codec.c:834-857 | a header decodes differently under each of the 64 trial clocks |
| BredrClocks.TrialAccepts | src/core/protocol/bredr/bredr_codec.c:922-958 | a header sent at clock value c passes the clean check under c and 63 - c and no other value |
| BredrClocks.TrialUapsPair | src/core/protocol/bredr/bredr_codec.c:809-832 | two trial clocks of one received header yield the same UAP exactly when they add up to 63 |
| BredrClocks.Recurrence | src/core/protocol/bredr/bredr_codec.c:29-35 | the key's recurrence |
| BredrPayload.DecodeAclPayload | src/core/protocol/bredr/bredr_codec.c:272-332 | the branches by packet type |
| BredrPayload.DmRoundTrip | src/core/protocol/bredr/bredr_codec.c:293-312 | a DM payload with at most one flip a block comes back if and only if every captured block behind it is correctable too; otherwise nothing does |
| BredrPayload.NoiseLosesPayload | src/core/protocol/bredr/bredr_codec.c:293-312 | for instance one clean DM1 block with a twice-damaged block behind it in a full capture: nothing is decoded |
| BredrPayload.DhRoundTrip | src/core/protocol/bredr/bredr_codec.c:314-324 | a DH payload comes back as sent, whatever follows, as far as the capacity goes |
| BredrPayload.LengthsAreStandard | src/core/protocol/bredr/bredr_codec.c:10-13 | the table's lengths are what payload header, longest user payload and CRC of each ACL type take on air, coded where the type is; the other types yield no payload |
| BredrPacket.DhPacket | src/core/protocol/bredr/bredr_codec.c:272-332 | header and payload whitened as one stream by the standard's register come back: the header under the sender's UAP alone, and under the type code it carries the payload, up to the capacity |
| BredrPacket.DmPacket | src/core/protocol/bredr/bredr_codec.c:272-332 | the same for coded packets with at most one flip a block, unless a block behind the payload is beyond repair |
| BredrSync.GenSyncWord | src/core/protocol/bredr/bredr_codec.c:890-897 | the loop over the 24 rows |
| BredrSync.SyncAffine | src/core/protocol/bredr/bredr_codec.c:872-897 | sync words form an affine code |
| BredrSync.RowInCode | src/core/protocol/bredr/bredr_codec.c:864-888 | each table row is divisible by the generator 260534236651 (octal) of section 6.3.3 |
| BredrSync.DefaultInCode | src/core/protocol/bredr/bredr_codec.c:864-888 | so is the default word once the PN overlay is taken off |
| BredrSync.SyncInCode | src/core/protocol/bredr/bredr_codec.c:864-897 | hence every sync word, overlay removed, is a codeword of the standard's (64, 30) code |
| BredrSync.SyncCarriesLap | src/core/protocol/bredr/bredr_codec.c:872-897 | the LAP is in bits 34 to 57 and the barker field holds one of its two patterns |
| BredrSync.MatchesExactly | src/core/protocol/bredr/bredr_bitstream_decoder.c:210-238 | below six tolerated errors a window is accepted with a LAP if and only if the LAP bits are that LAP's, the barker field is within one bit of the LAP's own pattern and the distance is within the tolerance; from six on, of either pattern |
| BredrSync.Recognised | src/core/protocol/bredr/bredr_bitstream_decoder.c:119-126 | every sync word passes the barker filter and is recognised without errors |
| BredrFramer.Decoder.PushBit | src/core/protocol/bredr/bredr_bitstream_decoder.c:199-378 | the state machine, with both capacity guards and their error branch, refines the bit-by-bit specification on every stream, and its error branch is never taken; what that specification reports is BredrStream.ReportsThePackets |
| BredrFramer.Decoder.PushCollecting | src/core/protocol/bredr/bredr_bitstream_decoder.c:312-378 | the collecting state for any amount collected: a payload bit without a byte left gives the packet up with an error |
| BredrFramer.Decoder.StoreBit | src/core/protocol/bredr/bredr_bitstream_decoder.c:151-182 | a bit is refused exactly when header and the 375-byte payload buffer are both full |
| BredrFramer.RefusedWhenFull | src/core/protocol/bredr/bredr_bitstream_decoder.c:312-322 | a bit is refused exactly when 54 header bits and 375 payload bytes are in |
| BredrFramer.Decoder.GetFrame | src/core/protocol/bredr/bredr_bitstream_decoder.c:380-389 | a frame is handed out once |
| BredrFramer.FramesAreWhole | src/core/protocol/bredr/bredr_bitstream_decoder.c:199-378 | on any stream every frame has a LAP within the tolerance, and either nothing more or 54 header and 2999 payload bits |
| BredrStream.ReportsThePackets | src/core/protocol/bredr/bredr_bitstream_decoder.c:199-378 | for every stream the framer reports exactly the packets an offline scanner finds in it: the first window of 64 searched bits that is an access code, the packet behind it, and so on from the packet's end; it searches exactly when the scanner stands inside no packet, with the same bits in its window |
| BredrStream.FromSearching | src/core/protocol/bredr/bredr_bitstream_decoder.c:199-378 | the same from any searching state, so behind any packets already reported |
| BredrStream.FindsExactly | src/core/protocol/bredr/bredr_bitstream_decoder.c:205-238 | wherever the framer has searched for 63 bits, it finds an access code with the next bit if and only if the 64 newest bits of the stream carry the LAP, lie within the tolerance of its sync word and end within one bit of a barker pattern |
| BredrStream.RoundTrip | src/core/protocol/bredr/bredr_bitstream_decoder.c:199-378 | a packet sent anywhere in a stream: nothing is reported before its last bit, and then it is reported whole, starting at its first preamble bit, if and only if no access code was seen across its front |
| BredrStream.SecondPacket | src/core/protocol/bredr/bredr_bitstream_decoder.c:130-150 | two packets with a gap between them are both reported, each at its place in the stream, if no access code ends in the gap or across the second one's front |
| BredrStream.IdPackets | src/core/protocol/bredr/bredr_bitstream_decoder.c:241-310 | anywhere in a stream an inquiry sync word is reported at once, and a wrong trailer ends the packet without header |
| ClockTracker.Tracker.RecoverClockDrift | src/core/protocol/bredr/bredr_clock_recovery.c:934-1004 | the five trials and the update of offset, suspicion, confidence and lock |
| ClockTracker.SuspicionIsUnpaired | src/core/protocol/bredr/bredr_clock_recovery.c:972-1003 | the suspicion on file is the unpaired drift hit of the current streak, so each pair is used once |
| ClockTracker.OffsetMoves | src/core/protocol/bredr/bredr_clock_recovery.c:982-999 | the offset moves exactly at an agreeing pair of consecutive drift hits, by its delta |
| ClockTracker.LockIsWalk | src/core/protocol/bredr/bredr_clock_recovery.c:958-979 | the lock is held exactly until the clamped walk of evidence touches zero, and the confidence is that walk |
| ClockTracker.RunSound | src/core/protocol/bredr/bredr_clock_recovery.c:934-1004 | offset in 0..63, confidence in 0..5, known exactly while confidence is positive, on every run |
| ClockTracker.HitsExactly | src/core/protocol/bredr/bredr_clock_recovery.c:941-956 | whatever header arrives, a delta is reported exactly when the header is what a transmitter with this UAP sends at that delta and at none of those tried before it, in the order 0, 1, -1, 2, -2 |
| ClockTracker.DamagedMisses | src/core/protocol/bredr/bredr_codec.c:922-958 | a header in which the repetition code overruled any bit is a miss |
| ClockTracker.CleanOutcome | src/core/protocol/bredr/bredr_clock_recovery.c:941-956 | on a clean header the first tried delta that lands on the sender's clock or its complement is reported |
| ClockTracker.RightOffsetHits | src/core/protocol/bredr/bredr_clock_recovery.c:941-956 | a right offset is confirmed by every clean header |
| ClockTracker.DriftReported | src/core/protocol/bredr/bredr_clock_recovery.c:941-956 | a drift of at most two is reported as it is if and only if no earlier trial lands on the complement |
| ClockTracker.DriftCorrected | src/core/protocol/bredr/bredr_clock_recovery.c:982-999 | two clean headers at the same such drift move the offset to the sender's |
| ClockTracker.MaskedDrift | src/core/protocol/bredr/bredr_clock_recovery.c:941-956 | a move from clock 31 to 32 goes unnoticed: the case in which the previous two fail |

## Left out

- Packed bytes: buffers are modelled as bit sequences in air order; `BleFramer` and `BleWhitening` keep the array of bits and update it in place, the other buffers are values.
- Machine widths: 64-bit counters, stamps and sample indices are unbounded; 32-bit comparison of packet counts, 32-bit lane arithmetic and the wrapping start bit of a BR/EDR frame are modelled.
- Null arguments, allocation failure and initialisation failure paths.
- Filters, oscillator, demodulator and RSSI: opaque step functions in `Chunking`, absent elsewhere; their start-up and group delay are not modelled.
- Abandoned pushes and shutdown: `Dispatcher` has the abandoned push as a step, `Drain` covers sessions in which no shutdown is requested and the drain does not time out.
- Progress.AlwaysDrainable: shows a way on from every state; that a fair scheduler takes it is not stated.
- Mutexes, condition variables, timed waits and spurious wakeups: each critical section and each atomic operation is one step.
- Drain.DrainSound: events are counted, not identified; the carries inside the two sample stages and inside demodulators are not in flight in its sense.
- Chunking.FeedBlock: the block stamp ignores the samples the bank carries, so it is exact only up to half a frame's samples; no exactness is claimed.
- BleFramer.Decoder.PushBit: timestamps and metadata of frames and the last-frame scratch copy.
- BleCodec.DecodedExactly: parsing of advertising data, CONNECT_IND fields, names and services is not modelled.
- BleRegistry.Registry.GateDataPdu: device rows, snapshots, wall-clock fields and the enforcement switch of the registry are not modelled; the order of tally entries is not meaningful and not stated.
- BredrSync.MatchesExactly: nothing is said about the minimum distance of sync words.
- Geometry.Session.Tune: the sum of lowest channel and count is unbounded here and a 32-bit sum in the source, which differs only for requests near 2^32 that the callers' range checks exclude.
- BredrHeader.HeaderRoundTrip: claims nothing for four or more corrections, where BredrHeader.HeavyDamage gives the outcome.
- BredrPayload.DmRoundTrip: payload headers, FHS, SCO and eSCO payloads with their table entries, and the payload verdicts that drive acquisition are not modelled.
- ClockTracker.Tracker.RecoverClockDrift: only called on a link whose clock is known; acquisition over the 64 candidates and the event history are not modelled.
- Popcounts: bit tricks for counting ones are modelled as the count of differing bits.
- Radio backends, files, command lines, user interface and formatting.
