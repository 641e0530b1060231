# DTS: verified models of the transport, data and control core

Dafny models of the five parts of DTS whose correctness spans several functions or several
threads, with proofs that hold for every input and every run:

- **The shared-memory bucket.** `Ring` (byte-level facts about wrapping copies),
  `BucketSegments` (the segment class over a byte array: `Create`, `ClaimOwnership`, `Write`,
  `Read`, with what other processes do during a wait as a parameter), `BucketProtocol` (any
  number of writers, reader handles and processes, deaths and takeovers, interleaved one
  shared-memory access at a time), `BucketRuns` and `BucketCalls` (the class's calls are runs of
  that protocol), `BucketGuard` and `BucketOverrun` (exactly when the drain test is enough, and
  which writes are safe, overfull rings included), `BucketExact` (runs under that exact
  condition), `BucketTakeover` (exactly when taking the ring
  over is safe), `BucketChannel` (what reaches the transport's receiver).
- **The block pool.** `Pool` (the region class with its probe and eviction loops), `PoolRuns`
  (whole runs of acquisitions and ticks, shadowed copies, 32-bit ages), `PoolCopies` (how many
  blocks one key can take).
- **The report pipeline.** `DataIds` (size table, raw offsets, block layout), `Slicing` (which
  slices a raw frame yields, and putting them back together), `Report` (aggregator and parser),
  `DataFactories` (the data thread's frame and tick processing on the real arrays).
- **Two thread protocols.** `ThreadLoop` (the 100 ms grid and the mailbox), `Console` (the
  control command queue among sessions, the middleware, the executor and shutdown),
  `ConsoleReplies` (what its responses say).
- **Bounded summaries.** `Statistics` (sixty buckets against the whole report log),
  `LogRotation` (which log files the size bound deletes).

Code that changes state in place is a class whose methods are proved against specification
functions; protocols are step functions on a state, with theorems over all runs. What an
environment decides (interleaving, clocks, arrivals, deaths, failing deletions, iteration order
of hash tables) is a parameter or a free choice of the next step.

Where the code and its own text disagree, the code is modelled:

- `thirdparty/bucket/include/bucket/BucketSegment.h:42` says a write blocks while the segment is
  full. The test asks for eight free bytes and then a whole entry is published, so it blocks at
  exactly one occupancy and lets writers into an overfull ring (`GuardBlocksIffFull`). FIFO of the
  code as it stands holds over all runs iff all entries have one size and that size divides the
  capacity (`FifoIffOneDivisor`). For mixed traffic, `FifoIfClean` has exactly the condition under
  which one write is safe (`WriteSafeIff`): the new record shares no cell with a queued one, or
  both are empty messages in the same cells. Such a run may keep the ring overfull, up to three
  laps in all. Having room for the record's bytes, the simpler hypothesis of `FifoFromCreation`,
  implies that condition in every state (`RoomyIsClean`) and is the same in a ring that is not
  overfull (`RoomIffClean`, `PayloadSafeIff`), but not in an overfull one (`OverfullCanBeSafe`).
- `Create` leaves the owner at 0 although its caller reads the ring, and a process may claim a
  ring it owns once more. In both cases a claim succeeds while another handle reads on, with a
  cursor of its own: it delivers bytes nobody published and moves the shared read position
  (`CreatorReadsOn`, `DisplacedReads`). `TakeoverSafeIff` shows that a claim endangers the queue
  iff it is one of these two; `FifoFromCreation` has the matching hypothesis that claims succeed
  only when nobody reads any more.
- Eviction leaves no mark in a probe chain. A key can get a second block, and a live block can
  become unfindable; `FindMissesIff` and `SecondCopyIff` say exactly when, `EvictionHidesLiveKey`
  is such a run, and `FindIsFreshest` and `EvictionKeepsPrefix` are what holds instead.
- `webserver/src/stats.h:38` says five seconds. The loop sums sixty seconds and divides by five
  (`WindowExact`); `FiveSecondsIff` says when that is the five-second sum.
- The report header is `sizeof(ReportHeader)` bytes on both ends, padded, not the 20 of the
  comments; the offset of its second field is a parameter (`tsOff`, at least 4).
- A session's job pushed after the executor's loop has exited is never answered
  (`UnfinishedIff`, `SessionHangs`).

## Model

| member | source | states |
|---|---|---|
| Ring.FetchDeposit | thirdparty/bucket/src/BucketSegment.cpp:302-315 | bytes copied in at any position, wrapped or not, are copied out again unchanged |
| Ring.UnreadIff | thirdparty/bucket/src/BucketSegment.cpp:338-401 | walking the length headers from the read to the write position yields a message list iff the ring holds exactly those records back to back |
| BucketSegments.BucketSegment.Create | thirdparty/bucket/src/BucketSegment.cpp:95-141 | which names and capacities are refused; otherwise an empty queue with no owner |
| BucketSegments.BucketSegment.ClaimOwnership | thirdparty/bucket/src/BucketSegment.cpp:143-177 | ownership is held iff the caller is owner afterwards; the ring is reset iff it had no owner or a dead one, and otherwise untouched |
| BucketSegments.BucketSegment.WaitDrain | thirdparty/bucket/src/BucketSegment.cpp:238-264 | the wait ends at the first read position, found at once or at a wake-up, that passes the unsigned eight-byte test, and succeeds iff there is one before the deadline |
| BucketSegments.BucketSegment.PutRecord | thirdparty/bucket/src/BucketSegment.cpp:296-325 | header and payload, each possibly split at the ring end, land as one record at the write position |
| BucketSegments.BucketSegment.Write | thirdparty/bucket/src/BucketSegment.cpp:266-336 | success iff the entry is not larger than the ring and the wait ends with the test passing, whatever readers did meanwhile; a failure writes nothing; with room by then the shared queue gains exactly the message |
| BucketSegments.BucketSegment.Read | thirdparty/bucket/src/BucketSegment.cpp:338-401 | on any ring: success iff, in the memory found when the wait ends, the entry at the cursor ends by the write position, and then that entry is taken and consumed whole even when truncated; on a well-formed queue this is taking its head iff it is not empty |
| BucketSegments.UnreadAfterWrite | thirdparty/bucket/src/BucketSegment.cpp:266-336 | depositing a record that has room appends its message to the unread queue, whatever wraps |
| BucketSegments.ReadView | thirdparty/bucket/src/BucketSegment.cpp:360-395 | what the header and payload at the cursor say about the queue: its head, and the tail behind the entry |
| BucketProtocol.StepRefinesQueue | thirdparty/bucket/src/BucketSegment.cpp:266-401 | under orderly claims and room, each step of any thread is a step of an abstract queue: publishing appends, consuming removes the head, a takeover empties it, and no other step, in particular no writer's death, changes what a reader would find |
| BucketProtocol.FifoOverRuns | thirdparty/bucket/src/BucketSegment.cpp:266-401 | over every interleaving of writers, reader handles, deaths and claims in which copies start with room and claims succeed only when nobody reads any more, the invariant holds and the reader's deliveries are a prefix of the publications |
| BucketProtocol.FifoFromCreation | thirdparty/bucket/src/BucketSegment.cpp:95-401 | the same from creation on, byte for byte, and what is still in the ring is exactly the published messages not yet delivered |
| BucketProtocol.AlignedOverRuns | thirdparty/bucket/src/BucketSegment.cpp:274-330 | on every run at all, overrun rings and displaced readers included, positions and cursors stay multiples of eight |
| BucketProtocol.HeaderInOnePiece | thirdparty/bucket/src/BucketSegment.cpp:296-301 | hence a length header never straddles the ring end |
| BucketCalls.WriteIsRun | thirdparty/bucket/src/BucketSegment.cpp:266-336 | a whole call of Write is a run of the protocol that publishes the message or nothing; the run interleaves exactly the call's own steps, in order, with what the others do before each wake-up |
| BucketCalls.ReadIsRun | thirdparty/bucket/src/BucketSegment.cpp:338-401 | a whole call of Read is a run of the protocol that delivers the entry found or nothing; the run is what the others do before each wake-up and exactly the call's own steps |
| BucketCalls.WriteCall | thirdparty/bucket/src/BucketSegment.cpp:266-336 | the class's Write ends in the shared memory of that run, with the same interleaving |
| BucketCalls.ReadCall | thirdparty/bucket/src/BucketSegment.cpp:338-401 | the class's Read ends in the shared memory and cursor of that run, with the run's delivery in the buffer |
| BucketCalls.ClaimCall | thirdparty/bucket/src/BucketSegment.cpp:143-177 | the class's ClaimOwnership is the protocol's claim |
| BucketTakeover.DisplacedReads | thirdparty/bucket/src/BucketSegment.cpp:349-389 | after a reset under a reader with a cursor above 0 the ring is empty, and that reader still delivers one more entry and puts the shared read position ahead of the write position |
| BucketTakeover.CreatorReadsOn | thirdparty/bucket/src/BucketTransport.cpp:74-85 | a run from creation: one message is written and read, a second process opens the segment, and the creator delivers a second message |
| BucketTakeover.ExposedBreaks | thirdparty/bucket/src/BucketSegment.cpp:238-389 | once another handle has moved the read position past the reader, a write with room makes the reader deliver something else than what was published |
| BucketTakeover.TakeoverSafeIff | thirdparty/bucket/src/BucketSegment.cpp:143-177 | after a claim, the reader of the ring gets what is published on every run that keeps the rules, iff the claim was not contested: not made while the ring has no owner but its creator is alive, nor by the owner's own process |
| BucketTakeover.TakeoverFromCreation | thirdparty/bucket/src/BucketSegment.cpp:95-177 | the same equivalence at every state that a run from creation reaches under the rules |
| BucketTakeover.OwnedRunsServe | thirdparty/bucket/src/BucketSegment.cpp:155-171 | from the first owner on, every run with room in which no process claims a ring it owns is FIFO, whoever claims and dies |
| BucketGuard.PayloadSafeIff | thirdparty/bucket/src/BucketSegment.cpp:266-336 | in a ring that is not overfull, a write that passes the test keeps the queue the ring holds for every payload iff the record's own bytes fit in front of the oldest unread byte |
| BucketOverrun.WriteSafeIff | thirdparty/bucket/src/BucketSegment.cpp:266-336 | for any clean queue, in an overfull ring too, a write is safe for every content and payload iff the new record shares no cell with a queued one, except for two empty messages in the same cells |
| BucketOverrun.RoomIffClean | thirdparty/bucket/src/BucketSegment.cpp:243-262 | in a ring that is not overfull the queue is clean and that condition is having room for the record |
| BucketOverrun.CleanOverRuns | thirdparty/bucket/src/BucketSegment.cpp:266-401 | on every orderly run with room the queue stays clean, also while the ring is overfull |
| BucketOverrun.OverfullRun | thirdparty/bucket/src/BucketSegment.cpp:274-330 | two writes with room each leave an overfull ring with both messages intact |
| BucketOverrun.OverfullCanBeSafe | thirdparty/bucket/src/BucketSegment.cpp:238-264 | there the test passes without room, and every message of four bytes is appended unharmed |
| BucketExact.ThreeLaps | thirdparty/bucket/src/BucketSegment.cpp:238-330 | a clean queue that begins with at most one lap of empty messages, as every queue of a run does, ends within three laps of the ring |
| BucketExact.ExactStep | thirdparty/bucket/src/BucketSegment.cpp:266-401 | every step of any thread, in an overfull ring too, is a step of the abstract queue, provided a copy starts only when the queue with the new record is clean |
| BucketExact.FifoIfClean | thirdparty/bucket/src/BucketSegment.cpp:266-401 | on every orderly run whose copies start only when the queue with the new record is clean, the deliveries are a prefix of the publications, and the write position stays within three laps of the read position |
| BucketExact.RoomyIsClean | thirdparty/bucket/src/BucketSegment.cpp:243-262 | every run whose copies start with room is such a run, from any state |
| BucketExact.ExactFromCreation | thirdparty/bucket/src/BucketSegment.cpp:95-401 | the same from creation on, byte for byte, with the undelivered messages still in the ring |
| BucketGuard.UniformRuns | thirdparty/bucket/src/BucketSegment.cpp:238-296 | if every entry has one size that divides the ring, the test as coded gives FIFO on every orderly run with no hypothesis on room |
| BucketGuard.OverrunBreaksFifo | thirdparty/bucket/src/BucketSegment.cpp:238-264 | a concrete run in which a message larger than the free bytes wipes the oldest header and the next read is not FIFO |
| BucketGuard.FifoIffOneDivisor | thirdparty/bucket/src/BucketSegment.cpp:238-296 | the code as it stands is FIFO over all runs with entry sizes from a given set iff the set has one element and it divides the capacity |
| BucketChannel.EffectiveMax | thirdparty/bucket/src/BucketTransport.cpp:329-332 | the receive bound is the smaller of what is asked for and what is configured |
| BucketChannel.ReceiverGetsFittingPrefix | thirdparty/bucket/src/BucketTransport.cpp:120-138 | over every orderly run with room the receiver is called with exactly the messages of the delivered prefix that are not longer than its bound, in order and intact |
| BucketChannel.Run | thirdparty/bucket/src/BucketTransport.cpp:120-138 | the receive loop over the real segment: the calls are the fitting messages of the queue's front, an oversized message is consumed and disturbs nothing behind it |
| Pool.ProbeIff | contexts/data/domain/src/data_mem_manager.cpp:120-145 | probing returns the first slot in probe order that is free or holds the key, and fails iff every slot holds another key |
| Pool.ProbeOrder | contexts/data/domain/src/data_mem_manager.cpp:126-145 | the probe's slots are key mod n and its successors, one by one and around the end: it stops at the first that is free or holds the key |
| Pool.Region.AcquireBlock | contexts/data/domain/src/data_mem_manager.cpp:120-145 | the block is the first slot from the key's home on that is free or holds the key, and exactly that slot becomes (key, tick), on a hit too; none and no change for the wrong kind, and with every slot holding another key |
| Pool.Region.FindBlock | contexts/data/domain/src/data_mem_manager.cpp:147-163 | the block found is the first slot from the key's home on that is free or holds the key, if it holds it; otherwise none |
| Pool.Region.EvictExpired | contexts/data/domain/src/data_mem_manager.cpp:185-198 | exactly the used slots whose age modulo 2^32 exceeds three periods are freed, the others are as before |
| PoolRuns.RunGood | contexts/data/domain/src/data_mem_manager.cpp:120-198 | on every run of frames and ticks: of two copies of a key the one probed first is strictly fresher, a copy refreshed this tick is where probing ends, ages stay within the limit, each slot is a logged acquisition |
| PoolRuns.FindIsFreshest | contexts/data/domain/src/data_mem_manager.cpp:147-163 | the block found is strictly the freshest copy of its key |
| PoolRuns.EvictionKeepsPrefix | contexts/data/domain/src/data_mem_manager.cpp:185-198 | the copies that survive an eviction are a prefix of the key's copies in probe order |
| PoolRuns.AcquireThenFind | contexts/data/domain/src/data_mem_manager.cpp:120-163 | after an acquisition the key is found in that same block through any further acquisitions of any keys until the next eviction |
| PoolRuns.FrameHolds | contexts/data/domain/src/data_mem_manager.cpp:136-141 | a frame that gets a block in tick n, new or its own, leaves (key, n) in the slot where its probe stops; through tick n + ttl that slot holds the key with tick n or a later one, whatever else happens |
| PoolRuns.FedKeepsBlock | contexts/data/domain/src/data_mem_manager.cpp:120-198 | an object whose frames are at most ttl ticks apart never loses its block: at every time some slot holds its key with the tick of its last frame |
| PoolRuns.CodeMatchesTrueAges | contexts/data/domain/src/data_factory_v2.cpp:203-206 | on runs of any length the wrapping tick counter and the unsigned age test free exactly what true ages would |
| PoolRuns.FreedExactlyAfterTtl | contexts/data/domain/src/data_mem_manager.cpp:185-198 | a slot no frame touches keeps its key through the limit and is free from the next tick on |
| PoolRuns.FullPoolIsFull | contexts/data/domain/src/data_mem_manager.cpp:126-144 | when acquiring fails every slot holds a different acquisition of the last ttl ticks, none of this key, so there were at least as many acquisitions as slots |
| PoolRuns.FindMissesIff | contexts/data/domain/src/data_mem_manager.cpp:147-163 | a key in the pool is missed iff a free slot precedes all its copies in probe order |
| PoolRuns.SecondCopyIff | contexts/data/domain/src/data_mem_manager.cpp:120-145 | an acquisition makes a second copy iff the key was present and missed |
| PoolRuns.EvictionHidesLiveKey | contexts/data/domain/src/data_mem_manager.cpp:185-198 | for every pool of at least two slots, a run after which a live block cannot be found |
| PoolCopies.CopiesBounded | contexts/data/domain/src/data_mem_manager.cpp:120-198 | on every run a key has at most ttl + 1 blocks, however often its probe chain breaks |
| PoolCopies.CopiesReached | contexts/data/domain/src/data_mem_manager.cpp:120-198 | that bound is met: in every pool some run gives one key ttl + 1 blocks, or the whole pool if that is smaller |
| DataIds.CellRawOffset | contexts/data/domain/include/data_ids.h:66-73 | the offset loop computes head plus the sizes of all smaller ids |
| DataIds.Init | contexts/data/domain/src/data_mem_manager.cpp:91-117 | for any spec table the regions built are distinct and each is there for some cached id; every cached id has a slot of its size, and slots are apart from each other and from the block head |
| DataIds.SlotsApart | contexts/data/domain/src/data_mem_manager.cpp:165-175 | over all blocks, slot ranges are pairwise disjoint, miss every block head and stay inside the pool |
| Report.DecodeEncode | contexts/data/domain/src/report_aggregator.cpp:9-21 | the parser's reading of serialised slices gives the slices back, up to its limit |
| Report.ParsedIsThere | webserver/src/report_frame.h:39-60 | on any bytes, well-formed or not, the slices counted, serialised again, are literally the front of the bytes |
| Report.TruncationExact | webserver/src/report_frame.h:39-60 | any prefix of a well-formed body yields exactly the slices that lie wholly inside it |
| Report.NoDropsIff | contexts/data/domain/src/report_aggregator.cpp:9-14 | nothing is dropped iff everything together fits |
| Report.AcceptedFits | contexts/data/domain/include/report_aggregator.h:21 | what is accepted never exceeds the bound, and each accepted length fits its 16-bit field |
| Report.AcceptedSnoc | contexts/data/domain/src/report_aggregator.cpp:9-21 | offering one more slice accepts it iff it fits behind what is already there |
| Report.StampRoundTrip | contexts/data/domain/src/report_aggregator.cpp:27-31 | the four header fields read back as written and nothing behind the header changes |
| Report.HeaderBytes | contexts/data/domain/include/data_model.h:40-45 | the header byte for byte: which little-endian words of the frame are task, time stamp, number and payload length |
| Report.SliceBytes | contexts/data/domain/include/data_model.h:34-37 | a slice byte for byte: two bytes id, two bytes length, then its data |
| Report.IdRange | webserver/src/report_frame.h:45-60 | the two running values are the least and the greatest id, both attained |
| Report.ReportAggregator.Add | contexts/data/domain/src/report_aggregator.cpp:9-21 | a slice is appended whole if it fits 48 KiB with its four bytes of sub-header, and otherwise dropped whole and counted; a null cache leaves a bare sub-header |
| Report.ReportAggregator.Flush | contexts/data/domain/src/report_aggregator.cpp:23-34 | one frame goes out, the content with its header filled in, and the buffer empties; nothing without a sink or behind a bare header |
| Report.ParseBody | webserver/src/report_frame.h:39-60 | the loop's count and id range are those of the slices in the bytes |
| Report.ParseReport | webserver/src/report_frame.h:27-61 | refused iff absent or shorter than the header; otherwise the view of the frame with at most 1000 slices counted, in bounds on any bytes |
| Report.FrameRoundTrip | webserver/src/report_frame.h:27-61 | for any slices offered between Begin and Flush the frame stays in its bound and parses back to header, count and id range of exactly the accepted ones |
| Report.CutFrame | webserver/src/report_frame.h:39-60 | a frame cut anywhere behind its header parses to the slices wholly inside the cut, header intact |
| Slicing.WalkCovers | contexts/data/domain/src/extractor_registry.cpp:38-54 | a walk of the registry in any order meets every id |
| Slicing.WalkOrderIrrelevant | contexts/data/domain/src/extractor_registry.cpp:38-54 | totals over a walk do not depend on its order |
| Slicing.FitsIff | contexts/data/domain/src/extractors.cpp:16-22 | the ids whose slice lies inside a frame are exactly 1..k |
| Slicing.SlicesTotal | contexts/data/domain/src/data_factory_v2.cpp:158-175 | any walk cuts k slices, of total size fixed by k |
| Slicing.ReassembleRaw | contexts/data/domain/include/data_ids.h:66-73 | slices put in id order give back the raw bytes from offset 10 to the end of slice k |
| Slicing.NothingDropped | contexts/data/domain/include/report_aggregator.h:18-21 | if the full table fits the frame bound, no frame and no walk loses a slice |
| Slicing.RawReportRaw | contexts/data/domain/src/data_factory_v2.cpp:152-180 | raw to report to raw: any table that fits, any frame, any walk; the parsed report has ids 1..k and reassembles to the raw bytes |
| DataFactories.NoKeyIff | contexts/data/domain/src/data_factory_v2.cpp:144-147 | a frame has key 0, and counts as one without a key, iff it is too short or its eight id bytes are all zero |
| DataFactories.KeyValue | contexts/data/domain/src/data_factory_v2.cpp:41-54 | the key is the little-endian word at byte 2 times 2^32 plus the one at byte 6, and 0 for a frame of fewer than ten bytes |
| DataFactories.KeyIdentifiesObject | contexts/data/domain/src/data_factory_v2.cpp:41-54 | any two frames share a key iff both have key 0 in that way or their eight id bytes agree |
| DataFactories.ExtractorRegistry.Register | contexts/data/domain/src/extractor_registry.cpp:12-29 | a second registration of a type and id is refused and changes nothing |
| DataFactories.ExtractorRegistry.InitExtractors | contexts/data/domain/src/extractors.cpp:34-49 | afterwards the registry holds one extractor per id with the id's offset and size, and nothing else |
| DataFactories.InitCells | contexts/data/domain/src/data_mem_manager.cpp:91-117 | for any non-empty table, Init builds exactly one region, with a slot of the right size for every id, packed as frame processing needs it |
| DataFactories.WalkedStep | contexts/data/domain/src/data_factory_v2.cpp:158-175 | running one more extractor extends the account of pool bytes, report content and drops by that id |
| DataFactories.DataFactory.Extract | contexts/data/domain/src/data_factory_v2.cpp:158-175 | a slice beyond the frame is skipped; otherwise it goes to its slot and, with room, to the report |
| DataFactories.DataFactory.ForEachByDomain | contexts/data/domain/src/extractor_registry.cpp:38-54 | after the walk each slot of the block holds its slice or its old bytes, every other byte of the pool is as before, and the report holds the accepted slices in walk order |
| DataFactories.DataFactory.OnTask | contexts/data/domain/src/data_factory_v2.cpp:98-103 | the current task is the one given, nothing else changes |
| DataFactories.DataFactory.OnTick | contexts/data/domain/src/data_factory_v2.cpp:203-206 | the tick counts on modulo 2^32 and exactly the used slots older than 30 ticks are freed; this is one Tick step of the pool's run model |
| DataFactories.DataFactory.Process | contexts/data/domain/src/data_factory_v2.cpp:105-201 | with no sink or no task nothing changes; otherwise the key's slot is taken as AcquireBlock says, or the frame is counted as dropped; with a block only that block's slots change, and at most one report goes out, which reads back with the current task, 100 ms per tick and the next number modulo 2^32, and for a table that fits carries exactly the slices that lie in the frame |
| DataFactories.PublishedCarriesRaw | contexts/data/domain/src/data_factory_v2.cpp:152-180 | what Process publishes for any frame, null and short ones included: nothing if no slice fits, otherwise one frame that parses to ids 1..k and reassembles to the raw bytes |
| DataFactories.ShippedTableWhole | contexts/data/domain/include/data_ids.h:8-18 | a table of 500 ids and 32758 bytes fits: a whole frame of 32768 bytes goes out as one report whose 500 slices are all counted and give back every byte behind the first ten |
| ThreadLoop.GridOverRuns | infrastructure/src/dts_thread.cpp:28-40 | on every run deadlines lie on start + 100 n, each fires at most once, in order and not early |
| ThreadLoop.PunctualOverRuns | infrastructure/src/dts_thread.cpp:31-52 | with handlers within c and wake-ups within e, every tick starts at most c + e after its deadline whatever arrives |
| ThreadLoop.NoTickLost | infrastructure/src/dts_thread.cpp:28-52 | with c + d + e below 100 the deadlines fired are exactly start + 100, start + 200, ... |
| ThreadLoop.StatusIsLast | infrastructure/src/dts_thread.cpp:55-59 | the status is the first byte of the last message with id 0 and at least four bytes, or 0 if there is none |
| ThreadLoop.MailOverRuns | infrastructure/src/dts_thread.cpp:42-67 | messages handled, then queued, are the messages sent; the i-th call for a message hands over the id, the session and exactly the bytes of the i-th message handled, none if it has no payload, with the status as of that message; ticks get the status as of the last message before them; no entry, no calls |
| ThreadLoop.RunsUntilStop | infrastructure/src/dts_thread.cpp:26-53 | the rounds before the first that finds stop requested all run and no later one does; the messages sent are those that arrive in exactly these rounds |
| ThreadLoop.StopTakesAtMostOneMore | infrastructure/src/dts_thread.cpp:43-53 | after a stop request at most one more message is handled, and none if the request precedes the loop test |
| ThreadLoop.ThreadFromStart | infrastructure/src/dts_thread.cpp:24-69 | all of the above for a thread from its start |
| ThreadLoop.CatchUp | infrastructure/src/dts_thread.cpp:36-39 | the catch-up loop ends at the first grid point after the last clock reading |
| ThreadLoop.ThreadCtx.Round | infrastructure/src/dts_thread.cpp:28-67 | one round: a due deadline fires once and moves to the first grid point after the last clock reading; the oldest message, if any, is taken, sets the status if it is a status message, and is handed to the entry with its bytes |
| ThreadLoop.Mailbox.Send | infrastructure/include/mailbox.h:41-51 | the message goes to the end of the queue |
| ThreadLoop.Mailbox.SendCopy | infrastructure/include/mailbox.h:53-61 | the copying form queues a message with a payload even when there is no data |
| ThreadLoop.Mailbox.TryPopLocked | infrastructure/include/mailbox.h:65-70 | the oldest message, or nothing from an empty queue |
| ThreadLoop.ThreadCtx.ThreadRun | infrastructure/src/dts_thread.cpp:24-69 | the loop with its catch-up, wait, pop, status and entry steps ends, for any list of environment turns, in the state the run model gives |
| Console.StepKeeps | infrastructure/src/console.cpp:94-335 | every step of sessions, middleware, executor and stopper keeps the invariant |
| Console.ControlProtocol | infrastructure/src/console.cpp:94-335 | in every interleaving each job is in exactly one place, once; jobs run at most once, in push order, never also cancelled; for each executed middleware job one response with its line and output is handed over, and for no other; none is left over after stop and exit |
| Console.UnfinishedIff | infrastructure/src/console.cpp:94-100 | a job is never finished iff it was pushed after the executor's loop had exited |
| Console.SessionHangs | infrastructure/src/console.cpp:103-139 | the shortest such run, with any continuation |
| ConsoleReplies.TracedRuns | infrastructure/src/console.cpp:94-335 | on every run each job has the line that its push brought, and each executed one the output of its own execution |
| ConsoleReplies.ResponsesReadBack | infrastructure/src/console.cpp:161-192 | every response on every run is "cmd=", the line the middleware submitted as this job, a newline, and the output of this job's execution; the newline is the first one if the line has none |
| ConsoleReplies.ResponsesTellApart | infrastructure/src/console.cpp:158-192 | on every run two responses to lines without a newline have the same text only if the jobs have the same line and the same output |
| Console.Control.SubmitDds | infrastructure/src/console.cpp:313-335 | 0 and one more job with the payload as its line, at the end of the queue, iff the payload has 1 to 4096 bytes and stop has not come; otherwise -1 and nothing changes |
| Console.Control.ControlTurn | infrastructure/src/console.cpp:181-203 | one turn takes the oldest job, stores its output and marks it done; for a middleware job the response "cmd=", line, newline, output is handed over, for a session's none; every other job is as before; this is that many steps of the protocol |
| Console.Control.ControlStop | infrastructure/src/console.cpp:289-311 | stop closes the queue to the middleware and answers exactly the jobs that were queued, with "control stopped"; this is the protocol's stop |
| Statistics.WindowExact | webserver/src/stats.h:32-44 | under a positive clock that never runs back the snapshot's sum is the reports and bytes of the sixty seconds up to now |
| Statistics.FiveSecondsIff | webserver/src/stats.h:38-45 | that sum is the five-second sum iff no report lies in the current second or 6 to 59 seconds back |
| Statistics.TotalsAreTheLog | webserver/src/stats.h:18-29 | totals, gaps and last sequence number are those of the full log, numbering modulo 2^32; number and task kept are those of its last report |
| Statistics.BucketsFollow | webserver/src/stats.h:72-85 | each bucket holds the newest second of its residue that the log touched, with that second's reports |
| Statistics.Stats.OnReport | webserver/src/stats.h:18-29 | one report moves the statistics one log step |
| Statistics.Stats.SnapshotSums | webserver/src/stats.h:32-44 | the loop over sixty buckets computes the specified sums |
| LogRotation.MinElement | infrastructure/src/ts_rotating_sink.cpp:131-141 | the first least file, the open one last |
| LogRotation.OrderIsOldestFirst | infrastructure/src/ts_rotating_sink.cpp:129-152 | the deletion order holds exactly the files that are not open, oldest first, ties in listing order |
| LogRotation.TsRotatingSink.EvictOldestIfNeeded | infrastructure/src/ts_rotating_sink.cpp:111-153 | ends, whichever deletions fail, with the outcome of EvictsShortestRun |
| LogRotation.EvictsShortestRun | infrastructure/src/ts_rotating_sink.cpp:111-153 | only listed files that start with the prefix, end in .log, are not open and can be deleted go, and every file kept is unchanged; every gone file is older than every such file kept, or as old and read first; then the total of the files with that prefix and ending, the open one included, is within the bound or no such file is left, and with the last file gone it would still be over |

## Left out

- Ring positions are natural numbers: their 64-bit wrap-around is not modelled (the unsigned subtractions of the tests are).
- Futex words, lost wake-ups and deadlines of the bucket: a wait tests the memory again at its wake-ups, however many come before the deadline; nothing is claimed about being woken.
- The robust mutex is a step guard with an owner-died mark; lock fairness is not modelled.
- BucketProtocol.FifoFromCreation: has the hypotheses that a copy starts with room for its record and that a claim succeeds only when nobody reads any more, because without them it can fail; FifoIfClean has the weaker, exact condition on copies, and FifoIffOneDivisor and TakeoverSafeIff say when the conditions hold.
- BucketExact.FifoIfClean: its condition on copies is sufficient for every run; that it is also necessary is WriteSafeIff, for one write over all ring contents and payloads, and not a statement about each single run.
- BucketTakeover.TakeoverSafeIff, and TakeoverFromCreation with it: positions are assumed to stay 2^34 below 2^64, where the code's counters wrap.
- Opening a segment and claiming it are one step; a channel's orderly close unlinks the name, after which nobody can open the segment, and is not modelled. Process ids are not reused.
- A read past the ring's memory after an overrun: lengths found in overwritten headers are modelled as numbers, the out-of-range copy they might cause is not.
- Messages of 4 GiB and more: the length header of a bucket entry is 32 bits wide.
- Byte order: all length headers and report fields are little-endian.
- shm_open, mmap and signals: their success, and whether an owner process is gone, are parameters.
- The transport's locator functions, its send gather loop and its segment maps: plumbing with single-branch facts.
- The receive bound never exceeds the capacity, which the transport's initialisation checks.
- ids without a cache (fixed slots): no id of the table is of that kind.
- The 500 literal sizes of the table: every theorem holds for any table; where the full report must fit the frame bound that is a hypothesis on the table, which 500 ids with 32758 bytes between them meet.
- Bypass modes, frame time budgets, performance counters and logging of Process; frames of the UE type find no region and are counted as dropped.
- Block heads are kept beside the pool bytes, as the region's arrays of used marks, keys and ticks.
- Pool memory cap and the regions' allocation failure.
- A response handed over while the middleware is down is dropped by it; the log says for each whether it was up.
- Condition variables of mailbox and console: a wait ends when its condition holds or its deadline passes.
- ThreadLoop.ThreadCtx.ThreadRun: runs a finite list of environment turns; the endless loop is the limit of all of them.
- Console jobs are table entries numbered in push order, not shared heap objects; a refused overlong session line never reaches the queue; restarting control after a stop is not modelled.
- Command execution is a parameter: any output, always ending.
- Statistics.Stats.SnapshotSums: gives the sums before they are divided by five and printed.
- A system clock that runs back: the window theorem needs one that does not.
- Log file naming and opening, and deletions by other processes during the loop.
- FastDDS, sockets, HTTP, Kafka, the scheduler's assembly, timers, message tables and the ping-pong buffer: foreign code, or true but easy.
