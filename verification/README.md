# Farsight in Dafny

Farsight scans IPv4 address space for game servers. This project models its algorithmic cores and proves what they
promise, over all inputs, all runs and all interleavings:

- **Work-stealing queue** (`DequeBuffer`, `Deque`, `DequeWorker`). The ring with its doubling copy, the operations in
  place, and the interleaving of one pusher with any number of stealers as single atomic steps: what is stolen is what
  was pushed, in order. `push` compares only the current occupancy with the capacity, so this holds if every batch fits;
  where one does not, a run that hands out a wrong item is constructed, from a new queue on.
- **Port engine** (`LazyHeap`, `PortGraph`, `PortState`, `PortPool`). The lazy-deletion heap agrees with a plain scan
  of a map; the choice of the next port is an argmax over all untried ports of a score defined from scratch; budget,
  catch-all detection, and the recycled pool of states under interleaving.
- **Address generation** (`Ranges`, `Prefix`, `IpAdapter`). Exclusion is set difference, indexing a bijection, and the
  sweep and the exploit path together return every address once. The exploit path does not stop at the boundary of the
  scope; every session ends, and what it has returned then is stated exactly.
- **Responder and parser** (`Minecraft`, `Scanner`, `Reassembly`, `Segmentation`, `FinOrder`, `ResponderSpec`,
  `ResponderStreams`, `ResponderRecords`, `Responder`). Varints, the streaming parser and the byte-by-byte automaton it amounts to,
  reassembly with wrapping sequence numbers and a bounded reorder buffer, the connection table and its expiry queue. Over
  a whole run every banner recorded for a peer is the parser's verdict on the whole stream of one of its connections,
  however that was cut, ordered, repeated or lost; and a stream all of whose chunks arrive leaves exactly its verdict,
  whatever happens to other peers meanwhile. A FIN is appended without a look at its sequence number; when that
  can record a false banner is stated exactly, for every state of the parser.
- **AF_XDP rings** (`Ring`, `RingSides`, `FrameRecycling`, `Receiver`). Rings with stale cached counters that wrap, and
  the circulation of receive frames between fill ring, kernel, RX ring and batch guard.
- **Sending and pacing** (`InternetChecksum`, `Sender`, `Completer`). Every send leaves in its frame the packet built
  from scratch, checksums included, and that packet says its message at the offsets where a receiver looks; the token
  bucket keeps its rate over every window, and reaches it.

`Wrappers`, `Sets` and `Modular` hold an option type, finite-set facts, and 32-bit words and remainders.

Imperative code is written as classes and loops, each proved against a function of the old state or against the
property itself. Shared-memory protocols are state machines whose steps are single shared accesses. Numbers of fixed
width are numbers with explicit bounds or explicit remainders; probabilities, tokens and time are real numbers.
Randomness, clocks, cookies, payloads, JSON validity and the kernel's choices are parameters.

Where the code and what one would expect of it differ, the code is followed and the difference is a result:
`SomeRunHandsOutWrongItem` (the fit of a batch is not checked), `ExhaustionStaysInScopeIffWhole` (exploiting leaves the
scope), `FinIsRightIffInOrder`, `FinIsHonestIff` and `DishonestFinLies` (the sequence number of a FIN is not looked at),
`ExpiredIff` and `PromiseIsNotKept` (more time promised to a connection does not keep it), `ReservingFailsIffKernelLags`
and `LaggingKernelFailsReserve` (the fill ring can be full when the kernel is slow to say what it took).

## Model

| member | source | states |
|---|---|---|
| `DequeBuffer.SplitRangeWalksInOrder` | farsight/src/controller/deque/buffer.rs:28-51 | walking the one or two segments of a logical range visits the slots of its indices in order |
| `DequeBuffer.AtInjective` | farsight/src/controller/deque/buffer.rs:47-51 | logical indices less than the capacity apart never share a slot |
| `DequeBuffer.CopyLayout` | farsight/src/controller/deque/worker.rs:69-121 | in all four combinations of split and unsplit layouts the k-th slot of the new layout receives the k-th of the old |
| `DequeBuffer.Resize` | farsight/src/controller/deque/worker.rs:55-123 | every live logical index reads the same item from the larger buffer |
| `DequeBuffer.WriteBatch` | farsight/src/controller/deque/worker.rs:163-188 | the in-place copy of a batch is the item-by-item write at the next logical indices |
| `DequeBuffer.WrittenContents` | farsight/src/controller/deque/worker.rs:163-188 | a batch no longer than the ring is read back in full and no slot outside it changes |
| `DequeBuffer.FittingBatchAppends` | farsight/src/controller/deque/worker.rs:146-195 | a batch that fits is appended to the unconsumed items, which stay |
| `DequeBuffer.OverfullBatchLosesOldest` | farsight/src/controller/deque/worker.rs:152-188 | a batch that does not fit overwrites the oldest unconsumed item |
| `DequeBuffer.PushKeepsEverythingIffItFits` | farsight/src/controller/deque/worker.rs:152-158 | old and new items are all kept exactly when occupancy plus batch is at most the capacity |
| `DequeBuffer.CopyOut` | farsight/src/controller/deque/stealer.rs:69-92 | the two-segment copy of a batch steal yields the items of the range in order |
| `DequeBuffer.StealOffsetIsSlot` | farsight/src/controller/deque/stealer.rs:69-92 | the offset a batch steal copies from is the slot of the item's logical index |
| `Deque.StepKeepsInv` | farsight/src/controller/deque/worker.rs:146-195 | every atomic step of pusher or stealer keeps: the ring holds the unconsumed items, a stealer with a current front holds true copies, the steals are the consumed prefix |
| `Deque.PushedIsCompleted` | farsight/src/controller/deque/worker.rs:146-195 | the log of pushed items is the concatenation of the completed batches |
| `Deque.StealsAreThePushedPrefix` | farsight/src/controller/deque/stealer.rs:25-114 | in every interleaving with doublings, at every moment, the successful steals in exchange order concatenate to the first `consumed` items pushed and the ring holds the rest |
| `Deque.StepRefinesQueue` | farsight/src/controller/deque/stealer.rs:25-114 | each step is a step of an atomic FIFO queue: a push appends, an exchange takes a nonempty prefix, nothing else changes it; `steal`, and `steal_batch` with room in its destination, report empty only when it is, and otherwise go for one item, or for a share that differs from what they leave by at most one |
| `Deque.SingleItemPushesFit` | farsight/src/controller/deque/worker.rs:146-158 | pushing one item at a time always fits, so the hypothesis of the main result is free |
| `Deque.OverfullPushHandsOutWrongItem` | farsight/src/controller/deque/worker.rs:152-195 | wherever the pusher starts to copy new items that do not fit, some continuation makes a steal hand out the wrong item |
| `Deque.OverfullPushIsReachable` | farsight/src/controller/deque/worker.rs:146-195 | from every new queue a run leads to such a state: one item, then a batch as long as the ring |
| `Deque.SomeRunHandsOutWrongItem` | farsight/src/controller/deque/worker.rs:146-195 | so some run of a new queue has steals that are not the items pushed first |
| `DequeWorker.Worker.constructor` | farsight/src/controller/deque/worker.rs:28-45 | a new worker is empty, with 64 slots |
| `DequeWorker.Worker.Push` | farsight/src/controller/deque/worker.rs:146-195 | a batch that fits after at most one doubling is appended, cached counter included; the ring is doubled exactly when it is full |
| `DequeWorker.Worker.Steal` | farsight/src/controller/deque/stealer.rs:25-51 | takes the oldest item, or nothing exactly when empty |
| `DequeWorker.Worker.StealBatch` | farsight/src/controller/deque/stealer.rs:54-114 | takes the oldest items, no more than the destination holds; unless that is full, what is taken and what is left differ by at most one, the larger share being taken |
| `LazyHeap.UpdateKeepsBalance` | farsight/src/controller/strategy/pmap/heap.rs:112-119 | an update keeps `current` equal to `stale` plus the live entries |
| `LazyHeap.SettledTopIsArgMax` | farsight/src/controller/strategy/pmap/heap.rs:86-96 | once the two tops differ, the top of `current` is the key a scan of the map picks |
| `LazyHeap.Cancel` | farsight/src/controller/strategy/pmap/heap.rs:86-96 | cancelling equal tops ends with different tops and keeps the balance |
| `LazyHeap.Heap.Top` | farsight/src/controller/strategy/pmap/heap.rs:78-83 | returns the key of maximal current value, or nothing exactly when the map is empty |
| `LazyHeap.Heap.Pop` | farsight/src/controller/strategy/pmap/heap.rs:98-104 | removes exactly that key |
| `LazyHeap.Heap.Update` | farsight/src/controller/strategy/pmap/heap.rs:111-119 | sets one value in the map and keeps the balance |
| `LazyHeap.Heap.Clear` | farsight/src/controller/strategy/pmap/heap.rs:121-126 | empties the map and keeps the balance |
| `PortGraph.FromCounts` | farsight/src/controller/strategy/pmap/graph/banner.rs:15-46 | the ranking is sorted by count, misses no port with history and ends with the seed ports without; pair counts are grouped by first port |
| `PortGraph.SortByCount` | farsight/src/controller/strategy/pmap/graph/banner.rs:27-30 | lists every counted port once, by decreasing count |
| `PortGraph.BaseProb` | farsight/src/controller/strategy/pmap/graph/banner.rs:48-51 | the prior times the number of addresses is the count; it is zero exactly for ports without history |
| `PortGraph.Conditional` | farsight/src/controller/strategy/port/pmap.rs:108-123 | the conditional times the count of the hit is the pair count, and it is zero where nothing is known |
| `PortGraph.DrawingCanSucceed` | farsight/src/controller/strategy/pmap/graph/banner.rs:69-80 | as long as the draw is attempted an untried port exists |
| `PortState.ScoreIsMaximum` | farsight/src/controller/strategy/port/pmap.rs:61-63 | the reference score is the least upper bound of the prior and the conditionals of every earlier hit |
| `PortState.FirstOfRankingIsBest` | farsight/src/controller/strategy/port/pmap.rs:67-73 | the first untried port of the ranking has the largest prior of all untried ports |
| `PortState.ChoiceIsBest` | farsight/src/controller/strategy/port/pmap.rs:82-92 | the better of heap top and ranking beats every untried port of positive score |
| `PortState.State.NextPort` | farsight/src/controller/strategy/port/pmap.rs:65-93 | returns an untried port of maximal score among all untried ports, and nothing only if they all score zero |
| `PortState.State.RaiseCandidates` | farsight/src/controller/strategy/port/pmap.rs:108-123 | every co-occurring port is raised to its conditional probability if that is higher, nothing else moves |
| `PortState.State.RecordHit` | farsight/src/controller/strategy/port/pmap.rs:95-126 | abandons exactly at the threshold-th distinct port with one hash, without overflow of the one-byte counter; otherwise the heap knows the new scores |
| `PortState.State.RecordEmpty` | farsight/src/controller/strategy/port/pmap.rs:128-131 | only marks the port as tried |
| `PortState.State.Generate` | farsight/src/controller/strategy/port/pmap.rs:148-158 | starts over with the full budget; an exploiting first port is a best one, any other is the one drawn |
| `PortState.State.OnResult` | farsight/src/controller/strategy/port/pmap.rs:333-381 | a known port is ignored; the address is given up exactly on budget, catch-all or no port left; an exploring probe goes to the port drawn; while results answer the probe in flight, probes never repeat and greedy ones are best |
| `PortState.BudgetBoundsProbes` | farsight/src/controller/strategy/port/pmap.rs:355-361 | the kept invariant bounds the probes of an address by max(1, budget) |
| `PortPool.StepKeepsInv` | farsight/src/controller/strategy/port/pmap.rs:276-297 | every access to pool or map keeps each state in one place and all of them within the capacity |
| `PortPool.GivingBackNeverFails` | farsight/src/controller/strategy/port/pmap.rs:148-193 | in every interleaving of guard, generate, removal and expiry no push onto the pool can fail |
| `PortPool.StepDelivers` | farsight/src/controller/strategy/port/pmap.rs:148-193 | a guard holds the oldest free state, generating puts it under its address and takes out the one it replaces, and what is taken out goes to the end of the pool |
| `PortPool.OnlyAbandonedStatesAreLost` | farsight/src/controller/strategy/port/pmap.rs:148-193 | in every interleaving the states in pool, map and hands are all that were allocated but one for each guard dropped before generating |
| `Ranges.SubtractIsDifference` | farsight/src/net/range.rs:83-131 | the comparisons of front ranges leave exactly the scanned addresses that are not excluded |
| `Ranges.SubtractIsSorted` | farsight/src/net/range.rs:83-131 | what is left is in order and apart |
| `Ranges.TwoPointer` | farsight/src/net/range.rs:83-133 | the loop computes that subtraction, terminates, and no bound under- or overflows |
| `Ranges.Exclude` | farsight/src/net/range.rs:69-134 | for disjoint scans and start-sorted, possibly overlapping exclusions: set difference, sorted and disjoint |
| `Ranges.Compile` | farsight/src/net/range.rs:136-165 | every range carries the number of addresses before it |
| `Ranges.Index` | farsight/src/net/range.rs:174-197 | the binary search finds the address of an index, and fails exactly past the count |
| `Ranges.NthIncreases` | farsight/src/net/range.rs:174-197 | indexing is strictly increasing |
| `Ranges.NthIsCovered` | farsight/src/net/range.rs:174-197 | it yields only covered addresses |
| `Ranges.NthReaches` | farsight/src/net/range.rs:174-197 | it yields all of them |
| `Prefix.MarkSetsOneBit` | farsight/src/controller/strategy/pmap/graph/prefix.rs:37-49 | marking sets exactly one bit, counts it once and reports whether it was set |
| `Prefix.NoneRemaining` | farsight/src/controller/strategy/pmap/graph/prefix.rs:20-34 | the counter is zero exactly when every bit is set |
| `Prefix.FetchUnscanned` | farsight/src/controller/strategy/pmap/graph/prefix.rs:52-66 | finds the first unscanned offset drawn, or the least one if no draw is unscanned, and fails exactly when none is left |
| `IpAdapter.MarkIsFaithful` | farsight/src/controller/strategy/ip/pmap.rs:69-75 | marking hands an address out at most once; the bitmaps mark exactly the returned addresses |
| `IpAdapter.MarkKeepsBooks` | farsight/src/controller/strategy/ip/pmap.rs:69-80 | marking keeps the bitmaps, the offers of all other /24s and their scores right |
| `IpAdapter.HitIsCredited` | farsight/src/controller/strategy/ip/pmap.rs:129-142 | a hit keeps every score on offer equal to the historical hits of its /24 plus the hits since |
| `IpAdapter.OfferIsCredited` | farsight/src/controller/strategy/ip/pmap.rs:78-80 | a /24 that is put on offer comes with exactly the score it is due |
| `IpAdapter.Adapter.constructor` | farsight/src/controller/strategy/ip/pmap.rs:92-113 | a new adapter has returned nothing and keeps the invariant |
| `IpAdapter.Adapter.Next` | farsight/src/controller/strategy/ip/pmap.rs:57-88 | returns the first in-scope address of the shuffle not handed out before, or nothing with the sweep complete |
| `IpAdapter.Adapter.TryPick` | farsight/src/controller/strategy/ip/pmap.rs:29-54 | returns a new address of a /24 of maximal score among those on offer with addresses left, or nothing exactly when there is none |
| `IpAdapter.Adapter.NextAddress` | farsight/src/controller/strategy/ip/pmap.rs:117-126 | no address is returned twice; on an exploiting coin the hottest /24 comes first and the sweep does not move, otherwise the sweep comes first; nothing is returned only when the sweep is complete and no /24 is on offer |
| `IpAdapter.Adapter.OnResult` | farsight/src/controller/strategy/ip/pmap.rs:129-142 | adds one to the score of one /24 unless it is exhausted, and keeps the invariant |
| `IpAdapter.SweepCoversScope` | farsight/src/controller/strategy/ip/pmap.rs:57-88 | once the index reaches the count every in-scope address was returned |
| `IpAdapter.SessionIsBounded` | farsight/src/controller/strategy/ip/pmap.rs:117-126 | however it is used, an adapter hands out at most 2^32 addresses |
| `IpAdapter.Drain` | farsight/src/controller/strategy/ip/pmap.rs:117-126 | asking until nothing comes ends, whatever the coins and draws, and has then returned exactly the /24s that touch the scope, each address once |
| `IpAdapter.ExhaustionReturnsTouchedPrefixes` | farsight/src/controller/strategy/ip/pmap.rs:29-88 | a finished session has returned exactly the addresses of the /24s that touch the scope |
| `IpAdapter.ExhaustionStaysInScopeIffWhole` | farsight/src/controller/strategy/ip/pmap.rs:40-48 | it stayed in scope exactly when the scope consists of whole /24s |
| `Minecraft.ReadVarint` | farsight/src/controller/protocol/minecraft.rs:102-121 | the loop reads the number of the seven-bit groups, at most five, kept to 32 bits |
| `Minecraft.WriteVarint` | farsight/src/controller/protocol/minecraft.rs:85-99 | the loop appends the seven-bit groups of the number |
| `Minecraft.VarintRoundTrip` | farsight/src/controller/protocol/minecraft.rs:85-121 | for every 32-bit value, anywhere in a stream, reading undoes writing and consumes exactly the one to five bytes |
| `Minecraft.Parse` | farsight/src/controller/protocol/minecraft.rs:15-42 | the parser computes the verdict function |
| `Minecraft.VerdictIsFinal` | farsight/src/controller/protocol/minecraft.rs:15-42 | Ok and Invalid never change when bytes are appended |
| `Minecraft.DecisionPoint` | farsight/src/controller/protocol/minecraft.rs:15-42 | a decided stream has a point before which every prefix is Incomplete and from which on every prefix has its verdict |
| `Minecraft.ResponseRoundTrip` | farsight/src/controller/protocol/minecraft.rs:15-42 | every well-formed response parses to its body, whatever follows |
| `Minecraft.StrictPrefixIsIncomplete` | farsight/src/controller/protocol/minecraft.rs:15-42 | every strict prefix of a response is Incomplete |
| `Scanner.ScannerIsParser` | farsight/src/controller/protocol/minecraft.rs:15-42 | an automaton that reads byte by byte reaches the verdict of the parser, on every input |
| `Scanner.NeededIsLeast` | farsight/src/controller/protocol/minecraft.rs:15-42 | no continuation shorter than the computed number of bytes leads from a state to a banner, and none at all from a dead one |
| `Scanner.FinishIsBanner` | farsight/src/controller/protocol/minecraft.rs:15-42 | from every state that is not dead a continuation of exactly that length does |
| `Scanner.HopelessIffDead` | farsight/src/controller/protocol/minecraft.rs:15-42 | the dead states are exactly those behind which no continuation is a banner |
| `Scanner.InvalidIffHopeless` | farsight/src/controller/protocol/minecraft.rs:15-42 | once the header is read, data is judged invalid exactly if no continuation is a banner |
| `Reassembly.Receive` | farsight/src/controller/responder.rs:502-556 | the handler's tests and stitching loop compute the connection after a segment |
| `Reassembly.CountBytes` | farsight/src/controller/responder.rs:516-518 | the loop counts the buffered bytes |
| `Reassembly.ReceivedTracks` | farsight/src/controller/responder.rs:502-556 | any segment of a stream keeps: data is a prefix of it, the next sequence number is first + length modulo 2^32, and nothing stitchable is left |
| `Reassembly.TracksIff` | farsight/src/controller/responder.rs:502-556 | the invariant is kept by exactly the segments that are part of the stream or are not taken; the latter change nothing |
| `Reassembly.ReceivedWithinLimits` | farsight/src/controller/responder.rs:512-524 | no segment of any origin takes the buffer over its segment or byte limit |
| `Reassembly.VerdictIgnoresSegmentation` | farsight/src/controller/responder.rs:508-624 | for any cutting, order, repetition and loss, the verdict acted on is the parser's verdict on the whole stream |
| `Segmentation.ReceivedHas` | farsight/src/controller/responder.rs:508-556 | with room in the buffer no chunk that arrived is ever lost, whatever arrives next |
| `Segmentation.EveryArrivalOrderReachesVerdict` | farsight/src/controller/responder.rs:508-624 | if every chunk arrives, in any order and any number of times, the connection closes with the verdict of the stream |
| `ResponderSpec.ExpireKeepsCover` | farsight/src/controller/responder.rs:162-190 | the expiry loop keeps every survivor queued, removes each connection once and only overdue ones, and stops at a live entry that is not due |
| `ResponderSpec.ExpiredIff` | farsight/src/controller/responder.rs:162-190 | exactly which connections the expiry loop removes: the tracked ones with an entry up to which every entry is due, or of an untracked key, or not the first of its key |
| `ResponderSpec.PromiseIsNotKept` | farsight/src/controller/responder.rs:162-190 | for every greeting and undecided first data: a run from the empty responder in which a tick removes the connection before the time it was promised |
| `ResponderSpec.StepAccounts` | farsight/src/controller/responder.rs:243-315 | for every packet or tick and every key: a departure makes exactly one report and at most one scanling; a cookie-valid SYN-ACK opens one connection, replaces the one tracked, if any, and reports nothing |
| `ResponderSpec.StepKeepsCover` | farsight/src/controller/responder.rs:431-448 | every packet keeps every tracked connection in the expiry queue |
| `ResponderSpec.RunKeepsBooks` | farsight/src/controller/responder.rs:354-747 | in every run and for every key: the connections opened are those departed, those replaced and the one tracked; scanlings ≤ departures ≤ reports; and every tracked connection is queued |
| `ResponderSpec.EveryDepartureIsReportedOnce` | farsight/src/controller/responder.rs:558-624 | at every point of every run a departure is reported exactly once |
| `ResponderStreams.RunIsTruthful` | farsight/src/controller/responder.rs:354-747 | over every run, each opened connection with a stream of its own, stray segments that are not taken and other peers mixed in, every scanling and banner of a peer is the verdict on the whole stream of one of its connections |
| `ResponderStreams.StepIsConsistent` | farsight/src/controller/responder.rs:243-315 | each packet or tick keeps that, and a tracked connection waits on an undecided prefix of its stream |
| `ResponderStreams.AcknowledgesWhatIsHeld` | farsight/src/controller/responder.rs:527-623 | a part of the stream is answered exactly once, unless it acknowledges something else or is empty where expected: with a reset if the data decides, else with an ACK, acknowledging exactly the bytes held in order and going on from what was sent |
| `ResponderStreams.GreetingIsAnswered` | farsight/src/controller/responder.rs:420-448 | an accepted handshake is answered with the payload, numbered as acknowledged and acknowledging the SYN; what is tracked expects the next byte and the acknowledgment of all that was sent |
| `ResponderStreams.FinIsAnswered` | farsight/src/controller/responder.rs:650-658 | a FIN is answered with a reset that acknowledges its data and itself, tracked or not |
| `ResponderRecords.VerdictIsRecorded` | farsight/src/controller/responder.rs:558-623 | data in order that decides is recorded at once: one report, with a banner one scanling and one call of the IP strategy, and the key is forgotten; undecided data is kept and nothing recorded |
| `ResponderRecords.RunRecordsAgree` | farsight/src/controller/responder.rs:354-747 | in every run the scanlings, the reports with a banner and the calls of the IP strategy are the same events in the same order |
| `ResponderRecords.StrayIsSilence` | farsight/src/controller/responder.rs:243-256 | a packet of no tracked connection, or a handshake not accepted, makes one report of silence and changes no other record; only data and a missing payload are answered, with a reset that acknowledges what came |
| `ResponderRecords.ResetIsSilence` | farsight/src/controller/responder.rs:243-256 | a reset ends a tracked connection with one report of silence and no other record |
| `ResponderRecords.RunReportsExactly` | farsight/src/controller/responder.rs:243-747 | in every run a key is reported exactly as often as it lost a connection and as its packets were stray |
| `ResponderRecords.RunFollowsConnection` | farsight/src/controller/responder.rs:453-627 | within any run, with anything going on for other keys, a connection comes exactly as far as its own segments bring it, and exactly that is recorded for it |
| `ResponderRecords.EveryBannerIsRecorded` | farsight/src/controller/responder.rs:354-627 | over whole runs: after an accepted handshake, if every chunk arrives in time, in any order and any number of times, the key gains exactly the verdict on the stream, and silence for each segment after the end |
| `ResponderStreams.FinIsRightIffInOrder` | farsight/src/controller/responder.rs:696-744 | whatever undecided data is held, the handler records what the stream has, for every stream the FIN ends, exactly when the FIN is in order or the data already rules a banner out |
| `ResponderStreams.FinIsHonestIff` | farsight/src/controller/responder.rs:696-744 | the handler records nothing or what the stream has, for every stream the FIN is part of, exactly when the FIN is honest: in order, or no banner is possible behind the gap or the repetition, or none fits the sequence space |
| `ResponderStreams.DishonestFinLies` | farsight/src/controller/responder.rs:696-744 | for all data and every offset that is not honest: a stream, and a run of a new responder on parts of it, that ends with a scanling the stream does not have |
| `FinOrder.NeverFalseIffHonest` | farsight/src/controller/responder.rs:696-708 | appending a part at an offset never yields a false banner exactly if the offset is honest, for every state of the parser |
| `FinOrder.AlwaysRightIff` | farsight/src/controller/responder.rs:696-708 | appending the end of a stream always yields its banner exactly in order or where none is possible any more |
| `Responder.Responder.constructor` | farsight/src/controller/responder.rs:75-110 | a new responder tracks, queues and has recorded nothing |
| `Responder.Responder.ProcessRst` | farsight/src/controller/responder.rs:243-256 | a reset reports once and forgets the connection |
| `Responder.Responder.ProcessSynAck` | farsight/src/controller/responder.rs:354-451 | only a valid cookie and a payload get a connection tracked and queued |
| `Responder.Responder.ProcessAck` | farsight/src/controller/responder.rs:453-627 | the handler, with reassembly and parser, is the step function proved about above |
| `Responder.Responder.ProcessFin` | farsight/src/controller/responder.rs:629-747 | likewise for a FIN |
| `Responder.Responder.ProcessPacket` | farsight/src/controller/responder.rs:243-314 | resets come before FINs, SYN-ACKs and ACKs |
| `Responder.Responder.Expire` | farsight/src/controller/responder.rs:162-190 | the loop with its entry set aside terminates and is one pass over the queue |
| `Ring.WrappingIsHarmlessIffSizeDivides` | farsight/src/xdp/ring.rs:251-265 | a wrapped 32-bit counter finds the right slot for every count exactly when the size divides 2^32 |
| `Ring.FreeIsRoom` | farsight/src/xdp/ring.rs:303-314 | the room reported is never more than there is, and enough for the batch exactly when there is enough |
| `Ring.ReserveIffRoom` | farsight/src/xdp/ring.rs:302-326 | however stale the cache, a reservation succeeds exactly when there is room behind what the consumer released |
| `Ring.PeekTakesWhatIsThere` | farsight/src/xdp/ring.rs:360-383 | however stale the cache, a peek covers exactly what is submitted, up to the batch size |
| `Ring.ReservedIsNotOwned` | farsight/src/xdp/ring.rs:316-326 | no reserved slot is one the consumer still owns |
| `Ring.StepKeepsInv` | farsight/src/xdp/ring.rs:302-393 | every call of either side keeps counters, caches and slots consistent |
| `Ring.TakenIsSubmitted` | farsight/src/xdp/ring.rs:302-393 | in every interleaving what the consumer has taken is what was submitted, in order |
| `RingSides.Producer.constructor` | farsight/src/xdp/ring.rs:206-217 | a fresh producer sees all slots free |
| `RingSides.Producer.Free` | farsight/src/xdp/ring.rs:303-314 | returns room that is there, and at least the batch exactly when reserved + batch ≤ released + size, however stale the cache |
| `RingSides.Producer.Reserve` | farsight/src/xdp/ring.rs:316-326 | is the ring's step and succeeds exactly when there is room |
| `RingSides.Producer.Submit` | farsight/src/xdp/ring.rs:328-331 | is the ring's step |
| `RingSides.Consumer.constructor` | farsight/src/xdp/ring.rs:206-217 | a fresh consumer sees nothing submitted |
| `RingSides.Consumer.Available` | farsight/src/xdp/ring.rs:361-370 | at most the batch and at most what is seen, and one of the two |
| `RingSides.Consumer.Peek` | farsight/src/xdp/ring.rs:372-383 | is the ring's step and covers exactly what is there |
| `RingSides.Consumer.Read` | farsight/src/xdp/ring.rs:251-258 | reading a peeked slot gives the entry submitted there |
| `RingSides.Consumer.Unpeek` | farsight/src/xdp/ring.rs:385-388 | is the ring's step |
| `RingSides.Consumer.Release` | farsight/src/xdp/ring.rs:390-393 | is the ring's step and takes the next entries in order |
| `FrameRecycling.StepKeepsInv` | farsight/src/controller/receiver.rs:57-149 | every shared access of receiver or kernel moves frames without losing or duplicating one |
| `FrameRecycling.EveryFrameIsInOnePlace` | farsight/src/controller/receiver.rs:36-149 | in every reachable state each frame is in exactly one of fill ring, kernel, RX ring and batch guard |
| `FrameRecycling.ReservingFailsIffKernelLags` | farsight/src/controller/receiver.rs:69-73 | "reserving fill ring" fails exactly when the kernel has taken more frames without saying so than are in the kernel and the RX ring |
| `FrameRecycling.PublishingKernelLeavesRoom` | farsight/src/controller/receiver.rs:69-73 | in every run with a kernel that says what it took before it delivers it, whatever else it does, every reservation succeeds |
| `FrameRecycling.LaggingKernelFailsReserve` | farsight/src/controller/receiver.rs:69-73 | from every start three steps of another kernel make it fail |
| `FrameRecycling.ReceiveKeepsInv` | farsight/src/controller/receiver.rs:58-88 | whatever fails, the peek is undone; otherwise the batch is as large as possible |
| `FrameRecycling.UpcomingIsNext` | farsight/src/controller/receiver.rs:108-128 | iteration hands out the descriptors in the order in which the kernel submitted them |
| `FrameRecycling.DropReturnsBatch` | farsight/src/controller/receiver.rs:133-144 | a guard dropped at any point gives all its frames back to the fill ring |
| `Receiver.FillSpecStarts` | farsight/src/controller/receiver.rs:36-43 | the filled ring holds the receiver's addresses, each once |
| `Receiver.Fill` | farsight/src/controller/receiver.rs:36-43 | the loop over a fresh ring always finds room and fills it |
| `Receiver.Receiver.constructor` | farsight/src/controller/receiver.rs:28-55 | a new receiver is a start of frame recycling |
| `Receiver.Receiver.Receive` | farsight/src/controller/receiver.rs:58-88 | is the peek, kick and reserve of frame recycling, with all three failures |
| `Receiver.PacketStartsAtOffset` | farsight/src/controller/receiver.rs:108-128 | the packet handed out starts at the descriptor's base plus its offset |
| `Receiver.PacketIsInItsFrame` | farsight/src/controller/receiver.rs:108-128 | it lies in the descriptor's frame exactly if the offset stays inside the frame |
| `Receiver.BatchGuard.Next` | farsight/src/controller/receiver.rs:108-128 | yields the next packet and recycles its frame |
| `Receiver.BatchGuard.Drop` | farsight/src/controller/receiver.rs:133-144 | recycles the rest, releases, submits and counts the packets handed out |
| `InternetChecksum.FoldIsOnesSum` | farsight/src/net/tcp.rs:164-167 | folding a plain 32-bit sum once gives the one's-complement sum of the words |
| `InternetChecksum.SumBody` | farsight/src/net/tcp.rs:170-182 | the loop adds up the 16-bit words, an odd last byte padded with zero |
| `InternetChecksum.ChecksumVerifies` | farsight/src/net/tcp.rs:164-182 | with its checksum in place any data sums to all ones |
| `Sender.IpSeal` | farsight/src/controller/sender.rs:105-161 | the IP checksum folded from the ready sum is the one computed from scratch, without overflow |
| `Sender.TcpSeal` | farsight/src/controller/sender.rs:97-177 | the TCP checksum folded from the ready sum is the one computed from scratch, for odd and even bodies, without overflow |
| `Sender.TemplateSums` | farsight/src/controller/sender.rs:95-105 | the sums of the template's two headers are the constants in the ready sums |
| `Sender.StampedShaped` | farsight/src/controller/sender.rs:297-327 | whatever packet the frame held, after the field writes it holds the headers with the new fields |
| `Sender.PacketIpVerifies` | farsight/src/controller/sender.rs:307 | the IP header of every packet passes a receiver's check |
| `Sender.PacketTcpVerifies` | farsight/src/controller/sender.rs:393-411 | pseudo-header, TCP header and body of every packet pass a receiver's check |
| `Sender.PacketReads` | farsight/src/controller/sender.rs:297-327 | byte by byte, every packet has its addresses, length, ports, numbers, flags and body at the offsets where a receiver reads them |
| `Sender.PacketIsTemplate` | farsight/src/controller/sender.rs:133-181 | a frame that holds any packet can be sent from again |
| `Sender.Sender.constructor` | farsight/src/controller/sender.rs:95-115 | computes the ready sums from the template and the source address |
| `Sender.Sender.Prepare` | farsight/src/controller/sender.rs:77-92 | puts the template and the fixed addresses into a frame |
| `Sender.Sender.SendSyn` | farsight/src/controller/sender.rs:205-255 | the frame holds exactly the opening packet built from scratch, whatever was sent from it before, and reads as a SYN from the source port to the probed port numbered with the cookie |
| `Sender.Sender.SendSynBatch` | farsight/src/controller/sender.rs:119-181 | every frame of a batch holds the opening packet of its probe, reads as that SYN, and can be sent from again |
| `Sender.Sender.Send` | farsight/src/controller/sender.rs:286-327 | likewise for a packet with any flags and numbers |
| `Sender.Sender.SendWithData` | farsight/src/controller/sender.rs:359-413 | likewise for a packet with a body of even or odd length |
| `Completer.TickPays` | farsight/src/controller/completer.rs:38-69 | a tick keeps the tokens between zero and a full bucket, and pays a token for every completion |
| `Completer.TickIsGreedy` | farsight/src/controller/completer.rs:38-69 | a tick stops only for want of completions or of a whole token; unused tokens are kept |
| `Completer.TickConserves` | farsight/src/controller/completer.rs:38-69 | a tick turns everything there was and everything that came in since, or a full bucket if that is less, into completions and tokens left |
| `Completer.RateBound` | farsight/src/controller/completer.rs:38-69 | completions never exceed rate times elapsed time |
| `Completer.WindowBound` | farsight/src/controller/completer.rs:38-69 | the ticks in any window of any run, wherever it starts, let through at most a full bucket plus rate times its length |
| `Completer.RunConserves` | farsight/src/controller/completer.rs:38-69 | while the bucket does not overflow nothing is lost: completions and tokens are what there was plus rate times elapsed time |
| `Completer.RateIsReached` | farsight/src/controller/completer.rs:38-69 | with completions waiting and no overflow, less than one token's worth is withheld |
| `Completer.Completer.NextBatch` | farsight/src/controller/completer.rs:55-69 | takes the whole tokens of all that was there and came in since, up to a full bucket, and leaves less than one |
| `Completer.Completer.TakeCompletions` | farsight/src/controller/completer.rs:38-52 | takes exactly the completions that are there, up to the batch, off the ring |
| `Completer.Completer.DoTick` | farsight/src/controller/completer.rs:38-52 | is the tick proved about above, on the completion ring; it loses nothing and stops only for want of completions or of a whole token |

## Left out

- Weak memory, epoch reclamation and raw pointers of the queue: memory is sequentially consistent and buffers are never reused.
- 64-bit wrap-around of the queue's counters, and the bit mask: slots are remainders.
- Batches longer than a doubled ring, whose copy leaves the buffer: the pusher's copy step is not enabled for them.
- DequeWorker.Worker.Push: assumes that the batch fits, because the original does not check it; what happens otherwise is in `Deque`.
- Sender.Sender.SendWithData: assumes that the body fits the frame and the 16-bit length, as the original asserts without checking.
- RingSides.Producer.constructor: assumes a fresh ring, whose counters the kernel has set to zero.
- RingSides.Consumer.constructor: assumes a fresh ring, whose counters the kernel has set to zero.
- Receiver.Receiver.constructor: assumes that the addresses of all frames fit the 32 bits they are computed in.
- ResponderStreams.RunIsTruthful: assumes that segments that are taken are part of the stream and that FINs are honest, without which it fails (`TracksIff`, `DishonestFinLies`), and streams shorter than 2^32 bytes.
- ResponderStreams.DishonestFinLies: counts every body as valid JSON, as do the other streams constructed against a FIN; JSON validity is a parameter.
- Races inside one update of the concurrent heap: its calls are atomic, and the single-threaded heap stands for both.
- Interleaving inside one `on_result` of the port engine: a state is worked on under its entry's lock; only the pool is interleaved.
- Internals of binary heaps, hash maps, sorting, the perfect shuffle and the JSON parser; hash collisions of banners.
- Rounding of floating-point numbers, and the probability that drawing a random port ends.
- Coverage at the level of the feeder, which drops a partial batch when addresses run out.
- Several sweeps over one IP adapter at once; each sweep keeps the invariant for its own index.
- The banner text: the body is kept as bytes, its lossy conversion to a string is not modelled.
- The request builder of the protocol, the slicing of received packets into headers, and the cookie hash: their results are parameters.
- Failing sends of the responder; the follow-up probes that its reports trigger; draining of scanlings.
- The checksum-offload branches, and reuse of transmit frames before the NIC has sent them.
- The kernel's side of the rings beyond what the ring protocol makes visible.
- Sockets, memory mapping, wake-up calls, database, configuration and exclusion files, printer and eBPF filter.
