# Verification of the swarm runtime

A Dafny model of the runtime's state machines with proofs of what they promise. Each module follows one
component; classes with `modifies` clauses stand for the objects the source updates in place, and each of
their methods is proved against a function of its inputs, about which the theorems are proved.

* **Scheduling** (`Scheduler`, `HazardGraph`, `Dispatch`, `TicketRuns`, `DoubleDispatch`, `Serialisability`,
  `ParallelTick`, `RunTwice`, `ReadersOnly`, `ThreadPool`, `WaitProtocol`). The scheduler registers systems, sorts
  them by name and builds the hazard graph. A parallel tick is a transition system: seed, start, micro-steps of
  the systems, finish, one counter decrement at a time, count. The pool and the tick's wait for completion are
  modelled at the granularity of their mutexes.
* **Spatial indexes** (`Grid`, `NeighbourTable`, `SimBus`). Hash grids against linear scans, in exact reals.
* **Byte stack** (`Wire`, `Framing`, `SerialTransport`). The datagram codec, the resynchronising stream
  decoder and the demultiplexing transport, joined in an end-to-end theorem. Floats are 32-bit patterns.
* **JSON** (`Json`, `JsonText`, `JsonWriter`). The scope-stack writer, whose output is the text of the value spelled
  out, undone by a reference parser written from sections 2 to 7 of RFC 8259.
* **Protocols** (`Pinning`, `Rotation`, `TaskAlloc`, `Actions`, `FaultMonitor`). First-use key pinning over
  signed beacons, identity rotation with chained certificates, role switching under a stability and a merge
  window, fault degradation gating the action validator.
* **Rings, streams and text** (`BoundedQueue`, `TraceFrame`, `TraceRing`, `ChaCha20`, `ChaCha20Vectors`, `Ids`).
  `ChaCha20Vectors` holds the vectors of sections 2.1.1 and 2.3.2 of RFC 8439.

`Bytes`, `Bits` and `Counting` hold what several modules share. Where code and contracts call the same small
function, a lemma says what it means without it: offsets of frames, squared distances, bits of rotations, the order
of names (`Wire.BeaconLayout`, `Grid.WithinMeaning`, `ChaCha20.RotationsMeaning`, `Bytes.LessMeaning`).

## Findings

* The seed loop of the parallel tick reads the live in-degree counters while workers already decrement them
  (src/core/scheduler.cpp:280-284), although the header promises that a tick dispatches every system exactly
  once (include/mith/core/scheduler.h:95). `Dispatch` models both rules: `Live`, the code, and `Initial`, a
  loop that reads `in_degree_initial_` as its comment intends. A graph is seed-safe when every system that has
  to wait descends, along hazard edges, from a root registered after it; seeding is exact under `Initial`, and
  under `Live` on a seed-safe graph. With exact seeding the tick is totally correct
  (`ParallelTick.TotalCorrectness`). Under `Live`, over built schedulers:
  * each system is dispatched at most once, and the wait ends when it should, in all interleavings if and only
    if the graph is seed-safe (`ParallelTick.LiveLoopRightIffSeedSafe`). For every other graph an interleaving
    returns with a dispatched system still to run and another never returns (`DoubleDispatch.EarlyReturn`,
    `DoubleDispatch.MissedReturn`);
  * conflicting systems, or a system and itself, never overlap, in all interleavings if and only if the graph is
    seed-safe or the pool has one worker (`ParallelTick.OverlapFreeIff`);
  * where a system released early declares a write, the result can differ for good from that of the sequential
    tick (`RunTwice.LiveLoopChangesResult`); where no system that has to wait declares a write it is always the
    same once the pool has run dry (`ReadersOnly.ReadersHarmless`);
  * `Scheduler.UnsafeExample` shows that the scheduler builds such graphs.
* Between two rebuilds the bus grid can miss a robot that is in range (`SimBus.StaleGridRun`). Who is reached is
  exactly what `SimBus.SimBus.DeliverInRange` states; `SimBus.StaleGridReaches` says how far a robot may have moved and
  still be among them.
* Noise that contains an adjacent sync pair can swallow the frame behind it
  (`Framing.SyncPairSwallowsFrame`), but need not (`Framing.HarmlessSyncPair`). Every frame behind noise survives
  if and only if behind each sync pair the decoder comes to in the noise there is a complete header with a
  length above the cap (`Framing.FramesSurviveIffClean`).
* For a negative radius the two paths of `for_each_within` differ. `ForEachWithin` states exactly what
  each visits; with a radius of zero or more both are the linear scan.
* After a rotation a robot takes its own earlier beacons for a neighbour's, since the echo test compares
  with the current id only (`Pinning.EchoOutlivesRotation`).
* How faults are batched into ticks never changes the health. It can change the mode, but only when the
  health of a degraded robot was raised to the recovery level from outside since the last tick.
  `FaultMonitor.BatchingExact` says for which batches it does.
* The scheduler's header calls Parallel mode not implemented (include/mith/core/scheduler.h:11, 43, 97); the
  code implements it, and the model follows the code.
* Comments in src/comms/beacon_system.cpp:77-79 and include/mith/comms/udp_wire.h:86 speak of an 87-byte signed
  prefix; the constant and the code use 91 bytes, and so does the model.
* The header of the binary trace sink says that strings are cut to 6 bytes; the code keeps 8, and so does the
  model.

## Model

| member | source | states |
|---|---|---|
| `Scheduler.HazardMeaning` | src/core/scheduler.cpp:75-93 | two systems have a hazard exactly when they share a component or resource that one of them writes |
| `Scheduler.HazardSymmetric` | src/core/scheduler.cpp:77-93 | a hazard does not depend on which system is asked first |
| `Scheduler.SystemScheduler.constructor` | src/core/scheduler.cpp:121-124 | a new scheduler is empty and unbuilt |
| `Scheduler.SystemScheduler.RegisterSystem` | src/core/scheduler.cpp:128-146 | refused exactly for a name already taken, and then nothing changes; otherwise appended and the build invalidated; names stay unique |
| `Scheduler.SystemScheduler.BuildGraph` | src/core/scheduler.cpp:148-178 | a second build changes nothing; otherwise the order lists all systems by increasing name (behind a common beginning, the name that ends or whose next byte is smaller comes first) and, in Parallel mode, there is an edge exactly from the earlier to the later of two systems that share a location one of them writes |
| `Scheduler.SystemScheduler.BuildHazardGraph` | src/core/scheduler.cpp:180-199 | an edge for exactly the conflicting pairs, from smaller to larger name, each once; every in-degree counts the predecessors |
| `Scheduler.SystemScheduler.AddEdgesFrom` | src/core/scheduler.cpp:187-197 | one outer round files exactly the later systems in conflict with this one, and all in-degrees still count predecessors |
| `Scheduler.RowsAreHazards` | src/core/scheduler.cpp:180-199 | the rows built position by position are the hazard relation directed by name, without repetitions |
| `Scheduler.SortByName` | src/core/scheduler.cpp:154-159 | a permutation of all indices in which, behind a common beginning, the name that ends or whose next byte is smaller comes first |
| `Bytes.LessMeaning` | src/core/scheduler.cpp:154-159 | the order of the names: some common beginning, behind which the first ends and the second does not, or has the smaller byte |
| `Bytes.PrefixFirst` | src/core/scheduler.cpp:154-159 | a name comes before every name that continues it |
| `Scheduler.BuiltGraphWellFormed` | src/core/scheduler.cpp:180-199 | the built graph is acyclic, ranked by name, and joins every conflicting pair in exactly the direction of the names |
| `HazardGraph.Graph.SeedSafeIffNoneFires` | src/core/scheduler.cpp:280-284 | no waiting system can be released before the seed loop has passed it, exactly when each descends from a root registered later |
| `HazardGraph.Graph.FiresIffRootsBelow` | src/core/scheduler.cpp:252-263 | what runs once the roots before a position are seeded: exactly the systems all of whose root ancestors lie before it |
| `HazardGraph.Graph.AllFire` | src/core/scheduler.cpp:276-284 | with every root seeded every system is eventually released |
| `Dispatch.Tick.InitInv` | src/core/scheduler.cpp:245-249 | a tick starts in the dispatch invariant |
| `Dispatch.Tick.SeedInv` | src/core/scheduler.cpp:280-284 | seeding a root, or skipping a waiting system, keeps the dispatch invariant |
| `Dispatch.Tick.DropMeaning` | src/core/scheduler.cpp:258-263 | a decrement lowers one counter by one and dispatches that dependent exactly when the counter stood at one, not when it is already at zero or below |
| `Dispatch.Tick.DropWaiting` | src/core/scheduler.cpp:258-263 | a decrement removes exactly the finished system from those its dependent waits for |
| `Dispatch.Tick.DropInv` | src/core/scheduler.cpp:258-263 | a decrement, with the dispatch it may cause, keeps the dispatch invariant |
| `Dispatch.Tick.StageInv` | src/core/scheduler.cpp:252-275 | starting, running, finishing and counting keep the dispatch invariant |
| `Dispatch.Tick.StepInv` | src/core/scheduler.cpp:232-291 | every step of the tick keeps the invariant: each counter is the number of predecessors still to decrement it, nothing is dispatched twice, a waiting system is dispatched exactly when its counter is zero |
| `Dispatch.Tick.ReachableGood` | src/core/scheduler.cpp:232-291 | in every interleaving of a tick with exact seeding the invariant holds, only descendants of seeded roots are dispatched, and micro-steps respect every hazard edge |
| `Dispatch.Tick.PredecessorsFinished` | src/core/scheduler.cpp:252-263 | when a system is dispatched all its predecessors have finished running |
| `Dispatch.Tick.NoOverlap` | src/core/scheduler.cpp:232-291 | in every state of the dispatch invariant, two systems in execution are not joined by a hazard edge |
| `ParallelTick.HazardsNeverOverlap` | src/core/scheduler.cpp:232-291 | with exact seeding, over a built scheduler and in every interleaving, two systems in execution at the same time are different and have no hazard |
| `DoubleDispatch.OverlapsItself` | src/core/scheduler.cpp:276-291 | with two or more workers, for every graph that is not seed-safe an interleaving of the live loop with two tickets of one system in execution at the same time |
| `DoubleDispatch.OneWorkerAlone` | src/core/scheduler.cpp:34-66 | a pool of one worker never has two tickets in execution |
| `DoubleDispatch.NeverItselfIff` | src/core/scheduler.cpp:276-291 | under the live loop no system is in execution twice at the same time, in all interleavings, if and only if the graph is seed-safe or the pool has one worker |
| `ParallelTick.OverlapFreeIff` | src/core/scheduler.cpp:232-291 | for a built scheduler whose systems' ticks end, under the live loop: systems in execution at the same time are different and without a hazard, in all interleavings, if and only if the built graph is seed-safe or the pool has one worker |
| `Dispatch.Tick.QuiescentDispatched` | src/core/scheduler.cpp:252-284 | when the pool has run dry, everything the seeded roots lead to has been dispatched |
| `Dispatch.Tick.StepSound` | src/core/scheduler.cpp:232-291 | whichever counter the loop tests, every step keeps that counters never exceed the predecessors still to decrement them, that a waiting system at zero has been dispatched, and that completions count finished tickets |
| `Dispatch.Tick.ReachableSound` | src/core/scheduler.cpp:232-291 | under either seed rule and every interleaving that weaker invariant holds |
| `Dispatch.Tick.AllDispatched` | src/core/scheduler.cpp:232-291 | under either seed rule, once all is seeded and the pool has run dry, every system was dispatched at least once |
| `Dispatch.Tick.Progress` | src/core/scheduler.cpp:232-291 | under either seed rule no state with completed < N is stuck |
| `Dispatch.Tick.CompletedMeansAllOnce` | src/core/scheduler.cpp:265-275 | when N completions are counted every system has been dispatched once and has finished |
| `Dispatch.Tick.TickTerminates` | src/core/scheduler.cpp:232-291 | besides the systems' own micro-steps a tick of N systems takes at most N(N+4) steps in any interleaving |
| `DoubleDispatch.SecondDispatch` | src/core/scheduler.cpp:280-284 | if a worker has already released a waiting system when the live loop reaches it, the loop dispatches it again |
| `DoubleDispatch.UnsafeGraphDispatchesTwice` | src/core/scheduler.cpp:280-284 | for every waiting system that workers can release before the live loop comes to it, an interleaving that dispatches it again when everything dispatched before has run, one after the other |
| `DoubleDispatch.DispatchedOnceIffSeedSafe` | src/core/scheduler.cpp:276-284 | the live seed loop dispatches each system at most once in all interleavings if and only if the graph is seed-safe |
| `DoubleDispatch.EarlyReturn` | src/core/scheduler.cpp:286-290 | for every graph that is not seed-safe an interleaving of the live loop in which the wait finds N completions while a dispatched ticket has not started |
| `DoubleDispatch.MissedReturn` | src/core/scheduler.cpp:272-290 | for every such graph an interleaving that counts N + 1 completions before the counter is tested, after which no test ever finds N |
| `DoubleDispatch.SafeReturn` | src/core/scheduler.cpp:286-290 | with a seed-safe graph completions never pass N, and at N every dispatched ticket is done |
| `DoubleDispatch.WaitRightIffSeedSafe` | src/core/scheduler.cpp:286-290 | the wait ends only when every dispatched ticket is done, in all interleavings, if and only if the graph is seed-safe |
| `Scheduler.UnsafeExample` | src/core/scheduler.cpp:180-199 | the scheduler does build graphs that are not seed-safe: two writers of one component, registered in name order |
| `ParallelTick.SystemsTerminate` | src/core/scheduler.cpp:217-217 | systems whose own ticks end make the machine the results on the live loop ask for |
| `ParallelTick.LiveLoopRightIffSeedSafe` | src/core/scheduler.cpp:276-290 | for a built scheduler whose systems' ticks end: dispatched at most once in all interleavings, and a right wait in all interleavings, each if and only if the built graph is seed-safe |
| `ParallelTick.LiveLoopMayNeverReturn` | src/core/scheduler.cpp:276-290 | for any other built graph an interleaving after which the ticking thread waits for ever |
| `Serialisability.StepsCommute` | src/core/scheduler.cpp:77-93 | micro-steps of confined systems without a hazard commute |
| `Serialisability.MoveToFront` | src/core/scheduler.cpp:232-291 | all micro-steps of a system move in front of those of systems it has no hazard with, without changing the result |
| `Serialisability.InterleavingIsSequential` | src/core/scheduler.cpp:232-291 | any interleaving that respects the name order of conflicting systems ends where the sequential order ends |
| `Serialisability.SequentialTickDeterministic` | src/core/scheduler.cpp:215-222 | the sequential tick has one outcome |
| `Serialisability.RunSystem` | src/core/scheduler.cpp:217-217 | a system run alone reaches a configuration in which it halts |
| `Serialisability.TickSequential` | src/core/scheduler.cpp:215-222 | the loop of the Sequential branch runs every system to its end, one after the other, in the resolved order |
| `Serialisability.SequentialTickExists` | src/core/scheduler.cpp:215-222 | systems that always halt have a sequential tick |
| `Serialisability.ProductiveSplit` | src/core/scheduler.cpp:232-291 | moving a system's micro-steps to the front wastes none: no system steps once it has halted, before or after |
| `Serialisability.InterleavingCost` | src/core/scheduler.cpp:232-291 | an interleaving that respects the name order of conflicting systems takes exactly as many micro-steps as the sequential tick |
| `ParallelTick.ReachableTracks` | src/core/scheduler.cpp:232-291 | with exact seeding, in every interleaving the state is the fold of the micro-steps, starting a system finds its private state fresh, no system steps after it halts, and finished tickets belong to halted systems |
| `ParallelTick.ParallelTickIsSequential` | src/core/scheduler.cpp:215-291 | with exact seeding a completed parallel tick, under any interleaving, any number of workers and any micro-step granularity, ends in exactly the state of the sequential name-ordered tick |
| `TicketRuns.CanComplete` | src/core/scheduler.cpp:232-291 | with exact seeding, whatever has happened so far, a tick can still come to N completions |
| `ParallelTick.EventsBounded` | src/core/scheduler.cpp:232-291 | with exact seeding no interleaving takes more micro-steps than the sequential tick |
| `ParallelTick.TotalCorrectness` | src/core/scheduler.cpp:215-291 | with exact seeding, for systems that touch only what they declare and always halt: every interleaving ends within N(N+4) scheduler steps and the micro-steps of the sequential tick, and when nothing more can happen all N systems are counted and the state is that of the sequential tick |
| `RunTwice.SequentialTally` | src/core/scheduler.cpp:215-222 | the sequential tick runs each listed system once |
| `RunTwice.LiveLoopChangesResult` | src/core/scheduler.cpp:276-291 | for every built graph in which some system released early declares a write: systems that touch only what they declare and always halt, and an interleaving of the live loop after which no continuation ever ends in the shared state of the sequential tick |
| `ReadersOnly.RootsOnceStep` | src/core/scheduler.cpp:258-284 | under either seed rule a root is dispatched once, when the loop comes to it: no decrement ever reaches it |
| `ReadersOnly.SequentialRoots` | src/core/scheduler.cpp:215-222 | where only roots write, the sequential tick leaves the shared state of the sequential tick of the roots alone |
| `ReadersOnly.ReadersHarmless` | src/core/scheduler.cpp:215-291 | where no system that has to wait declares a write: under either seed rule, in every interleaving and on every graph, once all is seeded and the pool has run dry the shared state is that of the sequential tick |
| `ThreadPool.StepInv` | src/core/scheduler.cpp:34-66 | every step of submitters, workers and destructor keeps the pool invariant |
| `ThreadPool.PoolSafety` | src/core/scheduler.cpp:34-66 | in every run tasks are handed out in order, each to one worker, none lost or run twice; queued work never waits on sleepers without a notification under way; when all workers have left exactly the submitted tasks have run |
| `ThreadPool.LeftOnEmpty` | src/core/scheduler.cpp:59-60 | in every run a worker that has left did so after stop was set, at a test that found the queue empty |
| `ThreadPool.PoolProgress` | src/core/scheduler.cpp:54-66 | as long as a task is unfinished or a shutdown incomplete, a step other than a spurious wake-up is possible |
| `WaitProtocol.WakeupNotMissed` | src/core/scheduler.cpp:272-290 | the waiter returns only after all systems were counted, and until then some step other than a spurious wake-up remains possible: it cannot sleep through the notification |
| `WaitProtocol.StepInv` | src/core/scheduler.cpp:272-290 | every interleaved step of waiter and completers keeps mutual exclusion, the count, and the promise of a coming wake-up |
| `WaitProtocol.NotStuck` | src/core/scheduler.cpp:286-290 | no state in which the waiter still waits is stuck |
| `Grid.AxisNear` | src/comms/neighbour_table.cpp:98-113 | an offset of at most r moves a cell coordinate by at most ceil(r / cell) |
| `Grid.CloseMeansNear` | src/comms/neighbour_table.cpp:98-138 | positions close on every axis lie in cells within the span of the scan |
| `Grid.WithinMeansClose` | src/comms/neighbour_table.cpp:98-138 | a point within the query sphere is within the radius on every axis |
| `Grid.CellMeaning` | src/comms/neighbour_table.cpp:9-18 | along each axis a position lies in its cell: at or above its lower edge and below its upper edge; with no cell size all lie in one cell |
| `Grid.CeilMeaning` | src/comms/neighbour_table.cpp:117-117 | the span of the scan is the least whole number of cells that covers the radius |
| `Grid.WithinMeaning` | src/comms/neighbour_table.cpp:107-110 | in range is the squared distance compared with the squared radius, the sphere itself included |
| `Grid.PushIndex` | src/comms/neighbour_table.cpp:20-26 | filing the next entry under its cell keeps the grid an index |
| `Grid.UnfileIndex` | src/comms/neighbour_table.cpp:28-74 | taking an entry out of its bucket, erasing an emptied one, removes that filing and nothing else |
| `Grid.MoveIndex` | src/comms/neighbour_table.cpp:28-74 | refiling a moved entry keeps the grid an index of the new cells |
| `NeighbourTable.NeighbourTable.constructor` | include/mith/comms/neighbour_table.h:147-153 | an empty table with cells of 5 metres |
| `NeighbourTable.NeighbourTable.Find` | src/comms/neighbour_table.cpp:174-183 | the entry of an id, or none exactly if the table has none |
| `NeighbourTable.NeighbourTable.RebuildGrid` | src/comms/neighbour_table.cpp:20-26 | every entry is filed once under its own cell and no bucket is empty; disabled, the grid is empty |
| `NeighbourTable.NeighbourTable.Upsert` | src/comms/neighbour_table.cpp:28-74 | a new id is appended, a known one replaced in place, nothing else changes; ids stay unique and the index stays exact |
| `NeighbourTable.NeighbourTable.AgeOut` | src/comms/neighbour_table.cpp:76-91 | exactly the entries last seen before the threshold go, the others keep their order, and evictions count those that went |
| `NeighbourTable.FreshElements` | src/comms/neighbour_table.cpp:76-91 | what ageing keeps: exactly the entries that are not stale, ids still unique |
| `NeighbourTable.FreshConcat` | src/comms/neighbour_table.cpp:76-91 | ageing judges each entry for itself and keeps the order |
| `NeighbourTable.NeighbourTable.Clear` | src/comms/neighbour_table.cpp:93-96 | empty table and grid, counters kept |
| `NeighbourTable.NeighbourTable.SetCellSize` | src/comms/neighbour_table.cpp:140-143 | negative sizes disable the index; all entries are refiled |
| `NeighbourTable.NeighbourTable.ForEachWithin` | src/comms/neighbour_table.cpp:98-138 | for a radius of zero or more exactly the entries whose squared distance is at most the squared radius, each once, with or without the index; for any radius, exactly the hits whose cell the scan reaches |
| `NeighbourTable.NeighbourTable.HitsAreReached` | src/comms/neighbour_table.cpp:98-113 | for a radius of zero or more the scanned cells cover every hit |
| `NeighbourTable.NegativeRadiusDiffers` | src/comms/neighbour_table.cpp:98-138 | with a negative radius a hit of the linear scan can lie outside the scanned cells |
| `SimBus.SimBus.RebuildGrid` | src/sim/sim_bus.cpp:100-111 | the grid files every participant under the cell of its present position |
| `SimBus.SimBus.CreateWorld` | src/sim/sim_bus.cpp:52-81 | a new participant is not in the grid before the next rebuild |
| `SimBus.SimBus.MoveParticipant` | src/sim/sim_bus.cpp:83-88 | moving a robot leaves the grid as it was |
| `SimBus.SimBus.DeliverInRange` | src/sim/sim_bus.cpp:118-166 | recipients get the packet exactly once, nobody else and never the sender: with the grid those whose present squared distance is within the squared range and whose filed cell is at most one off the sender's on each axis, without it all within range |
| `SimBus.SimBus.RecipientReached` | src/sim/sim_bus.cpp:118-166 | who is a recipient, in plain arithmetic on positions and cells |
| `SimBus.SimBus.DeliverBucket` | src/sim/sim_bus.cpp:136-147 | scanning a bucket delivers to exactly its participants in range |
| `SimBus.SimBus.DeliverBeacon` | src/sim/sim_bus.cpp:118-166 | exactly those reached have the beacon appended to their beacon inbox and nothing else of anybody changes; an unknown sender reaches nobody |
| `SimBus.SimBus.DeliverMessage` | src/sim/sim_bus.cpp:173-231 | exactly those reached have the message appended to their message inbox and nothing else changes: for a broadcast those in range, for a directed message the first other participant of that identity, in range or not |
| `SimBus.SimBus.DrainBeacons` | src/sim/sim_bus.cpp:233-238 | the inbox is returned and emptied; others are untouched |
| `SimBus.SimBus.DrainMessages` | src/sim/sim_bus.cpp:240-245 | the inbox is returned and emptied; others are untouched |
| `SimBus.BeaconArrives` | src/sim/sim_bus.cpp:118-238 | a beacon delivered and then drained: the old inbox followed by the beacon if the participant is reached, the inbox then empty |
| `SimBus.MessageArrives` | src/sim/sim_bus.cpp:173-245 | a message likewise, broadcast or directed |
| `SimBus.StaleGridReaches` | src/sim/sim_bus.cpp:118-166 | a participant of the last rebuild that moved at most d per axis since is reached when within range - d of the sender |
| `SimBus.FreshGridIsLinear` | src/sim/sim_bus.cpp:118-166 | right after a rebuild the grid reaches exactly whom the linear scan reaches |
| `SimBus.MissedOnlyIfFar` | src/sim/sim_bus.cpp:118-166 | whoever the grid misses joined late or was filed more than the range away on some axis |
| `SimBus.StaleGridRun` | src/sim/sim_bus.cpp:90-166 | a bus, two worlds, a rebuild and a move after which a beacon does not reach a robot in live range |
| `Wire.U16RoundTrip` | src/comms/udp_wire.cpp:11-29 | 16-bit fields: putting and getting are inverse both ways |
| `Wire.U32RoundTrip` | src/comms/udp_wire.cpp:15-34 | 32-bit fields: putting and getting are inverse both ways |
| `Wire.HidRoundTrip` | src/comms/udp_wire.cpp:43-53 | hierarchical ids: putting and getting are inverse both ways |
| `Wire.SplitJoin` | src/comms/udp_wire.cpp:59-115 | fields written one behind the other are found again at their offsets |
| `Wire.JoinSplit` | src/comms/udp_wire.cpp:117-159 | a buffer cut into fields and joined is the buffer |
| `Wire.SerialiseBeaconSignedPayload` | src/comms/udp_wire.cpp:59-79 | 91 bytes, all fields up to the public key, written where asked and nowhere else; nothing if they do not fit |
| `Wire.BeaconFrameParts` | src/comms/udp_wire.cpp:81-97 | a beacon frame is header, the 91 signed bytes, signature |
| `Wire.BeaconLayout` | src/comms/udp_wire.cpp:59-97 | every field of a beacon frame at its offset, numbers with the least significant byte first: tag 1, length 155, id at 5, position at 23, velocity at 35, health at 47, role at 48, state at 52, tick at 56, time at 60, key at 64, signature at 96 |
| `Wire.MessageLayout` | src/comms/udp_wire.cpp:99-115 | every field of a message frame at its offset: tag 2, length 176, sender at 5, recipient at 23, kind at 41, number at 45, time at 49, payload at 53 |
| `Wire.SignedPart` | src/comms/udp_wire.cpp:81-97 | what is signed is the frame from the id at 5 to the end of the key at 96 |
| `Wire.EncodeBeacon` | src/comms/udp_wire.cpp:81-97 | the 160 bytes of the frame whose layout BeaconLayout gives, or zero and an untouched buffer |
| `Wire.EncodeMessage` | src/comms/udp_wire.cpp:99-115 | the 181 bytes of the frame whose layout MessageLayout gives, or zero and an untouched buffer |
| `Wire.WriteFields` | src/comms/udp_wire.cpp:59-115 | the fields in order at the given place, the rest of the buffer untouched |
| `Wire.BeaconRoundTrip` | src/comms/udp_wire.cpp:81-141 | decoding undoes encoding for every state vector, whatever bytes follow |
| `Wire.BeaconDecodeExact` | src/comms/udp_wire.cpp:117-141 | only frames decode: what decodes starts with the frame of its result |
| `Wire.MessageRoundTrip` | src/comms/udp_wire.cpp:99-159 | decoding undoes encoding for every message, whatever bytes follow |
| `Wire.MessageDecodeExact` | src/comms/udp_wire.cpp:143-159 | only frames decode: what decodes starts with the frame of its result |
| `Framing.Encode` | src/comms/serial_framing.cpp:7-19 | header and payload, or zero and an untouched buffer when too long or not fitting |
| `Framing.FramedLayout` | src/comms/serial_framing.cpp:7-19 | 0xA5, 0x5A, the length with its least significant byte first, the payload |
| `Framing.FeedAppend` | src/comms/serial_framing.cpp:30-82 | feeding a ++ b is feeding a, then b: state, frames and drops |
| `Framing.BytesConserved` | src/comms/serial_framing.cpp:30-82 | every consumed byte is dropped, part of an emitted frame with its header, or pending in the state |
| `Framing.FeedFramed` | src/comms/serial_framing.cpp:30-82 | a frame, even behind a stray sync byte, is emitted unchanged and leaves the decoder synchronised |
| `Framing.FeedNoise` | src/comms/serial_framing.cpp:30-82 | noise without an adjacent sync pair is clean: it emits nothing and leaves the decoder looking for a frame, waiting for the second sync byte exactly if it ends in the first |
| `Framing.CleanDropped` | src/comms/serial_framing.cpp:30-82 | clean noise is dropped, all but a sync byte it may end in |
| `Framing.CleanIffHarmless` | src/comms/serial_framing.cpp:30-82 | noise is clean exactly when, read from the left, every sync pair reached is followed by a complete header with a length above the cap |
| `Framing.FramesSurviveIffClean` | src/comms/serial_framing.cpp:30-82 | every frame behind noise comes out alone and unchanged, with exactly the noise dropped, if and only if the noise is clean, that is, harmless in its bytes |
| `Framing.HarmlessSyncPair` | src/comms/serial_framing.cpp:30-82 | noise with an adjacent sync pair that is clean |
| `Framing.StreamDecodes` | src/comms/serial_framing.cpp:30-82 | frames separated by any clean noise all decode unchanged in order, and exactly the noise is dropped |
| `Framing.SyncPairSwallowsFrame` | src/comms/serial_framing.cpp:30-82 | a sync pair in the noise can swallow the frame behind it |
| `Framing.Parser.constructor` | src/comms/serial_framing.cpp:21-22 | a decoder waiting for sync |
| `Framing.Parser.Reset` | src/comms/serial_framing.cpp:24-28 | back to waiting for sync, counters kept |
| `Framing.Parser.Feed` | src/comms/serial_framing.cpp:30-82 | the loop over the bytes emits and counts what the stream function says, for any buffer size |
| `Framing.Parser.Consume` | src/comms/serial_framing.cpp:32-80 | one byte moves the five-phase machine as the stream function says |
| `SerialTransport.SerialTransport.DrainFd` | src/comms/serial_transport.cpp:144-172 | whatever the chunks of successive reads, the inboxes get the decoded beacons and messages in order and everything else counts as a parse error |
| `SerialTransport.SerialTransport.RouteFrames` | src/comms/serial_transport.cpp:156-170 | each frame goes to the inbox of its tag if it decodes |
| `SerialTransport.RouteMeaning` | src/comms/serial_transport.cpp:156-170 | a frame that begins with the bytes of a beacon is that beacon, one that begins with those of a message that message, any other a parse error |
| `SerialTransport.RouteCounts` | src/comms/serial_transport.cpp:156-170 | every frame ends up in exactly one inbox or the error count |
| `SerialTransport.SerialTransport.PollBeacons` | src/comms/serial_transport.cpp:174-178 | drains, then returns and empties the beacon inbox, leaving the messages |
| `SerialTransport.SerialTransport.PollMessages` | src/comms/serial_transport.cpp:180-184 | drains, then returns and empties the message inbox, leaving the beacons |
| `SerialTransport.SerialTransport.WriteFramed` | src/comms/serial_transport.cpp:106-128 | against any write results so far: refused exactly when longer than a datagram frame; otherwise out is the prefix of the frame that the writes before the first failure took, done and counted exactly when that is all of it, broken and unhealthy exactly when a write failed before, else still writing |
| `SerialTransport.SerialTransport.SendBeacon` | src/comms/serial_transport.cpp:130-135 | never refused: out is the prefix of the 164 framed bytes the writes took; done, with 164 bytes counted, exactly when that is all of them |
| `SerialTransport.SerialTransport.SendMessage` | src/comms/serial_transport.cpp:137-142 | never refused: out is the prefix of the 185 framed bytes the writes took; done, with 185 bytes counted, exactly when that is all of them |
| `SerialTransport.PollsAccumulate` | src/comms/serial_transport.cpp:144-184 | polls in any order and with any chunks lose, repeat and reorder nothing on either channel |
| `SerialTransport.EndToEnd` | src/comms/serial_transport.cpp:144-184 | what any interleaving of polls returned or still holds is exactly the beacons and the messages sent, each in order, without a parse error |
| `SerialTransport.EndToEndPartial` | src/comms/serial_transport.cpp:144-184 | before everything has arrived the polls hold a prefix of what was sent |
| `Json.EscapeParses` | src/core/json_writer.cpp:115-140 | each escaped byte is read back, whichever escape it needed |
| `Json.StringParses` | src/core/json_writer.cpp:115-140 | every byte string between quotes is read back, ending exactly at its quote |
| `Json.QuotedUnique` | src/core/json_writer.cpp:115-140 | string escaping is injective and self-delimiting |
| `Json.NumberParses` | src/core/json_writer.cpp:53-67 | every decimal integer is read back |
| `Json.ParsePrint` | src/core/json_writer.cpp:9-40 | the text of any value tree parses to that tree and leaves what follows |
| `Json.PrintInjective` | src/core/json_writer.cpp:9-40 | different values have different texts |
| `Json.PrintConcat` | src/core/json_writer.cpp:9-40 | printing in front of a text is appending it |
| `JsonText.PrintIsText` | src/core/json_writer.cpp:9-140 | the printed text is the JSON text spelled out character by character: literals, marks, commas between, short escapes, \u00 and two digits |
| `JsonWriter.JsonWriter.HandleArraySeparator` | src/core/json_writer.cpp:108-113 | a comma exactly behind an earlier item of an array |
| `JsonWriter.JsonWriter.BeginObject` | src/core/json_writer.cpp:9-13 | separator and brace; the enclosing scope is marked and a fresh object scope opened |
| `JsonWriter.JsonWriter.EndObject` | src/core/json_writer.cpp:15-18 | brace; the innermost scope, if any, is closed |
| `JsonWriter.JsonWriter.BeginArray` | src/core/json_writer.cpp:20-24 | separator and bracket; the enclosing scope is marked and a fresh array scope opened |
| `JsonWriter.JsonWriter.EndArray` | src/core/json_writer.cpp:26-29 | bracket; the innermost scope, if any, is closed |
| `JsonWriter.JsonWriter.Key` | src/core/json_writer.cpp:31-40 | comma for all but the first member, quoted key, colon |
| `JsonWriter.JsonWriter.WriteI64` | src/core/json_writer.cpp:53-59 | separator and the decimal text |
| `JsonWriter.JsonWriter.WriteU64` | src/core/json_writer.cpp:61-67 | separator and the decimal text |
| `JsonWriter.JsonWriter.WriteString` | src/core/json_writer.cpp:81-84 | separator and the quoted text |
| `JsonWriter.JsonWriter.WriteQuotedString` | src/core/json_writer.cpp:115-140 | the loop appends the quoted, escaped text |
| `JsonWriter.JsonWriter.Take` | src/core/json_writer.cpp:92-97 | the buffer is handed out and the writer reset |
| `JsonWriter.JsonWriter.Drive` | src/core/json_writer.cpp:9-84 | driving the writer over any value tree appends its text, with the separator its place needs, and restores the scope stack |
| `JsonWriter.JsonWriter.DriveItems` | src/core/json_writer.cpp:20-29 | the items of an array come out separated, in the same scope |
| `JsonWriter.JsonWriter.DriveMembers` | src/core/json_writer.cpp:31-40 | the members of an object come out separated, in the same scope |
| `JsonWriter.WriteDocument` | src/core/json_writer.cpp:92-106 | what a fresh writer wrote for any value is the text of that value, spelled out, and parses back to it; the writer reports itself well formed |
| `ChaCha20.StoreLoad` | src/identity/chacha20.cpp:20-32 | loading a stored word gives it back |
| `ChaCha20.LoadStore` | src/identity/chacha20.cpp:20-32 | storing a loaded word gives its bytes back |
| `ChaCha20.QuarterInverts` | src/identity/chacha20.cpp:35-41 | a quarter round is undone from either side |
| `ChaCha20.RotationsMeaning` | src/identity/chacha20.cpp:35-41 | the rotations by 16, 12, 8 and 7 take bit i to bit i plus the distance, modulo 32 |
| `ChaCha20Vectors.QuarterVector` | src/identity/chacha20.cpp:35-41 | the quarter round gives the test vector of section 2.1.1 of RFC 8439 |
| `ChaCha20.MixInverts` | src/identity/chacha20.cpp:62-73 | any sequence of quarter rounds on four distinct words is undone from either side |
| `ChaCha20.MixDisjoint` | src/identity/chacha20.cpp:62-73 | quarter rounds on disjoint words act on the state as it was, in whatever order they stand |
| `ChaCha20.DoubleRoundMeaning` | src/identity/chacha20.cpp:62-73 | the eight quarter rounds are the four columns of the 4 by 4 state at once, then its four wrapped diagonals at once |
| `ChaCha20Vectors.DoubleRoundColumns` | src/identity/chacha20.cpp:62-73 | on the 4 by 4 state, word by word: a quarter round down each column, then one along each diagonal |
| `ChaCha20.RoundsUndone` | src/identity/chacha20.cpp:60-73 | the 20 rounds lose nothing: every state is recovered from their result |
| `ChaCha20.RoundsReached` | src/identity/chacha20.cpp:60-73 | every state is the result of the 20 rounds on some state |
| `ChaCha20.InitialStateKeepsInputs` | src/identity/chacha20.cpp:49-55 | every byte of key and nonce and the counter can be read back from the initial state |
| `ChaCha20.RoundsSeparate` | src/identity/chacha20.cpp:45-73 | different keys, counters or nonces never meet in one permuted state |
| `ChaCha20.BlockInverts` | src/identity/chacha20.cpp:75-78 | subtracting the initial words from a block gives the permuted state |
| `ChaCha20.BlockStores` | src/identity/chacha20.cpp:75-78 | word i of a block, loaded, is word i of the permuted state plus word i of the initial one |
| `ChaCha20Vectors.BlockVector` | src/identity/chacha20.cpp:45-79 | the block function gives the test vector of section 2.3.2 of RFC 8439 |
| `ChaCha20.QuarterRound` | src/identity/chacha20.cpp:35-41 | in place on four words of the state, the others untouched: the quarter round that RotationsMeaning and QuarterVector fix |
| `ChaCha20.DoubleRoundInPlace` | src/identity/chacha20.cpp:62-73 | the eight quarter rounds of the loop body are one double round |
| `ChaCha20.SetUp` | src/identity/chacha20.cpp:49-55 | the initial state: constants, key, counter, nonce |
| `ChaCha20.AddAndStore` | src/identity/chacha20.cpp:75-78 | each word plus its initial value, least significant byte first |
| `ChaCha20.ChaCha20Block` | src/identity/chacha20.cpp:45-79 | the loops on arrays compute the block of key, counter and nonce, which BlockVector fixes |
| `ChaCha20.StreamPeriod` | src/identity/chacha20.cpp:103-116 | the stream repeats after 2^32 blocks |
| `ChaCha20.StreamMeaning` | src/identity/chacha20.cpp:103-116 | byte k of the stream is byte k mod 64 of the block whose counter is k div 64, modulo 2^32 |
| `ChaCha20.StreamSplits` | src/identity/chacha20.cpp:103-116 | consecutive stretches of the stream join to one stretch |
| `ChaCha20.ChaCha20Csprng.constructor` | src/identity/chacha20.cpp:90-101 | nothing drawn yet, counter zero, first fill refills |
| `ChaCha20.ChaCha20Csprng.Refill` | src/identity/chacha20.cpp:105-109 | the next block is cached; the 32-bit counter wraps |
| `ChaCha20.ChaCha20Csprng.Fill` | src/identity/chacha20.cpp:103-116 | the output continues the stream where the last call stopped: byte k is byte k mod 64 of block k div 64 |
| `ChaCha20.ChaCha20Csprng.FillEach` | src/identity/chacha20.cpp:103-116 | however requests are cut, the outputs joined are the stream |
| `Pinning.PeerKeyRegistry.TryPin` | src/comms/peer_key_registry.cpp:7-17 | the first key stays; accepted exactly if the offered key is the one now pinned |
| `Pinning.PeerKeyRegistry.Find` | src/comms/peer_key_registry.cpp:19-22 | tells in advance which keys try_pin accepts for an id: exactly the one returned, or any if none is |
| `Pinning.PeerKeyRegistry.Clear` | src/comms/peer_key_registry.cpp:28-30 | no id has a pin any more |
| `Pinning.KeyPresent` | src/comms/beacon_system.cpp:114-117 | whether some byte of a key is not zero |
| `Pinning.NoKeyMeaning` | src/comms/beacon_system.cpp:114-117 | a beacon is unsigned exactly if all 32 bytes of its key are zero |
| `Pinning.ReceiveMeaning` | src/comms/beacon_system.cpp:108-137 | what becomes of a beacon, branch by branch: its own id skipped, no key taken, verified over frame bytes 5 to 96 and not pinned otherwise taken and pinned, else counted as rejected |
| `Pinning.ReceiveInOrder` | src/comms/beacon_system.cpp:104-139 | beacons are judged one by one in the order polled |
| `Pinning.SignedMeaning` | src/comms/beacon_system.cpp:80-95 | a sent beacon is the body with the sender's id and key, signed over frame bytes 5 to 96 |
| `Pinning.BeaconReceiver.DrainOne` | src/comms/beacon_system.cpp:108-137 | echo skipped, unsigned accepted, unverified or mismatching counted as rejected and not handed on, others pinned and handed on |
| `Pinning.BeaconReceiver.Drain` | src/comms/beacon_system.cpp:104-139 | every polled beacon is judged in order |
| `Pinning.PinIsFirstKey` | src/comms/beacon_system.cpp:108-137 | in every run the pin of an id is the key of its first verified sighting since the pins were last cleared, and there is none without one |
| `Pinning.PinsNeverChange` | src/comms/peer_key_registry.cpp:7-30 | a pin never changes in any run without a clear |
| `Pinning.RejectedExactly` | src/comms/beacon_system.cpp:111-134 | a signed beacon of another id is rejected exactly if it does not verify or the id first vouched for another key |
| `Pinning.SignedVerifies` | src/comms/beacon_system.cpp:85-95 | what a robot sends verifies at every receiver |
| `Pinning.RunHonest` | src/comms/beacon_system.cpp:80-138 | in a swarm of honest robots with fresh ids every id keeps one key, every beacon in flight carries it, and all pins agree |
| `Pinning.NoHonestRejection` | src/comms/beacon_system.cpp:104-139 | no honest signed beacon is ever rejected, across any rotations, clears, delays, reorderings and repetitions, and each delivery is handed on unless it bears the receiver's own id |
| `Pinning.EchoOutlivesRotation` | src/comms/beacon_system.cpp:109-109 | a robot's own beacon from before its rotation is handed on as a neighbour's |
| `Rotation.CertPayloadUnique` | src/identity/identity_rotation.cpp:7-29 | the signed payload determines both ids and the new key |
| `Rotation.CertLayout` | src/identity/identity_rotation.cpp:7-29 | old id at 0, new id at 18, new key at 36, the swarm numbers with the least significant byte first |
| `Rotation.ChainMeaning` | include/mith/identity/identity_rotation.h:54-69 | certificates lead from a known identity somewhere exactly if each names the id before it and verifies under the key before it, and then to the last id and key |
| `Rotation.SerialiseCertPayload` | src/identity/identity_rotation.cpp:7-29 | 68 bytes: both ids and the new key |
| `Rotation.World.constructor` | src/core/world.cpp:77-100 | the first identity with its key, nothing rotated |
| `Rotation.World.RotateIdentity` | src/core/world.cpp:212-247 | a new id and key with a certificate that names the old id, the new id and the new key and verifies under the key it replaces; followed from the first identity, all certificates so far lead to the current one |
| `Rotation.World.BeginTick` | src/core/world.cpp:106-121 | the clock advances and the merge window decays to zero |
| `Rotation.World.EndTick` | src/core/world.cpp:125-131 | a periodic rotation happens exactly when the last rotation is at least a period ago, so that none is overdue afterwards |
| `Rotation.World.SetMergeWindow` | include/mith/core/world.h:222-222 | the window is replaced, not extended |
| `Rotation.World.PeriodicBound` | src/core/world.cpp:125-131 | the number of periodic rotations is at most the elapsed time over the period |
| `TaskAlloc.TaskAllocSystem.CountRoles` | src/systems/task_alloc_system.cpp:46-58 | self and neighbours counted per tracked role |
| `TaskAlloc.CountMeaning` | src/systems/task_alloc_system.cpp:46-56 | the count of a role is the number of robots that hold it |
| `TaskAlloc.WantedMeaning` | src/systems/task_alloc_system.cpp:60-78 | a role is wanted exactly if it is managed, short of its share and its stimulus above its threshold, and its margin is the difference |
| `TaskAlloc.TaskAllocSystem.Choose` | src/systems/task_alloc_system.cpp:60-85 | none exactly if no role is wanted; otherwise a wanted role with a margin above those of all lower-numbered ones and not below those of the others; no other choice meets that |
| `TaskAlloc.TaskAllocSystem.Tick` | src/systems/task_alloc_system.cpp:37-99 | a switch, to that role, exactly if it differs from the present one and the window in force has passed; then the clock restarts |
| `TaskAlloc.PartitionMergeSystem.Tick` | src/systems/partition_merge_system.cpp:27-48 | the merge window opens and a heal is counted exactly when the table grew by the threshold since the last tick |
| `TaskAlloc.SequentialTick` | src/core/world.cpp:106-123 | decay, heal detection and allocation, in name order, make the step the runs below are made of |
| `TaskAlloc.OpenTicksStep` | src/core/world.cpp:116-121 | the number of further ticks a merge window stays open falls by one a tick |
| `TaskAlloc.StepBounded` | src/systems/task_alloc_system.cpp:86-99 | each switch outside a merge window costs a stability window of time, each one inside fits in the ticks heals opened |
| `TaskAlloc.SwitchBound` | src/systems/task_alloc_system.cpp:37-99 | over any run of total time T: switches <= T/W + heals * ceil(M/dt) |
| `Bits.AndBit` | include/mith/core/builtin_components.h:128-132 | masking with one bit tests that bit |
| `Actions.MaskMeaning` | include/mith/core/builtin_components.h:128-132 | built-ins by their bit, the reserved range never, user actions by the flag |
| `Actions.DegradedAllows` | src/systems/fault_monitor_system.cpp:52-60 | the degraded mask allows exactly IDLE and REGROUP |
| `Actions.DefaultAllows` | include/mith/core/builtin_components.h:115-132 | the default mask forbids only the reserved range |
| `Actions.ActionQueue.constructor` | include/mith/core/builtin_components.h:144-160 | an empty queue of eight, nothing validated or rejected |
| `Actions.ActionQueue.Validate` | src/behaviour/action_validator_system.cpp:50-89 | validated is the subsequence of allowed actions in queue order, the queue is empty, validated plus rejected equals what was queued, and the capacity guard never drops an allowed action |
| `Actions.Filter` | src/behaviour/action_validator_system.cpp:65-87 | contains exactly the allowed actions |
| `Actions.FilterConcat` | src/behaviour/action_validator_system.cpp:65-87 | actions are judged one by one and keep their order |
| `FaultMonitor.FaultMonitorSystem.Tick` | src/systems/fault_monitor_system.cpp:29-69 | health less the loss of the new faults, saturating at zero; below the threshold a normal robot degrades, saving its mask for that of IDLE and REGROUP; at threshold plus hysteresis a degraded one gets the saved mask back; otherwise nothing changes |
| `FaultMonitor.MaskFollowsMode` | src/systems/fault_monitor_system.cpp:50-68 | in every run mask and state are the baseline when normal, IDLE and REGROUP only and degraded when degraded |
| `FaultMonitor.RecoveryNeedsHealth` | src/systems/fault_monitor_system.cpp:61-68 | in every run, between a degraded moment and a normal one lies a tick that recovered at a health of threshold plus hysteresis or more |
| `FaultMonitor.NoSelfRecovery` | src/systems/fault_monitor_system.cpp:48-68 | a degraded robot below the recovery level stays degraded through any ticks |
| `FaultMonitor.HealthIgnoresBatching` | src/systems/fault_monitor_system.cpp:38-48 | health loss does not depend on how faults are batched into ticks |
| `FaultMonitor.OutcomeIgnoresBatching` | src/systems/fault_monitor_system.cpp:29-69 | unless a degraded robot is fit to recover beforehand, neither do mask, state and mode: any batches end where one tick with all the faults ends |
| `FaultMonitor.BatchingExact` | src/systems/fault_monitor_system.cpp:29-69 | any batches end where one tick with all the faults ends, if and only if the robot is not one that is degraded, fit to recover after the first batch, and after all of them below the recovery level but not below the threshold |
| `FaultMonitor.ValidatorRunsFirst` | src/behaviour/action_validator_system.cpp:36-48 | name order puts the validator before the monitor |
| `FaultMonitor.TickIsGated` | src/behaviour/action_validator_system.cpp:50-89 | in every run a tick that begins degraded validates exactly the IDLE and REGROUP actions queued, one that begins normal the baseline's, even if it degrades |
| `FaultMonitor.RobotTick` | src/systems/fault_monitor_system.cpp:29-69 | validator and monitor in name order make that step |
| `FaultMonitor.PushAction` | include/mith/core/bounded_queue.h:74-92 | queueing an action is the Push of the runs: appended below eight, refused otherwise |
| `BoundedQueue.BoundedQueue.constructor` | include/mith/core/bounded_queue.h:64-69 | an empty ring |
| `BoundedQueue.BoundedQueue.Push` | include/mith/core/bounded_queue.h:74-92 | below capacity appended; when full the oldest is evicted under DropOldest, the new one refused otherwise, and one drop counted |
| `BoundedQueue.BoundedQueue.Pop` | include/mith/core/bounded_queue.h:95-101 | the oldest item, or none exactly if empty |
| `BoundedQueue.BoundedQueue.Conserved` | include/mith/core/bounded_queue.h:74-101 | attempted pushes = pops + size + dropped, under every policy |
| `BoundedQueue.RingPush` | include/mith/core/bounded_queue.h:88-92 | writing at the tail appends to the sequence the ring holds |
| `BoundedQueue.RingPop` | include/mith/core/bounded_queue.h:95-101 | advancing the head drops the first of the sequence the ring holds |
| `BoundedQueue.Overwrite` | include/mith/core/bounded_queue.h:80-84 | in a full ring overwriting at the tail evicts the oldest |
| `TraceRing.FloorPow2` | src/core/binary_trace_sink.cpp:11-16 | the largest power of two not above a 64-bit size, despite the shift that can overflow |
| `Bits.MaskIsRemainder` | src/core/binary_trace_sink.cpp:30-34 | masking with a power of two less one is the remainder |
| `TraceFrame.BodyFits` | src/core/binary_trace_sink.cpp:64-72 | header, name and fields always fit in 256 bytes |
| `TraceFrame.LittleEndianBytes` | src/core/binary_trace_sink.cpp:18-26 | byte i of a number is the number divided by 256^i, modulo 256 |
| `TraceFrame.FieldLayout` | src/core/binary_trace_sink.cpp:80-115 | kind, kept length of the key, six bytes of key padded with zeros, the value from byte 8 on |
| `TraceFrame.FrameLayout` | src/core/binary_trace_sink.cpp:55-79 | number, level, the count of fields there was room for, length of the name and name at their offsets |
| `TraceFrame.FieldsLayout` | src/core/binary_trace_sink.cpp:80-116 | behind the name the kept fields in order, sixteen bytes each, then zeros |
| `TraceFrame.FieldDecodes` | src/core/binary_trace_sink.cpp:81-115 | a decoder recovers the first six bytes of the key, every number and flag, and eight bytes of a string |
| `TraceFrame.FrameDecodes` | src/core/binary_trace_sink.cpp:55-116 | a decoder recovers number, level, the first 64 bytes of the name and every field there was room for |
| `TraceRing.SlotsAdvance` | src/core/binary_trace_sink.cpp:46-54 | writing at head keeps every other held frame in its slot and puts the new one last |
| `TraceRing.WindowAdvances` | src/core/binary_trace_sink.cpp:46-54 | overwriting one slot moves the window on by one frame |
| `TraceRing.BinaryTraceSink.constructor` | src/core/binary_trace_sink.cpp:30-34 | an empty ring with the capacity rounded down to a power of two |
| `TraceRing.BinaryTraceSink.Put` | src/core/binary_trace_sink.cpp:18-26 | bytes behind what is written of a frame; other frames untouched |
| `TraceRing.BinaryTraceSink.PutField` | src/core/binary_trace_sink.cpp:80-115 | sixteen bytes of a field |
| `TraceRing.BinaryTraceSink.WriteFrame` | src/core/binary_trace_sink.cpp:55-116 | the whole frame in its slot; other frames untouched |
| `TraceRing.BinaryTraceSink.Emit` | src/core/binary_trace_sink.cpp:36-116 | Off is ignored; otherwise the frame joins the window of the newest, a full ring loses its oldest and counts a drop, and every emit stays accounted for as held, dropped, popped or cleared |
| `TraceRing.BinaryTraceSink.PeekOldest` | src/core/binary_trace_sink.cpp:122-127 | the oldest held frame, numbered wall_seq - size |
| `TraceRing.BinaryTraceSink.PopOldest` | src/core/binary_trace_sink.cpp:129-133 | the oldest frame leaves the window |
| `TraceRing.BinaryTraceSink.Clear` | src/core/binary_trace_sink.cpp:135-138 | nothing is held, counters run on |
| `Ids.HexMeaning` | src/identity/uuid.cpp:39-52 | a character is a digit exactly if its lower case is the one printed for its value |
| `Ids.ToString` | src/identity/uuid.cpp:80-107 | the canonical 36 characters |
| `Ids.FromString` | src/identity/uuid.cpp:109-130 | a UUID exactly for well-formed text |
| `Ids.UuidTextMeaning` | src/identity/uuid.cpp:80-107 | byte i as two digits of 0123456789abcdef, high one first, at its place in the 8-4-4-4-12 form, hyphens at 8, 13, 18 and 23 |
| `Ids.UuidParsesIff` | src/identity/uuid.cpp:80-130 | a string parses as u exactly if its lower case is what u prints as |
| `Ids.UuidRoundTrip` | src/identity/uuid.cpp:80-130 | parsing inverts printing |
| `Ids.Equal` | include/mith/identity/uuid.h:62-67 | equality of all bytes |
| `Ids.LessThan` | include/mith/identity/uuid.h:71-78 | the lexicographic order of the bytes |
| `Ids.IsNil` | include/mith/identity/uuid.h:46-51 | whether every byte is zero |
| `Ids.UuidOrderIsTextOrder` | include/mith/identity/uuid.h:71-78 | UUIDs are ordered as their texts |
| `Ids.HidToString` | src/identity/hierarchical_id.cpp:29-39 | the canonical 41 characters |
| `Ids.HidFromString` | src/identity/hierarchical_id.cpp:41-56 | an id exactly for well-formed text |
| `Ids.HidTextMeaning` | src/identity/hierarchical_id.cpp:29-39 | the four digits of the swarm number, highest first, a colon, the text of the unit |
| `Ids.HidParsesIff` | src/identity/hierarchical_id.cpp:29-56 | a string parses as h exactly if its lower case is what h prints as |
| `Ids.HidRoundTrip` | src/identity/hierarchical_id.cpp:29-56 | parsing inverts printing |
| `Ids.HidOrderIsTextOrder` | include/mith/identity/hierarchical_id.h:57-60 | ids are ordered as their texts |
| `Ids.HidStrictTotalOrder` | include/mith/identity/hierarchical_id.h:51-60 | the order on ids is a strict total order |

## Left out

* Sockets, termios, file descriptors and errno: reads are arbitrary chunks, writes arbitrary results, and a read error, which only clears `healthy`, is not among them.
* The UDP transport, wall-clock timing, sleeping, and per-system timing records.
* TweetNaCl and `std::random_device`: signing and verifying are functions with one hypothesis, that what a key signs verifies under its public half; fresh ids, keys and seeds are parameters.
* The build without signatures, where rotation issues no certificate and beacons are not checked.
* IEEE rounding (exact reals instead), 32-bit overflow of cell coordinates, wrap-around of 32- and 64-bit counters, and hash functions (finite maps instead). The ChaCha20 words and block counter, the sequence number in a trace frame and the codec's field widths keep their widths.
- Dispatch.Tick.Apply: one step covers a counter's `fetch_sub` and the submission that follows it; the pool's internals are in `ThreadPool`, with tasks as numbers.
- Dispatch.Tick.Progress: some step is always possible, but that every system's own tick ends is a hypothesis where it is needed (`Terminating`, `AlwaysHalts`).
- DoubleDispatch.EarlyReturn: like the other results that construct runs of the live loop, for systems whose own ticks end.
* The lifetime of the tick's mutex and condition variable after the waiter has returned.
- Dispatch.Tick.Apply: two tickets of one system share one private state, which `Start` makes fresh; in the source each call has its own. With exact seeding no system has two.
- RunTwice.LiveLoopChangesResult: what becomes of the result when every system released early only reads, but some other system that has to wait writes, is left open.
- ParallelTick.ParallelTickIsSequential: that a system touches only what it declares is a hypothesis; some shipped systems write fields of the world that they do not declare.
- Scheduler.SortByName: `std::sort` is an insertion sort here; only its contract matters.
- SimBus.SimBus.DeliverInRange: beacons and broadcasts share one delivery loop here, where the source has two alike; every participant is wired to a position.
- NeighbourTable.NeighbourTable.Upsert: an entry's copied fields other than id and position are one opaque value.
- Wire.WriteFields: the encoders' straight-line field writes are a loop over the list of fields.
- Json.ParseValue: the reference parser reads integers only, and no surrogate escapes; the writer never produces any of these. `write_f64` is left out.
- Rotation.World.EndTick: the scheduler's tick between the two halves of `World::tick` is not part of this class.
- Pinning.BeaconReceiver.Drain: the neighbour table is the list of beacons handed to it; the message half of the tick and the beacon period are left out.
- TaskAlloc.SwitchBound: for the sequential scheduler, and for worlds in which only the partition monitor opens the merge window.
- FaultMonitor.MaskFollowsMode: for runs in which only the monitor writes the mask and the state.
- Actions.ActionQueue.Validate: the trace event of a rejection is left out.
* DiscoverySystem, which captures its id once while its key follows rotation, so that the id and key pairing pinning relies on does not hold with it.
* ClockSyncSystem, FlockingSystem, KinematicsSystem, `dump_state`, JsonTraceSink, the entity registry's templates, demos, benchmarks and visualisers.
