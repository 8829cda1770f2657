# DESESC: verified models of the simulator's core mechanisms

DESESC is a cycle-level simulator of out-of-order cores with caches, a coherence protocol and an
interconnection network. This project models its self-contained mechanisms in Dafny, in the form
the C++ has (classes whose methods change fields and arrays in place, loops with invariants), and
proves what each of them is for. Nothing here runs the simulator.

- **Network** (`ShortestPaths`, `Routing`, `RoutingTables`, `Delivery`, `Topologies`, `Network`,
  `BiRing`, `Hypercube`). `make` closes the matrix row by row in place; while a row is computed the rows below it already
  hold closed distances. Every row ends with the true distances and with exactly the first hops of
  all shortest paths. Whatever wire a router's rotation picks, messages arrive on a shortest path.
  Rings, fully connected networks and hypercubes are built and solved in closed form.
- **Branch history** (`Bits`, `FoldedHistory`, `HistoryPush`). The folded registers of the TAGE
  predictor, updated one direction at a time, always equal the direct XOR fold of the last OLENGTH
  directions of the circular buffer.
- **Events and ports** (`Callbacks`, `Buckets`, `EventQueue`, `EventEngine`, `PipePorts`,
  `PriorityPorts`). The calendar queue with its far-event heap delivers every event once, in its
  cycle, in priority order; ports book the earliest cycle or grant the most urgent requests.
- **Back end** (`Dependences`, `DepWindow`, `FastQueue`, `RobFlush`, `RobProperties`,
  `RobAccounting`, `Backend`). Wake-up through intrusive dependence lists that share the heap, the transient
  flush of the reorder buffer through a temporary stack, and the conservation of window slots and
  registers over every interleaving.
- **Caches** (`CacheGeometry`, `LruLists`, `CacheLru`). Rounding to powers of two by bit smearing,
  the layout of sets, and move-to-front pointer arrays that refine LRU for whole access traces.
- **Coherence** (`SharerLists`, `CacheState`, `AckTree`, `MshrSlots`, `Mshr`). The MESI and directory
  state of a line, the tree of setState acknowledgements, and miss registers that serve one request
  at a time.
- **Counting Bloom filter** (`BloomFilter`). Counters as tallies of a multiset that is never stored.

## What the proofs found

- `Router::forwardMsg` charges `crossLat + wire->dist`, but `dist` of a closed row is the whole
  remaining distance, so multi-hop messages are charged more than their path. All messages of a
  router to a destination are charged right exactly when each wire it keeps for it leads there
  directly (`ChargeExactly`). On a one-way ring every two-hop message pays three hops
  (`TwoHopsOvercharged`, and `Overcharge` with numbers).
- `roundUpPower2(a) / a` is 1 for every associativity, so `numLines` is `size / line`. The window of
  the last set then lies inside the array exactly when rounding up adds no more to the number of
  lines than to the associativity (`Create`, `WindowsInsideExactly`). Sizes read with `get_power2`
  satisfy that (`PowerOfTwoCacheFits`); `create` itself accepts others, such as three direct-mapped
  lines or six lines in pairs (`UnfitExamples`). The arrays have one spare slot past numLines, which
  no line is ever put in; the window of the direct-mapped example starts there.
- A directory line with 64 sharers no longer tracks them: a further request is not remembered, a
  displacement is ignored, and an invalidation acknowledgement drops the last port of the list
  instead of only its own. `AddedExactly`, `RemovedExactly` and `AckedExactly` give the exact
  conditions for one message, `TrackedExactly` for a whole run, and `Overflow` is a run of 65 readers.
- The comment on `shortestPaths` promises all best paths; the distances are cut off at 32767
  (SHRT_MAX), so a router is taken for reachable exactly when some route costs less
  (`ReachableExactly`). `CutOff` is a ring where an existing route counts as none.
- `TQueue` cuts the distance of an event to 32 bits, when it is inserted and again whenever events
  are taken from the far heap. An insertion keeps the queue valid exactly when the event is near or
  its cut distance is not (`Insert`); one 2^32 cycles ahead lands in the current bucket
  (`InsertWrapped`). Taking from the heap keeps it valid exactly when the first event that should
  stay does not look near (`AdjustTooFar`, `NextJob`). So an event may be inserted rightly and still
  be delivered 2^32 cycles early (`FiresEarly`). Events less than 2^32 cycles ahead suffice for whole
  runs (`Poll`, `Serve`).
- A request for exclusive ownership at the top coherent node turns a dirty line into E, so that dirty
  data is not kept there (`DropsDirty`). `MovesByOrder` lists all messages that clean a line: setState,
  its acknowledgement away from home, request acknowledgements that are not dirty, and this one.
- `last++` on a `PortID_t` yields the incremented port, so the ports of a fully connected network
  start at 1, and above 100 routers they meet the ports of local devices (`CreateFullyConnected`).

## Model

| member | source | states |
|---|---|---|
| Paths.DistanceUnique | net/RoutingPolicy.cpp:57-60 | the distance between two routers, cut off at SHRT_MAX, is one number |
| Paths.CostPositive | net/RoutingPolicy.cpp:84-97 | every path costs at least one cycle, crossbars included |
| Paths.CostJoin | net/RoutingPolicy.cpp:84-97 | two paths joined at a router cost their sum plus its crossbar |
| Dijkstra.MinBound | net/RoutingPolicy.cpp:115-125 | no path to an open router is shorter than the least tentative distance |
| Dijkstra.NoHopMissing | net/RoutingPolicy.cpp:99-125 | when the least open router is closed, the first hop of each of its shortest paths is in its entry |
| Dijkstra.MinBecomesExact | net/RoutingPolicy.cpp:115-125 | the least open entry holds the true distance and exactly the first hops of all shortest paths |
| Dijkstra.ExtendHop | net/RoutingPolicy.cpp:84-111 | a first hop to k extended by a link, or by a closed distance of k's row, is a first hop further on |
| Dijkstra.RelaxedEntry | net/RoutingPolicy.cpp:84-111 | relaxing an entry keeps its wires usable, equidistant and distinct, and drops no equal-cost wire |
| Dijkstra.StillRelaxed | net/RoutingPolicy.cpp:84-111 | a smaller distance or more equal-cost wires undo no earlier relaxation |
| Dijkstra.ScanStart | net/RoutingPolicy.cpp:66-78 | an open row with its own router at distance 0 satisfies the loop invariant |
| Dijkstra.ScanStep | net/RoutingPolicy.cpp:81-113 | one relaxation keeps the invariant and brings the scan one router further |
| Dijkstra.ScanEnd | net/RoutingPolicy.cpp:115-125 | after a scan the least open router can be closed and the next scan begins |
| Dijkstra.ExactIsDistance | net/RoutingPolicy.cpp:57-60 | the distance of an exact entry is the shortest-path distance |
| Dijkstra.HopPort | net/RoutingPolicy.cpp:84-111 | the wire of a first hop leaves through a port of a link of this router |
| RoutingPolicies.RoutingPolicy.Begin | net/RoutingPolicy.cpp:60-78 | starts row dest and leaves the other rows alone |
| RoutingPolicies.RoutingPolicy.RelaxEdge | net/RoutingPolicy.cpp:84-111 | replaces, merges or keeps an entry just as the relaxation relation says |
| RoutingPolicies.RoutingPolicy.PushMissing | net/RoutingPolicy.cpp:99-111 | merging adds exactly the wires that were not there, without duplicates |
| RoutingPolicies.RoutingPolicy.RelaxFrom | net/RoutingPolicy.cpp:81-113 | relaxes every open router through k, reading closed or open rows of k alike |
| RoutingPolicies.RoutingPolicy.LeastTentative | net/RoutingPolicy.cpp:115-125 | finds a least reachable open router, or none |
| RoutingPolicies.RoutingPolicy.EntryWeight | net/RoutingPolicy.cpp:81-97 | the entry of k's row read as a weight is a link, or the true distance when that row is already closed |
| RoutingPolicies.RoutingPolicy.ShortestPaths | net/RoutingPolicy.cpp:60-128 | with rows below dest closed, closes row dest: true distances, exactly the first-hop wires of shortest paths; other rows untouched; terminates |
| RoutingPolicies.RoutingPolicy.Make | net/RoutingPolicy.cpp:36-38 | running it on all rows in place closes the whole matrix |
| RoutingTables.RoutingTable.AddNeighborWire | net/RoutingTable.cpp:25-56 | appends a wire, or with fixed paths keeps the one whose port fewer destinations have for their first wire |
| RoutingTables.RoutingTable.GetWire | net/RoutingTable.cpp:58-69 | returns the next wire in turn and remembers the turn |
| RoutingTables.RoutingTable.Fill | net/RoutingPolicy.cpp:40-52 | the table keeps all wires for every destination, or with fixed paths the one whose port the destinations before use least |
| RoutingTables.ClosedRowFills | net/RoutingPolicy.cpp:40-52 | a closed row has wires for every destination, and each one that can be reached has ports the table's assertions accept |
| RoutingTables.TurnWraps | net/RoutingTable.cpp:58-69 | the turn after any number of calls within one round |
| RoutingTables.EveryWireInTurn | net/RoutingTable.cpp:58-69 | among as many consecutive calls as there are wires, each wire is used exactly once |
| RoutingTables.LeastUsedNext | net/RoutingTable.cpp:28-53 | one more wire takes over exactly if its port is another one that is used no more |
| RoutingTables.RotationTakesAll | net/RoutingTable.cpp:58-69 | as many consecutive picks as there are wires take each of them once, from any turn on |
| Delivery.ClosedDistance | net/RoutingPolicy.cpp:36-38 | a closed matrix holds the distances, positive except from a router to itself |
| Delivery.ReachableExactly | net/RoutingPolicy.cpp:57-60 | an entry is below SHRT_MAX if and only if some route costs less than that |
| Delivery.HopAdvances | net/Router.cpp:118-167 | a hop on any kept wire follows a link and lowers the remaining distance by what the hop costs |
| Delivery.FirstHopSplits | net/RoutingPolicy.cpp:84-111 | behind the first hop of a shortest path lies a shortest path |
| Delivery.RunIsShortest | net/Router.cpp:118-167 | whatever wires are picked, travelled part and remaining distance add up to the shortest distance |
| Delivery.RunDescends | net/Router.cpp:118-167 | the remaining distance strictly falls along every run |
| Delivery.EveryMessageArrives | net/Router.cpp:118-167 | every run is bounded, visits no router twice, can continue until it arrives, and arrives on a shortest path |
| Delivery.ChargeExactForNeighbors | net/Router.cpp:160-167 | the time charged is first crossbar plus path length if and only if the first wire taken leads to the destination itself; otherwise more |
| Delivery.ChargeExactly | net/Router.cpp:118-167 | all messages from src to dst are charged right if and only if every wire that src keeps for dst leads there directly |
| Delivery.Arrive | net/Router.cpp:118-167 | every run can be carried on until it arrives |
| Delivery.ChargedAtLeastFirst | net/Router.cpp:160-167 | the charge is at least that of the first hop, and more with further hops |
| Topologies.LinkableIsValid | net/RoutingPolicy.cpp:169-203 | a matrix of single links with ports in range is a network on which make is correct |
| Topologies.CreateUniRing | net/RoutingPolicy.cpp:169-185 | the matrix of a one-way ring |
| Topologies.CreateBiRing | net/RoutingPolicy.cpp:187-203 | the matrix of a two-way ring |
| Topologies.CreateFullyConnected | net/RoutingPolicy.cpp:154-167 | links from every router to every other, ports numbered from 1 because the operator increments first; a network on which make is correct if and only if there are at most 100 routers |
| Topologies.FullIsDirect | net/RoutingPolicy.cpp:154-167 | on it every kept wire leads to its destination directly |
| Topologies.RingPath | net/RoutingPolicy.cpp:169-185 | on a one-way ring a path's length determines its cost and bounds its ends |
| Topologies.RingWalk | net/RoutingPolicy.cpp:169-185 | the walk around the ring exists between any two routers |
| Topologies.UniRingDistance | net/RoutingPolicy.cpp:169-185 | on a one-way ring a distance has this closed form, and no other value is one |
| Networks.MakeUniRing | net/RoutingPolicy.cpp:20-38 | creating a one-way ring and running the algorithm on it leaves the distances in closed form, and one wire upwards everywhere |
| Networks.MakeFullyConnected | net/RoutingPolicy.cpp:20-38 | creating it and running the algorithm on it; every message is charged right |
| Hypercubes.FlipIsMasked | net/RoutingPolicy.cpp:302-311 | adding or subtracting the mask flips one bit of the router number |
| Hypercubes.FlipHam | net/RoutingPolicy.cpp:302-311 | a link changes the Hamming distance by one, down exactly in a dimension that differs |
| Hypercubes.CreateHypercube | net/RoutingPolicy.cpp:300-316 | the matrix of the hypercube |
| Hypercubes.CubePath | net/RoutingPolicy.cpp:300-316 | a path costs by its length, which is at least the Hamming distance |
| Hypercubes.CubeWalk | net/RoutingPolicy.cpp:300-316 | starting in any dimension that differs, the destination is reached in as many hops as the Hamming distance |
| Hypercubes.CubeDistance | net/RoutingPolicy.cpp:300-316 | distances in closed form from the Hamming distance |
| Hypercubes.CubeFirstHops | net/RoutingPolicy.cpp:300-316 | a neighbour starts a shortest path if and only if its dimension differs |
| Hypercubes.CubeWires | net/RoutingPolicy.cpp:99-125 | a closed entry has exactly one wire for each dimension that differs, with its port |
| Hypercubes.MakeHypercube | net/RoutingPolicy.cpp:20-38 | creating a hypercube and running the algorithm on it leaves those distances and wires |
| BiRings.BiWalk | net/RoutingPolicy.cpp:187-203 | going the shorter way round, or either way if both are as long |
| BiRings.BiDistance | net/RoutingPolicy.cpp:187-203 | distances on the two-way ring in closed form |
| BiRings.BiFirstHops | net/RoutingPolicy.cpp:187-203 | a neighbour starts a shortest path if and only if its way is not the longer one |
| BiRings.BiWires | net/RoutingPolicy.cpp:99-125 | a closed entry has the wire up, the wire down or both, accordingly |
| BiRings.MakeBiRing | net/RoutingPolicy.cpp:20-38 | creating a two-way ring and running the algorithm on it leaves those distances and wires |
| Networks.MakeTables | net/RoutingPolicy.cpp:40-52 | one table per router with all wires of its closed row, or with fixed paths, for which all routers must be reachable, with one wire per destination |
| Networks.Forward | net/RoutingTable.cpp:58-69 | the next wire in turn is taken; what the tables keep stays, and so do all other turns |
| Networks.ForwardAll | net/RoutingTable.cpp:58-69 | however the messages of all routers are mixed, every router uses all wires it keeps for a destination equally, each once in as many messages as there are wires |
| Networks.GoesOn | net/Router.cpp:118-167 | a hop carries the run on, adds its charge, and brings the message closer |
| Networks.Deliver | net/Router.cpp:118-167 | a message passed from table to table arrives on a shortest path, and its charge is that path if and only if the first wire led there |
| Networks.TwoHopsOvercharged | net/Router.cpp:160-167 | on every one-way ring a two-hop message is charged three crossbars and wires in place of two |
| Networks.Overcharge | net/Router.cpp:160-167 | with three routers and latencies of one, a message is charged 6 where 4 is right |
| Networks.CutOff | net/RoutingPolicy.cpp:57-60 | with wires of 20000 cycles a router two hops away counts as unreachable, though a route exists |
| Bits.SameBits | simu/imlibest.hpp:320-325 | machine words with the same bits are equal |
| Bits.BitXor | simu/imlibest.hpp:320-325 | the bits of an exclusive or |
| Bits.AndWraps | core/fastqueue.hpp:41-48 | masking with a power of two less one wraps an index |
| Bits.AndBelow | mem/mshr.hpp:43-46 | a masked index lies below the size |
| Bits.AndPredecessor | core/fastqueue.hpp:23-39 | x and x - 1 have no common bit only for powers of two |
| Bits.AndIsMod | core/cachecore.hpp:274 | masking with a power of two less one is the remainder |
| Bits.ShrIsDiv | core/cachecore.hpp:257 | shifting down is the quotient |
| FoldedHistories.NextPlace | simu/imlibest.hpp:320-325 | the place a direction moves to when the register is shifted cyclically |
| FoldedHistories.ParityAfterPush | simu/imlibest.hpp:320-325 | one more direction in front shifts the direct fold by one place, cyclically |
| FoldedHistories.ShiftedBit | simu/imlibest.hpp:321-322 | every bit of the register after the shift and the two directions folded in, in 32 bits |
| FoldedHistories.WrappedBit | simu/imlibest.hpp:323-324 | the bit shifted out at the top comes back in at the bottom and nothing is left above |
| FoldedHistories.UpdateFolds | simu/imlibest.hpp:320-325 | update turns the fold of a history into the fold of the history with one more direction |
| FoldedHistories.FoldOfLastDirections | simu/imlibest.hpp:299-325 | a register depends on the last OLENGTH directions only |
| FoldedHistories.PushOnBuffer | simu/imlibest.hpp:1590-1591 | writing before the pointer of the circular buffer pushes on the history |
| FoldedHistories.HistoryAt | simu/imlibest.hpp:1342-1358 | where each branch stands in the history: its outcome and address bits behind those of all later branches, and nothing else |
| FoldedHistories.FoldedHistory.Init | simu/imlibest.hpp:313-318 | an empty register with its lengths and out point |
| FoldedHistories.FoldedHistory.Update | simu/imlibest.hpp:320-325 | from the fold of the old history to the fold of the new one, reading the buffer |
| HistoryPushes.GlobalHistory.constructor | simu/imlibest.hpp:745-767 | registers of all tables, folding an all-zero history |
| HistoryPushes.GlobalHistory.Reinit | simu/imlibest.hpp:932-950 | every table gets its lengths and widths, the buffer is zero, all registers are folds |
| HistoryPushes.GlobalHistory.Push | simu/imlibest.hpp:1583-1598 | one direction pushed, and all three registers of every table follow |
| HistoryPushes.GlobalHistory.HistoryUpdate | simu/imlibest.hpp:1521-1601 | a branch pushes its outcome, and unless it is conditional then bits 0, 1 and 2 of its address |
| HistoryPushes.GlobalHistory.FetchBoundaryEnd | simu/imlibest.hpp:1342-1358 | the deferred branches are pushed in order |
| HistoryPushes.PredictorAfter | simu/imlibest.hpp:1342-1358 | from power-on through any branches, each register equals the direct fold of its last OLENGTH directions |
| Callbacks.EnqueueKeepsOrder | core/tqueue.hpp:105-147 | stable priority insertion keeps a list sorted, free of duplicates, and adds just the newcomer |
| Callbacks.RankUnique | core/tqueue.hpp:116-140 | the scan of the insertion loop stops at the one right place |
| BucketLists.Buckets.Add | core/tqueue.hpp:105-147 | links a node behind its equals in its bucket, with head and tail pointers right, other buckets alone |
| BucketLists.Buckets.LinkInto | core/tqueue.hpp:105-147 | the three cases of the insertion on the pointers |
| BucketLists.Buckets.FindPlace | core/tqueue.hpp:122-127 | the pointer pair around the place of insertion |
| BucketLists.Buckets.Pop | core/tqueue.hpp:179-186 | takes the head out |
| EventQueue.Window.OwnBucket | core/tqueue.hpp:105-147 | in a valid window an event sits in the bucket of its own cycle |
| EventQueue.Window.AddExactly | core/tqueue.hpp:105-147 | adding keeps every event in the bucket of the cycle its cut distance names, in priority order; that is its own cycle if and only if that lies within the window |
| EventQueue.Window.PopKeeps | core/tqueue.hpp:179-186 | popping the current bucket takes a most urgent event of those that seem to be due, and keeps the window right if it was |
| EventQueue.Window.NextKeeps | core/tqueue.hpp:198-204 | moving past an empty bucket keeps every event in the bucket of the cycle it seems to be for |
| EventQueue.Window.NothingNow | core/tqueue.hpp:198-208 | an empty current bucket means nothing is due |
| EventQueue.Window.NoBucketNoEvent | core/tqueue.hpp:192-196 | with a count of zero the buckets are empty |
| EventQueue.TotalCounts | core/tqueue.hpp:289 | the node counter is the number of nodes in all buckets |
| EventQueue.TQueue.AddNode | core/tqueue.hpp:105-147 | the masked index names the bucket so many cycles ahead as the 32-bit difference says; the window stays right if and only if the time lies in it |
| EventQueue.TQueue.Insert | core/tqueue.hpp:156-176 | an event of any later time joins the pending ones, by bucket or by far heap; the queue stays valid if and only if the 32-bit cut of its distance does not bring a farther event into the window |
| EventQueue.TQueue.InsertWrapped | core/tqueue.hpp:162 | an event 2^32 cycles ahead lands in the bucket of the current cycle |
| EventQueue.FiresEarly | core/tqueue.hpp:87-103 | two events 4000 and 2^32 + 4100 cycles ahead are both inserted rightly, and the second is delivered at cycle 4100 |
| EventQueue.TQueue.AdjustTooFar | core/tqueue.hpp:87-103 | all far events that have come near move to buckets, none is lost, and the queue stays valid if and only if the first event that should stay does not look near |
| EventQueue.TQueue.PullNear | core/tqueue.hpp:87-103 | the same for the loop: it takes events in time order, every one within the window, and a farther one if and only if the first of those looks near |
| EventQueue.TQueue.MoveFront | core/tqueue.hpp:87-103 | the earliest far event that looks near moves into a bucket, its own if it lies within the window |
| EventQueue.TQueue.PopHead | core/tqueue.hpp:179-186 | the head of the current bucket leaves the pending events |
| EventQueue.TQueue.Skip | core/tqueue.hpp:198-204 | one empty cycle is passed |
| EventQueue.TQueue.Advance | core/tqueue.hpp:198-204 | the window moves to the first non-empty bucket or to the present |
| EventQueue.TQueue.NextJob | core/tqueue.hpp:178-218 | returns a most urgent event that seems to be due now and removes only it, null only if nothing is; event and queue are right if and only if the heap was not looked at or gave up no event too early |
| EventQueue.TQueue.SizeCountsPending | core/tqueue.hpp:289 | nNodes plus the far heap's size is the number of undelivered events |
| EventEngine.NothingOverdue | core/callback.hpp:117-149 | in every run nothing pending is ever overdue |
| EventEngine.FiresExactlyOnceOnTime | core/callback.hpp:90-149 | in every run a scheduled event fires in its cycle, never elsewhere, never twice, and before the clock leaves it |
| EventEngine.UrgentFirst | core/callback.hpp:131-144 | in every run the events of a cycle fire in nondecreasing priority |
| EventEngine.WasThere | core/callback.hpp:131-144 | all events of a cycle are there when it starts |
| EventEngine.Engine.Schedule | core/callback.hpp:90-97 | scheduling by a positive delay is a schedule step of the run |
| EventEngine.Engine.ScheduleAbs | core/callback.hpp:105-115 | scheduling at any later time is a schedule step, and leaves the engine valid if and only if the event does not falsely seem near |
| EventEngine.Engine.Poll | core/callback.hpp:131-139 | asking the queue for the next job is a deliver or an idle step and leaves the engine valid if and only if the heap, when looked at, gives up no event too early; while all events are within 2^32 cycles it does not |
| EventEngine.Engine.NextCycle | core/callback.hpp:117-126 | advancing an idle engine is a tick |
| EventEngine.Engine.ServeOne | core/callback.hpp:90-149 | one call and the step that answers it |
| EventEngine.Engine.Serve | core/callback.hpp:90-149 | any sequence of calls is a run of the engine on the calendar queue, each call one step, refused only if it is in the past, too far ahead or ticks too early; every event taken fires once, in its cycle, before the clock leaves it |
| EventEngine.Simulate | core/callback.hpp:90-149 | the same from power-on |
| PipePorts.PortFullyPipe.NextSlot | core/port.cpp:58-64 | books the earliest cycle from now on that is not booked |
| PipePorts.PortFullyNPipe.NextSlot | core/port.cpp:77-90 | books the earliest cycle from now on not yet booked n times; cycles from now to lTime are full |
| PipePorts.NeverOverbooked | core/port.cpp:77-90 | no cycle is ever booked more than n times |
| PipePorts.EarliestIsUnique | core/port.cpp:58-90 | there is only one right answer |
| PipePorts.SameAnswers | core/port.cpp:58-90 | two ports with n units answer any sequence of calls alike |
| PipePorts.Compare | core/port.cpp:58-90 | the one-unit port and the n-unit port with n = 1 agree on every nondecreasing sequence of calls |
| PriorityPorts.PortPipePriority.AlignCycle | core/port.cpp:145-150 | a new cycle starts with no grants, the same cycle keeps them |
| PriorityPorts.PortPipePriority.Schedule | core/port.cpp:162-164 | a request joins the queue |
| PriorityPorts.PortPipePriority.Pop | core/port.cpp:183-185 | takes some most urgent pending request and only it |
| PriorityPorts.PortPipePriority.FlushTransient | core/port.cpp:166-180 | exactly the transient requests leave |
| PriorityPorts.EventScheduler.Call | core/port.cpp:184-188 | every port receives just what the callback asks of it |
| PriorityPorts.EventScheduler.GrantOne | core/port.cpp:184-188 | one grant, to a most urgent request pending then; its callback's requests arrive, and the ledger of jobs, callbacks and grants still balances |
| PriorityPorts.EventScheduler.RunJob | core/port.cpp:162-180 | a job's request arrives, or exactly the transient requests of one port leave |
| PriorityPorts.EventScheduler.DrainPort | core/port.cpp:182-190 | grants in priority order until the port is empty or has granted nUnits this cycle; earlier grants of the cycle count |
| PriorityPorts.EventScheduler.DrainPortQueues | core/callback.hpp:140-143 | a pass over all ports uses up room of this cycle if anything was pending |
| PriorityPorts.EventScheduler.AdvanceClock | core/callback.hpp:128-144 | the fixed point ends, with all jobs run and every port empty or at nUnits grants in this cycle; each port has received exactly what jobs and callbacks asked, and each request is granted, squashed as transient, or still waiting |
| PriorityPorts.Simulate | core/callback.hpp:128-144 | from fresh ports, cycle after cycle, each cycle ends with every port empty or at nUnits grants |
| Dependences.Dinst.Append | emul/dinst.hpp:713-719 | a node joins the end of a producer's list, through a last pointer that is stale while the list is empty |
| Dependences.Dinst.DropFirst | emul/dinst.hpp:692-697 | the first node leaves the list, its successors stay linked |
| DepWindows.ListsApart | emul/dinst.hpp:682-764 | the lists of two producers share no node |
| DepWindows.DepWindow.Append | emul/dinst.hpp:701-719 | linking one node changes the list of its producer and no other list on the heap |
| DepWindows.DepWindow.DropHead | emul/dinst.hpp:692-697 | so does unlinking the first node |
| DepWindows.DepWindow.AddSrc | emul/dinst.hpp:701-764 | count, slot and list on the heap change together as linking says; every other instruction keeps what it had |
| DepWindows.DepWindow.GetNextPending | emul/dinst.hpp:682-699 | the first waiter is let go on the heap: one dependence less, its slot unused, its node off the list |
| DepWindows.DepWindow.Enter | emul/dinst.hpp:293-309 | a new instruction has nodes of its own, none used and none on a list |
| DepWindows.SelectedOnceWhenReady | simu/DepWindow.cpp:29-53 | an instruction is sent to preSelect at most once, and exactly when all producers it was linked to have executed, unless a flush destroyed it |
| DepWindows.UsedSlotOnOneList | emul/dinst.hpp:682-764 | a used slot is on the list of its unexecuted producer and on no other |
| DepWindows.LinkKeepsInv | emul/dinst.hpp:701-764 | linking to an unexecuted producer keeps the invariant |
| DepWindows.PopKeepsInv | emul/dinst.hpp:682-699 | unlinking the first waiter keeps the invariant |
| DepWindows.ExecutedKeepsInv | simu/DepWindow.cpp:101-125 | marking a producer executed keeps the invariant but for its waiters |
| DepWindows.WokenStep | simu/DepWindow.cpp:139-174 | one turn of the wake-up loop brings the window one waiter closer to the final one |
| DepWindows.OneMoreWoken | simu/DepWindow.cpp:139-174 | releasing one slot of the woken instruction, also when the same producer feeds another of its sources |
| DepWindows.ReleaseKeepsInv | simu/DepWindow.cpp:139-174 | selecting or destroying a waiter without dependences keeps the invariant |
| DepWindows.MarkKeepsValid | emul/dinst.hpp:331-334 | marking an instruction to be destroyed keeps the invariant |
| DepWindows.DepWindow.Rename | simu/DepWindow.cpp:29-37 | a new instruction is linked to its unexecuted producers, or selected at once when it has none |
| DepWindows.DepWindow.Discard | emul/dinst.hpp:331-334 | a flushed instruction is destroyed instead of selected when its turn comes |
| DepWindows.DepWindow.Executed | simu/DepWindow.cpp:101-176 | lets go every slot linked to the producer and nothing else, selects who waited only for it, and terminates |
| DepWindows.DepWindow.WakeNext | simu/DepWindow.cpp:139-174 | the next waiter is destroyed, selected, or left waiting for another producer |
| DepWindows.Happen | simu/DepWindow.cpp:29-176 | a rename links the instruction to exactly those of its producers in the window that have not executed, an execution marks an issued one, a flush marks one, and nothing else changes but what a valid window then demands |
| DepWindows.StillAwaited | simu/oooprocessor.cpp:405-430 | a source is awaited exactly while its producer is in the window and has not executed |
| DepWindows.SelectedInTime | simu/DepWindow.cpp:29-176 | read after write, in every run: never selected before a producer named and unexecuted at its rename has executed, nor left waiting when all have |
| DepWindows.Simulate | simu/DepWindow.cpp:29-176 | from an empty window, for whatever events: each renamed instruction has been selected at most once, and unless flushed exactly when all producers that had not executed at its rename have |
| FastQueues.FastQueue.constructor | core/fastqueue.hpp:23-39 | an empty queue whose size is rounded up to a power of two |
| FastQueues.FastQueue.Push | core/fastqueue.hpp:41-48 | appends at the young end of the ring |
| FastQueues.FastQueue.Pop | core/fastqueue.hpp:78-84 | removes the oldest |
| FastQueues.FastQueue.PopFromBack | core/fastqueue.hpp:86-90 | removes the youngest, with the unsigned wrap-around of the index |
| FastQueues.FastQueue.EndData | core/fastqueue.hpp:64-67 | the youngest element |
| FastQueues.FastQueue.Top | core/fastqueue.hpp:54-57 | the oldest element |
| FastQueues.FastQueue.GetIDFromTop | core/fastqueue.hpp:92-95 | the ring position of the i-th oldest element |
| FastQueues.FastQueue.Change | core/fastqueue.hpp:92-104 | an element changed at the ring position of the i-th oldest is the i-th oldest |
| RobFlush.Core.Flush | simu/gprocessor.cpp:226-298 | what the first loop does with one instruction, flag case by flag case |
| RobFlush.Core.Restore | simu/gprocessor.cpp:302-333 | what the second loop does with one instruction |
| RobFlush.Core.FlushTransientFromRob | simu/gprocessor.cpp:223-334 | both loops terminate and compute the two-pass flush of buffer and pools |
| RobProperties.UnstackedIsBack | simu/gprocessor.cpp:302-333 | the second loop filters the stack in reverse |
| RobProperties.StackedIsFirsts | simu/gprocessor.cpp:226-298 | the first loop stacks, in reverse, what each instruction leaves, but for dependence counts |
| RobProperties.FlushKeepsSurvivors | simu/gprocessor.cpp:223-334 | of renamed instructions, none both transient and retired, the flush keeps in program order just the non-transient and the unexecuted ones; only marks and dependence counts of transient ones change |
| RobProperties.StackedExactly | simu/gprocessor.cpp:226-298 | the stack after the first loop, with the dependences that destroyed producers let go |
| RobProperties.FlushLeaves | simu/gprocessor.cpp:223-334 | exactly the survivors stay, in order; a transient one is marked as far as it had come, its slot and register are given back, and it waits for fewer producers by just those destroyed |
| RobProperties.FirstsAreSurvivors | simu/gprocessor.cpp:226-298 | the first loop keeps the survivors and sets only flush marks of transient ones |
| RobProperties.NoExecutedTransientLeft | simu/gprocessor.cpp:223-334 | no executed transient instruction survives unless it was marked retired |
| RobProperties.SecondLoopDropsNobody | simu/gprocessor.cpp:302-333 | where no transient instruction is retired and only transient ones are marked, nobody leaves the buffer in the second loop |
| RobProperties.LeavesOnlyRetired | simu/gprocessor.cpp:302-333 | whatever the marks, a transient instruction leaves there only if it is marked retired |
| RobProperties.StackedNonTransient | simu/gprocessor.cpp:226-298 | non-transient instructions pass the first loop unchanged |
| RobProperties.NonTransientUntouched | simu/gprocessor.cpp:223-334 | the non-transient instructions come out unchanged and in program order |
| RobAccounting.FirstBalances | simu/gprocessor.cpp:226-298 | one instruction of the first loop returns to the pools just what it stops holding |
| RobAccounting.SecondBalances | simu/gprocessor.cpp:302-333 | so does one instruction of the second loop, in each of its branches |
| RobAccounting.FlushBalances | simu/gprocessor.cpp:223-334 | a flush keeps free plus held slots and registers of every cluster |
| RobAccounting.PoolsWithinBounds | simu/cluster.hpp:57-86 | pools never run below zero or above their sizes, and are full exactly when nothing in flight holds anything |
| RobAccounting.AddConserves | simu/cluster.cpp:238-256 | adding conserves slots and registers |
| RobAccounting.UpdateConserves | simu/cluster.cpp:343-358 | executing conserves them |
| RobAccounting.LeaveConserves | simu/cluster.cpp:390-418 | when the oldest leaves with its register, nothing is lost if and only if its slot has been given back |
| RobAccounting.EarlyConserves | simu/cluster.cpp:390-418 | one that retires before it has executed gives its register back and keeps its slot |
| RobAccounting.LateConserves | simu/cluster.cpp:343-358 | it gives its slot back when it executes after that |
| RobAccounting.FlushConserves | simu/gprocessor.cpp:223-334 | flushing conserves them and leaves every transient survivor without a slot |
| RobAccounting.StepConserves | simu/cluster.cpp:238-418 | every step of any unit conserves them, also retirement before and execution after it |
| RobAccounting.EveryRunConserves | simu/cluster.cpp:238-418 | in every interleaving, windowSize plus slots held is MaxWinSize and regPool plus registers held is nRegs |
| Backends.Backend.Happen | simu/cluster.cpp:238-418 | an event on the ring buffers and pools is the step of the same name, or changes nothing; it is refused exactly when its unit cannot take it |
| Backends.Simulate | simu/oooprocessor.cpp:536-735 | from power-on any sequence of adding, issuing, executing, passing, retiring and flushing is a run, so that slots and registers are conserved |
| CacheGeometry.SmearTwice | core/snippets.cpp:36-40 | or-ing a word with its shift doubles how far its bits are smeared |
| CacheGeometry.SmearIsMask | core/snippets.cpp:36-42 | a fully smeared word is a power of two less one |
| CacheGeometry.RoundUpPower2 | core/snippets.cpp:31-43 | the branchless code computes the rounding for every 32-bit argument, 0 for 0 and above 2^31 |
| CacheGeometry.RoundUpIsLeast | core/snippets.cpp:29-43 | for 1 to 2^31 that is the least power of two not below the argument |
| CacheGeometry.Log2i | core/snippets.cpp:9-27 | the exponent of that power |
| CacheGeometry.Create | core/cachecore.hpp:714-758 | refused if and only if there are fewer lines than ways; otherwise sets times the rounded associativity is the rounded line count, and the last set fits if and only if rounding adds no more to the lines than to the ways |
| CacheGeometry.NumLines | core/cachecore.hpp:104 | the scaling factor is always 1, so the cache has size / line lines |
| CacheGeometry.Quotient | core/cachecore.hpp:101-103 | the set count is a power of two and divides without remainder |
| CacheGeometry.IndexIsMultiple | core/cachecore.hpp:265-278 | the first line of a set is its number times the rounded associativity |
| CacheGeometry.SetOf | core/cachecore.hpp:265-278 | the set of a tag is its remainder by the number of sets, or with hashing the number whose bits are those of the tag, flipped by the bits 5 and log2Sets places above |
| CacheGeometry.SharesSet | core/cachecore.hpp:265-278 | two tags share a set if and only if these agree |
| CacheGeometry.WindowsInside | core/cachecore.hpp:265-278 | every tag selects a window inside the array when the last set fits |
| CacheGeometry.HashedLastSet | core/cachecore.hpp:265-278 | index hashing reaches the last set |
| CacheGeometry.WindowsInsideExactly | core/cachecore.hpp:265-278 | all windows lie inside the array if and only if the last set fits, with and without hashing |
| CacheGeometry.WindowsDisjoint | core/cachecore.hpp:265-278 | windows of different sets share no line, whatever the indexing |
| CacheGeometry.PowerOfTwoCacheFits | core/cachecore.hpp:93-107 | a power-of-two number of lines holds the last set for any associativity up to it |
| CacheGeometry.RoomForLastSet | core/cachecore.hpp:93-107 | the same condition, from the derived sizes |
| CacheGeometry.Unfit | core/cachecore.hpp:265-278 | any other sizes that are accepted have a tag whose window leaves the numLines lines |
| CacheGeometry.UnfitExamples | core/cachecore.hpp:265-278 | three lines direct-mapped and six lines in pairs are such sizes |
| CacheGeometry.LayoutIsOk | core/cachecore.hpp:265-278 | so the geometry gives the layout the cache needs |
| LruLists.RecencyIsByLastUse | core/cachecore.hpp:982-993 | the recency list of a trace holds its tags once each, latest use first |
| LruLists.TouchKeeps | core/cachecore.hpp:1024-1181 | one access keeps a set at its most recently used tags |
| LruLists.WaysStep | core/cachecore.hpp:1024-1181 | the ways after one more access are the ways before, touched |
| LruLists.WaysUnique | core/cachecore.hpp:193-209 | no valid tag is ever in two ways |
| LruLists.HitsExactly | core/cachecore.hpp:928-1013 | an access hits exactly when fewer than assoc other tags of its set were used since |
| LruLists.HitsGrow | core/cachecore.hpp:928-1013 | what hits at one associativity hits at any larger one |
| LruLists.VictimIsOldest | core/cachecore.hpp:1085-1096 | the last way of a full set is the one unused for longest |
| CacheLru.Shift | core/cachecore.hpp:984-993 | the pointer shift brings one way to the front of its window in place |
| CacheLru.CacheAssoc.constructor | core/cachecore.hpp:854-891 | an empty cache: every pointer to a line of its own, no tags |
| CacheLru.CacheAssoc.FindLine | core/cachecore.hpp:928-1013 | a hit comes to the front of its set, a miss changes nothing, other sets stay |
| CacheLru.CacheAssoc.FindLine2Replace | core/cachecore.hpp:1024-1181 | the line with the tag or else the last way comes to the front; pointers stay a permutation of the lines |
| CacheLru.CacheAssoc.FindFromEnd | core/cachecore.hpp:1058-1079 | the backward scan finds the only way with the tag |
| CacheLru.CacheAssoc.FillLine | core/cachecore.hpp:193-209 | the set's tags are touched; the victim is the last way |
| CacheLru.CacheAssoc.Access | core/cachecore.hpp:193-209 | look-up and fill on a miss together are one touch, and hit exactly when the tag was there |
| CacheLru.CacheAssoc.SetsApart | core/cachecore.hpp:265-278 | no line is in two sets |
| CacheLru.CacheAssoc.Step | core/cachecore.hpp:928-1181 | after one more access every set still holds the most recent tags of its own trace |
| CacheLru.CacheAssoc.Run | core/cachecore.hpp:928-1181 | from empty, through any trace, every set holds its most recent tags, and each access hits exactly when its tag is among them |
| CacheLru.Simulate | core/cachecore.hpp:854-891 | from sizes to hits: a cache is made unless it has fewer lines than ways, and hits through any trace exactly when fewer than assoc other tags with the same remainder, or hash, were used since |
| CacheLru.SimulateAddresses | core/cachecore.hpp:257 | the same for byte addresses, by their line numbers |
| SharerLists.UpdatesKeepList | mem/ccache.cpp:619-666 | sharers stay distinct and at most 64 |
| SharerLists.AddedExactly | mem/ccache.cpp:619-647 | a requester is remembered exactly when there is room or it was there |
| SharerLists.RemovedExactly | mem/ccache.cpp:649-666 | a displacement is forgotten exactly when the line is not broadcasting or never had the port |
| SharerLists.AckedExactly | mem/ccache.cpp:468-474 | an invalidation ack removes just its own port exactly when not broadcasting or the port is the last |
| SharerLists.FewPorts | mem/ccache.hpp:95 | distinct ports below n are at most n, so fewer than 64 ports never broadcast |
| CacheState.CState.AddSharing | mem/ccache.cpp:619-647 | the sharer array after a request |
| CacheState.CState.RemoveSharing | mem/ccache.cpp:649-666 | the array closes the gap in place; the granted state falls to I with the last sharer |
| CacheState.CState.AdjustState | mem/ccache.cpp:446-541 | new local state, granted state and sharers by kind of message: shared after a downgrade, nothing after an invalidation; several sharers only in S, exclusive granted exactly to a single sharer of a line that is not only shared |
| CacheState.MovesByOrder | mem/ccache.cpp:424-541 | each message in the order I, S, E, M: which raise rights, which take them away, and exactly which make a line dirty or clean |
| CacheState.CState.AfterSetStateAck | mem/ccache.cpp:468-486 | the effect of an acknowledgement |
| CacheState.CState.AfterRequest | mem/ccache.cpp:491-527 | the effect of a request or its acknowledgement |
| CacheState.CState.Invalidate | mem/ccache.hpp:88-93 | the line forgets everything |
| CacheState.CState.ToldExactly | mem/ccache.cpp:403-422 | the caches above are told exactly when one other than the requester's has a copy that conflicts with the request |
| CacheState.ListIsExact | mem/ccache.cpp:446-541 | with fewer than 64 ports the list is exactly who asked and has not gone since, for every run of messages |
| CacheState.StepExactly | mem/ccache.cpp:446-541 | one message keeps the list exact if and only if the list is not full or can follow it |
| CacheState.TrackedExactly | mem/ccache.cpp:446-541 | the list is exact throughout a run of any ports if and only if no message of it meets a full list that cannot follow it |
| CacheState.ReadersListed | mem/ccache.cpp:619-647 | of n readers the list holds the first 64 |
| CacheState.Overflow | mem/ccache.cpp:619-647 | the 65th reader of a line is not remembered |
| CacheState.DirtyExactly | mem/ccache.cpp:446-541 | after any messages the line is dirty if and only if one of them made it so and none has cleaned it since |
| CacheState.StaysDown | mem/ccache.cpp:446-541 | after a setState the line is at most shared until a request, its acknowledgement or a displacement |
| CacheState.DropsDirty | mem/ccache.cpp:424-444 | a request for exclusive ownership at the top coherent node makes a dirty line clean |
| CacheState.Run | mem/ccache.cpp:446-541 | a whole run of messages on one line keeps its invariant and that list, and its states move message by message |
| AckTree.MemRequest.SetStateAckDone | simu/memrequest.cpp:87-116 | one acknowledgement less; the last one resumes the parent by its kind; needsDisp is or-ed into a setState parent |
| AckTree.Messages.Create | simu/memrequest.cpp:119-153 | a new message with an id above all others and nobody waiting for it |
| AckTree.Messages.SendSetState | simu/MRouter.cpp:328-331 | one more child, younger than its parent; pending still counts the children |
| AckTree.Messages.Attach | simu/memrequest.cpp:78-85 | the child points at its parent, which waits for one more, and pending still counts the children of every message |
| AckTree.Messages.SendSetStateAll | simu/MRouter.cpp:358-379 | as many children as upper nodes, one fan-out begun if any |
| AckTree.Messages.OthersAre | simu/MRouter.cpp:307-338 | of distinct upper nodes, all but the requester's |
| AckTree.Messages.SendSetStateOthers | simu/MRouter.cpp:307-338 | a child for every upper node but the requester's, none with a single upper node |
| AckTree.Messages.ConvertLeaf | mem/ccache.cpp:1093-1104 | a setState that asked nobody becomes an acknowledgement |
| AckTree.Messages.Ack | simu/memrequest.hpp:572-611 | pending still counts unacknowledged children, the parent resumes on the last, and nobody points at the recycled message |
| AckTree.Messages.SomeoneCanAck | simu/memrequest.cpp:78-85 | while anybody waits, some unacknowledged message waits for nobody: no deadlock |
| AckTree.Messages.Drain | simu/memrequest.cpp:87-116 | in any order of acknowledgements, and with any finite number of further fan-out messages in between, all fan-outs end and each has resumed its request exactly once |
| AckTree.Simulate | simu/MRouter.cpp:307-338 | a request that asks all upper nodes but one, from an empty system: however the answers come in, in the end nobody waits |
| Mshr.CallbackContainer.Add | core/callback.hpp:1193-1229 | stable priority insertion on the pointers, head and tail right |
| Mshr.CallbackContainer.CallNext | core/callback.hpp:1279-1297 | the first callback leaves and is called |
| Mshr.MSHR.constructor | mem/mshr.cpp:11-33 | all entries free and empty, four times as many as the rounded size |
| Mshr.MSHR.EntryOfLine | mem/mshr.hpp:43-46 | all addresses of a line have the same entry |
| Mshr.MSHR.EntryBits | mem/mshr.hpp:43-46 | the bits of the entry are those of the line number, each flipped by the one eleven places above |
| Mshr.MSHR.IssueOvertakesNobody | mem/mshr.cpp:48-57 | a slot that can be issued has nobody waiting; any other has one holder and its waiters |
| Mshr.MSHR.BlockEntry | mem/mshr.cpp:85-103 | a free slot gets its one holder: a block step of that slot alone, after which no address of the line can be issued |
| Mshr.MSHR.AddEntry | mem/mshr.cpp:59-83 | one more waiter in its priority place, uses and free entries in step: a join step of that slot alone |
| Mshr.MSHR.Retire | mem/mshr.cpp:105-145 | the slot goes to the first waiter, which is called, or becomes free: a leave step of that slot alone |
| Mshr.MSHR.DrainSlot | mem/mshr.cpp:105-145 | if holders keep retiring and nobody joins, everybody waiting is called in line order and the entries come back |
| Mshr.MSHR.ServeOne | mem/ccache.cpp:684-702 | a request takes the slot of its line if that is free and else joins its queue, a holder that is done leaves: one step of that slot, other slots stay |
| Mshr.MSHR.Serve | mem/mshr.cpp:59-145 | any sequence of requests and departures of any lines is a run of each slot, to which all requests of its lines go; nobody is called twice, and when the slot is free again exactly those who joined have been called |
| Mshr.Simulate | mem/mshr.cpp:11-145 | the same from empty registers |
| MshrSlots.AlwaysInOrder | mem/mshr.cpp:59-145 | in every interleaving of block, join and leave steps a slot has one holder and its waiters in priority order |
| MshrSlots.NobodyIsLost | mem/mshr.cpp:59-145 | in every interleaving, those who joined are those called so far and those still waiting |
| MshrSlots.FreeSlotHasCalledAll | mem/mshr.cpp:105-145 | when the slot is free again everybody who joined has been called, and nobody twice unless he joined twice |
| MshrSlots.OvertakenByUrgentOnly | core/callback.hpp:1193-1229 | a waiter moves back only when somebody strictly more urgent joins |
| MshrSlots.CalledInTurn | mem/mshr.cpp:105-145 | in every interleaving a waiter at position i is called within i + 1 retirements and one more for each strictly more urgent one who joins meanwhile |
| BloomFilters.ChunkBits | core/bloomfilter.cpp:80-115 | mask and shift extract just the bits of a chunk |
| BloomFilters.InitMasks | core/bloomfilter.cpp:80-95 | the mask and shift of every chunk of the word |
| BloomFilters.OneChunk | core/bloomfilter.cpp:80-95 | every bit below the sum of the widths is in exactly one chunk |
| BloomFilters.TallySum | core/bloomfilter.cpp:210-231 | tallies of a union of multisets add up |
| BloomFilters.TallyMember | core/bloomfilter.cpp:167-179 | a stored element makes its counters positive |
| BloomFilters.TallyAlike | core/bloomfilter.cpp:9-33 | tallies depend on the values of the hash only, so filters built alike are compatible |
| BloomFilters.BloomFilter.constructor | core/bloomfilter.cpp:9-33 | an empty filter whose hashes are the address chunks modulo the vector sizes |
| BloomFilters.BloomFilter.Insert | core/bloomfilter.cpp:117-132 | counters and non-zero counts follow one more element |
| BloomFilters.BloomFilter.Remove | core/bloomfilter.cpp:134-152 | and one element less, no counter going below zero |
| BloomFilters.BloomFilter.MayExist | core/bloomfilter.cpp:167-179 | no false negatives, and exactly which false positives |
| BloomFilters.BloomFilter.MayIntersect | core/bloomfilter.cpp:181-208 | a shared element is always noticed |
| BloomFilters.BloomFilter.MergeWith | core/bloomfilter.cpp:210-231 | the filter of the sum of both multisets, also when a filter is merged with itself |
| BloomFilters.BloomFilter.Subtract | core/bloomfilter.cpp:233-255 | the filter of the difference, for a subset, also of a filter from itself |
| BloomFilters.BloomFilter.IsSubsetOf | core/bloomfilter.cpp:311-332 | inclusion is always noticed |
| BloomFilters.Build | core/bloomfilter.cpp:9-33 | a filter of its own counters that holds the given elements |
| BloomFilters.MergeAndPart | core/bloomfilter.cpp:210-255 | two filters built alike, merged and taken apart again, hold what they held |

## Left out

- Configuration, statistics, tracing, emulation, and all output: no state of interest.
- `Delivery`: broadcast, the `next` pointers, and the ports' timing of a hop; only point-to-point hops are followed.
- Mesh `create()`: a further instance of the same precondition (`Linkable`).
- Links whose ports lie outside 1 to 99, as in a fully connected network of more than 100 routers: `shortestPaths` then drops wires it should merge, and may empty an entry that it reads next.
- The resize branch of `shortestPaths` for an empty own entry: `make` gives every entry one wire, so it is never taken.
- Networks with `crossLat` 0: the source's own assertion fails there.
- `HistoryPushes.GlobalHistory.HistoryUpdate`: does not model the path history, the IMLI counters or the local histories; the pointer is an unbounded integer, where the source's `int` overflows after 2^31 pushes.
- History lengths, index widths and tag widths are parameters; the source derives them with floating point.
- The debug flags that say which queue holds a node.
- The far heap is a set with a nondeterministic earliest element; `std::push_heap` is not modelled. A callback object stands for one scheduling, so its time is constant.
- `TQueue::remove` and `reschedule`: the event engine does not use them.
- `PriorityPorts.EventScheduler.Call`: a callback only asks ports; the source's may also schedule events, which here are jobs given in advance.
- `PriorityPorts.EventScheduler.AdvanceClock`: the event queue's jobs come in finitely many batches given in advance; callbacks of granted requests schedule only further port requests. The heap of requests is a sequence whose top may be any request of least priority.
- `PortUnlimited`, `PortUnlimitedPriority`, `is_busy_for`: no contention to prove anything about.
- `DepWindows`: an instruction stays in the pool for good, where the source recycles it; producers are named directly, where the source finds them in the rename table. Clusters, latencies between them, the rename table and the executing instruction's own assertions are not modelled.
- `RobFlush`: the flags of an instruction are values kept in the ring buffers, where the source has pointers, so aliasing with other units is not captured. `try_flushed`, the rename table and `nTotalRegs` are not modelled.
- `RobAccounting.StepConserves`: a transient instruction retires only once its slot is back, because otherwise the slot is lost (`LeaveConserves`); which resources guarantee that is not modelled.
- `ExecutingCluster`, `RetiredCluster` and late register allocation.
- `CacheLru`: policies other than LRU, prefetch fills, `rrip`, the predictor of UAR, invalidation of single lines; `findLine2Replace` also looks for a free way, but under LRU that choice is overwritten, so the scan only looks for the tag.
- `CacheState`: `ffread`, `ffwrite`, `forceInvalid`, `clearSharing` and reuse of a line by allocation change a line outside the messages; coherence across cache levels is not stated. Messages that notify the store buffer directly are not modelled.
- `AckTree`: in `Drain` the further fan-out messages are finitely many, since with endless ones nothing need end; addresses, memory objects, callbacks and call-path debugging; a recycled message is a new object. At most 32767 upper nodes, because `pendingSetStateAck` is 16 bits wide.
- `Mshr`: `canAccept` and its limit nSubEntries; who asks first is not modelled. `CallbackContainer::size` is not modelled, since `callNext` does not decrement it.
- `BloomFilters`: two filters are the same or own different counters. Counters are unbounded, and `nElements`, which merging does not update, is not modelled.
