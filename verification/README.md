# A verified model of the ws library's algorithmic core

This project models, in Dafny, the parts of the ws C++ library that are algorithms rather than
wrappers, and proves what they promise. Every stateful component is a class with the fields of the
original, updated in place by methods with the original's branches; each is tied to a simpler
specification, and the main theorems are about whole runs of that specification.

* **Timer** (`TimerSpec.dfy`, `Timer.dfy`). The timing wheel (one near wheel of 256 slots, four far
  wheels of 64 slots, indexed by bits of a 32-bit deadline) is proved to behave as a flat table from
  schedule to absolute deadline on an unbounded time line. The worker's round is three steps
  (dispatch, `++tick`, expand), update first swaps the queue out and then looks at one callback
  after the other, and `addTimeCall` and `remove` may come between any two of these steps.
  `TimerWheel.Interleave` joins the two halves: any sequence of calls and steps drives the wheel
  through the run of the flat timer that follows it, and the ticks at which each addition fires are
  given in terms of the calls alone.
  Windows replace shifts: `Window(x, i)` is `x >> (8 + 6 * i)`, and an item in far level i is 1 to 64
  windows ahead of the last window opened there. The tick field is the unbounded tick modulo 2^32, so
  the wrap to zero, where all levels cascade at once, is covered by the same proof.
* **A\*** (`PathSearch.dfy`, `AStar.dfy`, `AStarDefaults.dfy`). `PathSearch` is a search over maps
  and sets that keeps stale heap entries; the class `AStar` works on mutable nodes in 1024-node chunks
  that are never cleared between searches and is proved to follow it. A path that is returned starts
  next to the start, steps over unblocked neighbours to the end, and costs what the end's g says.
  For every w >= 1 such that the estimate drops by at most w times the cost of a step, that cost is at
  most w times the cost of any path; w = 1 is optimality for a consistent estimate. The built-in
  Manhattan estimate is not consistent with the diagonal cost 1.414: the exact maps on which it is
  are given, its bound 2/1.414, and a map on which `findPath` returns a path that is not shortest.
* **RingBuffer**, **ByteArray** and the **outgoing stream** (`RingBuffer.dfy`, `ByteArray.dfy`,
  `OutgoingStream.dfy`). The ring is a first-in first-out byte queue across wrap-around and growth.
  What a client's sockets have taken, by the answers they gave, is the front of what was enqueued,
  and the writer buffer holds exactly the rest.
* **DBQueue** (`DBQueueProtocol.dfy`, `DBQueue.dfy`). Workers, owner, `setThread` and the destructor
  are atomic steps that interleave freely; requests are conserved and their callbacks ordered.
* **Sonyflake** (`Sonyflake.dfy`), **split and join** (`StringSplit.dfy`), **percent-coding**
  (`UrlCoding.dfy`, sections 2.1 and 2.3 of RFC 3986).

`Basics.dfy` holds what several modules share. Doubles are modelled as reals. Where the code and its
comments disagree the model follows the code:

* `URLEncode` is announced as the same as JavaScript's encodeURIComponent
  (include/ws/core/String.h:176) but also escapes `!`, `'`, `(`, `)` and `*`; the two agree exactly
  on the strings without these (`UrlCoding.SameAsComponentIff`).
* `Sonyflake::nextId` speaks of 39 bits of time (include/ws/core/Sonyflake.h:46) but shifts the tick
  into 40.
* `writeFromBuffer` speaks of 1k pieces (wsNetwork/src/ServerSocket.cpp:603) but offers 4096 bytes.

Some properties one might expect are false of the code. Each is stated with the condition under
which it does hold:

* A delay of no ticks is due at once, except when it is added between dispatch and `++tick`: then it
  is due 256 ticks late (`TimerSpec.DueIsExact`).
* `remove` stops a callback that is already queued exactly when the schedule is still live; the last
  firing of a counted schedule can no longer be stopped (`TimerSpec.RemoveStopsQueuedIffLive`).
* A length-prefixed string survives a `RingBuffer` exactly when its length is 1 to 65535, or it is
  empty and nothing follows it (`RingBuffers.FrameRoundTrip`). The prefix is the length modulo 65536:
  a longer string is cut, and with a zero prefix and anything behind it the read has no defined
  result (`RingBuffers.LongFrameIsCut`, `RingBuffers.FrameUndefined`, `RingBuffers.FrameOf65536`).
* A socket that takes all it is offered empties the writer buffer exactly when fewer than 2^32 bytes
  are pending: the count is kept in 32 bits, and what is over a multiple of 2^32 is all that one
  flush sends (`OutgoingStream.FlushTakesAll`).
* `DBQueue`'s destructor delivers everything whenever nothing is added after it has seen an empty
  queue; what is added later may be lost (`DBQueueProtocol.DestroyedMeansDelivered`,
  `DBQueueProtocol.LateRequestIsLost`). From then on delivery is certain exactly when no more requests
  are queued than there are workers between finding isExit false and asking for a request
  (`DBQueueProtocol.DeliveryIsCertainIff`).

## Model

| member | source | states |
|---|---|---|
| TimerWheel.Interleave | wsCore/src/Timer.cpp:5-130 | for any sequence of addTimeCall, remove, steps of update and worker steps on a new timer, with fewer than 2^32-1 accepted additions and any number of ticks: the run follows the calls one by one; an accepted addition of m milliseconds fires at exactly the ticks it asks for, up to the first later removal of its id: the multiples of m/10 after the tick of the call within its count, for a one-shot below 10 ms one tick, and none from 2^32 ticks on; the ids returned are the serials; and no firing of a schedule that is not removed is lost or run twice |
| TimerWheel.CallFires | wsCore/src/Timer.cpp:5-130 | the firing ticks of the i-th call, in milliseconds and in terms of the calls alone |
| TimerWheel.BirthAsks | wsCore/src/Timer.cpp:132-155 | the deadlines a schedule gets are what its call asks for, in each of the four ranges of the interval |
| TimerSpec.TicksOfMs | wsCore/src/Timer.cpp:134 | an interval counts for its whole tens of milliseconds, rounded toward zero |
| TimerWheel.Tally | wsCore/src/Timer.cpp:49-62 | the tick, the dispatches done and the ids given out are counts over the calls: of every three worker steps the first dispatches and the second ticks |
| TimerWheel.Perform | wsCore/src/Timer.cpp:5-130 | the calls on the object: each is the flat operation that follows it, returns the id or 0, and the callbacks run are those the flat timer runs, in order |
| TimerSpec.FiringsOf | wsCore/src/Timer.cpp:5-29 | in every run, the schedule added at step i fires at t if and only if t is one of its deadlines and no later removal of its id comes before the dispatch of t |
| TimerSpec.FiringsOfAny | wsCore/src/Timer.cpp:5-29 | the same for every accepted interval, with the deadlines the schedule was created with |
| TimerSpec.RemovedBy | wsCore/src/Timer.cpp:19-29 | a schedule that is removed was removed by a call with its id, and is cut off from that moment |
| TimerSpec.SilentWhenDead | wsCore/src/Timer.cpp:110-130 | a schedule that is removed or used up never fires again |
| TimerSpec.AddedFiresExactly | wsCore/src/Timer.cpp:5-17 | a schedule added at tick t0, at any point of any run, with an interval of d = 1 to 2^32-1 ticks fires at tick t if and only if t = t0 + j*d for a j from 1 within its count and t is before its removal |
| TimerSpec.AddedFiresCount | wsCore/src/Timer.cpp:110-130 | a count of n gives exactly n firings once the last deadline has passed |
| TimerSpec.DispatchesCounted | wsCore/src/Timer.cpp:110-130 | before every tick, the number of dispatches equals the number of deadlines passed |
| TimerSpec.PeriodicExactness | wsCore/src/Timer.cpp:110-136 | in every run the ticks at which a schedule was dispatched are its deadlines, cut off by its removal, also for one-shots below one tick and for negative counts |
| TimerSpec.RunKeepsInv | wsCore/src/Timer.cpp:5-130 | the invariant of the flat timer holds in every run: each schedule has fired at its past deadlines, is live with its next one, is removed, or is finished |
| TimerSpec.InvKept | wsCore/src/Timer.cpp:5-130 | every single step keeps that invariant |
| TimerSpec.DueIsExact | wsCore/src/Timer.cpp:132-140 | of the effective deadline `DueOf`, by which `TimerWheel.Timer.Insert` places an item: it is now + interval if and only if the interval is 1 to 2^32-1 ticks, or is zero and the current tick has not been dispatched; else a zero interval is 256 ticks late |
| TimerSpec.CancelledNeverRuns | wsCore/src/Timer.cpp:19-45 | in every run after a removal the removed schedule's callback does not run again |
| TimerSpec.RemoveSilences | wsCore/src/Timer.cpp:19-29 | removing a live id stops its callback for good, pending dispatches included, also between two callbacks of one update |
| TimerSpec.RemoveStopsQueuedIffLive | wsCore/src/Timer.cpp:19-45 | removing an id stops a callback that is queued, or swapped out by a running update and not reached yet, if and only if the schedule is still live |
| TimerSpec.NoFiringLost | wsCore/src/Timer.cpp:31-45 | in every run, dispatches of a schedule that is not removed equal callbacks run plus callbacks pending |
| TimerWheel.SlotOfIndex | wsCore/src/Timer.cpp:89-108 | truncating a deadline to 32 bits changes no slot number taken from it |
| TimerWheel.WindowIsShift | wsCore/src/Timer.cpp:97-98 | the window of a tick at level i is the tick divided by 2^(8+6i), for the four levels |
| TimerWheel.WindowAdvances | wsCore/src/Timer.cpp:65-87 | `++tick` moves on to a new window at exactly the levels that `Opens` names |
| TimerWheel.OpensIsMultiple | wsCore/src/Timer.cpp:65-87 | a level opens if and only if 2^(8+6i) divides the tick |
| TimerWheel.VisitedLevels | wsCore/src/Timer.cpp:71-84 | stopping at the first index that is not zero visits exactly the levels whose width divides the tick |
| TimerWheel.CarryIsCascade | wsCore/src/Timer.cpp:65-108 | emptying those slots level by level moves exactly the items whose window begins now, all of them down |
| TimerWheel.CarryStops | wsCore/src/Timer.cpp:80-83 | once the carry stops, no higher level begins a window |
| TimerWheel.FarFits | wsCore/src/Timer.cpp:140-154 | the far slot chosen for an interval holds its item until that slot's window opens, 1 to 64 windows ahead, also while `++tick` has run and expand has not |
| TimerWheel.BeyondWheels | wsCore/src/Timer.cpp:143-153 | the level loop finds no wheel if and only if the interval is 2^32 ticks or more |
| TimerWheel.Carried | wsCore/src/Timer.cpp:89-108 | in an opened window the slot number one level down is the number of windows the item is ahead, so index 0 means further down |
| TimerWheel.StaysAhead | wsCore/src/Timer.cpp:73-79 | an item of a level outside the walked slot is still at least one window ahead |
| TimerWheel.CarryDone | wsCore/src/Timer.cpp:65-87 | when the carry stops, every item on every level lies where its deadline says for the new tick |
| TimerWheel.CurrentSlot | wsCore/src/Timer.cpp:110-116 | the current near slot holds exactly the items due now |
| TimerWheel.PushKeepsLinks | wsCore/src/Timer.cpp:93-105 | pushing into a slot other than the walked one keeps every item in exactly one slot, once |
| TimerWheel.ClearDone | wsCore/src/Timer.cpp:75-79 | clearing a slot that has been walked to its end loses no item |
| TimerWheel.FireOneMore | wsCore/src/Timer.cpp:114-127 | a dispatch that fires one more due schedule has fired one more of the flat timer's due set |
| TimerWheel.Timer.constructor | include/ws/core/Timer.h:73-84 | a new timer is the empty flat timer at tick 0 |
| TimerWheel.Timer.Insert | wsCore/src/Timer.cpp:132-155 | the item goes into one slot that fits its effective deadline, which for m = 10 ms up to 2^32 ticks is the current tick plus m/10, and never into the list being dispatched; an interval of 2^32 ticks or more goes nowhere |
| TimerWheel.Timer.InsertFar | wsCore/src/Timer.cpp:140-154 | the level loop places every interval of 256 to 2^32-1 ticks and no other |
| TimerWheel.Timer.Move | wsCore/src/Timer.cpp:89-108 | an item of an opened window moves to a lower slot that fits the new tick, not into the list being walked |
| TimerWheel.Timer.OpenWindow | wsCore/src/Timer.cpp:73-79 | emptying one far slot moves all its items down and no other item, conserves all deadlines and puts the level in order for the new tick |
| TimerWheel.Timer.CarryUp | wsCore/src/Timer.cpp:67-85 | visits exactly the levels whose width divides the tick, moves down the items of their current slots and no others, and puts all levels in order |
| TimerWheel.Timer.Expand | wsCore/src/Timer.cpp:65-87 | expand is invisible in the flat timer: all items stay with their deadlines, those whose window begins now move down, and no other moves |
| TimerWheel.Timer.Advance | wsCore/src/Timer.cpp:58-59 | the 32-bit `++tick` is one step of the unbounded clock |
| TimerWheel.Timer.Dispatch | wsCore/src/Timer.cpp:110-130 | one dispatch queues each live schedule due at this tick once and no other, re-arms those that repeat and drops those used up |
| TimerWheel.Timer.Rearm | wsCore/src/Timer.cpp:119-127 | the countdown: -1 repeats for ever, other counts go down by one, and the item is due one interval later or leaves the table |
| TimerWheel.Timer.AddTimeCall | wsCore/src/Timer.cpp:5-17 | returns the next id and books the schedule, due m/10 ticks on for m = 10 ms up to 2^32 ticks; or returns 0 and changes nothing when the callback is null, the count is 0, or a repeating interval is below 10 ms |
| TimerWheel.Timer.Remove | wsCore/src/Timer.cpp:19-29 | removes exactly the live schedule with that id, if there is one, from table and flat timer and drops its callback |
| TimerWheel.Timer.BookedUnder | wsCore/src/Timer.cpp:22-28 | an id is in the table if and only if one live schedule has it |
| TimerWheel.Timer.IndexAgreement | wsCore/src/Timer.cpp:5-29 | in every state between steps an id is in the table with an interval below 2^32 ticks if and only if some slot holds a schedule with that id and a nonzero count; then only one slot does, once, and it is the table's schedule |
| TimerWheel.Timer.LiveItem | wsCore/src/Timer.cpp:114-127 | an item in the wheels whose count is not zero is the table's entry for its id, with the flat timer's deadline, period and count |
| TimerWheel.Timer.Update | wsCore/src/Timer.cpp:31-45 | when nothing comes in between, runs the queued callbacks that have not been removed, in order, and empties the queue |
| TimerWheel.Timer.SwapOut | wsCore/src/Timer.cpp:33-37 | the locked part of update: the whole queue goes to its local list, and the queue is empty |
| TimerWheel.Timer.RunNext | wsCore/src/Timer.cpp:38-44 | one turn of its loop, at any later time: the callback runs if and only if the schedule has not been removed by then |
| TimerWheel.Timer.CatchUp | wsCore/src/Timer.cpp:49-62 | each turn works off the elapsed ticks one by one: afterwards the tick is the number of whole 10 ms since the start, so tick t is worked off in the first turn at or after start + 10 ms * (t + 1), and the clock does not drift |
| TimerWheel.FiringTime | wsCore/src/Timer.cpp:52-60 | the n-th firing of m milliseconds comes n times m, rounded down to tens, after the tick of its addition |
| TimerWheel.FreshId | wsCore/src/Timer.cpp:11 | fewer than 2^32-1 additions never reuse an id |
| AStarSearch.AStar.FindPath | wsCore/src/AStar.cpp:53-171 | true with an empty path if and only if start is end; a nonempty path is a sound path within w of every path, and one that a least-first search finds in fewer than maxCount turns; false below the limit means there is no path; false at the limit means that exactly maxCount cells were expanded least first and the end was not reached; with maxCount >= width*height the limit is never hit and the answer is exact |
| AStarSearch.AStar.RunSearch | wsCore/src/AStar.cpp:101-168 | the main loop from a prepared search: the end reached within the limit by a near-shortest path, no path when it ends below the limit, or maxCount least-first expansions without reaching the end |
| AStarSearch.AStar.Visit | wsCore/src/AStar.cpp:125-167 | one turn closes exactly one more cell, keeps the search in order and leaves fewer cells closed than the map has |
| AStarSearch.AStar.ExpandNode | wsCore/src/AStar.cpp:125-167 | the neighbour loops over the mutable nodes follow the value-level expansion of the cell |
| AStarSearch.AStar.LookAt | wsCore/src/AStar.cpp:141-165 | a neighbour is discovered, given a better parent, or left alone, with g != 0 standing for discovered |
| AStarSearch.AStar.PopOpen | wsCore/src/AStar.cpp:33-51 | returns a node with the least f among all discovered nodes that are not closed, despite stale heap items, or null only when there is none |
| AStarSearch.AStar.PushOpen | wsCore/src/AStar.cpp:26-31 | adds one entry with the node's f to the heap |
| AStarSearch.AStar.GetNode | wsCore/src/AStar.cpp:187-217 | null exactly off the store; a node last used by an earlier search is cleared on its first look, and one of this search keeps its fields |
| AStarSearch.AStar.LookUpEnds | wsCore/src/AStar.cpp:87-93 | before any other look both ends are cleared nodes of this search, and no other node has been touched |
| AStarSearch.AStar.BeginSearch | wsCore/src/AStar.cpp:87-99 | whatever earlier searches and map sizes left in the nodes, the store then stands for a search in which nothing is discovered but the start |
| AStarSearch.AStar.NextGeneration | wsCore/src/AStar.cpp:69-76 | after the counter has gone on, also through its overflow, no node carries the new generation |
| AStarSearch.AStar.ResizeMap | wsCore/src/AStar.cpp:173-185 | the store grows to the least number of chunks of 1024 that holds the map, never shrinks, and keeps its nodes |
| AStarSearch.AStar.Trace | wsCore/src/AStar.cpp:115-122 | following the parents terminates at the start and collects the trail without the start |
| AStarSearch.NodesDistinct | wsCore/src/AStar.cpp:189-198 | different cells of the map have different nodes |
| PathSearch.LeastIsBounded | wsCore/src/AStar.cpp:101-168 | the cell with the least key has a g of at most w times the cost of any path to it, although closed cells are never reopened |
| PathSearch.EndPopped | wsCore/src/AStar.cpp:111-122 | when the end is popped its g is at most w times the cost of any path; least for a consistent estimate |
| PathSearch.Exhausted | wsCore/src/AStar.cpp:103-105 | an empty heap with the end not closed means no 8-connected path exists |
| PathSearch.ClosedIsReachable | wsCore/src/AStar.cpp:125-167 | once every discovered cell is closed, every path from the start stays in the closed cells |
| PathSearch.ClosedFewerThanMap | wsCore/src/AStar.cpp:101 | while the end is not closed, fewer cells are closed than the map has |
| PathSearch.Trail | wsCore/src/AStar.cpp:115-122 | the parents of a cell form a path from the start whose cost is the cell's g |
| PathSearch.PopLive | wsCore/src/AStar.cpp:33-51 | the live item with the least f belongs to the cell with the least key, and closing it keeps one live entry for every other open cell |
| PathSearch.DropStale | wsCore/src/AStar.cpp:43-47 | skipping a stale item keeps one live entry for every open cell |
| PathSearch.RelaxKeepsOpen | wsCore/src/AStar.cpp:148-164 | a better parent leaves the old entry stale and adds the one live entry |
| PathSearch.RelaxKeepsTree | wsCore/src/AStar.cpp:141-165 | parents stay closed, one step away, with g the parent's g plus the step |
| PathSearch.ExpandKeeps | wsCore/src/AStar.cpp:125-167 | expanding the popped cell keeps tree, heap, bound and completeness, and closes that cell only |
| PathSearch.PoppedMore | wsCore/src/AStar.cpp:101-168 | each turn of the main loop is one step of a search that closes an open cell with the least key |
| PathSearch.PoppedCloses | wsCore/src/AStar.cpp:101-124 | a search of n turns has closed n cells, those it expanded |
| PathSearch.PathMeans | wsCore/src/AStar.cpp:125-139 | a path in coordinates: each cell after the first is in the map, not blocked and one of the eight neighbours of the one before |
| PathSearch.CostMeans | wsCore/src/AStar.cpp:146 | the cost of a path adds up the cost function from each cell to the next |
| PathSearch.ConsistentMeans | wsCore/src/AStar.cpp:159 | consistency in the caller's terms: the estimate from a cell to the end, the cost from a cell to its neighbour |
| PathSearch.LiveIsLeast | wsCore/src/AStar.cpp:33-51 | a live heap item with the least f belongs to a cell with the least key |
| PathSearch.IndexInjective | wsCore/src/AStar.cpp:189 | y * width + x is different for different cells of the map |
| AStarDefaults.DefaultPathBound | include/ws/core/AStar.h:86-100 | with the built-in estimate and cost a returned path costs at most 2/1.414 of any path |
| AStarDefaults.DefaultConsistency | include/ws/core/AStar.h:86-100 | the built-in estimate drops by at most 2/1.414 of the cost of a step |
| AStarDefaults.DefaultConsistentIff | include/ws/core/AStar.h:86-100 | it is consistent if and only if the map allows no diagonal move toward the end between open cells |
| AStarDefaults.DefaultsMissShortestPath | include/ws/core/AStar.h:86-100 | a map on which every least-first search comes to the end with 6.242 although a path costs 5.656 |
| AStarDefaults.DetourCost | wsCore/src/AStar.cpp:101-168 | on that map no least-first search has another answer |
| AStarDefaults.FindDetour | wsCore/src/AStar.cpp:53-171 | findPath itself, without callbacks, on that map: it finds a path of cost 6.242 although there is one of cost 5.656 |
| AStarDefaults.FindWithDefaults | wsCore/src/AStar.cpp:53-171 | findPath without callbacks: it finds a path if and only if there is one, within 2/1.414 of every path, and a shortest one when no diagonal move toward the end is possible |
| AStarDefaults.DefaultCostsPositive | include/ws/core/AStar.h:93-100 | the built-in costs are positive, as findPath asks |
| AStarDefaults.ForcedIsPopped | wsCore/src/AStar.cpp:33-51 | where one open cell has the strictly least key, the least live item, which popOpen returns, is that cell's |
| RingBuffers.RunAll | wsCore/src/RingBuffer.cpp:15-78 | any sequence of writes, reads and expansions on a new buffer behaves as a first-in first-out queue, and the bytes read followed by the bytes left are the bytes written |
| RingBuffers.QueueAfterRead | wsCore/src/RingBuffer.cpp:20-24 | in every run a read with length 0 takes everything, and one with a length takes that much or what there is |
| RingBuffers.QueueConserves | wsCore/src/RingBuffer.cpp:15-78 | in every run nothing is lost, duplicated or reordered |
| RingBuffers.RingRead | wsCore/src/RingBuffer.cpp:27-32 | a read takes the front of the queue from the end of the block and then from its start, and the moved position leaves the rest |
| RingBuffers.OutCopied | wsCore/src/RingBuffer.cpp:27-30 | the two copies put that front at the front of the target and leave the rest of the target alone |
| RingBuffers.RingWrite | wsCore/src/RingBuffer.cpp:72-77 | the two copies of a write append to the queue, across the end of the block |
| RingBuffers.RingGrow | wsCore/src/RingBuffer.cpp:46-57 | growing keeps the queue; a wrapped tail moved to the new end joins it again |
| RingBuffers.RingBuffer.ReadData | wsCore/src/RingBuffer.cpp:15-35 | returns 0 for a null target, else moves n bytes, everything when n is 0 or more than there is, from the front of the queue, and touches no other byte of the target |
| RingBuffers.RingBuffer.WriteData | wsCore/src/RingBuffer.cpp:61-78 | appends exactly the given bytes; the capacity stays when they fit and else doubles until they do |
| RingBuffers.RingBuffer.Expand | wsCore/src/RingBuffer.cpp:37-59 | the contents stay the same; the capacity doubles until it is at least `size` |
| RingBuffers.RingBuffer.Used | include/ws/core/RingBuffer.h:60-65 | the length of the queue |
| RingBuffers.RingBuffer.Available | include/ws/core/RingBuffer.h:67-70 | one slot always stays free, so full and empty differ |
| RingBuffers.RingBuffer.Truncate | include/ws/core/RingBuffer.h:73-82 | empties the queue; the capacity is 4096 again when asked for |
| RingBuffers.RingBuffer.WriteString | include/ws/core/RingBuffer.h:158-164 | appends the length modulo 65536 in two bytes and the whole string |
| RingBuffers.RingBuffer.ReadString | include/ws/core/RingBuffer.h:122-128 | takes the prefix and then as many bytes as it says, or as there are, wherever the code has a defined result |
| RingBuffers.FrameRoundTrip | include/ws/core/RingBuffer.h:122-164 | a framed string is read back and nothing else touched if and only if its length is 1 to 65535, or it is empty and nothing follows it |
| RingBuffers.FrameUndefined | include/ws/core/RingBuffer.h:122-128 | the read has no defined result if and only if the length is a multiple of 65536 and anything follows the prefix |
| RingBuffers.FrameOf65536 | include/ws/core/RingBuffer.h:158-164 | so a string of 65536 bytes is never read back, even alone |
| RingBuffers.LongFrameIsCut | include/ws/core/RingBuffer.h:158-164 | any other longer string is cut to its length modulo 65536, and its rest stays in the buffer |
| RingBuffers.FramesRoundTrip | include/ws/core/RingBuffer.h:122-164 | any number of strings of 1 to 65535 bytes are read back in order |
| OutgoingStream.Interleave | wsNetwork/src/ServerSocket.cpp:594-623 | for any interleaving of sends and flushes: the bytes on the wire are as many as the sockets' answers accepted and are the front of the bytes enqueued, the buffer holds the rest with the read position at 0 between calls, and the client is closing if and only if some flush failed |
| OutgoingStream.Client.Send | wsNetwork/src/ServerSocket.cpp:24-28 | appends to what is enqueued |
| OutgoingStream.Client.WriteFromBuffer | wsNetwork/src/ServerSocket.cpp:594-623 | exactly what the socket has accepted leaves the buffer and is on the wire; the client is closed if and only if a call fails for another reason than a full socket |
| OutgoingStream.FlushedAtMost | wsNetwork/src/ServerSocket.cpp:603-621 | a flush never gets rid of more than is pending |
| OutgoingStream.FlushedStep | wsNetwork/src/ServerSocket.cpp:603-621 | one call: a full socket ends the flush, another error closes the client, a short answer ends it with what was taken, and a full one goes on |
| OutgoingStream.OfferSize | wsNetwork/src/ServerSocket.cpp:605 | each call offers what is pending, at most 4096 bytes |
| OutgoingStream.FlushTakesAll | wsNetwork/src/ServerSocket.cpp:598-621 | a socket that takes all it is offered gets everything up to a multiple of 2^32 bytes, as the count is kept in 32 bits |
| ByteArrays.ByteArray.WriteData | wsCore/src/ByteArray.cpp:140-148 | appends exactly the given bytes; the capacity doubles until they fit |
| ByteArrays.ByteArray.ReadData | wsCore/src/ByteArray.cpp:90-105 | takes min(n, pending) bytes from the read position, all when n is 0 |
| ByteArrays.ByteArray.Expand | wsCore/src/ByteArray.cpp:122-138 | keeps the contents; the capacity doubles until it is at least `size` |
| ByteArrays.ByteArray.Seek | include/ws/core/ByteArray.h:83-93 | moves the read position inside the data; a move past either end, the front included, lands at the write position |
| ByteArrays.ByteArray.CutHead | wsCore/src/ByteArray.cpp:188-218 | what is cut off followed by what is left is what was there, and the read position keeps its place |
| ByteArrays.ByteArray.CutTail | wsCore/src/ByteArray.cpp:246-271 | what is left followed by what is cut off is what was there, and the read position stays inside |
| DBQueueProtocol.RequestsConserved | wsDatabase/src/Database.cpp:657-765 | for any number of workers and any interleaving, every added request is in exactly one of queued, in flight, finished, being delivered and delivered, and onRequest runs once and before the only onFinish |
| DBQueueProtocol.InvKept | wsDatabase/src/Database.cpp:657-765 | every single step keeps that, that the destructor's empty queue stays empty unless something is added, and that after its last update nothing is left in the finish queue |
| DBQueueProtocol.DestroyedMeansDelivered | wsDatabase/src/Database.cpp:657-673 | when the destructor has returned, the requests not delivered are exactly those in the work queue, and none if nothing was added after it saw the queue empty |
| DBQueueProtocol.DeliveryIsCertainIff | wsDatabase/src/Database.cpp:657-765 | once the destructor has seen an empty queue, and with nothing more added, every way the threads may go delivers everything if and only if the queued requests are no more than the workers about to ask for one |
| DBQueueProtocol.CoveredRun | wsDatabase/src/Database.cpp:724-749 | each request taken uses up one such worker, so the inequality holds to the end |
| DBQueueProtocol.LeftBehind | wsDatabase/src/Database.cpp:665-672 | otherwise there is a run in which the destructor returns and requests are left |
| DBQueueProtocol.LateRequestIsLost | wsDatabase/src/Database.cpp:657-673 | a run in which a request added after that is never delivered |
| DBQueueProtocol.SingleWorkerIsFifo | wsDatabase/src/Database.cpp:737-765 | in every run in which no two workers exist at once, onFinish is called in the order of addRequest |
| DBQueueProtocol.InLineKept | wsDatabase/src/Database.cpp:675-765 | every step keeps delivered, finished, in-hand and queued requests in one line |
| DBQueues.DBQueue.AddRequest | wsDatabase/src/Database.cpp:700-705 | is the Add step |
| DBQueues.DBQueue.GetRequest | wsDatabase/src/Database.cpp:724-735 | is the Take step and returns the oldest request, or none when there is none |
| DBQueues.DBQueue.GetQueueLength | include/ws/database/Database.h:565 | the length of the work queue |
| DBQueues.DBQueue.WorkRound | wsDatabase/src/Database.cpp:743-764 | a turn that is not interrupted runs onRequest on the oldest request and queues it as finished, or stops |
| DBQueues.DBQueue.Update | wsDatabase/src/Database.cpp:708-722 | calls onFinish on all finished requests in order and leaves none |
| DBQueues.DBQueue.FinishRequest | wsDatabase/src/Database.cpp:762-763 | is the Finish step |
| DBQueues.DBQueue.SwapOut | wsDatabase/src/Database.cpp:710-716 | is the Swap step: the finished requests go to the caller |
| DBQueues.Interleave | wsDatabase/src/Database.cpp:657-765 | in every interleaving of all threads the object goes where the protocol goes, each thread with its own local request |
| Sonyflakes.Sonyflake.Generate | include/ws/core/Sonyflake.h:28-48 | over every run with a clock that does not go back and ticks below 2^40 the ids strictly increase, carry the machine id, and each holds a tick the clock has shown during the run |
| Sonyflakes.Sonyflake.NextId | include/ws/core/Sonyflake.h:28-48 | the tick is that of the last clock reading, and one reading is enough unless the 256 ids of a tick are used up; the sequence counts the ids of a tick from 0; tick and sequence move on in lexicographic order |
| Sonyflakes.Sonyflake.WaitNextTick | include/ws/core/Sonyflake.h:78-102 | ends at the first reading that has reached the time asked for |
| Sonyflakes.ComposeDecodes | include/ws/core/Sonyflake.h:46-47 | machine and sequence can always be read back, the tick if and only if it is below 2^40 |
| Sonyflakes.ComposeIncreases | include/ws/core/Sonyflake.h:46-47 | below 2^40 ids are ordered as their ticks and sequences |
| Sonyflakes.MachinesNeverCollide | include/ws/core/Sonyflake.h:46-47 | equal ids have equal machine ids |
| StringSplit.JoinOfSplit | include/ws/core/String.h:47-100 | join(split(s, sep), sep) = s for every s and every nonempty sep |
| StringSplit.PiecesAreClean | include/ws/core/String.h:57-71 | no piece contains the separator |
| StringSplit.PiecesAtFirstMatch | include/ws/core/String.h:57-72 | the first piece ends at the first match and the rest are the pieces of what follows it |
| StringSplit.PiecesWithoutMatch | include/ws/core/String.h:42-46 | a string without a match is its own only piece |
| StringSplit.Split | include/ws/core/String.h:47-73 | the copying overload appends the pieces to the output, nothing exactly for the empty string |
| StringSplit.SplitInPlace | include/ws/core/String.h:15-40 | the in-place overload yields, as C strings in the cut-up block, the same pieces, nothing exactly for the empty string |
| StringSplit.CutUp | include/ws/core/String.h:24-39 | its loop over a string that is not empty |
| StringSplit.Join | include/ws/core/String.h:76-100 | computes the joined string |
| StringSplit.JoinedAt | include/ws/core/String.h:76-100 | for any glue, the empty one included: every piece at its place, the glue behind each but the last, and nothing else |
| UrlCoding.DecodeOfEncode | wsCore/src/String.cpp:172-221 | every byte string's encoding is complete, and decoding it gives the string back |
| UrlCoding.UrlRoundTrip | wsCore/src/String.cpp:172-221 | URLDecode(URLEncode(b)) = b for every byte string, whatever lies behind it in memory |
| UrlCoding.DecodedWithin | wsCore/src/String.cpp:205-221 | when every triplet is complete, what lies behind the input does not matter |
| UrlCoding.CutTriplet | wsCore/src/String.cpp:205-221 | a C string that ends in '%' and one character is decoded with the terminator as the digit 0 |
| UrlCoding.EncodedIsPercentEncoded | wsCore/src/String.cpp:172-194 | the output holds only unreserved characters and '%' with two upper-case hex digits |
| UrlCoding.UnreservedCharacters | wsCore/src/String.cpp:182 | the characters left alone are the letters, the digits and - _ . ~ |
| UrlCoding.SameAsComponentIff | include/ws/core/String.h:176-177 | URLEncode agrees with encodeURIComponent if and only if none of ! ' ( ) * occurs |
| UrlCoding.EncodeOfDecode | wsCore/src/String.cpp:172-221 | encoding the decoded form of percent-encoded text gives it back if and only if no triplet stands for an unreserved character |
| UrlCoding.EncodeInjective | wsCore/src/String.cpp:172-194 | different byte strings have different encodings |
| UrlCoding.URLEncode | wsCore/src/String.cpp:172-194 | the loop computes the encoding |
| UrlCoding.URLDecode | wsCore/src/String.cpp:205-221 | the loop computes the decoding of every input that it can read without leaving the block that holds it |
| UrlCoding.HexValues | wsCore/src/String.cpp:196-203 | every hex digit has its value in either case, every other character counts as 0 |
| UrlCoding.TripletAnyCase | wsCore/src/String.cpp:205-221 | a triplet decodes to its byte in upper, lower and mixed case |
| UrlCoding.CaseDoesNotMatter | wsCore/src/String.cpp:205-221 | writing the digits of all triplets in upper case does not change what a string decodes to |

## Left out

- TimerWheel.Timer.AddTimeCall: requires that the id it is about to hand out is not in use, which holds for the first 2^32-1 additions, and excludes the count -2^31, whose decrement overflows.
- TimerWheel.Timer.Dispatch: states that each due schedule is queued once, not in which order; the order of the lists is left to the step's parameter.
- TimerWheel.Timer.RunNext: the callbacks themselves are not modelled; one that calls back into the timer counts as a later call, and one that calls update while update is running is left out.
- TimerWheel.Interleave: stated for fewer than 2^32-1 accepted additions, so that ids do not wrap; the number of calls and ticks is not limited.
- TimerWheel.Timer.CatchUp: the sleep and the exit flag are left out; the clock reading is a parameter that has not gone back, and the number of outstanding ticks is not cut to an int.
- AStarSearch.AStar.PopOpen: push_heap and pop_heap are taken by their contract; any least item may come out.
- AStarSearch.AStar.FindPath: an endpoint outside the map is covered where its index is off the node store, not where it aliases the node of another cell; width*height is below 2^31; costs are positive, as g = 0 means undiscovered; sums of doubles are exact; the userdata argument and the uint32 casts of isBlock are left out.
- RingBuffers.RingBuffer.ReadString: a zero length prefix with bytes behind it is excluded, as the code would then copy all of them into an empty string; RingBuffers.Unframe is None there.
- RingBuffers.RingBuffer.ReadData: the caller's block is large enough for what is taken.
- RingBuffers.RingBuffer.WriteString: the two bytes of the length are in little-endian order, which the code leaves to the host.
- ByteArrays.ByteArray.WriteData: sizes stay below half of the 64-bit range, so the doubling does not overflow; read-only and attached buffers, and the number, string and hex operators, are left out.
- ByteArrays.ByteArray.CutHead: the cut bytes are returned; the overload that writes them to another buffer is left out.
- UrlCoding.URLDecode: a '%' whose two characters would lie outside the memory block is excluded, such as one that is the last character of a C string.
- UrlCoding.URLEncode: isalnum is that of the C locale.
- StringSplit.Split: the separator is not empty, with which the code does not terminate; strings are C strings.
- Sonyflakes.Sonyflake.WaitNextTick: the clock is an oracle that passes every time some day; sleeping and yielding are left out, and the machine id is not changed during a run.
- DBQueues.DBQueue.WorkRound: a turn that no other thread interrupts; interleaved turns are in DBQueues.Interleave. Connecting to the database and the bodies of onRequest and onFinish are foreign; setThread and the destructor exist as steps of the protocol only.
- Allocation failure, and the copy and move constructors of the buffers.
- Threads: each locked region is one atomic step; data races on plain fields are not modelled.
- Sockets, epoll, kqueue, IOCP, MySQL, curl and OpenSSL; only the result of a send call appears, as an oracle.
- The life cycle of server clients and the connection limit, which is refreshed only once per update.
- EventDispatcher, which changes the sort key of elements inside a set.
- Profiler, call stacks, TimeTool, random, vector maths, HttpClient, ObjectPool, trims, digit counting and next power of two: thin wrappers or easy members.
