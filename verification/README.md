# Verification of the trading system's core

This project models the stateful core of a low-latency trading system and proves what its parts
promise each other. Each component is modelled in the form it has in the program: objects that are
updated in place are classes over arrays, probe loops are loops with a termination proof, pure
encoders are functions, and threads are state machines over their atomic steps.

`dafny verify dfyconfig.toml` checks everything.

## What is proved

**Order book** (`OrderBook.dfy`, over `BookMemory`, `PoolLists`, `Probing`). One object holds a node
pool with a free list, an open-addressing id map with tombstones, two price-indexed arrays of
intrusive FIFO lists, and a running volume per level; one `next` field serves both the free list and
the levels. The abstract book (`BookSpec`) is a map from ids to orders and one sequence of ids per
side and price. Every `add`, `cancel` and `modify` refines it, over whole runs (`BookHistory`), with
the same results. Runs keep time priority: every queue is strictly sorted by the time at which each
order was added or last increased (`BookRuns`). Volumes are exact modulo 2^64, and exact without the
modulus when quantities and the number of orders are at most 32 bits wide.

*A result about termination.* The source's comments and documentation say that probing chains stay
short because the map is at most half full. But erased slots never become empty again, and a lookup
of an absent id stops only at an empty slot. `LookupTerminates` gives the exact condition: a lookup
ends if and only if its id is resting or an empty slot is left. That is certain while fewer than
2 * `max_orders` additions have succeeded since construction, and `SpendAllSlots` shows that the
bound is tight: 2 * `max_orders` additions, each cancelled at once, leave an empty book in which no
lookup of any id ever returns. The precondition `LookupHalts` of the book's methods is the
termination of the source's `while (true)` loop, stated on its iterates. The insertion loop that
`add` runs always ends.

**Naive book** (`NaiveBook.dfy`). The repository's simple book, over ordered maps of lists with stored
iterators, agrees with the optimised one in results and queues on every run within the optimised book's
limits. Its iterators are always valid: each names the list node of its own order.

**Feed replay** (`FeedReplay.dfy`). The matching thread's message switch is a fold over the book. For every
feed on a fresh book, an order rests at the end if and only if some message added it, when its id was not
resting and the book had room, and the rest of the feed neither deletes it nor reduces it to nothing; it
then has the shares added there less all later executions and cancellations. Ids may be added again
after removal, or in vain while resting. No message ever changes who is ahead of whom. Through the ring
buffer, in every interleaving, the book holds the fold of what was popped, and the fold of everything
pushed once the ring is empty.

**Ring buffer** (`Spsc.dfy`). `push` and `pop` are split into their atomic steps and interleaved
arbitrarily, and an acquire load may return any value of the other index that is not older than the
last one that thread saw. The queue is FIFO, never holds more than capacity - 1 items, and never lets
the two threads touch one slot at once. Seen as a whole it is an atomic queue whose failing pops may miss
what was just pushed (`StepRefinesQueue`), and that is what the feed and the logger are proved over. The
imperative `Push` and `Pop` are the same steps with nothing in between.

**Execution management** (`Ems.dfy`, `EmsSpec.dfy`). The second map has no tombstones and marks an empty
slot by key 0 and state `NONE`; it refines a map for all ids, including 0. The life cycle is taken from
the code, which differs from the documented diagram
(docs-site/docs/uml/statemachine_diagram.md:57-76): rejection and cancellation have no guard on the
state, fills are taken in `PENDING_NEW`, and `FILLED` is not final (`FilledIsNotFinal`;
`FilledStaysWhen` gives the exact condition under which one event leaves it). Entries are never freed,
so `max_orders` bounds the orders ever sent, by 2 * `max_orders`, not those tracked at the same time
(include/EMS.hpp:33); `FillTable` reaches that bound with orders that are all rejected, after which
no lookup of an unknown order returns.

**Risk and order sending** (`Risk.dfy`, `Strategy.dfy`). One thread keeps the absolute position within
the limit. N threads, racing between the check and the atomic addition, keep it within the limit plus
N - 1 largest orders, even when the relaxed load in the check returns any position not older than the
last one that thread has seen; and that bound is reached whenever orders of a share are allowed at all.
So the position limit itself holds in every interleaving exactly if there is a single thread, or no order
of a share is ever allowed (`LimitHoldsWhen`). Every approved request gets a fresh id, one
table entry and one encoded message. The tokens on the wire are distinct exactly while the highest id
issued is below 10^11.

**Codecs** (`Bytes.dfy`, `Itch.dfy`, `Ouch.dfy`). Builders and parsers work in place on byte arrays with
explicit byte swapping; what is built is the message in network order, and parsing it gives the fields
back. An order survives both wires, from Enter Order through the exchange emulator's Add Order to the
message that the book consumes.

**Logger** (`Logger.dfy`, `LogRings.dfy`). In every interleaving of the logging threads with the drain loop
the file is a concatenation of whole lines within the mapping, and each thread's lines are a
duplicate-free prefix, in order, of what it logged. This is proved with atomic queue calls, and the logger
over real rings, with every push and pop split into its atomic steps, is proved to refine that
protocol. Shutdown does not drain everything: a thread's messages are all in the file exactly if it never
logged, or some poll found its queue empty after its last message; a pass of the loop entered after
that message is enough. Both are proved over the rings too, where such a poll is a pop that gives up on
an empty ring. Two runs that lose a message are given.

## Model

| member | source | states |
|---|---|---|
| Probing.ProbeReaches | src/OrderBook.cpp:98 | Stepping by one modulo the capacity reaches any given slot after exactly its distance from the home slot. |
| Probing.FindHaltsIff | src/OrderBook.cpp:106-117 | The unbounded lookup loop leaves if and only if some slot of the table stops it, and then within one round. |
| Probing.FindHaltsWhen | src/OrderBook.cpp:106-117 | In a table that represents a map, the lookup loop leaves if and only if the key is in the map or an empty slot is left. |
| Probing.FirstStop | src/OrderBook.cpp:106-117 | Where the lookup stops, an empty slot means the key is absent and a live one holds the key's value: tombstones never hide a key. |
| Probing.KeyInserted | src/OrderBook.cpp:85-100 | Inserting an absent key never meets the overwrite branch, even when it reuses a tombstone; the table then represents the extended map and has lost that one empty slot, if it was one. |
| Probing.KeyErased | src/OrderBook.cpp:119-131 | A tombstone removes its key alone and restores no empty slot. |
| Probing.InsertHasRoom | src/OrderBook.cpp:85-100 | With fewer live keys than slots some slot stops the insertion loop, so it terminates however many tombstones there are. |
| QueueLaws.OperationsKeepWf | src/OrderBook.cpp:179-244 | Every operation keeps the abstract book well formed: queues hold each resting order once, at its own level, within the order limit. |
| QueueLaws.CancelUndoesAdd | src/OrderBook.cpp:179-218 | An addition is refused exactly for a price out of range, a live id or a full book, and then changes nothing; cancelling an added order restores every order and every queue. |
| QueueLaws.TotalRemoveAt | src/OrderBook.cpp:176 | Taking an order out of a queue takes exactly its quantity off the queue's sum, wherever it stands. |
| QueueLaws.TotalResize | src/OrderBook.cpp:239-240 | Changing one quantity changes the queue's sum by the difference. |
| PoolLists.LinkLastKeeps | src/OrderBook.cpp:141-150 | Linking a node at the tail makes the list, forwards and backwards, the queue with the id appended. |
| PoolLists.UnlinkKeeps | src/OrderBook.cpp:163-174 | Unlinking the node at any position makes the list, forwards and backwards, the queue without that position. |
| PoolLists.FreePop | src/OrderBook.cpp:71-78 | Taking the first free node leaves the list of the other free nodes, whatever is written into the node. |
| PoolLists.FreePush | src/OrderBook.cpp:80-83 | Giving a node back puts it in front of the free list and nowhere else. |
| BookMemory.PoolIsPartitioned | src/OrderBook.cpp:57-83 | Each node is on the free list once and in no queue, or not free and at one place of the one queue that matches its side and price. |
| OrderBook.LimitOrderBook.NodeIsIndexedOnce | src/OrderBook.cpp:85-131 | A node is not free exactly if some live slot of the id map holds it; that slot is the only one, and its key is the id in the node. |
| BookMemory.InsertKeeps | src/OrderBook.cpp:133-153 | Appending a node keeps pool, free list, all levels and all volumes in agreement with the abstract book with the order at the tail. |
| BookMemory.RemoveKeeps | src/OrderBook.cpp:155-177 | Unlinking a node keeps all of them in agreement with the abstract book without the order in its queue. |
| BookMemory.AllocateKeeps | src/OrderBook.cpp:187-196 | Filling in a free node disturbs no level, although `next` also threads the free list. |
| BookMemory.DeallocateKeeps | src/OrderBook.cpp:214 | Overwriting `next` of an unlinked node disturbs no level and completes the free list. |
| BookMemory.AddKeeps | src/OrderBook.cpp:187-198 | Allocation, filling in and appending together lead to the memory of the abstract book after the addition. |
| BookMemory.CancelKeeps | src/OrderBook.cpp:212-214 | Unlinking and releasing together lead to the memory of the abstract book after the cancellation. |
| BookMemory.DecreaseKeeps | src/OrderBook.cpp:237-241 | The in-place branch of `modify` keeps the volume equal to the sum modulo 2^64 and every link as it was. |
| BookMemory.VolumeOfLevel | src/OrderBook.cpp:246-253 | A level's stored volume is the sum of its queue's quantities modulo 2^64, and no quantity rests at a price out of range. |
| OrderBook.LimitOrderBook.constructor | src/OrderBook.cpp:12-18 | A fresh book is valid, empty, and has only empty slots in its id map. |
| OrderBook.LimitOrderBook.InitMemoryPool | src/OrderBook.cpp:57-63 | The free list holds every node of the pool exactly once. |
| OrderBook.LimitOrderBook.LookupTerminates | src/OrderBook.cpp:106-117 | A lookup on a valid book terminates if and only if its id is resting or an empty slot is left; always before the 2 * max_orders-th addition. |
| OrderBook.LimitOrderBook.AllocateOrder | src/OrderBook.cpp:71-78 | Returns the first free node, or null and no change when there is none. |
| OrderBook.LimitOrderBook.DeallocateOrder | src/OrderBook.cpp:80-83 | The node becomes the head of the free list; no other node changes. |
| OrderBook.LimitOrderBook.MapInsert | src/OrderBook.cpp:85-100 | The loop terminates when any slot stops it and writes only the first slot on the probe path that is not live or has the key. |
| OrderBook.LimitOrderBook.MapFind | src/OrderBook.cpp:106-117 | Returns the value of the first slot on the probe path that is empty or live with the key, null for an empty one. |
| OrderBook.LimitOrderBook.MapErase | src/OrderBook.cpp:119-131 | Turns that slot into a tombstone if it is live, and changes no other slot. |
| OrderBook.LimitOrderBook.InsertOrder | src/OrderBook.cpp:133-153 | The three in-place writes and the level's update are the list append of the theory, on the array of the order's side alone. |
| OrderBook.LimitOrderBook.RemoveOrder | src/OrderBook.cpp:155-177 | The in-place writes and the level's update are the unlinking of the theory, on the array of the order's side alone. |
| OrderBook.LimitOrderBook.Add | src/OrderBook.cpp:179-203 | Refines the abstract addition with the same result, keeps all four structures valid, and leaves the id map untouched when it fails. |
| OrderBook.LimitOrderBook.AddFresh | src/OrderBook.cpp:187-202 | The part after the two checks; it fails exactly when the pool is exhausted. |
| OrderBook.LimitOrderBook.Cancel | src/OrderBook.cpp:205-218 | Refines the abstract cancellation with the same result and keeps all four structures valid. |
| OrderBook.LimitOrderBook.Modify | src/OrderBook.cpp:220-244 | Refines the abstract modification: zero cancels, an increase goes to the tail, anything else keeps its place; after success the order rests with exactly the new quantity, or not at all for zero. |
| OrderBook.LimitOrderBook.Increase | src/OrderBook.cpp:232-236 | Unlinking, resizing and appending move the order to the tail of its own queue. |
| OrderBook.LimitOrderBook.Decrease | src/OrderBook.cpp:237-241 | Only the order's quantity changes. |
| OrderBook.LimitOrderBook.GetVolumeAtPrice | src/OrderBook.cpp:246-253 | Returns the sum of the quantities resting at the level, modulo 2^64, and 0 out of range. |
| OrderBook.LimitOrderBook.GetOrder | src/OrderBook.cpp:102-104 | Returns a resting order's id, side, price and quantity as the abstract book has them, or null exactly for an absent id. |
| BookRuns.OperationMeans | src/OrderBook.cpp:179-244 | Each operation succeeds exactly under its conditions and else changes nothing; an addition, or a modification to another quantity than 0, leaves the order with exactly the given quantity at its level, a cancellation or a modification to 0 removes it, and no other order is touched. |
| BookRuns.QueuesMean | src/OrderBook.cpp:133-244 | An addition goes to the tail of its level, a removal closes the gap, an increase moves the order from its place to the tail, any other modification leaves it there; no other queue changes. |
| BookRuns.QuantityIsLastGiven | src/OrderBook.cpp:193-240 | Over every run a resting order has the quantity last given to it by an addition or a modification. |
| BookRuns.RunIsStepwise | src/OrderBook.cpp:179-244 | A run and its results are those of the operations one after the other, each on the book that the earlier ones left. |
| BookRuns.RunWf | src/OrderBook.cpp:179-244 | Every run keeps the abstract book well formed. |
| BookRuns.PriorityStep | src/OrderBook.cpp:220-244 | One operation reverses two orders that stay at a level if and only if it increases the one ahead. |
| BookRuns.TimePriority | src/OrderBook.cpp:220-244 | Over every run the final order of two orders that stay is the initial one, unless the one ahead was the last of the two to be increased. |
| BookRuns.QueuesAreInArrivalOrder | src/OrderBook.cpp:133-244 | After any run on a fresh book every queue is strictly sorted by when each order was added or last increased. |
| BookRuns.VolumeExact | src/OrderBook.cpp:133-244 | With quantities below 2^32 and at most 2^32 orders the 64-bit volume is the exact sum after every run. |
| BookHistory.Execute | src/OrderBook.cpp:179-244 | One operation on the object does what it does on the abstract book, and counts successful additions. |
| BookHistory.ExecuteAll | src/OrderBook.cpp:179-244 | Every run on a fresh object with fewer than 2 * max_orders successful additions terminates, returns what the abstract book returns and ends up holding it. |
| BookHistory.SpendAllSlots | src/OrderBook.cpp:106-131 | The bound is tight: that many additions, each cancelled at once, lead to a valid empty book in which no lookup terminates. |
| NaiveBook.PushBackKeeps | benchmarks/NaiveOrderBook.hpp:37-48 | Appending to the list of a price keeps both sides equal to the abstract queues. |
| NaiveBook.EraseKeeps | benchmarks/NaiveOrderBook.hpp:56-67 | The stored iterator is valid, and erasing the node that it names, and the price with its last node, keeps both sides equal to the abstract queues, with no empty list. |
| NaiveBook.IteratorIsValid | benchmarks/NaiveOrderBook.hpp:24-28 | A resting order's stored iterator names a node of the list of its side and price, at the order's own place in the queue. |
| NaiveBook.NaiveOrderBook.Add | benchmarks/NaiveOrderBook.hpp:32-50 | Refines the unlimited abstract addition with the same result. |
| NaiveBook.NaiveOrderBook.Cancel | benchmarks/NaiveOrderBook.hpp:52-70 | Refines the same abstract cancellation as the optimised book. |
| BookComparison.CompareBooks | benchmarks/NaiveOrderBook.hpp:32-70 | On every run of additions and cancellations within the limits both books return the same values and end with the same queues at every level. |
| FeedReplay.MessageMeans | benchmarks/ITCH_to_LOB_pipeline.cpp:184-205 | E, C and X take their shares off a resting order and remove it when they reach what is left, D removes it, A adds an order the book has room for; no other message and no other order is affected. |
| FeedReplay.ReductionsMean | benchmarks/ITCH_to_LOB_pipeline.cpp:188-201 | The reductions of an id are the sum of the quantities of its E, C and X messages. |
| FeedReplay.OrderAfter | benchmarks/ITCH_to_LOB_pipeline.cpp:184-205 | A resting order that is not deleted, and not reduced to nothing, rests at the end of any messages with its quantity less all their reductions, duplicate additions included. |
| FeedReplay.FeedLedger | benchmarks/ITCH_to_LOB_pipeline.cpp:182-208 | For every feed on a fresh book and every id: it rests at the end if and only if some message of the feed added it and the rest leaves it something; its entry is then that message's side, price and shares less all later reductions. |
| FeedReplay.FeedKeepsPriority | benchmarks/ITCH_to_LOB_pipeline.cpp:188-201 | No feed changes the relative order of two orders that keep resting at a level. |
| FeedReplay.ConsumeMessage | benchmarks/ITCH_to_LOB_pipeline.cpp:184-205 | The switch on the object, with its lookup, comparison and subtraction, is one step of the fold. |
| FeedReplay.ConsumeFeed | benchmarks/ITCH_to_LOB_pipeline.cpp:182-208 | The matching thread's loop ends with a valid object holding the fold of all messages, in order. |
| FeedReplay.RingFeedsBook | benchmarks/ITCH_to_LOB_pipeline.cpp:182-208 | In every interleaving of the network and matching threads, stale loads included, the consumed messages and those still in the ring together give the fold of all messages pushed. |
| FeedReplay.StepFeedsBook | benchmarks/ITCH_to_LOB_pipeline.cpp:183-207 | Of all atomic steps of the two threads only the end of a pop concerns the book, which consumes the oldest message in the ring. |
| SpscProtocol.SlotsApart | include/SPSCQueue.hpp:48 | Two counts at most one capacity apart share a ring slot only when they are equal or exactly one capacity apart. |
| SpscProtocol.StepKeepsInv | include/SPSCQueue.hpp:45-88 | Each of the eight atomic steps of the two threads, with any admissible stale load, keeps the protocol's invariant. |
| SpscProtocol.QueueIsFifo | include/SPSCQueue.hpp:45-88 | In every interleaving the popped items followed by those in the ring are the pushed ones, in order, and at most capacity - 1 lie in the ring. |
| SpscProtocol.SlotsAreExclusive | include/SPSCQueue.hpp:52-86 | The producer only writes a slot whose last read it has acquired, so none that is unread or being read; the consumer only reads a slot whose publication it has acquired. |
| SpscProtocol.FailsExactlyWhen | include/SPSCQueue.hpp:52-78 | A call gives up exactly when the index value it acquired says full or empty; with the newest value, exactly when the queue is full or empty. |
| SpscProtocol.StepRefinesQueue | include/SPSCQueue.hpp:45-88 | To an observer of the whole queue a push takes effect at its last store, with room, and a pop at its last store, with the oldest item; every other step is invisible. |
| SpscProtocol.PushReaches | include/SPSCQueue.hpp:45-63 | An uninterrupted push is a run of the protocol's steps. |
| SpscProtocol.PopReaches | include/SPSCQueue.hpp:70-88 | An uninterrupted pop is a run of the protocol's steps. |
| SpscProtocol.PushAlone | include/SPSCQueue.hpp:45-63 | An uninterrupted push appends its item unless capacity - 1 items lie in the ring. |
| SpscProtocol.PopAlone | include/SPSCQueue.hpp:70-88 | An uninterrupted pop takes the oldest item if there is one. |
| SpscProtocol.SpscQueue.Push | include/SPSCQueue.hpp:45-63 | The in-place push leads to the protocol's state; it returns false exactly when capacity - 1 items are queued. |
| SpscProtocol.SpscQueue.Pop | include/SPSCQueue.hpp:70-88 | The in-place pop leads to the protocol's state and returns the oldest item, or nothing exactly for an empty queue. |
| EmsSpec.EventMeans | src/EMS.cpp:64-135 | For every table and event: whether it is taken, and the whole order afterwards: pending after sending, NEW after acceptance of a pending order, REJECTED or CANCELED after those, FILLED after a taken fill whose 32-bit sum reaches the size and PARTIALLY_FILLED otherwise; no other order changes. |
| EmsSpec.DeadExactlyWhen | src/EMS.cpp:64-135 | Over every run an order ends cancelled or rejected if and only if it began so or the run cancelled or rejected it while known. |
| EmsSpec.RunIsStepwise | src/EMS.cpp:64-135 | A run and its results are those of the events one after the other, each on the orders that the earlier ones left. |
| EmsSpec.RunConsistent | src/EMS.cpp:64-135 | After every run PENDING_NEW and NEW mean nothing executed, PARTIALLY_FILLED less than the size, FILLED at least the size; no entry is ever NONE and none disappears. |
| EmsSpec.ExecutedIsSumOfFills | src/EMS.cpp:105-126 | Over every run the executed quantity grows by exactly the accepted fills, modulo 2^32, and id, price and size never change. |
| EmsSpec.ExecutedFromStart | src/EMS.cpp:64-126 | From an order's sending on, its executed quantity is the sum of its accepted fills modulo 2^32, and exactly while that sum is below 2^32. |
| EmsSpec.DeadIsFinal | src/EMS.cpp:96-135 | A cancelled or rejected order stays one of the two and its executed quantity is frozen. |
| EmsSpec.FilledStaysWhen | src/EMS.cpp:96-135 | One event leaves a filled order filled if and only if it is no cancellation or rejection of it and no fill that wraps below its size. |
| EmsSpec.FilledIsNotFinal | src/EMS.cpp:114-132 | Two runs in which a filled order becomes partially filled and cancelled, against the documented life cycle. |
| Ems.InsertHolds | src/EMS.cpp:33-41 | The stop of the probe for an unknown id is an empty slot, and filling it makes the table hold one order more. |
| Ems.RewriteHolds | src/EMS.cpp:51-61 | The stop of the probe for a known id is its entry, and rewriting its value in place keeps the table and every other order. |
| Ems.ExecutionManagementSystem.constructor | src/EMS.cpp:9-25 | The zeroed table holds no order. |
| Ems.ExecutionManagementSystem.LookupTerminates | src/EMS.cpp:51-62 | A lookup terminates if and only if its order is known or fewer than 2 * max_orders orders are, for every id including 0. |
| Ems.ExecutionManagementSystem.Probe | src/EMS.cpp:52-61 | The loop shared by insertion and lookup stops at the first slot of its path that is empty or has the key. |
| Ems.ExecutionManagementSystem.MapInsert | src/EMS.cpp:33-49 | The table then holds the order under its id, new or overwritten, and every other order as before. |
| Ems.ExecutionManagementSystem.MapFind | src/EMS.cpp:51-62 | Returns the entry of a known order, and null exactly for an unknown id. |
| Ems.ExecutionManagementSystem.OnOrderSent | src/EMS.cpp:64-80 | Refines the event on the table of orders with the same result: refused exactly for a known id. |
| Ems.ExecutionManagementSystem.OnOrderAccepted | src/EMS.cpp:82-94 | Refines the event: taken exactly from PENDING_NEW, and then the order is NEW and otherwise the same. |
| Ems.ExecutionManagementSystem.OnOrderRejected | src/EMS.cpp:96-103 | Refines the event: taken for any known order. |
| Ems.ExecutionManagementSystem.OnOrderExecuted | src/EMS.cpp:105-126 | Refines the event: refused exactly for unknown, cancelled and rejected orders. |
| Ems.ExecutionManagementSystem.OnOrderCanceled | src/EMS.cpp:128-135 | Refines the event: taken for any known order. |
| Ems.ExecutionManagementSystem.GetOrderState | src/EMS.cpp:137-141 | Returns the order's state; NONE exactly for an unknown id. |
| Ems.ProcessAll | src/EMS.cpp:64-135 | Every run of events on a fresh system, with fewer than 2 * max_orders distinct orders sent, terminates and answers and ends as the table of orders does. |
| Ems.FillTable | src/EMS.cpp:33-103 | The bound is real: 2 * max_orders orders, all sent and rejected, lead to a valid table in which a lookup terminates exactly for the known ids. |
| Risk.ApprovedMeans | src/PreTradeRisk.cpp:10-37 | Approval means size within the limit, price within a band around a positive reference, and the position, raised by the shares of a buy and lowered by those of any other side, within the limit; all three and no more. |
| Risk.StatusMeans | src/PreTradeRisk.cpp:10-37 | Which status each broken limit gives: order size first, then the price band, then the position. |
| Risk.PreTradeRiskEngine.CheckOrder | src/PreTradeRisk.cpp:10-37 | Returns the outcome of the check at the current position, which a buy would raise by its shares and any other side lower. |
| Risk.PreTradeRiskEngine.UpdatePosition | src/PreTradeRisk.cpp:39-42 | Adds to the position in 64-bit two's complement. |
| Risk.WrapMeans | src/PreTradeRisk.cpp:41 | The 64-bit sum differs from the sum by a multiple of 2^64 and lies in the signed range. |
| RiskRace.StepsAllowed | src/PreTradeRisk.cpp:29-41 | An idle thread may check at any position since the newest it has seen, and a thread with an approved order may add it: nothing else restricts the interleaving. |
| RiskRace.RaceStepMeans | src/PreTradeRisk.cpp:25-42 | A check that approves leaves the order's signed shares to be added, one that does not leaves nothing, and neither moves the position; an addition moves it by just those shares. |
| RiskRace.StepKeepsInv | src/PreTradeRisk.cpp:25-42 | Each check, with any admissible stale load, and each 64-bit addition keeps the invariant: since the position was last within the limit only threads that had not seen it beyond have moved it further, once each. |
| RiskRace.PositionBounded | src/PreTradeRisk.cpp:25-42 | In every interleaving of N threads, with stale relaxed loads, every position ever stored is at most max_position + (N - 1) * max_order_size in absolute value. |
| RiskRace.BoundIsReached | src/PreTradeRisk.cpp:25-42 | Some interleaving of N threads reaches exactly that position, for every order size and position limit of at least 1, so the bound cannot be lowered. |
| RiskRace.BoundIsReachedWhen | src/PreTradeRisk.cpp:25-42 | The worst position is stored in some interleaving if and only if both limits are at least 1, or it is 0. |
| RiskRace.LimitHoldsWhen | src/PreTradeRisk.cpp:25-42 | Every position stored in every interleaving is within max_position if and only if there is one thread, or one of the two limits is 0. |
| Strategy.TokensDistinct | src/StrategyEngine.cpp:37-39 | Order tokens tell apart any two ids below 10^11. |
| Strategy.TokensClash | src/StrategyEngine.cpp:37-39 | From 10^11 on the cut to 14 characters gives every id the token of itself without its last digit. |
| Strategy.TokensUniqueWhile | src/StrategyEngine.cpp:32-39 | The ids issued so far all have different tokens if and only if the highest of them is below 10^11. |
| Strategy.MessageSays | src/StrategyEngine.cpp:37-50 | Parsing the message of a request gives its shares, price, side and padded symbol, a token of "ORD" and the eleven digits of the id, and the builder's default fields. |
| Strategy.DecisionMeans | src/StrategyEngine.cpp:25-30 | A request is approved exactly if its size, its price against the reference and the position after it are within the limits. |
| Strategy.NetMeans | src/StrategyEngine.cpp:53-54 | The net position rises by the shares of each buy and falls by those of each other side. |
| Strategy.ApprovedStepwise | src/StrategyEngine.cpp:24-64 | The next request of a run is approved exactly if risk approves it at the net position of the approved ones before it. |
| Strategy.LedgerGrows | src/StrategyEngine.cpp:24-54 | An approval extends ids, order table, messages and position together, without 64-bit wrap, and keeps the position limit. |
| Strategy.StrategyEngine.SendOrder | src/StrategyEngine.cpp:24-64 | Sends exactly when risk approves; then with a fresh id, a pending entry, a message that parses to the request, and the position raised by the shares of a buy or lowered by those of any other side; otherwise nothing changes. |
| Strategy.StrategyEngine.MessagesDistinct | src/StrategyEngine.cpp:32-58 | No two messages an engine has sent are equal while its ids stay below 10^11. |
| Strategy.SendAll | src/StrategyEngine.cpp:24-64 | Over every run of requests, of any length, that approves no more than 2 * max_orders, exactly the approved ones are sent, the k-th as a message that parses to it under id 1000 + k, and the net position equals their signed sum and stays within max_position. |
| Bytes.NetworkRoundTrip | src/ITCH5Parser.cpp:9-11 | A number that fits its field comes back from network order. |
| Bytes.EncodeDecoded | src/OUCH42.cpp:8-10 | Bytes come back from the number they are in network order. |
| Bytes.SwappedStore | src/ITCH5Parser.cpp:97-102 | A byte-swapped store on a little-endian host puts network order into memory, for any field size. |
| Bytes.SwappedLoad | src/ITCH5Parser.cpp:28-30 | A byte-swapped load on a little-endian host reads network order. |
| Bytes.SwapTwice | src/OUCH42.cpp:8-10 | The byte swap is its own inverse on every value that fits its field, for any field size. |
| Bytes.CopyStringPadded | src/OUCH42.cpp:13-25 | The field becomes the text cut or space-padded to its size, a null text counting as empty; no byte outside changes. |
| Bytes.PaddedMeans | src/OUCH42.cpp:13-25 | A text field holds the first characters of the text and spaces after them. |
| Bytes.NetworkByte | src/ITCH5Parser.cpp:9-11 | The k-th byte of a field in network order has weight 256^(n - 1 - k). |
| Bytes.NetworkOrder | src/ITCH5Parser.cpp:97-102 | The bytes of 16-bit and 32-bit fields, most significant first. |
| Bytes.NetworkOrder8 | src/ITCH5Parser.cpp:100 | The bytes of a 64-bit field, most significant first. |
| Bytes.NetworkNumber | src/ITCH5Parser.cpp:28-30 | The number that four bytes in network order stand for. |
| Bytes.NetworkHalves | src/ITCH5Parser.cpp:28 | A field in network order is its first bytes, shifted by the rest, plus the rest. |
| Bytes.SwapExchanges | src/OUCH42.cpp:9 | Swapping a 32-bit value exchanges its first byte with its last and its second with its third. |
| Itch.Parse | src/ITCH5Parser.cpp:13-73 | The result is the fields at the offsets of the message layouts, in network order; too short or other messages fail and stale fields stay. |
| Itch.ParsingMeans | src/ITCH5Parser.cpp:13-73 | Which messages are accepted, by letter and shortest length, and which bytes give which field; 'B' is a buy and anything else a sell; fields that a kind does not carry stay. |
| Itch.TimestampRoundTrip | src/ITCH5Parser.cpp:75-82 | Writing and parsing a timestamp gives it back modulo 2^48. |
| Itch.TimestampMeans | src/ITCH5Parser.cpp:75-82 | The six bytes are the low 48 bits in network order, and are read so. |
| Itch.BuildAddOrder | src/ITCH5Parser.cpp:84-112 | Fails, changing nothing, exactly for a buffer too short; otherwise the buffer starts with the Add Order message and its rest is unchanged. |
| Itch.AddOrderLayout | include/ITCH5Parser.hpp:13-23 | Which bytes of a built Add Order message hold which field. |
| Itch.AddOrderRoundTrip | src/ITCH5Parser.cpp:13-112 | Parsing a built Add Order, whatever follows it, recovers id, shares, price and side for all field values. |
| Itch.OrderMessageRoundTrip | src/ITCH5Parser.cpp:39-58 | Cancel, delete and execute messages give back id and shares for every header and trailing bytes. |
| Itch.DeleteRoundTrip | src/ITCH5Parser.cpp:46-51 | A Delete message of just 19 bytes, or more, gives back its id and changes nothing else. |
| Itch.ExecutedWithPriceRoundTrip | src/ITCH5Parser.cpp:59-66 | An execution with price gives back id, shares and price. |
| Ouch.BuildEnterOrder | src/OUCH42.cpp:27-60 | Fails, changing nothing, exactly for a buffer too short; otherwise the buffer starts with the Enter Order message and its rest is unchanged. |
| Ouch.EnterOrderLayout | include/OUCH42.hpp:12-27 | Which bytes of a built Enter Order message hold which field. |
| Ouch.ParseEnterOrder | src/OUCH42.cpp:100-115 | The result is the fields at their offsets, in network order; fails exactly for too short or other messages. |
| Ouch.EnterOrderParsingMeans | src/OUCH42.cpp:100-115 | Which messages are accepted, and which bytes give which field. |
| Ouch.EnterOrderRoundTrip | src/OUCH42.cpp:27-115 | Parsing a built Enter Order recovers all numbers and the space-padded texts, for all field values. |
| Ouch.RebuildIsIdentity | src/OUCH42.cpp:27-115 | Building from a parsed Enter Order gives the same 49 bytes. |
| Exchange.OnOrderReceived | src/ExchangeEmulator.cpp:73-95 | An Add Order is built exactly for a well-formed Enter Order and carries its fields. |
| Exchange.BroadcastMeans | src/ExchangeEmulator.cpp:85-95 | The bytes sent for a received order: locate and tracking number 1, its side, shares and price as they came, and its stock up to the first NUL, then spaces. |
| Exchange.OrderSurvivesBothWires | src/ExchangeEmulator.cpp:73-95 | Through both wires shares, price and side arrive as sent, and so does the padded stock when it holds no NUL. |
| LogFile.DoublingSuffices | src/AsyncLogger.cpp:125-166 | One doubling makes room for any line no longer than the mapping, so no line is dropped. |
| LogFile.MappedFile.ResizeMmap | src/AsyncLogger.cpp:125-140 | Doubles the mapping and keeps its content when the system grants it; otherwise nothing changes. |
| LogFile.MappedFile.WriteToFile | src/AsyncLogger.cpp:152-167 | Appends the whole line or nothing, nothing only when it does not fit after the one resizing; the offset stays within the mapping. |
| LogDrain.ControlMeans | src/AsyncLogger.cpp:173-205 | The drain loop's control for queues of any kind: when a pass is entered, what it starts with, and that after it the loop is left only if the logger has been shut down and the pass took nothing. |
| LogDrain.RegisterMeans | src/AsyncLogger.cpp:77-95 | Registration adds a thread once, with an empty queue, and leaves all others alone. |
| LogDrain.PushMeans | src/AsyncLogger.cpp:118-123 | A push goes to its own thread's queue alone, and is possible exactly while that holds fewer than 1023 messages. |
| LogDrain.PollMeans | src/AsyncLogger.cpp:188-193 | A poll that sees a message takes the oldest into the file and stays at the queue; one that sees none goes on to the next queue. |
| LogDrain.StepKeepsOrder | src/AsyncLogger.cpp:77-206 | Each step of any thread keeps, for each thread, what is written followed by what is queued equal to what it logged. |
| LogDrain.LogIsFaithful | src/AsyncLogger.cpp:77-206 | In every interleaving the file is the concatenation of whole written lines within the mapping, and each thread's lines are an in-order, duplicate-free prefix of what it logged. |
| LogDrain.LeftOnlyAfterShutdown | src/AsyncLogger.cpp:169-206 | In every run from the start the loop has been left only if the logger has been shut down before. |
| LogDrain.PassLeavesWhen | src/AsyncLogger.cpp:173-204 | At the end of a pass the loop is left if and only if the logger has been shut down by then and no poll of the pass took a message. |
| LogDrain.MissingAfterShutdown | src/AsyncLogger.cpp:169-206 | After the drain loop has been left, a thread's missing messages are those its queue's last failing poll missed and those it logged after that; none is missing if and only if it never logged, or some poll found its queue empty after its last message. |
| LogDrain.DrainedByLaterPass | src/AsyncLogger.cpp:173-204 | If a registered thread logs nothing from the moment a pass is entered, and polls of its queue see what was pushed, all its messages are in the file when the loop is left. |
| LogDrain.LostBeforeStart | src/AsyncLogger.cpp:173 | A run that loses a message: shutdown before the loop is entered. |
| LogDrain.LostAfterIdlePass | src/AsyncLogger.cpp:187-204 | A run that loses a message: logged after an idle pass over its queue, with shutdown before the next pass. |
| LogRings.StepRefines | src/AsyncLogger.cpp:118-206 | Each atomic step of a ring or of the drain loop is a step of the drain protocol with atomic queues, or invisible to it. |
| LogRings.RunRefines | src/AsyncLogger.cpp:77-206 | Every interleaving over real rings is a run of the drain protocol, namely the one its steps amount to in order. |
| LogRings.RunShows | src/AsyncLogger.cpp:118-206 | In that run a thread pushes nothing, is found empty after its last push, or is never missed exactly if on its ring no push completes, a pop gives up on the empty ring after the last completed push, or no pop gives up while something lies in the ring. |
| LogRings.RingsAreFaithful | src/AsyncLogger.cpp:77-206 | In every interleaving of the atomic steps of all pushes and pops, stale loads included, the file is whole lines within the mapping, and each thread's lines followed by what lies in its ring are what it pushed, in order. |
| LogRings.RingsLeftOnlyAfterShutdown | src/AsyncLogger.cpp:169-206 | The same over real rings: the loop has been left only if the logger has been shut down before. |
| LogRings.MissingInRings | src/AsyncLogger.cpp:169-206 | After the drain loop has been left, a thread's missing messages are those in its ring; none is missing if and only if it never completed a push, or some pop gave up on its empty ring after its last completed push. |
| LogRings.RingDrainedByLaterPass | src/AsyncLogger.cpp:173-204 | If a registered thread completes no push from the moment a pass is entered, and no pop from its ring gives up on a stale index while something lies in it, all its messages are in the file when the loop is left. |

## Left out

Modelling choices:

- Pointers into the pool are pool indices, with -1 for null; a map slot is empty, a tombstone with its old key, or live. A list iterator of the naive book is the address of its node; addresses are never reused.
- The book's `Place`, `AddFresh`, `CancelFound`, `Increase` and `Decrease`, and the order system's `Probe` and `Rewrite`, are parts of one source function each (or a loop that two source functions share), split so that each proof stays small.
- Assumed of construction: 0 < `max_orders` and 2 * `max_orders` < 2^64, so that map capacities do not wrap; queue capacity > 1; and limits small enough for 64-bit position arithmetic, which is `max_position` between 0 and 2^63 - 1 - 2^32 for one strategy thread and `max_position` + N * `max_order_size` < 2^63 for N. Assumed of the strategy run: ids do not wrap.
- SpscProtocol.SlotsAreExclusive: speaks of the moments just before a slot is written or read; the C++ notion of a data race is not formalised, and the release-acquire order is represented by loads that return no value older than one already seen.
- SpscProtocol.SpscQueue.Push: the executable method has no other thread in between; interleavings are the protocol's.
- Risk.ApprovedMeans: deviations are real numbers; the rounding of the double-precision division is not modelled.
- LogDrain.LogIsFaithful: system calls succeed, the initial mapping holds the longest line, and one epoch from initialisation to shutdown of a fresh logger is modelled, because `init` does not reset the file offset.
- LogFile.MappedFile.WriteToFile: a line is an abstract byte string; `snprintf` is represented only by the bound of 288 bytes that its format gives.
- Itch.Parse: the message out-parameter is passed in and returned. Big-endian hosts are not modelled.
- Exchange.OrderSurvivesBothWires: socket reads and the multicast are left out; the order reference and the time are parameters.
- FeedReplay.ConsumeFeed: takes the popped messages as a sequence, which `FeedReplay.RingFeedsBook` ties to the ring; the producer thread's termination flag is left out.

Not modelled:

- `mmap`, `munmap`, `mremap` and their failures (except a refused growth of the log file), page population, alignment, cache lines, NUMA placement and thread pinning.
- Log calls inside the book, the order system, the parser and the strategy engine, and `log`'s waiting for a full queue (a push is not enabled then).
- `build_replace_order` and `build_cancel_order`: the same kinds of field writes as `build_enter_order`, with no parser to match.
- `get_current_position` and `reset_position` of the risk engine: one load and one store.
- The event loop, the TCP gateway (its result is ignored by the sender) and the sockets of the executables.
- The `X` handling in src/Main.cpp:77-79, which passes cancelled shares as the new quantity and is marked as simplified there.
- The message generator of the pipeline benchmark, timing, the Python scripts, the documentation site.
- The market maker strategy and the distribution of market data to strategies.
- Re-initialising the logger after shutdown, and two threads under one logger id.
