# A verified model of the market data handler

The program receives order messages over UDP on one thread, hands them through a lock-free single-producer
single-consumer ring to a second thread, and there applies them to a price-time-priority limit order book. This
project models that program in Dafny and proves what it is meant to do.

How the pieces fit together:

- `BookSpec.dfy` is the abstract book: each side is one flat queue in price-time priority. It knows nothing of
  levels, links, tables or bitmaps. `BookLaws.dfy` proves its laws (matching is greedy unit-by-unit matching,
  priority, conservation, well-formedness, the modify contract). `BookMeaning.dfy` says what each operation does in
  plain positions, prices and quantities, without the functions that compute it, and proves that exactly one book
  satisfies each of these relations, the computed one. `Sessions.dfy` lifts all this to runs of messages, each of which
  has a ledger: the books before and after every packet, and what every packet submits, withdraws and trades.
- `OrderBook.dfy` is the concrete book with the source's data: orders linked by `prev`/`next` references into price
  levels with a cached total, a flat id table, a LIFO free list over a fixed pool, two bitmaps and two cached best
  prices. Every public method keeps `Valid()` and moves the abstract book exactly as the specification says,
  in both forms.
  `OrderStore.dfy` (objects, their images, the memory invariant `StoreOk`, the abstraction `Abs`), `Rungs.dfy` (levels
  flattened into a queue), `StoreMoves.dfy` (an order leaves, is resized, joins) and `Occupancy.dfy` (best levels,
  trades, bitmaps, pool) carry the proof. Both matching loops are proved to terminate.
- `Words.dfy` and `PriceBitSet.dfy` are the three-level bitmap on real 64-bit words.
- `Cursors.dfy` and `SpscQueue.dfy` are the ring as two threads taking one step per atomic access, with cursors
  wrapping at 2^64 and stale loads. `SpscClass.dfy` is the same code as an object whose `push` and `pop` run to
  completion.
- `System.dfy` composes handler, ring and worker into one step system and proves the end-to-end theorems;
  `Engine.dfy` is the handler and the worker loop over the queue and book objects.
- `StreamBuf.dfy` is the byte buffer `asio::basic_streambuf`.

What `Valid()` of the book says (include/OrderBook.h lines 21-89): each level's links spell out an acyclic doubly
linked list with the right head and tail; every queued order sits at its own price and side with a quantity strictly
between 0 and 2^31; each cached total is the sum of its list; level 0 is empty; the id table maps exactly the live ids
to their orders; live and free orders partition the pool, and free orders have null links; a bitmap bit is set exactly
for an occupied level; the cached best prices are the extremes of the occupied levels; the best bid is below the best ask.

Preconditions are what the code relies on of its callers: ids below the table size, an added id that is not live,
quantities below 2^31 (the bit field), a price from 1 to below the tick count when there is a quantity to place, at most
64^3 ticks. `OrderBooks.OrderBook.GuardMeaning` shows that the limits excluded by `MatchOrder` (a sell at 0, a buy at
UINT32_MAX) are exactly those at which the loop guard is true against an empty side. `EngineSystem.DispatchIsSafe`
shows that the worker meets these preconditions on every interleaving when the arrival stream adds no id twice.

Where code and documentation disagree, or the documentation is silent:

- The documentation of `commit` and `consume` speaks of any count, while the code casts the count to `int`. The model
  keeps the cast and proves that the pointer moves by the count if and only if the count is below 2^31, the documented
  effect under that condition, and exactly when the buffer stays well-formed at all. `StreamBuffers.CommitBackwards` and
  `StreamBuffers.ConsumeBackwards` reach a failure with a count of 2^31.
- The documentation of `prepare` does not say what a refusal leaves behind, and the code may already have shifted the
  bytes. No pointer has moved, so size and well-formedness are kept; the contracts give the shifted bytes exactly,
  `StreamBuffers.ShiftedIsHarmless` says exactly when they are the old ones, and `StreamBuffers.RefusalShifts` reaches a
  state where they are not.

## Model

| member | source | states |
|---|---|---|
| Words.HighestBit | include/PriceBitSet.h:54-57 | the scan from the top finds a set bit with no set bit above it |
| Words.LowestBit | include/PriceBitSet.h:64-67 | the scan from the bottom finds a set bit with no set bit below it |
| Words.SetBit | include/PriceBitSet.h:32-34 | or-ing a one-hot mask sets that bit and no other |
| Words.ClearBit | include/PriceBitSet.h:42-46 | and-ing the complement clears that bit and no other |
| PriceBits.SummaryAfterSet | include/PriceBitSet.h:28-35 | setting the summary bit of a word made non-zero keeps "a bit above is set iff the word below is non-zero" |
| PriceBits.SummaryAfterClear | include/PriceBitSet.h:41-47 | clearing the summary bit of a word made zero keeps it |
| PriceBits.PriceBitSet.constructor | include/PriceBitSet.h:22-24 | the new set is empty |
| PriceBits.PriceBitSet.Set | include/PriceBitSet.h:27-35 | insertion into the set of prices |
| PriceBits.PriceBitSet.Clear | include/PriceBitSet.h:37-49 | removal from the set of prices; an absent price changes nothing |
| PriceBits.PriceBitSet.GetHighest | include/PriceBitSet.h:51-59 | the maximum of the set, 0 when empty |
| PriceBits.PriceBitSet.GetLowest | include/PriceBitSet.h:61-69 | the minimum of the set, UINT32_MAX when empty |
| Rungs.FlattenInsert | include/OrderBook.h:117-123 | joining the tail of one level is inserting behind equal prices in the flat queue |
| Rungs.FlattenWithout | include/OrderBook.h:145-149 | unlinking from one level is removing exactly that order from the flat queue |
| StoreMoves.RemovedLinked | include/OrderBook.h:145-149 | unlinking position k of a level leaves a correct list of the other orders, in order |
| StoreMoves.JoinedLinked | include/OrderBook.h:117-123 | appending leaves a correct list with the new order last |
| StoreMoves.RemovedOk | include/OrderBook.h:142-160 | an order leaving keeps the memory well-formed and removes exactly it from the abstract book |
| StoreMoves.ResizedOk | include/OrderBook.h:176-185 | a quantity change in place keeps the memory well-formed and the order's place in the book |
| StoreMoves.JoinedOk | include/OrderBook.h:97-123 | an order joining keeps the memory well-formed and inserts exactly it |
| Occupancy.TradedOk | include/OrderBook.h:202-221 | one trade at the best level takes exactly the traded units off the front of the opposite queue |
| Occupancy.TradingStep | include/OrderBook.h:201-222 | each pass of the inner loop trades at least one unit, within the limit, and touches no other level |
| Occupancy.MatchingDone | include/OrderBook.h:191-233 | when the loops stop, exactly min(quantity, crossing liquidity) has traded |
| Occupancy.IndexAfterShrink | include/OrderBook.h:224-230 | clearing the bit of an emptied level and recomputing keeps bitmaps, best prices and the uncrossed book |
| Occupancy.IndexAfterJoin | include/OrderBook.h:110-133 | setting the bit and raising the best price for an order that does not cross keeps them |
| Occupancy.TableKnowsBook | include/OrderBook.h:137-140 | the id table has an entry exactly for the ids on the book, at the right side, price and quantity |
| Occupancy.FreeOrderLeft | include/OrderBook.h:38-45 | with as many orders as ids, an unused id means a free order |
| Occupancy.LevelTotalFits | include/OrderBook.h:24 | a level total is at most the pool size times 2^31 - 1 |
| OrderBooks.OrderPool.constructor | include/OrderBook.h:29-36 | all orders are free, distinct, with null links |
| OrderBooks.OrderPool.Allocate | include/OrderBook.h:38-45 | pops the last free order, or null when there is none |
| OrderBooks.OrderPool.Deallocate | include/OrderBook.h:47-51 | resets the links and pushes the order on the free list |
| OrderBooks.OrderBook.constructor | include/OrderBook.h:63-67 | the new book is well-formed and empty |
| OrderBooks.OrderBook.Splice | include/OrderBook.h:145-149 | the conditional link updates connect the neighbours and fix head and tail |
| OrderBooks.OrderBook.ClearIfEmpty | include/OrderBook.h:151-157 | an emptied level gives up its bit and both best prices become the extremes of the sets |
| OrderBooks.OrderBook.TakeOff | include/OrderBook.h:142-160 | the statements of a removal leave exactly the memory of a removal, with bitmaps and best prices in step |
| OrderBooks.OrderBook.CancelOrder | include/OrderBook.h:136-161 | refines the abstract cancel and its plain meaning; an unknown id changes nothing at all; table entry cleared, order back on the free list |
| OrderBooks.OrderBook.Trade | include/OrderBook.h:202-221 | one pass of the inner loop leaves exactly the memory of one trade and returns the new head |
| OrderBooks.OrderBook.TradeLevel | include/OrderBook.h:200-222 | the inner loop uses up the level or the incoming quantity |
| OrderBooks.OrderBook.MatchLevel | include/OrderBook.h:197-230 | one pass of the outer loop trades at least one unit at the best price and keeps the book valid |
| OrderBooks.OrderBook.MatchOrder | include/OrderBook.h:188-234 | returns quantity - min(quantity, crossing liquidity), leaves the opposite side as unit-by-unit matching does, touches nothing above the limit of a buy or below that of a sell, and leaves nothing within the limit while anything remains |
| OrderBooks.OrderBook.Append | include/OrderBook.h:115-123 | the total grows and the order is linked behind the tail |
| OrderBooks.OrderBook.Place | include/OrderBook.h:97-123 | what remains takes the top free order, sets the bit of an empty level and joins it |
| OrderBooks.OrderBook.Rest | include/OrderBook.h:97-133 | the remainder rests behind its price and the best price follows |
| OrderBooks.OrderBook.AddOrder | include/OrderBook.h:91-134 | refines the abstract add and its plain meaning: the opposite side is left as unit-by-unit matching leaves it, the remainder stands last at its price, never discarded, and no other price of its side changes |
| OrderBooks.OrderBook.Shrink | include/OrderBook.h:176-185 | the in-place decrease changes one quantity and one total |
| OrderBooks.OrderBook.ModifyOrder | include/OrderBook.h:163-186 | refines the abstract modify and its plain meaning; an unknown id changes nothing at all |
| OrderBooks.OrderBook.BookWellFormed | include/OrderBook.h:58-89 | in every valid book bids fall, asks rise, quantities are positive, ids unique, and every bid is below every ask |
| OrderBooks.OrderBook.LevelSpellsBook | include/OrderBook.h:21-26 | the links of a level, forwards and backwards, spell out the orders of its price on the book, oldest first, and the total is their sum |
| OrderBooks.OrderBook.TableSpellsBook | include/OrderBook.h:137-140 | the id table has an entry exactly for the ids on the book, leading to the order with that id |
| OrderBooks.OrderBook.BestPrices | include/OrderBook.h:74-75 | the cached best prices are the first prices of the two sides or the "none" values, and bid is below ask |
| OrderBooks.OrderBook.BitsAreBook | include/OrderBook.h:84-85 | the bitmaps hold exactly the prices with orders |
| OrderBooks.OrderBook.GuardMeaning | include/OrderBook.h:192-195 | what the loop guard says, and exactly when it is true against an empty side |
| OrderBooks.OrderBook.TotalsFit | include/OrderBook.h:24 | at the engine's sizes every level total fits 64 bits |
| OrderBooks.OrderBook.FreeTopExists | include/OrderBook.h:97-100 | the pool never runs out when an unused id is added |
| OrderBooks.OrderBook.AddAndCancel | include/OrderBook.h:91-161 | an order that trades with nobody, cancelled, leaves book, table, free list, bitmaps and best prices as they were |
| BookSpec.DropDrop | include/OrderBook.h:201-222 | taking units in two goes is taking them in one |
| BookSpec.LiquidityAfterDrop | include/OrderBook.h:191-222 | taking crossing units lowers the crossing liquidity by exactly those units |
| BookLaws.MatchIsGreedy | include/OrderBook.h:188-234 | the closed form of matching is unit-by-unit matching with the best, oldest order |
| BookLaws.PriceTimePriority | include/OrderBook.h:188-234 | matching removes whole orders from the front, reduces at most the next, touches nothing behind |
| BookLaws.BeyondLimitUntouched | include/OrderBook.h:192-195 | orders above the limit of a buy or below the limit of a sell keep their quantity and place |
| BookLaws.MatchIsExhaustive | include/OrderBook.h:191-195 | while something remains of the incoming order, every order left is above the limit of a buy or below that of a sell |
| BookLaws.AddKeeps | include/OrderBook.h:91-134 | adding keeps a book sorted, positive, unique and uncrossed, and makes no other id live |
| BookLaws.CancelKeeps | include/OrderBook.h:136-161 | cancelling keeps it so and makes the id unknown |
| BookLaws.ModifyKeeps | include/OrderBook.h:163-186 | modifying keeps it so and makes no id live |
| BookLaws.MatchConserves | include/OrderBook.h:204-206 | a match takes from the resting side exactly what it takes from the incoming order |
| BookLaws.DecreaseKeepsPriority | include/OrderBook.h:176-185 | a same-price decrease keeps the order's place and every other order |
| BookLaws.ReplaceIsCancelThenAdd | include/OrderBook.h:169-174 | a price change or increase is a cancel and a fresh add; what rests stands behind all others of the new price, and no other price changes |
| BookLaws.ModifyToZeroIsCancel | include/OrderBook.h:169-180 | a modify to quantity 0 is a cancel for any price |
| BookLaws.AddThenCancel | include/OrderBook.h:91-161 | an add that trades with nobody, then cancelled, restores the book |
| BookLaws.InsertIsFifo | include/OrderBook.h:117-123 | a new order goes to the end of its own price and leaves every other price alone |
| BookMeaning.MatchMeaning | include/OrderBook.h:188-234 | matching in plain terms: whole orders within the limit from the front, then part of one, until the quantity or the limit is reached |
| BookMeaning.AddMeaning | include/OrderBook.h:91-134 | adding, in plain terms, holds of the computed book and of no other |
| BookMeaning.AddSides | include/OrderBook.h:91-134 | an add leaves the opposite side as unit-by-unit matching does, and at each price of its own side only the remainder is new, standing last |
| BookMeaning.CancelMeaning | include/OrderBook.h:136-161 | closing the position of the id, or changing nothing when it is unknown, holds of the computed book and of no other |
| BookMeaning.UnknownModify | include/OrderBook.h:163-167 | a modify of an unknown id changes nothing, for any price and quantity |
| BookMeaning.ModifyMeaning | include/OrderBook.h:163-186 | the four cases of a modify, in plain terms, hold of the computed book and of no other |
| Sessions.ReplayKeeps | src/main.cpp:65-82 | over any run a live id was live before or added earlier, and the book stays well-formed |
| Sessions.NextAddIsNew | src/main.cpp:66-71 | in a stream without repeated adds, the next added id is not live |
| Sessions.ApplyMeaning | src/main.cpp:65-82 | a packet has exactly the plain effect of its kind and fields |
| Sessions.ReplayMeaning | src/main.cpp:65-82 | one more packet in a run changes the book by exactly what it says |
| Sessions.DecreaseInRun | include/OrderBook.h:176-185 | after any run, a decrease keeps the place of the order and every other order |
| Sessions.GoodStreamMeaning | include/OrderBook.h:97-137 | the preconditions on a stream, spelled out |
| Sessions.KeptPositions | include/FeedHandler.h:49-51 | what is kept of a stream stood at increasing positions |
| Sessions.DroppingKeepsGood | include/FeedHandler.h:49-51 | a good stream stays good when any packets are dropped |
| Sessions.FlowMeaning | include/OrderBook.h:91-206 | what a packet submits, withdraws and trades is read off the books before and after it |
| Sessions.RunLedger | src/main.cpp:62-93 | every run has a ledger, which ends with the replayed book and adds up to the flow of the run |
| Sessions.QuantityIsConserved | include/OrderBook.h:91-234 | over whole runs: submitted = resting + cancelled or reduced + 2 x traded, each the sum over the ledger of the run |
| Cursors.MaskIsMod | include/SPSCQueue.h:19 | anding with 2^k - 1 is the remainder modulo 2^k |
| Cursors.MaskedIndex | include/SPSCQueue.h:100 | the masked wrapped cursor is the unbounded cursor modulo the capacity |
| Cursors.WrappedDifference | include/SPSCQueue.h:55-61 | the wrapped difference of nearby cursors is the true one, and they are equal only if the unbounded ones are |
| Cursors.WindowIndices | include/SPSCQueue.h:100-117 | ring indices of a window of capacity cursors are all different |
| Spsc.StepKeeps | include/SPSCQueue.h:86-121 | every step of either thread keeps the protocol invariant, despite stale cached cursors |
| Spsc.Fifo | include/SPSCQueue.h:86-121 | for every interleaving, popped followed by queued is exactly pushed, in order, at most capacity values queued |
| Spsc.SlotExclusivity | include/SPSCQueue.h:100-118 | producer and consumer never touch the same slot; construct only on raw memory, read only the next constructed value |
| Spsc.FullTestExact | include/SPSCQueue.h:55-57 | the full test on wrapped cursors is true exactly at capacity |
| Spsc.PushRefusal | include/SPSCQueue.h:92-98 | push is refused exactly when the pop cursor seen at the reload is capacity behind; with a fresh load, exactly when full |
| Spsc.PopRefusal | include/SPSCQueue.h:108-114 | pop is refused exactly when the push cursor seen is its own; with a fresh load, exactly when empty |
| Spsc.OnlyReloadsRefuse | include/SPSCQueue.h:88-114 | no other step refuses, except any push to a queue of capacity 0 |
| Spsc.NeverStuck | include/SPSCQueue.h:86-121 | in every reachable state each thread has a step to take, and a reload may see any cursor not older than the last one seen |
| Spsc.PushCall | include/SPSCQueue.h:86-104 | a push takes at most five steps whatever the other thread does, and publishes exactly its argument or nothing |
| Spsc.PopCall | include/SPSCQueue.h:106-121 | a pop takes at most six steps whatever the other thread does, and takes exactly the next value or nothing |
| Spsc.PushCompletes | include/SPSCQueue.h:86-104 | a push left to itself returns |
| Spsc.PopCompletes | include/SPSCQueue.h:106-121 | a pop left to itself returns |
| SpscObject.SpscQueue.constructor | include/SPSCQueue.h:16-22 | a new queue of power-of-two (or zero) capacity is empty |
| SpscObject.SpscQueue.Size | include/SPSCQueue.h:40-46 | the wrapped cursor difference is the number of queued values |
| SpscObject.SpscQueue.Push | include/SPSCQueue.h:86-104 | appends, or is refused exactly when capacity values are queued |
| SpscObject.SpscQueue.Pop | include/SPSCQueue.h:106-121 | removes the oldest value, or is refused exactly when none is queued |
| EngineSystem.BookIsReplay | src/main.cpp:62-93 | for every interleaving the book is the replay, in arrival order, of the accepted packets popped so far, but for one popped and about to be dispatched |
| EngineSystem.ReceivesAccountedFor | include/FeedHandler.h:45-57 | full-size error-free receives = accepted + dropped (+ the one in hand), and the accepted are the arrivals at increasing positions |
| EngineSystem.ReloadRefuses | include/SPSCQueue.h:92-98 | the reload refuses exactly when the ring was full as far as the handler could see |
| EngineSystem.DropsMeanFull | include/FeedHandler.h:49-51 | the drop counter grows exactly when a refused push returns; the dropped packet is the last arrival and was refused when the ring was full as far as the handler could see |
| EngineSystem.DispatchIsSafe | src/main.cpp:65-82 | the worker always meets the book's preconditions, whatever was dropped, and the book is well-formed |
| EngineSystem.EngineConserves | src/main.cpp:62-93 | for every interleaving the book has a ledger: each dispatched packet had its plain effect, and all quantity is accounted for |
| EngineSystem.QuiescentBook | src/main.cpp:62-93 | when everything accepted has been popped and dispatched, the book is the replay of all of it |
| EngineSystem.EngineNeverStuck | src/main.cpp:62-93 | in every reachable state the handler and the worker each have an event to take, and an idle handler can receive any packet |
| Engine.Dispatch | src/main.cpp:65-82 | per packet kind, the book is the add, cancel or modify of the fields of the packet, in plain terms too; other packets change nothing |
| Engine.RunMatchingEngine | src/main.cpp:62-93 | the polling loop dispatches everything it pops, in order, and counts it |
| Engine.FeedHandler.OnReceive | include/FeedHandler.h:45-57 | a full-size packet is queued or counted as dropped, exactly when full; anything else changes neither |
| StreamBuffers.CastExact | include/asio/basic_streambuf.hpp:236 | the int cast of a count is the 32-bit number congruent to it, and the count itself exactly below 2^31 |
| StreamBuffers.StreamBuf.constructor | include/asio/basic_streambuf.hpp:131-141 | empty, with room for 128 bytes or for the maximum if that is less |
| StreamBuffers.StreamBuf.Size | include/asio/basic_streambuf.hpp:158-161 | the readable length, never above the maximum |
| StreamBuffers.StreamBuf.ShiftDown | include/asio/basic_streambuf.hpp:325 | an overlapping move to the front keeps the moved bytes |
| StreamBuffers.StreamBuf.Reserve | include/asio/basic_streambuf.hpp:308-346 | succeeds exactly when size + n is within the maximum, then keeps the readable bytes and grows to exactly n writable ones where needed; a refusal moves no pointer, keeps the size, and shifts the bytes in a stated way |
| StreamBuffers.StreamBuf.Prepare | include/asio/basic_streambuf.hpp:214-219 | hands out n writable bytes at the put pointer under the same condition, with the same refusal |
| StreamBuffers.StreamBuf.Commit | include/asio/basic_streambuf.hpp:233-238 | moves the put pointer by the count if and only if it is below 2^31, and then appends the written bytes; stays well-formed exactly when the pointer does not fall below the get pointer |
| StreamBuffers.StreamBuf.Consume | include/asio/basic_streambuf.hpp:247-254 | drops a prefix, all of it when there are fewer bytes, for counts below 2^31; stays well-formed exactly when the pointer does not become negative |
| StreamBuffers.StreamBuf.Underflow | include/asio/basic_streambuf.hpp:263-274 | shows the next byte without removing it, or reports the end |
| StreamBuffers.StreamBuf.Overflow | include/asio/basic_streambuf.hpp:283-306 | appends one byte, failing exactly at the maximum and then changing nothing |
| StreamBuffers.StreamBuf.Append | include/asio/basic_streambuf.hpp:88-95 | prepare, fill, commit appends exactly the given bytes, refused exactly when they do not fit, with the size kept |
| StreamBuffers.ShiftedIsHarmless | include/asio/basic_streambuf.hpp:322-340 | a refusal keeps the readable bytes exactly when nothing was consumed, the two places do not overlap, or the bytes repeat |
| StreamBuffers.RefusalShifts | include/asio/basic_streambuf.hpp:322-340 | a reachable refusal that changes the readable bytes |
| StreamBuffers.CommitBackwards | include/asio/basic_streambuf.hpp:233-238 | a reachable commit of 2^31 bytes that moves the put pointer below the buffer |
| StreamBuffers.ConsumeBackwards | include/asio/basic_streambuf.hpp:247-254 | a reachable consume of 2^31 bytes that moves the get pointer below the buffer |

## Left out

- Sockets, signals, thread pinning, scheduling priority, timestamps and the latency report of src/main.cpp and
  include/ThreadUtils.h, and every other header under include/asio: operating system calls and printing.
- The packed byte layout of packets and the 31/1 bit-field encoding: packets are a datatype, a quantity is a number
  below 2^31, the side a boolean.
- Calls outside the stated preconditions (an added id that is live, ids or prices out of range): the source does not
  check them.
- The pool size and the table size are one parameter, as both are `MAX_ORDERS` in the source; a pool smaller than the
  table, which could discard a remainder, is not modelled.
- The words of the bitmap and the id table are sequences that the methods reassign, not arrays: the sharing of one
  buffer between two sets, which the source cannot do either, is not expressible.
- The C++ memory model beyond stale acquire loads: each thread's steps take effect in program order.
- SpscObject.SpscQueue.Pop: returns the slot value beside the flag instead of writing through a reference.
- The allocator, the destructor and cache-line padding of the queue, and the debug assertion of `size()`.
- Engine.RunMatchingEngine: the queue receives nothing while the loop runs; the interleaving with the network thread
  is the subject of EngineSystem, whose worker takes the same steps.
- StreamBuffers.StreamBuf.Grow: a failing memory allocation is not modelled.
- StreamBuffers.StreamBuf.Consume: the pointer sum `gptr() + n` is taken as a number, without the wrap-around of an
  address, which the language leaves undefined.
- StreamBuffers.StreamBuf.Overflow: the end-of-file argument, which writes nothing, is not modelled.
- Benchmarks, the Python sender and the performance claims.
