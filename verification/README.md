# C++ intermediate guide: order book, min-heap, variadic templates, list filter

This project is a Dafny model of four pieces of an intermediate C++ guide, with proofs about the model:

- **The limit order book** (`orderbook.cpp`):
  - a bid ladder, best price highest, and an ask ladder, best price lowest;
  - each ladder maps a price to a FIFO queue of orders, and an index maps order id to the resting order;
  - price-time-priority matching, with the Good-Till-Cancel and Fill-And-Kill order kinds;
  - `AddOrder`, `CancelOrder`, the modify operation `MatchOrder`, `Size` and `GetOrderInfos`.
- **The array-backed binary min-heap** (`heap.h`):
  - the index helpers;
  - `Add` (sift-up) and `Pop` (root swapped with the last slot, shrink, sift-down);
  - the vector constructors;
  - the test runs of `heap.cpp`.
- **The variadic templates** (`variadic_templates.cpp`): the recursive `adder`, and `MyVector` with its `push_back`, `push_back_all` and `size`.
- **`RemoveOdds`** (`iterators.cpp`): an in-place list filter that uses C++'s truncated remainder.

Every operation is a pure function on an immutable datatype, except five methods:

- `PushBack` and `RemoveOdds` loop over an array or a sequence;
- `PushBackAll` appends its arguments one `PushBack` at a time;
- `PushBackAllTenToForty` and `HeapScenarios.MixedRun` replay runs from the source's `main` functions.

The order book, in modules `Orders`, `Levels`, `OrderBook`, `BookProperties` and `BookScenarios`:

- **State.** A `Book` holds two ladders (`map<Price, seq<Order>>`) and an index (`map<OrderId, Entry>`). An `Entry` holds the immutable attributes the index reaches through its shared pointer.
- **Invariant.** `Valid` is the class invariant:
  - no level is empty;
  - every resting order has remaining quantity at most its initial quantity;
  - ids are distinct within a level;
  - an id is indexed exactly when it rests in exactly one level, at the side and price its entry names.
- **Uncrossed** is the state after matching. Every public operation keeps `Valid`, and `AddOrder` leaves an accepted order's book `Uncrossed`.
- **Integer widths.**
  - Prices are `std::int32_t`, quantities `std::uint32_t` and ids `std::uint64_t`; each is a subset type of `int`.
  - The depth `GetOrderInfos` reports is summed in `std::uint32_t` and wraps modulo 2^32, as the source does.

The heap, in modules `MinHeap` and `HeapScenarios`:

- **Elements** are `int`.
- **Pop on an empty heap.** `vec_.at(0)` throws `std::out_of_range`; here that is `Failure(OutOfRange)`.
- **Parent of the root.** `Parent(0)` wraps around, because of unsigned `size_t` arithmetic.
- **Draining** (`PopAll`) is how the tests pop until empty. It is proved to yield the one ascending arrangement of the heap's elements.

## Model

| member | source | states |
|---|---|---|
| Orders.NewOrder | orderbook.cpp:53-54 | a new order keeps its kind, id, side and price, has initial and remaining both equal to the requested quantity, nothing filled, and is filled exactly when its quantity is 0 |
| Orders.FilledQuantity | orderbook.cpp:62 | unsigned 32-bit `initial - remaining`: for a well-formed order, filled plus remaining is initial; otherwise the subtraction wraps |
| Orders.IsFilledIffAllFilled | orderbook.cpp:62-63 | a well-formed order is filled exactly when its filled quantity has reached its initial quantity |
| Orders.ToOrder | orderbook.cpp:100-103 | the order a modify request builds carries the request's id, side, price and quantity, the kind it is given, and nothing filled |
| Orders.Fill | orderbook.cpp:67-75 | fails with the order's id exactly when asked for more than remains; otherwise subtracts exactly that amount, changes nothing else, keeps remaining at most initial, adds to the filled quantity and is filled exactly when all that remained was taken |
| Levels.RemoveId | orderbook.cpp:296-304 | erasing an id from a queue leaves the queue unchanged when the id is absent, and otherwise removes exactly one order |
| Levels.RemoveIdShape | orderbook.cpp:296-304 | the erased queue is the old one with exactly the slot of the id skipped, every other order in its old relative order |
| Levels.RemoveIdDropsOnlyId | orderbook.cpp:284-307 | erasing an id from a queue with distinct ids keeps every other id and adds none |
| Levels.PricesBestFirst | orderbook.cpp:147-148 | the iteration order of a ladder: every registered price exactly once, strictly best first (descending for bids, ascending for asks) |
| OrderBook.EmptyBook | orderbook.cpp:136-149 | a default-constructed book is valid and uncrossed and holds no order |
| OrderBook.EmptyBookInfos | orderbook.cpp:136-149 | a default-constructed book reports no level on either side |
| OrderBook.CanMatch | orderbook.cpp:151-172 | a buy can match exactly when some ask is at or below its price, a sell exactly when some bid is at or above it (none when the opposite ladder is empty) |
| OrderBook.CanTradeIffCrossed | orderbook.cpp:180-189 | the matching loop continues (both ladders occupied, best bid not below best ask) exactly when some bid price reaches some ask price |
| OrderBook.Insert | orderbook.cpp:258-274 | an accepted order goes to the tail of the queue for its exact price on its side, creating the level if absent; other levels and the opposite ladder are untouched; the index gains exactly its entry |
| OrderBook.Unlink | orderbook.cpp:278-308 | an indexed order leaves the index and its queue, and an emptied level leaves its ladder; every other level and the opposite ladder stay as they were |
| OrderBook.FillFront | orderbook.cpp:198-222 | filling the oldest order of a level: a partial fill keeps it at the front with less remaining; a complete fill pops it, unindexes it and erases an emptied level |
| Levels.RemainingInRemoveId | orderbook.cpp:296-304 | erasing one id from a queue leaves what remains of every other order unchanged |
| OrderBook.FillFrontResting | orderbook.cpp:198-222 | filling the oldest order of a level by `q` takes exactly `q` from that order's remaining quantity and nothing from any other order |
| OrderBook.BothLegsResting | orderbook.cpp:193-222 | filling the oldest bid and the oldest ask by the same quantity takes exactly the trade's two legs out of the book |
| OrderBook.MatchStep | orderbook.cpp:191-227 | one match pairs the oldest orders of the best bid and best ask levels and trades the smaller remaining quantity on both legs at each order's own price; the new book is exactly the old one with both fronts filled by that quantity, at least one order leaves the index, each leg names an indexed order of its side at its price, and every order's remaining quantity plus what it traded equals its remaining quantity before |
| OrderBook.MatchLoop | orderbook.cpp:180-229 | matching ends with an uncrossed, valid book, only ever removes orders, makes at most one trade per removed order, does nothing to an uncrossed book and trades at least once on a crossed one; every trade pairs an indexed bid with an indexed ask at their own prices, and every order's remaining quantity plus all it traded equals its remaining quantity before |
| OrderBook.KillFrontFak | orderbook.cpp:231-239 | after matching, when the oldest order at the best bid is Fill-And-Kill the result is exactly `CancelOrder` of its id, which leaves the index; otherwise the book is unchanged |
| OrderBook.KillResting | orderbook.cpp:231-239 | the Fill-And-Kill check changes no remaining quantity of an order it keeps, and removes only a Fill-And-Kill order |
| OrderBook.MatchOrders | orderbook.cpp:175-242 | the book returned is valid and uncrossed and holds only orders it held before; a crossed book trades at least once; every trade is balanced, with the bid price at or above the ask price, and pairs an indexed bid with an indexed ask at their own prices; an order still resting has its old remaining quantity less all it traded, and an order that left was either traded in full or was Fill-And-Kill |
| OrderBook.CancelResting | orderbook.cpp:278-308 | cancelling an id leaves nothing of it resting and every other order's remaining quantity unchanged |
| OrderBook.InsertResting | orderbook.cpp:258-274 | inserting an order rests its whole remaining quantity and leaves every other order's remaining quantity unchanged |
| OrderBook.InsertThrough | orderbook.cpp:253-275 | after an order is inserted into an uncrossed book, every crossing bid-ask pair has the new order alone in its level on its side |
| OrderBook.FrontIsThrough | orderbook.cpp:193-196 | while every crossing runs through one order, that order is on its side of the next trade |
| OrderBook.StepThrough | orderbook.cpp:191-227 | one match keeps every crossing running through that one order |
| OrderBook.LoopThrough | orderbook.cpp:180-229 | while every crossing runs through one order, every trade of the matching loop has that order on its side |
| OrderBook.AcceptedMatch | orderbook.cpp:253-275 | every trade made after an accepted order is inserted pairs orders of the book with the new order added, and an accepted order that can cross trades at least once |
| OrderBook.AcceptedOnlyAgainst | orderbook.cpp:253-275 | on a book that was uncrossed, every trade made after an accepted order is inserted has the new order on its own side |
| OrderBook.AcceptedResting | orderbook.cpp:253-275 | after an accepted order is inserted and matched, each resting order has its old remaining quantity less all it traded, counting the new order's full quantity as its old one; an order that left was either traded in full or was Fill-And-Kill |
| OrderBook.RestAndMatch | orderbook.cpp:253-275 | the accepted branch of `AddOrder`: the book ends valid and uncrossed, every trade pairs orders of the book with the new order added, a crossing order trades at least once, on an uncrossed book the new order is on its side of every trade, and every order's remaining quantity is conserved against what it traded |
| OrderBook.AddOrder | orderbook.cpp:246-276 | a duplicate id, or a Fill-And-Kill order that cannot cross, changes nothing and trades nothing; an accepted order leaves the book uncrossed and valid and trades at least once when it can cross; every indexed id keeps its old entry or is the new order with its own entry; on an uncrossed book every trade has the new order on its side; every resting order's remaining quantity plus all it traded equals its quantity before (the new order's own remaining quantity for the new order), and an order that left was traded in full or was Fill-And-Kill |
| OrderBook.AcceptedIndex | orderbook.cpp:258-275 | after an accepted order is inserted and matched, every indexed order is an old one with its old entry or the new order |
| OrderBook.AddOrderKillingFak | orderbook.cpp:231-239 | corrected add: the same trades as `AddOrder`, identical for Good-Till-Cancel, but a Fill-And-Kill order never rests and no resting Fill-And-Kill order is created |
| OrderBook.CancelOrder | orderbook.cpp:278-308 | an unknown id is a no-op; otherwise exactly that id leaves the index, every level becomes the old level with the id erased, and an uncrossed book stays uncrossed |
| OrderBook.ModifyOrder | orderbook.cpp:311-323 | an unknown id changes nothing and trades nothing; otherwise the result is exactly `AddOrder` of the replacement, with the original kind, on the book after `CancelOrder`; the replacement is indexed at its new side and price, every other order keeps its entry, and the book stays valid and, if it was, uncrossed |
| OrderBook.CancelThenAddIndex | orderbook.cpp:318-322 | cancelling and re-adding keeps every other order's index entry and indexes the replacement with its original kind at its new side and price |
| OrderBook.CancelThenAddKeeps | orderbook.cpp:318-322 | cancelling and re-adding keeps an uncrossed book uncrossed, and a book without resting Fill-And-Kill orders without them |
| OrderBook.CancelThenAddUncrossed | orderbook.cpp:318-322 | cancelling and re-adding keeps an uncrossed book uncrossed |
| OrderBook.CancelThenAddNoFak | orderbook.cpp:318-322 | cancelling and re-adding keeps a book without resting Fill-And-Kill orders without them |
| OrderBook.ModifyOrderKillingFak | orderbook.cpp:311-323 | corrected modify, re-adding through `OrderBook.AddOrderKillingFak`: the same trades as `ModifyOrder`, identical for a Good-Till-Cancel order, and a modified Fill-And-Kill order never rests |
| OrderBook.Size | orderbook.cpp:325 | the number of indexed orders; a valid book has none exactly when both ladders are empty |
| OrderBook.OrdersRestIffIndexed | orderbook.cpp:325 | a valid book's index is empty exactly when both ladders are empty |
| OrderBook.AccumulateWraps | orderbook.cpp:333-338 | the 32-bit running sum of remaining quantities equals the true depth reduced modulo 2^32 |
| OrderBook.LadderInfos | orderbook.cpp:333-350 | one info per level of a ladder, in the ladder's iteration order, each carrying its level's price and depth modulo 2^32 |
| OrderBook.GetOrderInfos | orderbook.cpp:327-353 | bids are described best (highest) first and asks best (lowest) first: one entry per level, every level exactly once, with its wrapped depth |
| BookProperties.IndexedIffResting | orderbook.cpp:139-149 | an id is indexed exactly when it rests in some level of some ladder |
| BookProperties.RestsOnce | orderbook.cpp:139-149 | a resting order rests at the side and price its index entry names, and at one position only |
| BookProperties.InsertUncrossed | orderbook.cpp:253-275 | inserting an order that cannot cross keeps an uncrossed book uncrossed |
| BookProperties.InsertKeepsFront | orderbook.cpp:231-239 | inserting a Good-Till-Cancel order never puts a Fill-And-Kill order at the front of the best bid |
| BookProperties.AddNonCrossingRests | orderbook.cpp:258-275 | a Good-Till-Cancel order that cannot cross rests at the tail of its price's queue, trades nothing, and `Size` grows by one |
| BookProperties.LastBidEndsMatching | orderbook.cpp:180-183 | a match that takes the last bid is the only trade, and the Fill-And-Kill check finds nothing to cancel |
| BookProperties.CancelSplicesLevel | orderbook.cpp:292-307 | cancelling splices the order out of its level; the other orders keep their relative order |
| BookProperties.CancelSize | orderbook.cpp:278-285 | `Size` drops by one exactly when the cancelled id was resting |
| BookProperties.ModifyLosesPriority | orderbook.cpp:311-323 | modifying a resting order that then cannot cross re-queues it at the tail of the level for its new price, with no trade and the same `Size` |
| BookScenarios.OneBidAdded | orderbook.cpp:246-276 | adding a Good-Till-Cancel buy of 5 at 100 to an empty book rests it without a trade |
| BookScenarios.AddThenCancelSize | orderbook.cpp:359-363 | a buy of 10 at 100 makes `Size` 1, and cancelling it makes `Size` 0 |
| BookScenarios.FakSellRestsAsWritten | orderbook.cpp:231-239 | as written, a Fill-And-Kill sell of 10 against a bid of 5 trades 5, and its remaining 5 rests on the ask side |
| BookScenarios.FakSellKilledCorrected | orderbook.cpp:231-239 | corrected, the same run trades once and leaves an empty book with no resting Fill-And-Kill order |
| MinHeap.Parent | heap.h:15 | the parent of a non-root slot is below it and has it as a child; the root's parent is the wrapped `(SIZE_MAX) / 2` |
| MinHeap.LeftChild | heap.h:16 | the left child is beyond its slot and has that slot as its parent |
| MinHeap.RightChild | heap.h:17 | the right child is next to the left child and has the same parent |
| MinHeap.EmptyHeap | heap.h:35 | a default-constructed heap has size 0 and is a heap |
| MinHeap.FromVector | heap.h:68-70 | the vector constructors keep the elements and the size, and the result is a heap exactly when the vector already was one |
| MinHeap.Size | heap.h:72-76 | the size is the number of elements held, counted with multiplicity |
| MinHeap.SiftUp | heap.h:24-30 | sifting up keeps the elements and turns a heap with one possibly-too-small slot into a heap |
| MinHeap.Add | heap.h:19-31 | adding grows the size by one, adds exactly the element to the multiset, and keeps the heap property |
| MinHeap.Smallest | heap.h:93-100 | the slot the sift-down compares against is the least of a slot and its existing children |
| MinHeap.MoveLastToRoot | heap.h:84-87 | swapping the root with the last slot and trimming removes exactly the root value, shrinks the vector by one, and leaves a heap whose only possible violation is at the root |
| MinHeap.SiftDown | heap.h:89-107 | sifting down keeps the elements and turns a heap with one possibly-too-big slot into a heap |
| MinHeap.RootIsMin | heap.h:83 | the root of a heap is no larger than any element |
| MinHeap.Pop | heap.h:80-110 | an empty heap is an out-of-range error; otherwise the root is returned, the size drops by one, exactly that value leaves the multiset, and a heap stays a heap whose popped value is at most every element |
| MinHeap.PopAll | heap.cpp:27-33 | popping until empty yields every element once, in ascending order when the heap property held |
| MinHeap.AscendingUnique | heap.cpp:27-33 | two ascending sequences holding the same elements are equal |
| MinHeap.DrainIsSorted | heap.cpp:27-33 | draining a heap yields exactly the ascending arrangement of its elements |
| MinHeap.Heapify | heap.h:68-70 | corrected vector constructor: the same elements and size, and a heap |
| MinHeap.HeapifiedPopsMin | heap.h:68-70 | popping a heapified vector yields one of its least elements |
| HeapScenarios.SixAdded | heap.cpp:17-22 | adding 5, 3, 7, 1, 9, 2 builds a heap of exactly those values |
| HeapScenarios.SixPopsAscend | heap.cpp:29-33 | six pops of that heap yield 1, 2, 3, 5, 7, 9 |
| HeapScenarios.VectorPopNotMin | heap.cpp:110-111 | as written, the vector 50, 30, 70, 20, 40, 60, 80 is not a heap and its first pop returns 50 although 20 is present |
| HeapScenarios.HeapifiedVectorPopsMin | heap.cpp:110-111 | corrected, any heap of those values pops 20 first |
| HeapScenarios.MixedFirstPop | heap.cpp:191-194 | popping the heap of 10 and 5 yields 5 and leaves 10 |
| HeapScenarios.MixedSecondPop | heap.cpp:196-199 | popping a heap of 10, 3 and 8 yields 3 and leaves a heap of 10 and 8 |
| HeapScenarios.MixedDrain | heap.cpp:201-210 | draining a heap of 10, 8, 1, 15 and 7 yields 1, 7, 8, 10, 15 |
| HeapScenarios.MixedRun | heap.cpp:186-211 | the whole mixed run pops 5, then 3, then 1, 7, 8, 10, 15 |
| VariadicTemplates.LeftSumFirst | variadic_templates.cpp:31-36 | a left-to-right sum is its first element plus the left-to-right sum of the rest |
| VariadicTemplates.Adder | variadic_templates.cpp:22-36 | the right fold `first + adder(rest...)` equals the left-to-right sum of all arguments; one argument is returned as is |
| VariadicTemplates.AdderOneToFive | variadic_templates.cpp:119 | `adder(1, 2, 3, 4, 5)` is 15 |
| VariadicTemplates.EmptyVector | variadic_templates.cpp:61 | a default-constructed vector has size 0 |
| VariadicTemplates.Size | variadic_templates.cpp:68 | the size is 0 exactly when no element is stored |
| VariadicTemplates.PushBack | variadic_templates.cpp:70-86 | the size grows by one, every earlier element stays at its index, and the value is last |
| VariadicTemplates.PushBackAll | variadic_templates.cpp:89-100 | the arguments are appended exactly, in argument order |
| VariadicTemplates.PushBackAllTenToForty | variadic_templates.cpp:124 | `push_back_all(10, 20, 30, 40)` on an empty vector holds 10, 20, 30, 40 |
| Iterators.CppRem2 | iterators.cpp:22 | C++ `x % 2`: a value in -1..1 congruent to `x` modulo 2, negative only for a negative dividend |
| Iterators.ErasedIffPositiveOdd | iterators.cpp:22 | the test erases exactly the positive odd numbers; a negative odd number has remainder -1 |
| Iterators.SurvivorsMembers | iterators.cpp:22-26 | an element survives exactly when it is in the list and is not erased |
| Iterators.RemoveOdds | iterators.cpp:17-28 | the in-place erase loop leaves exactly the survivors, in their original order |
| Iterators.SurvivorsAppend | iterators.cpp:19-27 | filtering a concatenation filters each part, so survivors keep their relative order |
| Iterators.SurvivorsKeepAll | iterators.cpp:17-28 | a list with nothing to erase is left unchanged |
| Iterators.SurvivorsIdempotent | iterators.cpp:17-28 | removing odd numbers twice is removing them once |
| Iterators.KeptUnlessPositiveOdd | iterators.cpp:22-26 | every even and every negative odd element survives |
| Iterators.OneToFour | iterators.cpp:39-41 | `{1, 2, 3, 4}` becomes `{2, 4}` |
| Iterators.NegativeOddKept | iterators.cpp:22 | `{-3, 5}` becomes `{-3}` |

## Left out

- Console output and the `main` functions are left out, apart from the runs their calls describe: they are I/O.
- `heap.h`'s mutex and the concurrency tests of `heap.cpp` (lines 214-422) are left out: locking and threads have no sequential meaning.
- The `double` heap test (`heap.cpp` lines 142-160) is left out, because it uses floating point. The heap holds `int`.
- `move.cpp` is not part of this model. It overrides the global allocator and only logs.
- `std::shared_ptr` and the stored `std::list` iterators are left out. An index entry holds the order's immutable attributes, and an order is found in its level by id. Ids in a level are distinct, so the two coincide.
- Capacity hints are left out: `trades.reserve`, `bidInfos.reserve` and `Heap::Reserve` (heap.h:77). They change neither contents nor size, so under value semantics they are the identity.
- Copy and move construction and assignment of `Heap` (heap.h:39-65) are left out. The copy tests of heap.cpp:37-105 hold by construction: an immutable `Heap` is copied by value, so popping a copy cannot change the original. The moved-from state is unspecified by the standard.
- The large-heap and reserve tests (`heap.cpp` lines 118-140 and 162-184) have no scenario of their own. They are instances of `MinHeap.DrainIsSorted`.
- `OrderBook.MatchLoop`: in the source, the inner loop's condition reads a level that the loop may just have erased from its map (lines 191, 210, 220). That is undefined behaviour. The model takes the intended reading and leaves the inner loop once a level empties.
- `OrderBook.ModifyOrder`: the source reads the order kind through a reference into the index entry that `CancelOrder` has just erased (lines 318-322). The model captures the kind before cancelling.
- `OrderBook.AddOrder` requires the incoming order to be well formed (remaining at most initial). Every order the source builds comes from the constructor, which makes it so.
- `VariadicTemplates.Adder` does not model `int` overflow. Its arguments are unbounded integers; the source's sum would overflow a 32-bit `int`.
- `VariadicTemplates.PushBack` models `MyVector`'s contents, not its memory. The `new[]`/`delete[]` lifecycle and the missing copy constructor are left out.
- `MinHeap.LeftChild` and `MinHeap.RightChild` are left out for `size_t` wrap-around at indices near 2^63, since no vector reaches that size.
- `Iterators.CppRem2` models C++ `%` with divisor 2 only, the one divisor the source uses.

## Findings

| source | as written | input that shows it | evidently intended | confidence | as-written member | corrected member |
|---|---|---|---|---|---|---|
| orderbook.cpp:231-239 | after matching, only the oldest order at the best bid is checked for Fill-And-Kill, so a partially filled Fill-And-Kill sell rests on the ask side | a Good-Till-Cancel buy of 5 at 100 rests; then a Fill-And-Kill sell of 10 at 100 arrives; it trades 5 and its remaining 5 rests | a Fill-And-Kill order never rests, whichever its side | not executed | BookScenarios.FakSellRestsAsWritten | OrderBook.AddOrderKillingFak |
| heap.h:68-70 | the vector constructors store the vector unchanged, without heapifying it | the vector 50, 30, 70, 20, 40, 60, 80 (heap.cpp:110-111); the first pop returns 50 although 20 is present | the constructed heap satisfies the heap property, so pops return the minimum | not executed | HeapScenarios.VectorPopNotMin | MinHeap.Heapify |
