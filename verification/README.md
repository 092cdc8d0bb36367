# A verified model of the exchange

A Dafny model of a limit-order exchange: the order book and its matching engine, the single-producer
single-consumer queue its responses leave by, the generator of synthetic markets that feeds it, and the datagram
codec of its experimental feed. `dafny verify dfyconfig.toml` checks everything.

**The order book.** `OrderBook.OrderBook` keeps the source's structures: one array of nodes with a pool per price
level, circular order lists through a sentinel per level, free lists through the same `next` field, two best-price
hints that a cancellation leaves stale, two counts, an id index whose entries are never cleared, and the ring of
fulfilled orders. Its handlers are proved to do exactly what `ReferenceBook` does: two sequences in
price-then-arrival order, matched greedily from the front, cancelled by search. `Exchange.MatchAllOrders` lifts
this to whole request sequences, ring drain and outgoing queue included. What a user of the exchange wants to know
is then proved of the reference book, for all runs: the shortest-prefix law, price-time priority, an uncrossed
book, conservation of lots, the meaning of every answer.

How the proof is laid out: `NodeLists` and `NodeArena` (pointer updates as sequence updates), `PriceLevels` (the
tick array and the two sides it spells), `BookState` (counts and hints), `OrderIndex` (ids), `MatchLoop` (what a
round of matching keeps), `OrderBook` (the methods), `FulfilledRing` and `RingDrain` (what of the fills reaches the queue). The methods are short because each proves only which values
it wrote; what that means for the book is in lemmas over sequences. `At` is a predicate that is true everywhere;
it guards some quantified invariants so that they are used only where an index is named.

**The queue.** `SpscProtocol` is a state machine whose steps are single accesses to shared memory by the two
threads, in any interleaving. A load of the other side's index may return any value it had since the one last
seen, so nothing rests on sequential consistency; that a slot is seen as it was when its index was published is
what the source's acquire loads and release stores are for, and is taken as the memory model here. `SpscQueue` is
the object; its calls are proved to be runs of the protocol.

**The generator.** `MarketGenerator` emits the stream and keeps its pool and tally; `GeneratedMarket` runs the
stream through the matcher. Random draws are arbitrary values in their range.

**The codec.** `WireBytes`, `UdpWire`, `UdpCodec`: big-endian integers (network byte order, Appendix B of RFC 791)
on hosts of either byte order, message framing with declared sizes, and the procedures over a byte buffer.

What a specification function means is not left to the function: `StepLaws`, `TakesShortestPrefix`, the layouts, the
digits of `WireBytes` and the rounds of `MarketGenerator` say it again in plain numbers, and the proofs connect the two.

What the matcher demands of its input is written down once, in `ReferenceBook.Admissible`: lots within 63 bits and
sign, market orders with the sign of their type, an order that is about to rest having a tick on the ladder, an
index entry, an id not resting and a free node, the one instrument. It is stated on the reference book, where a
caller can compute it; `PoolIsExact` and `IndexIsExact` say that the last of these is not more than the concrete
structures need. The size of the ring is no such demand: a request with more fills than slots is handled, and what
the queue is then offered is stated exactly (`RingDrain.Responses`). Shifts and masks by powers of two are written
as quotient and remainder; the hint arithmetic keeps its 64-bit wrap, and the proof shows it never wraps.

Where the source and its comments or tests differ, the model follows the source: a market order that cannot be
filled keeps its fills and answers PartiallyFilled, where a comment says it is rejected (matcher.cpp:269); nodes
are recycled within a level and the index is an array that is never cleared, where some tests expect otherwise
(cancelTests.cpp:181, test_helpers.h:189); a request may fill more orders than the ring has slots, where a comment
says the ring is large enough (matcher.h:192).

Three properties fail in the source without a condition. For each there is an input, and the condition under which
it holds, both ways:

- The ring loses fills when one request makes more than it has slots. `RingDrain.SweepOverrunsRing` gives an
  admissible run that does so in every exchange with room for it, `SourceRingOverruns` at the source's sizes;
  `OfferedExact` and `ResponsesExact` say that it happens exactly when a condition on the book before the request
  fails.
- The queue's buffer is not refused at the largest capacity: its slot count wraps to zero
  (`SpscQueue.LargestCapacityHasNoSlots`). A buffer that is not refused is usable if and only if its capacity is
  not that one (`SpscQueue.SizingIsUsable`).
- A passive ask whose depth overflows 32 bits is priced at 0 instead of above the midpoint
  (`MarketGenerator.DeepestAsk`, `PriceKeepsSide`). Such a depth is in the range of the draw's type; how likely it
  is to be drawn is not part of this model.

## Model

| member | source | states |
|---|---|---|
| Exchange.MatchAllOrders | src/matcher/src/matcher.cpp:244-305 | for every admissible request sequence, ring overruns included, the concrete book ends with the reference book's resting orders, and the queue holds a prefix of what it held and the run offers (surviving fills, then own answer, request by request): all of it if that fits, else the first ones up to the capacity |
| Exchange.MatchNew | src/matcher/src/matcher.cpp:112-150 | the same from an empty book and an empty queue; what is offered are the reference responses if and only if the fills of every request fit in the ring |
| Exchange.Process | src/matcher/src/matcher.cpp:253-301 | one request: the book is one reference step, the surviving fills and the own answer are offered, and the read counter meets the write counter again |
| Exchange.Handle | src/matcher/src/matcher.cpp:254-282 | dispatch by type, zero orders rejected, unknown types answered by the default response; what a drain will find are the fills of this request that survive in the ring |
| Exchange.Drain | src/matcher/src/matcher.cpp:284-289 | the drain offers what was recorded since the last one, oldest first, and leaves read equal to write |
| Exchange.Fitting | src/matcher/src/matcher.cpp:284-299 | what a queue that refuses when full ends up with: a prefix of what is offered, all of it or as long as the capacity |
| OrderBook.OrderBook.constructor | src/matcher/src/matcher.cpp:86-94 | a new book is in order and stands for the empty book |
| OrderBook.OrderBook.HandleMarketOrder | src/matcher/src/matcher.cpp:311-387 | book, fills and answer are those of the reference match; the ring gains exactly the fills; the own hint is untouched; unless filled, the opposite hint is unset or past the limit, and it is unset when the side is empty; the loop takes at most one round per fill plus one per level |
| OrderBook.OrderBook.HandleLimitOrder | src/matcher/src/matcher.cpp:389-450 | book, fills and answer are those of the reference limit order: match within the limit, rest the remainder behind its price |
| OrderBook.OrderBook.HandleCancellation | src/matcher/src/matcher.cpp:452-466 | with a never-cleared index and recycled nodes, exactly the reference cancel by search |
| OrderBook.OrderBook.MatchCrossing | src/matcher/src/matcher.cpp:401-418 | consulting only the stale hint loses no match: the opposite side and remainder are those of a full reference match, the answer is Filled exactly when nothing remains (the source's assertion), and what remains may rest without crossing |
| OrderBook.OrderBook.RestOrder | src/matcher/src/matcher.cpp:420-447 | hint, node, index, count and hint again: the side gains the order at its price-time position, its hint becomes the better of hint and price, the other hint stays |
| OrderBook.OrderBook.MatchRounds | src/matcher/src/matcher.cpp:331-372 | the loop terminates, keeping fills so far plus match of the rest equal to the whole match, with all lots within int64 |
| OrderBook.OrderBook.FillHead | src/matcher/src/matcher.cpp:349-371 | one fill: head used up and recycled, or shrunk in place, count and ring to match |
| OrderBook.OrderBook.HintsBracket | src/matcher/include/matcher/matcher.h:194 | in every valid state every bid is at or below its hint, every ask at or above, a nonempty side has a hint, a set hint is on the ladder, of two set hints the bid hint is below the ask hint even over sides that cancels have emptied, and no level mixes sides |
| OrderBook.OrderBook.NodesAccounted | src/matcher/include/matcher/matcher.h:166-176 | in every valid state each node is in exactly one of its own level's two lists, which together have a pool's worth of nodes |
| OrderBook.OrderBook.CountsAreTotals | src/matcher/include/matcher/matcher.h:188 | the counts, which every handler keeps equal to the sizes of the two sides, sum to the lengths of all order lists, and with all free lists to the whole arena |
| OrderBook.OrderBook.PoolIsExact | src/matcher/src/matcher.cpp:524-530 | a level's free list is nonempty if and only if fewer orders of the side rest at its price than its pool has nodes |
| OrderBook.OrderBook.IndexIsExact | src/matcher/src/matcher.cpp:455-456 | the index leads to a node carrying the id if and only if an order with that id rests |
| OrderBook.OrderBook.NoCross | src/matcher/src/matcher.cpp:401-405 | an order that does not reach the opposite hint matches nothing in the reference book |
| MatchLoop.FillStep | src/matcher/src/matcher.cpp:349-371 | one fill keeps the book in order, stays within int64, and is one step of the reference match |
| MatchLoop.WalkRound | src/matcher/src/matcher.cpp:334-347 | at an empty level with orders left the next level is on the ladder: the hint neither passes the top nor wraps below 0 |
| MatchLoop.MatchAnswer | src/matcher/src/matcher.cpp:373-386 | when the loop has stopped, forgetting the hint of an empty side leaves the reference outcome and answer |
| BookState.HintLevel | src/matcher/src/matcher.cpp:333-349 | the level at a hint holds nothing of the other side and nothing of its side is ahead of it |
| BookState.WalkOn | src/matcher/src/matcher.cpp:331-347 | while the count is positive the hint is set and one more step stays inside the ladder and loses no order |
| BookState.PastLimit | src/matcher/src/matcher.cpp:339-345 | a hint past the limit means the whole side is, so breaking off loses no match |
| BookState.Unset | src/matcher/src/matcher.cpp:373-377 | forgetting the hint of a side with count zero keeps the book in order |
| BookState.Rest | src/matcher/src/matcher.cpp:424-447 | appending to a level is insertion at the price-time position of the side, and the new hint keeps the hints apart |
| BookState.TakeOut | src/matcher/src/matcher.cpp:458-461 | unlinking from the middle of a level removes exactly that order from its side, stale hints staying sound |
| BookState.LevelCount | src/matcher/src/matcher.cpp:432-440 | a level holds as many orders as its side counts at its price |
| PriceLevels.SetLevel | src/matcher/include/matcher/matcher.h:196 | changing one level within one side changes that stretch of that side and nothing of the other |
| PriceLevels.SideAround | src/matcher/include/matcher/matcher.h:196 | a side is what is ahead of a level, the level, and what is behind it |
| PriceLevels.LevelOrderIsResting | src/matcher/include/matcher/matcher.h:196 | the k-th order of a level rests on its side at that level's price, k places behind the orders of better levels |
| OrderIndex.Located | src/matcher/src/matcher.cpp:455-461 | a node that carries an id is in the order list of the level its index gives |
| OrderIndex.NotIndexed | src/matcher/src/matcher.cpp:455-465 | if the index entry is null or its node carries another id, no level carries the id |
| OrderIndex.IndexAfterRelease | src/matcher/src/matcher.cpp:532-539 | blanking a released node keeps the uncleared index sound |
| OrderIndex.IndexAfterRest | src/matcher/src/matcher.cpp:434-438 | a recycled node under a new id keeps the index sound, older entries to it included |
| OrderIndex.IdsUnique | src/matcher/src/matcher.cpp:438 | no two resting nodes carry the same id |
| NodeLists.AppendToRing | src/matcher/src/matcher.cpp:493-499 | the four link updates add the node at the end of the circle |
| NodeLists.UnlinkFromRing | src/matcher/src/matcher.cpp:501-505 | the two link updates remove the node from any position of the circle |
| NodeLists.TraversalsMirror | src/matcher/include/matcher/matcher.h:71-75 | forward and backward traversals are mirror images and end at the sentinel |
| NodeArena.OrdersData.constructor | src/matcher/src/matcher.cpp:507-522 | every level starts with an empty order list and its whole pool free, in index order |
| NodeArena.OrdersData.Append | src/matcher/src/matcher.cpp:493-499 | the level's sequence gains the node at its end; all other levels, free lists and order data are unchanged |
| NodeArena.OrdersData.Unlink | src/matcher/src/matcher.cpp:501-505 | the level's sequence loses the node at its position; all else is unchanged |
| NodeArena.OrdersData.GetFree | src/matcher/src/matcher.cpp:524-530 | takes the head of the level's free list, a node of that level |
| NodeArena.OrdersData.ReleaseToFree | src/matcher/src/matcher.cpp:532-539 | the node is blank and at the head of its level's free list |
| NodeArena.OrdersData.Head | src/matcher/src/matcher.cpp:483-486 | the first node of the level's sequence, or the sentinel |
| NodeArena.OrdersData.IsEmpty | src/matcher/src/matcher.cpp:488-491 | true exactly when the level's sequence is empty |
| NodeArena.OrdersData.ListIsLinked | src/matcher/include/matcher/matcher.h:71-75 | element k of a level is met k + 1 links forward from the sentinel and, from the other end, backward |
| NodeArena.PoolLevel | src/matcher/src/matcher.cpp:42-45 | the level computed from a node's index is the level whose pool it came from |
| FulfilledRing.DrainExact | src/matcher/src/matcher.cpp:284-289 | a drain returns exactly this request's fills if and only if there are no more of them than slots |
| FulfilledRing.RecordedAt | src/matcher/src/matcher.cpp:361-364 | the last ring-size fills are all still in their slots despite the wrap |
| FulfilledRing.DrainTakesSurviving | src/matcher/src/matcher.cpp:284-289 | in general a drain returns, at each position, the last fill that went to its slot, whatever the ring held before |
| ReferenceLaws.MatchTakesShortestPrefix | src/matcher/src/matcher.cpp:331-372 | a match consumes the shortest prefix within the limit that covers the lots, or all of it; all but the last filled, a partly filled one keeping its place at the head |
| ReferenceLaws.ShortestPrefixIsMatch | src/matcher/src/matcher.cpp:331-372 | that description determines the match: both directions |
| ReferenceLaws.NothingWithinLimit | src/matcher/src/matcher.cpp:337-347 | after a match with lots left over, nothing opposite is within the limit |
| ReferenceLaws.FillCount | src/matcher/src/matcher.cpp:331-372 | a match makes at most n fills if and only if there is no order n, or it is past the limit, or the n orders ahead of it cover the lots |
| ReferenceLaws.RestIsSigned | src/matcher/src/matcher.cpp:379-386 | what is left has the order's sign and is no larger; it equals the order exactly when nothing was filled |
| StepLaws.MatchLeavesPast | src/matcher/src/matcher.cpp:337-345 | an order priced past the limit is left as it was |
| StepLaws.LimitLeavesPast | src/matcher/src/matcher.cpp:403-407 | a limit buy touches no ask above its own price, a limit sell no bid below |
| StepLaws.MarketStep | src/matcher/src/matcher.cpp:264-277 | types 0 and 2: the shortest prefix of the opposite side, whatever its prices, that covers the lots is taken; own side unchanged; answer by what remains |
| StepLaws.LimitStep | src/matcher/src/matcher.cpp:389-450 | types 1 and 3: the same within the order's price; what remains is the answer and rests behind everything at its price or better, ahead of everything worse |
| StepLaws.IdleStep | src/matcher/src/matcher.cpp:256-282 | zero lots are answered Rejected, other types by the default response; no fills, same book |
| StepLaws.RunByRequests | src/matcher/src/matcher.cpp:244-301 | the book after each request of a run is that of one step, and its log entry is its fills followed by its own answer |
| ReferenceRuns.StepKeepsBook | src/matcher/src/matcher.cpp:253-301 | every request keeps both sides sorted, signed, bounded, without repeated ids, and uncrossed |
| ReferenceRuns.RunKeepsBook | src/matcher/src/matcher.cpp:244-305 | so does every run from an empty book |
| ReferencePriority.RunKeepsPriority | src/matcher/src/matcher.cpp:244-305 | over every run, of two orders on a side the one ahead has the higher bid or lower ask, or the same price and the earlier arrival |
| ReferencePriority.ArrivalsAreLast | src/matcher/src/matcher.cpp:420-449 | the arrival of an id is the last request at which a limit order with it came to rest |
| ReferenceAccounts.StepConserves | src/matcher/src/matcher.cpp:351-386 | one request: lots submitted equal lots gained by the book plus lots given back |
| ReferenceAccounts.RunConserves | src/matcher/src/matcher.cpp:244-305 | over every run signed lots are conserved |
| ReferenceAccounts.FillsAtMostLots | src/matcher/src/matcher.cpp:351-364 | a request records at most as many fills as it has lots |
| ReferenceAccounts.FillsDiffer | src/matcher/src/matcher.cpp:361-364 | no two fills of a request are alike |
| RingDrain.OfferedExact | src/matcher/src/matcher.cpp:284-292 | a request offers its fills and answer unharmed if and only if that condition, known before the request, holds with the number of slots |
| RingDrain.ResponsesExact | src/matcher/src/matcher.cpp:244-305 | over every run the offers are the reference responses if and only if it holds for every request; their number is right in any case |
| RingDrain.SellsRest | src/matcher/src/matcher.cpp:389-449 | n sells of one lot at tick 0 are admissible and leave n asks in order of arrival |
| RingDrain.SweepOverrunsRing | src/matcher/include/matcher/matcher.h:192 | after one sell more than the ring has slots, the buy of them all makes one fill more than slots and its first fill is never offered |
| RingDrain.SourceRingOverruns | src/matcher/include/matcher/matcher.h:192 | 2049 sells and a buy do this at the source's sizes |
| ReferenceAccounts.MarketAnswer | src/matcher/src/matcher.cpp:379-386 | Filled, PartiallyFilled, Rejected as none, some, all lots remain; lots remain only when the opposite side is emptied |
| ReferenceAccounts.LimitAnswer | src/matcher/src/matcher.cpp:410-449 | a limit order rests exactly when lots remain, and then nothing opposite is left within its limit |
| ReferenceAccounts.CancelAnswer | src/matcher/src/matcher.cpp:452-466 | a cancel request is answered Cancelled, with the current remainder and only that order gone, exactly when the id rests; otherwise NotFound and no change |
| ReferenceAccounts.StepNeverGrows | src/matcher/src/matcher.cpp:349-358 | a resting order keeps id, side and price, and its lots never grow or change sign |
| ReferenceAccounts.RunKeepsTicks | src/matcher/src/matcher.cpp:431-432 | every resting price stays on the ladder |
| SpscProtocol.StepKeepsInv | src/matcher/include/matcher/dro/spsc-queue.hpp:156-265 | every step of either thread keeps the indices, the lag of the caches and the slot contents |
| SpscProtocol.EveryRunIsFifo | src/matcher/include/matcher/dro/spsc-queue.hpp:156-265 | in every interleaving the delivered values are the accepted ones, once each and in order; at most capacity are held; each cache lags only in the safe direction |
| SpscProtocol.EveryRunIsRaceFree | src/matcher/include/matcher/dro/spsc-queue.hpp:287-316 | in every interleaving the slot about to be written is not one whose reading is still to be published, so neither the one about to be read nor the one just read; the slot about to be read holds the next published value |
| SpscProtocol.RefusalsAreJustified | src/matcher/include/matcher/dro/spsc-queue.hpp:193-200 | after a load the writer goes on if and only if the reader was seen less than a full queue behind, the reader if and only if something not yet taken was seen published; each gives up only when not |
| SpscProtocol.NoRunBlocksBoth | src/matcher/include/matcher/dro/spsc-queue.hpp:67 | the extra slot prevents live lock: in every interleaving the current indices never turn away both threads, and when both are at their checks one can go on |
| SpscProtocol.EveryRunKeepsBegun | src/matcher/include/matcher/dro/spsc-queue.hpp:156-171 | in every interleaving the values accepted or in hand are those of all writes begun except non-waiting ones that met a full queue; a waiting write ends only by being published; likewise reads |
| SpscProtocol.WaitsWhenTurnedDown | src/matcher/include/matcher/dro/spsc-queue.hpp:164-200 | a load that shows no room sends a waiting writer round again and a non-waiting one away; likewise readers |
| SpscProtocol.SizeIsExact | src/matcher/include/matcher/dro/spsc-queue.hpp:267-285 | the wrapped index difference is the number of accepted, undelivered values, at most the capacity, and zero exactly when the indices are equal |
| SpscQueue.HeapSizing | src/matcher/include/matcher/dro/spsc-queue.hpp:65-79 | capacity zero is refused, too large ones are, and lengths the vector cannot have; the largest capacity is not; padding, slots and padding fill the buffer |
| SpscQueue.SizingIsUsable | src/matcher/include/matcher/dro/spsc-queue.hpp:65-79 | an accepted buffer has a slot more than the capacity if and only if the capacity is not the largest size |
| SpscQueue.LargestCapacityHasNoSlots | src/matcher/include/matcher/dro/spsc-queue.hpp:68-76 | the capacity for which it has none: the slot count wraps to zero and passes the check |
| SpscQueue.SpscQueue.constructor | src/matcher/include/matcher/dro/spsc-queue.hpp:143-147 | an empty queue of the requested capacity, when that is accepted and not the largest size |
| SpscQueue.SpscQueue.TryEmplace | src/matcher/include/matcher/dro/spsc-queue.hpp:185-204 | accepts exactly when not full, appends the value, and is a run of the protocol's writer steps |
| SpscQueue.SpscQueue.TryPop | src/matcher/include/matcher/dro/spsc-queue.hpp:248-265 | delivers the oldest value exactly when not empty, and is a run of the protocol's reader steps |
| SpscQueue.SpscQueue.Size | src/matcher/include/matcher/dro/spsc-queue.hpp:267-276 | the number of values held |
| SpscQueue.SpscQueue.Empty | src/matcher/include/matcher/dro/spsc-queue.hpp:278-281 | whether no value is held |
| MarketGenerator.MakePrice | market_generator/main.cpp:49-62 | a price on the ladder on the intended side of the midpoint, clamped, except that a depth overflowing 32 bits gives 0 |
| MarketGenerator.PriceKeepsSide | market_generator/main.cpp:54-62 | a price is on its intended side of the midpoint if and only if midpoint plus depth has not overflowed 32 bits on the way up |
| MarketGenerator.DeepestAsk | market_generator/main.cpp:59-61 | the depth for which it is not: a passive ask at the largest value of the draw's type is priced at 0 |
| MarketGenerator.Drifted | market_generator/main.cpp:64-70 | from 37 to 90 the midpoint moves by the draw and is held within 37 and 90 |
| MarketGenerator.StreamIsWellFormed | market_generator/main.cpp:129-195 | ids 1 to n in order, every cancel of an earlier limit order not cancelled before, prices on the ladder, lots of the eight sizes |
| MarketGenerator.RoundLaw | market_generator/main.cpp:129-195 | a round from its draw, in numbers: midpoint, the entry a cancel picks and takes out, side, size, type, and a limit price a tick and the depth below or above the midpoint as passive or crossing |
| MarketGenerator.StreamLaw | market_generator/main.cpp:129-195 | so for every round of every stream, with the midpoint and pool it finds |
| MarketGenerator.StreamKeepsSides | market_generator/main.cpp:54-60 | every limit order of a stream is on its intended side of its round's midpoint unless its depth overflows 32 bits |
| MarketGenerator.TallySwapOut | market_generator/main.cpp:152-154 | swapping an entry with the back and popping lowers its own tally by one and no other |
| MarketGenerator.Generator.Round | market_generator/main.cpp:129-195 | one round emits the specified request, as its draw says, and keeps restingModel equal to the tally of the pool |
| MarketGenerator.Generator.EmitCancel | market_generator/main.cpp:145-157 | the cancel branch, tally included |
| MarketGenerator.Generator.EmitOrder | market_generator/main.cpp:159-194 | the order branch, tally included |
| MarketGenerator.Generator.Generate | market_generator/main.cpp:129-195 | the loop emits the specified stream |
| GeneratedMarket.EmitAdmissible | market_generator/main.cpp:145-194 | the next request of a stream meets every demand of the book and its fills fit in the ring |
| GeneratedMarket.EmitKeepsPool | market_generator/main.cpp:115-118 | what rests afterwards has its entry in the pool, with its price and side |
| GeneratedMarket.TallyBounds | market_generator/main.cpp:115-118 | a price holds at most as many orders of a side as restingModel says |
| GeneratedMarket.StreamTallyBounds | market_generator/main.cpp:115-118 | so after every stream, with no condition on the tally |
| GeneratedMarket.StreamIsAdmissible | market_generator/main.cpp:115-194 | if restingModel never exceeds a level's pool, the matcher accepts the whole stream, no request overruns the ring, and resting orders are always in the live pool |
| GeneratedMarket.GenerateAndMatch | market_generator/main.cpp:129-195 | generator and matcher end to end: the reference book and the reference responses |
| WireBytes.ValueRoundTrip | udp_common/udp_wire.h:32-52 | a value survives its big-endian bytes |
| WireBytes.BytesRoundTrip | udp_common/udp_wire.h:32-52 | bytes survive their value |
| WireBytes.BigEndianDigit | udp_common/udp_wire.h:32-40 | network byte order: the byte i places before the last is v / 256^i mod 256 |
| WireBytes.FromBigEndianDigit | udp_common/udp_wire.h:42-52 | the same of the value read |
| WireBytes.PowersOnTheWire | udp_common/udp_wire.h:64-65 | the ranges of the widths used: 2^8, 2^16, 2^32, 2^64 |
| WireBytes.PutIsNetworkOrder | udp_common/udp_wire.h:32-40 | on a host of either byte order put lays down big-endian bytes |
| WireBytes.GetIsNetworkOrder | udp_common/udp_wire.h:42-52 | on a host of either byte order get reads big-endian bytes |
| WireBytes.Put | udp_common/udp_wire.h:34-40 | the byte i places before the last of the field becomes v / 256^i mod 256, nothing else changes, the pointer advances |
| WireBytes.Get | udp_common/udp_wire.h:44-52 | the value whose bytes, least significant last, are those at the pointer; the pointer advances |
| UdpWire.BodyRoundTrip | udp_common/udp_wire.h:74-120 | a body decodes to its request whatever follows it |
| UdpWire.NewOrderLayout | udp_common/udp_wire.h:79-88 | the fields of a new order, byte range by byte range |
| UdpWire.CancelLayout | udp_common/udp_wire.h:90-95 | the fields of a cancel, byte range by byte range |
| UdpWire.MessageLayout | udp_common/udp_wire.h:133-142 | size in bytes 0-1, type code 0 or 1 in bytes 2-5, then body and padding |
| UdpWire.OtherTypesAreOrders | udp_common/udp_wire.h:99-120 | every type code but 1 is read as a new order |
| UdpWire.MessagesRoundTrip | udp_common/udp_wire.h:171-179 | any messages, bodies padded to their declared sizes or not, decode to their requests in order |
| UdpCodec.DatagramRoundTrip | udp_common/udp_wire.h:125-182 | any datagram decodes to its requests; one without messages to none |
| UdpCodec.DatagramLayout | udp_common/udp_wire.h:125-131 | sequence number, count, timestamp and messages at bytes 0, 2, 6 and 14 |
| UdpCodec.EncodeBody | udp_common/udp_wire.h:74-97 | writes exactly the body bytes and gives the type |
| UdpCodec.EncodeMessage | udp_common/udp_wire.h:133-142 | writing the body and then the header in front of it gives the framed message |
| UdpCodec.EncodeDatagram | udp_common/udp_wire.h:125-145 | the buffer starts with the datagram of one unpadded message and is otherwise untouched |
| UdpCodec.EncodeSentinel | udp_common/udp_wire.h:148-155 | the buffer starts with a header that announces no messages |
| UdpCodec.DecodeBody | udp_common/udp_wire.h:99-120 | reads a body of the given type, every type but a cancel as a new order |
| UdpCodec.DecodeDatagram | udp_common/udp_wire.h:159-182 | the requests of all announced messages in order, false exactly when none is announced |
| UdpCodec.Transmit | udp_common/udp_wire.h:125-182 | encode then decode gives the one request, between hosts of any byte order |

## Left out

- Memory mapping, huge pages, allocation arenas, prefetching, cycle counting, plots, the ladder dump and the web, gdb and cmake directories: no logical content here.
- UDP sockets, multicast, pacing and clocks: the timestamp and sequence number of a datagram are parameters.
- Probability distributions: draws are arbitrary values in range.
- The diagnostic counters (g_limitOrders and the like) and the per-request fill count kept for profiling.
- The read and write counters of the fulfilled ring are unbounded naturals; their 64-bit wrap would take 2^64 fills.
- Exchange.MatchAllOrders: does not say that every response is delivered, because the source ignores refusals of a full queue and runs no consumer; it says which ones are held.
- Memory ordering is not modelled below the level of index loads: the acquire and release pairs are the reason a slot's content is seen, and are assumed to work.
- SpscQueue.SpscQueue: does not run emplace and pop, which spin until the other thread acts; they are steps of SpscProtocol (blocking writes and reads).
- force_emplace and force_push: they skip the full check by design.
- The stack-allocated buffer variant of the queue: the same code over another array.
- size() called by a third thread while the queue is in use.
- SpscQueue.HeapSizing: the longest vector the element type allows is a parameter, and running out of memory is left out.
- SpscQueue.SpscQueue.constructor: does not build a queue of the largest capacity, which has no slot for any value; nothing is said about using one.
- Requests outside ReferenceBook.Admissible: the source asserts, overruns or indexes out of range.
- UdpCodec.DecodeDatagram: requires that the announced messages are in the buffer, because the source does no bounds checks and ignores its length argument.
- Reading a message whose declared size is shorter than its body is modelled (the next message starts inside it) but no law is stated about it.
- Stop prices are carried and never used, as in the source; more than one instrument does not exist yet.
