/** The order book and its handlers (matcher.cpp), proved to act as the reference book. */
module OrderBook {
  import opened Arithmetic
  import opened MatcherTypes
  import opened NodeLists
  import opened NodeArena
  import opened ReferenceBook
  import opened ReferenceLaws
  import opened PriceLevels
  import opened BookState
  import opened OrderIndex
  import opened FulfilledRing
  import opened MatchLoop

  class OrderBook {
    const config: Config
    const data: OrdersData
    const counts: array<int>      // 0 for asks, 1 for bids
    const bestIdx: array<int>     // 0 for asks, 1 for bids; INVALID_BEST when unset
    const fulfilled: array<MessageResponse>
    const idToOrder: array<int>
    var filledReadIdx: nat
    var filledWriteIdx: nat

    ghost function Levels(): seq<Level>
      reads data, data.nodes
    {
      LevelsOf(data.nodes[..], data.lists)
    }

    /** The book this object stands for. */
    ghost function Contents(): Book
      reads data, data.nodes
    {
      BookOf(Levels())
    }

    ghost predicate Built() {
      && config.Ok()
      && data.levels == config.levels && data.perLevel == config.perLevel
      && counts.Length == 2 && bestIdx.Length == 2
      && fulfilled.Length == config.ring && idToOrder.Length == config.maxId + 1
      && counts != bestIdx && counts != idToOrder && counts != data.freeHeads
      && bestIdx != idToOrder && bestIdx != data.freeHeads && idToOrder != data.freeHeads
    }

    ghost predicate Valid()
      reads data, data.nodes, data.freeHeads, counts, bestIdx, idToOrder
    {
      && Built()
      && data.Valid() && data.loose == NULL
      && StateOk(Levels(), counts[..], bestIdx[..])
      && Indexed(data.nodes[..], data.lists, data.free, idToOrder[..], data.base, data.perLevel)
    }

    /** The arena with nothing held is arranged. */
    lemma {:induction false} DataArranged()
      requires Built() && data.Valid() && data.loose == NULL
      ensures Arranged(data.nodes[..], data.lists, data.free, data.base, data.perLevel)
    {
      forall l {:trigger At(l)} | At(l) && 0 <= l < data.levels
        ensures Partitioned(data.lists[l], data.free[l], NULL, l, data.base, data.perLevel)
      {
        assert LevelOk(data.nodes[..], data.freeHeads[l], data.lists[l], data.free[l], NULL, l,
                       data.base, data.perLevel);
      }
      forall n {:trigger At(n)} | At(n) && 0 <= n < data.base ensures 0 <= LevelOf(n, data.perLevel) < data.levels {
        NodeLevel(n, data.levels, data.perLevel);
      }
    }

    constructor (config: Config)
      requires config.Ok()
      ensures Valid() && this.config == config && Contents() == EMPTY
      ensures filledReadIdx == filledWriteIdx == 0
      ensures fresh(data) && fresh(data.nodes) && fresh(data.freeHeads)
      ensures fresh(counts) && fresh(bestIdx) && fresh(fulfilled) && fresh(idToOrder)
    {
      this.config := config;
      data := new OrdersData(config.levels, config.perLevel);
      counts := new int[2](i => 0);
      bestIdx := new int[2](i => INVALID_BEST);
      fulfilled := new MessageResponse[config.ring](i => MessageResponse(None, Filled));
      idToOrder := new int[config.maxId + 1](i => NULL);
      filledReadIdx, filledWriteIdx := 0, 0;
      new;
      BlankIsValid();
    }

    /** In every valid state, however stale the hints: every bid is at or below the bid hint, every ask at or
        above the ask hint, a hint that is set is on the ladder, the hint of a side that is not empty is set, when
        both are set, be their sides empty or not, the bid hint is below the ask hint, and no level mixes sides. */
    lemma {:induction false} HintsBracket()
      requires Valid()
      ensures forall i :: 0 <= i < |Contents().bids| ==> Contents().bids[i].price <= bestIdx[1] < config.levels
      ensures forall i :: 0 <= i < |Contents().asks| ==> 0 <= bestIdx[0] <= Contents().asks[i].price < config.levels
      ensures forall i :: 0 <= i < 2 && bestIdx[i] != INVALID_BEST ==> 0 <= bestIdx[i] < config.levels
      ensures bestIdx[0] != INVALID_BEST && bestIdx[1] != INVALID_BEST ==> bestIdx[1] < bestIdx[0]
      ensures OneSided(Levels())
    {
      Brackets(Levels(), bestIdx[1], bestIdx[0]);
    }

    /** In every valid state every node of the arena is in exactly one of the order list and the free list of its
        own level, and those two lists have a pool's worth of nodes between them. */
    lemma {:induction false} NodesAccounted(n: nat)
      requires Valid() && n < data.base
      ensures var l := LevelOf(n, data.perLevel);
              && 0 <= l < data.levels
              && (n in data.lists[l] <==> n !in data.free[l])
              && (n in data.lists[l] <==> data.nodes[n].order.id != 0)
              && |data.lists[l]| + |data.free[l]| == config.perLevel
              && (forall m :: 0 <= m < data.levels && m != l ==> n !in data.lists[m] && n !in data.free[m])
    {
      var l := LevelOf(n, data.perLevel);
      assert At(n) && At(l);
      forall m | 0 <= m < data.levels && m != l ensures n !in data.lists[m] && n !in data.free[m] {
        assert At(m);
      }
    }

    /** In every valid state the counts are the numbers of orders on the two sides, together those of all the order
        lists, and with the free nodes they make up the whole arena: no node is lost or counted twice. */
    lemma {:induction false} CountsAreTotals()
      requires Valid()
      ensures counts[0] == |Contents().asks| && counts[1] == |Contents().bids|
      ensures counts[0] + counts[1] == |Flatten(data.lists)|
      ensures counts[0] + counts[1] + |Flatten(data.free)| == config.levels * config.perLevel
    {
      SidesAreLevels(Levels());
      FlattenLengths(Levels(), data.lists);
      forall l | 0 <= l < config.levels ensures |data.lists[l]| + |data.free[l]| == config.perLevel {
        assert At(l);
      }
      FlattenPairs(data.lists, data.free, config.perLevel);
    }

    /** The state the constructor builds is in order and stands for the empty book. */
    lemma {:induction false} BlankIsValid()
      requires Built() && data.Valid() && data.loose == NULL
      requires forall l :: 0 <= l < data.levels ==> data.lists[l] == []
      requires forall m :: 0 <= m < data.nodes.Length ==> data.nodes[m].order == BLANK
      requires counts[..] == [0, 0] && bestIdx[..] == [INVALID_BEST, INVALID_BEST]
      requires forall x :: 0 <= x < idToOrder.Length ==> idToOrder[x] == NULL
      ensures Valid() && Contents() == EMPTY
    {
      DataArranged();
      EmptyBook(Levels());
      forall l {:trigger At(l)} | At(l) && 0 <= l < data.levels
        ensures Named(data.nodes[..], data.lists[l]) && Blank(data.nodes[..], data.free[l])
      {
        assert Partitioned(data.lists[l], data.free[l], NULL, l, data.base, data.perLevel);
      }
    }

    /** Everything but the sides: the structures agree with each other. */
    ghost predicate Linked()
      reads data, data.nodes, data.freeHeads, idToOrder
    {
      && Built()
      && data.Valid() && data.loose == NULL
      && Indexed(data.nodes[..], data.lists, data.free, idToOrder[..], data.base, data.perLevel)
    }

    /** Unlink a resting node and give it back to its level's free list. */
    method Discard(n: int, ghost l: nat, ghost k: nat)
      requires Linked() && l < data.levels && k < |data.lists[l]| && data.lists[l][k] == n
      modifies data, data.nodes, data.freeHeads
      ensures Linked()
      ensures Levels() == old(Levels())[l := RemoveAt(old(Levels()[l]), k)]
    {
      ghost var was := data.nodes[..];
      ghost var lists, free := data.lists, data.free;
      data.Unlink(n, l, k);
      data.ReleaseToFree(n, LevelOf(n, data.perLevel));
      DataArranged();
      assert data.lists == lists[l := RemoveAt(lists[l], k)] && data.free == free[l := [n] + free[l]];
      IndexAfterRelease(was, data.nodes[..], lists, free, idToOrder[..], data.base, data.perLevel, l, k);
      DiscardLevels(was, data.nodes[..], lists, free, data.base, data.perLevel, l, k);
    }

    /** Change the lots of a resting node. */
    method WriteLots(n: int, lots: int, ghost l: nat, ghost k: nat)
      requires Linked() && l < data.levels && k < |data.lists[l]| && data.lists[l][k] == n
      requires 0 <= n < data.base
      modifies data.nodes
      ensures Linked() && data.nodes[n].order == old(data.nodes[n].order).(lots := lots)
      ensures Levels() == old(Levels())[l := old(Levels()[l])[k := old(Levels()[l][k]).(lots := lots)]]
    {
      ghost var was := data.nodes[..];
      InLevel(was, data.lists, data.free, data.base, data.perLevel, l, k);
      assert At(l);
      data.SetOrder(n, data.nodes[n].order.(lots := lots));
      IndexAfterShrink(was, data.nodes[..], data.lists, data.free, idToOrder[..], data.base, data.perLevel, n);
      WriteLevels(was, data.nodes[..], data.lists, data.free, data.base, data.perLevel, l, k);
    }

    /** Put the fill in the ring and take a used-up order off the count of its side. */
    method RecordFill(isBuy: bool, order: Order, remainderLeftInResting: bool)
      requires Linked()
      modifies fulfilled, counts, this`filledWriteIdx
      ensures Linked()
      ensures var response := MessageResponse(Some(order), if remainderLeftInResting then PartiallyFilled else Filled);
              fulfilled[..] == old(fulfilled[..])[old(filledWriteIdx) % fulfilled.Length := response]
      ensures filledWriteIdx == old(filledWriteIdx) + 1
      ensures var used := if remainderLeftInResting then 0 else 1;
              counts[..] == old(counts[..])[Ix(!isBuy) := old(counts[Ix(!isBuy)]) - used]
    {
      fulfilled[filledWriteIdx % fulfilled.Length] :=
        MessageResponse(Some(order), if remainderLeftInResting then PartiallyFilled else Filled);
      filledWriteIdx := filledWriteIdx + 1;
      counts[Ix(!isBuy)] := counts[Ix(!isBuy)] - (if remainderLeftInResting then 0 else 1);
    }

    /** Take the incoming lots from the first order of a level. */
    method FillNode(isBuy: bool, tick: nat, newLots: int) returns (resting: int, left: int)
      requires Linked() && tick < data.levels && Levels()[tick] != []
      modifies data.nodes
      ensures Linked() && 0 <= resting < data.base
      ensures data.lists[tick] != [] && resting == data.lists[tick][0]
      ensures var head := old(Levels()[tick][0]);
              var filled := Order(head.id, LotsLeft(isBuy, newLots + head.lots));
              && left == newLots + head.lots
              && data.nodes[resting].order == filled
              && Levels() == old(Levels())[tick := old(Levels()[tick])[0 := filled]]
    {
      resting := data.Head(data.base + tick);
      InLevel(data.nodes[..], data.lists, data.free, data.base, data.perLevel, tick, 0);
      left := newLots + data.nodes[resting].order.lots;
      var remainderLeftInResting := left * Direction(isBuy) < 0;
      WriteLots(resting, if remainderLeftInResting then left else 0, tick, 0);
    }

    /** Take the incoming lots from the first order of a level and record the fill. */
    method FillAndRecord(isBuy: bool, tick: nat, newLots: int) returns (resting: int, left: int)
      requires Linked() && tick < data.levels && Levels()[tick] != []
      modifies data.nodes, counts, fulfilled, this`filledWriteIdx
      ensures Linked() && data.lists[tick] != [] && resting == data.lists[tick][0]
      ensures left == newLots + old(Levels()[tick][0]).lots
      ensures Levels() == HeadWritten(isBuy, old(Levels()), tick, left)
      ensures counts[..] == CountFilled(isBuy, old(counts[..]), left)
      ensures fulfilled[..] == old(fulfilled[..])[old(filledWriteIdx) % fulfilled.Length :=
                                                  FillOf(isBuy, old(Levels()[tick][0]), left)]
      ensures filledWriteIdx == old(filledWriteIdx) + 1
    {
      resting, left := FillNode(isBuy, tick, newLots);
      SignTimes(isBuy, left);
      RecordFill(isBuy, data.nodes[resting].order, left * Direction(isBuy) < 0);
    }

    /** Fill against the first order of the level at the opposite hint: one round of the matching loop. */
    method FillHead(isBuy: bool, newLots: int) returns (left: int)
      requires Linked()
      requires 0 <= bestIdx[Ix(!isBuy)] < data.levels && Levels()[bestIdx[Ix(!isBuy)]] != []
      modifies data, data.nodes, data.freeHeads, counts, fulfilled, this`filledWriteIdx
      ensures Linked()
      ensures left == newLots + old(Levels()[bestIdx[Ix(!isBuy)]][0]).lots
      ensures Levels() == HeadFilled(isBuy, old(Levels()), bestIdx[Ix(!isBuy)], left)
      ensures counts[..] == CountFilled(isBuy, old(counts[..]), left)
      ensures fulfilled[..] == old(fulfilled[..])[old(filledWriteIdx) % fulfilled.Length :=
                                                  FillOf(isBuy, old(Levels()[bestIdx[Ix(!isBuy)]][0]), left)]
      ensures filledWriteIdx == old(filledWriteIdx) + 1
    {
      var tick := bestIdx[Ix(!isBuy)] % config.levels;
      SmallMod(bestIdx[Ix(!isBuy)], config.levels);
      ghost var levels := Levels();
      var resting;
      resting, left := FillAndRecord(isBuy, tick, newLots);
      FilledLevels(isBuy, levels, tick, left);
      var remainderLeftInResting := left * Direction(isBuy) < 0;
      SignTimes(isBuy, left);
      if !remainderLeftInResting {
        Discard(resting, tick, 0);
      }
    }

    /** The progress of a match that this object is in the middle of. */
    ghost function Snapshot(newLots: int, fills: seq<MessageResponse>, rounds: nat): Progress
      reads this`filledWriteIdx, data, data.nodes, counts, bestIdx, fulfilled
    {
      Progress(Levels(), counts[..], bestIdx[..], fulfilled[..], filledWriteIdx, newLots, fills, rounds)
    }

    /** One round of the matching loop at an empty level: move the hint on, and say if it passed the limit. */
    method WalkLevel(order: Order, limit: int, newLots: int, ghost start: Start, ghost fills: seq<MessageResponse>,
                     ghost rounds: nat)
      returns (past: bool)
      requires Linked() && Matching(start, order, limit, Snapshot(newLots, fills, rounds))
      requires var side := Ix(order.lots <= 0);
               counts[side] > 0 && bestIdx[side] != INVALID_BEST && Levels()[bestIdx[side]] == []
      modifies bestIdx
      ensures Linked() && Matching(start, order, limit, Snapshot(newLots, fills, rounds + 1))
      ensures past == !Within(order.lots > 0, bestIdx[Ix(order.lots <= 0)], limit)
      ensures LevelsAhead(order.lots <= 0, bestIdx[Ix(order.lots <= 0)], config.levels)
              == LevelsAhead(order.lots <= 0, old(bestIdx[Ix(order.lots <= 0)]), config.levels) - 1 >= 0
    {
      var orderIsBuy := order.lots > 0;
      var side := Ix(!orderIsBuy);
      ghost var best := bestIdx[..];
      WalkRound(start, order, limit, Snapshot(newLots, fills, rounds));
      SmallMod(Stepped(!orderIsBuy, bestIdx[side]), U64_COUNT);
      bestIdx[side] := (bestIdx[side] + Direction(orderIsBuy)) % U64_COUNT;
      assert bestIdx[..] == best[side := Stepped(!orderIsBuy, best[side])];
      past := (orderIsBuy && bestIdx[side] > limit) || (!orderIsBuy && bestIdx[side] < limit);
    }

    /** One round of the matching loop at a nonempty level. */
    method FillLevel(order: Order, limit: int, newLots: int, ghost start: Start, ghost fills: seq<MessageResponse>,
                     ghost rounds: nat)
      returns (left: int, ghost fill: MessageResponse)
      requires Linked() && Matching(start, order, limit, Snapshot(newLots, fills, rounds))
      requires HasSign(order.lots > 0, newLots)
      requires var h := bestIdx[Ix(order.lots <= 0)];
               h != INVALID_BEST && Levels()[h] != [] && Within(order.lots > 0, h, limit)
      modifies data, data.nodes, data.freeHeads, counts, fulfilled, this`filledWriteIdx
      ensures Linked() && Matching(start, order, limit, Snapshot(left, fills + [fill], rounds + 1))
      ensures HasSign(order.lots > 0, left) ==> Abs(left) < Abs(newLots)
    {
      var orderIsBuy := order.lots > 0;
      FillRound(start, order, limit, Snapshot(newLots, fills, rounds));
      ghost var head := Levels()[bestIdx[Ix(!orderIsBuy)]][0];
      left := FillHead(orderIsBuy, newLots);
      fill := FillOf(orderIsBuy, head, left);
    }

    /** Match an order against the opposite side as far as its limit allows. */
    method HandleMarketOrder(order: Order, limit: int)
      returns (response: MessageResponse, ghost fills: seq<MessageResponse>, ghost rounds: nat)
      requires Valid() && order.lots != 0 && -INT64_MAX <= order.lots <= INT64_MAX
      requires var isBuy := order.lots > 0;
               Contents().Side(!isBuy) != [] ==> Within(isBuy, bestIdx[Ix(!isBuy)], limit)
      modifies data, data.nodes, data.freeHeads, counts, bestIdx, fulfilled, this`filledWriteIdx
      ensures Valid()
      ensures Outcome(Contents(), fills, response) == Market(old(Contents()), order, limit)
      ensures fulfilled[..] == Recorded(old(fulfilled[..]), old(filledWriteIdx), fills)
      ensures filledWriteIdx == old(filledWriteIdx) + |fills|
      ensures var isBuy := order.lots > 0;
              && bestIdx[Ix(isBuy)] == old(bestIdx[Ix(isBuy)])
              && (response.result != Filled
                  ==> bestIdx[Ix(!isBuy)] == INVALID_BEST ||
                      if isBuy then bestIdx[Ix(!isBuy)] > limit else bestIdx[Ix(!isBuy)] < limit)
              && (|Contents().Side(!isBuy)| == 0 ==> bestIdx[Ix(!isBuy)] == INVALID_BEST)
      ensures rounds <= |fills| + config.levels
    {
      ghost var start := Start(Contents(), fulfilled[..], filledWriteIdx, bestIdx[Ix(order.lots > 0)]);
      var newLots;
      newLots, fills, rounds := MatchRounds(order, limit, start);
      response := Conclude(order, limit, newLots, start, fills, rounds);
    }

    /** Whether the level a hint points at has no orders. */
    method LevelIsEmpty(hint: int) returns (empty: bool)
      requires Linked() && 0 <= hint < config.levels
      ensures empty <==> Levels()[hint] == []
    {
      SmallMod(hint, config.levels);
      empty := data.IsEmpty(data.base + hint % config.levels);
    }

    /** One round of the matching loop; past says that it must break off. */
    method Round(order: Order, limit: int, lots: int, ghost start: Start, ghost fills: seq<MessageResponse>,
                 ghost rounds: nat)
      returns (newLots: int, past: bool, ghost fills': seq<MessageResponse>)
      requires Linked() && Matching(start, order, limit, Snapshot(lots, fills, rounds))
      requires HasSign(order.lots > 0, lots)
      requires var h := bestIdx[Ix(order.lots <= 0)];
               h != INVALID_BEST && counts[Ix(order.lots <= 0)] > 0 && Within(order.lots > 0, h, limit)
      modifies data, data.nodes, data.freeHeads, counts, bestIdx, fulfilled, this`filledWriteIdx
      ensures Linked() && Matching(start, order, limit, Snapshot(newLots, fills', rounds + 1))
      ensures past == !Within(order.lots > 0, bestIdx[Ix(order.lots <= 0)], limit)
      ensures var ahead, ahead' := LevelsAhead(order.lots <= 0, old(bestIdx[Ix(order.lots <= 0)]), config.levels),
                                   LevelsAhead(order.lots <= 0, bestIdx[Ix(order.lots <= 0)], config.levels);
              (newLots == lots && 0 <= ahead' < ahead) || !HasSign(order.lots > 0, newLots) || Abs(newLots) < Abs(lots)
    {
      newLots, past, fills' := lots, false, fills;
      var noMoreOrders := LevelIsEmpty(bestIdx[Ix(order.lots <= 0)]);
      if noMoreOrders {
        past := WalkLevel(order, limit, lots, start, fills, rounds);
      } else {
        ghost var fill;
        newLots, fill := FillLevel(order, limit, lots, start, fills, rounds);
        fills' := fills + [fill];
      }
    }

    /** The matching loop. */
    method MatchRounds(order: Order, limit: int, ghost start: Start)
      returns (newLots: int, ghost fills: seq<MessageResponse>, ghost rounds: nat)
      requires Valid() && order.lots != 0 && -INT64_MAX <= order.lots <= INT64_MAX
      requires start == Start(Contents(), fulfilled[..], filledWriteIdx, bestIdx[Ix(order.lots > 0)])
      requires var isBuy := order.lots > 0;
               Contents().Side(!isBuy) != [] ==> Within(isBuy, bestIdx[Ix(!isBuy)], limit)
      modifies data, data.nodes, data.freeHeads, counts, bestIdx, fulfilled, this`filledWriteIdx
      ensures Linked() && Matching(start, order, limit, Snapshot(newLots, fills, rounds))
      ensures Stopped(order, limit, counts[..], bestIdx[..], newLots)
    {
      var orderIsBuy := order.lots > 0;
      var side := Ix(!orderIsBuy);
      var direction := Direction(orderIsBuy);
      newLots, fills, rounds := order.lots, [], 0;
      MatchingStarts(start, order, limit, Snapshot(newLots, fills, rounds));
      SignTimes(orderIsBuy, newLots);
      while counts[side] > 0 && bestIdx[side] != INVALID_BEST && newLots * direction > 0
        invariant Linked() && Matching(start, order, limit, Snapshot(newLots, fills, rounds))
        invariant (newLots * direction > 0) == HasSign(orderIsBuy, newLots)
        invariant counts[side] > 0 ==> Within(orderIsBuy, bestIdx[side], limit)
        decreases if HasSign(orderIsBuy, newLots) then Abs(newLots) else 0,
                  LevelsAhead(!orderIsBuy, bestIdx[side], config.levels)
      {
        var past;
        newLots, past, fills := Round(order, limit, newLots, start, fills, rounds);
        rounds := rounds + 1;
        if past {
          break;
        }
        SignTimes(orderIsBuy, newLots);
      }
    }

    /** What follows the matching loop: forget the hint of an empty side and answer. */
    method Conclude(order: Order, limit: int, lots: int, ghost start: Start, ghost fills: seq<MessageResponse>,
                    ghost rounds: nat)
      returns (response: MessageResponse)
      requires Linked() && Matching(start, order, limit, Snapshot(lots, fills, rounds))
      requires order.lots != 0 && Stopped(order, limit, counts[..], bestIdx[..], lots)
      modifies bestIdx
      ensures Valid()
      ensures Outcome(Contents(), fills, response) == Market(start.book, order, limit)
      ensures var isBuy := order.lots > 0;
              && bestIdx[Ix(isBuy)] == start.ownHint
              && (response.result != Filled
                  ==> bestIdx[Ix(!isBuy)] == INVALID_BEST ||
                      if isBuy then bestIdx[Ix(!isBuy)] > limit else bestIdx[Ix(!isBuy)] < limit)
              && (|Contents().Side(!isBuy)| == 0 ==> bestIdx[Ix(!isBuy)] == INVALID_BEST)
      ensures fulfilled[..] == Recorded(start.ring, start.w, fills) && filledWriteIdx == start.w + |fills|
      ensures rounds <= |fills| + config.levels
    {
      MatchAnswer(start, order, limit, Snapshot(lots, fills, rounds));
      ForgetEmptySide(order.lots > 0);
      response := Respond(order, lots);
    }

    method ForgetEmptySide(orderIsBuy: bool)
      requires Built()
      modifies bestIdx
      ensures bestIdx[..] == if counts[Ix(!orderIsBuy)] == 0 then old(bestIdx[..])[Ix(!orderIsBuy) := INVALID_BEST]
                             else old(bestIdx[..])
    {
      var side := Ix(!orderIsBuy);
      if counts[side] == 0 {
        bestIdx[side] := INVALID_BEST;
      }
    }

    static method Respond(order: Order, lots: int) returns (response: MessageResponse)
      requires order.lots != 0
      ensures response == Answer(order, lots)
    {
      SignTimes(order.lots > 0, lots);
      var unfilled := lots * Direction(order.lots > 0) > 0;
      var rejected := lots == order.lots;
      response := MessageResponse(Some(Order(order.id, if unfilled then lots else 0)),
        [Filled, PartiallyFilled, Rejected][(if unfilled then 1 else 0) + (if rejected then 1 else 0)]);
    }

    /** A free node of the level takes the order, joins the end of its list, and is named by the index. */
    method AddNode(order: Order, price: nat)
      requires Linked() && price < data.levels && data.free[price] != []
      requires 0 < order.id <= config.maxId
      requires idToOrder[order.id] == NULL || data.nodes[idToOrder[order.id]].order.id != order.id
      modifies data, data.nodes, data.freeHeads, idToOrder
      ensures Linked()
      ensures Levels() == old(Levels())[price := old(Levels()[price]) + [order]]
    {
      ghost var was, lists, free, index := data.nodes[..], data.lists, data.free, idToOrder[..];
      var incOrder := data.GetFree(price);
      data.Append(data.base + price, incOrder);
      data.SetOrder(incOrder, order);
      idToOrder[order.id] := incOrder;
      DataArranged();
      assert data.lists == lists[price := lists[price] + [incOrder]] && data.free == free[price := free[price][1..]];
      assert idToOrder[..] == index[order.id := incOrder];
      IndexAfterRest(was, data.nodes[..], lists, free, index, data.base, data.perLevel, price, order);
      AddedLevels(was, data.nodes[..], lists, free, data.base, data.perLevel, price);
    }

    /** The writes that let a remainder rest: hint, node, index, count, hint again. */
    method PlaceOrder(order: Order, price: nat)
      requires Linked() && order.lots != 0 && price < data.levels && data.free[price] != []
      requires 0 < order.id <= config.maxId
      requires idToOrder[order.id] == NULL || data.nodes[idToOrder[order.id]].order.id != order.id
      modifies data, data.nodes, data.freeHeads, idToOrder, counts, bestIdx
      ensures Linked()
      ensures Levels() == old(Levels())[price := old(Levels()[price]) + [order]]
      ensures var isBuy := order.lots > 0;
              && counts[..] == old(counts[..])[Ix(isBuy) := old(counts[Ix(isBuy)]) + 1]
              && bestIdx[..] == old(bestIdx[..])[Ix(isBuy) := NewHint(isBuy, price, old(bestIdx[Ix(isBuy)]))]
    {
      var orderIsBuy := order.lots > 0;
      var side := Ix(orderIsBuy);
      if bestIdx[side] == INVALID_BEST {
        bestIdx[side] := price;
      }
      AddNode(order, price);
      counts[side] := counts[side] + 1;
      if bestIdx[side] == INVALID_BEST ||
         (orderIsBuy && price > bestIdx[side]) || (!orderIsBuy && price < bestIdx[side]) {
        bestIdx[side] := price;
      }
    }

    /** A limit remainder goes to the end of its level. */
    method RestOrder(order: Order, price: nat)
      requires Valid() && order.lots != 0 && -INT64_MAX <= order.lots <= INT64_MAX
      requires MayRest(config, Contents(), order, price) && Clear(order.lots > 0, price, bestIdx[..])
      modifies data, data.nodes, data.freeHeads, idToOrder, counts, bestIdx
      ensures Valid()
      ensures var isBuy := order.lots > 0;
              var side := Insert(isBuy, old(Contents().Side(isBuy)), RestingOrder(order, price));
              Contents() == old(Contents()).WithSide(isBuy, side)
      ensures var own, opposite, was := Ix(order.lots > 0), Ix(order.lots <= 0), old(bestIdx[Ix(order.lots > 0)]);
              && bestIdx[opposite] == old(bestIdx[opposite])
              && (was == INVALID_BEST ==> bestIdx[own] == price)
              && (was != INVALID_BEST && order.lots > 0 ==> bestIdx[own] == if price > was then price else was)
              && (was != INVALID_BEST && order.lots < 0 ==> bestIdx[own] == if price < was then price else was)
    {
      ClearLevel(order.lots > 0, Levels(), counts[..], bestIdx[..], price);
      PoolIsExact(order.lots > 0, price);
      IndexIsExact(order.id);
      Rest(order.lots > 0, Levels(), counts[..], bestIdx[..], price, order);
      PlaceOrder(order, price);
    }

    /** A level of this side's orders has a free node exactly when fewer orders of the side rest at its price than
        the pool has nodes: the assertion in GetFree fails in the other case and only then. */
    lemma {:induction false} PoolIsExact(isBuy: bool, price: nat)
      requires Linked() && price < data.levels && Uniform(isBuy, Levels()[price])
      ensures data.free[price] != [] <==> CountAt(Contents().Side(isBuy), price) < config.perLevel
    {
      LevelCount(isBuy, Levels(), price);
      assert At(price);
    }

    /** The index leads to a node carrying the id exactly when an order with that id rests. */
    lemma {:induction false} IndexIsExact(id: nat)
      requires Linked() && LevelsOk(Levels()) && 0 < id <= config.maxId
      ensures idToOrder[id] != NULL && data.nodes[idToOrder[id]].order.id == id
              <==> Holds(Contents().asks, id) || Holds(Contents().bids, id)
    {
      var n := idToOrder[id];
      if n != NULL && data.nodes[n].order.id == id {
        var k := Located(data.nodes[..], data.lists, data.free, idToOrder[..], data.base, data.perLevel, n);
        LevelHeld(Levels(), LevelOf(n, data.perLevel), k);
      } else {
        NotIndexed(data.nodes[..], data.lists, data.free, idToOrder[..], data.base, data.perLevel, id);
        NowhereHeld(Levels(), id);
      }
    }

    /** No hint is past the limit of a market order. */
    lemma {:induction false} MarketStarts(order: Order, orderType: OrderType)
      requires Valid() && (orderType == BUY ==> order.lots > 0) && (orderType == SELL ==> order.lots < 0)
      requires orderType == BUY || orderType == SELL
      ensures var isBuy := order.lots > 0;
              Contents().Side(!isBuy) != [] ==> Within(isBuy, bestIdx[Ix(!isBuy)], MarketLimit(orderType))
    {
    }

    /** An order that does not reach the opposite hint trades with nothing. */
    lemma {:induction false} NoCross(order: Order, price: nat)
      requires Valid() && order.lots != 0
      requires var h := bestIdx[Ix(order.lots <= 0)]; h == INVALID_BEST || !Within(order.lots > 0, h, price)
      ensures Matched(Contents(), order, price) == Contents()
      ensures MatchOn(Contents(), order, price) == MatchResult([], Contents().Side(order.lots <= 0), order.lots)
    {
      PastLimit(order.lots <= 0, Levels(), counts[..], bestIdx[..], order.lots, price);
    }

    /** Match the order if it reaches the opposite hint, and say how that went. */
    method MatchCrossing(order: Order, price: nat)
      returns (matched: Option<MessageResponse>, ghost fills: seq<MessageResponse>)
      requires Valid() && order.lots != 0 && -INT64_MAX <= order.lots <= INT64_MAX
      modifies data, data.nodes, data.freeHeads, counts, bestIdx, fulfilled, this`filledWriteIdx
      ensures Valid()
      ensures Contents() == Matched(old(Contents()), order, price)
      ensures var m := MatchOn(old(Contents()), order, price);
              && fills == m.fills
              && (matched.Some? ==> matched.value.order == Some(Order(order.id, m.rest)) &&
                                    (matched.value.result == Filled <==> m.rest == 0))
              && (matched.None? ==> m.rest == order.lots)
              && (m.rest != 0 ==> Clear(order.lots > 0, price, bestIdx[..]))
      ensures fulfilled[..] == Recorded(old(fulfilled[..]), old(filledWriteIdx), fills)
      ensures filledWriteIdx == old(filledWriteIdx) + |fills|
    {
      var orderIsBuy := order.lots > 0;
      var bestOppositeIdx := bestIdx[Ix(!orderIsBuy)];
      matched, fills := None, [];
      if bestOppositeIdx != INVALID_BEST &&
         ((orderIsBuy && price >= bestOppositeIdx) || (!orderIsBuy && price <= bestOppositeIdx)) {
        ghost var rounds;
        var response;
        MarketParts(Contents(), order, price);
        response, fills, rounds := HandleMarketOrder(order, price);
        matched := Some(response);
      } else {
        NoCross(order, price);
      }
    }

    /** Match what crosses, and let the remainder rest. */
    method HandleLimitOrder(order: Order, price: nat)
      returns (response: MessageResponse, ghost fills: seq<MessageResponse>)
      requires Valid() && order.lots != 0 && -INT64_MAX <= order.lots <= INT64_MAX
      requires Limit(Contents(), order, price).response.result == Resting ==>
                 MayRest(config, Matched(Contents(), order, price), order, price)
      modifies data, data.nodes, data.freeHeads, idToOrder, counts, bestIdx, fulfilled, this`filledWriteIdx
      ensures Valid()
      ensures Outcome(Contents(), fills, response) == Limit(old(Contents()), order, price)
      ensures fulfilled[..] == Recorded(old(fulfilled[..]), old(filledWriteIdx), fills)
      ensures filledWriteIdx == old(filledWriteIdx) + |fills|
    {
      var newOrder := order;
      ghost var book := Contents();
      SideSigned(order.lots <= 0, Levels());
      RestIsSigned(order.lots > 0, book.Side(order.lots <= 0), order.lots, price);
      var matched;
      matched, fills := MatchCrossing(order, price);
      if matched.Some? {
        newOrder := matched.value.order.value;
        if matched.value.result == Filled {
          assert newOrder.lots == 0;
          return matched.value, fills;
        }
      }
      RestOrder(newOrder, price);
      response := MessageResponse(Some(newOrder), Resting);
    }

    /** Cancel by id: the index entry counts only if the node it names still carries the id. */
    method HandleCancellation(toCancel: nat) returns (response: MessageResponse)
      requires Valid() && toCancel <= config.maxId
      modifies data, data.nodes, data.freeHeads, counts
      ensures Valid()
      ensures Outcome(Contents(), [], response) == Cancel(old(Contents()), toCancel)
    {
      var extractedOrd := idToOrder[toCancel];
      if extractedOrd != NULL && data.nodes[extractedOrd].order.id == toCancel {
        var order := data.nodes[extractedOrd].order;
        ghost var l, k := CancelFound(extractedOrd);
        RemoveNode(extractedOrd, l, k);
        return MessageResponse(Some(order), Cancelled);
      }
      CancelMissed(toCancel);
      return MessageResponse(None, NotFound);
    }

    /** The writes that cancel a resting node. */
    method RemoveNode(n: int, ghost l: nat, ghost k: nat)
      requires Linked() && 0 <= n < data.base && l < data.levels && k < |data.lists[l]| && data.lists[l][k] == n
      modifies data, data.nodes, data.freeHeads, counts
      ensures Linked()
      ensures Levels() == old(Levels())[l := RemoveAt(old(Levels()[l]), k)]
      ensures var side := Ix(old(data.nodes[n].order.lots) > 0);
              counts[..] == old(counts[..])[side := old(counts[side]) - 1]
    {
      var side := Ix(data.nodes[n].order.lots > 0);
      counts[side] := counts[side] - 1;
      Discard(n, l, k);
    }

    /** A node that carries an id is where its level says, and taking it out is what a cancel by search does. */
    lemma {:induction false} CancelFound(n: int) returns (l: nat, k: nat)
      requires Valid() && 0 <= n < data.base && data.nodes[n].order.id != 0
      ensures l < data.levels && k < |data.lists[l]| && data.lists[l][k] == n
      ensures var order := data.nodes[n].order;
              var side := Ix(order.lots > 0);
              var after := Levels()[l := RemoveAt(Levels()[l], k)];
              && StateOk(after, counts[..][side := counts[side] - 1], bestIdx[..])
              && Outcome(BookOf(after), [], MessageResponse(Some(order), Cancelled)) == Cancel(Contents(), order.id)
    {
      var order := data.nodes[n].order;
      k := Located(data.nodes[..], data.lists, data.free, idToOrder[..], data.base, data.perLevel, n);
      l := LevelOf(n, data.perLevel);
      IdsUnique(data.nodes[..], data.lists, data.free, idToOrder[..], data.base, data.perLevel);
      TakeOut(order.lots > 0, Levels(), counts[..], bestIdx[..], l, k);
      FindNone(SideOf(order.lots <= 0, Levels()), order.id);
    }

    /** When the index has no live entry for an id, a search finds nothing either. */
    lemma {:induction false} CancelMissed(id: nat)
      requires Linked() && id <= config.maxId
      requires idToOrder[id] == NULL || data.nodes[idToOrder[id]].order.id != id
      ensures Cancel(Contents(), id) == Outcome(Contents(), [], MessageResponse(None, NotFound))
    {
      NotIndexed(data.nodes[..], data.lists, data.free, idToOrder[..], data.base, data.perLevel, id);
      NowhereHeld(Levels(), id);
      FindNone(SideOf(false, Levels()), id);
      FindNone(SideOf(true, Levels()), id);
    }
  }

  lemma {:induction false} AddedLevels(was: seq<OrderNode>, after: seq<OrderNode>, lists: seq<seq<int>>,
                                       free: seq<seq<int>>, base: nat, perLevel: nat, l: nat)
    requires Arranged(was, lists, free, base, perLevel) && |after| == |was|
    requires l < |lists| && free[l] != [] && 0 <= free[l][0] < |was|
    requires forall m :: 0 <= m < |was| && m != free[l][0] ==> after[m].order == was[m].order
    ensures LevelsOf(after, lists[l := lists[l] + [free[l][0]]])
            == LevelsOf(was, lists)[l := LevelsOf(was, lists)[l] + [after[free[l][0]].order]]
  {
    assert At(l);
    forall m, j {:trigger lists[m][j]} | 0 <= m < |lists| && 0 <= j < |lists[m]|
      ensures 0 <= lists[m][j] < |was| && lists[m][j] != free[l][0]
    {
      InLevel(was, lists, free, base, perLevel, m, j);
    }
    LevelsStep(was, after, lists, l, lists[l] + [free[l][0]]);
    assert OrdersOf(after, lists[l] + [free[l][0]]) == OrdersOf(was, lists[l]) + [after[free[l][0]].order];
  }

  /** What a market outcome says, part by part. */
  lemma {:induction false} MarketParts(b: Book, order: Order, limit: int)
    requires order.lots != 0
    ensures var s, m := Market(b, order, limit), MatchOn(b, order, limit);
            && s.book == Matched(b, order, limit) && s.fills == m.fills
            && s.response.order == Some(Order(order.id, m.rest)) && (s.response.result == Filled <==> m.rest == 0)
  {
  }

  function Direction(isBuy: bool): int {
    if isBuy then 1 else -1
  }

  /** Writing the head and then dropping it if it is used up. */
  lemma {:induction false} FilledLevels(isBuy: bool, levels: seq<Level>, h: int, left: int)
    requires 0 <= h < |levels| && levels[h] != []
    ensures var written := HeadWritten(isBuy, levels, h, left);
            HeadFilled(isBuy, levels, h, left)
            == if HasSign(!isBuy, left) then written else written[h := RemoveAt(written[h], 0)]
  {
    var level := levels[h];
    var o := Order(level[0].id, LotsLeft(isBuy, left));
    assert level[0 := o] == [o] + level[1..];
    assert RemoveAt(level[0 := o], 0) == [] + level[1..];
  }

  lemma {:induction false} SignTimes(isBuy: bool, x: int)
    ensures (x * Direction(isBuy) < 0) == HasSign(!isBuy, x)
    ensures (x * Direction(isBuy) > 0) == HasSign(isBuy, x)
  {
  }

  lemma {:induction false} WriteLevels(was: seq<OrderNode>, after: seq<OrderNode>, lists: seq<seq<int>>,
                                       free: seq<seq<int>>, base: nat, perLevel: nat, l: nat, k: nat)
    requires Arranged(was, lists, free, base, perLevel) && |after| == |was|
    requires l < |lists| && k < |lists[l]|
    requires forall m :: 0 <= m < |was| && m != lists[l][k] ==> after[m].order == was[m].order
    ensures 0 <= lists[l][k] < |was|
    ensures LevelsOf(after, lists)
            == LevelsOf(was, lists)[l := LevelsOf(was, lists)[l][k := after[lists[l][k]].order]]
  {
    InLevel(was, lists, free, base, perLevel, l, k);
    forall m, j {:trigger lists[m][j]} | 0 <= m < |lists| && 0 <= j < |lists[m]|
      ensures 0 <= lists[m][j] < |was| && (lists[m][j] == lists[l][k] ==> m == l && j == k)
    {
      InLevel(was, lists, free, base, perLevel, m, j);
    }
    LevelsStep(was, after, lists, l, lists[l]);
    assert lists[l := lists[l]] == lists;
    assert OrdersOf(after, lists[l]) == OrdersOf(was, lists[l])[k := after[lists[l][k]].order];
  }

  lemma {:induction false} DiscardLevels(was: seq<OrderNode>, after: seq<OrderNode>, lists: seq<seq<int>>,
                                         free: seq<seq<int>>, base: nat, perLevel: nat, l: nat, k: nat)
    requires Arranged(was, lists, free, base, perLevel) && |after| == |was|
    requires l < |lists| && k < |lists[l]|
    requires forall m :: 0 <= m < |was| && m != lists[l][k] ==> after[m].order == was[m].order
    ensures LevelsOf(after, lists[l := RemoveAt(lists[l], k)])
            == LevelsOf(was, lists)[l := RemoveAt(LevelsOf(was, lists)[l], k)]
  {
    InLevel(was, lists, free, base, perLevel, l, k);
    forall m, j {:trigger lists[m][j]} | 0 <= m < |lists| && 0 <= j < |lists[m]|
      ensures 0 <= lists[m][j] < |was| && (lists[m][j] == lists[l][k] ==> m == l && j == k)
    {
      InLevel(was, lists, free, base, perLevel, m, j);
    }
    LevelsStep(was, after, lists, l, RemoveAt(lists[l], k));
    assert OrdersOf(after, RemoveAt(lists[l], k)) == RemoveAt(OrdersOf(was, lists[l]), k);
  }

  lemma {:induction false} EmptyBook(levels: seq<Level>)
    requires forall l :: 0 <= l < |levels| ==> levels[l] == []
    ensures BookOf(levels) == EMPTY
  {
    FlattenEmpty(Segments(false, levels));
    FlattenEmpty(Segments(true, levels));
  }
}
