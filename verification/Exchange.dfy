/** The request loop (matchAllOrders): every request goes to its handler, the ring of fills is drained, and
    everything emitted is offered to the outgoing queue. */
module Exchange {
  import opened MatcherTypes
  import opened ReferenceBook
  import opened PriceLevels
  import opened FulfilledRing
  import opened RingDrain
  import OrderBook
  import SpscQueue

  type Outgoing = SpscQueue.SpscQueue<MessageResponse>

  /** What is left of a stream of offers when nobody takes anything out: the first ones that fit. */
  function Fitting<T>(offers: seq<T>, capacity: int): (held: seq<T>)
    ensures held <= offers
    ensures capacity >= 0 ==> |held| == if |offers| <= capacity then |offers| else capacity
  {
    if 0 <= capacity < |offers| then offers[..capacity] else offers
  }

  lemma {:induction false} FittingAgain<T>(a: seq<T>, b: seq<T>, capacity: int)
    requires capacity >= 0
    ensures Fitting(Fitting(a, capacity) + b, capacity) == Fitting(a + b, capacity)
  {
  }

  /** Offer the fills recorded since the last drain, oldest first. */
  method Drain(symbol: OrderBook.OrderBook, processed: Outgoing)
    requires symbol.fulfilled.Length > 0 && symbol.filledReadIdx <= symbol.filledWriteIdx
    requires processed.Valid()
    modifies symbol`filledReadIdx, processed, processed.buffer
    ensures processed.Valid()
    ensures symbol.filledReadIdx == symbol.filledWriteIdx
    ensures processed.Contents()
            == Fitting(old(processed.Contents())
                       + Drained(symbol.fulfilled[..], old(symbol.filledReadIdx), symbol.filledWriteIdx),
                       processed.Capacity())
  {
    ghost var ring, r, before := symbol.fulfilled[..], symbol.filledReadIdx, processed.Contents();
    while symbol.filledWriteIdx != symbol.filledReadIdx
      invariant r <= symbol.filledReadIdx <= symbol.filledWriteIdx && processed.Valid()
      invariant processed.Contents() == Fitting(before + Drained(ring, r, symbol.filledReadIdx), processed.Capacity())
      decreases symbol.filledWriteIdx - symbol.filledReadIdx
    {
      var fill := symbol.fulfilled[symbol.filledReadIdx % symbol.fulfilled.Length];
      DrainedSnoc(ring, r, symbol.filledReadIdx);
      Offer(processed, fill, before + Drained(ring, r, symbol.filledReadIdx));
      Regroup(before, Drained(ring, r, symbol.filledReadIdx), fill);
      symbol.filledReadIdx := symbol.filledReadIdx + 1;
    }
  }

  lemma {:induction false} DrainedSnoc(ring: seq<MessageResponse>, r: nat, w: nat)
    requires |ring| > 0 && r <= w
    ensures Drained(ring, r, w + 1) == Drained(ring, r, w) + [ring[w % |ring|]]
  {
  }

  lemma {:induction false} Regroup<T>(a: seq<T>, b: seq<T>, x: T)
    ensures a + b + [x] == a + (b + [x])
  {
  }

  lemma {:induction false} Join<T>(a: seq<T>, b: seq<T>, c: seq<T>)
    ensures a + b + c == a + (b + c)
  {
  }

  /** Offer one more message to a queue that holds what fits of the offers so far. */
  method Offer(processed: Outgoing, message: MessageResponse, ghost offers: seq<MessageResponse>)
    requires processed.Valid() && processed.Contents() == Fitting(offers, processed.Capacity())
    modifies processed, processed.buffer
    ensures processed.Valid() && processed.Contents() == Fitting(offers + [message], processed.Capacity())
  {
    FittingAgain(offers, [message], processed.Capacity());
    var _, _ := processed.TryEmplace(message);
  }

  /** Offer the fills of a request that are in the ring, then its own response. */
  method Emit(symbol: OrderBook.OrderBook, processed: Outgoing, response: MessageResponse,
              ghost found: seq<MessageResponse>)
    requires symbol.fulfilled.Length > 0 && symbol.filledReadIdx <= symbol.filledWriteIdx
    requires Drained(symbol.fulfilled[..], symbol.filledReadIdx, symbol.filledWriteIdx) == found
    requires processed.Valid()
    modifies symbol`filledReadIdx, processed, processed.buffer
    ensures processed.Valid() && symbol.filledReadIdx == symbol.filledWriteIdx
    ensures processed.Contents() == Fitting(old(processed.Contents()) + (found + [response]), processed.Capacity())
  {
    ghost var held := processed.Contents();
    Drain(symbol, processed);
    Offer(processed, response, held + found);
    Regroup(held, found, response);
  }

  /** Send a new order to its handler; a zero order and an unknown type reach none. */
  method HandleNew(symbol: OrderBook.OrderBook, r: Request)
    returns (response: MessageResponse, ghost fills: seq<MessageResponse>)
    requires r.NewOrder? && symbol.Valid() && Admissible(symbol.config, symbol.Contents(), r)
    requires symbol.filledReadIdx == symbol.filledWriteIdx
    modifies symbol`filledWriteIdx, symbol.data, symbol.data.nodes, symbol.data.freeHeads
    modifies symbol.counts, symbol.bestIdx, symbol.fulfilled, symbol.idToOrder
    ensures symbol.Valid()
    ensures Outcome(symbol.Contents(), fills, response) == Step(old(symbol.Contents()), r)
    ensures symbol.filledWriteIdx == symbol.filledReadIdx + |fills|
    ensures Drained(symbol.fulfilled[..], symbol.filledReadIdx, symbol.filledWriteIdx)
            == Surviving(fills, symbol.config.ring)
  {
    fills := [];
    ghost var ring := symbol.fulfilled[..];
    if r.order.lots == 0 {
      return MessageResponse(None, Rejected), fills;
    }
    response := MessageResponse(None, Filled);
    if r.orderType == BUY || r.orderType == SELL {
      symbol.MarketStarts(r.order, r.orderType);
      ghost var rounds;
      response, fills, rounds := symbol.HandleMarketOrder(r.order, if r.orderType == BUY then SIZE_MAX else 0);
    } else if r.orderType == BUY_LIMIT || r.orderType == SELL_LIMIT {
      response, fills := symbol.HandleLimitOrder(r.order, r.limit);
    }
    DrainTakesSurviving(ring, symbol.filledReadIdx, fills);
  }

  /** Send the request to its handler. */
  method Handle(symbol: OrderBook.OrderBook, r: Request)
    returns (response: MessageResponse, ghost fills: seq<MessageResponse>)
    requires symbol.Valid() && Admissible(symbol.config, symbol.Contents(), r)
    requires symbol.filledReadIdx == symbol.filledWriteIdx
    modifies symbol`filledWriteIdx, symbol.data, symbol.data.nodes, symbol.data.freeHeads
    modifies symbol.counts, symbol.bestIdx, symbol.fulfilled, symbol.idToOrder
    ensures symbol.Valid()
    ensures Outcome(symbol.Contents(), fills, response) == Step(old(symbol.Contents()), r)
    ensures symbol.filledWriteIdx == symbol.filledReadIdx + |fills|
    ensures Drained(symbol.fulfilled[..], symbol.filledReadIdx, symbol.filledWriteIdx)
            == Surviving(fills, symbol.config.ring)
  {
    if r.CancelOrder? {
      response := symbol.HandleCancellation(r.toCancel);
      fills := [];
    } else {
      response, fills := HandleNew(symbol, r);
    }
  }

  /** The body of the loop for one request. */
  method Process(symbol: OrderBook.OrderBook, processed: Outgoing, r: Request)
    requires symbol.Valid() && processed.Valid() && symbol.filledReadIdx == symbol.filledWriteIdx
    requires Admissible(symbol.config, symbol.Contents(), r)
    modifies symbol, symbol.data, symbol.data.nodes, symbol.data.freeHeads, symbol.counts, symbol.bestIdx
    modifies symbol.fulfilled, symbol.idToOrder, processed, processed.buffer
    ensures symbol.Valid() && processed.Valid() && symbol.filledReadIdx == symbol.filledWriteIdx
    ensures symbol.Contents() == Step(old(symbol.Contents()), r).book
    ensures var offered := Offered(symbol.config.ring, Step(old(symbol.Contents()), r));
            processed.Contents() == Fitting(old(processed.Contents()) + offered, processed.Capacity())
  {
    var response;
    ghost var fills;
    response, fills := Handle(symbol, r);
    Emit(symbol, processed, response, Surviving(fills, symbol.config.ring));
  }

  lemma {:induction false} RunSnoc(ring: nat, b: Book, rs: seq<Request>, i: nat)
    requires ring > 0 && i < |rs|
    ensures var s := Step(Run(b, rs[..i]).book, rs[i]);
            && Run(b, rs[..i + 1]).book == s.book
            && Responses(ring, b, rs[..i + 1]) == Responses(ring, b, rs[..i]) + Offered(ring, s)
  {
    var next := rs[..i + 1];
    assert next[..i] == rs[..i] && next[i] == rs[i];
  }

  /** Each request of an admissible run is admissible where it comes. */
  lemma {:induction false} AdmissibleAt(c: Config, b: Book, rs: seq<Request>, i: nat)
    requires AdmissibleRun(c, b, rs) && i < |rs|
    ensures AdmissibleRun(c, b, rs[..i + 1]) && Admissible(c, Run(b, rs[..i]).book, rs[i])
    decreases |rs|
  {
    if i + 1 == |rs| {
      assert rs[..i + 1] == rs;
    } else {
      var shorter := rs[..|rs| - 1];
      AdmissibleAt(c, b, shorter, i);
      assert shorter[..i + 1] == rs[..i + 1] && shorter[..i] == rs[..i];
    }
  }

  /** The whole loop does what the reference book does over the same requests: the same resting orders, and in
      the queue, which nothing drains meanwhile, what the run offers, as much of it as fits. */
  method MatchAllOrders(symbol: OrderBook.OrderBook, processed: Outgoing, orders: seq<Request>)
    requires symbol.Valid() && processed.Valid() && symbol.filledReadIdx == symbol.filledWriteIdx
    requires AdmissibleRun(symbol.config, symbol.Contents(), orders)
    modifies symbol, symbol.data, symbol.data.nodes, symbol.data.freeHeads, symbol.counts, symbol.bestIdx
    modifies symbol.fulfilled, symbol.idToOrder, processed, processed.buffer
    ensures symbol.Valid() && processed.Valid() && symbol.filledReadIdx == symbol.filledWriteIdx
    ensures symbol.Contents() == Run(old(symbol.Contents()), orders).book
    ensures var offered := Responses(symbol.config.ring, old(symbol.Contents()), orders);
            && processed.Contents() == Fitting(old(processed.Contents()) + offered, processed.Capacity())
            && processed.Contents() <= old(processed.Contents()) + offered
            && (|old(processed.Contents()) + offered| <= processed.Capacity() ==>
                  processed.Contents() == old(processed.Contents()) + offered)
            && (|old(processed.Contents()) + offered| > processed.Capacity() ==>
                  |processed.Contents()| == processed.Capacity())
  {
    ghost var book, held, ring := symbol.Contents(), processed.Contents(), symbol.config.ring;
    assert held + [] == held;
    for i := 0 to |orders|
      invariant symbol.Valid() && processed.Valid() && symbol.filledReadIdx == symbol.filledWriteIdx
      invariant symbol.Contents() == Run(book, orders[..i]).book
      invariant processed.Contents() == Fitting(held + Responses(ring, book, orders[..i]), processed.Capacity())
    {
      AdmissibleAt(symbol.config, book, orders, i);
      RunSnoc(ring, book, orders, i);
      ghost var offered := Offered(ring, Step(symbol.Contents(), orders[i]));
      FittingAgain(held + Responses(ring, book, orders[..i]), offered, processed.Capacity());
      Process(symbol, processed, orders[i]);
      Join(held, Responses(ring, book, orders[..i]), offered);
    }
    assert orders[..|orders|] == orders;
  }

  /** A new book and a new queue. */
  method Open(config: Config, capacity: nat, padding: nat, maxLength: nat)
    returns (book: OrderBook.OrderBook, queue: Outgoing)
    requires config.Ok() && SpscQueue.Constructible(capacity, padding, SIZE_MAX, maxLength)
    ensures book.Valid() && book.config == config && book.Contents() == EMPTY
    ensures book.filledReadIdx == book.filledWriteIdx
    ensures queue.Valid() && queue.Contents() == [] && queue.Capacity() == capacity
    ensures fresh(book) && fresh(book.data) && fresh(book.data.nodes) && fresh(book.data.freeHeads)
    ensures fresh(book.counts) && fresh(book.bestIdx) && fresh(book.fulfilled) && fresh(book.idToOrder)
    ensures fresh(queue) && fresh(queue.buffer)
  {
    book := new OrderBook.OrderBook(config);
    queue := new SpscQueue.SpscQueue(capacity, padding, SIZE_MAX, maxLength);
  }

  /** A whole session from an empty book and an empty queue.  What it offers are the responses of the reference
      book if and only if the fills of every request fit in the ring. */
  method MatchNew(config: Config, capacity: nat, padding: nat, maxLength: nat, requests: seq<Request>)
    returns (book: OrderBook.OrderBook, queue: Outgoing)
    requires config.Ok() && AdmissibleRun(config, EMPTY, requests)
    requires SpscQueue.Constructible(capacity, padding, SIZE_MAX, maxLength)
    ensures book.Valid() && book.Contents() == Run(EMPTY, requests).book
    ensures queue.Valid() && queue.Contents() == Fitting(Responses(config.ring, EMPTY, requests), capacity)
    ensures Responses(config.ring, EMPTY, requests) == Flatten(Run(EMPTY, requests).log)
            <==> FitsRingRun(config.ring, EMPTY, requests)
  {
    ResponsesExact(config, requests);
    ghost var offered := Responses(config.ring, EMPTY, requests);
    assert [] + offered == offered;
    book, queue := Open(config, capacity, padding, maxLength);
    MatchAllOrders(book, queue, requests);
  }
}
