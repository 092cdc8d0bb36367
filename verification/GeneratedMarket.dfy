/** The generator's stream through the matcher: the pool bounds what rests, so the stream meets every demand
    the book makes, as long as the tally stays within a level's pool of nodes. */
module GeneratedMarket {
  import opened MatcherTypes
  import opened ReferenceBook
  import opened ReferenceLaws
  import opened ReferenceRuns
  import opened ReferenceAccounts
  import opened MarketGenerator
  import opened PriceLevels
  import opened RingDrain
  import OrderBook
  import SpscQueue
  import Exchange

  /** Every order of the side has its entry in the pool, with its price and side. */
  ghost predicate InPool(isBid: bool, side: seq<RestingOrder>, live: seq<LiveOrder>) {
    forall i :: 0 <= i < |side| ==> LiveOrder(side[i].order.id, side[i].price, isBid) in live
  }

  ghost predicate Pooled(b: Book, live: seq<LiveOrder>) {
    InPool(false, b.asks, live) && InPool(true, b.bids, live)
  }

  // Counting by ids

  /** The ids of the orders of the side at the price. */
  ghost function IdsAt(side: seq<RestingOrder>, price: nat): (ids: set<nat>)
    ensures forall id :: id in ids ==> exists i :: 0 <= i < |side| && side[i].order.id == id && side[i].price == price
  {
    if side == [] then {}
    else
      var rest := IdsAt(side[1..], price);
      assert forall i :: 0 <= i < |side[1..]| ==> side[1..][i] == side[i + 1];
      rest + (if side[0].price == price then {side[0].order.id} else {})
  }

  ghost function LiveIdsAt(live: seq<LiveOrder>, isBuy: bool, price: nat): (ids: set<nat>)
    ensures |ids| <= Tally(live, isBuy, price)
  {
    if live == [] then {}
    else
      LiveIdsAt(live[1..], isBuy, price)
      + (if live[0].isBuy == isBuy && live[0].price == price then {live[0].id} else {})
  }

  lemma {:induction false} CountIds(side: seq<RestingOrder>, price: nat)
    requires Unique(side)
    ensures |IdsAt(side, price)| == CountAt(side, price)
  {
    if side != [] {
      CountIds(side[1..], price);
      assert side[0].order.id !in IdsAt(side[1..], price);
    }
  }

  lemma {:induction false} LiveIdIn(live: seq<LiveOrder>, l: LiveOrder)
    requires l in live
    ensures l.id in LiveIdsAt(live, l.isBuy, l.price)
  {
    if live[0] != l {
      LiveIdIn(live[1..], l);
    }
  }

  lemma {:induction false} SubsetSize(a: set<nat>, b: set<nat>)
    requires a <= b
    ensures |a| <= |b|
  {
    if a != {} {
      var x :| x in a;
      SubsetSize(a - {x}, b - {x});
    }
  }

  /** A level never holds more orders of a side than the generator's tally says. */
  lemma {:induction false} TallyBounds(isBid: bool, side: seq<RestingOrder>, live: seq<LiveOrder>, price: nat)
    requires Unique(side) && InPool(isBid, side, live)
    ensures CountAt(side, price) <= Tally(live, isBid, price)
  {
    CountIds(side, price);
    forall id | id in IdsAt(side, price) ensures id in LiveIdsAt(live, isBid, price) {
      var i :| 0 <= i < |side| && side[i].order.id == id && side[i].price == price;
      LiveIdIn(live, LiveOrder(id, price, isBid));
    }
    SubsetSize(IdsAt(side, price), LiveIdsAt(live, isBid, price));
  }

  // Each round

  /** The sizes the stream needs: the generator's ladder, ids for all rounds, and a ring for the largest order. */
  predicate Suits(c: Config, rounds: nat) {
    c.Ok() && c.levels == LEVELS && rounds <= c.maxId && 100 <= c.ring
  }

  /** At no time does the tally of a side and price exceed a level's pool. */
  ghost predicate TallyWithin(m: Stream, perLevel: nat) {
    forall isBuy, price :: Tally(m.live, isBuy, price) <= perLevel
  }

  /** The next request of the stream is admissible and does not overrun the ring. */
  lemma {:induction false} EmitAdmissible(c: Config, b: Book, m: Stream, d: Draw)
    requires StreamOk(m) && d.Ok() && BookOk(b) && Pooled(b, m.live)
    requires Suits(c, |m.requests| + 1) && TallyWithin(Emit(m, d), c.perLevel)
    ensures Admissible(c, b, Emit(m, d).requests[|m.requests|])
    ensures FitsRing(c.ring, b, Emit(m, d).requests[|m.requests|])
  {
    if d.action.Cancel? && m.live != [] {
      assert Emits(m.live[Victim(m.live, d.age)], m.requests);
    } else {
      var r := OrderFor(MidFor(m, d), m.msgId, d);
      assert Emit(m, d).requests[|m.requests|] == r;
      FewFills(c.ring, b, r);
      if !d.action.Market? {
        RestAdmissible(c, b, m, d);
      }
    }
  }

  /** An order of at most 100 lots causes at most 100 fills. */
  lemma {:induction false} FewFills(ring: nat, b: Book, r: Request)
    requires BookOk(b) && r.NewOrder? && r.order.lots != 0 && Abs(r.order.lots) <= 100 <= ring
    ensures FitsRing(ring, b, r)
  {
    var isBuy := r.order.lots > 0;
    FillsAtMostLots(isBuy, b.Side(!isBuy), r.order.lots, LimitOf(r));
    OfferedExact(ring, b, r);
  }

  /** A limit order of the stream finds its id unused and a free node. */
  lemma {:induction false} RestAdmissible(c: Config, b: Book, m: Stream, d: Draw)
    requires StreamOk(m) && d.Ok() && BookOk(b) && Pooled(b, m.live) && (d.action.Cancel? ==> m.live == [])
    requires !d.action.Market?
    requires Suits(c, |m.requests| + 1) && TallyWithin(Emit(m, d), c.perLevel)
    ensures var r := Emit(m, d).requests[|m.requests|];
            MayRest(c, Matched(b, r.order, r.limit), r.order, r.limit)
  {
    var r := Emit(m, d).requests[|m.requests|];
    var isBuy := r.order.lots > 0;
    var entry := LiveOrder(m.msgId, r.limit, d.isBuy);
    var at := MatchThins(isBuy, b.Side(!isBuy), r.order.lots, r.limit);
    var opposite := MatchOn(b, r.order, r.limit).side;
    forall i | 0 <= i < |opposite| ensures opposite[i].order.id != r.order.id {
      assert SameOrder(opposite[i], b.Side(!isBuy)[at[i]]);
      PooledIds(b, m, !isBuy);
    }
    PooledIds(b, m, isBuy);
    TallyBounds(isBuy, b.Side(isBuy), m.live, r.limit);
    TallyConcat(m.live, [entry], isBuy, r.limit);
    TallyOne(entry, isBuy, r.limit);
    assert Tally(Emit(m, d).live, isBuy, r.limit) <= c.perLevel;
  }

  /** Resting orders carry ids issued before. */
  lemma {:induction false} PooledIds(b: Book, m: Stream, isBid: bool)
    requires StreamOk(m) && Pooled(b, m.live)
    ensures forall i :: 0 <= i < |b.Side(isBid)| ==> b.Side(isBid)[i].order.id < m.msgId
  {
    var side := b.Side(isBid);
    forall i | 0 <= i < |side| ensures side[i].order.id < m.msgId {
      assert LiveOrder(side[i].order.id, side[i].price, isBid) in m.live;
      var j :| 0 <= j < |m.live| && m.live[j] == LiveOrder(side[i].order.id, side[i].price, isBid);
      assert Emits(m.live[j], m.requests);
    }
  }

  /** An order that rests after the round, being kept or new, has its entry in the pool. */
  lemma {:induction false} KeptInPool(b: Book, m: Stream, d: Draw, after: Stream, r: Request, isBid: bool,
                                      side: seq<RestingOrder>, i: nat)
    requires StreamOk(m) && d.Ok() && BookOk(b) && Pooled(b, m.live)
    requires after == Emit(m, d) && r == after.requests[|m.requests|]
    requires side == Step(b, r).book.Side(isBid) && i < |side| && Kept(b, r, isBid, side[i])
    ensures LiveOrder(side[i].order.id, side[i].price, isBid) in after.live
  {
    var o := side[i];
    if j :| 0 <= j < |b.Side(isBid)| && SameOrder(o, b.Side(isBid)[j]) {
      var entry := LiveOrder(o.order.id, o.price, isBid);
      assert InPool(isBid, b.Side(isBid), m.live);
      assert entry in m.live;
      StaysInPool(b, m, d, entry, isBid, i);
    } else {
      assert after.live[|m.live|] == LiveOrder(r.order.id, r.limit, isBid);
    }
  }

  /** What rests after the request has its entry in the pool after the round. */
  lemma {:induction false} EmitKeepsPool(c: Config, b: Book, m: Stream, d: Draw, isBid: bool)
    requires StreamOk(m) && d.Ok() && BookOk(b) && Pooled(b, m.live)
    requires Admissible(c, b, Emit(m, d).requests[|m.requests|])
    ensures InPool(isBid, Step(b, Emit(m, d).requests[|m.requests|]).book.Side(isBid), Emit(m, d).live)
  {
    var after := Emit(m, d);
    var r := after.requests[|m.requests|];
    var side := Step(b, r).book.Side(isBid);
    StepNeverGrows(c, b, r, isBid);
    forall i | 0 <= i < |side| ensures LiveOrder(side[i].order.id, side[i].price, isBid) in after.live {
      KeptInPool(b, m, d, after, r, isBid, side, i);
    }
  }

  /** A pool entry goes only when its order is cancelled, and then the order goes too. */
  lemma {:induction false} StaysInPool(b: Book, m: Stream, d: Draw, entry: LiveOrder, isBid: bool, i: nat)
    requires StreamOk(m) && d.Ok() && BookOk(b) && entry in m.live
    requires var next := Step(b, Emit(m, d).requests[|m.requests|]).book;
             i < |next.Side(isBid)| && next.Side(isBid)[i].order.id == entry.id
    ensures entry in Emit(m, d).live
  {
    var after := Emit(m, d);
    var k :| 0 <= k < |m.live| && m.live[k] == entry;
    if d.action.Cancel? && m.live != [] {
      var idx := Victim(m.live, d.age);
      SwapOutKeeps(m.live, idx);
      if k == idx {
        CancelledIsGone(b, entry.id);
      }
    } else {
      assert after.live[k] == entry;
    }
  }

  lemma {:induction false} CancelledIsGone(b: Book, id: nat)
    requires BookOk(b)
    ensures !Holds(ReferenceBook.Cancel(b, id).book.asks, id) && !Holds(ReferenceBook.Cancel(b, id).book.bids, id)
  {
    FindNone(b.asks, id);
    FindNone(b.bids, id);
    if Holds(b.asks, id) {
      RemovedIsGone(b.asks, id);
      var i := FindPos(b.asks, id);
      assert b.asks[i].order.id == id;
    } else if Holds(b.bids, id) {
      RemovedIsGone(b.bids, id);
    }
  }

  lemma {:induction false} RemovedIsGone(side: seq<RestingOrder>, id: nat)
    requires Unique(side) && Holds(side, id)
    ensures !Holds(Remove(side, id), id)
  {
    RemoveAtPos(side, id);
    var k := FindPos(side, id);
    var shorter := side[..k] + side[k + 1..];
    forall i | 0 <= i < |shorter| ensures shorter[i].order.id != id {
      assert shorter[i] == side[if i < k then i else i + 1];
    }
  }

  // Whole streams

  /** The tally stays within the pool size after every round. */
  ghost predicate TallyAlwaysWithin(draws: seq<Draw>, perLevel: nat)
    requires DrawsOk(draws)
  {
    forall k :: 0 <= k <= |draws| ==> TallyWithin(Emitted(draws[..k]), perLevel)
  }

  /** If the tally never exceeds a level's pool, the stream is one the book accepts from end to end, no request of
      it overruns the ring, and after it every resting order is in the pool. */
  lemma {:induction false} StreamIsAdmissible(c: Config, draws: seq<Draw>)
    requires DrawsOk(draws) && Suits(c, |draws|) && TallyAlwaysWithin(draws, c.perLevel)
    ensures AdmissibleRun(c, EMPTY, Emitted(draws).requests) && FitsRingRun(c.ring, EMPTY, Emitted(draws).requests)
    ensures Pooled(Run(EMPTY, Emitted(draws).requests).book, Emitted(draws).live)
  {
    if draws != [] {
      var n := |draws| - 1;
      var before := draws[..n];
      assert forall k :: 0 <= k <= n ==> before[..k] == draws[..k];
      StreamIsAdmissible(c, before);
      StreamIsWellFormed(before);
      assert draws[..|draws|] == draws;
      StreamStep(c, Emitted(before), draws[n]);
    }
  }

  /** One more admissible request whose fills fit. */
  lemma {:induction false} RunAlso(c: Config, rs: seq<Request>, r: Request)
    requires c.Ok() && AdmissibleRun(c, EMPTY, rs) && FitsRingRun(c.ring, EMPTY, rs)
    requires Admissible(c, Run(EMPTY, rs).book, r) && FitsRing(c.ring, Run(EMPTY, rs).book, r)
    ensures AdmissibleRun(c, EMPTY, rs + [r]) && FitsRingRun(c.ring, EMPTY, rs + [r])
    ensures Run(EMPTY, rs + [r]).book == Step(Run(EMPTY, rs).book, r).book
  {
    assert (rs + [r])[..|rs|] == rs;
  }

  /** One more round of an admissible stream. */
  lemma {:induction false} StreamStep(c: Config, m: Stream, d: Draw)
    requires StreamOk(m) && d.Ok() && Suits(c, |m.requests| + 1) && TallyWithin(Emit(m, d), c.perLevel)
    requires AdmissibleRun(c, EMPTY, m.requests) && FitsRingRun(c.ring, EMPTY, m.requests)
    requires Pooled(Run(EMPTY, m.requests).book, m.live)
    ensures AdmissibleRun(c, EMPTY, Emit(m, d).requests) && FitsRingRun(c.ring, EMPTY, Emit(m, d).requests)
    ensures Pooled(Run(EMPTY, Emit(m, d).requests).book, Emit(m, d).live)
  {
    var b := Run(EMPTY, m.requests).book;
    RunKeepsBook(c, m.requests);
    EmitAdmissible(c, b, m, d);
    EmitKeepsPool(c, b, m, d, false);
    EmitKeepsPool(c, b, m, d, true);
    var r := Emit(m, d).requests[|m.requests|];
    RunAlso(c, m.requests, r);
    assert Emit(m, d).requests == m.requests + [r];
  }

  lemma {:induction false} TallyAtMostPool(live: seq<LiveOrder>, isBuy: bool, price: nat)
    ensures Tally(live, isBuy, price) <= |live|
  {
    if live != [] {
      TallyAtMostPool(live[1..], isBuy, price);
    }
  }

  lemma {:induction false} PoolAtMostRounds(draws: seq<Draw>)
    requires DrawsOk(draws)
    ensures |Emitted(draws).live| <= |draws|
  {
    if draws != [] {
      PoolAtMostRounds(draws[..|draws| - 1]);
    }
  }

  /** For every stream, with no bound on the tally: after it, no price holds more orders of a side in the
      reference book than the generator's tally says. */
  lemma {:induction false} StreamTallyBounds(draws: seq<Draw>, isBid: bool, price: nat)
    requires DrawsOk(draws)
    ensures CountAt(Run(EMPTY, Emitted(draws).requests).book.Side(isBid), price)
            <= Tally(Emitted(draws).live, isBid, price)
  {
    var roomy := Config(LEVELS, |draws| + 1, |draws|, 100);
    forall k | 0 <= k <= |draws| ensures TallyWithin(Emitted(draws[..k]), roomy.perLevel) {
      PoolAtMostRounds(draws[..k]);
      forall isBuy, p ensures Tally(Emitted(draws[..k]).live, isBuy, p) <= roomy.perLevel {
        TallyAtMostPool(Emitted(draws[..k]).live, isBuy, p);
      }
    }
    StreamIsAdmissible(roomy, draws);
    RunKeepsBook(roomy, Emitted(draws).requests);
    TallyBounds(isBid, Run(EMPTY, Emitted(draws).requests).book.Side(isBid), Emitted(draws).live, price);
  }

  /** Generator and matcher end to end: generate a market, match it on a new book, and the book holds exactly
      what the reference book holds, with the queue holding its responses, as many as fit. */
  method GenerateAndMatch(draws: seq<Draw>, config: Config, capacity: nat, padding: nat, maxLength: nat)
    returns (book: OrderBook.OrderBook, queue: Exchange.Outgoing, requests: seq<Request>)
    requires DrawsOk(draws) && Suits(config, |draws|) && TallyAlwaysWithin(draws, config.perLevel)
    requires SpscQueue.Constructible(capacity, padding, SIZE_MAX, maxLength)
    ensures requests == Emitted(draws).requests
    ensures book.Valid() && book.Contents() == Run(EMPTY, requests).book && Pooled(book.Contents(), Emitted(draws).live)
    ensures queue.Valid()
    ensures queue.Contents() == Exchange.Fitting(Flatten(Run(EMPTY, requests).log), capacity)
  {
    var generator := new Generator();
    requests := generator.Generate(draws);
    StreamIsAdmissible(config, draws);
    book, queue := Exchange.MatchNew(config, capacity, padding, maxLength, requests);
  }
}
