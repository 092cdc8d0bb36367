/** What each request does to the reference book, told in plain numbers: which orders it may take, where a remainder
    goes, what it answers.  Each law determines the outcome, so none of them depends on how the step is written. */
module StepLaws {
  import opened MatcherTypes
  import opened ReferenceBook
  import opened ReferenceLaws
  import opened ReferenceRuns
  import opened ReferenceAccounts

  /** A match leaves every order past its limit as it was. */
  lemma {:induction false} MatchLeavesPast(isBuy: bool, side: seq<RestingOrder>, lots: int, limit: int, i: nat)
    requires i < |side| && (if isBuy then side[i].price > limit else side[i].price < limit)
    ensures side[i] in Match(isBuy, side, lots, limit).side
    decreases |side|
  {
    if HasSign(isBuy, lots) && Within(isBuy, side[0].price, limit) {
      var left := lots + side[0].order.lots;
      if HasSign(!isBuy, left) {
        assert Match(isBuy, side, lots, limit).side[i] == side[i];
      } else {
        assert side[i] == side[1..][i - 1];
        MatchLeavesPast(isBuy, side[1..], left, limit, i - 1);
      }
    }
  }

  /** A limit order trades with nothing past its own price. */
  lemma {:induction false} LimitLeavesPast(b: Book, r: Request, i: nat)
    requires r.NewOrder? && r.order.lots != 0 && (r.orderType == 1 || r.orderType == 3)
    requires i < |if r.order.lots > 0 then b.asks else b.bids|
    requires if r.order.lots > 0 then b.asks[i].price > r.limit else b.bids[i].price < r.limit
    ensures if r.order.lots > 0 then b.asks[i] in Step(b, r).book.asks else b.bids[i] in Step(b, r).book.bids
  {
    MatchLeavesPast(r.order.lots > 0, b.Side(r.order.lots <= 0), r.order.lots, r.limit, i);
  }

  /** A market order takes the shortest prefix of the opposite side that covers it, whatever the prices, and leaves
      its own side alone. */
  lemma {:induction false} MarketStep(b: Book, r: Request)
    requires BookOk(b) && r.NewOrder? && r.order.lots != 0 && (r.orderType == 0 || r.orderType == 2)
    ensures var s := Step(b, r);
            && s.response.order.Some? && s.response.order.value.id == r.order.id
            && var rest := s.response.order.value.lots;
               var limit := if r.orderType == 0 then 0xFFFF_FFFF_FFFF_FFFF else 0;
               && s.response.result
                  == (if rest == 0 then Filled else if rest == r.order.lots then Rejected else PartiallyFilled)
               && (r.order.lots > 0 ==>
                     && s.book.bids == b.bids
                     && TakesShortestPrefix(true, b.asks, r.order.lots, limit,
                                            MatchResult(s.fills, s.book.asks, rest)))
               && (r.order.lots < 0 ==>
                     && s.book.asks == b.asks
                     && TakesShortestPrefix(false, b.bids, r.order.lots, limit,
                                            MatchResult(s.fills, s.book.bids, rest)))
  {
    MatchTakesShortestPrefix(r.order.lots > 0, b.Side(r.order.lots <= 0), r.order.lots, LimitOf(r));
  }

  /** The order is put at k: behind everything at its price or better, ahead of everything worse. */
  ghost predicate JoinsAt(isBid: bool, before: seq<RestingOrder>, after: seq<RestingOrder>, o: RestingOrder, k: nat) {
    && k <= |before| && after == before[..k] + [o] + before[k..]
    && (forall i :: 0 <= i < k ==> if isBid then before[i].price >= o.price else before[i].price <= o.price)
    && (forall i :: k <= i < |before| ==> if isBid then before[i].price < o.price else before[i].price > o.price)
  }

  lemma {:induction false} InsertJoins(isBid: bool, before: seq<RestingOrder>, o: RestingOrder) returns (k: nat)
    requires Sorted(isBid, before)
    ensures JoinsAt(isBid, before, Insert(isBid, before, o), o, k)
  {
    InsertAt(isBid, before, o);
    k := InsertPos(isBid, before, o.price);
  }

  /** A limit order takes the shortest prefix within its own price that covers it; what remains rests behind
      everything at its price or better, and is the answer. */
  lemma {:induction false} LimitStep(b: Book, r: Request) returns (k: nat)
    requires BookOk(b) && r.NewOrder? && r.order.lots != 0 && (r.orderType == 1 || r.orderType == 3)
    ensures var s := Step(b, r);
            && s.response.order.Some? && s.response.order.value.id == r.order.id
            && var rest := s.response.order.value.lots;
               var o := RestingOrder(Order(r.order.id, rest), r.limit);
               && s.response.result == (if rest == 0 then Filled else Resting)
               && (r.order.lots > 0 ==>
                     && TakesShortestPrefix(true, b.asks, r.order.lots, r.limit,
                                            MatchResult(s.fills, s.book.asks, rest))
                     && if rest == 0 then s.book.bids == b.bids else JoinsAt(true, b.bids, s.book.bids, o, k))
               && (r.order.lots < 0 ==>
                     && TakesShortestPrefix(false, b.bids, r.order.lots, r.limit,
                                            MatchResult(s.fills, s.book.bids, rest))
                     && if rest == 0 then s.book.asks == b.asks else JoinsAt(false, b.asks, s.book.asks, o, k))
  {
    var o := RestingOrder(Order(r.order.id, MatchOn(b, r.order, r.limit).rest), r.limit);
    if r.order.lots > 0 {
      MatchTakesShortestPrefix(true, b.asks, r.order.lots, r.limit);
      k := InsertJoins(true, b.bids, o);
    } else {
      MatchTakesShortestPrefix(false, b.bids, r.order.lots, r.limit);
      k := InsertJoins(false, b.asks, o);
    }
  }

  /** An order of no lots is rejected, and one of an unknown type gets the default answer; neither does anything. */
  lemma {:induction false} IdleStep(b: Book, r: Request)
    requires r.NewOrder? && (r.order.lots == 0 || r.orderType > 3)
    ensures Step(b, r) == Outcome(b, [], MessageResponse(None, if r.order.lots == 0 then Rejected else Filled))
  {
  }

  lemma {:induction false} RunLogsAll(b: Book, rs: seq<Request>)
    ensures |Run(b, rs).log| == |rs|
  {
    if rs != [] {
      RunLogsAll(b, rs[..|rs| - 1]);
    }
  }

  /** A run goes request by request: the book after each is that of one step, and what is logged for it are its
      fills followed by its own answer. */
  lemma {:induction false} RunByRequests(b: Book, rs: seq<Request>, k: nat)
    requires k < |rs|
    ensures Run(b, []).book == b && |Run(b, rs).log| == |rs|
    ensures var s := Step(Run(b, rs[..k]).book, rs[k]);
            Run(b, rs[..k + 1]).book == s.book && Run(b, rs).log[k] == s.fills + [s.response]
    decreases |rs|
  {
    var before := rs[..|rs| - 1];
    RunLogsAll(b, rs);
    RunLogsAll(b, before);
    if k == |before| {
      assert rs[..k + 1] == rs;
    } else {
      RunByRequests(b, before, k);
      assert before[..k] == rs[..k] && before[..k + 1] == rs[..k + 1] && before[k] == rs[k];
    }
  }
}
