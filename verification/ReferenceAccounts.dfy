/** What runs of the reference book conserve and what its answers mean. */
module ReferenceAccounts {
  import opened MatcherTypes
  import opened ReferenceBook
  import opened ReferenceLaws
  import opened ReferenceRuns

  // Conservation of signed lots

  function Net(side: seq<RestingOrder>): int {
    if side == [] then 0 else side[0].order.lots + Net(side[1..])
  }

  function NetOf(b: Book): int {
    Net(b.asks) + Net(b.bids)
  }

  /** The lots a request brings in. */
  function Submitted(r: Request): int {
    if r.IsMarket() || r.IsLimit() then r.order.lots else 0
  }

  /** The lots a request's own answer takes out: a cancelled order, or what a market order did not fill. */
  function GivenBack(response: MessageResponse): int {
    if response.order.Some? && response.result in {Rejected, PartiallyFilled, Cancelled}
    then response.order.value.lots else 0
  }

  function AllSubmitted(rs: seq<Request>): int {
    if rs == [] then 0 else AllSubmitted(rs[..|rs| - 1]) + Submitted(rs[|rs| - 1])
  }

  /** The own answer of a request is the last thing it emits. */
  function AllGivenBack(log: seq<seq<MessageResponse>>): int {
    if log == [] then 0
    else
      var emitted := log[|log| - 1];
      AllGivenBack(log[..|log| - 1]) + (if emitted == [] then 0 else GivenBack(emitted[|emitted| - 1]))
  }

  /** Every fill takes equal and opposite amounts from the two sides. */
  lemma {:induction false} MatchConserves(isBuy: bool, side: seq<RestingOrder>, lots: int, limit: int)
    requires lots == 0 || HasSign(isBuy, lots)
    ensures var m := Match(isBuy, side, lots, limit); Net(side) + lots == Net(m.side) + m.rest
    decreases |side|
  {
    if HasSign(isBuy, lots) && side != [] && Within(isBuy, side[0].price, limit) {
      var left := lots + side[0].order.lots;
      if HasSign(!isBuy, left) {
        var remainder := RestingOrder(Order(side[0].order.id, left), side[0].price);
        assert ([remainder] + side[1..])[1..] == side[1..];
      } else {
        MatchConserves(isBuy, side[1..], left, limit);
      }
    }
  }

  lemma {:induction false} InsertNet(isBid: bool, side: seq<RestingOrder>, o: RestingOrder)
    ensures Net(Insert(isBid, side, o)) == Net(side) + o.order.lots
  {
    if side == [] || Better(isBid, o.price, side[0].price) {
      assert ([o] + side)[1..] == side;
    } else {
      InsertNet(isBid, side[1..], o);
      assert ([side[0]] + Insert(isBid, side[1..], o))[1..] == Insert(isBid, side[1..], o);
    }
  }

  lemma {:induction false} RemoveNet(side: seq<RestingOrder>, id: nat)
    ensures Find(side, id).Some? ==> Net(Remove(side, id)) + Find(side, id).value.lots == Net(side)
  {
    if side != [] && side[0].order.id != id {
      RemoveNet(side[1..], id);
      assert ([side[0]] + Remove(side[1..], id))[1..] == Remove(side[1..], id);
    }
  }

  lemma {:induction false} StepConserves(b: Book, r: Request)
    ensures NetOf(b) + Submitted(r) == NetOf(Step(b, r).book) + GivenBack(Step(b, r).response)
  {
    match r
    case CancelOrder(_, toCancel, _) =>
      RemoveNet(b.asks, toCancel);
      RemoveNet(b.bids, toCancel);
    case NewOrder(_, order, orderType, _, limit, _) =>
      if r.IsMarket() {
        MatchConserves(order.lots > 0, b.Side(order.lots <= 0), order.lots, MarketLimit(orderType));
      } else if r.IsLimit() {
        var isBuy := order.lots > 0;
        MatchConserves(isBuy, b.Side(!isBuy), order.lots, limit);
        var o := RestingOrder(Order(order.id, MatchOn(b, order, limit).rest), limit);
        InsertNet(isBuy, b.Side(isBuy), o);
      }
  }

  /** Over any run, the signed lots submitted equal those gained by the book plus those given back. */
  lemma {:induction false} RunConserves(b: Book, rs: seq<Request>)
    ensures var h := Run(b, rs);
            NetOf(b) + AllSubmitted(rs) == NetOf(h.book) + AllGivenBack(h.log)
  {
    if rs != [] {
      var before := Run(b, rs[..|rs| - 1]);
      RunConserves(b, rs[..|rs| - 1]);
      StepConserves(before.book, rs[|rs| - 1]);
      assert Run(b, rs).log[..|before.log|] == before.log;
    }
  }

  // Fills

  /** Every fill takes at least one lot. */
  lemma {:induction false} FillsAtMostLots(isBuy: bool, side: seq<RestingOrder>, lots: int, limit: int)
    requires HasSign(isBuy, lots) && Signed(!isBuy, side)
    ensures |Match(isBuy, side, lots, limit).fills| <= Abs(lots)
    decreases |side|
  {
    if side != [] && Within(isBuy, side[0].price, limit) && HasSign(isBuy, lots + side[0].order.lots) {
      FillsAtMostLots(isBuy, side[1..], lots + side[0].order.lots, limit);
    }
  }

  /** The fills of one request name different orders, so no two are alike. */
  lemma {:induction false} FillsDiffer(isBuy: bool, side: seq<RestingOrder>, lots: int, limit: int)
    requires HasSign(isBuy, lots) && Signed(!isBuy, side) && Unique(side)
    ensures var fills := Match(isBuy, side, lots, limit).fills;
            forall i, j :: 0 <= i < j < |fills| ==> fills[i] != fills[j]
  {
    MatchTakesShortestPrefix(isBuy, side, lots, limit);
    var fills := Match(isBuy, side, lots, limit).fills;
    forall i | 0 <= i < |fills| ensures fills[i].order.Some? && fills[i].order.value.id == side[i].order.id {
      if i < |fills| - 1 {
        assert fills[i] == FullFill(side[i]);
      }
    }
  }

  // Answers

  /** Every price is one of the n ticks. */
  ghost predicate Ticks(b: Book, n: int) {
    && (forall i :: 0 <= i < |b.asks| ==> b.asks[i].price < n)
    && (forall i :: 0 <= i < |b.bids| ==> b.bids[i].price < n)
  }

  ghost predicate TicksOf(side: seq<RestingOrder>, n: int) {
    forall i :: 0 <= i < |side| ==> side[i].price < n
  }

  lemma {:induction false} ThinTicks(part: seq<RestingOrder>, side: seq<RestingOrder>, at: seq<nat>, n: int)
    requires Thins(part, side, at) && TicksOf(side, n)
    ensures TicksOf(part, n)
  {
    forall j | 0 <= j < |part| ensures part[j].price < n {
      assert SameOrder(part[j], side[at[j]]);
    }
  }

  lemma {:induction false} InsertTicks(isBid: bool, side: seq<RestingOrder>, o: RestingOrder, n: int)
    requires TicksOf(side, n) && o.price < n
    ensures TicksOf(Insert(isBid, side, o), n)
  {
    forall i | 0 <= i < |Insert(isBid, side, o)| ensures Insert(isBid, side, o)[i].price < n {
      InsertedFrom(isBid, side, o, i);
    }
  }

  lemma {:induction false} StepKeepsTicks(c: Config, b: Book, r: Request)
    requires BookOk(b) && Ticks(b, c.levels) && Admissible(c, b, r)
    ensures Ticks(Step(b, r).book, c.levels)
  {
    match r
    case CancelOrder(_, id, _) =>
      FindNone(b.asks, id);
      FindNone(b.bids, id);
      if Holds(b.asks, id) {
        var at := RemoveThins(false, b.asks, id);
        ThinTicks(Remove(b.asks, id), b.asks, at, c.levels);
      } else if Holds(b.bids, id) {
        var at := RemoveThins(true, b.bids, id);
        ThinTicks(Remove(b.bids, id), b.bids, at, c.levels);
      }
    case NewOrder(_, order, orderType, _, limit, _) =>
      if r.IsMarket() || r.IsLimit() {
        var isBuy := order.lots > 0;
        var bound := LimitOf(r);
        var at := MatchThins(isBuy, b.Side(!isBuy), order.lots, bound);
        ThinTicks(MatchOn(b, order, bound).side, b.Side(!isBuy), at, c.levels);
        if r.IsLimit() && Step(b, r).response.result == Resting {
          InsertTicks(isBuy, b.Side(isBuy), RestingOrder(Order(order.id, MatchOn(b, order, limit).rest), limit),
                      c.levels);
        }
      }
  }

  lemma {:induction false} RunKeepsTicks(c: Config, rs: seq<Request>)
    requires AdmissibleRun(c, EMPTY, rs)
    ensures Ticks(Run(EMPTY, rs).book, c.levels)
  {
    if rs != [] {
      RunKeepsTicks(c, rs[..|rs| - 1]);
      RunKeepsBook(c, rs[..|rs| - 1]);
      StepKeepsTicks(c, Run(EMPTY, rs[..|rs| - 1]).book, rs[|rs| - 1]);
    }
  }

  /** The limit of a market order shuts out no price of the ladder. */
  lemma {:induction false} FrontWithin(isBuy: bool, side: seq<RestingOrder>, n: nat)
    requires TicksOf(side, n) && n < SIZE_MAX
    ensures |side| > 0 ==> if isBuy then side[0].price <= SIZE_MAX else side[0].price >= 0
  {
  }

  /** A market order is answered Filled, PartiallyFilled or Rejected as none, some or all of its lots remain,
      and lots remain only when the opposite side has been emptied. */
  lemma {:induction false} MarketAnswer(c: Config, b: Book, r: Request)
    requires c.Ok() && BookOk(b) && Ticks(b, c.levels) && Admissible(c, b, r) && r.IsMarket()
    ensures var s := Step(b, r);
            var rest := s.response.order.value.lots;
            && s.response.order == Some(Order(r.order.id, rest))
            && (s.response.result == Filled <==> rest == 0)
            && (s.response.result == Rejected <==> s.fills == [])
            && (s.response.result == PartiallyFilled <==> s.fills != [] && rest != 0)
            && (rest != 0 ==> s.book.Side(r.order.lots < 0) == [])
  {
    var isBuy := r.order.lots > 0;
    var side, limit := b.Side(!isBuy), MarketLimit(r.orderType);
    RestIsSigned(isBuy, side, r.order.lots, limit);
    var m := Match(isBuy, side, r.order.lots, limit);
    if m.rest != 0 {
      NothingWithinLimit(isBuy, side, r.order.lots, limit);
      var at := MatchThins(isBuy, side, r.order.lots, limit);
      ThinTicks(m.side, side, at, c.levels);
      FrontWithin(isBuy, m.side, c.levels);
    }
  }

  /** A limit order rests exactly when lots remain, and then nothing opposite is left within its limit. */
  lemma {:induction false} LimitAnswer(c: Config, b: Book, r: Request)
    requires BookOk(b) && Admissible(c, b, r) && r.IsLimit()
    ensures var s := Step(b, r);
            var isBuy := r.order.lots > 0;
            var rest := s.response.order.value.lots;
            && s.response.order == Some(Order(r.order.id, rest))
            && (s.response.result == Filled <==> rest == 0)
            && (s.response.result == Resting <==> rest != 0)
            && (rest != 0 ==> (if isBuy then rest > 0 else rest < 0) && NoneWithin(isBuy, s.book.Side(!isBuy), r.limit)
                              && RestingOrder(Order(r.order.id, rest), r.limit) in s.book.Side(isBuy))
  {
    var isBuy := r.order.lots > 0;
    RestIsSigned(isBuy, b.Side(!isBuy), r.order.lots, r.limit);
    var m := MatchOn(b, r.order, r.limit);
    if m.rest != 0 {
      NothingWithinLimit(isBuy, b.Side(!isBuy), r.order.lots, r.limit);
      var o := RestingOrder(Order(r.order.id, m.rest), r.limit);
      InsertAt(isBuy, b.Side(isBuy), o);
      assert Insert(isBuy, b.Side(isBuy), o)[InsertPos(isBuy, b.Side(isBuy), o.price)] == o;
    }
  }

  /** A cancel request takes out exactly the order with that id, with what is left of it, wherever it rests;
      it answers NotFound and changes nothing exactly when no order with that id rests. */
  lemma {:induction false} CancelAnswer(b: Book, r: Request)
    requires BookOk(b) && r.CancelOrder?
    ensures var s, id := Step(b, r), r.toCancel;
            && (s.response.result == Cancelled <==> Holds(b.asks, id) || Holds(b.bids, id))
            && (s.response.result != Cancelled ==> s == Outcome(b, [], MessageResponse(None, NotFound)))
            && (forall isBid, i :: 0 <= i < |b.Side(isBid)| && b.Side(isBid)[i].order.id == id ==>
                  s == Outcome(b.WithSide(isBid, b.Side(isBid)[..i] + b.Side(isBid)[i + 1..]), [],
                               MessageResponse(Some(b.Side(isBid)[i].order), Cancelled)))
  {
    var id := r.toCancel;
    FindNone(b.asks, id);
    FindNone(b.bids, id);
    forall isBid, i | 0 <= i < |b.Side(isBid)| && b.Side(isBid)[i].order.id == id
      ensures Step(b, r) == Outcome(b.WithSide(isBid, b.Side(isBid)[..i] + b.Side(isBid)[i + 1..]), [],
                                       MessageResponse(Some(b.Side(isBid)[i].order), Cancelled))
    {
      var side := b.Side(isBid);
      assert Holds(side, id);
      RemoveAtPos(side, id);
      var k := FindPos(side, id);
      assert k == i;
      assert isBid ==> !Holds(b.asks, id);
    }
  }

  /** An order that rests after a request is the request's own remainder, or rested before with the same price
      and side and no fewer lots. */
  ghost predicate Kept(b: Book, r: Request, isBid: bool, o: RestingOrder) {
    || (exists j :: 0 <= j < |b.Side(isBid)| && SameOrder(o, b.Side(isBid)[j]))
    || (r.IsLimit() && isBid == (r.order.lots > 0) && o.price == r.limit && o.order.id == r.order.id
        && (if isBid then o.order.lots > 0 else o.order.lots < 0) && Abs(o.order.lots) <= Abs(r.order.lots))
  }

  lemma {:induction false} ThinKept(b: Book, r: Request, isBid: bool, part: seq<RestingOrder>, at: seq<nat>)
    requires Thins(part, b.Side(isBid), at)
    ensures forall i :: 0 <= i < |part| ==> Kept(b, r, isBid, part[i])
  {
    forall i | 0 <= i < |part| ensures Kept(b, r, isBid, part[i]) {
      assert SameOrder(part[i], b.Side(isBid)[at[i]]);
    }
  }

  lemma {:induction false} SideKept(b: Book, r: Request, isBid: bool)
    requires Signed(isBid, b.Side(isBid))
    ensures forall i :: 0 <= i < |b.Side(isBid)| ==> Kept(b, r, isBid, b.Side(isBid)[i])
  {
    var side := b.Side(isBid);
    ThinKept(b, r, isBid, side, seq(|side|, j requires 0 <= j < |side| => j));
  }

  lemma {:induction false} StepNeverGrows(c: Config, b: Book, r: Request, isBid: bool)
    requires BookOk(b) && Admissible(c, b, r)
    ensures forall i :: 0 <= i < |Step(b, r).book.Side(isBid)| ==> Kept(b, r, isBid, Step(b, r).book.Side(isBid)[i])
  {
    SideKept(b, r, isBid);
    match r
    case CancelOrder(_, id, _) =>
      FindNone(b.asks, id);
      FindNone(b.bids, id);
      if Holds(b.Side(isBid), id) {
        var at := RemoveThins(isBid, b.Side(isBid), id);
        ThinKept(b, r, isBid, Remove(b.Side(isBid), id), at);
      }
    case NewOrder(_, order, orderType, _, limit, _) =>
      if r.IsMarket() || r.IsLimit() {
        var isBuy := order.lots > 0;
        var bound := LimitOf(r);
        var at := MatchThins(isBuy, b.Side(!isBuy), order.lots, bound);
        if isBid != isBuy {
          ThinKept(b, r, isBid, MatchOn(b, order, bound).side, at);
        } else if r.IsLimit() && Step(b, r).response.result == Resting {
          RestIsSigned(isBuy, b.Side(!isBuy), order.lots, limit);
          var o := RestingOrder(Order(order.id, MatchOn(b, order, limit).rest), limit);
          forall i | 0 <= i < |Insert(isBuy, b.Side(isBuy), o)|
            ensures Kept(b, r, isBid, Insert(isBuy, b.Side(isBuy), o)[i])
          {
            InsertedFrom(isBuy, b.Side(isBuy), o, i);
          }
        }
      }
  }
}
