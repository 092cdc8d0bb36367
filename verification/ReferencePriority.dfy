/** Price-time priority: over every run each side is ordered by price, and within a price by arrival. */
module ReferencePriority {
  import opened MatcherTypes
  import opened ReferenceBook
  import opened ReferenceLaws
  import opened ReferenceRuns

  /** When, in a run, the order with each id last came to rest: the number of the request. */
  function Arrived(arrivals: map<nat, nat>, b: Book, r: Request, t: nat): map<nat, nat> {
    if r.IsLimit() && Step(b, r).response.result == Resting then arrivals[r.order.id := t] else arrivals
  }

  function Arrivals(b: Book, rs: seq<Request>): map<nat, nat> {
    if rs == [] then map[]
    else
      var k := |rs| - 1;
      Arrived(Arrivals(b, rs[..k]), Run(b, rs[..k]).book, rs[k], k)
  }

  /** Request t of the run is a limit order with this id, and it comes to rest. */
  ghost predicate RestsAt(b: Book, rs: seq<Request>, t: nat, id: nat)
    requires t < |rs|
  {
    && rs[t].NewOrder? && rs[t].order.id == id && rs[t].order.lots != 0
    && (rs[t].orderType == 1 || rs[t].orderType == 3)
    && Step(Run(b, rs[..t]).book, rs[t]).response.result == Resting
  }

  /** The recorded arrival of an id is the last request at which an order with it came to rest. */
  lemma {:induction false} ArrivalsAreLast(b: Book, rs: seq<Request>, id: nat)
    ensures id in Arrivals(b, rs) ==> Arrivals(b, rs)[id] < |rs| && RestsAt(b, rs, Arrivals(b, rs)[id], id)
    ensures forall t: nat :: t < |rs| && RestsAt(b, rs, t, id) ==> id in Arrivals(b, rs) && t <= Arrivals(b, rs)[id]
  {
    if rs != [] {
      var n := |rs| - 1;
      ArrivalsAreLast(b, rs[..n], id);
      forall t: nat | t < n ensures RestsAt(b, rs[..n], t, id) == RestsAt(b, rs, t, id) {
        assert rs[..n][..t] == rs[..t];
      }
    }
  }

  /** Whether the first order has priority over the second. */
  ghost predicate Precedes(isBid: bool, a: RestingOrder, b: RestingOrder, arrivals: map<nat, nat>) {
    && a.order.id in arrivals && b.order.id in arrivals
    && ((if isBid then a.price > b.price else a.price < b.price)
        || (a.price == b.price && arrivals[a.order.id] < arrivals[b.order.id]))
  }

  ghost predicate InTurn(isBid: bool, side: seq<RestingOrder>, arrivals: map<nat, nat>, now: nat) {
    && (forall i :: 0 <= i < |side| ==> side[i].order.id in arrivals && arrivals[side[i].order.id] < now)
    && (forall i, j :: 0 <= i < j < |side| ==> Precedes(isBid, side[i], side[j], arrivals))
  }

  lemma {:induction false} ThinInTurn(isBid: bool, part: seq<RestingOrder>, side: seq<RestingOrder>, at: seq<nat>,
                                      arrivals: map<nat, nat>, now: nat)
    requires Thins(part, side, at) && InTurn(isBid, side, arrivals, now)
    ensures InTurn(isBid, part, arrivals, now + 1)
  {
    forall i | 0 <= i < |part| ensures part[i].order.id in arrivals && arrivals[part[i].order.id] < now {
      assert SameOrder(part[i], side[at[i]]);
    }
    forall i, j | 0 <= i < j < |part| ensures Precedes(isBid, part[i], part[j], arrivals) {
      assert at[i] < at[j] && Precedes(isBid, side[at[i]], side[at[j]], arrivals);
      assert SameOrder(part[i], side[at[i]]) && SameOrder(part[j], side[at[j]]);
    }
  }

  /** A new arrival elsewhere does not disturb a side that does not hold its id. */
  lemma {:induction false} OtherInTurn(isBid: bool, side: seq<RestingOrder>, arrivals: map<nat, nat>, now: nat, id: nat)
    requires InTurn(isBid, side, arrivals, now) && !Holds(side, id)
    ensures InTurn(isBid, side, arrivals[id := now], now + 1)
  {
    forall i, j | 0 <= i < j < |side| ensures Precedes(isBid, side[i], side[j], arrivals[id := now]) {
      assert Precedes(isBid, side[i], side[j], arrivals);
    }
  }

  /** An insertion goes behind everything that arrived earlier at its price, and nothing else. */
  lemma {:induction false} InsertInTurn(isBid: bool, side: seq<RestingOrder>, o: RestingOrder, arrivals: map<nat, nat>,
                                        now: nat)
    requires InTurn(isBid, side, arrivals, now) && !Holds(side, o.order.id)
    ensures InTurn(isBid, Insert(isBid, side, o), arrivals[o.order.id := now], now + 1)
  {
    var after := arrivals[o.order.id := now];
    OtherInTurn(isBid, side, arrivals, now, o.order.id);
    InsertAt(isBid, side, o);
    var k := InsertPos(isBid, side, o.price);
    var longer := side[..k] + [o] + side[k..];
    forall i, j | 0 <= i < j < |longer| ensures Precedes(isBid, longer[i], longer[j], after) {
      var i', j' := if i < k then i else i - 1, if j < k then j else j - 1;
      assert i != k ==> longer[i] == side[i'];
      assert j != k ==> longer[j] == side[j'];
      if i == k && j' > k {
        assert Precedes(isBid, side[k], side[j'], after);
      }
    }
    forall i | 0 <= i < |longer| ensures longer[i].order.id in after && after[longer[i].order.id] < now + 1 {
      assert i != k ==> longer[i] == side[if i < k then i else i - 1];
    }
  }

  lemma {:induction false} SameInTurn(isBid: bool, side: seq<RestingOrder>, arrivals: map<nat, nat>, now: nat)
    requires InTurn(isBid, side, arrivals, now)
    ensures InTurn(isBid, side, arrivals, now + 1)
  {
  }

  lemma {:induction false} MatchedInTurn(b: Book, order: Order, limit: int, arrivals: map<nat, nat>, now: nat)
    requires BookOk(b) && order.lots != 0
    requires InTurn(false, b.asks, arrivals, now) && InTurn(true, b.bids, arrivals, now)
    ensures var m := Matched(b, order, limit);
            InTurn(false, m.asks, arrivals, now + 1) && InTurn(true, m.bids, arrivals, now + 1)
  {
    var isBuy := order.lots > 0;
    var at := MatchThins(isBuy, b.Side(!isBuy), order.lots, limit);
    ThinInTurn(!isBuy, Matched(b, order, limit).Side(!isBuy), b.Side(!isBuy), at, arrivals, now);
    SameInTurn(isBuy, b.Side(isBuy), arrivals, now);
  }

  /** A remainder that comes to rest goes behind everything that arrived earlier at its price, on the one side,
      and what the match left on the other side stays in turn. */
  lemma {:induction false} LimitInTurn(c: Config, b: Book, order: Order, price: nat, arrivals: map<nat, nat>, now: nat)
    requires BookOk(b) && order.lots != 0
    requires InTurn(false, b.asks, arrivals, now) && InTurn(true, b.bids, arrivals, now)
    requires Limit(b, order, price).response.result == Resting && MayRest(c, Matched(b, order, price), order, price)
    ensures var after := Limit(b, order, price).book;
            && InTurn(false, after.asks, arrivals[order.id := now], now + 1)
            && InTurn(true, after.bids, arrivals[order.id := now], now + 1)
  {
    var isBuy := order.lots > 0;
    var opposite := Matched(b, order, price).Side(!isBuy);
    var at := MatchThins(isBuy, b.Side(!isBuy), order.lots, price);
    forall i | 0 <= i < |opposite|
      ensures opposite[i].order.id in arrivals && arrivals[opposite[i].order.id] < now
    {
      assert SameOrder(opposite[i], b.Side(!isBuy)[at[i]]);
    }
    ThinInTurn(!isBuy, opposite, b.Side(!isBuy), at, arrivals, now);
    OtherInTurn(!isBuy, opposite, arrivals, now, order.id);
    InsertInTurn(isBuy, b.Side(isBuy), RestingOrder(Order(order.id, MatchOn(b, order, price).rest), price), arrivals,
                 now);
  }

  lemma {:induction false} CancelInTurn(b: Book, id: nat, arrivals: map<nat, nat>, now: nat)
    requires BookOk(b)
    requires InTurn(false, b.asks, arrivals, now) && InTurn(true, b.bids, arrivals, now)
    ensures var after := Cancel(b, id).book;
            InTurn(false, after.asks, arrivals, now + 1) && InTurn(true, after.bids, arrivals, now + 1)
  {
    FindNone(b.asks, id);
    FindNone(b.bids, id);
    SameInTurn(false, b.asks, arrivals, now);
    SameInTurn(true, b.bids, arrivals, now);
    if Holds(b.asks, id) {
      var at := RemoveThins(false, b.asks, id);
      ThinInTurn(false, Remove(b.asks, id), b.asks, at, arrivals, now);
    } else if Holds(b.bids, id) {
      var at := RemoveThins(true, b.bids, id);
      ThinInTurn(true, Remove(b.bids, id), b.bids, at, arrivals, now);
    }
  }

  /** Over every run from an empty book, of two orders on a side the one ahead has the better price or, at the
      same price, came to rest at an earlier request. */
  lemma {:induction false} RunKeepsPriority(c: Config, rs: seq<Request>)
    requires AdmissibleRun(c, EMPTY, rs)
    ensures var b := Run(EMPTY, rs).book;
            InTurn(false, b.asks, Arrivals(EMPTY, rs), |rs|) && InTurn(true, b.bids, Arrivals(EMPTY, rs), |rs|)
  {
    if rs != [] {
      var k := |rs| - 1;
      var b, arrivals, r := Run(EMPTY, rs[..k]).book, Arrivals(EMPTY, rs[..k]), rs[k];
      RunKeepsPriority(c, rs[..k]);
      RunKeepsBook(c, rs[..k]);
      SameInTurn(false, b.asks, arrivals, k);
      SameInTurn(true, b.bids, arrivals, k);
      match r
      case CancelOrder(_, id, _) => CancelInTurn(b, id, arrivals, k);
      case NewOrder(_, order, orderType, _, limit, _) =>
        if r.IsMarket() {
          MatchedInTurn(b, order, MarketLimit(orderType), arrivals, k);
        } else if r.IsLimit() && Step(b, r).response.result == Resting {
          LimitInTurn(c, b, order, limit, arrivals, k);
        } else if r.IsLimit() {
          MatchedInTurn(b, order, limit, arrivals, k);
        }
    }
  }
}
