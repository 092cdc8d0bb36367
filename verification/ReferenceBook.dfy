/**
 The naive order book: two sequences kept in price-then-arrival order, matched greedily from the front,
 cancelled by search.  The concrete book of module OrderBook is proved to behave like this one.
 */
module ReferenceBook {
  import opened MatcherTypes

  datatype RestingOrder = RestingOrder(order: Order, price: nat)

  datatype Book = Book(asks: seq<RestingOrder>, bids: seq<RestingOrder>) {
    function Side(isBid: bool): seq<RestingOrder> {
      if isBid then bids else asks
    }

    function WithSide(isBid: bool, side: seq<RestingOrder>): Book {
      if isBid then this.(bids := side) else this.(asks := side)
    }
  }

  const EMPTY: Book := Book([], [])

  /** Whether price p has priority over price q on the given side. */
  predicate Better(isBid: bool, p: int, q: int) {
    if isBid then p > q else p < q
  }

  /** Whether an incoming order with this limit may trade at this price. */
  predicate Within(isBuy: bool, price: int, limit: int) {
    if isBuy then price <= limit else price >= limit
  }

  /** Whether these lots have the sign of a buy (or of a sell). */
  predicate HasSign(isBuy: bool, lots: int) {
    if isBuy then lots > 0 else lots < 0
  }

  datatype MatchResult = MatchResult(fills: seq<MessageResponse>, side: seq<RestingOrder>, rest: int)

  /** Fill from the front of the opposite side while lots remain and the price is within the limit. */
  function Match(isBuy: bool, side: seq<RestingOrder>, lots: int, limit: int): MatchResult
    decreases |side|
  {
    if !HasSign(isBuy, lots) then
      MatchResult([], side, 0)
    else if side == [] || !Within(isBuy, side[0].price, limit) then
      MatchResult([], side, lots)
    else
      var left := lots + side[0].order.lots;
      if HasSign(!isBuy, left) then
        var remainder := Order(side[0].order.id, left);
        MatchResult([MessageResponse(Some(remainder), PartiallyFilled)],
                    [RestingOrder(remainder, side[0].price)] + side[1..], 0)
      else
        var m := Match(isBuy, side[1..], left, limit);
        MatchResult([MessageResponse(Some(Order(side[0].order.id, 0)), Filled)] + m.fills, m.side, m.rest)
  }

  /** Place an order behind every order whose price is at least as good. */
  function Insert(isBid: bool, side: seq<RestingOrder>, o: RestingOrder): seq<RestingOrder> {
    if side == [] || Better(isBid, o.price, side[0].price) then
      [o] + side
    else
      [side[0]] + Insert(isBid, side[1..], o)
  }

  function Find(side: seq<RestingOrder>, id: nat): Option<Order> {
    if side == [] then None
    else if side[0].order.id == id then Some(side[0].order)
    else Find(side[1..], id)
  }

  function Remove(side: seq<RestingOrder>, id: nat): seq<RestingOrder> {
    if side == [] then []
    else if side[0].order.id == id then side[1..]
    else [side[0]] + Remove(side[1..], id)
  }

  predicate Holds(side: seq<RestingOrder>, id: nat) {
    exists i :: 0 <= i < |side| && side[i].order.id == id
  }

  /** How many orders of the side rest at this price. */
  function CountAt(side: seq<RestingOrder>, price: int): nat {
    if side == [] then 0
    else (if side[0].price == price then 1 else 0) + CountAt(side[1..], price)
  }

  /** What one request does: the book afterwards, the fills it caused, and its own response. */
  datatype Outcome = Outcome(book: Book, fills: seq<MessageResponse>, response: MessageResponse) {
    /** Everything the request emits, in order. */
    function Emitted(): seq<MessageResponse> {
      fills + [response]
    }
  }

  function MatchOn(b: Book, order: Order, limit: int): MatchResult {
    var isBuy := order.lots > 0;
    Match(isBuy, b.Side(!isBuy), order.lots, limit)
  }

  /** The book after matching, before a remainder rests. */
  function Matched(b: Book, order: Order, limit: int): Book {
    b.WithSide(order.lots <= 0, MatchOn(b, order, limit).side)
  }

  function Market(b: Book, order: Order, limit: int): Outcome {
    var m := MatchOn(b, order, limit);
    var result := if m.rest == 0 then Filled else if m.rest == order.lots then Rejected else PartiallyFilled;
    Outcome(Matched(b, order, limit), m.fills, MessageResponse(Some(Order(order.id, m.rest)), result))
  }

  function Limit(b: Book, order: Order, price: nat): Outcome {
    var m := MatchOn(b, order, price);
    var isBuy := order.lots > 0;
    var matched := Matched(b, order, price);
    if m.rest == 0 then
      Outcome(matched, m.fills, MessageResponse(Some(Order(order.id, 0)), Filled))
    else
      var o := Order(order.id, m.rest);
      Outcome(matched.WithSide(isBuy, Insert(isBuy, matched.Side(isBuy), RestingOrder(o, price))),
              m.fills, MessageResponse(Some(o), Resting))
  }

  function Cancel(b: Book, id: nat): Outcome {
    match Find(b.asks, id)
    case Some(o) => Outcome(b.(asks := Remove(b.asks, id)), [], MessageResponse(Some(o), Cancelled))
    case None =>
      match Find(b.bids, id)
      case Some(o) => Outcome(b.(bids := Remove(b.bids, id)), [], MessageResponse(Some(o), Cancelled))
      case None => Outcome(b, [], MessageResponse(None, NotFound))
  }

  /** The limit a market order is matched with. */
  function MarketLimit(orderType: OrderType): int {
    if orderType == BUY then SIZE_MAX else 0
  }

  /** The limit an order that reaches the matching loop is matched with. */
  function LimitOf(r: Request): int
    requires r.NewOrder?
  {
    if r.IsMarket() then MarketLimit(r.orderType) else r.limit
  }

  function Step(b: Book, r: Request): Outcome {
    match r
    case NewOrder(_, order, orderType, _, limit, _) =>
      if order.lots == 0 then Outcome(b, [], MessageResponse(None, Rejected))
      else if r.IsMarket() then Market(b, order, MarketLimit(orderType))
      else if r.IsLimit() then Limit(b, order, limit)
      else Outcome(b, [], MessageResponse(None, Filled))
    case CancelOrder(_, toCancel, _) => Cancel(b, toCancel)
  }

  datatype History = History(book: Book, log: seq<seq<MessageResponse>>)

  function Run(b: Book, rs: seq<Request>): History {
    if rs == [] then History(b, [])
    else
      var before := Run(b, rs[..|rs| - 1]);
      var s := Step(before.book, rs[|rs| - 1]);
      History(s.book, before.log + [s.Emitted()])
  }

  /** What the code demands before an order may be appended to a level: a tick in range, an id the
      index has room for and that is not resting, and a free node. */
  predicate MayRest(c: Config, matched: Book, order: Order, price: nat) {
    && price < c.levels
    && 0 < order.id <= c.maxId
    && !Holds(matched.asks, order.id) && !Holds(matched.bids, order.id)
    && CountAt(matched.Side(order.lots > 0), price) < c.perLevel
  }

  /** The demands the code makes of its callers, request by request. */
  predicate Admissible(c: Config, b: Book, r: Request) {
    match r
    case CancelOrder(_, toCancel, instrumentId) => instrumentId == 0 && toCancel <= c.maxId
    case NewOrder(_, order, orderType, instrumentId, limit, _) =>
      order.lots == 0 ||
      (&& instrumentId == 0
       && -INT64_MAX <= order.lots <= INT64_MAX
       && (orderType == BUY ==> order.lots > 0)
       && (orderType == SELL ==> order.lots < 0)
       && (r.IsLimit() && Step(b, r).response.result == Resting ==>
             MayRest(c, Matched(b, order, limit), order, limit)))
  }

  predicate AdmissibleRun(c: Config, b: Book, rs: seq<Request>) {
    rs == [] ||
    (AdmissibleRun(c, b, rs[..|rs| - 1]) && Admissible(c, Run(b, rs[..|rs| - 1]).book, rs[|rs| - 1]))
  }
}
