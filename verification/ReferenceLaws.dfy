/** Laws of the reference book: what a match takes, what every step keeps, and what whole runs conserve. */
module ReferenceLaws {
  import opened MatcherTypes
  import opened ReferenceBook

  function Abs(x: int): nat {
    if x < 0 then -x else x
  }

  /** Lots of the given size and side. */
  function Lots(isBuy: bool, size: int): int {
    if isBuy then size else -size
  }

  ghost predicate Signed(isBid: bool, side: seq<RestingOrder>) {
    forall i :: 0 <= i < |side| ==> if isBid then side[i].order.lots > 0 else side[i].order.lots < 0
  }

  /** The lots, without sign, of the first k orders. */
  function Total(side: seq<RestingOrder>, k: nat): nat
    requires k <= |side|
  {
    if k == 0 then 0 else Abs(side[0].order.lots) + Total(side[1..], k - 1)
  }

  function FullFill(o: RestingOrder): MessageResponse {
    MessageResponse(Some(Order(o.order.id, 0)), Filled)
  }

  /** The result takes the shortest prefix of the side, within the limit, that covers the lots; all but the
      last order taken are filled, and an order only partly filled keeps its place at the head. */
  ghost predicate TakesShortestPrefix(isBuy: bool, side: seq<RestingOrder>, lots: int, limit: int, m: MatchResult) {
    var k := |m.fills|;
    && k <= |side|
    && (forall i :: 0 <= i < k ==>
          (if isBuy then side[i].price <= limit else side[i].price >= limit) && Total(side, i) < Abs(lots))
    && (forall i :: 0 <= i < k - 1 ==> m.fills[i] == FullFill(side[i]))
    && if Total(side, k) <= Abs(lots) then
         && m.rest == Lots(isBuy, Abs(lots) - Total(side, k))
         && m.side == side[k..]
         && (k > 0 ==> m.fills[k - 1] == FullFill(side[k - 1]))
         && (m.rest == 0 || k == |side| || if isBuy then side[k].price > limit else side[k].price < limit)
       else
         var o := Order(side[k - 1].order.id, Lots(!isBuy, Total(side, k) - Abs(lots)));
         && m.rest == 0
         && m.side == [RestingOrder(o, side[k - 1].price)] + side[k..]
         && m.fills[k - 1] == MessageResponse(Some(o), PartiallyFilled)
  }

  lemma {:induction false} TotalStep(side: seq<RestingOrder>, k: nat)
    requires k < |side|
    ensures Total(side, k + 1) == Total(side, k) + Abs(side[k].order.lots)
  {
    if k > 0 {
      TotalStep(side[1..], k - 1);
    }
  }

  lemma {:induction false} MatchTakesShortestPrefix(isBuy: bool, side: seq<RestingOrder>, lots: int, limit: int)
    requires HasSign(isBuy, lots) && Signed(!isBuy, side)
    ensures TakesShortestPrefix(isBuy, side, lots, limit, Match(isBuy, side, lots, limit))
    decreases |side|
  {
    var m := Match(isBuy, side, lots, limit);
    if side != [] && Within(isBuy, side[0].price, limit) {
      var left := lots + side[0].order.lots;
      if HasSign(isBuy, left) {
        var rest := Match(isBuy, side[1..], left, limit);
        MatchTakesShortestPrefix(isBuy, side[1..], left, limit);
        ExtendPrefix(isBuy, side, lots, limit, rest);
      }
    }
  }

  /** Taking the whole first order, then a shortest prefix of the others for what is left. */
  lemma {:induction false} ExtendPrefix(isBuy: bool, side: seq<RestingOrder>, lots: int, limit: int, rest: MatchResult)
    requires side != [] && HasSign(isBuy, lots) && Signed(!isBuy, side) && Within(isBuy, side[0].price, limit)
    requires HasSign(isBuy, lots + side[0].order.lots)
    requires TakesShortestPrefix(isBuy, side[1..], lots + side[0].order.lots, limit, rest)
    ensures TakesShortestPrefix(isBuy, side, lots, limit, rest.(fills := [FullFill(side[0])] + rest.fills))
  {
    var m := rest.(fills := [FullFill(side[0])] + rest.fills);
    var k := |m.fills|;
    forall i | 0 <= i < k ensures Within(isBuy, side[i].price, limit) && Total(side, i) < Abs(lots) {
      if i > 0 {
        assert Within(isBuy, side[1..][i - 1].price, limit) && Total(side[1..], i - 1) < Abs(lots + side[0].order.lots);
      }
    }
    forall i | 0 <= i < k - 1 ensures m.fills[i] == FullFill(side[i]) {
      if i > 0 {
        assert rest.fills[i - 1] == FullFill(side[1..][i - 1]);
      }
    }
    assert side[1..][k - 1..] == side[k..];
  }

  /** The shortest prefix determines the result: any result that takes it is the match. */
  lemma {:induction false} ShortestPrefixIsMatch(isBuy: bool, side: seq<RestingOrder>, lots: int, limit: int,
                                                 m: MatchResult)
    requires HasSign(isBuy, lots) && Signed(!isBuy, side)
    ensures TakesShortestPrefix(isBuy, side, lots, limit, m) <==> m == Match(isBuy, side, lots, limit)
  {
    MatchTakesShortestPrefix(isBuy, side, lots, limit);
    var m' := Match(isBuy, side, lots, limit);
    if TakesShortestPrefix(isBuy, side, lots, limit, m) {
      SamePrefix(isBuy, side, lots, limit, m, m');
      SamePrefix(isBuy, side, lots, limit, m', m);
      assert |m.fills| == |m'.fills|;
      forall i | 0 <= i < |m.fills| ensures m.fills[i] == m'.fills[i] {
        if i < |m.fills| - 1 {
          assert m.fills[i] == FullFill(side[i]) == m'.fills[i];
        }
      }
    }
  }

  lemma {:induction false} SamePrefix(isBuy: bool, side: seq<RestingOrder>, lots: int, limit: int, m: MatchResult,
                                      m': MatchResult)
    requires HasSign(isBuy, lots)
    requires TakesShortestPrefix(isBuy, side, lots, limit, m) && TakesShortestPrefix(isBuy, side, lots, limit, m')
    ensures |m'.fills| <= |m.fills|
  {
  }

  lemma {:induction false} TotalMonotone(side: seq<RestingOrder>, j: nat, k: nat)
    requires j <= k <= |side|
    ensures Total(side, j) <= Total(side, k)
  {
    if j > 0 {
      TotalMonotone(side[1..], j - 1, k - 1);
    }
  }

  /** Known before the match: it makes at most n fills if and only if there is no order n, or that order is past
      the limit, or the n orders ahead of it cover the lots. */
  lemma {:induction false} FillCount(isBuy: bool, side: seq<RestingOrder>, lots: int, limit: int, n: nat)
    requires HasSign(isBuy, lots) && Signed(!isBuy, side) && Sorted(!isBuy, side)
    ensures |Match(isBuy, side, lots, limit).fills| <= n
            <==> |side| <= n || Total(side, n) >= Abs(lots)
                 || if isBuy then side[n].price > limit else side[n].price < limit
  {
    MatchTakesShortestPrefix(isBuy, side, lots, limit);
    var k := |Match(isBuy, side, lots, limit).fills|;
    if k <= n < |side| && Total(side, n) < Abs(lots) {
      TotalMonotone(side, k, n);
      assert k < n ==> !Better(!isBuy, side[n].price, side[k].price);
    }
  }

  // Inserting, finding, removing, counting

  lemma {:induction false} InsertSplit(isBid: bool, a: seq<RestingOrder>, b: seq<RestingOrder>, o: RestingOrder)
    requires forall i :: 0 <= i < |a| ==> !Better(isBid, o.price, a[i].price)
    requires b == [] || Better(isBid, o.price, b[0].price)
    ensures Insert(isBid, a + b, o) == a + [o] + b
  {
    if a == [] {
      assert a + b == b;
    } else {
      InsertSplit(isBid, a[1..], b, o);
      assert (a + b)[1..] == a[1..] + b;
    }
  }

  lemma {:induction false} FindSplit(a: seq<RestingOrder>, x: RestingOrder, b: seq<RestingOrder>)
    requires !Holds(a, x.order.id)
    ensures Find(a + [x] + b, x.order.id) == Some(x.order)
    ensures Remove(a + [x] + b, x.order.id) == a + b
  {
    if a == [] {
      assert a + [x] + b == [x] + b;
    } else {
      assert a[0].order.id != x.order.id;
      forall i | 0 <= i < |a[1..]| ensures a[1..][i].order.id != x.order.id {
        assert a[i + 1].order.id != x.order.id;
      }
      FindSplit(a[1..], x, b);
      assert (a + [x] + b)[1..] == a[1..] + [x] + b;
    }
  }

  lemma {:induction false} FindNone(side: seq<RestingOrder>, id: nat)
    ensures Find(side, id) == None <==> !Holds(side, id)
  {
    if side != [] {
      FindNone(side[1..], id);
      if Holds(side, id) && side[0].order.id != id {
        var i :| 0 <= i < |side| && side[i].order.id == id;
        assert side[1..][i - 1].order.id == id;
      }
      if Holds(side[1..], id) {
        var i :| 0 <= i < |side[1..]| && side[1..][i].order.id == id;
        assert side[i + 1].order.id == id;
      }
    }
  }

  lemma {:induction false} CountConcat(a: seq<RestingOrder>, b: seq<RestingOrder>, price: int)
    ensures CountAt(a + b, price) == CountAt(a, price) + CountAt(b, price)
  {
    if a == [] {
      assert a + b == b;
    } else {
      CountConcat(a[1..], b, price);
      assert (a + b)[1..] == a[1..] + b;
    }
  }

  lemma {:induction false} CountNone(a: seq<RestingOrder>, price: int)
    requires forall i :: 0 <= i < |a| ==> a[i].price != price
    ensures CountAt(a, price) == 0
  {
    if a != [] {
      CountNone(a[1..], price);
    }
  }

  lemma {:induction false} CountAll(a: seq<RestingOrder>, price: int)
    requires forall i :: 0 <= i < |a| ==> a[i].price == price
    ensures CountAt(a, price) == |a|
  {
    if a != [] {
      CountAll(a[1..], price);
    }
  }

  // What a step makes of a side: some of its orders, in the same order, none of them larger

  ghost predicate Sorted(isBid: bool, side: seq<RestingOrder>) {
    forall i, j :: 0 <= i < j < |side| ==>
      if isBid then side[i].price >= side[j].price else side[i].price <= side[j].price
  }

  ghost predicate Unique(side: seq<RestingOrder>) {
    forall i, j :: 0 <= i < j < |side| ==> side[i].order.id != side[j].order.id
  }

  ghost predicate Bounded(side: seq<RestingOrder>) {
    forall i :: 0 <= i < |side| ==> Abs(side[i].order.lots) <= INT64_MAX && side[i].order.id > 0
  }

  ghost predicate Apart(asks: seq<RestingOrder>, bids: seq<RestingOrder>) {
    forall i, j :: 0 <= i < |asks| && 0 <= j < |bids| ==> asks[i].order.id != bids[j].order.id
  }

  ghost predicate Uncrossable(asks: seq<RestingOrder>, bids: seq<RestingOrder>) {
    forall i, j :: 0 <= i < |asks| && 0 <= j < |bids| ==> bids[j].price < asks[i].price
  }

  /** The invariant of a book that is worth the name. */
  ghost predicate BookOk(b: Book) {
    && Sorted(false, b.asks) && Signed(false, b.asks) && Unique(b.asks) && Bounded(b.asks)
    && Sorted(true, b.bids) && Signed(true, b.bids) && Unique(b.bids) && Bounded(b.bids)
    && Apart(b.asks, b.bids) && Uncrossable(b.asks, b.bids)
  }

  /** The order is the same one, possibly with fewer lots. */
  predicate SameOrder(after: RestingOrder, before: RestingOrder) {
    && after.price == before.price && after.order.id == before.order.id
    && ((0 < after.order.lots <= before.order.lots) || (before.order.lots <= after.order.lots < 0))
  }

  /** part is what is left of side: at[j] is where part[j] was. */
  ghost predicate Thins(part: seq<RestingOrder>, side: seq<RestingOrder>, at: seq<nat>) {
    && |at| == |part|
    && (forall i, j :: 0 <= i < j < |at| ==> at[i] < at[j])
    && (forall j :: 0 <= j < |at| ==> at[j] < |side| && SameOrder(part[j], side[at[j]]))
  }

  lemma {:induction false} ThinKeepsSide(isBid: bool, part: seq<RestingOrder>, side: seq<RestingOrder>, at: seq<nat>)
    requires Thins(part, side, at)
    requires Sorted(isBid, side) && Signed(isBid, side) && Unique(side) && Bounded(side)
    ensures Sorted(isBid, part) && Signed(isBid, part) && Unique(part) && Bounded(part)
  {
    forall i, j | 0 <= i < j < |part|
      ensures !Better(isBid, part[j].price, part[i].price) && part[i].order.id != part[j].order.id
    {
      assert at[i] < at[j];
      assert SameOrder(part[i], side[at[i]]) && SameOrder(part[j], side[at[j]]);
    }
    forall j | 0 <= j < |part|
      ensures HasSign(isBid, part[j].order.lots) && Abs(part[j].order.lots) <= INT64_MAX && part[j].order.id > 0
    {
      assert SameOrder(part[j], side[at[j]]) && HasSign(isBid, side[at[j]].order.lots);
    }
  }

  lemma {:induction false} ThinKeepsAsks(part: seq<RestingOrder>, asks: seq<RestingOrder>, bids: seq<RestingOrder>,
                                         at: seq<nat>)
    requires Thins(part, asks, at) && Apart(asks, bids) && Uncrossable(asks, bids)
    ensures Apart(part, bids) && Uncrossable(part, bids)
  {
    forall i, j | 0 <= i < |part| && 0 <= j < |bids|
      ensures part[i].order.id != bids[j].order.id && bids[j].price < part[i].price
    {
      assert SameOrder(part[i], asks[at[i]]);
    }
  }

  lemma {:induction false} ThinKeepsBids(part: seq<RestingOrder>, bids: seq<RestingOrder>, asks: seq<RestingOrder>,
                                         at: seq<nat>)
    requires Thins(part, bids, at) && Apart(asks, bids) && Uncrossable(asks, bids)
    ensures Apart(asks, part) && Uncrossable(asks, part)
  {
    forall i, j | 0 <= i < |asks| && 0 <= j < |part|
      ensures asks[i].order.id != part[j].order.id && part[j].price < asks[i].price
    {
      assert SameOrder(part[j], bids[at[j]]);
    }
  }

  /** Thinning either side keeps the book in order. */
  lemma {:induction false} ThinKeepsBook(b: Book, isBid: bool, part: seq<RestingOrder>, at: seq<nat>)
    requires BookOk(b) && Thins(part, b.Side(isBid), at)
    ensures BookOk(b.WithSide(isBid, part))
  {
    ThinKeepsSide(isBid, part, b.Side(isBid), at);
    if isBid {
      ThinKeepsBids(part, b.bids, b.asks, at);
    } else {
      ThinKeepsAsks(part, b.asks, b.bids, at);
    }
  }

  /** An order cut down to a part of its size. */
  lemma {:induction false} CutDown(isBid: bool, o: RestingOrder, size: nat)
    requires HasSign(isBid, o.order.lots) && 0 < size <= Abs(o.order.lots)
    ensures SameOrder(RestingOrder(Order(o.order.id, Lots(isBid, size)), o.price), o) && SameOrder(o, o)
  {
  }

  /** Order by order, what a match leaves was there before. */
  lemma {:induction false} MatchLeaves(isBuy: bool, side: seq<RestingOrder>, lots: int, limit: int, j: nat)
    requires HasSign(isBuy, lots) && Signed(!isBuy, side) && j < |Match(isBuy, side, lots, limit).side|
    ensures var left := Match(isBuy, side, lots, limit).side;
            |left| <= |side| && SameOrder(left[j], side[|side| - |left| + j])
  {
    var m := Match(isBuy, side, lots, limit);
    MatchTakesShortestPrefix(isBuy, side, lots, limit);
    var k := |m.fills|;
    var before := side[|side| - |m.side| + j];
    CutDown(!isBuy, before, Abs(before.order.lots));
    if Total(side, k) <= Abs(lots) {
      assert m.side[j] == before;
    } else if j > 0 {
      assert m.side[j] == before;
    } else {
      TotalStep(side, k - 1);
      CutDown(!isBuy, before, Total(side, k) - Abs(lots));
    }
  }

  /** What a match leaves is the back of the side, its first order possibly smaller. */
  lemma {:induction false} MatchThins(isBuy: bool, side: seq<RestingOrder>, lots: int, limit: int)
    returns (at: seq<nat>)
    requires HasSign(isBuy, lots) && Signed(!isBuy, side)
    ensures Thins(Match(isBuy, side, lots, limit).side, side, at)
  {
    var left := Match(isBuy, side, lots, limit).side;
    if left != [] {
      MatchLeaves(isBuy, side, lots, limit, 0);
    }
    at := seq(|left|, j requires 0 <= j < |left| => |side| - |left| + j);
    forall j | 0 <= j < |left| ensures at[j] < |side| && SameOrder(left[j], side[at[j]]) {
      MatchLeaves(isBuy, side, lots, limit, j);
    }
  }

  /** After a match that leaves lots over, nothing on the side is within the limit. */
  lemma {:induction false} NothingWithinLimit(isBuy: bool, side: seq<RestingOrder>, lots: int, limit: int)
    requires HasSign(isBuy, lots) && Signed(!isBuy, side) && Sorted(!isBuy, side)
    requires Match(isBuy, side, lots, limit).rest != 0
    ensures var left := Match(isBuy, side, lots, limit).side;
            forall i :: 0 <= i < |left| ==> if isBuy then left[i].price > limit else left[i].price < limit
  {
    MatchTakesShortestPrefix(isBuy, side, lots, limit);
    var m := Match(isBuy, side, lots, limit);
    var k := |m.fills|;
    forall i | 0 <= i < |m.side| ensures !Within(isBuy, m.side[i].price, limit) {
      assert m.side[i] == side[k + i];
      assert i > 0 ==> !Better(!isBuy, side[k + i].price, side[k].price);
    }
  }

  /** What a match leaves of an order has its sign and is no larger. */
  lemma {:induction false} RestIsSigned(isBuy: bool, side: seq<RestingOrder>, lots: int, limit: int)
    requires HasSign(isBuy, lots) && Signed(!isBuy, side)
    ensures var rest := Match(isBuy, side, lots, limit).rest;
            rest == 0 || ((if isBuy then rest > 0 else rest < 0) && Abs(rest) <= Abs(lots))
    ensures Match(isBuy, side, lots, limit).rest == lots <==> Match(isBuy, side, lots, limit).fills == []
  {
    MatchTakesShortestPrefix(isBuy, side, lots, limit);
    var k := |Match(isBuy, side, lots, limit).fills|;
    if k > 0 {
      TotalStep(side, k - 1);
      assert HasSign(!isBuy, side[k - 1].order.lots);
    }
  }
}
