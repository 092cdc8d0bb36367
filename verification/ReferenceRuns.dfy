/** What every step of the reference book keeps, and so every run. */
module ReferenceRuns {
  import opened MatcherTypes
  import opened ReferenceBook
  import opened ReferenceLaws

  /** The position Insert chooses: behind every order whose price is at least as good. */
  function InsertPos(isBid: bool, side: seq<RestingOrder>, price: int): (k: nat)
    ensures k <= |side|
    ensures forall i :: 0 <= i < k ==> !Better(isBid, price, side[i].price)
    ensures k < |side| ==> Better(isBid, price, side[k].price)
  {
    if side == [] || Better(isBid, price, side[0].price) then 0 else 1 + InsertPos(isBid, side[1..], price)
  }

  lemma {:induction false} InsertAt(isBid: bool, side: seq<RestingOrder>, o: RestingOrder)
    ensures var k := InsertPos(isBid, side, o.price);
            Insert(isBid, side, o) == side[..k] + [o] + side[k..]
  {
    var k := InsertPos(isBid, side, o.price);
    assert side == side[..k] + side[k..];
    InsertSplit(isBid, side[..k], side[k..], o);
  }

  function FindPos(side: seq<RestingOrder>, id: nat): (k: nat)
    requires Holds(side, id)
    ensures k < |side| && side[k].order.id == id
    ensures forall i :: 0 <= i < k ==> side[i].order.id != id
  {
    if side[0].order.id == id then 0
    else
      assert Holds(side[1..], id) by {
        var i :| 0 <= i < |side| && side[i].order.id == id;
        assert side[1..][i - 1].order.id == id;
      }
      1 + FindPos(side[1..], id)
  }

  lemma {:induction false} RemoveAtPos(side: seq<RestingOrder>, id: nat)
    requires Holds(side, id)
    ensures var k := FindPos(side, id);
            Find(side, id) == Some(side[k].order) && Remove(side, id) == side[..k] + side[k + 1..]
  {
    var k := FindPos(side, id);
    assert side == side[..k] + [side[k]] + side[k + 1..];
    FindSplit(side[..k], side[k], side[k + 1..]);
  }

  lemma {:induction false} RemoveThins(isBid: bool, side: seq<RestingOrder>, id: nat) returns (at: seq<nat>)
    requires Holds(side, id) && Signed(isBid, side)
    ensures Thins(Remove(side, id), side, at)
  {
    RemoveAtPos(side, id);
    var k := FindPos(side, id);
    at := seq(|side| - 1, j requires 0 <= j < |side| - 1 => if j < k then j else j + 1);
    forall j | 0 <= j < |at| ensures SameOrder(Remove(side, id)[j], side[at[j]]) {
      assert HasSign(isBid, side[at[j]].order.lots);
    }
  }

  // Each request

  lemma {:induction false} MatchedKeepsBook(b: Book, order: Order, limit: int)
    requires BookOk(b) && order.lots != 0
    ensures BookOk(Matched(b, order, limit))
  {
    var isBuy := order.lots > 0;
    var at := MatchThins(isBuy, b.Side(!isBuy), order.lots, limit);
    ThinKeepsBook(b, !isBuy, Matched(b, order, limit).Side(!isBuy), at);
  }

  ghost predicate NoneWithin(isBuy: bool, side: seq<RestingOrder>, limit: int) {
    forall i :: 0 <= i < |side| ==> if isBuy then side[i].price > limit else side[i].price < limit
  }

  /** Every order after an insertion is the new one or was there before. */
  lemma {:induction false} InsertedFrom(isBid: bool, side: seq<RestingOrder>, o: RestingOrder, i: nat)
    requires i < |Insert(isBid, side, o)|
    ensures Insert(isBid, side, o)[i] == o || Insert(isBid, side, o)[i] in side
  {
    InsertAt(isBid, side, o);
    var k := InsertPos(isBid, side, o.price);
    if i < k {
      assert Insert(isBid, side, o)[i] == side[i];
    } else if i > k {
      assert Insert(isBid, side, o)[i] == side[i - 1];
    }
  }

  lemma {:induction false} InsertAmong(isBuy: bool, side: seq<RestingOrder>, other: seq<RestingOrder>, o: RestingOrder)
    requires !Holds(other, o.order.id) && NoneWithin(isBuy, other, o.price)
    requires if isBuy then Apart(other, side) && Uncrossable(other, side)
             else Apart(side, other) && Uncrossable(side, other)
    ensures var longer := Insert(isBuy, side, o);
            if isBuy then Apart(other, longer) && Uncrossable(other, longer)
            else Apart(longer, other) && Uncrossable(longer, other)
  {
    var longer := Insert(isBuy, side, o);
    forall i, j | 0 <= i < |other| && 0 <= j < |longer|
      ensures other[i].order.id != longer[j].order.id && !Within(isBuy, other[i].price, longer[j].price)
    {
      InsertedFrom(isBuy, side, o, j);
      if longer[j] != o {
        var h :| 0 <= h < |side| && side[h] == longer[j];
      }
    }
  }

  /** An order may be inserted when its id is new and nothing opposite trades at its price. */
  lemma {:induction false} InsertKeepsBook(b: Book, isBuy: bool, o: RestingOrder)
    requires BookOk(b) && HasSign(isBuy, o.order.lots) && Abs(o.order.lots) <= INT64_MAX && o.order.id > 0
    requires !Holds(b.asks, o.order.id) && !Holds(b.bids, o.order.id)
    requires NoneWithin(isBuy, b.Side(!isBuy), o.price)
    ensures BookOk(b.WithSide(isBuy, Insert(isBuy, b.Side(isBuy), o)))
  {
    InsertKeepsSide(isBuy, b.Side(isBuy), o);
    InsertAmong(isBuy, b.Side(isBuy), b.Side(!isBuy), o);
  }

  /** Inserting between two parts that are in order on their own and with each other. */
  lemma {:induction false} InsertOrdered(isBuy: bool, side: seq<RestingOrder>, o: RestingOrder, k: nat, i: nat, j: nat)
    requires Sorted(isBuy, side) && Unique(side) && !Holds(side, o.order.id) && k <= |side| && i < j <= |side|
    requires forall h :: 0 <= h < k ==> !Better(isBuy, o.price, side[h].price)
    requires k < |side| ==> Better(isBuy, o.price, side[k].price)
    ensures var longer := side[..k] + [o] + side[k..];
            !Better(isBuy, longer[j].price, longer[i].price) && longer[i].order.id != longer[j].order.id
  {
    var longer := side[..k] + [o] + side[k..];
    var i', j' := if i < k then i else i - 1, if j < k then j else j - 1;
    if i == k {
      assert longer[j] == side[j'];
      assert j' > k ==> !Better(isBuy, side[j'].price, side[k].price);
    } else if j == k {
      assert longer[i] == side[i'];
    } else {
      assert longer[i] == side[i'] && longer[j] == side[j'];
    }
  }

  lemma {:induction false} InsertKeepsSide(isBuy: bool, side: seq<RestingOrder>, o: RestingOrder)
    requires Sorted(isBuy, side) && Signed(isBuy, side) && Unique(side) && Bounded(side)
    requires HasSign(isBuy, o.order.lots) && Abs(o.order.lots) <= INT64_MAX && o.order.id > 0
             && !Holds(side, o.order.id)
    ensures var longer := Insert(isBuy, side, o);
            Sorted(isBuy, longer) && Signed(isBuy, longer) && Unique(longer) && Bounded(longer)
  {
    var k := InsertPos(isBuy, side, o.price);
    InsertAt(isBuy, side, o);
    var longer := side[..k] + [o] + side[k..];
    forall i, j | 0 <= i < j < |longer|
      ensures !Better(isBuy, longer[j].price, longer[i].price) && longer[i].order.id != longer[j].order.id
    {
      InsertOrdered(isBuy, side, o, k, i, j);
    }
    forall i | 0 <= i < |longer|
      ensures HasSign(isBuy, longer[i].order.lots) && Abs(longer[i].order.lots) <= INT64_MAX && longer[i].order.id > 0
    {
      assert i != k ==> longer[i] == side[if i < k then i else i - 1];
    }
  }

  lemma {:induction false} LimitKeepsBook(c: Config, b: Book, order: Order, price: nat)
    requires BookOk(b) && order.lots != 0 && Abs(order.lots) <= INT64_MAX
    requires Limit(b, order, price).response.result == Resting ==> MayRest(c, Matched(b, order, price), order, price)
    ensures BookOk(Limit(b, order, price).book)
  {
    var isBuy := order.lots > 0;
    var m := MatchOn(b, order, price);
    var matched := Matched(b, order, price);
    MatchedKeepsBook(b, order, price);
    if m.rest != 0 {
      RestIsSigned(isBuy, b.Side(!isBuy), order.lots, price);
      NothingWithinLimit(isBuy, b.Side(!isBuy), order.lots, price);
      InsertKeepsBook(matched, isBuy, RestingOrder(Order(order.id, m.rest), price));
    }
  }

  lemma {:induction false} CancelKeepsBook(b: Book, id: nat)
    requires BookOk(b)
    ensures BookOk(Cancel(b, id).book)
  {
    FindNone(b.asks, id);
    FindNone(b.bids, id);
    if Holds(b.asks, id) {
      var at := RemoveThins(false, b.asks, id);
      ThinKeepsBook(b, false, Remove(b.asks, id), at);
    } else if Holds(b.bids, id) {
      var at := RemoveThins(true, b.bids, id);
      ThinKeepsBook(b, true, Remove(b.bids, id), at);
    }
  }

  lemma {:induction false} StepKeepsBook(c: Config, b: Book, r: Request)
    requires BookOk(b) && Admissible(c, b, r)
    ensures BookOk(Step(b, r).book)
  {
    match r
    case CancelOrder(_, toCancel, _) => CancelKeepsBook(b, toCancel);
    case NewOrder(_, order, orderType, _, limit, _) =>
      if r.IsMarket() {
        MatchedKeepsBook(b, order, MarketLimit(orderType));
      } else if r.IsLimit() {
        LimitKeepsBook(c, b, order, limit);
      }
  }

  /** Over every run from an empty book: both sides in price order, every order with its side's sign and
      nonzero lots of at most 63 bits, no id twice, and every bid below every ask. */
  lemma {:induction false} RunKeepsBook(c: Config, rs: seq<Request>)
    requires AdmissibleRun(c, EMPTY, rs)
    ensures BookOk(Run(EMPTY, rs).book)
  {
    if rs != [] {
      RunKeepsBook(c, rs[..|rs| - 1]);
      StepKeepsBook(c, Run(EMPTY, rs[..|rs| - 1]).book, rs[|rs| - 1]);
    }
  }
}
