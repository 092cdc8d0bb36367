/**
 The market generator: a stream of limit orders, market orders and cancels, with a pool of the orders it may
 still cancel and a tally of that pool per side and price.  Random draws are arbitrary inputs in their range.
 */
module MarketGenerator {
  import opened Arithmetic
  import opened MatcherTypes

  const LEVELS := 128
  const DRIFT_EVERY := 500
  const LOT_SIZES: seq<int> := [1, 2, 5, 10, 20, 50, 80, 100]
  const INT_MAX := 0x7FFF_FFFF
  const U32_COUNT := 0x1_0000_0000

  datatype Action = AddLimit | Cancel | Market

  /** One round's draws; a round uses only those it needs. */
  datatype Draw = Draw(drift: int, action: Action, age: nat, isBuy: bool, lotsIndex: nat, crossing: bool, depth: nat) {
    predicate Ok() {
      -1 <= drift <= 1 && lotsIndex < |LOT_SIZES| && depth <= INT_MAX
    }
  }

  datatype LiveOrder = LiveOrder(id: nat, price: nat, isBuy: bool)

  /** Converting an unsigned 64-bit value to a signed 32-bit one keeps the low 32 bits. */
  function ToInt32(x: int): int {
    var low := x % U32_COUNT;
    if low > INT_MAX then low - U32_COUNT else low
  }

  function Clamp(x: int, lo: int, hi: int): int {
    if x < lo then lo else if x > hi then hi else x
  }

  /** A price on the passive side of the midpoint, or beyond it when crossing, forced into the ladder. */
  function MakePrice(mid: nat, isBuy: bool, crossing: bool, depth: nat): (price: nat)
    ensures price < LEVELS
    ensures mid < LEVELS && depth <= INT_MAX && isBuy == crossing ==>
              price == if mid + 1 + depth <= INT_MAX then Clamp(mid + 1 + depth, 0, LEVELS - 1) else 0
    ensures mid < LEVELS && depth <= INT_MAX && isBuy != crossing ==> price == Clamp(mid - 1 - depth, 0, LEVELS - 1)
  {
    var aboveMid := isBuy == crossing;
    var unsigned := if aboveMid then (mid + 1 + depth) % U64_COUNT else (mid - 1 - depth) % U64_COUNT;
    KeepsLow(if aboveMid then mid + 1 + depth else mid - 1 - depth);
    Clamp(ToInt32(unsigned), 0, LEVELS - 1)
  }

  /** Going through 64 bits does not change the low 32: a sum that fits in 33 bits with sign comes back as it was,
      or as a negative number when it is past the largest positive one. */
  lemma {:induction false} KeepsLow(x: int)
    ensures -INT_MAX <= x <= INT_MAX ==> ToInt32(x % U64_COUNT) == x
    ensures INT_MAX < x <= INT_MAX + LEVELS ==> ToInt32(x % U64_COUNT) < 0
  {
    if 0 <= x <= INT_MAX + LEVELS {
      DivModUnique(x, U64_COUNT, 0, x);
      DivModUnique(x, U32_COUNT, 0, x);
    } else if -INT_MAX <= x < 0 {
      DivModUnique(x, U64_COUNT, -1, x + U64_COUNT);
      DivModUnique(x + U64_COUNT, U32_COUNT, U32_COUNT - 1, x + U32_COUNT);
    }
  }

  /** A price meant for above the midpoint is above it, and one meant for below is below it, if and only if the
      sum of midpoint and depth has not gone past 32 bits on the way up. */
  lemma {:induction false} PriceKeepsSide(mid: nat, isBuy: bool, crossing: bool, depth: nat)
    requires 37 <= mid <= 90 && depth <= INT_MAX
    ensures var price := MakePrice(mid, isBuy, crossing, depth);
            (if isBuy == crossing then mid < price else price < mid) <==>
            (isBuy != crossing || depth <= INT_MAX - mid - 1)
  {
  }

  /** The deepest passive ask lands at the bottom of the ladder.  The depth is the largest value of its type, so
      one the draw may in principle return; nothing is said about how likely that is. */
  lemma {:induction false} DeepestAsk()
    ensures MakePrice(OPENING.mid, false, false, INT_MAX) == 0
  {
  }

  /** The midpoint drifts by the draw and turns back at 37 and 90. */
  function Drifted(mid: nat, drift: int): (next: nat)
    requires -1 <= drift <= 1
    ensures 37 <= mid <= 90 ==> next == Clamp(mid + drift, 37, 90)
  {
    var moved := (mid + drift) % U64_COUNT;
    var lowered := if moved > 90 then moved - 1 else moved;
    if lowered < 37 then lowered + 1 else lowered
  }

  /** What has been emitted, and the state it leaves. */
  datatype Stream = Stream(mid: nat, msgId: nat, live: seq<LiveOrder>, requests: seq<Request>)

  const OPENING: Stream := Stream(64, 1, [], [])

  /** Take out a pool entry by putting the last one in its place. */
  function SwapOut(live: seq<LiveOrder>, idx: nat): seq<LiveOrder>
    requires idx < |live|
  {
    live[idx := live[|live| - 1]][..|live| - 1]
  }

  /** The entry a cancel picks: age positions from the back, or the first one. */
  function Victim(live: seq<LiveOrder>, age: nat): (idx: nat)
    requires live != []
    ensures idx < |live|
  {
    |live| - 1 - (if age < |live| - 1 then age else |live| - 1)
  }

  function TypeOf(isBuy: bool, isLimit: bool): OrderType {
    if isBuy then (if isLimit then BUY_LIMIT else BUY) else (if isLimit then SELL_LIMIT else SELL)
  }

  /** The new order a round emits when it does not cancel. */
  function OrderFor(mid: nat, id: nat, d: Draw): Request
    requires d.Ok()
  {
    var isLimit := !d.action.Market?;
    var lots := if d.isBuy then LOT_SIZES[d.lotsIndex] else -LOT_SIZES[d.lotsIndex];
    var price := if isLimit then MakePrice(mid, d.isBuy, d.crossing, d.depth) else 0;
    NewOrder(id, Order(id, lots), TypeOf(d.isBuy, isLimit), 0, price, 0)
  }

  /** The midpoint a round uses: every 500th round it drifts first. */
  function MidFor(m: Stream, d: Draw): nat
    requires d.Ok()
  {
    if |m.requests| % DRIFT_EVERY == 0 then Drifted(m.mid, d.drift) else m.mid
  }

  /** One round of the emission loop. */
  function Emit(m: Stream, d: Draw): Stream
    requires d.Ok()
  {
    var mid := MidFor(m, d);
    if d.action.Cancel? && m.live != [] then
      var idx := Victim(m.live, d.age);
      Stream(mid, m.msgId + 1, SwapOut(m.live, idx), m.requests + [CancelOrder(m.msgId, m.live[idx].id, 0)])
    else
      var r := OrderFor(mid, m.msgId, d);
      var live := if d.action.Market? then m.live else m.live + [LiveOrder(m.msgId, r.limit, d.isBuy)];
      Stream(mid, m.msgId + 1, live, m.requests + [r])
  }

  predicate DrawsOk(draws: seq<Draw>) {
    forall i :: 0 <= i < |draws| ==> draws[i].Ok()
  }

  function Emitted(draws: seq<Draw>): Stream
    requires DrawsOk(draws)
  {
    if draws == [] then OPENING else Emit(Emitted(draws[..|draws| - 1]), draws[|draws| - 1])
  }

  lemma {:induction false} EmittedSnoc(draws: seq<Draw>, i: nat)
    requires DrawsOk(draws) && i < |draws|
    ensures Emitted(draws[..i + 1]) == Emit(Emitted(draws[..i]), draws[i])
  {
    assert draws[..i + 1][..i] == draws[..i];
  }

  // What every stream keeps

  /** How many pool entries have this side and price. */
  function Tally(live: seq<LiveOrder>, isBuy: bool, price: nat): nat {
    if live == [] then 0
    else (if live[0].isBuy == isBuy && live[0].price == price then 1 else 0) + Tally(live[1..], isBuy, price)
  }

  ghost predicate DistinctIds(live: seq<LiveOrder>) {
    forall i, j :: 0 <= i < j < |live| ==> live[i].id != live[j].id
  }

  /** The entry is a limit order emitted earlier, as it was emitted, and not cancelled since. */
  ghost predicate Emits(l: LiveOrder, requests: seq<Request>) {
    && 1 <= l.id <= |requests|
    && requests[l.id - 1].IsLimit() && requests[l.id - 1].order.id == l.id
    && requests[l.id - 1].limit == l.price && (requests[l.id - 1].order.lots > 0) == l.isBuy
    && NotCancelled(l.id, requests)
  }

  ghost predicate NotCancelled(id: nat, requests: seq<Request>) {
    forall k :: 0 <= k < |requests| && requests[k].CancelOrder? ==> requests[k].toCancel != id
  }

  /** The request at k is numbered k + 1; a new order carries that number as its id, lots of a known size, a type
      of its sign, and a price on the ladder; a cancel names a limit order emitted before and not cancelled before. */
  ghost predicate WellEmitted(requests: seq<Request>, k: nat)
    requires k < |requests|
  {
    var r := requests[k];
    && r.msgId == k + 1 && r.instrumentId == 0
    && (r.NewOrder? ==>
          && r.order.id == k + 1 && r.limit < LEVELS && (r.order.lots in LOT_SIZES || -r.order.lots in LOT_SIZES)
          && r.orderType == TypeOf(r.order.lots > 0, r.IsLimit()))
    && (r.CancelOrder? ==>
          && 1 <= r.toCancel <= k && requests[r.toCancel - 1].IsLimit() && NotCancelled(r.toCancel, requests[..k]))
  }

  ghost predicate StreamOk(m: Stream) {
    && 37 <= m.mid <= 90 && m.msgId == |m.requests| + 1
    && DistinctIds(m.live)
    && (forall i :: 0 <= i < |m.live| ==> Emits(m.live[i], m.requests))
    && (forall k :: 0 <= k < |m.requests| ==> WellEmitted(m.requests, k))
  }

  lemma {:induction false} LaterWellEmitted(requests: seq<Request>, r: Request, k: nat)
    requires k < |requests| && WellEmitted(requests, k)
    ensures WellEmitted(requests + [r], k)
  {
    assert (requests + [r])[..k] == requests[..k];
  }

  lemma {:induction false} LaterEmits(l: LiveOrder, requests: seq<Request>, r: Request)
    requires Emits(l, requests) && (r.CancelOrder? ==> r.toCancel != l.id)
    ensures Emits(l, requests + [r])
  {
  }

  lemma {:induction false} SwapOutKeeps(live: seq<LiveOrder>, idx: nat)
    requires DistinctIds(live) && idx < |live|
    ensures DistinctIds(SwapOut(live, idx))
    ensures forall i :: 0 <= i < |live| - 1 ==>
              SwapOut(live, idx)[i] in live && SwapOut(live, idx)[i].id != live[idx].id
    ensures forall i :: 0 <= i < |live| && i != idx ==> live[i] in SwapOut(live, idx)
  {
    var after := SwapOut(live, idx);
    forall i | 0 <= i < |live| && i != idx ensures live[i] in after {
      assert after[if i == |live| - 1 then idx else i] == live[i];
    }
  }

  /** The requests so far stay well emitted, and one more is if it is so where it comes. */
  lemma {:induction false} AllWellEmitted(requests: seq<Request>, r: Request)
    requires forall k :: 0 <= k < |requests| ==> WellEmitted(requests, k)
    requires WellEmitted(requests + [r], |requests|)
    ensures var after := requests + [r]; forall k :: 0 <= k < |after| ==> WellEmitted(after, k)
  {
    var after := requests + [r];
    forall k | 0 <= k < |after| ensures WellEmitted(after, k) {
      if k < |requests| {
        LaterWellEmitted(requests, r, k);
      }
    }
  }

  lemma {:induction false} CancelKeepsStream(m: Stream, d: Draw)
    requires StreamOk(m) && d.Ok() && d.action.Cancel? && m.live != []
    ensures StreamOk(Emit(m, d))
  {
    var after, idx := Emit(m, d), Victim(m.live, d.age);
    var r := after.requests[|m.requests|];
    SwapOutKeeps(m.live, idx);
    assert Emits(m.live[idx], m.requests);
    assert after.requests[..|m.requests|] == m.requests;
    AllWellEmitted(m.requests, r);
    forall i | 0 <= i < |after.live| ensures Emits(after.live[i], after.requests) {
      assert after.live[i] in m.live;
      var j :| 0 <= j < |m.live| && m.live[j] == after.live[i];
      LaterEmits(m.live[j], m.requests, r);
    }
  }

  lemma {:induction false} OrderKeepsStream(m: Stream, d: Draw)
    requires StreamOk(m) && d.Ok() && (d.action.Cancel? ==> m.live == [])
    ensures StreamOk(Emit(m, d))
  {
    var after := Emit(m, d);
    var r := after.requests[|m.requests|];
    AllWellEmitted(m.requests, r);
    NewIdNotCancelled(m, r);
    forall i | 0 <= i < |m.live| ensures Emits(m.live[i], after.requests) {
      LaterEmits(m.live[i], m.requests, r);
    }
  }

  lemma {:induction false} EmitKeepsStream(m: Stream, d: Draw)
    requires StreamOk(m) && d.Ok()
    ensures StreamOk(Emit(m, d))
  {
    if d.action.Cancel? && m.live != [] {
      CancelKeepsStream(m, d);
    } else {
      OrderKeepsStream(m, d);
    }
  }

  lemma {:induction false} LivePrices(m: Stream)
    requires StreamOk(m)
    ensures forall i :: 0 <= i < |m.live| ==> m.live[i].price < LEVELS
  {
    forall i | 0 <= i < |m.live| ensures m.live[i].price < LEVELS {
      assert Emits(m.live[i], m.requests);
      assert WellEmitted(m.requests, m.live[i].id - 1);
    }
  }

  /** No request so far can have cancelled the next id. */
  lemma {:induction false} NewIdNotCancelled(m: Stream, r: Request)
    requires StreamOk(m) && r.NewOrder?
    ensures NotCancelled(m.msgId, m.requests + [r])
  {
    var all := m.requests + [r];
    forall k | 0 <= k < |all| && all[k].CancelOrder? ensures all[k].toCancel != m.msgId {
      assert WellEmitted(m.requests, k);
    }
  }

  /** Every stream: ids 1, 2, 3, ... in order, every cancel of an earlier limit order not cancelled before, every
      price on the ladder. */
  lemma {:induction false} StreamIsWellFormed(draws: seq<Draw>)
    requires DrawsOk(draws)
    ensures StreamOk(Emitted(draws)) && |Emitted(draws).requests| == |draws|
  {
    if draws != [] {
      StreamIsWellFormed(draws[..|draws| - 1]);
      EmitKeepsStream(Emitted(draws[..|draws| - 1]), draws[|draws| - 1]);
    }
  }

  // What a draw becomes, in plain numbers

  /** Every 500th round the midpoint moves by the draw, held between 37 and 90. */
  ghost predicate MidOf(m: Stream, d: Draw, mid: nat) {
    var moved := m.mid + d.drift;
    mid == if |m.requests| % 500 != 0 then m.mid else if moved < 37 then 37 else if moved > 90 then 90 else moved
  }

  /** The price of a limit order: a passive bid and a crossing ask go below the midpoint, a passive ask and a
      crossing bid above it, by one tick and the depth, as far as the ladder goes. */
  ghost predicate PriceOf(mid: nat, d: Draw, price: nat) {
    if d.isBuy != d.crossing then
      price == if mid - 1 - d.depth < 0 then 0 else mid - 1 - d.depth
    else if mid + 1 + d.depth <= 0x7FFF_FFFF then
      price == if mid + 1 + d.depth > 127 then 127 else mid + 1 + d.depth
    else
      price == 0
  }

  /** A cancel names the entry that is age places from the youngest, or the oldest, and takes out that one. */
  ghost predicate CancelOf(m: Stream, d: Draw, after: Stream, r: Request) {
    exists k: nat ::
      && k < |m.live| && k == (if d.age < |m.live| then |m.live| - 1 - d.age else 0)
      && r == CancelOrder(m.msgId, m.live[k].id, 0)
      && multiset(m.live) == multiset(after.live) + multiset{m.live[k]}
  }

  /** An order has the next id, the side and size drawn, and the type of its side; a limit order joins the pool. */
  ghost predicate OrderOf(m: Stream, d: Draw, after: Stream, r: Request) {
    && r.NewOrder? && r.msgId == r.order.id == m.msgId && r.instrumentId == 0 && r.stop == 0
    && d.lotsIndex < 8 && r.order.lots == (if d.isBuy then 1 else -1) * [1, 2, 5, 10, 20, 50, 80, 100][d.lotsIndex]
    && (d.action.Market? ==>
          r.orderType == (if d.isBuy then 0 else 2) && r.limit == 0 && after.live == m.live)
    && (!d.action.Market? ==>
          && r.orderType == (if d.isBuy then 1 else 3) && PriceOf(after.mid, d, r.limit)
          && after.live == m.live + [LiveOrder(m.msgId, r.limit, d.isBuy)])
  }

  ghost predicate RoundOf(m: Stream, d: Draw, after: Stream, r: Request) {
    && MidOf(m, d, after.mid) && after.msgId == m.msgId + 1 && after.requests == m.requests + [r]
    && (if d.action.Cancel? && |m.live| > 0 then CancelOf(m, d, after, r) else OrderOf(m, d, after, r))
  }

  lemma {:induction false} MultisetSwap<T>(a: seq<T>, v: T, b: seq<T>, w: T)
    ensures multiset(a + [v] + b + [w]) == multiset(a + [w] + b) + multiset{v}
  {
  }

  /** Swapping with the back and popping takes out that one entry. */
  lemma {:induction false} SwapOutTakes(live: seq<LiveOrder>, k: nat)
    requires k < |live|
    ensures multiset(live) == multiset(SwapOut(live, k)) + multiset{live[k]}
  {
    var n := |live| - 1;
    if k == n {
      assert live == SwapOut(live, k) + [live[k]];
    } else {
      assert live == live[..k] + [live[k]] + live[k + 1..n] + [live[n]];
      assert SwapOut(live, k) == live[..k] + [live[n]] + live[k + 1..n];
      MultisetSwap(live[..k], live[k], live[k + 1..n], live[n]);
    }
  }

  lemma {:induction false} CancelLaw(m: Stream, d: Draw)
    requires d.Ok() && d.action.Cancel? && m.live != []
    ensures CancelOf(m, d, Emit(m, d), Emit(m, d).requests[|m.requests|])
  {
    var k := Victim(m.live, d.age);
    SwapOutTakes(m.live, k);
  }

  /** Each round emits what its draw says. */
  lemma {:induction false} RoundLaw(m: Stream, d: Draw, after: Stream, r: Request)
    requires StreamOk(m) && d.Ok() && after == Emit(m, d) && r == after.requests[|m.requests|]
    ensures RoundOf(m, d, after, r)
  {
    if d.action.Cancel? && m.live != [] {
      CancelLaw(m, d);
    }
  }

  /** So does every round of a stream, with the midpoint and the pool it finds; the first one finds midpoint 64 and
      an empty pool. */
  lemma {:induction false} StreamLaw(draws: seq<Draw>, k: nat)
    requires DrawsOk(draws) && k < |draws|
    ensures Emitted(draws[..0]) == Stream(64, 1, [], [])
    ensures |Emitted(draws).requests| == |draws|
    ensures RoundOf(Emitted(draws[..k]), draws[k], Emitted(draws[..k + 1]), Emitted(draws).requests[k])
  {
    StreamIsWellFormed(draws);
    StreamIsWellFormed(draws[..k]);
    EmittedSnoc(draws, k);
    StreamGrows(draws, k + 1);
    RoundLaw(Emitted(draws[..k]), draws[k], Emitted(draws[..k + 1]), Emitted(draws).requests[k]);
  }

  lemma {:induction false} StreamGrows(draws: seq<Draw>, k: nat)
    requires DrawsOk(draws) && k <= |draws|
    ensures Emitted(draws[..k]).requests <= Emitted(draws).requests
    decreases |draws|
  {
    if k == |draws| {
      assert draws[..k] == draws;
    } else {
      var shorter := draws[..|draws| - 1];
      StreamGrows(shorter, k);
      assert shorter[..k] == draws[..k];
    }
  }

  /** Every limit order of a stream is on the side of its round's midpoint that it was meant for, unless its depth
      went past 32 bits. */
  lemma {:induction false} StreamKeepsSides(draws: seq<Draw>, k: nat)
    requires DrawsOk(draws) && k < |draws|
    ensures |Emitted(draws).requests| == |draws|
    ensures var r, d, mid := Emitted(draws).requests[k], draws[k], Emitted(draws[..k + 1]).mid;
            && 37 <= mid <= 90
            && (r.NewOrder? && (r.orderType == 1 || r.orderType == 3) && d.depth <= 0x7FFF_FFFF - mid - 1 ==>
                  if (r.order.lots > 0) == d.crossing then mid < r.limit else r.limit < mid)
  {
    StreamLaw(draws, k);
    StreamIsWellFormed(draws[..k + 1]);
  }

  lemma {:induction false} TallyConcat(a: seq<LiveOrder>, b: seq<LiveOrder>, isBuy: bool, price: nat)
    ensures Tally(a + b, isBuy, price) == Tally(a, isBuy, price) + Tally(b, isBuy, price)
  {
    if a == [] {
      assert a + b == b;
    } else {
      TallyConcat(a[1..], b, isBuy, price);
      assert (a + b)[1..] == a[1..] + b;
    }
  }

  lemma {:induction false} TallyOne(l: LiveOrder, isBuy: bool, price: nat)
    ensures Tally([l], isBuy, price) == if l.isBuy == isBuy && l.price == price then 1 else 0
  {
    assert [l][1..] == [];
  }

  /** Swapping an entry out lowers its own tally by one and no other. */
  lemma {:induction false} TallySwapOut(live: seq<LiveOrder>, idx: nat, isBuy: bool, price: nat)
    requires idx < |live|
    ensures Tally(live, isBuy, price) == Tally(SwapOut(live, idx), isBuy, price) + Tally([live[idx]], isBuy, price)
  {
    var n := |live| - 1;
    var front, back := live[..idx], live[idx + 1..];
    assert live == front + [live[idx]] + back;
    TallyConcat(front + [live[idx]], back, isBuy, price);
    TallyConcat(front, [live[idx]], isBuy, price);
    if idx == n {
      assert SwapOut(live, idx) == front && back == [];
    } else {
      var middle := live[idx + 1..n];
      assert back == middle + [live[n]];
      TallyConcat(middle, [live[n]], isBuy, price);
      assert SwapOut(live, idx) == front + [live[n]] + middle;
      TallyConcat(front + [live[n]], middle, isBuy, price);
      TallyConcat(front, [live[n]], isBuy, price);
    }
  }

  // The generator itself

  class Generator {
    var mid: nat
    var msgId: nat
    var live: seq<LiveOrder>
    const restingModel: array2<int>    // [side, price]: 0 for asks, 1 for bids
    ghost var market: Stream

    ghost predicate Valid()
      reads this, restingModel
    {
      && Follows()
      && StreamOk(market)
    }

    /** The fields are those of the stream emitted so far. */
    ghost predicate Follows()
      reads this, restingModel
    {
      && mid == market.mid && msgId == market.msgId && live == market.live
      && Tallied()
    }

    /** The model counts the pool, side by side and price by price. */
    ghost predicate Tallied()
      reads this`live, restingModel
    {
      && restingModel.Length0 == 2 && restingModel.Length1 == LEVELS
      && (forall p: nat {:trigger Tally(live, false, p)} :: p < LEVELS ==> restingModel[0, p] == Tally(live, false, p))
      && (forall p: nat {:trigger Tally(live, true, p)} :: p < LEVELS ==> restingModel[1, p] == Tally(live, true, p))
    }

    constructor ()
      ensures Valid() && market == OPENING && fresh(restingModel)
    {
      mid, msgId, live := 64, 1, [];
      restingModel := new int[2, LEVELS]((s, p) => 0);
      market := OPENING;
    }

    /** One round: what it emits, and that the tally follows the pool. */
    method Round(i: nat, d: Draw) returns (r: Request)
      requires Valid() && d.Ok() && i == |market.requests|
      modifies this, restingModel
      ensures Valid() && market == Emit(old(market), d)
      ensures RoundOf(old(market), d, market, r)
    {
      RoundLaw(market, d, Emit(market, d), Emit(market, d).requests[i]);
      EmitKeepsStream(market, d);
      LivePrices(market);
      if i % DRIFT_EVERY == 0 {
        mid := Drifted(mid, d.drift);
      }
      var act := d.action;
      if act == Cancel && live == [] {
        act := AddLimit;
      }
      if act == Cancel {
        r := EmitCancel(d.age);
      } else {
        r := EmitOrder(act == AddLimit, d);
      }
      market := Emit(market, d);
    }

    method EmitCancel(age: nat) returns (r: Request)
      requires live != [] && Tallied() && forall j :: 0 <= j < |live| ==> live[j].price < LEVELS
      modifies this`msgId, this`live, restingModel
      ensures msgId == old(msgId) + 1
      ensures var idx := Victim(old(live), age);
              live == SwapOut(old(live), idx) && r == CancelOrder(old(msgId), old(live)[idx].id, 0)
      ensures Tallied()
    {
      var k := if |live| - 1 < age then |live| - 1 else age;
      var idx := |live| - 1 - k;
      var victim := live[idx];
      ghost var was := live;
      forall isBuy: bool, p: nat
        ensures Tally(was, isBuy, p)
                == Tally(SwapOut(was, idx), isBuy, p) + (if victim.isBuy == isBuy && victim.price == p then 1 else 0)
      {
        TallySwapOut(was, idx, isBuy, p);
        TallyOne(victim, isBuy, p);
      }
      r := CancelOrder(msgId, victim.id, 0);
      msgId := msgId + 1;
      live := live[idx := live[|live| - 1]];
      live := live[..|live| - 1];
      var side := if victim.isBuy then 1 else 0;
      restingModel[side, victim.price] := restingModel[side, victim.price] - 1;
    }

    method EmitOrder(isLimit: bool, d: Draw) returns (r: Request)
      requires d.Ok() && isLimit == !d.action.Market?
      requires Tallied()
      modifies this`msgId, this`live, restingModel
      ensures msgId == old(msgId) + 1 && r == OrderFor(mid, old(msgId), d)
      ensures live == if isLimit then old(live) + [LiveOrder(old(msgId), r.limit, d.isBuy)] else old(live)
      ensures Tallied()
    {
      var lots := (if d.isBuy then 1 else -1) * LOT_SIZES[d.lotsIndex];
      var orderId := msgId;
      msgId := msgId + 1;
      var price := if isLimit then MakePrice(mid, d.isBuy, d.crossing, d.depth) else 0;
      r := NewOrder(orderId, Order(orderId, lots), TypeOf(d.isBuy, isLimit), 0, price, 0);
      if isLimit {
        var entry := LiveOrder(orderId, price, d.isBuy);
        ghost var was := live;
        forall isBuy: bool, p: nat
          ensures Tally(was + [entry], isBuy, p)
                  == Tally(was, isBuy, p) + (if d.isBuy == isBuy && price == p then 1 else 0)
        {
          TallyConcat(was, [entry], isBuy, p);
          TallyOne(entry, isBuy, p);
        }
        live := live + [entry];
        var side := if d.isBuy then 1 else 0;
        restingModel[side, price] := restingModel[side, price] + 1;
      }
    }

    /** The emission loop. */
    method Generate(draws: seq<Draw>) returns (requests: seq<Request>)
      requires Valid() && market == OPENING && DrawsOk(draws)
      modifies this, restingModel
      ensures Valid() && market == Emitted(draws) && requests == market.requests
    {
      requests := [];
      for i := 0 to |draws|
        invariant Valid() && market == Emitted(draws[..i]) && requests == market.requests && |requests| == i
      {
        EmittedSnoc(draws, i);
        var r := Round(i, draws[i]);
        requests := requests + [r];
      }
      assert draws[..|draws|] == draws;
    }
  }
}
