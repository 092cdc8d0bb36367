/** What leaves the exchange: the fills a drain finds in the ring, then the request's own response.  A request
    that makes more fills than the ring has slots loses some of them; when it does can be told beforehand. */
module RingDrain {
  import opened MatcherTypes
  import opened ReferenceBook
  import opened ReferenceLaws
  import opened ReferenceRuns
  import opened ReferenceAccounts
  import opened PriceLevels
  import opened FulfilledRing

  /** What a request offers to the outgoing queue, with a ring of this size. */
  function Offered(ring: nat, s: Outcome): seq<MessageResponse>
    requires ring > 0
  {
    Surviving(s.fills, ring) + [s.response]
  }

  /** Everything a run offers, in order. */
  function Responses(ring: nat, b: Book, rs: seq<Request>): seq<MessageResponse>
    requires ring > 0
  {
    if rs == [] then []
    else
      var k := |rs| - 1;
      Responses(ring, b, rs[..k]) + Offered(ring, Step(Run(b, rs[..k]).book, rs[k]))
  }

  /** Whether the fills of the next request will fit in the ring, told from the book before it: there are no more
      opposite orders than slots, or the one after as many as there are slots is past the limit, or those ahead
      of it cover the lots. */
  predicate FitsRing(ring: nat, b: Book, r: Request) {
    r.IsMarket() || r.IsLimit() ==>
      var isBuy := r.order.lots > 0;
      var side := b.Side(!isBuy);
      || |side| <= ring || Total(side, ring) >= Abs(r.order.lots)
      || if isBuy then side[ring].price > LimitOf(r) else side[ring].price < LimitOf(r)
  }

  predicate FitsRingRun(ring: nat, b: Book, rs: seq<Request>) {
    rs == [] ||
    (FitsRingRun(ring, b, rs[..|rs| - 1]) && FitsRing(ring, Run(b, rs[..|rs| - 1]).book, rs[|rs| - 1]))
  }

  /** A request offers exactly what the reference book emits if and only if its fills fit. */
  lemma {:induction false} OfferedExact(ring: nat, b: Book, r: Request)
    requires ring > 0 && BookOk(b)
    ensures |Step(b, r).fills| <= ring <==> FitsRing(ring, b, r)
    ensures Offered(ring, Step(b, r)) == Step(b, r).Emitted() <==> FitsRing(ring, b, r)
  {
    var s := Step(b, r);
    if r.IsMarket() || r.IsLimit() {
      var isBuy := r.order.lots > 0;
      FillCount(isBuy, b.Side(!isBuy), r.order.lots, LimitOf(r), ring);
      FillsDiffer(isBuy, b.Side(!isBuy), r.order.lots, LimitOf(r));
    }
    SurvivingExact(s.fills, ring);
    SameConcat(Surviving(s.fills, ring), [s.response], s.fills, [s.response]);
  }

  lemma {:induction false} SameConcat<T>(a: seq<T>, b: seq<T>, c: seq<T>, d: seq<T>)
    requires |a| == |c|
    ensures a + b == c + d <==> a == c && b == d
  {
    if a + b == c + d {
      assert a == (a + b)[..|a|] && b == (a + b)[|a|..];
      assert c == (c + d)[..|c|] && d == (c + d)[|c|..];
    }
  }

  lemma {:induction false} ResponsesSnoc(b: Book, rs: seq<Request>)
    requires rs != []
    ensures var k := |rs| - 1;
            Flatten(Run(b, rs).log)
            == Flatten(Run(b, rs[..k]).log) + Step(Run(b, rs[..k]).book, rs[k]).Emitted()
  {
    var k := |rs| - 1;
    var emitted := Step(Run(b, rs[..k]).book, rs[k]).Emitted();
    FlattenConcat(Run(b, rs[..k]).log, [emitted]);
    FlattenOne(emitted);
  }

  /** Over every run from an empty book, the exchange offers as many messages as the reference book emits, and
      they are the same messages if and only if the fills of every request fit. */
  lemma {:induction false} ResponsesExact(c: Config, rs: seq<Request>)
    requires c.Ok() && AdmissibleRun(c, EMPTY, rs)
    ensures |Responses(c.ring, EMPTY, rs)| == |Flatten(Run(EMPTY, rs).log)|
    ensures Responses(c.ring, EMPTY, rs) == Flatten(Run(EMPTY, rs).log) <==> FitsRingRun(c.ring, EMPTY, rs)
  {
    if rs != [] {
      var k := |rs| - 1;
      var b := Run(EMPTY, rs[..k]).book;
      ResponsesExact(c, rs[..k]);
      RunKeepsBook(c, rs[..k]);
      OfferedExact(c.ring, b, rs[k]);
      ResponsesSnoc(EMPTY, rs);
      SameConcat(Responses(c.ring, EMPTY, rs[..k]), Offered(c.ring, Step(b, rs[k])),
                 Flatten(Run(EMPTY, rs[..k]).log), Step(b, rs[k]).Emitted());
    }
  }

  // A run that loses fills

  /** n asks of one lot each at the lowest tick. */
  function UnitAsks(n: nat): (side: seq<RestingOrder>)
    ensures |side| == n && Signed(false, side) && Unique(side)
    ensures forall i :: 0 <= i < n ==> side[i] == RestingOrder(Order(i + 1, -1), 0)
  {
    seq(n, i requires 0 <= i < n => RestingOrder(Order(i + 1, -1), 0))
  }

  /** n orders to sell one lot at the lowest tick. */
  function UnitSells(n: nat): seq<Request> {
    seq(n, i requires 0 <= i < n => NewOrder(i + 1, Order(i + 1, -1), SELL_LIMIT, 0, 0, 0))
  }

  /** Then a market order that buys all of it. */
  function Sweep(n: nat): seq<Request> {
    UnitSells(n) + [NewOrder(n + 1, Order(n + 1, n), BUY, 0, 0, 0)]
  }

  lemma {:induction false} UnitTotal(side: seq<RestingOrder>, k: nat)
    requires k <= |side| && forall i :: 0 <= i < |side| ==> side[i].order.lots == -1
    ensures Total(side, k) == k
  {
    if k > 0 {
      UnitTotal(side[1..], k - 1);
    }
  }

  /** One more sell rests behind the others. */
  lemma {:induction false} SellRests(c: Config, n: nat)
    requires c.Ok() && 0 < n <= c.perLevel && n <= c.maxId
    ensures var b, r := Book(UnitAsks(n - 1), []), UnitSells(n)[n - 1];
            Admissible(c, b, r) && Step(b, r).book == Book(UnitAsks(n), [])
  {
    var asks, o := UnitAsks(n - 1), RestingOrder(Order(n, -1), 0);
    CountAll(asks, 0);
    InsertSplit(false, asks, [], o);
    assert asks + [] == asks && asks + [o] + [] == UnitAsks(n);
  }

  /** The exchange accepts the sells, and they leave the asks. */
  lemma {:induction false} SellsRest(c: Config, n: nat)
    requires c.Ok() && n <= c.perLevel && n <= c.maxId
    ensures AdmissibleRun(c, EMPTY, UnitSells(n)) && Run(EMPTY, UnitSells(n)).book == Book(UnitAsks(n), [])
  {
    if n > 0 {
      SellsRest(c, n - 1);
      SellRests(c, n);
      assert UnitSells(n)[..n - 1] == UnitSells(n - 1);
    }
  }

  /** The buy fills every ask; of more fills than there are slots the first does not survive. */
  lemma {:induction false} SweepFills(n: nat, ring: nat)
    requires 0 < ring < n
    ensures var fills := Match(true, UnitAsks(n), n, SIZE_MAX).fills;
            |fills| == n && fills[0] !in Surviving(fills, ring)
  {
    var asks := UnitAsks(n);
    var fills := Match(true, asks, n, SIZE_MAX).fills;
    MatchTakesShortestPrefix(true, asks, n, SIZE_MAX);
    UnitTotal(asks, |fills|);
    FillsDiffer(true, asks, n, SIZE_MAX);
    forall i | 0 <= i < n ensures Surviving(fills, ring)[i] != fills[0] {
      assert Surviving(fills, ring)[i] == fills[LastInSlot(i, n, ring)];
    }
  }

  /** In every exchange whose levels and index have room for one order more than the ring has slots: so many
      sells and a buy of all of them are an admissible run, the buy makes one fill too many, and the drain never
      offers its first one. */
  lemma {:induction false} SweepOverrunsRing(c: Config)
    requires c.Ok() && c.ring < c.perLevel && c.ring < c.maxId && c.ring < INT64_MAX
    ensures var rs := Sweep(c.ring + 1);
            var s := Step(Run(EMPTY, UnitSells(c.ring + 1)).book, rs[c.ring + 1]);
            && AdmissibleRun(c, EMPTY, rs)
            && |s.fills| == c.ring + 1 && s.fills[0] !in Offered(c.ring, s)
            && Responses(c.ring, EMPTY, rs) != Flatten(Run(EMPTY, rs).log)
  {
    var n := c.ring + 1;
    var rs := Sweep(n);
    SellsRest(c, n);
    assert rs[..n] == UnitSells(n);
    SweepFills(n, c.ring);
    RunKeepsBook(c, UnitSells(n));
    OfferedExact(c.ring, Run(EMPTY, UnitSells(n)).book, rs[n]);
    ResponsesExact(c, rs);
  }

  /** At the source's own sizes 2049 sells and one buy are such a run. */
  lemma {:induction false} SourceRingOverruns()
    ensures AdmissibleRun(SOURCE_CONFIG, EMPTY, Sweep(2049))
    ensures Responses(2048, EMPTY, Sweep(2049)) != Flatten(Run(EMPTY, Sweep(2049)).log)
  {
    SweepOverrunsRing(SOURCE_CONFIG);
  }
}
