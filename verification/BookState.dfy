/**
 The invariant of a book over its levels, counts and best-price hints, and what each elementary change
 (fill the head, walk past an empty level, rest, remove) does to it and to the two sides.
 A hint may be stale, pointing at a level that holds nothing of its side; it is never past an order.
 */
module BookState {
  import opened MatcherTypes
  import opened ReferenceBook
  import opened ReferenceLaws
  import opened PriceLevels

  /** The index of a side in counts and bestIdx: 0 for asks, 1 for bids. */
  function Ix(isBid: bool): int {
    if isBid then 1 else 0
  }

  ghost predicate LotsOk(levels: seq<Level>) {
    forall p, k :: 0 <= p < |levels| && 0 <= k < |levels[p]| ==> -INT64_MAX <= levels[p][k].lots <= INT64_MAX
  }

  ghost predicate UniqueIds(levels: seq<Level>) {
    forall p, k, q, j {:trigger levels[p][k].id, levels[q][j].id} ::
      && 0 <= p < |levels| && 0 <= k < |levels[p]| && 0 <= q < |levels| && 0 <= j < |levels[q]|
      && levels[p][k].id == levels[q][j].id
      ==> p == q && k == j
  }

  /** Every order of the side is at the hint or behind it. */
  ghost predicate HintOk(isBid: bool, levels: seq<Level>, hint: int) {
    && (hint == INVALID_BEST || 0 <= hint < |levels|)
    && forall p :: 0 <= p < |levels| && HoldsSide(isBid, levels[p]) ==> hint != INVALID_BEST && !Better(isBid, p, hint)
  }

  predicate Uncrossed(best: seq<int>)
    requires |best| == 2
  {
    best[0] != INVALID_BEST && best[1] != INVALID_BEST ==> best[1] < best[0]
  }

  ghost predicate LevelsOk(levels: seq<Level>) {
    OneSided(levels) && LotsOk(levels)
  }

  ghost predicate HintsOk(levels: seq<Level>, best: seq<int>) {
    |best| == 2 && HintOk(false, levels, best[0]) && HintOk(true, levels, best[1]) && Uncrossed(best)
  }

  ghost predicate CountsOk(levels: seq<Level>, counts: seq<int>) {
    |counts| == 2 && counts[0] == |SideOf(false, levels)| && counts[1] == |SideOf(true, levels)|
  }

  ghost predicate StateOk(levels: seq<Level>, counts: seq<int>, best: seq<int>) {
    |levels| < INVALID_BEST && LevelsOk(levels) && CountsOk(levels, counts) && HintsOk(levels, best)
  }

  /** Replacing a level by one of the same side, at a price the hint covers. */
  lemma {:induction false} ReplaceLevel(isBid: bool, levels: seq<Level>, best: seq<int>, p: int, level: Level)
    requires LevelsOk(levels) && HintsOk(levels, best) && 0 <= p < |levels|
    requires Uniform(isBid, levels[p]) && Uniform(isBid, level)
    requires forall k :: 0 <= k < |level| ==> -INT64_MAX <= level[k].lots <= INT64_MAX
    requires level == [] || (best[Ix(isBid)] != INVALID_BEST && !Better(isBid, p, best[Ix(isBid)]))
    ensures LevelsOk(levels[p := level]) && HintsOk(levels[p := level], best)
  {
  }

  /** The level at a hint holds nothing of the other side, and nothing is ahead of it. */
  lemma {:induction false} HintLevel(isBid: bool, levels: seq<Level>, best: seq<int>)
    requires LevelsOk(levels) && HintsOk(levels, best) && best[Ix(isBid)] != INVALID_BEST
    ensures var h := best[Ix(isBid)];
            && Uniform(isBid, levels[h])
            && Ahead(isBid, levels, h) == []
            && SideOf(isBid, levels) == Segment(isBid, levels[h], h) + Behind(isBid, levels, h)
  {
    var h := best[Ix(isBid)];
    assert !HoldsSide(!isBid, levels[h]);
    NothingAhead(isBid, levels, h);
    SideAround(isBid, levels, h);
  }

  lemma {:induction false} HeadOfSide(isBid: bool, levels: seq<Level>, best: seq<int>)
    requires LevelsOk(levels) && HintsOk(levels, best)
    requires best[Ix(isBid)] != INVALID_BEST && levels[best[Ix(isBid)]] != []
    ensures var h := best[Ix(isBid)];
            && SideOf(isBid, levels) != []
            && SideOf(isBid, levels)[0] == RestingOrder(levels[h][0], h)
            && HasSign(isBid, levels[h][0].lots)
  {
    HintLevel(isBid, levels, best);
  }

  /** Replacing the orders at the head of a side by none or one, at the level of the hint. */
  lemma {:induction false} ReplaceHead(isBid: bool, levels: seq<Level>, best: seq<int>, front: Level)
    requires LevelsOk(levels) && HintsOk(levels, best)
    requires best[Ix(isBid)] != INVALID_BEST && levels[best[Ix(isBid)]] != []
    requires |front| <= 1 && Uniform(isBid, front)
    ensures var h := best[Ix(isBid)];
            var after := levels[h := front + levels[h][1..]];
            && SideOf(isBid, levels) != []
            && SideOf(isBid, after)
               == (if front == [] then [] else [RestingOrder(front[0], h)]) + SideOf(isBid, levels)[1..]
            && SideOf(!isBid, after) == SideOf(!isBid, levels)
  {
    var h := best[Ix(isBid)];
    var level := front + levels[h][1..];
    var first := if front == [] then [] else [RestingOrder(front[0], h)];
    HintLevel(isBid, levels, best);
    SetLevel(isBid, levels, h, level);
    SwapFirst(isBid, levels[h], front, h);
    DropFirst(first, Segment(isBid, levels[h], h), Behind(isBid, levels, h));
  }

  lemma {:induction false} SwapFirst(isBid: bool, level: Level, front: Level, p: nat)
    requires Uniform(isBid, level) && level != [] && |front| <= 1 && Uniform(isBid, front)
    ensures var first := if front == [] then [] else [RestingOrder(front[0], p)];
            && Segment(isBid, level, p) != []
            && Segment(isBid, front + level[1..], p) == first + Segment(isBid, level, p)[1..]
  {
    var swapped := front + level[1..];
    forall i | 0 <= i < |swapped|
      ensures swapped[i] == (if i < |front| then front[i] else level[i - |front| + 1])
              && HasSign(isBid, swapped[i].lots)
    {}
    SegmentOf(isBid, level, p);
    SegmentOf(isBid, swapped, p);
  }

  /** On its own side a level is a segment, order by order. */
  lemma {:induction false} SegmentOf(isBid: bool, level: Level, p: nat)
    requires Uniform(isBid, level)
    ensures |Segment(isBid, level, p)| == |level|
    ensures forall i :: 0 <= i < |level| ==> Segment(isBid, level, p)[i] == RestingOrder(level[i], p)
  {
  }

  lemma {:induction false} DropFirst(first: seq<RestingOrder>, s: seq<RestingOrder>, b: seq<RestingOrder>)
    requires s != []
    ensures [] + (first + s[1..]) + b == first + (s + b)[1..]
  {
  }

  lemma {:induction false} PopHead(isBid: bool, levels: seq<Level>, counts: seq<int>, best: seq<int>)
    requires StateOk(levels, counts, best)
    requires best[Ix(isBid)] != INVALID_BEST && levels[best[Ix(isBid)]] != []
    ensures var h := best[Ix(isBid)];
            var after := levels[h := levels[h][1..]];
            && SideOf(isBid, levels) != []
            && SideOf(isBid, after) == SideOf(isBid, levels)[1..]
            && SideOf(!isBid, after) == SideOf(!isBid, levels)
            && StateOk(after, counts[Ix(isBid) := counts[Ix(isBid)] - 1], best)
  {
    var h := best[Ix(isBid)];
    HintLevel(isBid, levels, best);
    ReplaceHead(isBid, levels, best, []);
    ReplaceLevel(isBid, levels, best, h, levels[h][1..]);
    NoFront(levels[h][1..]);
    NoFront(SideOf(isBid, levels)[1..]);
  }

  lemma {:induction false} NoFront<T>(s: seq<T>)
    ensures [] + s == s
  {
  }

  lemma {:induction false} ShrinkHead(isBid: bool, levels: seq<Level>, counts: seq<int>, best: seq<int>, o: Order)
    requires StateOk(levels, counts, best)
    requires best[Ix(isBid)] != INVALID_BEST && levels[best[Ix(isBid)]] != []
    requires HasSign(isBid, o.lots) && -INT64_MAX <= o.lots <= INT64_MAX
    ensures var h := best[Ix(isBid)];
            var after := levels[h := [o] + levels[h][1..]];
            && SideOf(isBid, levels) != []
            && SideOf(isBid, after) == [RestingOrder(o, h)] + SideOf(isBid, levels)[1..]
            && SideOf(!isBid, after) == SideOf(!isBid, levels)
            && StateOk(after, counts, best)
  {
    var h := best[Ix(isBid)];
    HintLevel(isBid, levels, best);
    ReplaceHead(isBid, levels, best, [o]);
    ReplaceLevel(isBid, levels, best, h, [o] + levels[h][1..]);
  }

  /** A nonempty side has an order at some level. */
  lemma {:induction false} SomeLevel(isBid: bool, levels: seq<Level>) returns (p: int)
    requires SideOf(isBid, levels) != []
    ensures 0 <= p < |levels| && HoldsSide(isBid, levels[p])
  {
    if forall q :: 0 <= q < |levels| ==> !HoldsSide(isBid, levels[q]) {
      FlattenEmpty(Segments(isBid, levels));
    }
    p :| 0 <= p < |levels| && HoldsSide(isBid, levels[p]);
  }

  /** While the side is not empty, walking past an empty level stays inside the book and loses nothing. */
  lemma {:induction false} WalkOn(isBid: bool, levels: seq<Level>, counts: seq<int>, best: seq<int>)
    requires StateOk(levels, counts, best) && counts[Ix(isBid)] > 0
    requires best[Ix(isBid)] != INVALID_BEST ==> levels[best[Ix(isBid)]] == []
    ensures best[Ix(isBid)] != INVALID_BEST
    ensures var h := if isBid then best[1] - 1 else best[0] + 1;
            0 <= h < |levels| && StateOk(levels, counts, best[Ix(isBid) := h])
  {
    var p := SomeLevel(isBid, levels);
  }

  /** When the hint is past the limit, so is the whole side, and a match takes nothing. */
  lemma {:induction false} PastLimit(isBid: bool, levels: seq<Level>, counts: seq<int>, best: seq<int>, lots: int,
                                     limit: int)
    requires StateOk(levels, counts, best) && HasSign(!isBid, lots)
    requires best[Ix(isBid)] == INVALID_BEST || !Within(!isBid, best[Ix(isBid)], limit)
    ensures Match(!isBid, SideOf(isBid, levels), lots, limit) == MatchResult([], SideOf(isBid, levels), lots)
  {
    var side, h := SideOf(isBid, levels), best[Ix(isBid)];
    if side != [] {
      var behind := (o: RestingOrder) => h != INVALID_BEST && !Better(isBid, o.price, h);
      EveryResting(isBid, levels, behind);
      assert behind(side[0]);
    }
  }

  /** Every order of a side is on the ladder and at its hint or behind it, and if there is one the hint is set. */
  lemma {:induction false} SideBracket(isBid: bool, levels: seq<Level>, hint: int)
    requires HintOk(isBid, levels, hint)
    ensures var side := SideOf(isBid, levels);
            && (|side| > 0 ==> hint != INVALID_BEST)
            && forall i :: 0 <= i < |side| ==> !Better(isBid, side[i].price, hint) && side[i].price < |levels|
  {
    var side := SideOf(isBid, levels);
    forall i | 0 <= i < |side|
      ensures hint != INVALID_BEST && !Better(isBid, side[i].price, hint) && side[i].price < |levels|
    {
      var r, k := FlattenFrom(Segments(isBid, levels), i);
      assert HoldsSide(isBid, levels[Walk(isBid, r, |levels|)]);
    }
    assert |side| > 0 ==> !Better(isBid, side[0].price, hint);
  }

  /** Both sides, told with numbers. */
  lemma {:induction false} Brackets(levels: seq<Level>, bid: int, ask: int)
    requires HintOk(true, levels, bid) && HintOk(false, levels, ask)
    ensures var b := BookOf(levels);
            && (forall i :: 0 <= i < |b.bids| ==> b.bids[i].price <= bid < |levels|)
            && (forall i :: 0 <= i < |b.asks| ==> 0 <= ask <= b.asks[i].price < |levels|)
  {
    SideBracket(true, levels, bid);
    SideBracket(false, levels, ask);
    assert |SideOf(true, levels)| > 0 ==> 0 <= bid < |levels|;
    assert |SideOf(false, levels)| > 0 ==> 0 <= ask < |levels|;
  }

  /** A side without orders has no level. */
  lemma {:induction false} EmptySide(isBid: bool, levels: seq<Level>, p: nat)
    requires OneSided(levels) && |SideOf(isBid, levels)| == 0 && p < |levels|
    ensures !HoldsSide(isBid, levels[p])
  {
    if HoldsSide(isBid, levels[p]) {
      LevelOrderIsResting(isBid, levels, p, 0);
    }
  }

  lemma {:induction false} Unset(isBid: bool, levels: seq<Level>, counts: seq<int>, best: seq<int>)
    requires StateOk(levels, counts, best) && counts[Ix(isBid)] == 0
    ensures StateOk(levels, counts, best[Ix(isBid) := INVALID_BEST])
  {
    forall p | 0 <= p < |levels| ensures !HoldsSide(isBid, levels[p]) {
      EmptySide(isBid, levels, p);
    }
  }

  /** Whether a price is on its own side of the opposite hint, so that an order may rest there. */
  predicate Clear(isBid: bool, price: int, best: seq<int>)
    requires |best| == 2
  {
    best[Ix(!isBid)] == INVALID_BEST || Better(isBid, best[Ix(!isBid)], price)
  }

  /** The hint after an order rests. */
  function NewHint(isBid: bool, price: int, hint: int): int {
    if hint == INVALID_BEST || Better(isBid, price, hint) then price else hint
  }

  lemma {:induction false} ClearLevel(isBid: bool, levels: seq<Level>, counts: seq<int>, best: seq<int>, price: int)
    requires StateOk(levels, counts, best) && 0 <= price < |levels| && Clear(isBid, price, best)
    ensures Uniform(isBid, levels[price])
  {
    if !Uniform(isBid, levels[price]) {
      assert HoldsSide(!isBid, levels[price]);
      assert false;
    }
  }

  lemma {:induction false} Rest(isBid: bool, levels: seq<Level>, counts: seq<int>, best: seq<int>, price: nat, o: Order)
    requires StateOk(levels, counts, best) && price < |levels| && Clear(isBid, price, best)
    requires HasSign(isBid, o.lots) && -INT64_MAX <= o.lots <= INT64_MAX
    ensures var after := levels[price := levels[price] + [o]];
            && SideOf(isBid, after) == Insert(isBid, SideOf(isBid, levels), RestingOrder(o, price))
            && SideOf(!isBid, after) == SideOf(!isBid, levels)
            && StateOk(after, counts[Ix(isBid) := counts[Ix(isBid)] + 1],
                       best[Ix(isBid) := NewHint(isBid, price, best[Ix(isBid)])])
  {
    ClearLevel(isBid, levels, counts, best, price);
    var level, best' := levels[price] + [o], best[Ix(isBid) := NewHint(isBid, price, best[Ix(isBid)])];
    SetLevel(isBid, levels, price, level);
    RestInSide(isBid, levels, price, o);
    assert HintsOk(levels, best');
    ReplaceLevel(isBid, levels, best', price, level);
  }

  lemma {:induction false} RestInSide(isBid: bool, levels: seq<Level>, price: nat, o: Order)
    requires price < |levels| && Uniform(isBid, levels[price]) && HasSign(isBid, o.lots)
    ensures var longer := Ahead(isBid, levels, price) + Segment(isBid, levels[price] + [o], price)
                          + Behind(isBid, levels, price);
            && Insert(isBid, SideOf(isBid, levels), RestingOrder(o, price)) == longer
            && |longer| == |SideOf(isBid, levels)| + 1
  {
    SideAround(isBid, levels, price);
    AheadIsBetter(isBid, levels, price);
    BehindIsWorse(isBid, levels, price);
    SegmentWith(isBid, levels[price], price, o);
    InsertInMiddle(isBid, Ahead(isBid, levels, price), Segment(isBid, levels[price], price),
                   Behind(isBid, levels, price), RestingOrder(o, price));
  }

  lemma {:induction false} SegmentWith(isBid: bool, level: Level, p: nat, o: Order)
    requires Uniform(isBid, level) && HasSign(isBid, o.lots)
    ensures Segment(isBid, level + [o], p) == Segment(isBid, level, p) + [RestingOrder(o, p)]
    ensures forall i :: 0 <= i < |Segment(isBid, level, p)| ==> Segment(isBid, level, p)[i].price == p
  {
  }

  /** An insertion goes behind the orders of its own price. */
  lemma {:induction false} InsertInMiddle(isBid: bool, a: seq<RestingOrder>, s: seq<RestingOrder>, b: seq<RestingOrder>,
                                          o: RestingOrder)
    requires forall i :: 0 <= i < |a| ==> Better(isBid, a[i].price, o.price)
    requires forall i :: 0 <= i < |s| ==> s[i].price == o.price
    requires forall i :: 0 <= i < |b| ==> Better(isBid, o.price, b[i].price)
    ensures Insert(isBid, a + s + b, o) == a + (s + [o]) + b
  {
    var front := a + s;
    forall i | 0 <= i < |front| ensures !Better(isBid, o.price, front[i].price) {
      assert front[i] == if i < |a| then a[i] else s[i - |a|];
    }
    InsertSplit(isBid, front, b, o);
    assert front + [o] + b == a + (s + [o]) + b;
  }

  /** An id that no level carries is on no side. */
  lemma {:induction false} NowhereHeld(levels: seq<Level>, id: nat)
    requires forall p, k :: 0 <= p < |levels| && 0 <= k < |levels[p]| ==> levels[p][k].id != id
    ensures !Holds(SideOf(false, levels), id) && !Holds(SideOf(true, levels), id)
  {
    EveryResting(false, levels, (o: RestingOrder) => o.order.id != id);
    EveryResting(true, levels, (o: RestingOrder) => o.order.id != id);
  }

  lemma {:induction false} LevelHeld(levels: seq<Level>, p: int, k: int)
    requires OneSided(levels) && 0 <= p < |levels| && 0 <= k < |levels[p]|
    ensures Holds(SideOf(false, levels), levels[p][k].id) || Holds(SideOf(true, levels), levels[p][k].id)
  {
    var isBid := Uniform(true, levels[p]);
    LevelOrderIsResting(isBid, levels, p, k);
  }

  /** Removing an order from wherever it is in its level. */
  lemma {:induction false} TakeOut(isBid: bool, levels: seq<Level>, counts: seq<int>, best: seq<int>, p: int, k: int)
    requires StateOk(levels, counts, best) && UniqueIds(levels)
    requires 0 <= p < |levels| && 0 <= k < |levels[p]| && isBid == (levels[p][k].lots > 0)
    ensures var o := levels[p][k];
            var after := levels[p := levels[p][..k] + levels[p][k + 1..]];
            && StateOk(after, counts[Ix(isBid) := counts[Ix(isBid)] - 1], best)
            && Find(SideOf(isBid, levels), o.id) == Some(o) && !Holds(SideOf(!isBid, levels), o.id)
            && SideOf(isBid, after) == Remove(SideOf(isBid, levels), o.id)
            && SideOf(!isBid, after) == SideOf(!isBid, levels)
  {
    assert Uniform(isBid, levels[p]) && HoldsSide(isBid, levels[p]);
    TakeOutSides(isBid, levels, p, k);
    ReplaceLevel(isBid, levels, best, p, levels[p][..k] + levels[p][k + 1..]);
  }

  /** Removing an order from its level removes it from its side, and leaves the other side alone. */
  lemma {:induction false} TakeOutSides(isBid: bool, levels: seq<Level>, p: int, k: int)
    requires UniqueIds(levels)
    requires 0 <= p < |levels| && 0 <= k < |levels[p]| && Uniform(isBid, levels[p])
    ensures var o := levels[p][k];
            var after := levels[p := levels[p][..k] + levels[p][k + 1..]];
            && Find(SideOf(isBid, levels), o.id) == Some(o) && !Holds(SideOf(!isBid, levels), o.id)
            && SideOf(isBid, after) == Remove(SideOf(isBid, levels), o.id)
            && |SideOf(isBid, after)| == |SideOf(isBid, levels)| - 1
            && SideOf(!isBid, after) == SideOf(!isBid, levels)
  {
    SetLevel(isBid, levels, p, levels[p][..k] + levels[p][k + 1..]);
    TakeOutOfSide(isBid, levels, p, k);
    OtherIds(isBid, levels, p, k);
  }

  lemma {:induction false} OtherIds(isBid: bool, levels: seq<Level>, p: int, k: int)
    requires UniqueIds(levels) && 0 <= p < |levels| && 0 <= k < |levels[p]| && Uniform(isBid, levels[p])
    ensures !Holds(SideOf(!isBid, levels), levels[p][k].id)
  {
    var id := levels[p][k].id;
    EveryResting(!isBid, levels, (o: RestingOrder) => o.order.id != id);
  }

  lemma {:induction false} TakeOutOfSide(isBid: bool, levels: seq<Level>, p: int, k: int)
    requires UniqueIds(levels)
    requires 0 <= p < |levels| && 0 <= k < |levels[p]| && Uniform(isBid, levels[p])
    ensures var o := levels[p][k];
            var shorter := levels[p][..k] + levels[p][k + 1..];
            && Find(SideOf(isBid, levels), o.id) == Some(o)
            && Remove(SideOf(isBid, levels), o.id)
               == Ahead(isBid, levels, p) + Segment(isBid, shorter, p) + Behind(isBid, levels, p)
            && |Remove(SideOf(isBid, levels), o.id)| == |SideOf(isBid, levels)| - 1
  {
    var o := levels[p][k];
    var a, s, b := Ahead(isBid, levels, p), Segment(isBid, levels[p], p), Behind(isBid, levels, p);
    SideAround(isBid, levels, p);
    AheadIds(isBid, levels, p, k);
    SegmentIds(isBid, levels, p, k);
    SplitInThree(a, s, b, k);
    FindSplit(a + s[..k], s[k], s[k + 1..] + b);
    SegmentWithout(isBid, levels[p], p, k);
  }

  lemma {:induction false} SplitInThree(a: seq<RestingOrder>, s: seq<RestingOrder>, b: seq<RestingOrder>, k: int)
    requires 0 <= k < |s|
    ensures a + s + b == (a + s[..k]) + [s[k]] + (s[k + 1..] + b)
    ensures (a + s[..k]) + (s[k + 1..] + b) == a + (s[..k] + s[k + 1..]) + b
  {
  }

  lemma {:induction false} SegmentWithout(isBid: bool, level: Level, p: nat, k: int)
    requires Uniform(isBid, level) && 0 <= k < |level|
    ensures var s := Segment(isBid, level, p);
            |s| == |level| && Segment(isBid, level[..k] + level[k + 1..], p) == s[..k] + s[k + 1..]
  {
  }

  /** Neither what is ahead of a level nor what is before position k in it carries the id at k. */
  lemma {:induction false} SegmentIds(isBid: bool, levels: seq<Level>, p: int, k: int)
    requires UniqueIds(levels) && 0 <= p < |levels| && 0 <= k < |levels[p]| && Uniform(isBid, levels[p])
    ensures var s := Segment(isBid, levels[p], p);
            |s| == |levels[p]| && s[k] == RestingOrder(levels[p][k], p)
            && !Holds(Ahead(isBid, levels, p) + s[..k], levels[p][k].id)
  {
    AheadIds(isBid, levels, p, k);
    var a, s, id := Ahead(isBid, levels, p), Segment(isBid, levels[p], p), levels[p][k].id;
    var front := a + s[..k];
    forall i | 0 <= i < |front| ensures front[i].order.id != id {
      if i < |a| {
        assert a[i].order.id != id;
      } else {
        assert front[i].order == levels[p][i - |a|];
      }
    }
  }

  lemma {:induction false} AheadIds(isBid: bool, levels: seq<Level>, p: int, k: int)
    requires UniqueIds(levels) && 0 <= p < |levels| && 0 <= k < |levels[p]|
    ensures !Holds(Ahead(isBid, levels, p), levels[p][k].id)
  {
    var id := levels[p][k].id;
    var xs := Segments(isBid, levels)[..Walk(isBid, p, |levels|)];
    FlattenEvery(xs, (o: RestingOrder) => o.order.id != id);
  }

  /** A level holds as many orders as its side counts at its price. */
  lemma {:induction false} LevelCount(isBid: bool, levels: seq<Level>, price: int)
    requires 0 <= price < |levels| && Uniform(isBid, levels[price])
    ensures CountAt(SideOf(isBid, levels), price) == |levels[price]|
  {
    var a, s, b := Ahead(isBid, levels, price), Segment(isBid, levels[price], price), Behind(isBid, levels, price);
    SideAround(isBid, levels, price);
    AheadIsBetter(isBid, levels, price);
    BehindIsWorse(isBid, levels, price);
    CountConcat(a + s, b, price);
    CountConcat(a, s, price);
    CountNone(a, price);
    CountNone(b, price);
    CountAll(s, price);
  }

  /** Every order of a side has the side's sign. */
  lemma {:induction false} SideSigned(isBid: bool, levels: seq<Level>)
    requires OneSided(levels)
    ensures Signed(isBid, SideOf(isBid, levels))
  {
    EveryResting(isBid, levels, (o: RestingOrder) => HasSign(isBid, o.order.lots));
  }
}
