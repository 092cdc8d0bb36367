/**
 The tick-indexed view of a book: one sequence of orders per price level, in arrival order.
 SideOf reads one side off the levels in walking order (asks upwards, bids downwards); the lemmas say
 what changing one level does to both sides.
 */
module PriceLevels {
  import opened MatcherTypes
  import opened ReferenceBook

  type Level = seq<Order>

  ghost predicate Uniform(isBid: bool, level: Level) {
    forall i :: 0 <= i < |level| ==> HasSign(isBid, level[i].lots)
  }

  /** No level mixes sides. */
  ghost predicate OneSided(levels: seq<Level>) {
    forall p :: 0 <= p < |levels| ==> Uniform(true, levels[p]) || Uniform(false, levels[p])
  }

  predicate HoldsSide(isBid: bool, level: Level) {
    level != [] && HasSign(isBid, level[0].lots)
  }

  /** The price met at step r of a walk over n levels; also the step at which a price is met. */
  function Walk(isBid: bool, r: int, n: int): int {
    if isBid then n - 1 - r else r
  }

  function Segment(isBid: bool, level: Level, price: nat): seq<RestingOrder> {
    if HoldsSide(isBid, level) then seq(|level|, i requires 0 <= i < |level| => RestingOrder(level[i], price)) else []
  }

  function SegmentAt(isBid: bool, levels: seq<Level>, r: int): seq<RestingOrder>
    requires 0 <= r < |levels|
  {
    var p := Walk(isBid, r, |levels|);
    Segment(isBid, levels[p], p)
  }

  function Segments(isBid: bool, levels: seq<Level>): seq<seq<RestingOrder>> {
    seq(|levels|, r requires 0 <= r < |levels| => SegmentAt(isBid, levels, r))
  }

  function Flatten<T>(xs: seq<seq<T>>): seq<T> {
    if xs == [] then [] else xs[0] + Flatten(xs[1..])
  }

  function SideOf(isBid: bool, levels: seq<Level>): seq<RestingOrder> {
    Flatten(Segments(isBid, levels))
  }

  function BookOf(levels: seq<Level>): Book {
    Book(SideOf(false, levels), SideOf(true, levels))
  }

  lemma {:induction false} FlattenConcat<T>(xs: seq<seq<T>>, ys: seq<seq<T>>)
    ensures Flatten(xs + ys) == Flatten(xs) + Flatten(ys)
  {
    if xs == [] {
      assert xs + ys == ys;
    } else {
      FlattenConcat(xs[1..], ys);
      assert (xs + ys)[0] == xs[0] && (xs + ys)[1..] == xs[1..] + ys;
      assert xs[0] + Flatten(xs[1..]) + Flatten(ys) == xs[0] + (Flatten(xs[1..]) + Flatten(ys));
    }
  }

  lemma {:induction false} FlattenAround<T>(xs: seq<seq<T>>, k: int)
    requires 0 <= k < |xs|
    ensures Flatten(xs) == Flatten(xs[..k]) + xs[k] + Flatten(xs[k + 1..])
  {
    FlattenConcat(xs[..k], xs[k..]);
    assert xs == xs[..k] + xs[k..] && xs[k..][1..] == xs[k + 1..];
  }

  lemma {:induction false} FlattenEmpty<T>(xs: seq<seq<T>>)
    requires forall k :: 0 <= k < |xs| ==> xs[k] == []
    ensures Flatten(xs) == []
  {
    if xs != [] {
      FlattenEmpty(xs[1..]);
    }
  }

  /** The length of the whole depends only on the lengths of the parts. */
  lemma {:induction false} FlattenLengths<S, T>(xs: seq<seq<S>>, ys: seq<seq<T>>)
    requires |xs| == |ys| && forall k :: 0 <= k < |xs| ==> |xs[k]| == |ys[k]|
    ensures |Flatten(xs)| == |Flatten(ys)|
  {
    if xs != [] {
      FlattenLengths(xs[1..], ys[1..]);
    }
  }

  /** Parts that have n elements between them, pair by pair. */
  lemma {:induction false} FlattenPairs<T>(xs: seq<seq<T>>, ys: seq<seq<T>>, n: nat)
    requires |xs| == |ys| && forall k :: 0 <= k < |xs| ==> |xs[k]| + |ys[k]| == n
    ensures |Flatten(xs)| + |Flatten(ys)| == |xs| * n
  {
    if xs != [] {
      FlattenPairs(xs[1..], ys[1..], n);
    }
  }

  /** Every element of the whole is in a part. */
  lemma {:induction false} FlattenFrom<T>(xs: seq<seq<T>>, i: nat) returns (k: nat, j: nat)
    requires i < |Flatten(xs)|
    ensures k < |xs| && j < |xs[k]| && Flatten(xs)[i] == xs[k][j]
  {
    if i < |xs[0]| {
      k, j := 0, i;
    } else {
      k, j := FlattenFrom(xs[1..], i - |xs[0]|);
      k := k + 1;
    }
  }

  /** Whatever holds of every element of every part holds of every element of the whole. */
  lemma {:induction false} FlattenEvery<T>(xs: seq<seq<T>>, p: T -> bool)
    requires forall k, i :: 0 <= k < |xs| && 0 <= i < |xs[k]| ==> p(xs[k][i])
    ensures forall i :: 0 <= i < |Flatten(xs)| ==> p(Flatten(xs)[i])
  {
    if xs != [] {
      forall k, i | 0 <= k < |xs[1..]| && 0 <= i < |xs[1..][k]| ensures p(xs[1..][k][i]) {
        assert xs[1..][k] == xs[k + 1];
        assert p(xs[k + 1][i]);
      }
      FlattenEvery(xs[1..], p);
      forall i | 0 <= i < |xs[0]| ensures p(xs[0][i]) {}
    }
  }

  /** The part of a side met before a price, and the part met after it. */
  ghost function Ahead(isBid: bool, levels: seq<Level>, price: int): seq<RestingOrder>
    requires 0 <= price < |levels|
  {
    Flatten(Segments(isBid, levels)[..Walk(isBid, price, |levels|)])
  }

  ghost function Behind(isBid: bool, levels: seq<Level>, price: int): seq<RestingOrder>
    requires 0 <= price < |levels|
  {
    Flatten(Segments(isBid, levels)[Walk(isBid, price, |levels|) + 1..])
  }

  lemma {:induction false} SideAround(isBid: bool, levels: seq<Level>, price: int)
    requires 0 <= price < |levels|
    ensures SideOf(isBid, levels)
            == Ahead(isBid, levels, price) + Segment(isBid, levels[price], price) + Behind(isBid, levels, price)
  {
    FlattenAround(Segments(isBid, levels), Walk(isBid, price, |levels|));
  }

  lemma {:induction false} AheadIsBetter(isBid: bool, levels: seq<Level>, price: int)
    requires 0 <= price < |levels|
    ensures forall i :: 0 <= i < |Ahead(isBid, levels, price)| ==>
              Better(isBid, Ahead(isBid, levels, price)[i].price, price)
  {
    FlattenEvery(Segments(isBid, levels)[..Walk(isBid, price, |levels|)],
                 (o: RestingOrder) => Better(isBid, o.price, price));
  }

  lemma {:induction false} BehindIsWorse(isBid: bool, levels: seq<Level>, price: int)
    requires 0 <= price < |levels|
    ensures forall i :: 0 <= i < |Behind(isBid, levels, price)| ==>
              Better(isBid, price, Behind(isBid, levels, price)[i].price)
  {
    FlattenEvery(Segments(isBid, levels)[Walk(isBid, price, |levels|) + 1..],
                 (o: RestingOrder) => Better(isBid, price, o.price));
  }

  /** Nothing is ahead of a price when every level ahead of it holds nothing of the side. */
  lemma {:induction false} NothingAhead(isBid: bool, levels: seq<Level>, price: int)
    requires 0 <= price < |levels|
    requires forall p :: 0 <= p < |levels| && Better(isBid, p, price) ==> !HoldsSide(isBid, levels[p])
    ensures Ahead(isBid, levels, price) == []
  {
    var xs := Segments(isBid, levels)[..Walk(isBid, price, |levels|)];
    forall r | 0 <= r < |xs| ensures xs[r] == [] {
      assert !HoldsSide(isBid, levels[Walk(isBid, r, |levels|)]);
    }
    FlattenEmpty(xs);
  }

  /** Changing one level within one side changes that segment of that side and nothing else. */
  lemma {:induction false} SetLevel(isBid: bool, levels: seq<Level>, price: int, level: Level)
    requires 0 <= price < |levels|
    requires Uniform(isBid, levels[price]) && Uniform(isBid, level)
    ensures var after := levels[price := level];
            && SideOf(!isBid, after) == SideOf(!isBid, levels)
            && Ahead(isBid, after, price) == Ahead(isBid, levels, price)
            && Behind(isBid, after, price) == Behind(isBid, levels, price)
            && SideOf(isBid, after)
               == Ahead(isBid, levels, price) + Segment(isBid, level, price) + Behind(isBid, levels, price)
            && (OneSided(levels) ==> OneSided(after))
  {
    var after := levels[price := level];
    var r := Walk(isBid, price, |levels|);
    assert Segments(!isBid, after) == Segments(!isBid, levels);
    assert Segments(isBid, after)[..r] == Segments(isBid, levels)[..r];
    assert Segments(isBid, after)[r + 1..] == Segments(isBid, levels)[r + 1..];
    SideAround(isBid, after, price);
  }

  /** An order at a level is on its side of the book. */
  lemma {:induction false} LevelOrderIsResting(isBid: bool, levels: seq<Level>, price: int, k: int)
    requires 0 <= price < |levels| && 0 <= k < |levels[price]|
    requires Uniform(isBid, levels[price])
    ensures var i := |Ahead(isBid, levels, price)| + k;
            i < |SideOf(isBid, levels)| && SideOf(isBid, levels)[i] == RestingOrder(levels[price][k], price)
  {
    SideAround(isBid, levels, price);
  }

  /** The top level is the last one of the asks and the first one of the bids. */
  lemma {:induction false} SideWithTop(levels: seq<Level>)
    requires levels != []
    ensures var n := |levels| - 1;
            && SideOf(false, levels) == SideOf(false, levels[..n]) + Segment(false, levels[n], n)
            && SideOf(true, levels) == Segment(true, levels[n], n) + SideOf(true, levels[..n])
  {
    var n := |levels| - 1;
    var asks, bids := Segment(false, levels[n], n), Segment(true, levels[n], n);
    assert Segments(false, levels) == Segments(false, levels[..n]) + [asks];
    assert Segments(true, levels) == [bids] + Segments(true, levels[..n]);
    FlattenConcat(Segments(false, levels[..n]), [asks]);
    FlattenConcat([bids], Segments(true, levels[..n]));
    FlattenOne(asks);
    FlattenOne(bids);
  }

  /** The two sides between them have all the orders of the levels. */
  lemma {:induction false} SidesAreLevels(levels: seq<Level>)
    requires OneSided(levels)
    ensures |SideOf(false, levels)| + |SideOf(true, levels)| == |Flatten(levels)|
  {
    if levels != [] {
      var n := |levels| - 1;
      SidesAreLevels(levels[..n]);
      SideWithTop(levels);
      FlattenConcat(levels[..n], [levels[n]]);
      FlattenOne(levels[n]);
      assert levels == levels[..n] + [levels[n]];
      assert Uniform(true, levels[n]) || Uniform(false, levels[n]);
    }
  }

  lemma {:induction false} FlattenOne<T>(x: seq<T>)
    ensures Flatten([x]) == x
  {
    assert [x][1..] == [];
    assert Flatten([x]) == x + Flatten<T>([]);
  }

  /** A property of every order of every level holds of every resting order. */
  lemma {:induction false} EveryResting(isBid: bool, levels: seq<Level>, p: RestingOrder -> bool)
    requires forall q, k :: 0 <= q < |levels| && 0 <= k < |levels[q]| && HoldsSide(isBid, levels[q]) ==>
               p(RestingOrder(levels[q][k], q))
    ensures forall i :: 0 <= i < |SideOf(isBid, levels)| ==> p(SideOf(isBid, levels)[i])
  {
    var xs := Segments(isBid, levels);
    forall r, k | 0 <= r < |xs| && 0 <= k < |xs[r]| ensures p(xs[r][k]) {
      var q := Walk(isBid, r, |levels|);
      assert p(RestingOrder(levels[q][k], q));
    }
    FlattenEvery(xs, p);
  }
}
