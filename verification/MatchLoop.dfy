/** What the matching loop keeps, round by round, and what it has computed when it stops. */
module MatchLoop {
  import opened MatcherTypes
  import opened ReferenceBook
  import opened PriceLevels
  import opened BookState
  import opened FulfilledRing

  /** What stays in the resting order: the overfill, or nothing. */
  function LotsLeft(isBuy: bool, left: int): int {
    if HasSign(!isBuy, left) then left else 0
  }

  /** The message a fill against this resting order records, given the lots left on the incoming side. */
  function FillOf(isBuy: bool, head: Order, left: int): MessageResponse {
    MessageResponse(Some(Order(head.id, LotsLeft(isBuy, left))),
                    if HasSign(!isBuy, left) then PartiallyFilled else Filled)
  }

  /** The levels after the head of level h was written, and after it was dropped if used up. */
  ghost function HeadWritten(isBuy: bool, levels: seq<Level>, h: int, left: int): seq<Level>
    requires 0 <= h < |levels| && levels[h] != []
  {
    levels[h := levels[h][0 := Order(levels[h][0].id, LotsLeft(isBuy, left))]]
  }

  ghost function HeadFilled(isBuy: bool, levels: seq<Level>, h: int, left: int): seq<Level>
    requires 0 <= h < |levels| && levels[h] != []
  {
    levels[h := (if HasSign(!isBuy, left) then [Order(levels[h][0].id, left)] else []) + levels[h][1..]]
  }

  ghost function CountFilled(isBuy: bool, counts: seq<int>, left: int): seq<int>
    requires |counts| == 2
  {
    if HasSign(!isBuy, left) then counts else counts[Ix(!isBuy) := counts[Ix(!isBuy)] - 1]
  }

  ghost function Prepend(fills: seq<MessageResponse>, m: MatchResult): MatchResult {
    m.(fills := fills + m.fills)
  }

  /** One fill keeps the book in order and is one step of the reference match. */
  lemma {:induction false} FillStep(isBuy: bool, levels: seq<Level>, counts: seq<int>, best: seq<int>, newLots: int,
                                    limit: int)
    requires StateOk(levels, counts, best) && HasSign(isBuy, newLots) && -INT64_MAX <= newLots <= INT64_MAX
    requires best[Ix(!isBuy)] != INVALID_BEST && levels[best[Ix(!isBuy)]] != []
    requires Within(isBuy, best[Ix(!isBuy)], limit)
    ensures var h := best[Ix(!isBuy)];
            var head := levels[h][0];
            var left := newLots + head.lots;
            var after := HeadFilled(isBuy, levels, h, left);
            && HasSign(!isBuy, head.lots) && -INT64_MAX <= left <= INT64_MAX
            && StateOk(after, CountFilled(isBuy, counts, left), best)
            && SideOf(isBuy, after) == SideOf(isBuy, levels)
            && Match(isBuy, SideOf(!isBuy, levels), newLots, limit)
               == Prepend([FillOf(isBuy, head, left)], Match(isBuy, SideOf(!isBuy, after), left, limit))
  {
    var h := best[Ix(!isBuy)];
    var head := levels[h][0];
    var left := newLots + head.lots;
    HeadOfSide(!isBuy, levels, best);
    if HasSign(!isBuy, left) {
      ShrinkHead(!isBuy, levels, counts, best, Order(head.id, left));
    } else {
      PopHead(!isBuy, levels, counts, best);
      assert [] + levels[h][1..] == levels[h][1..];
    }
  }

  /** How many levels a walk from the hint has still to visit. */
  function LevelsAhead(isBid: bool, hint: int, n: int): int {
    if hint == INVALID_BEST then 0 else if isBid then hint + 1 else n - hint
  }

  /** The state a match starts from. */
  datatype Start = Start(book: Book, ring: seq<MessageResponse>, w: nat, ownHint: int)

  /** The state of a match: levels, counts, hints, ring and write counter, and its progress. */
  datatype Progress = Progress(levels: seq<Level>, counts: seq<int>, best: seq<int>, ring: seq<MessageResponse>, w: nat,
                               newLots: int, fills: seq<MessageResponse>, rounds: nat)

  /** The fills so far, followed by a match of what is left, are the match of the whole order. */
  ghost predicate MatchingBook(s: Start, order: Order, limit: int, p: Progress) {
    var isBuy := order.lots > 0;
    && StateOk(p.levels, p.counts, p.best)
    && -INT64_MAX <= p.newLots <= INT64_MAX
    && MatchOn(s.book, order, limit) == Prepend(p.fills, Match(isBuy, SideOf(!isBuy, p.levels), p.newLots, limit))
    && SideOf(isBuy, p.levels) == s.book.Side(isBuy)
    && p.best[Ix(isBuy)] == s.ownHint
  }

  /** The ring holds the fills so far, and the rounds are the fills and the levels walked. */
  ghost predicate MatchingRing(s: Start, isBuy: bool, p: Progress)
    requires |p.best| == 2
  {
    && s.ring != [] && p.ring == Recorded(s.ring, s.w, p.fills) && p.w == s.w + |p.fills|
    && p.rounds + LevelsAhead(!isBuy, p.best[Ix(!isBuy)], |p.levels|) <= |p.fills| + |p.levels|
  }

  ghost predicate Matching(s: Start, order: Order, limit: int, p: Progress) {
    MatchingBook(s, order, limit, p) && MatchingRing(s, order.lots > 0, p)
  }

  lemma {:induction false} MatchingStarts(s: Start, order: Order, limit: int, p: Progress)
    requires order.lots != 0 && -INT64_MAX <= order.lots <= INT64_MAX
    requires StateOk(p.levels, p.counts, p.best)
             && s == Start(BookOf(p.levels), p.ring, p.w, p.best[Ix(order.lots > 0)])
    requires p.ring != [] && p.newLots == order.lots && p.fills == [] && p.rounds == 0
    ensures Matching(s, order, limit, p)
  {
    var m := MatchOn(s.book, order, limit);
    assert [] + m.fills == m.fills;
  }

  /** The progress after a fill against the first order at the opposite hint. */
  ghost function AfterFill(isBuy: bool, p: Progress): Progress
    requires |p.best| == |p.counts| == 2 && p.ring != []
    requires 0 <= p.best[Ix(!isBuy)] < |p.levels| && p.levels[p.best[Ix(!isBuy)]] != []
  {
    var h := p.best[Ix(!isBuy)];
    var head := p.levels[h][0];
    var left := p.newLots + head.lots;
    var fill := FillOf(isBuy, head, left);
    Progress(HeadFilled(isBuy, p.levels, h, left), CountFilled(isBuy, p.counts, left), p.best,
             p.ring[p.w % |p.ring| := fill], p.w + 1, left, p.fills + [fill], p.rounds + 1)
  }

  lemma {:induction false} FillRound(s: Start, order: Order, limit: int, p: Progress)
    requires Matching(s, order, limit, p) && HasSign(order.lots > 0, p.newLots)
    requires var h := p.best[Ix(order.lots <= 0)];
             h != INVALID_BEST && p.levels[h] != [] && Within(order.lots > 0, h, limit)
    ensures HasSign(order.lots <= 0, p.levels[p.best[Ix(order.lots <= 0)]][0].lots)
    ensures Matching(s, order, limit, AfterFill(order.lots > 0, p))
  {
    FillRoundBook(s, order, limit, p);
    FillRoundRing(s, order.lots > 0, p);
  }

  lemma {:induction false} FillRoundRing(s: Start, isBuy: bool, p: Progress)
    requires |p.best| == |p.counts| == 2 && MatchingRing(s, isBuy, p)
    requires 0 <= p.best[Ix(!isBuy)] < |p.levels| && p.levels[p.best[Ix(!isBuy)]] != []
    ensures MatchingRing(s, isBuy, AfterFill(isBuy, p))
  {
    var head := p.levels[p.best[Ix(!isBuy)]][0];
    RecordedSnoc(s.ring, s.w, p.fills, FillOf(isBuy, head, p.newLots + head.lots));
  }

  lemma {:induction false} FillRoundBook(s: Start, order: Order, limit: int, p: Progress)
    requires MatchingBook(s, order, limit, p) && HasSign(order.lots > 0, p.newLots) && p.ring != []
    requires var h := p.best[Ix(order.lots <= 0)];
             h != INVALID_BEST && p.levels[h] != [] && Within(order.lots > 0, h, limit)
    ensures HasSign(order.lots <= 0, p.levels[p.best[Ix(order.lots <= 0)]][0].lots)
    ensures MatchingBook(s, order, limit, AfterFill(order.lots > 0, p))
  {
    var isBuy := order.lots > 0;
    var h := p.best[Ix(!isBuy)];
    FillStep(isBuy, p.levels, p.counts, p.best, p.newLots, limit);
    FillPrepends(s, order, limit, p, p.newLots + p.levels[h][0].lots);
  }

  /** After one more fill, the fills so far and the match of what is left are still the match of the whole. */
  lemma {:induction false} FillPrepends(s: Start, order: Order, limit: int, p: Progress, left: int)
    requires var isBuy := order.lots > 0;
             MatchOn(s.book, order, limit) == Prepend(p.fills, Match(isBuy, SideOf(!isBuy, p.levels), p.newLots, limit))
    requires |p.best| == 2
    requires var h := p.best[Ix(order.lots <= 0)]; 0 <= h < |p.levels| && p.levels[h] != []
    requires var isBuy := order.lots > 0;
             var h := p.best[Ix(!isBuy)];
             Match(isBuy, SideOf(!isBuy, p.levels), p.newLots, limit)
             == Prepend([FillOf(isBuy, p.levels[h][0], left)],
                        Match(isBuy, SideOf(!isBuy, HeadFilled(isBuy, p.levels, h, left)), left, limit))
    ensures var isBuy := order.lots > 0;
            var h := p.best[Ix(!isBuy)];
            MatchOn(s.book, order, limit)
            == Prepend(p.fills + [FillOf(isBuy, p.levels[h][0], left)],
                       Match(isBuy, SideOf(!isBuy, HeadFilled(isBuy, p.levels, h, left)), left, limit))
  {
    var isBuy := order.lots > 0;
    var h := p.best[Ix(!isBuy)];
    PrependAssoc(p.fills, FillOf(isBuy, p.levels[h][0], left),
                 Match(isBuy, SideOf(!isBuy, HeadFilled(isBuy, p.levels, h, left)), left, limit));
  }

  lemma {:induction false} PrependAssoc(fills: seq<MessageResponse>, fill: MessageResponse, m: MatchResult)
    ensures Prepend(fills, Prepend([fill], m)) == Prepend(fills + [fill], m)
  {
    assert fills + ([fill] + m.fills) == (fills + [fill]) + m.fills;
  }

  lemma {:induction false} RecordedSnoc(ring: seq<MessageResponse>, w: nat, fills: seq<MessageResponse>,
                                        fill: MessageResponse)
    requires |ring| > 0
    ensures Recorded(ring, w, fills + [fill]) == Recorded(ring, w, fills)[(w + |fills|) % |ring| := fill]
  {
    assert (fills + [fill])[..|fills|] == fills;
  }

  /** The hint one step further. */
  function Stepped(isBid: bool, hint: int): int {
    if isBid then hint - 1 else hint + 1
  }

  lemma {:induction false} WalkRound(s: Start, order: Order, limit: int, p: Progress)
    requires Matching(s, order, limit, p)
    requires p.counts[Ix(order.lots <= 0)] > 0
    requires p.best[Ix(order.lots <= 0)] != INVALID_BEST ==> p.levels[p.best[Ix(order.lots <= 0)]] == []
    ensures var isBid := order.lots <= 0;
            var h := Stepped(isBid, p.best[Ix(isBid)]);
            && 0 <= h < |p.levels|
            && Matching(s, order, limit, p.(best := p.best[Ix(isBid) := h], rounds := p.rounds + 1))
  {
    WalkOn(order.lots <= 0, p.levels, p.counts, p.best);
  }

  /** The loop stops when the order is filled, the side is empty, or the hint is past the limit. */
  predicate Stopped(order: Order, limit: int, counts: seq<int>, best: seq<int>, newLots: int)
    requires |counts| == 2 && |best| == 2
  {
    var isBuy := order.lots > 0;
    || !HasSign(isBuy, newLots)
    || counts[Ix(!isBuy)] == 0
    || best[Ix(!isBuy)] == INVALID_BEST
    || !Within(isBuy, best[Ix(!isBuy)], limit)
  }

  lemma {:induction false} MatchDone(s: Start, order: Order, limit: int, p: Progress)
    requires Matching(s, order, limit, p) && Stopped(order, limit, p.counts, p.best, p.newLots)
    ensures var isBuy := order.lots > 0;
            var rest := if HasSign(isBuy, p.newLots) then p.newLots else 0;
            && MatchOn(s.book, order, limit) == MatchResult(p.fills, SideOf(!isBuy, p.levels), rest)
            && BookOf(p.levels) == Matched(s.book, order, limit)
  {
    var isBuy := order.lots > 0;
    if HasSign(isBuy, p.newLots) && p.counts[Ix(!isBuy)] != 0 {
      PastLimit(!isBuy, p.levels, p.counts, p.best, p.newLots, limit);
    }
    assert p.fills + [] == p.fills;
  }

  /** The answer of a finished match. */
  function Answer(order: Order, lots: int): MessageResponse {
    var unfilled := HasSign(order.lots > 0, lots);
    MessageResponse(Some(Order(order.id, if unfilled then lots else 0)),
                    if !unfilled then Filled else if lots == order.lots then Rejected else PartiallyFilled)
  }

  /** When the loop has stopped, clearing the hint of an empty side completes the reference step. */
  lemma {:induction false} MatchAnswer(s: Start, order: Order, limit: int, p: Progress)
    requires order.lots != 0
    requires Matching(s, order, limit, p) && Stopped(order, limit, p.counts, p.best, p.newLots)
    ensures var isBuy := order.lots > 0;
            var best := if p.counts[Ix(!isBuy)] == 0 then p.best[Ix(!isBuy) := INVALID_BEST] else p.best;
            && StateOk(p.levels, p.counts, best)
            && Outcome(BookOf(p.levels), p.fills, Answer(order, p.newLots)) == Market(s.book, order, limit)
            && best[Ix(isBuy)] == s.ownHint
            && (HasSign(isBuy, p.newLots)
                ==> best[Ix(!isBuy)] == INVALID_BEST || !Within(isBuy, best[Ix(!isBuy)], limit))
            && (|SideOf(!isBuy, p.levels)| == 0 ==> best[Ix(!isBuy)] == INVALID_BEST)
            && p.ring == Recorded(s.ring, s.w, p.fills) && p.w == s.w + |p.fills|
            && p.rounds <= |p.fills| + |p.levels|
  {
    MatchDone(s, order, limit, p);
    if p.counts[Ix(order.lots <= 0)] == 0 {
      Unset(order.lots <= 0, p.levels, p.counts, p.best);
    }
  }
}
