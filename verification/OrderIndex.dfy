/**
 What the nodes of the arena say about orders: the levels they spell out, and the id index.
 Index entries are never cleared; an entry counts only while the node it names carries that id.
 */
module OrderIndex {
  import opened MatcherTypes
  import opened NodeLists
  import opened NodeArena
  import opened PriceLevels
  import opened BookState

  function OrdersOf(nodes: seq<OrderNode>, list: seq<int>): Level {
    seq(|list|, i requires 0 <= i < |list| => if 0 <= list[i] < |nodes| then nodes[list[i]].order else BLANK)
  }

  function LevelsOf(nodes: seq<OrderNode>, lists: seq<seq<int>>): seq<Level> {
    seq(|lists|, l requires 0 <= l < |lists| => OrdersOf(nodes, lists[l]))
  }

  /** The arena with every node in a list: nothing held by the caller. */
  ghost predicate Arranged(nodes: seq<OrderNode>, lists: seq<seq<int>>, free: seq<seq<int>>, base: nat, perLevel: nat) {
    && perLevel > 0 && |lists| == |free| && |nodes| == base + |lists|
    && (forall l {:trigger At(l)} :: At(l) && 0 <= l < |lists| ==>
          Partitioned(lists[l], free[l], NULL, l, base, perLevel))
    && (forall n {:trigger At(n)} :: At(n) && 0 <= n < base ==> 0 <= LevelOf(n, perLevel) < |lists|)
  }

  ghost predicate Named(nodes: seq<OrderNode>, list: seq<int>) {
    forall k :: 0 <= k < |list| ==> 0 <= list[k] < |nodes| && nodes[list[k]].order.id != 0
  }

  ghost predicate Blank(nodes: seq<OrderNode>, list: seq<int>) {
    forall k :: 0 <= k < |list| ==> 0 <= list[k] < |nodes| && nodes[list[k]].order == BLANK
  }

  /** Every id carried by a node leads the index back to the node. */
  ghost predicate Leads(nodes: seq<OrderNode>, index: seq<int>, base: nat)
    requires base <= |nodes|
  {
    && |index| > 0 && index[0] == NULL
    && (forall x :: 0 <= x < |index| ==> index[x] == NULL || 0 <= index[x] < base)
    && (forall n {:trigger nodes[n].order.id} :: 0 <= n < base && nodes[n].order.id != 0 ==>
          nodes[n].order.id < |index| && index[nodes[n].order.id] == n)
  }

  /** A node carries an id exactly when it is in an order list, and then the index finds it by that id. */
  ghost predicate Indexed(nodes: seq<OrderNode>, lists: seq<seq<int>>, free: seq<seq<int>>, index: seq<int>,
                          base: nat, perLevel: nat) {
    && Arranged(nodes, lists, free, base, perLevel)
    && Leads(nodes, index, base)
    && (forall l {:trigger At(l)} :: At(l) && 0 <= l < |lists| ==> Named(nodes, lists[l]) && Blank(nodes, free[l]))
  }

  /** The levels after the nodes of one level changed. */
  lemma {:induction false} LevelsStep(nodes: seq<OrderNode>, after: seq<OrderNode>, lists: seq<seq<int>>,
                                      l: int, list: seq<int>)
    requires 0 <= l < |lists| && |after| == |nodes|
    requires forall m, k {:trigger lists[m][k]} :: 0 <= m < |lists| && m != l && 0 <= k < |lists[m]| ==>
               0 <= lists[m][k] < |nodes| && after[lists[m][k]].order == nodes[lists[m][k]].order
    ensures LevelsOf(after, lists[l := list]) == LevelsOf(nodes, lists)[l := OrdersOf(after, list)]
  {
    forall m | 0 <= m < |lists| && m != l ensures OrdersOf(after, lists[m]) == OrdersOf(nodes, lists[m]) {}
  }

  lemma {:induction false} InLevel(nodes: seq<OrderNode>, lists: seq<seq<int>>, free: seq<seq<int>>,
                                   base: nat, perLevel: nat, p: int, k: int)
    requires Arranged(nodes, lists, free, base, perLevel)
    requires 0 <= p < |lists| && 0 <= k < |lists[p]|
    ensures Distinct(lists[p]) && 0 <= lists[p][k] < base && LevelOf(lists[p][k], perLevel) == p
    ensures LevelsOf(nodes, lists)[p][k] == nodes[lists[p][k]].order
  {
    assert At(p);
  }

  lemma {:induction false} IdsUnique(nodes: seq<OrderNode>, lists: seq<seq<int>>, free: seq<seq<int>>, index: seq<int>,
                                     base: nat, perLevel: nat)
    requires Indexed(nodes, lists, free, index, base, perLevel)
    ensures UniqueIds(LevelsOf(nodes, lists))
  {
    var levels: seq<Level> := LevelsOf(nodes, lists);
    forall p: int, k: int, q: int, j: int {:trigger levels[p][k].id, levels[q][j].id}
      | && 0 <= p < |levels| && 0 <= k < |levels[p]| && 0 <= q < |levels| && 0 <= j < |levels[q]|
        && levels[p][k].id == levels[q][j].id
      ensures p == q && k == j
    {
      InLevel(nodes, lists, free, base, perLevel, p, k);
      InLevel(nodes, lists, free, base, perLevel, q, j);
      assert At(p);
      assert nodes[lists[p][k]].order.id != 0;
      assert lists[p][k] == lists[q][j];
    }
  }

  /** A node that carries an id is in the order list of its level. */
  lemma {:induction false} Located(nodes: seq<OrderNode>, lists: seq<seq<int>>, free: seq<seq<int>>, index: seq<int>,
                                   base: nat, perLevel: nat, n: int) returns (k: int)
    requires Indexed(nodes, lists, free, index, base, perLevel)
    requires 0 <= n < base && nodes[n].order.id != 0
    ensures var l := LevelOf(n, perLevel);
            && 0 <= l < |lists| && 0 <= k < |lists[l]| && lists[l][k] == n
            && LevelsOf(nodes, lists)[l][k] == nodes[n].order
  {
    assert At(n);
    var l := LevelOf(n, perLevel);
    assert At(l);
    k :| 0 <= k < |lists[l]| && lists[l][k] == n;
  }

  /** If the index leads to no node with this id, no level carries it. */
  lemma {:induction false} NotIndexed(nodes: seq<OrderNode>, lists: seq<seq<int>>, free: seq<seq<int>>, index: seq<int>,
                                      base: nat, perLevel: nat, id: nat)
    requires Indexed(nodes, lists, free, index, base, perLevel) && id < |index|
    requires index[id] == NULL || nodes[index[id]].order.id != id
    ensures var levels := LevelsOf(nodes, lists);
            forall p, k :: 0 <= p < |levels| && 0 <= k < |levels[p]| ==> levels[p][k].id != id
  {
    var levels: seq<Level> := LevelsOf(nodes, lists);
    forall p, k | 0 <= p < |levels| && 0 <= k < |levels[p]| ensures levels[p][k].id != id {
      InLevel(nodes, lists, free, base, perLevel, p, k);
      assert At(p);
      assert nodes[lists[p][k]].order.id != 0;
    }
  }

  /** The lots of a listed node may change, its id may not. */
  lemma {:induction false} IndexAfterShrink(nodes: seq<OrderNode>, after: seq<OrderNode>, lists: seq<seq<int>>,
                                            free: seq<seq<int>>, index: seq<int>, base: nat, perLevel: nat, n: int)
    requires Indexed(nodes, lists, free, index, base, perLevel)
    requires |after| == |nodes| && 0 <= n < base && nodes[n].order.id != 0
    requires forall m :: 0 <= m < |nodes| && m != n ==> after[m].order == nodes[m].order
    requires after[n].order.id == nodes[n].order.id
    ensures Indexed(after, lists, free, index, base, perLevel)
  {
    forall m {:trigger after[m].order.id} | 0 <= m < base && after[m].order.id != 0
      ensures after[m].order.id < |index| && index[after[m].order.id] == m
    {
      assert nodes[m].order.id == after[m].order.id;
    }
    forall l {:trigger At(l)} | At(l) && 0 <= l < |lists| ensures Named(after, lists[l]) && Blank(after, free[l]) {}
  }

  /** A listed node moves to its level's free list and is blanked. */
  lemma {:induction false} IndexAfterRelease(nodes: seq<OrderNode>, after: seq<OrderNode>, lists: seq<seq<int>>,
                                             free: seq<seq<int>>, index: seq<int>, base: nat, perLevel: nat,
                                             l: int, k: int)
    requires Indexed(nodes, lists, free, index, base, perLevel)
    requires 0 <= l < |lists| && 0 <= k < |lists[l]| && |after| == |nodes|
    requires 0 <= lists[l][k] < |nodes| && after[lists[l][k]].order == BLANK
    requires forall m :: 0 <= m < |nodes| && m != lists[l][k] ==> after[m].order == nodes[m].order
    requires Arranged(after, lists[l := RemoveAt(lists[l], k)], free[l := [lists[l][k]] + free[l]], base, perLevel)
    ensures Indexed(after, lists[l := RemoveAt(lists[l], k)], free[l := [lists[l][k]] + free[l]], index, base, perLevel)
  {
    var n, lists', free' := lists[l][k], lists[l := RemoveAt(lists[l], k)], free[l := [lists[l][k]] + free[l]];
    LeadsStill(nodes, after, index, base, n);
    assert At(l);
    forall p {:trigger At(p)} | At(p) && 0 <= p < |lists'| ensures Named(after, lists'[p]) && Blank(after, free'[p]) {
      if p == l {
        NamedWithout(nodes, after, lists[l], k);
        BlankWith(nodes, after, free[l], n);
      } else {
        AwayFrom(nodes, after, lists[p], p, n, l, base, perLevel);
        AwayFrom(nodes, after, free[p], p, n, l, base, perLevel);
      }
    }
  }

  lemma {:induction false} LeadsStill(nodes: seq<OrderNode>, after: seq<OrderNode>, index: seq<int>, base: nat, n: int)
    requires base <= |nodes| == |after| && Leads(nodes, index, base)
    requires 0 <= n < |nodes| && after[n].order == BLANK
    requires forall m :: 0 <= m < |nodes| && m != n ==> after[m].order == nodes[m].order
    ensures Leads(after, index, base)
  {
    forall m {:trigger after[m].order.id} | 0 <= m < base && after[m].order.id != 0
      ensures after[m].order.id < |index| && index[after[m].order.id] == m
    {
      assert nodes[m].order.id == after[m].order.id;
    }
  }

  lemma {:induction false} NamedWithout(nodes: seq<OrderNode>, after: seq<OrderNode>, list: seq<int>, k: int)
    requires Named(nodes, list) && Distinct(list) && 0 <= k < |list| && |after| == |nodes|
    requires forall m :: 0 <= m < |nodes| && m != list[k] ==> after[m].order == nodes[m].order
    ensures Named(after, RemoveAt(list, k))
  {
    var shorter := RemoveAt(list, k);
    forall j | 0 <= j < |shorter| ensures 0 <= shorter[j] < |after| && after[shorter[j]].order.id != 0 {
      assert shorter[j] == list[if j < k then j else j + 1];
    }
  }

  lemma {:induction false} BlankWith(nodes: seq<OrderNode>, after: seq<OrderNode>, free: seq<int>, n: int)
    requires Blank(nodes, free) && |after| == |nodes| && 0 <= n < |nodes| && after[n].order == BLANK
    requires forall m :: 0 <= m < |nodes| && m != n ==> after[m].order == nodes[m].order
    ensures Blank(after, [n] + free)
  {
  }

  /** Nodes of another level keep their orders. */
  lemma {:induction false} AwayFrom(nodes: seq<OrderNode>, after: seq<OrderNode>, list: seq<int>, p: int, n: int,
                                    l: int, base: nat, perLevel: nat)
    requires perLevel > 0 && p != l && |after| == |nodes| && base <= |nodes|
    requires OfLevel(list, p, base, perLevel) && LevelOf(n, perLevel) == l
    requires forall m :: 0 <= m < |nodes| && m != n ==> after[m].order == nodes[m].order
    ensures forall k :: 0 <= k < |list| ==> 0 <= list[k] < |nodes| && after[list[k]].order == nodes[list[k]].order
  {
  }

  /** A free node takes an order and joins its level's order list, and the index names it. */
  lemma {:induction false} IndexAfterRest(nodes: seq<OrderNode>, after: seq<OrderNode>, lists: seq<seq<int>>,
                                          free: seq<seq<int>>, index: seq<int>, base: nat, perLevel: nat,
                                          l: int, order: Order)
    requires Indexed(nodes, lists, free, index, base, perLevel)
    requires 0 <= l < |lists| && free[l] != [] && |after| == |nodes|
    requires 0 < order.id < |index|
    requires index[order.id] == NULL || nodes[index[order.id]].order.id != order.id
    requires 0 <= free[l][0] < base && after[free[l][0]].order == order
    requires forall m :: 0 <= m < |nodes| && m != free[l][0] ==> after[m].order == nodes[m].order
    requires Arranged(after, lists[l := lists[l] + [free[l][0]]], free[l := free[l][1..]], base, perLevel)
    ensures Indexed(after, lists[l := lists[l] + [free[l][0]]], free[l := free[l][1..]], index[order.id := free[l][0]],
                    base, perLevel)
  {
    var n, lists', free' := free[l][0], lists[l := lists[l] + [free[l][0]]], free[l := free[l][1..]];
    LeadsAlso(nodes, after, index, base, n, order);
    assert At(l);
    forall p {:trigger At(p)} | At(p) && 0 <= p < |lists'| ensures Named(after, lists'[p]) && Blank(after, free'[p]) {
      if p == l {
        NamedWith(nodes, after, lists[l], free[l], order);
      } else {
        AwayFrom(nodes, after, lists[p], p, n, l, base, perLevel);
        AwayFrom(nodes, after, free[p], p, n, l, base, perLevel);
      }
    }
  }

  lemma {:induction false} NamedWith(nodes: seq<OrderNode>, after: seq<OrderNode>, list: seq<int>, free: seq<int>,
                                     order: Order)
    requires Named(nodes, list) && Blank(nodes, free) && |after| == |nodes| && free != [] && Distinct(free)
    requires Disjoint(list, free) && order.id != 0 && after[free[0]].order == order
    requires forall m :: 0 <= m < |nodes| && m != free[0] ==> after[m].order == nodes[m].order
    ensures Named(after, list + [free[0]]) && Blank(after, free[1..])
  {
  }

  lemma {:induction false} LeadsAlso(nodes: seq<OrderNode>, after: seq<OrderNode>, index: seq<int>, base: nat, n: int,
                                     order: Order)
    requires base <= |nodes| == |after| && Leads(nodes, index, base)
    requires 0 <= n < base && 0 < order.id < |index| && after[n].order == order
    requires index[order.id] == NULL || nodes[index[order.id]].order.id != order.id
    requires forall m :: 0 <= m < |nodes| && m != n ==> after[m].order == nodes[m].order
    ensures Leads(after, index[order.id := n], base)
  {
    var index' := index[order.id := n];
    forall m {:trigger after[m].order.id} | 0 <= m < base && after[m].order.id != 0
      ensures after[m].order.id < |index'| && index'[after[m].order.id] == m
    {
      if m != n {
        assert nodes[m].order.id == after[m].order.id;
      }
    }
  }
}
