/**
 The nodes of a book: one pool of nodes per price level, an order list and a free list per level.
 A node belongs to one level for ever and is in one of that level's two lists, or held by the caller.
 */
module NodeArena {
  import opened Arithmetic
  import opened MatcherTypes
  import opened NodeLists

  const BLANK: Order := Order(0, 0)

  function LevelOf(n: int, perLevel: nat): int
    requires perLevel > 0
  {
    n / perLevel
  }

  ghost predicate OfLevel(list: seq<int>, level: int, base: int, perLevel: nat)
    requires perLevel > 0
  {
    forall i :: 0 <= i < |list| ==> 0 <= list[i] < base && LevelOf(list[i], perLevel) == level
  }

  /** Holds of every index.  As a guard it keeps a quantified invariant folded until an index is named. */
  ghost predicate At(n: int) {
    true
  }

  ghost predicate Disjoint(list: seq<int>, free: seq<int>) {
    forall i, j :: 0 <= i < |list| && 0 <= j < |free| ==> list[i] != free[j]
  }

  ghost predicate Without(list: seq<int>, n: int) {
    forall i :: 0 <= i < |list| ==> list[i] != n
  }

  /** Every node of the level is in its order list, in its free list, or is the loose node, and in only
      one of them. */
  ghost predicate Partitioned(list: seq<int>, free: seq<int>, loose: int, level: int, base: int, perLevel: nat)
    requires perLevel > 0
  {
    && Distinct(list) && Distinct(free)
    && OfLevel(list, level, base, perLevel) && OfLevel(free, level, base, perLevel)
    && Disjoint(list, free) && Without(list, loose) && Without(free, loose)
    && (forall n {:trigger At(n)} :: At(n) && 0 <= n < base && LevelOf(n, perLevel) == level ==>
          n in list || n in free || n == loose)
    && |list| + |free| + (if 0 <= loose && LevelOf(loose, perLevel) == level then 1 else 0) == perLevel
  }

  ghost predicate LevelOk(nodes: seq<OrderNode>, head: int, list: seq<int>, free: seq<int>, loose: int,
                          level: nat, base: nat, perLevel: nat)
    requires perLevel > 0
  {
    && Ring(nodes, list, base + level)
    && Chain(nodes, free, head)
    && Partitioned(list, free, loose, level, base, perLevel)
  }

  /** Whether a node or sentinel belongs to the level. */
  ghost predicate Owns(level: nat, n: int, base: nat, perLevel: nat)
    requires perLevel > 0
  {
    n == base + level || (n < base && LevelOf(n, perLevel) == level)
  }

  /** The links of all other levels are untouched. */
  ghost predicate ChangesOnly(before: seq<OrderNode>, after: seq<OrderNode>, level: nat, base: nat, perLevel: nat)
    requires perLevel > 0
  {
    && |after| == |before|
    && forall n :: 0 <= n < |before| && !Owns(level, n, base, perLevel) ==> after[n] == before[n]
  }

  lemma {:induction false} RingFrame(nodes: seq<OrderNode>, after: seq<OrderNode>, list: seq<int>, sentinel: int)
    requires Ring(nodes, list, sentinel) && |after| == |nodes|
    requires after[sentinel].next == nodes[sentinel].next && after[sentinel].prev == nodes[sentinel].prev
    requires forall i {:trigger after[list[i]]} :: 0 <= i < |list| ==>
               after[list[i]].next == nodes[list[i]].next && after[list[i]].prev == nodes[list[i]].prev
    ensures Ring(after, list, sentinel)
  {
    forall i {:trigger after[list[i]]} | 0 <= i < |list|
      ensures after[list[i]].next == After(list, i, sentinel) && after[list[i]].prev == Before(list, i, sentinel)
    {
      assert nodes[list[i]].next == After(list, i, sentinel);
    }
  }

  lemma {:induction false} ChainFrame(nodes: seq<OrderNode>, after: seq<OrderNode>, list: seq<int>, head: int)
    requires Chain(nodes, list, head) && |after| == |nodes|
    requires forall i {:trigger after[list[i]]} :: 0 <= i < |list| ==> after[list[i]].next == nodes[list[i]].next
    ensures Chain(after, list, head)
  {
    forall i {:trigger after[list[i]]} | 0 <= i < |list| ensures after[list[i]].next == After(list, i, NULL) {
      assert nodes[list[i]].next == After(list, i, NULL);
    }
  }

  /** Work on one level leaves the others in order. */
  lemma {:induction false} OtherLevel(nodes: seq<OrderNode>, after: seq<OrderNode>, head: int, list: seq<int>,
                                      free: seq<int>, loose: int, loose': int, level: nat, touched: nat,
                                      base: nat, perLevel: nat)
    requires perLevel > 0 && level != touched && base + level < |nodes|
    requires LevelOk(nodes, head, list, free, loose, level, base, perLevel)
    requires ChangesOnly(nodes, after, touched, base, perLevel)
    requires loose == NULL || (0 <= loose && LevelOf(loose, perLevel) == touched)
    requires loose' == NULL || (0 <= loose' && LevelOf(loose', perLevel) == touched)
    ensures LevelOk(after, head, list, free, loose', level, base, perLevel)
  {
    Untouched(nodes, after, list, level, touched, base, perLevel);
    Untouched(nodes, after, free, level, touched, base, perLevel);
    RingFrame(nodes, after, list, base + level);
    ChainFrame(nodes, after, free, head);
    OtherPartition(list, free, loose, loose', level, touched, base, perLevel);
  }

  lemma {:induction false} Untouched(nodes: seq<OrderNode>, after: seq<OrderNode>, list: seq<int>, level: nat,
                                     touched: nat, base: nat, perLevel: nat)
    requires perLevel > 0 && level != touched && base + level < |nodes|
    requires OfLevel(list, level, base, perLevel) && ChangesOnly(nodes, after, touched, base, perLevel)
    ensures after[base + level] == nodes[base + level]
    ensures forall i {:trigger after[list[i]]} :: 0 <= i < |list| ==> after[list[i]] == nodes[list[i]]
  {
  }

  lemma {:induction false} OtherPartition(list: seq<int>, free: seq<int>, loose: int, loose': int, level: nat,
                                          touched: nat, base: nat, perLevel: nat)
    requires perLevel > 0 && level != touched
    requires Partitioned(list, free, loose, level, base, perLevel)
    requires loose == NULL || (0 <= loose && LevelOf(loose, perLevel) == touched)
    requires loose' == NULL || (0 <= loose' && LevelOf(loose', perLevel) == touched)
    ensures Partitioned(list, free, loose', level, base, perLevel)
  {
    forall n {:trigger At(n)} | At(n) && 0 <= n < base && LevelOf(n, perLevel) == level ensures n in list || n in free {
    }
  }

  lemma {:induction false} AppendPartition(list: seq<int>, free: seq<int>, n: int, level: nat, base: nat, perLevel: nat)
    requires perLevel > 0 && 0 <= n < base && LevelOf(n, perLevel) == level
    requires Partitioned(list, free, n, level, base, perLevel)
    ensures Partitioned(list + [n], free, NULL, level, base, perLevel)
  {
    var longer := list + [n];
    forall m {:trigger At(m)} | At(m) && 0 <= m < base && LevelOf(m, perLevel) == level
      ensures m in longer || m in free
    {
      assert m == n ==> longer[|list|] == m;
      assert m in list ==> m in longer;
    }
  }

  lemma {:induction false} RemovePartition(list: seq<int>, free: seq<int>, k: int, level: nat, base: nat, perLevel: nat)
    requires perLevel > 0 && 0 <= k < |list|
    requires Partitioned(list, free, NULL, level, base, perLevel)
    ensures Partitioned(RemoveAt(list, k), free, list[k], level, base, perLevel)
  {
    var shorter := RemoveAt(list, k);
    RemovedFrom(list, k);
    forall i | 0 <= i < |shorter| ensures shorter[i] == list[if i < k then i else i + 1] {}
    forall n {:trigger At(n)} | At(n) && 0 <= n < base && LevelOf(n, perLevel) == level
      ensures n in shorter || n in free || n == list[k]
    {
    }
  }

  lemma {:induction false} RemovedFrom(list: seq<int>, k: int)
    requires 0 <= k < |list|
    ensures forall n :: n in list && n != list[k] ==> n in RemoveAt(list, k)
  {
    forall n | n in list && n != list[k] ensures n in RemoveAt(list, k) {
      var i :| 0 <= i < |list| && list[i] == n;
      assert RemoveAt(list, k)[if i < k then i else i - 1] == n;
    }
  }

  lemma {:induction false} TakePartition(list: seq<int>, free: seq<int>, level: nat, base: nat, perLevel: nat)
    requires perLevel > 0 && free != []
    requires Partitioned(list, free, NULL, level, base, perLevel)
    ensures Partitioned(list, free[1..], free[0], level, base, perLevel)
  {
    var rest := free[1..];
    assert free == [free[0]] + rest;
    forall n {:trigger At(n)} | At(n) && 0 <= n < base && LevelOf(n, perLevel) == level
      ensures n in list || n in rest || n == free[0]
    {
    }
  }

  lemma {:induction false} ReleasePartition(list: seq<int>, free: seq<int>, n: int, level: nat, base: nat,
                                            perLevel: nat)
    requires perLevel > 0 && 0 <= n < base && LevelOf(n, perLevel) == level
    requires Partitioned(list, free, n, level, base, perLevel)
    ensures Partitioned(list, [n] + free, NULL, level, base, perLevel)
  {
    var longer := [n] + free;
    forall m {:trigger At(m)} | At(m) && 0 <= m < base && LevelOf(m, perLevel) == level
      ensures m in list || m in longer
    {
      assert m == n ==> longer[0] == m;
    }
  }

  lemma {:induction false} AppendLevel(nodes: seq<OrderNode>, head: int, list: seq<int>, free: seq<int>, n: int,
                                       level: nat, base: nat, perLevel: nat)
    requires perLevel > 0 && base + level < |nodes|
    requires LevelOk(nodes, head, list, free, n, level, base, perLevel)
    requires 0 <= n < base && LevelOf(n, perLevel) == level
    ensures 0 <= nodes[base + level].prev < |nodes|
    ensures LevelOk(Appended(nodes, base + level, n), head, list + [n], free, NULL, level, base, perLevel)
    ensures ChangesOnly(nodes, Appended(nodes, base + level, n), level, base, perLevel)
  {
    AppendToRing(nodes, list, base + level, n);
    AppendPartition(list, free, n, level, base, perLevel);
    ChainFrame(nodes, Appended(nodes, base + level, n), free, head);
  }

  lemma {:induction false} UnlinkLevel(nodes: seq<OrderNode>, head: int, list: seq<int>, free: seq<int>, k: int,
                                       level: nat, base: nat, perLevel: nat)
    requires perLevel > 0 && base + level < |nodes| && 0 <= k < |list|
    requires LevelOk(nodes, head, list, free, NULL, level, base, perLevel)
    ensures var n := list[k]; 0 <= nodes[n].prev < |nodes| && 0 <= nodes[n].next < |nodes| && nodes[n].prev != n
    ensures LevelOk(Unlinked(nodes, list[k]), head, RemoveAt(list, k), free, list[k], level, base, perLevel)
    ensures ChangesOnly(nodes, Unlinked(nodes, list[k]), level, base, perLevel)
  {
    UnlinkFromRing(nodes, list, base + level, k);
    UnlinkTouches(nodes, head, list, free, k, level, base, perLevel);
    RemovePartition(list, free, k, level, base, perLevel);
  }

  lemma {:induction false} UnlinkTouches(nodes: seq<OrderNode>, head: int, list: seq<int>, free: seq<int>, k: int,
                                         level: nat, base: nat, perLevel: nat)
    requires perLevel > 0 && base + level < |nodes| && 0 <= k < |list|
    requires Ring(nodes, list, base + level) && Chain(nodes, free, head) && Distinct(list)
    requires OfLevel(list, level, base, perLevel) && OfLevel(free, level, base, perLevel) && Disjoint(list, free)
    requires var n := list[k]; 0 <= nodes[n].prev < |nodes| && 0 <= nodes[n].next < |nodes| && nodes[n].prev != n
    ensures ChangesOnly(nodes, Unlinked(nodes, list[k]), level, base, perLevel)
    ensures Chain(Unlinked(nodes, list[k]), free, head)
  {
    UnlinkNeighbours(nodes, list, base + level, k);
    ChainFrame(nodes, Unlinked(nodes, list[k]), free, head);
  }

  lemma {:induction false} TakeLevel(nodes: seq<OrderNode>, head: int, list: seq<int>, free: seq<int>,
                                     level: nat, base: nat, perLevel: nat)
    requires perLevel > 0 && base + level < |nodes| && free != []
    requires LevelOk(nodes, head, list, free, NULL, level, base, perLevel)
    ensures head == free[0] && 0 <= head < base
    ensures LevelOk(SetNext(nodes, head, NULL), nodes[head].next, list, free[1..], head, level, base, perLevel)
    ensures ChangesOnly(nodes, SetNext(nodes, head, NULL), level, base, perLevel)
  {
    RingFrame(nodes, SetNext(nodes, head, NULL), list, base + level);
    TakePartition(list, free, level, base, perLevel);
    TakeChain(nodes, head, free);
  }

  lemma {:induction false} TakeChain(nodes: seq<OrderNode>, head: int, free: seq<int>)
    requires free != [] && Chain(nodes, free, head) && Distinct(free)
    ensures 0 <= head < |nodes| && Chain(SetNext(nodes, head, NULL), free[1..], nodes[head].next)
  {
    assert nodes[free[0]].next == After(free, 0, NULL);
    var after, rest := SetNext(nodes, head, NULL), free[1..];
    forall i {:trigger after[rest[i]]} | 0 <= i < |rest| ensures after[rest[i]].next == After(rest, i, NULL) {
      assert nodes[free[i + 1]].next == After(free, i + 1, NULL);
    }
  }

  lemma {:induction false} ReleaseLevel(nodes: seq<OrderNode>, head: int, list: seq<int>, free: seq<int>, n: int,
                                        level: nat, base: nat, perLevel: nat)
    requires perLevel > 0 && base + level < |nodes|
    requires LevelOk(nodes, head, list, free, n, level, base, perLevel)
    requires 0 <= n < base && LevelOf(n, perLevel) == level
    ensures var after := nodes[n := OrderNode(BLANK, head, nodes[n].prev)];
            && LevelOk(after, n, list, [n] + free, NULL, level, base, perLevel)
            && ChangesOnly(nodes, after, level, base, perLevel)
  {
    RingFrame(nodes, nodes[n := OrderNode(BLANK, head, nodes[n].prev)], list, base + level);
    ReleasePartition(list, free, n, level, base, perLevel);
    ReleaseChain(nodes, head, free, n);
  }

  lemma {:induction false} ReleaseChain(nodes: seq<OrderNode>, head: int, free: seq<int>, n: int)
    requires Chain(nodes, free, head) && Without(free, n) && 0 <= n < |nodes|
    ensures Chain(nodes[n := OrderNode(BLANK, head, nodes[n].prev)], [n] + free, n)
  {
    var after, longer := nodes[n := OrderNode(BLANK, head, nodes[n].prev)], [n] + free;
    forall i {:trigger after[longer[i]]} | 0 <= i < |longer| ensures after[longer[i]].next == After(longer, i, NULL) {
      if i > 0 {
        assert longer[i] == free[i - 1];
        assert nodes[free[i - 1]].next == After(free, i - 1, NULL);
      }
    }
  }

  /** Multiplying out: node i of a level's pool belongs to that level. */
  lemma {:induction false} PoolLevel(level: nat, i: nat, levels: nat, perLevel: nat)
    requires i < perLevel && level < levels
    ensures 0 <= level * perLevel + i < levels * perLevel
    ensures LevelOf(level * perLevel + i, perLevel) == level
  {
    MulMonotone(level + 1, levels, perLevel);
    DivModUnique(level * perLevel + i, perLevel, level, i);
  }

  lemma {:induction false} NodeLevel(n: nat, levels: nat, perLevel: nat)
    requires perLevel > 0 && n < levels * perLevel
    ensures 0 <= LevelOf(n, perLevel) < levels
    ensures n == LevelOf(n, perLevel) * perLevel + n % perLevel
  {
  }

  /** The pools as the constructor leaves them: every level's nodes free, in index order. */
  function Pool(level: nat, perLevel: nat): seq<int> {
    seq(perLevel, i => level * perLevel + i)
  }

  lemma {:induction false} PoolChained(nodes: seq<OrderNode>, level: nat, start: nat, perLevel: nat)
    requires perLevel > 0 && start == level * perLevel && start + perLevel <= |nodes|
    requires forall m :: start <= m < start + perLevel - 1 ==> nodes[m].next == m + 1
    requires nodes[start + perLevel - 1].next == NULL
    ensures Chain(nodes, Pool(level, perLevel), start)
  {
  }

  lemma {:induction false} PoolBefore(l: nat, plevel: nat, perLevel: nat)
    requires l < plevel
    ensures 0 <= l * perLevel && l * perLevel + perLevel <= plevel * perLevel
  {
    MulMonotone(l + 1, plevel, perLevel);
    MulMonotone(0, l, perLevel);
  }

  /** A pool before start keeps its chain when only nodes from start on change. */
  lemma {:induction false} PoolUntouched(nodes: seq<OrderNode>, after: seq<OrderNode>, level: nat, start: nat,
                                         perLevel: nat, head: int)
    requires perLevel > 0 && level * perLevel + perLevel <= start <= |nodes| == |after|
    requires forall m :: 0 <= m < start ==> after[m] == nodes[m]
    requires Chain(nodes, Pool(level, perLevel), head)
    ensures Chain(after, Pool(level, perLevel), head)
  {
    ChainFrame(nodes, after, Pool(level, perLevel), head);
  }

  lemma {:induction false} PoolPartition(level: nat, levels: nat, perLevel: nat)
    requires 0 < perLevel && level < levels
    ensures Partitioned([], Pool(level, perLevel), NULL, level, levels * perLevel, perLevel)
  {
    var pool := Pool(level, perLevel);
    forall i | 0 <= i < |pool|
      ensures 0 <= pool[i] < levels * perLevel && LevelOf(pool[i], perLevel) == level
    {
      PoolLevel(level, i, levels, perLevel);
    }
    forall n | 0 <= n < levels * perLevel && LevelOf(n, perLevel) == level ensures n in pool {
      NodeLevel(n, levels, perLevel);
      assert pool[n % perLevel] == n;
    }
  }

  class OrdersData {
    const levels: nat
    const perLevel: nat
    /** The first sentinel; the nodes before it are the pools. */
    const base: nat
    const nodes: array<OrderNode>
    const freeHeads: array<int>

    ghost var lists: seq<seq<int>>
    ghost var free: seq<seq<int>>
    ghost var loose: int

    ghost predicate Shape()
      reads this
    {
      && 0 < perLevel && 0 < levels
      && freeHeads.Length == |lists| == |free| == levels
      && base == levels * perLevel && nodes.Length == base + levels
      && (loose == NULL || 0 <= loose < base)
    }

    ghost predicate Valid()
      reads this, nodes, freeHeads
    {
      && Shape()
      && forall l {:trigger At(l)} :: At(l) && 0 <= l < levels ==>
           LevelOk(nodes[..], freeHeads[l], lists[l], free[l], loose, l, base, perLevel)
    }

    constructor (levels: nat, perLevel: nat)
      requires 0 < levels && 0 < perLevel
      ensures Valid() && this.levels == levels && this.perLevel == perLevel && loose == NULL
      ensures fresh(nodes) && fresh(freeHeads)
      ensures forall l :: 0 <= l < levels ==> lists[l] == [] && free[l] == Pool(l, perLevel)
      ensures forall m :: 0 <= m < nodes.Length ==> nodes[m].order == BLANK
    {
      this.levels, this.perLevel, this.base := levels, perLevel, levels * perLevel;
      var first := levels * perLevel;
      nodes := new OrderNode[levels * perLevel + levels](i =>
        if i < first then OrderNode(BLANK, NULL, NULL) else OrderNode(BLANK, i, i));
      freeHeads := new int[levels](i => NULL);
      lists := seq(levels, l => []);
      free := seq(levels, l requires 0 <= l < levels => Pool(l, perLevel));
      loose := NULL;
      new;
      for plevel := 0 to levels
        invariant Building(plevel)
      {
        BuildFree(plevel);
      }
      AllFree();
    }

    /** Empty order lists and full pools are in order. */
    lemma {:induction false} AllFree()
      requires Shape() && loose == NULL
      requires forall l :: 0 <= l < levels ==> lists[l] == [] && free[l] == Pool(l, perLevel)
      requires forall m :: base <= m < nodes.Length ==> nodes[m] == OrderNode(BLANK, m, m)
      requires forall l :: 0 <= l < levels ==> Chain(nodes[..], Pool(l, perLevel), freeHeads[l])
      ensures Valid()
    {
      forall l {:trigger At(l)} | At(l) && 0 <= l < levels
        ensures LevelOk(nodes[..], freeHeads[l], lists[l], free[l], loose, l, base, perLevel)
      {
        PoolPartition(l, levels, perLevel);
        assert Ring(nodes[..], [], base + l);
      }
    }

    /** The free lists of the levels before plevel are built. */
    ghost predicate Building(plevel: nat)
      reads this, nodes, freeHeads
    {
      && Shape() && loose == NULL
      && (forall l :: 0 <= l < levels ==> lists[l] == [] && free[l] == Pool(l, perLevel))
      && (forall m :: base <= m < nodes.Length ==> nodes[m] == OrderNode(BLANK, m, m))
      && (forall m :: 0 <= m < base ==> nodes[m].order == BLANK)
      && (forall m :: plevel * perLevel <= m < base ==> nodes[m].next == NULL)
      && (forall l :: 0 <= l < plevel && l < levels ==> Chain(nodes[..], Pool(l, perLevel), freeHeads[l]))
    }

    method BuildFree(plevel: nat)
      requires Building(plevel) && plevel < levels
      modifies nodes, freeHeads
      ensures Building(plevel + 1)
    {
      ghost var was := nodes[..];
      ChainPool(plevel);
      MulMonotone(plevel, plevel + 1, perLevel);
      MulMonotone(plevel + 1, levels, perLevel);
      assert (plevel + 1) * perLevel == plevel * perLevel + perLevel;
      forall l | 0 <= l < plevel ensures Chain(nodes[..], Pool(l, perLevel), freeHeads[l]) {
        PoolBefore(l, plevel, perLevel);
        PoolUntouched(was, nodes[..], l, plevel * perLevel, perLevel, freeHeads[l]);
      }
    }

    /** Chain one level's pool into its free list. */
    method ChainPool(plevel: nat)
      requires Shape() && plevel < levels
      requires forall m :: plevel * perLevel <= m < base ==> nodes[m].next == NULL
      modifies nodes, freeHeads
      ensures Chain(nodes[..], Pool(plevel, perLevel), freeHeads[plevel])
      ensures forall m :: 0 <= m < nodes.Length ==>
                nodes[m].order == old(nodes[m].order) && nodes[m].prev == old(nodes[m].prev)
      ensures var start := plevel * perLevel;
              forall m :: 0 <= m < nodes.Length && !(start <= m < start + perLevel) ==> nodes[m] == old(nodes[m])
      ensures forall l :: 0 <= l < levels && l != plevel ==> freeHeads[l] == old(freeHeads[l])
    {
      var start := plevel * perLevel;
      MulMonotone(plevel + 1, levels, perLevel);
      assert (plevel + 1) * perLevel == start + perLevel;
      freeHeads[plevel] := start;
      LinkPool(start);
      PoolChained(nodes[..], plevel, start, perLevel);
    }

    /** Link a stretch of nodes, each to the one behind it. */
    method LinkPool(start: nat)
      requires 0 < perLevel && start + perLevel <= nodes.Length
      modifies nodes
      ensures forall m :: start <= m < start + perLevel - 1 ==> nodes[m] == old(nodes[m]).(next := m + 1)
      ensures forall m :: 0 <= m < nodes.Length && !(start <= m < start + perLevel - 1) ==> nodes[m] == old(nodes[m])
    {
      var tail := start;
      for ordIdx := 1 to perLevel
        invariant tail == start + ordIdx - 1
        invariant forall m :: start <= m < tail ==> nodes[m] == old(nodes[m]).(next := m + 1)
        invariant forall m :: 0 <= m < nodes.Length && !(start <= m < tail) ==> nodes[m] == old(nodes[m])
      {
        nodes[tail] := nodes[tail].(next := ordIdx + start);
        tail := nodes[tail].next;
      }
    }

    /** The order data of every node is what it was. */
    twostate predicate SameOrders()
      reads nodes
    {
      forall m :: 0 <= m < nodes.Length ==> nodes[m].order == old(nodes[m].order)
    }

    function Head(sentinel: int): (n: int)
      requires Valid() && base <= sentinel < nodes.Length
      reads this, nodes, freeHeads
      ensures n == After(lists[sentinel - base], -1, sentinel)
    {
      assert At(sentinel - base);
      assert LevelOk(nodes[..], freeHeads[sentinel - base], lists[sentinel - base], free[sentinel - base], loose,
                     sentinel - base, base, perLevel);
      nodes[sentinel].next
    }

    predicate IsEmpty(sentinel: int)
      requires Valid() && base <= sentinel < nodes.Length
      reads this, nodes, freeHeads
      ensures IsEmpty(sentinel) <==> lists[sentinel - base] == []
    {
      assert At(sentinel - base);
      assert LevelOk(nodes[..], freeHeads[sentinel - base], lists[sentinel - base], free[sentinel - base], loose,
                     sentinel - base, base, perLevel);
      nodes[sentinel].prev == sentinel
    }

    /** Element k of a level's list is met by going k + 1 links forward from the sentinel and, from the other end,
        backward. */
    lemma {:induction false} ListIsLinked(l: nat, k: nat)
      requires Valid() && l < levels && k < |lists[l]|
      ensures Forward(nodes[..], base + l, k + 1) == lists[l][k]
      ensures Backward(nodes[..], base + l, |lists[l]| - k) == lists[l][k]
    {
      assert At(l);
      assert LevelOk(nodes[..], freeHeads[l], lists[l], free[l], loose, l, base, perLevel);
      TraversalsMeet(nodes[..], lists[l], base + l, k);
    }

    method Append(sentinel: int, n: int)
      requires Valid() && base <= sentinel < nodes.Length
      requires n == loose != NULL && LevelOf(n, perLevel) == sentinel - base
      modifies this, nodes
      ensures Valid() && SameOrders()
      ensures var l := sentinel - base; lists == old(lists)[l := old(lists[l]) + [n]]
      ensures free == old(free) && loose == NULL
    {
      ghost var l, was := sentinel - base, nodes[..];
      assert At(l);
      assert LevelOk(was, freeHeads[l], lists[l], free[l], n, l, base, perLevel);
      AppendLevel(was, freeHeads[l], lists[l], free[l], n, l, base, perLevel);
      nodes[n] := nodes[n].(prev := nodes[sentinel].prev);
      nodes[n] := nodes[n].(next := sentinel);
      var tail := nodes[sentinel].prev;
      nodes[tail] := nodes[tail].(next := n);
      nodes[sentinel] := nodes[sentinel].(prev := n);
      assert nodes[..] == Appended(was, sentinel, n);
      loose := NULL;
      lists := lists[l := lists[l] + [n]];
      Others(was, old(lists), old(free), old(freeHeads[..]), n, l);
    }

    /** After work on one level, all the other levels are in order. */
    lemma {:induction false} Others(was: seq<OrderNode>, lists': seq<seq<int>>, free': seq<seq<int>>, heads': seq<int>,
                 loose': int, touched: nat)
      requires Shape() && touched < levels && |lists'| == |free'| == |heads'| == levels && |was| == nodes.Length
      requires forall l {:trigger At(l)} :: At(l) && 0 <= l < levels ==>
                 LevelOk(was, heads'[l], lists'[l], free'[l], loose', l, base, perLevel)
      requires ChangesOnly(was, nodes[..], touched, base, perLevel)
      requires forall l :: 0 <= l < levels && l != touched ==>
                 heads'[l] == freeHeads[l] && lists'[l] == lists[l] && free'[l] == free[l]
      requires loose == NULL || LevelOf(loose, perLevel) == touched
      requires loose' == NULL || (0 <= loose' && LevelOf(loose', perLevel) == touched)
      ensures forall l {:trigger At(l)} :: At(l) && 0 <= l < levels && l != touched ==>
                LevelOk(nodes[..], freeHeads[l], lists[l], free[l], loose, l, base, perLevel)
    {
      forall l {:trigger At(l)} | At(l) && 0 <= l < levels && l != touched
        ensures LevelOk(nodes[..], freeHeads[l], lists[l], free[l], loose, l, base, perLevel)
      {
        OtherLevel(was, nodes[..], freeHeads[l], lists[l], free[l], loose', loose, l, touched, base, perLevel);
      }
    }

    method Unlink(n: int, ghost l: nat, ghost k: nat)
      requires Valid() && loose == NULL && l < levels && k < |lists[l]| && lists[l][k] == n
      modifies this, nodes
      ensures Valid() && SameOrders()
      ensures lists == old(lists)[l := RemoveAt(old(lists[l]), k)]
      ensures free == old(free) && loose == n && 0 <= n < base && LevelOf(n, perLevel) == l
    {
      ghost var was := nodes[..];
      assert At(l);
      assert LevelOk(was, freeHeads[l], lists[l], free[l], NULL, l, base, perLevel);
      UnlinkLevel(was, freeHeads[l], lists[l], free[l], k, l, base, perLevel);
      nodes[nodes[n].prev] := nodes[nodes[n].prev].(next := nodes[n].next);
      nodes[nodes[n].next] := nodes[nodes[n].next].(prev := nodes[n].prev);
      assert nodes[..] == Unlinked(was, n);
      loose := n;
      lists := lists[l := RemoveAt(lists[l], k)];
      Others(was, old(lists), old(free), old(freeHeads[..]), NULL, l);
    }

    method GetFree(level: nat) returns (n: int)
      requires Valid() && loose == NULL && level < levels && free[level] != []
      modifies this, nodes, freeHeads
      ensures Valid() && SameOrders()
      ensures n == old(free[level][0]) == loose && 0 <= n < base && LevelOf(n, perLevel) == level
      ensures lists == old(lists) && free == old(free)[level := old(free[level][1..])]
    {
      ghost var was := nodes[..];
      assert At(level);
      assert LevelOk(was, freeHeads[level], lists[level], free[level], NULL, level, base, perLevel);
      TakeLevel(was, freeHeads[level], lists[level], free[level], level, base, perLevel);
      n := freeHeads[level];
      freeHeads[level] := nodes[n].next;
      nodes[n] := nodes[n].(next := NULL);
      assert nodes[..] == SetNext(was, n, NULL);
      loose := n;
      free := free[level := free[level][1..]];
      Others(was, old(lists), old(free), old(freeHeads[..]), NULL, level);
    }

    method ReleaseToFree(freed: int, level: nat)
      requires Valid() && level < levels && freed == loose != NULL && LevelOf(freed, perLevel) == level
      modifies this, nodes, freeHeads
      ensures Valid() && loose == NULL
      ensures lists == old(lists) && free == old(free)[level := [freed] + old(free[level])]
      ensures nodes[freed].order == BLANK
      ensures forall m :: 0 <= m < nodes.Length && m != freed ==> nodes[m].order == old(nodes[m].order)
    {
      ghost var was := nodes[..];
      assert At(level);
      assert LevelOk(was, freeHeads[level], lists[level], free[level], freed, level, base, perLevel);
      ReleaseLevel(was, freeHeads[level], lists[level], free[level], freed, level, base, perLevel);
      nodes[freed] := nodes[freed].(order := nodes[freed].order.(id := 0));
      nodes[freed] := nodes[freed].(order := nodes[freed].order.(lots := 0));
      var temp := freeHeads[level];
      freeHeads[level] := freed;
      nodes[freeHeads[level]] := nodes[freeHeads[level]].(next := temp);
      assert nodes[..] == was[freed := OrderNode(BLANK, temp, was[freed].prev)];
      loose := NULL;
      free := free[level := [freed] + free[level]];
      Others(was, old(lists), old(free), old(freeHeads[..]), freed, level);
    }

    /** Writing the order of a node leaves the lists alone. */
    method SetOrder(n: int, order: Order)
      requires Valid() && 0 <= n < base
      modifies nodes
      ensures Valid() && nodes[n].order == order
      ensures forall m :: 0 <= m < nodes.Length && m != n ==> nodes[m].order == old(nodes[m].order)
    {
      ghost var was := nodes[..];
      nodes[n] := nodes[n].(order := order);
      forall l {:trigger At(l)} | At(l) && 0 <= l < levels
        ensures LevelOk(nodes[..], freeHeads[l], lists[l], free[l], loose, l, base, perLevel)
      {
        assert At(l);
        assert LevelOk(was, freeHeads[l], lists[l], free[l], loose, l, base, perLevel);
        RingFrame(was, nodes[..], lists[l], base + l);
        ChainFrame(was, nodes[..], free[l], freeHeads[l]);
      }
    }
  }
}
