/**
 The intrusive lists of a book, as values: the array of nodes, where a list is a circle through a sentinel
 and a free list is a chain that ends in the null pointer and uses the same next field.
 The lemmas say what the pointer updates of append, unlink, GetFree and ReleaseToFree do to the sequences.
 */
module NodeLists {
  import opened MatcherTypes

  datatype OrderNode = OrderNode(order: Order, next: int, prev: int)

  /** The element after, and before, position i of a circle through the sentinel. */
  function After(list: seq<int>, i: int, sentinel: int): int {
    if 0 <= i + 1 < |list| then list[i + 1] else sentinel
  }

  function Before(list: seq<int>, i: int, sentinel: int): int {
    if 0 <= i - 1 < |list| then list[i - 1] else sentinel
  }

  ghost predicate InRange(list: seq<int>, n: int) {
    forall i :: 0 <= i < |list| ==> 0 <= list[i] < n
  }

  ghost predicate Distinct(list: seq<int>) {
    forall i, j :: 0 <= i < j < |list| ==> list[i] != list[j]
  }

  /** The nodes of the list, in order, form a circle with the sentinel, linked both ways. */
  ghost predicate Ring(nodes: seq<OrderNode>, list: seq<int>, sentinel: int) {
    && 0 <= sentinel < |nodes|
    && InRange(list, |nodes|)
    && nodes[sentinel].next == After(list, -1, sentinel)
    && nodes[sentinel].prev == Before(list, |list|, sentinel)
    && forall i {:trigger nodes[list[i]]} :: 0 <= i < |list| ==>
         && nodes[list[i]].next == After(list, i, sentinel)
         && nodes[list[i]].prev == Before(list, i, sentinel)
  }

  /** The nodes of the free list, in order, are chained from the head to the null pointer. */
  ghost predicate Chain(nodes: seq<OrderNode>, list: seq<int>, head: int) {
    && InRange(list, |nodes|)
    && head == After(list, -1, NULL)
    && forall i {:trigger nodes[list[i]]} :: 0 <= i < |list| ==> nodes[list[i]].next == After(list, i, NULL)
  }

  function SetNext(nodes: seq<OrderNode>, n: int, next: int): seq<OrderNode>
    requires 0 <= n < |nodes|
  {
    nodes[n := nodes[n].(next := next)]
  }

  function SetPrev(nodes: seq<OrderNode>, n: int, prev: int): seq<OrderNode>
    requires 0 <= n < |nodes|
  {
    nodes[n := nodes[n].(prev := prev)]
  }

  function RemoveAt<T>(list: seq<T>, k: int): seq<T>
    requires 0 <= k < |list|
  {
    list[..k] + list[k + 1..]
  }

  /** The nodes after the four assignments of append. */
  function Appended(nodes: seq<OrderNode>, sentinel: int, n: int): seq<OrderNode>
    requires 0 <= sentinel < |nodes| && 0 <= n < |nodes| && n != sentinel
    requires 0 <= nodes[sentinel].prev < |nodes|
  {
    var tail := nodes[sentinel].prev;
    var own := SetNext(SetPrev(nodes, n, tail), n, sentinel);
    SetPrev(SetNext(own, tail, n), sentinel, n)
  }

  /** The nodes after the two assignments of unlink. */
  function Unlinked(nodes: seq<OrderNode>, n: int): seq<OrderNode>
    requires 0 <= n < |nodes| && 0 <= nodes[n].prev < |nodes| && 0 <= nodes[n].next < |nodes|
    requires nodes[n].prev != n
  {
    var left := SetNext(nodes, nodes[n].prev, nodes[n].next);
    SetPrev(left, nodes[n].next, nodes[n].prev)
  }

  lemma {:induction false} AppendToRing(nodes: seq<OrderNode>, list: seq<int>, sentinel: int, n: int)
    requires Ring(nodes, list, sentinel) && Distinct(list) && sentinel !in list
    requires 0 <= n < |nodes| && n != sentinel && n !in list
    ensures 0 <= nodes[sentinel].prev < |nodes|
    ensures Ring(Appended(nodes, sentinel, n), list + [n], sentinel)
  {
    var after, longer := Appended(nodes, sentinel, n), list + [n];
    forall i | 0 <= i < |longer|
      ensures after[longer[i]].next == After(longer, i, sentinel)
      ensures after[longer[i]].prev == Before(longer, i, sentinel)
    {
      if i < |list| {
        assert nodes[list[i]].prev == Before(list, i, sentinel);
        assert i < |list| - 1 ==> list[i] != list[|list| - 1];
      }
    }
  }

  /** What unlink does, node by node. */
  lemma {:induction false} UnlinkedAt(nodes: seq<OrderNode>, n: int, m: int)
    requires 0 <= n < |nodes| && 0 <= nodes[n].prev < |nodes| && 0 <= nodes[n].next < |nodes|
    requires nodes[n].prev != n && nodes[n].next != n && 0 <= m < |nodes|
    ensures Unlinked(nodes, n)[m].next == if m == nodes[n].prev then nodes[n].next else nodes[m].next
    ensures Unlinked(nodes, n)[m].prev == if m == nodes[n].next then nodes[n].prev else nodes[m].prev
    ensures Unlinked(nodes, n)[m].order == nodes[m].order
  {
  }

  lemma {:induction false} UnlinkNeighbours(nodes: seq<OrderNode>, list: seq<int>, sentinel: int, k: int)
    requires Ring(nodes, list, sentinel) && Distinct(list) && sentinel !in list
    requires 0 <= k < |list|
    ensures var n := list[k];
            && nodes[n].prev == Before(list, k, sentinel) && nodes[n].next == After(list, k, sentinel)
            && 0 <= nodes[n].prev < |nodes| && 0 <= nodes[n].next < |nodes|
            && nodes[n].prev != n && nodes[n].next != n
  {
    assert nodes[list[k]].prev == Before(list, k, sentinel);
    assert k + 1 < |list| ==> list[k] != list[k + 1];
    assert 0 < k ==> list[k - 1] != list[k];
  }

  lemma {:induction false} UnlinkedLinks(nodes: seq<OrderNode>, list: seq<int>, sentinel: int, k: int, j: int)
    requires Ring(nodes, list, sentinel) && Distinct(list) && sentinel !in list
    requires 0 <= k < |list| && 0 <= j < |list| && j != k
    requires var n := list[k]; 0 <= nodes[n].prev < |nodes| && 0 <= nodes[n].next < |nodes| && nodes[n].prev != n
    ensures var i := if j < k then j else j - 1;
            && Unlinked(nodes, list[k])[list[j]].next == After(RemoveAt(list, k), i, sentinel)
            && Unlinked(nodes, list[k])[list[j]].prev == Before(RemoveAt(list, k), i, sentinel)
  {
    UnlinkNeighbours(nodes, list, sentinel, k);
    UnlinkedAt(nodes, list[k], list[j]);
    assert nodes[list[j]].next == After(list, j, sentinel) && nodes[list[j]].prev == Before(list, j, sentinel);
    assert 0 < k && j != k - 1 ==> list[j] != list[k - 1];
    assert k + 1 < |list| && j != k + 1 ==> list[j] != list[k + 1];
  }

  lemma {:induction false} UnlinkedSentinel(nodes: seq<OrderNode>, list: seq<int>, sentinel: int, k: int)
    requires Ring(nodes, list, sentinel) && Distinct(list) && sentinel !in list
    requires 0 <= k < |list|
    requires var n := list[k]; 0 <= nodes[n].prev < |nodes| && 0 <= nodes[n].next < |nodes| && nodes[n].prev != n
    ensures var (after, shorter) := (Unlinked(nodes, list[k]), RemoveAt(list, k));
            && after[sentinel].next == After(shorter, -1, sentinel)
            && after[sentinel].prev == Before(shorter, |shorter|, sentinel)
  {
    UnlinkNeighbours(nodes, list, sentinel, k);
    UnlinkedAt(nodes, list[k], sentinel);
    assert 0 < k ==> list[k - 1] != sentinel;
    assert k + 1 < |list| ==> list[k + 1] != sentinel;
  }

  lemma {:induction false} UnlinkFromRing(nodes: seq<OrderNode>, list: seq<int>, sentinel: int, k: int)
    requires Ring(nodes, list, sentinel) && Distinct(list) && sentinel !in list
    requires 0 <= k < |list|
    ensures var n := list[k]; 0 <= nodes[n].prev < |nodes| && 0 <= nodes[n].next < |nodes| && nodes[n].prev != n
    ensures Ring(Unlinked(nodes, list[k]), RemoveAt(list, k), sentinel)
  {
    UnlinkNeighbours(nodes, list, sentinel, k);
    var after, shorter := Unlinked(nodes, list[k]), RemoveAt(list, k);
    forall i | 0 <= i < |shorter|
      ensures 0 <= shorter[i] < |nodes|
      ensures after[shorter[i]].next == After(shorter, i, sentinel)
      ensures after[shorter[i]].prev == Before(shorter, i, sentinel)
    {
      var j := if i < k then i else i + 1;
      assert shorter[i] == list[j];
      UnlinkedLinks(nodes, list, sentinel, k, j);
    }
    UnlinkedSentinel(nodes, list, sentinel, k);
  }

  /** The k-th node met from n going forward, or backward. */
  function Forward(nodes: seq<OrderNode>, n: int, k: nat): int {
    if k == 0 then n
    else
      var m := Forward(nodes, n, k - 1);
      if 0 <= m < |nodes| then nodes[m].next else NULL
  }

  function Backward(nodes: seq<OrderNode>, n: int, k: nat): int {
    if k == 0 then n
    else
      var m := Backward(nodes, n, k - 1);
      if 0 <= m < |nodes| then nodes[m].prev else NULL
  }

  /** From the sentinel, going forward meets the list in order and going backward in reverse, and both
      come back to the sentinel after the last element. */
  lemma {:induction false} TraversalsMirror(nodes: seq<OrderNode>, list: seq<int>, sentinel: int, k: nat)
    requires Ring(nodes, list, sentinel) && k <= |list|
    ensures Forward(nodes, sentinel, k + 1) == if k < |list| then list[k] else sentinel
    ensures Backward(nodes, sentinel, k + 1) == if k < |list| then list[|list| - 1 - k] else sentinel
  {
    if k == 0 {
      assert Forward(nodes, sentinel, 0) == sentinel == Backward(nodes, sentinel, 0);
    } else {
      TraversalsMirror(nodes, list, sentinel, k - 1);
      assert nodes[list[k - 1]].next == After(list, k - 1, sentinel);
      assert nodes[list[|list| - k]].prev == Before(list, |list| - k, sentinel);
    }
  }

  /** Element k is the same node whichever way it is reached. */
  lemma {:induction false} TraversalsMeet(nodes: seq<OrderNode>, list: seq<int>, sentinel: int, k: nat)
    requires Ring(nodes, list, sentinel) && k < |list|
    ensures Forward(nodes, sentinel, k + 1) == list[k] == Backward(nodes, sentinel, |list| - k)
  {
    TraversalsMirror(nodes, list, sentinel, k);
    TraversalsMirror(nodes, list, sentinel, |list| - 1 - k);
  }
}
