/** The ring of fulfilled orders: written at the write counter, drained up to it after every request. */
module FulfilledRing {
  import opened Arithmetic
  import opened MatcherTypes

  /** The ring after recording the fills from write counter w on. */
  function Recorded(ring: seq<MessageResponse>, w: nat, fills: seq<MessageResponse>): (after: seq<MessageResponse>)
    requires |ring| > 0
    ensures |after| == |ring|
  {
    if fills == [] then ring
    else
      var k := |fills| - 1;
      Recorded(ring, w, fills[..k])[(w + k) % |ring| := fills[k]]
  }

  /** What a drain from read counter r to write counter w takes out. */
  function Drained(ring: seq<MessageResponse>, r: nat, w: nat): seq<MessageResponse>
    requires |ring| > 0 && r <= w
  {
    seq(w - r, i requires 0 <= i < w - r => ring[(r + i) % |ring|])
  }

  /** The last |ring| fills are all still there. */
  lemma {:induction false} RecordedAt(ring: seq<MessageResponse>, w: nat, fills: seq<MessageResponse>, i: nat)
    requires |ring| > 0 && i < |fills| <= i + |ring|
    ensures Recorded(ring, w, fills)[(w + i) % |ring|] == fills[i]
  {
    var k := |fills| - 1;
    if i < k {
      RecordedAt(ring, w, fills[..k], i);
      ModApart(w + i, w + k, |ring|);
    }
  }

  /** Of n fills recorded in a row, the last one that goes to the slot of fill i. */
  function LastInSlot(i: nat, n: nat, m: nat): (j: nat)
    requires m > 0 && i < n
    ensures i <= j < n <= j + m && j % m == i % m
  {
    ModShift(i, (n - 1 - i) / m, m);
    i + (n - 1 - i) / m * m
  }

  /** What a drain of a ring of m slots finds of the fills of a request: at each position, the last fill that
      went to its slot. */
  function Surviving(fills: seq<MessageResponse>, m: nat): (found: seq<MessageResponse>)
    requires m > 0
    ensures |found| == |fills|
  {
    seq(|fills|, i requires 0 <= i < |fills| => fills[LastInSlot(i, |fills|, m)])
  }

  lemma {:induction false} DrainTakesSurviving(ring: seq<MessageResponse>, w: nat, fills: seq<MessageResponse>)
    requires |ring| > 0
    ensures Drained(Recorded(ring, w, fills), w, w + |fills|) == Surviving(fills, |ring|)
  {
    var n, m := |fills|, |ring|;
    forall i | 0 <= i < n ensures Recorded(ring, w, fills)[(w + i) % m] == Surviving(fills, m)[i] {
      RecordedAt(ring, w, fills, LastInSlot(i, n, m));
      ModShift(w + i, (n - 1 - i) / m, m);
    }
  }

  /** All the fills survive if and only if they fit (when no two are alike). */
  lemma {:induction false} SurvivingExact(fills: seq<MessageResponse>, m: nat)
    requires 0 < m && forall i, j :: 0 <= i < j < |fills| ==> fills[i] != fills[j]
    ensures Surviving(fills, m) == fills <==> |fills| <= m
  {
    if |fills| <= m {
      forall i | 0 <= i < |fills| ensures Surviving(fills, m)[i] == fills[i] {
        SmallMod(i, m);
        SmallMod(LastInSlot(i, |fills|, m), m);
      }
    } else {
      assert Surviving(fills, m)[0] == fills[LastInSlot(0, |fills|, m)];
    }
  }

  /** So a drain returns exactly the fills recorded since the last one if and only if they fit in the ring. */
  lemma {:induction false} DrainExact(ring: seq<MessageResponse>, w: nat, fills: seq<MessageResponse>)
    requires |ring| > 0
    requires forall i, j :: 0 <= i < j < |fills| ==> fills[i] != fills[j]
    ensures Drained(Recorded(ring, w, fills), w, w + |fills|) == fills <==> |fills| <= |ring|
  {
    DrainTakesSurviving(ring, w, fills);
    SurvivingExact(fills, |ring|);
  }
}
