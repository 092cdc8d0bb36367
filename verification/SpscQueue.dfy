/** The queue as an object used from one thread at a time; each call is a run of the protocol's steps. */
module SpscQueue {
  import opened Arithmetic
  import opened SpscProtocol

  datatype Sizing = CapacityNotPositive | CapacityOverflows | LengthRefused | Slots(count: nat, length: nat)

  /** The sizes of the heap buffer: one slot more than the capacity, counted in a word whose largest value is
      maxSize, and padding at both ends, which in the source is at most one cache line.  The vector refuses to
      have more than maxLength elements. */
  function HeapSizing(capacity: nat, padding: nat, maxSize: nat, maxLength: nat): (z: Sizing)
    requires capacity <= maxSize && 2 * padding <= maxSize
    ensures z.CapacityNotPositive? <==> capacity == 0
    ensures z.CapacityOverflows? <==> 0 < capacity < maxSize <= capacity + 2 * padding
    ensures z.Slots? <==> (capacity == maxSize > 0 && 2 * padding <= maxLength) ||
                          (0 < capacity < maxSize - 2 * padding && capacity + 1 + 2 * padding <= maxLength)
    ensures z.Slots? ==> padding + z.count + padding == z.length <= maxSize
  {
    var count := (capacity + 1) % (maxSize + 1);
    WrapsAtTop(capacity, maxSize);
    if capacity < 1 then CapacityNotPositive
    else if count > maxSize - 2 * padding then CapacityOverflows
    else if count + 2 * padding > maxLength then LengthRefused
    else Slots(count, count + 2 * padding)
  }

  lemma {:induction false} WrapsAtTop(capacity: nat, maxSize: nat)
    requires capacity <= maxSize
    ensures (capacity + 1) % (maxSize + 1) == if capacity == maxSize then 0 else capacity + 1
  {
    SmallMod(capacity, maxSize + 1);
    ModNext(capacity, maxSize + 1);
  }

  /** An accepted buffer has a slot more than the capacity, so at least two, if and only if the capacity is not
      the largest size. */
  lemma {:induction false} SizingIsUsable(capacity: nat, padding: nat, maxSize: nat, maxLength: nat)
    requires capacity <= maxSize && 2 * padding <= maxSize
    requires HeapSizing(capacity, padding, maxSize, maxLength).Slots?
    ensures var count := HeapSizing(capacity, padding, maxSize, maxLength).count;
            count == capacity + 1 >= 2 <==> capacity < maxSize
  {
    WrapsAtTop(capacity, maxSize);
  }

  /** What a caller has to check: a capacity that is not refused and is not the largest size. */
  predicate Constructible(capacity: nat, padding: nat, maxSize: nat, maxLength: nat) {
    && capacity < maxSize && 2 * padding <= maxSize
    && HeapSizing(capacity, padding, maxSize, maxLength).Slots?
  }

  /** The largest capacity is not refused: its slot count wraps around, and the buffer has no slots at all. */
  lemma {:induction false} LargestCapacityHasNoSlots(padding: nat, maxSize: nat, maxLength: nat)
    requires 0 < maxSize && 2 * padding <= maxSize && 2 * padding <= maxLength
    ensures HeapSizing(maxSize, padding, maxSize, maxLength) == Slots(0, 2 * padding)
  {
    WrapsAtTop(maxSize, maxSize);
  }

  class SpscQueue<T> {
    const slots: nat
    const padding: nat
    const buffer: array<Slot<T>>
    var writeIndex: nat
    var readIndexCache: nat
    var readIndex: nat
    var writeIndexCache: nat

    ghost var written: nat
    ghost var readSeen: nat
    ghost var read: nat
    ghost var writtenSeen: nat
    ghost var accepted: seq<T>
    ghost var delivered: seq<T>

    /** The protocol state of this object, with both threads idle. */
    ghost function Abstract(): State<T>
      requires padding + slots <= buffer.Length
      reads this, buffer
    {
      State(slots, buffer[padding..padding + slots], writeIndex, readIndexCache, readIndex, writeIndexCache,
            WriterIdle, ReaderIdle, written, readSeen, read, writtenSeen, accepted, delivered)
    }

    ghost predicate Valid()
      reads this, buffer
    {
      padding + slots <= buffer.Length && Inv(Abstract())
    }

    /** The values accepted and not yet delivered. */
    ghost function Contents(): (held: seq<T>)
      requires Valid()
      reads this, buffer
      ensures |held| <= Capacity()
    {
      Held(Abstract())
    }

    function Capacity(): int {
      slots - 1
    }

    constructor (capacity: nat, padding: nat, maxSize: nat, maxLength: nat)
      requires Constructible(capacity, padding, maxSize, maxLength)
      ensures Valid() && Contents() == [] && Capacity() == capacity && fresh(buffer)
    {
      var sizing := HeapSizing(capacity, padding, maxSize, maxLength);
      SizingIsUsable(capacity, padding, maxSize, maxLength);
      this.slots, this.padding := sizing.count, padding;
      buffer := new Slot<T>[sizing.length](i => Hollow);
      writeIndex, readIndexCache, readIndex, writeIndexCache := 0, 0, 0, 0;
      written, readSeen, read, writtenSeen, accepted, delivered := 0, 0, 0, 0, [], [];
      new;
      InitialInv<T>(slots);
      assert Abstract() == Initial<T>(slots);
    }

    /** Fill the slot at the write index and publish it. */
    method StoreNext(value: T, nextWriteIndex: nat)
      requires padding + slots <= buffer.Length && writeIndex < slots && nextWriteIndex == Abstract().NextWrite()
      modifies this`writeIndex, this`written, this`accepted, buffer
      ensures Abstract() == Store(old(Abstract()), value)
    {
      ghost var was := buffer[padding..padding + slots];
      buffer[writeIndex + padding] := Full(value);
      assert buffer[padding..padding + slots] == was[writeIndex := Full(value)];
      writeIndex := nextWriteIndex;
      written, accepted := written + 1, accepted + [value];
    }

    /** Move the value out of the slot at the read index and publish that. */
    method TakeNext() returns (value: Slot<T>)
      requires padding + slots <= buffer.Length && readIndex < slots && Abstract().buffer[readIndex].Full?
      modifies this`readIndex, this`read, this`delivered, buffer
      ensures value == old(Abstract().buffer[readIndex])
      ensures Abstract() == Take(old(Abstract()), value.value)
    {
      ghost var was := buffer[padding..padding + slots];
      value := buffer[readIndex + padding];
      assert value == was[readIndex];
      buffer[readIndex + padding] := Hollow;
      assert buffer[padding..padding + slots] == was[readIndex := Hollow];
      readIndex := if readIndex == slots - 1 then 0 else readIndex + 1;
      read, delivered := read + 1, delivered + [value.value];
    }

    /** Accept a value unless the queue is full; the call is a run of the writer's steps. */
    method TryEmplace(value: T) returns (ok: bool, ghost steps: seq<Step<T>>)
      requires Valid()
      modifies this, buffer
      ensures Valid()
      ensures ok <==> |old(Contents())| < Capacity()
      ensures Contents() == if ok then old(Contents()) + [value] else old(Contents())
      ensures Runs(old(Abstract()), steps) && Exec(old(Abstract()), steps) == Abstract()
    {
      ghost var s := Abstract();
      WriteRun(s, value);
      steps := WriteSteps(s, value);
      var nextWriteIndex := if writeIndex == slots - 1 then 0 else writeIndex + 1;
      if nextWriteIndex == readIndexCache {
        readIndexCache := readIndex;
        readSeen := read;
        assert Abstract() == SeeRead(s);
        if nextWriteIndex == readIndexCache {
          return false, steps;
        }
      }
      StoreNext(value, nextWriteIndex);
      assert Abstract() == WriteEnd(s, value);
      ok := true;
    }

    /** Deliver the oldest value unless the queue is empty; the call is a run of the reader's steps. */
    method TryPop() returns (value: Slot<T>, ghost steps: seq<Step<T>>)
      requires Valid()
      modifies this, buffer
      ensures Valid()
      ensures value == if old(Contents()) == [] then Hollow else Full(old(Contents())[0])
      ensures Contents() == if old(Contents()) == [] then [] else old(Contents())[1..]
      ensures Runs(old(Abstract()), steps) && Exec(old(Abstract()), steps) == Abstract()
    {
      ghost var s := Abstract();
      ReadRun(s);
      steps := ReadSteps(s);
      if readIndex == writeIndexCache {
        writeIndexCache := writeIndex;
        writtenSeen := written;
        assert Abstract() == SeeWritten(s);
        if readIndex == writeIndexCache {
          return Hollow, steps;
        }
      }
      value := TakeNext();
      assert Abstract() == ReadEnd(s);
    }

    method Size() returns (n: int)
      requires Valid()
      ensures n == |Contents()| <= Capacity()
    {
      SizeIsExact(Abstract());
      if writeIndex >= readIndex {
        return writeIndex - readIndex;
      }
      return (slots - readIndex) + writeIndex;
    }

    method Empty() returns (empty: bool)
      requires Valid()
      ensures empty <==> Contents() == []
    {
      SizeIsExact(Abstract());
      empty := writeIndex == readIndex;
    }
  }

  ghost function Held<T>(s: State<T>): seq<T>
    requires s.read <= |s.accepted|
  {
    s.accepted[s.read..]
  }

  // A call of try_emplace and of try_pop with no other thread in between, as steps and as a change of state

  function SeeRead<T>(s: State<T>): State<T> {
    s.(readIndexCache := s.readIndex, readSeen := s.read)
  }

  function SeeWritten<T>(s: State<T>): State<T> {
    s.(writeIndexCache := s.writeIndex, writtenSeen := s.written)
  }

  function Store<T>(s: State<T>, value: T): State<T>
    requires s.writeIndex < |s.buffer|
  {
    s.(buffer := s.buffer[s.writeIndex := Full(value)], writeIndex := s.NextWrite(), written := s.written + 1,
       accepted := s.accepted + [value])
  }

  function Take<T>(s: State<T>, value: T): State<T>
    requires s.readIndex < |s.buffer|
  {
    s.(buffer := s.buffer[s.readIndex := Hollow], readIndex := s.NextRead(), read := s.read + 1,
       delivered := s.delivered + [value])
  }

  function WriteSteps<T>(s: State<T>, value: T): seq<Step<T>> {
    if s.NextWrite() != s.readIndexCache then [BeginWrite(value, false), HasRoom, StoreSlot, PublishWrite]
    else if s.NextWrite() != s.readIndex then [BeginWrite(value, false), LoadReadIndex(s.read), StoreSlot, PublishWrite]
    else [BeginWrite(value, false), LoadReadIndex(s.read)]
  }

  function ReadSteps<T>(s: State<T>): seq<Step<T>> {
    if s.readIndex != s.writeIndexCache then [BeginRead(false), HasValue, TakeSlot, PublishRead]
    else if s.readIndex != s.writeIndex then [BeginRead(false), LoadWriteIndex(s.written), TakeSlot, PublishRead]
    else [BeginRead(false), LoadWriteIndex(s.written)]
  }

  lemma {:induction false} ExecCons<T>(s: State<T>, a: Step<T>, rest: seq<Step<T>>)
    requires s.slots > 0 && Enabled(s, a) && Runs(Next(s, a), rest)
    ensures Runs(s, [a] + rest) && Exec(s, [a] + rest) == Exec(Next(s, a), rest)
  {
    assert ([a] + rest)[1..] == rest;
  }

  lemma {:induction false} ExecTwo<T>(s: State<T>, a: Step<T>, b: Step<T>)
    requires s.slots > 0 && Enabled(s, a) && Enabled(Next(s, a), b)
    ensures Runs(s, [a, b]) && Exec(s, [a, b]) == Next(Next(s, a), b)
  {
    var end: seq<Step<T>> := [];
    ExecCons(Next(s, a), b, end);
    ExecCons(s, a, [b] + end);
    assert [a, b] == [a] + ([b] + end);
  }

  lemma {:induction false} ExecFour<T>(s: State<T>, a: Step<T>, b: Step<T>, c: Step<T>, d: Step<T>)
    requires s.slots > 0 && Enabled(s, a) && Enabled(Next(s, a), b)
    requires var t := Next(Next(s, a), b); Enabled(t, c) && Enabled(Next(t, c), d)
    ensures Runs(s, [a, b, c, d]) && Exec(s, [a, b, c, d]) == Next(Next(Next(Next(s, a), b), c), d)
  {
    ExecTwo(Next(Next(s, a), b), c, d);
    ExecCons(Next(s, a), b, [c, d]);
    ExecCons(s, a, [b] + [c, d]);
    assert [a, b, c, d] == [a] + ([b] + [c, d]);
  }

  function WriteEnd<T>(s: State<T>, value: T): State<T>
    requires s.writeIndex < |s.buffer|
  {
    if s.NextWrite() != s.readIndexCache then Store(s, value)
    else if s.NextWrite() != s.readIndex then Store(SeeRead(s), value)
    else SeeRead(s)
  }

  function ReadEnd<T>(s: State<T>): State<T>
    requires s.readIndex < |s.buffer| && s.read <= |s.accepted|
    requires s.readIndex != s.writeIndex || s.readIndex != s.writeIndexCache ==> s.read < |s.accepted|
  {
    if s.readIndex != s.writeIndexCache then Take(s, s.accepted[s.read])
    else if s.readIndex != s.writeIndex then Take(SeeWritten(s), s.accepted[s.read])
    else SeeWritten(s)
  }

  lemma {:induction false} WriteRun<T>(s: State<T>, value: T)
    requires Inv(s) && s.writer.WriterIdle? && s.reader.ReaderIdle?
    ensures s.writeIndex < |s.buffer| && Runs(s, WriteSteps(s, value))
            && Exec(s, WriteSteps(s, value)) == WriteEnd(s, value)
    ensures var t := WriteEnd(s, value);
            && Inv(t)
            && s.read <= |s.accepted| && t.read <= |t.accepted|
            && (s.NextWrite() != s.readIndex <==> |Held(s)| < s.slots - 1)
            && Held(t) == if s.NextWrite() != s.readIndex then Held(s) + [value] else Held(s)
    ensures s.NextWrite() != s.readIndexCache ==> s.NextWrite() != s.readIndex
  {
    FullMeansEqual(s);
    if s.NextWrite() != s.readIndexCache {
      ExecFour(s, BeginWrite(value, false), HasRoom, StoreSlot, PublishWrite);
    } else if s.NextWrite() != s.readIndex {
      ExecFour(s, BeginWrite(value, false), LoadReadIndex(s.read), StoreSlot, PublishWrite);
    } else {
      ExecTwo(s, BeginWrite(value, false), LoadReadIndex(s.read));
    }
    RunKeepsInv(s, WriteSteps(s, value));
  }

  /** The next write index meets the read index exactly when the queue is full; if it does not meet the cache
      of the read index it does not meet the read index. */
  lemma {:induction false} FullMeansEqual<T>(s: State<T>)
    requires Inv(s)
    ensures s.NextWrite() == s.readIndex <==> s.written - s.read == s.slots - 1
    ensures s.NextWrite() != s.readIndexCache ==> s.NextWrite() != s.readIndex
  {
    ModNext(s.written, s.slots);
    ModShift(s.read, 1, s.slots);
    ModShift(s.readSeen, 1, s.slots);
    if s.written + 1 < s.read + s.slots {
      SameIndex(s.read, s.written + 1, s.slots);
    }
  }

  lemma {:induction false} ReadRun<T>(s: State<T>)
    requires Inv(s) && s.writer.WriterIdle? && s.reader.ReaderIdle?
    ensures s.readIndex < |s.buffer| && s.read <= |s.accepted|
    ensures s.readIndex != s.writeIndexCache ==> s.readIndex != s.writeIndex
    ensures s.readIndex != s.writeIndex ==> s.read < |s.accepted| && s.buffer[s.readIndex] == Full(s.accepted[s.read])
    ensures Runs(s, ReadSteps(s)) && Exec(s, ReadSteps(s)) == ReadEnd(s)
    ensures var t := ReadEnd(s);
            && Inv(t)
            && t.read <= |t.accepted|
            && (s.readIndex == s.writeIndex <==> Held(s) == [])
            && (Held(s) != [] ==> Held(s)[0] == s.accepted[s.read])
            && Held(t) == if Held(s) == [] then [] else Held(s)[1..]
  {
    SameIndex(s.read, s.written, s.slots);
    SameIndex(s.read, s.writtenSeen, s.slots);
    if s.read < s.written {
      assert s.buffer[s.read % s.slots] == ValueAt(s, s.read);
    }
    if s.readIndex != s.writeIndexCache {
      ExecFour(s, BeginRead(false), HasValue, TakeSlot, PublishRead);
    } else if s.readIndex != s.writeIndex {
      ExecFour(s, BeginRead(false), LoadWriteIndex(s.written), TakeSlot, PublishRead);
    } else {
      ExecTwo(s, BeginRead(false), LoadWriteIndex(s.written));
    }
    RunKeepsInv(s, ReadSteps(s));
  }
}
