/**
 The single-producer single-consumer queue as interleaved steps of its two threads.

 A step is one access to shared memory: loading the other side's index, storing or taking a slot, or
 publishing one's own index.  A load of the other side's index may return any value that index had between
 the one last seen and the current one, so the proofs do not rest on sequential consistency; that a slot is
 seen as it was when the index covering it was published is what the acquire load paired with the release
 store provides.  The fields after reader are not in the program: they count behind the cyclic indices.
 */
module SpscProtocol {
  import opened Arithmetic

  /** A slot holds a value or has been moved from. */
  datatype Slot<+T> = Hollow | Full(value: T)

  datatype Writer<+T> =
    | WriterIdle
    | Checking(value: T, blocking: bool)
    | Storing(value: T)
    | Publishing(value: T)

  datatype Reader<+T> =
    | ReaderIdle
    | Looking(blocking: bool)
    | Taking
    | Releasing(value: T)

  datatype State<+T> = State(
    slots: nat,
    buffer: seq<Slot<T>>,
    writeIndex: nat, readIndexCache: nat,
    readIndex: nat, writeIndexCache: nat,
    writer: Writer<T>, reader: Reader<T>,
    written: nat, readSeen: nat,
    read: nat, writtenSeen: nat,
    accepted: seq<T>, delivered: seq<T>)
  {
    function NextWrite(): nat {
      if writeIndex == slots - 1 then 0 else writeIndex + 1
    }

    function NextRead(): nat {
      if readIndex == slots - 1 then 0 else readIndex + 1
    }
  }

  datatype Step<+T> =
    | BeginWrite(value: T, blocking: bool)
    | HasRoom
    | LoadReadIndex(n: nat)
    | StoreSlot
    | PublishWrite
    | BeginRead(blocking: bool)
    | HasValue
    | LoadWriteIndex(n: nat)
    | TakeSlot
    | PublishRead

  function Initial<T>(slots: nat): State<T> {
    State(slots, seq(slots, i => Hollow), 0, 0, 0, 0, WriterIdle, ReaderIdle, 0, 0, 0, 0, [], [])
  }

  predicate Enabled<T>(s: State<T>, step: Step<T>) {
    match step
    case BeginWrite(_, _) => s.writer.WriterIdle?
    case HasRoom => s.writer.Checking? && s.NextWrite() != s.readIndexCache
    case LoadReadIndex(n) => s.writer.Checking? && s.NextWrite() == s.readIndexCache && s.readSeen <= n <= s.read
    case StoreSlot => s.writer.Storing? && s.writeIndex < |s.buffer|
    case PublishWrite => s.writer.Publishing?
    case BeginRead(_) => s.reader.ReaderIdle?
    case HasValue => s.reader.Looking? && s.readIndex != s.writeIndexCache
    case LoadWriteIndex(n) => s.reader.Looking? && s.readIndex == s.writeIndexCache && s.writtenSeen <= n <= s.written
    case TakeSlot => s.reader.Taking? && s.readIndex < |s.buffer| && s.buffer[s.readIndex].Full?
    case PublishRead => s.reader.Releasing?
  }

  function Next<T>(s: State<T>, step: Step<T>): State<T>
    requires s.slots > 0 && Enabled(s, step)
  {
    match step
    case BeginWrite(v, blocking) => s.(writer := Checking(v, blocking))
    case HasRoom => s.(writer := Storing(s.writer.value))
    case LoadReadIndex(n) =>
      var cache := n % s.slots;
      var writer := if s.NextWrite() != cache then Storing(s.writer.value)
                    else if s.writer.blocking then s.writer else WriterIdle;
      s.(readIndexCache := cache, readSeen := n, writer := writer)
    case StoreSlot => s.(buffer := s.buffer[s.writeIndex := Full(s.writer.value)], writer := Publishing(s.writer.value))
    case PublishWrite =>
      s.(writeIndex := s.NextWrite(), written := s.written + 1, accepted := s.accepted + [s.writer.value],
         writer := WriterIdle)
    case BeginRead(blocking) => s.(reader := Looking(blocking))
    case HasValue => s.(reader := Taking)
    case LoadWriteIndex(n) =>
      var cache := n % s.slots;
      var reader := if s.readIndex != cache then Taking else if s.reader.blocking then s.reader else ReaderIdle;
      s.(writeIndexCache := cache, writtenSeen := n, reader := reader)
    case TakeSlot => s.(buffer := s.buffer[s.readIndex := Hollow], reader := Releasing(s.buffer[s.readIndex].value))
    case PublishRead =>
      s.(readIndex := s.NextRead(), read := s.read + 1, delivered := s.delivered + [s.reader.value],
         reader := ReaderIdle)
  }

  /** How far the reader has emptied slots, and the writer filled them, counting an access not yet published. */
  function Emptied<T>(s: State<T>): nat {
    if s.reader.Releasing? then s.read + 1 else s.read
  }

  function Filled<T>(s: State<T>): nat {
    if s.writer.Publishing? then s.written + 1 else s.written
  }

  function ValueAt<T>(s: State<T>, i: nat): Slot<T> {
    if i < |s.accepted| then Full(s.accepted[i]) else if s.writer.Publishing? then Full(s.writer.value) else Hollow
  }

  /** The indices and caches are the counts modulo the number of slots. */
  predicate Indices<T>(s: State<T>) {
    && s.slots >= 2 && |s.buffer| == s.slots
    && s.writeIndex == s.written % s.slots && s.readIndexCache == s.readSeen % s.slots
    && s.readIndex == s.read % s.slots && s.writeIndexCache == s.writtenSeen % s.slots
  }

  /** Each cache lags behind the index it copies, and the writer is never a lap ahead of what it has seen. */
  predicate Lags<T>(s: State<T>) {
    && s.readSeen <= s.read <= s.writtenSeen <= s.written < s.readSeen + s.slots
    && (s.writer.Storing? || s.writer.Publishing? ==> s.written + 1 < s.readSeen + s.slots)
    && (s.reader.Taking? || s.reader.Releasing? ==> s.read < s.writtenSeen)
  }

  /** Every value accepted and not yet taken is in its slot; every value delivered is the next accepted one. */
  ghost predicate Values<T>(s: State<T>)
    requires s.slots > 0
  {
    && |s.accepted| == s.written && |s.buffer| == s.slots
    && s.read <= s.written && s.delivered == s.accepted[..s.read]
    && (s.reader.Releasing? ==> s.read < s.written && s.reader.value == s.accepted[s.read])
    && forall i: nat :: Emptied(s) <= i < Filled(s) ==> s.buffer[i % s.slots] == ValueAt(s, i)
  }

  ghost predicate Inv<T>(s: State<T>) {
    Indices(s) && Lags(s) && Values(s)
  }

  lemma {:induction false} InitialInv<T>(slots: nat)
    requires slots >= 2
    ensures Inv(Initial<T>(slots))
  {
    SmallMod(0, slots);
  }

  /** Counts less than a lap apart have equal indices only if they are equal. */
  lemma {:induction false} SameIndex(a: nat, b: nat, m: nat)
    requires m > 0 && a <= b < a + m
    ensures a % m == b % m <==> a == b
  {
    if a < b {
      ModApart(a, b, m);
    }
  }

  lemma {:induction false} StepKeepsIndices<T>(s: State<T>, step: Step<T>)
    requires Inv(s) && Enabled(s, step)
    ensures Indices(Next(s, step))
  {
    ModNext(s.written, s.slots);
    ModNext(s.read, s.slots);
  }

  lemma {:induction false} StepKeepsLags<T>(s: State<T>, step: Step<T>)
    requires Inv(s) && Enabled(s, step)
    ensures Lags(Next(s, step))
  {
    match step
    case HasRoom =>
      ModNext(s.written, s.slots);
      ModShift(s.readSeen, 1, s.slots);
    case LoadReadIndex(n) =>
      ModNext(s.written, s.slots);
      ModShift(n, 1, s.slots);
    case LoadWriteIndex(n) =>
      SameIndex(s.read, n, s.slots);
    case HasValue =>
    case _ =>
  }

  /** The writer's slot holds no value whose reading is still to be published. */
  lemma {:induction false} StoreIsClear<T>(s: State<T>, i: nat)
    requires Inv(s) && s.writer.Storing? && s.read <= i < s.written
    ensures i % s.slots != s.writeIndex
  {
    SameIndex(i, s.written, s.slots);
  }

  lemma {:induction false} TakeIsClear<T>(s: State<T>, i: nat)
    requires Inv(s) && s.reader.Taking? && s.read < i < Filled(s)
    ensures i % s.slots != s.readIndex
  {
    SameIndex(s.read, i, s.slots);
  }

  lemma {:induction false} StepKeepsValues<T>(s: State<T>, step: Step<T>)
    requires Inv(s) && Enabled(s, step)
    ensures Values(Next(s, step))
  {
    var t := Next(s, step);
    forall i: nat | Emptied(t) <= i < Filled(t) ensures t.buffer[i % t.slots] == ValueAt(t, i) {
      match step
      case StoreSlot =>
        if i < s.written {
          StoreIsClear(s, i);
          assert s.buffer[i % s.slots] == ValueAt(s, i);
        }
      case TakeSlot =>
        TakeIsClear(s, i);
        assert s.buffer[i % s.slots] == ValueAt(s, i);
      case _ =>
        assert s.buffer[i % s.slots] == ValueAt(s, i);
    }
    if step.TakeSlot? {
      assert s.buffer[s.read % s.slots] == ValueAt(s, s.read);
    }
  }

  /** Every step of either thread keeps the invariant. */
  lemma {:induction false} StepKeepsInv<T>(s: State<T>, step: Step<T>)
    requires Inv(s) && Enabled(s, step)
    ensures Inv(Next(s, step))
  {
    StepKeepsIndices(s, step);
    StepKeepsLags(s, step);
    StepKeepsValues(s, step);
  }

  // Runs: any interleaving of steps of the two threads

  predicate Runs<T>(s: State<T>, steps: seq<Step<T>>)
    decreases |steps|
  {
    steps == [] || (s.slots > 0 && Enabled(s, steps[0]) && Runs(Next(s, steps[0]), steps[1..]))
  }

  function Exec<T>(s: State<T>, steps: seq<Step<T>>): State<T>
    requires Runs(s, steps)
    decreases |steps|
  {
    if steps == [] then s else Exec(Next(s, steps[0]), steps[1..])
  }

  lemma {:induction false} RunKeepsInv<T>(s: State<T>, steps: seq<Step<T>>)
    requires Inv(s) && Runs(s, steps)
    ensures Inv(Exec(s, steps))
    decreases |steps|
  {
    if steps != [] {
      StepKeepsInv(s, steps[0]);
      RunKeepsInv(Next(s, steps[0]), steps[1..]);
    }
  }

  /** In every interleaving: the values delivered are the values accepted, once each, in order, up to some point;
      at most slots - 1 are held; and each cache is a value its index had. */
  lemma {:induction false} EveryRunIsFifo<T>(slots: nat, steps: seq<Step<T>>)
    requires slots >= 2 && Runs(Initial<T>(slots), steps)
    ensures var s := Exec(Initial<T>(slots), steps);
            && |s.delivered| <= |s.accepted| && s.delivered == s.accepted[..|s.delivered|]
            && |s.accepted| - |s.delivered| <= slots - 1
            && s.readSeen <= |s.delivered| <= s.writtenSeen <= |s.accepted|
  {
    InitialInv<T>(slots);
    RunKeepsInv(Initial<T>(slots), steps);
    RunKeepsSlots(Initial<T>(slots), steps);
  }

  /** In every interleaving: when the writer is about to store, its slot is not one whose reading is still to be
      published, so neither the slot the reader is about to take from nor the one it has just taken; when the
      reader is about to take, its slot holds the next value. */
  lemma {:induction false} EveryRunIsRaceFree<T>(slots: nat, steps: seq<Step<T>>)
    requires slots >= 2 && Runs(Initial<T>(slots), steps)
    ensures var s := Exec(Initial<T>(slots), steps);
            && |s.buffer| == slots && s.writeIndex < slots && s.readIndex < slots
            && (s.writer.Storing? ==> forall i: nat :: |s.delivered| <= i < |s.accepted| ==> i % slots != s.writeIndex)
            && (s.writer.Storing? && (s.reader.Taking? || s.reader.Releasing?) ==> s.writeIndex != s.readIndex)
            && (s.reader.Taking? ==> |s.delivered| < |s.accepted|
                                     && s.buffer[s.readIndex] == Full(s.accepted[|s.delivered|]))
  {
    InitialInv<T>(slots);
    RunKeepsInv(Initial<T>(slots), steps);
    var s := Exec(Initial<T>(slots), steps);
    RunKeepsSlots(Initial<T>(slots), steps);
    if s.writer.Storing? {
      forall i: nat | |s.delivered| <= i < |s.accepted| ensures i % slots != s.writeIndex {
        StoreIsClear(s, i);
      }
    }
    if s.reader.Taking? {
      assert s.buffer[s.read % slots] == ValueAt(s, s.read);
    }
  }

  lemma {:induction false} RunKeepsSlots<T>(s: State<T>, steps: seq<Step<T>>)
    requires Runs(s, steps)
    ensures Exec(s, steps).slots == s.slots
    decreases |steps|
  {
    if steps != [] {
      RunKeepsSlots(Next(s, steps[0]), steps[1..]);
    }
  }

  /** A load decides: the writer goes on to store if and only if the reader was seen fewer than slots - 1 values
      behind, and gives up only when not; the reader goes on to take if and only if something not yet taken was
      seen published, and gives up only when not.  When the load returned the current index, a queue refused is
      full, or empty. */
  lemma {:induction false} RefusalsAreJustified<T>(s: State<T>, step: Step<T>)
    requires Inv(s) && Enabled(s, step)
    ensures step.LoadReadIndex? ==>
              (Next(s, step).writer.Storing? <==> |s.accepted| - step.n < s.slots - 1)
    ensures step.LoadWriteIndex? ==> (Next(s, step).reader.Taking? <==> |s.delivered| < step.n)
    ensures step.LoadReadIndex? && Next(s, step).writer.WriterIdle? ==> |s.accepted| - step.n == s.slots - 1
    ensures step.LoadWriteIndex? && Next(s, step).reader.ReaderIdle? ==> |s.delivered| == step.n
  {
    match step
    case LoadReadIndex(n) =>
      ModNext(s.written, s.slots);
      ModShift(n, 1, s.slots);
      if s.written + 1 < n + s.slots {
        SameIndex(n, s.written + 1, s.slots);
      }
    case LoadWriteIndex(n) => SameIndex(s.read, n, s.slots);
    case _ =>
  }

  /** A step that lets one of two waiting threads go on. */
  function Unblocking<T>(s: State<T>): Step<T> {
    if s.NextWrite() != s.readIndexCache then HasRoom
    else if s.NextWrite() != s.readIndex then LoadReadIndex(s.read)
    else if s.readIndex != s.writeIndexCache then HasValue
    else LoadWriteIndex(s.written)
  }

  /** What the extra slot is for: a queue is never full and empty at once, so in every interleaving, when both
      threads are at their checks, one of them can go on. */
  lemma {:induction false} NoRunBlocksBoth<T>(slots: nat, steps: seq<Step<T>>)
    requires slots >= 2 && Runs(Initial<T>(slots), steps)
    ensures var s := Exec(Initial<T>(slots), steps);
            && s.slots == slots
            && (s.NextWrite() != s.readIndex || s.readIndex != s.writeIndex)
            && (s.writer.Checking? && s.reader.Looking? ==>
                  && Enabled(s, Unblocking(s))
                  && (Next(s, Unblocking(s)).writer.Storing? || Next(s, Unblocking(s)).reader.Taking?))
  {
    InitialInv<T>(slots);
    RunKeepsInv(Initial<T>(slots), steps);
    RunKeepsSlots(Initial<T>(slots), steps);
    var s := Exec(Initial<T>(slots), steps);
    ModNext(s.written, slots);
    SameIndex(s.written, s.written + 1, slots);
  }

  // What becomes of a write, and of a read, once begun

  /** The value the writer is busy with. */
  function Pending<T>(s: State<T>): seq<T> {
    match s.writer
    case WriterIdle => []
    case Checking(value, _) => [value]
    case Storing(value) => [value]
    case Publishing(value) => [value]
  }

  /** The number of reads the reader is busy with. */
  function Waiting<T>(s: State<T>): nat {
    if s.reader.ReaderIdle? then 0 else 1
  }

  /** The step turns down a write that would not wait: the reader was seen a full queue behind. */
  predicate TurnsDownWrite<T>(s: State<T>, step: Step<T>) {
    step.LoadReadIndex? && s.writer.Checking? && !s.writer.blocking && |s.accepted| - step.n >= s.slots - 1
  }

  predicate TurnsDownRead<T>(s: State<T>, step: Step<T>) {
    step.LoadWriteIndex? && s.reader.Looking? && !s.reader.blocking && |s.delivered| >= step.n
  }

  /** The values of the writes begun in a run and not turned down, after those begun before. */
  function Begun<T>(s: State<T>, steps: seq<Step<T>>, before: seq<T>): seq<T>
    requires Runs(s, steps)
    decreases |steps|
  {
    if steps == [] then before
    else
      var now := if steps[0].BeginWrite? then before + [steps[0].value]
                 else if TurnsDownWrite(s, steps[0]) && before != [] then before[..|before| - 1]
                 else before;
      Begun(Next(s, steps[0]), steps[1..], now)
  }

  /** The number of the reads begun in a run and not turned down, and those begun before. */
  function ReadsBegun<T>(s: State<T>, steps: seq<Step<T>>, before: int): int
    requires Runs(s, steps)
    decreases |steps|
  {
    if steps == [] then before
    else
      var now := if steps[0].BeginRead? then before + 1 else if TurnsDownRead(s, steps[0]) then before - 1 else before;
      ReadsBegun(Next(s, steps[0]), steps[1..], now)
  }

  /** What one step does to the values accepted and pending, and to the reads finished and pending. */
  lemma {:induction false} StepKeepsBegun<T>(s: State<T>, step: Step<T>)
    requires Inv(s) && Enabled(s, step)
    ensures var t := Next(s, step);
            && t.accepted + Pending(t)
               == (if step.BeginWrite? then s.accepted + Pending(s) + [step.value]
                   else if TurnsDownWrite(s, step) then s.accepted
                   else s.accepted + Pending(s))
            && |t.delivered| + Waiting(t)
               == |s.delivered| + Waiting(s) + (if step.BeginRead? then 1 else if TurnsDownRead(s, step) then -1 else 0)
  {
    RefusalsAreJustified(s, step);
    WaitsWhenTurnedDown(s, step);
  }

  /** A load that finds the queue full, or empty, sends away only those who would not wait. */
  lemma {:induction false} WaitsWhenTurnedDown<T>(s: State<T>, step: Step<T>)
    requires Inv(s) && Enabled(s, step)
    ensures step.LoadReadIndex? && !Next(s, step).writer.Storing? ==>
              Next(s, step).writer == if s.writer.blocking then s.writer else WriterIdle
    ensures step.LoadWriteIndex? && !Next(s, step).reader.Taking? ==>
              Next(s, step).reader == if s.reader.blocking then s.reader else ReaderIdle
  {
  }

  lemma {:induction false} RunKeepsBegun<T>(s: State<T>, steps: seq<Step<T>>)
    requires Inv(s) && Runs(s, steps)
    ensures var t := Exec(s, steps);
            && t.accepted + Pending(t) == Begun(s, steps, s.accepted + Pending(s))
            && |t.delivered| + Waiting(t) == ReadsBegun(s, steps, |s.delivered| + Waiting(s))
    decreases |steps|
  {
    if steps != [] {
      StepKeepsInv(s, steps[0]);
      StepKeepsBegun(s, steps[0]);
      RunKeepsBegun(Next(s, steps[0]), steps[1..]);
      if TurnsDownWrite(s, steps[0]) {
        assert (s.accepted + Pending(s))[..|s.accepted|] == s.accepted;
      }
    }
  }

  /** In every interleaving the values accepted, and the one the writer is busy with, are those of all writes begun,
      in order, except the ones that would not wait and met a full queue; a write that waits ends only by being
      published.  The same holds of the number of reads. */
  lemma {:induction false} EveryRunKeepsBegun<T>(slots: nat, steps: seq<Step<T>>)
    requires slots >= 2 && Runs(Initial<T>(slots), steps)
    ensures var s := Exec(Initial<T>(slots), steps);
            && s.accepted + Pending(s) == Begun(Initial<T>(slots), steps, [])
            && |s.delivered| + Waiting(s) == ReadsBegun(Initial<T>(slots), steps, 0)
  {
    InitialInv<T>(slots);
    RunKeepsBegun(Initial<T>(slots), steps);
    assert Initial<T>(slots).accepted + Pending(Initial<T>(slots)) == [];
  }

  /** What size() computes from the two indices. */
  function SizeOf(writeIndex: nat, readIndex: nat, slots: nat): int {
    if writeIndex >= readIndex then writeIndex - readIndex else slots - readIndex + writeIndex
  }

  /** With both threads idle, the difference of the indices, wrapped, is the number of values accepted and not
      delivered, never more than the capacity, and zero exactly when the indices are equal. */
  lemma {:induction false} SizeIsExact<T>(s: State<T>)
    requires Inv(s)
    ensures SizeOf(s.writeIndex, s.readIndex, s.slots) == |s.accepted| - |s.delivered| <= s.slots - 1
    ensures s.writeIndex == s.readIndex <==> |s.accepted| == |s.delivered|
  {
    SameIndex(s.read, s.written, s.slots);
    ModDistance(s.read, s.written, s.slots);
  }
}
