// The lock-free ring of one producer and one consumer, one atomic step at a
// time. FrameRingBuffer and the exporter's event queue are both this ring.
// Steps are sequentially consistent: each index is written by one thread only,
// and the acquire/release pairs publish a slot before its index.
module SpscRing {
  import opened Wrappers

  // A slot is Torn while the producer is copying into it.
  datatype Slot<+T> = Torn | Full(frame: T)

  // Where the producer stands in Push or Size. Local variables are arguments.
  datatype Producer<+T> =
    | PIdle
    | PLoaded(x: T, write: nat)
    | PChecked(x: T, write: nat, next: nat)
    | PCopying(x: T, write: nat, next: nat)
    | PCopied(x: T, next: nat)
    | PSizing(write: nat)
    | PSized(size: int)

  // Where the consumer stands in Pop, Peek or Size.
  datatype Consumer<+T> =
    | CIdle
    | CLoaded(read: nat)
    | CCopying(read: nat)
    | CCopied(read: nat, got: T)
    | CPeeking(read: nat)
    | CSizing(write: nat)
    | CSized(size: int)

  // The shared memory and both threads, with the history of completed calls.
  // `peeked` is what the last Peek since the last Pop pointed at.
  datatype Ring<+T> = Ring(
    capacity: nat, slots: seq<Slot<T>>, write: nat, read: nat,
    producer: Producer<T>, consumer: Consumer<T>,
    pushed: seq<T>, popped: seq<T>, peeked: Option<T>)

  datatype Step<+T> =
    | BeginPush(x: T) | LoadRead | BeginCopyIn | EndCopyIn | StoreWrite
    | BeginPop | LoadWrite | EndCopyOut | StoreRead
    | BeginPeek | EndPeek
    | ProducerSizeWrite | ProducerSizeRead | ProducerSizeReturn
    | ConsumerSizeWrite | ConsumerSizeRead | ConsumerSizeReturn

  function Init<T>(capacity: nat, junk: T): Ring<T> {
    Ring(capacity, Repeat(Full(junk), capacity), 0, 0, PIdle, CIdle, [], [], None)
  }

  function Repeat<T>(x: T, n: nat): (s: seq<T>)
    ensures |s| == n && forall i :: 0 <= i < n ==> s[i] == x
  {
    if n == 0 then [] else [x] + Repeat(x, n - 1)
  }

  function SizeOf(capacity: nat, write: int, read: int): int {
    if write >= read then write - read else capacity - (read - write)
  }

  // The step is the next one of its thread.
  predicate InTurn<T>(s: Ring<T>, step: Step<T>) {
    match step
    case BeginPush(_) => s.producer.PIdle?
    case LoadRead => s.producer.PLoaded?
    case BeginCopyIn => s.producer.PChecked?
    case EndCopyIn => s.producer.PCopying?
    case StoreWrite => s.producer.PCopied?
    case BeginPop => s.consumer.CIdle?
    case LoadWrite => s.consumer.CLoaded?
    case EndCopyOut => s.consumer.CCopying?
    case StoreRead => s.consumer.CCopied?
    case BeginPeek => s.consumer.CIdle?
    case EndPeek => s.consumer.CPeeking?
    case ProducerSizeWrite => s.producer.PIdle?
    case ProducerSizeRead => s.producer.PSizing?
    case ProducerSizeReturn => s.producer.PSized?
    case ConsumerSizeWrite => s.consumer.CIdle?
    case ConsumerSizeRead => s.consumer.CSizing?
    case ConsumerSizeReturn => s.consumer.CSized?
  }

  // A step out of turn, out of range or reading a torn slot has no meaning
  // here. NeverStuck shows that the last two never come up in a run. LoadRead,
  // LoadWrite and EndPeek also stand for the early returns on a full or empty
  // ring.
  predicate Enabled<T>(s: Ring<T>, step: Step<T>) {
    && s.capacity > 0 && |s.slots| == s.capacity
    && InTurn(s, step)
    && (step.BeginCopyIn? || step.EndCopyIn? ==> s.producer.write < s.capacity)
    && (step.EndCopyOut? || (step.EndPeek? && s.consumer.read != s.write) ==>
          s.consumer.read < s.capacity && s.slots[s.consumer.read].Full?)
  }

  function Apply<T>(s: Ring<T>, step: Step<T>): Ring<T>
    requires Enabled(s, step)
  {
    match step
    case BeginPush(x) => s.(producer := PLoaded(x, s.write))
    case LoadRead =>
      var next := (s.producer.write + 1) % s.capacity;
      if next == s.read then s.(producer := PIdle)
      else s.(producer := PChecked(s.producer.x, s.producer.write, next))
    case BeginCopyIn =>
      s.(slots := s.slots[s.producer.write := Torn],
         producer := PCopying(s.producer.x, s.producer.write, s.producer.next))
    case EndCopyIn =>
      s.(slots := s.slots[s.producer.write := Full(s.producer.x)],
         producer := PCopied(s.producer.x, s.producer.next))
    case StoreWrite =>
      s.(write := s.producer.next, producer := PIdle, pushed := s.pushed + [s.producer.x])
    case BeginPop => s.(consumer := CLoaded(s.read))
    case LoadWrite =>
      if s.consumer.read == s.write then s.(consumer := CIdle) else s.(consumer := CCopying(s.consumer.read))
    case EndCopyOut =>
      s.(consumer := CCopied(s.consumer.read, s.slots[s.consumer.read].frame))
    case StoreRead =>
      s.(read := (s.consumer.read + 1) % s.capacity, consumer := CIdle,
         popped := s.popped + [s.consumer.got], peeked := None)
    case BeginPeek => s.(consumer := CPeeking(s.read))
    case EndPeek =>
      s.(consumer := CIdle,
         peeked := if s.consumer.read == s.write then None else Some(s.slots[s.consumer.read].frame))
    case ProducerSizeWrite => s.(producer := PSizing(s.write))
    case ProducerSizeRead => s.(producer := PSized(SizeOf(s.capacity, s.producer.write, s.read)))
    case ProducerSizeReturn => s.(producer := PIdle)
    case ConsumerSizeWrite => s.(consumer := CSizing(s.write))
    case ConsumerSizeRead => s.(consumer := CSized(SizeOf(s.capacity, s.consumer.write, s.read)))
    case ConsumerSizeReturn => s.(consumer := CIdle)
  }

  predicate Pushing<T>(p: Producer<T>) {
    p.PLoaded? || p.PChecked? || p.PCopying? || p.PCopied?
  }

  predicate Offers<T(==)>(p: Producer<T>, x: T) {
    Pushing(p) && p.x == x
  }

  // ---- what the ring means ----

  function Occupancy<T>(s: Ring<T>): int {
    |s.pushed| - |s.popped|
  }

  // The queue the ring stands for.
  function Queue<T>(s: Ring<T>): seq<T>
    requires |s.popped| <= |s.pushed|
  {
    s.pushed[|s.popped|..]
  }

  // The slot k places after the read index.
  function Idx(capacity: nat, read: nat, k: nat): int {
    if read + k < capacity then read + k else read + k - capacity
  }

  ghost predicate QueueInv<T>(s: Ring<T>) {
    && s.capacity > 0 && |s.slots| == s.capacity && s.read < s.capacity
    && s.popped <= s.pushed
    && Occupancy(s) <= s.capacity - 1
    && s.write == Idx(s.capacity, s.read, Occupancy(s))
    && forall k :: 0 <= k < Occupancy(s) ==>
         s.slots[Idx(s.capacity, s.read, k)] == Full(s.pushed[|s.popped| + k])
  }

  ghost predicate ProducerInv<T>(s: Ring<T>)
    requires QueueInv(s)
  {
    match s.producer
    case PIdle => true
    case PLoaded(_, w) => w == s.write
    case PChecked(_, w, next) => w == s.write && next == Idx(s.capacity, s.write, 1) && Occupancy(s) < s.capacity - 1
    case PCopying(_, w, next) => w == s.write && next == Idx(s.capacity, s.write, 1) && Occupancy(s) < s.capacity - 1
    case PCopied(x, next) =>
      next == Idx(s.capacity, s.write, 1) && Occupancy(s) < s.capacity - 1 && s.slots[s.write] == Full(x)
    case PSizing(w) => w == s.write
    case PSized(size) => Occupancy(s) <= size
  }

  ghost predicate ConsumerInv<T>(s: Ring<T>)
    requires QueueInv(s)
  {
    && (s.peeked.Some? ==> Occupancy(s) > 0 && s.peeked.value == s.pushed[|s.popped|])
    && match s.consumer
       case CIdle => true
       case CLoaded(r) => r == s.read
       case CCopying(r) => r == s.read && Occupancy(s) > 0
       case CCopied(r, got) => r == s.read && Occupancy(s) > 0 && got == s.pushed[|s.popped|]
       case CPeeking(r) => r == s.read
       case CSizing(w) => w < s.capacity && SizeOf(s.capacity, w, s.read) <= Occupancy(s)
       case CSized(size) => size <= Occupancy(s)
  }

  ghost predicate Inv<T>(s: Ring<T>) {
    QueueInv(s) && ProducerInv(s) && ConsumerInv(s)
  }

  lemma InitInv<T>(capacity: nat, junk: T)
    requires capacity > 0
    ensures Inv(Init(capacity, junk)) && Queue(Init(capacity, junk)) == []
  {
  }

  lemma Successor(capacity: nat, i: nat)
    requires i < capacity
    ensures (i + 1) % capacity == Idx(capacity, i, 1)
  {
    if i + 1 < capacity {
      SmallMod(i + 1, capacity);
    }
  }

  lemma SmallMod(a: nat, b: nat)
    requires a < b
    ensures a % b == a
  {
  }

  lemma StoreWriteInv<T>(s: Ring<T>)
    requires Inv(s) && s.producer.PCopied?
    ensures Inv(Apply(s, StoreWrite))
    ensures Queue(Apply(s, StoreWrite)) == Queue(s) + [s.producer.x]
  {
    var t := Apply(s, StoreWrite);
    var n := Occupancy(s);
    assert t.write == Idx(s.capacity, s.read, n + 1);
    forall k | 0 <= k < Occupancy(t)
      ensures t.slots[Idx(t.capacity, t.read, k)] == Full(t.pushed[|t.popped| + k])
    {
      if k < n {
        assert s.slots[Idx(s.capacity, s.read, k)] == Full(s.pushed[|s.popped| + k]);
      }
    }
    assert s.popped <= t.pushed;
  }

  lemma StoreReadInv<T>(s: Ring<T>)
    requires Inv(s) && s.consumer.CCopied?
    ensures Inv(Apply(s, StoreRead))
    ensures Queue(s) != [] && Queue(Apply(s, StoreRead)) == Queue(s)[1..] && s.consumer.got == Queue(s)[0]
  {
    Successor(s.capacity, s.read);
    var t := Apply(s, StoreRead);
    assert t.read == Idx(s.capacity, s.read, 1);
    forall k | 0 <= k < Occupancy(t)
      ensures t.slots[Idx(t.capacity, t.read, k)] == Full(t.pushed[|t.popped| + k])
    {
      assert Idx(t.capacity, t.read, k) == Idx(s.capacity, s.read, k + 1);
      assert s.slots[Idx(s.capacity, s.read, k + 1)] == Full(s.pushed[|s.popped| + (k + 1)]);
    }
    assert t.popped <= t.pushed;
  }

  // Copying into the free slot touches no slot of the queue.
  lemma CopyInInv<T>(s: Ring<T>, step: Step<T>)
    requires Inv(s) && (step.BeginCopyIn? || step.EndCopyIn?) && Enabled(s, step)
    ensures Inv(Apply(s, step))
  {
    var t := Apply(s, step);
    forall k | 0 <= k < Occupancy(t)
      ensures t.slots[Idx(t.capacity, t.read, k)] == Full(t.pushed[|t.popped| + k])
    {
      assert Idx(s.capacity, s.read, k) != s.write;
      assert s.slots[Idx(s.capacity, s.read, k)] == Full(s.pushed[|s.popped| + k]);
    }
  }

  // Every other step moves one thread and leaves memory and queue alone.
  lemma LocalInv<T>(s: Ring<T>, step: Step<T>)
    requires Inv(s) && Enabled(s, step)
    requires !step.StoreWrite? && !step.StoreRead? && !step.BeginCopyIn? && !step.EndCopyIn?
    ensures Inv(Apply(s, step)) && Queue(Apply(s, step)) == Queue(s)
  {
    var t := Apply(s, step);
    assert t.slots == s.slots && t.pushed == s.pushed && t.popped == s.popped;
    assert QueueInv(t);
    LocalProducer(s, step);
    LocalConsumer(s, step);
  }

  lemma LocalProducer<T>(s: Ring<T>, step: Step<T>)
    requires Inv(s) && Enabled(s, step) && QueueInv(Apply(s, step))
    requires !step.StoreWrite? && !step.StoreRead? && !step.BeginCopyIn? && !step.EndCopyIn?
    ensures ProducerInv(Apply(s, step))
  {
    Successor(s.capacity, s.write);
  }

  lemma LocalConsumer<T>(s: Ring<T>, step: Step<T>)
    requires Inv(s) && Enabled(s, step) && QueueInv(Apply(s, step))
    requires !step.StoreWrite? && !step.StoreRead? && !step.BeginCopyIn? && !step.EndCopyIn?
    ensures ConsumerInv(Apply(s, step))
  {
    assert Occupancy(s) > 0 ==> s.slots[Idx(s.capacity, s.read, 0)] == Full(s.pushed[|s.popped| + 0]);
  }

  // Every atomic step keeps the invariant and does to the queue what a plain
  // FIFO does: StoreWrite appends, StoreRead takes the head, nothing else acts.
  lemma StepRefines<T>(s: Ring<T>, step: Step<T>)
    requires Inv(s) && Enabled(s, step)
    ensures Inv(Apply(s, step))
    ensures Apply(s, step).capacity == s.capacity
    ensures Queue(Apply(s, step)) ==
            match step
            case StoreWrite => Queue(s) + [s.producer.x]
            case StoreRead => Queue(s)[1..]
            case _ => Queue(s)
    ensures step.StoreRead? ==> Queue(s) != [] && s.consumer.got == Queue(s)[0]
  {
    match step
    case StoreWrite => StoreWriteInv(s);
    case StoreRead => StoreReadInv(s);
    case BeginCopyIn => CopyInInv(s, step);
    case EndCopyIn => CopyInInv(s, step);
    case _ => LocalInv(s, step);
  }

  // In a reachable ring every step whose turn it is can be taken: no slot is
  // addressed out of range and none is read while it is being written.
  lemma NeverStuck<T>(s: Ring<T>, step: Step<T>)
    requires Inv(s)
    ensures InTurn(s, step) <==> Enabled(s, step)
  {
    assert Occupancy(s) > 0 ==> s.slots[Idx(s.capacity, s.read, 0)] == Full(s.pushed[|s.popped| + 0]);
  }

  // The history grows at the two index stores only; each step moves one thread.
  lemma StepHistory<T>(s: Ring<T>, step: Step<T>)
    requires Enabled(s, step)
    ensures Apply(s, step).pushed == if step.StoreWrite? then s.pushed + [s.producer.x] else s.pushed
    ensures Apply(s, step).popped == if step.StoreRead? then s.popped + [s.consumer.got] else s.popped
  {
  }

  // ---- every interleaving ----

  // The state after the steps, None if one of them was out of turn.
  function Run<T>(s: Ring<T>, steps: seq<Step<T>>): Option<Ring<T>> {
    if steps == [] then
      Some(s)
    else
      var before := Run(s, steps[..|steps| - 1]);
      if before.Some? && Enabled(before.value, steps[|steps| - 1])
      then Some(Apply(before.value, steps[|steps| - 1])) else None
  }

  lemma {:induction false} RunInv<T>(s: Ring<T>, steps: seq<Step<T>>)
    requires Inv(s) && Run(s, steps).Some?
    ensures Inv(Run(s, steps).value) && Run(s, steps).value.capacity == s.capacity
  {
    if steps != [] {
      RunInv(s, steps[..|steps| - 1]);
      StepRefines(Run(s, steps[..|steps| - 1]).value, steps[|steps| - 1]);
    }
  }

  // The slot the consumer is about to read, if any.
  ghost predicate Reading<T>(s: Ring<T>) {
    s.consumer.CCopying? || (s.consumer.CPeeking? && s.consumer.read != s.write)
  }

  // In every interleaving: what was popped is a prefix of what was pushed, the
  // ring never holds more than capacity - 1 frames, a slot being read by Pop or
  // Peek is in range, whole, the oldest frame and not the one being written,
  // and no thread is ever kept from its next step.
  lemma EveryRunSafe<T>(capacity: nat, junk: T, steps: seq<Step<T>>)
    requires capacity > 0 && Run(Init(capacity, junk), steps).Some?
    ensures var s := Run(Init(capacity, junk), steps).value;
            && s.popped <= s.pushed
            && |s.pushed| - |s.popped| <= capacity - 1
            && (s.producer.PChecked? || s.producer.PCopying? ==> s.producer.write < |s.slots|)
            && (s.producer.PCopying? && Reading(s) ==> s.producer.write != s.consumer.read)
            && (Reading(s) ==>
                  && |s.popped| < |s.pushed| && s.consumer.read < |s.slots|
                  && s.slots[s.consumer.read] == Full(s.pushed[|s.popped|]))
            && forall step :: InTurn(s, step) <==> Enabled(s, step)
  {
    InitInv(capacity, junk);
    RunInv(Init(capacity, junk), steps);
    var s := Run(Init(capacity, junk), steps).value;
    if Reading(s) {
      assert s.slots[Idx(s.capacity, s.read, 0)] == Full(s.pushed[|s.popped| + 0]);
    }
    forall step: Step<T>
      ensures InTurn(s, step) <==> Enabled(s, step)
    {
      NeverStuck(s, step);
    }
  }

  // A call gives up exactly when, at that moment, the ring is full or empty.
  lemma EarlyReturns<T>(s: Ring<T>, step: Step<T>)
    requires Inv(s) && Enabled(s, step)
    ensures step.LoadRead? ==> (Apply(s, step).producer.PIdle? <==> Occupancy(s) == s.capacity - 1)
    ensures step.LoadWrite? ==> (Apply(s, step).consumer.CIdle? <==> Occupancy(s) == 0)
    ensures step.EndPeek? ==> (Apply(s, step).peeked.None? <==> Occupancy(s) == 0)
  {
    Successor(s.capacity, s.write);
  }

  // Until the consumer's next pop a peeked frame stays in its slot, whatever
  // the producer does, and that pop returns it.
  lemma PeekedIsNext<T>(s: Ring<T>, step: Step<T>)
    requires Inv(s) && s.peeked.Some? && Enabled(s, step)
    ensures s.slots[s.read] == Full(s.peeked.value)
    ensures if step.StoreRead? then Apply(s, step).popped == s.popped + [s.peeked.value]
            else Apply(s, step).peeked == s.peeked
  {
    assert s.slots[Idx(s.capacity, s.read, 0)] == Full(s.pushed[|s.popped| + 0]);
  }

  // Size answers the consumer with at most, and the producer with at least,
  // the number of frames in the ring from the second load to the return.
  lemma SizeIsOneSided<T>(capacity: nat, junk: T, steps: seq<Step<T>>)
    requires capacity > 0 && Run(Init(capacity, junk), steps).Some?
    ensures var s := Run(Init(capacity, junk), steps).value;
            && (s.consumer.CSized? ==> s.consumer.size <= Occupancy(s))
            && (s.producer.PSized? ==> s.producer.size >= Occupancy(s))
  {
    InitInv(capacity, junk);
    RunInv(Init(capacity, junk), steps);
  }

  // Called by either thread while the other one rests, Size is exact.
  lemma SizeAtRest<T>(s: Ring<T>)
    requires Inv(s)
    ensures SizeOf(s.capacity, s.write, s.read) == Occupancy(s)
  {
  }

  // A third thread loads both indices at moments of its own, s and then t. Its
  // answer is right for t exactly when the write index is then what it was.
  lemma OutsiderExactly<T>(s: Ring<T>, steps: seq<Step<T>>)
    requires Inv(s) && Run(s, steps).Some?
    ensures var t := Run(s, steps).value;
            && t.capacity == s.capacity
            && (SizeOf(s.capacity, s.write, t.read) == Occupancy(t) <==> s.write == t.write)
  {
    hide Run;
    RunInv(s, steps);
    SizeAtRest(Run(s, steps).value);
  }

  // So it is right when no push is completed between its two loads.
  lemma {:induction false} OutsiderUndisturbed<T>(s: Ring<T>, steps: seq<Step<T>>)
    requires Inv(s) && Run(s, steps).Some? && forall i :: 0 <= i < |steps| ==> !steps[i].StoreWrite?
    ensures var t := Run(s, steps).value;
            && t.write == s.write && t.pushed == s.pushed
            && SizeOf(s.capacity, s.write, t.read) == Occupancy(t)
  {
    if steps != [] {
      var n := |steps| - 1;
      OutsiderUndisturbed(s, steps[..n]);
      var before := Run(s, steps[..n]).value;
      StepHistory(before, steps[n]);
      assert Apply(before, steps[n]).write == before.write;
    }
    OutsiderExactly(s, steps);
  }

  // Otherwise it can be as wrong as can be: between its two loads a frame passes
  // through, and the empty ring looks full.
  lemma OutsiderSeesFull<T>(capacity: nat, x: T)
    requires capacity >= 2
    ensures var before := Init(capacity, x);
            var after := PopAlone(PushAlone(before, x));
            Inv(after) && Occupancy(after) == 0 && SizeOf(capacity, before.write, after.read) == capacity - 1
  {
    InitInv(capacity, x);
    PushAloneIsPush(Init(capacity, x), x);
    PopAloneIsPop(PushAlone(Init(capacity, x), x));
    Successor(capacity, 0);
  }

  // ---- one call, uninterrupted ----

  function PushAlone<T>(s: Ring<T>, x: T): Ring<T>
    requires s.capacity > 0 && |s.slots| == s.capacity && s.write < s.capacity && s.producer.PIdle?
  {
    var checked := Apply(Apply(s, BeginPush(x)), LoadRead);
    if checked.producer.PIdle? then checked
    else Apply(Apply(Apply(checked, BeginCopyIn), EndCopyIn), StoreWrite)
  }

  function PopAlone<T>(s: Ring<T>): Ring<T>
    requires s.capacity > 0 && |s.slots| == s.capacity && s.read < s.capacity && s.consumer.CIdle?
    requires s.read != s.write ==> s.slots[s.read].Full?
  {
    var checked := Apply(Apply(s, BeginPop), LoadWrite);
    if checked.consumer.CIdle? then checked
    else Apply(Apply(checked, EndCopyOut), StoreRead)
  }

  lemma PushAloneIsPush<T>(s: Ring<T>, x: T)
    requires Inv(s) && s.producer.PIdle?
    ensures var t := PushAlone(s, x);
            && Inv(t) && t.producer.PIdle? && t.consumer == s.consumer && t.capacity == s.capacity
            && Queue(t) == if |Queue(s)| == s.capacity - 1 then Queue(s) else Queue(s) + [x]
  {
    StepRefines(s, BeginPush(x));
    var a := Apply(s, BeginPush(x));
    EarlyReturns(a, LoadRead);
    StepRefines(a, LoadRead);
    var b := Apply(a, LoadRead);
    if b.producer.PChecked? {
      StepRefines(b, BeginCopyIn);
      StepRefines(Apply(b, BeginCopyIn), EndCopyIn);
      StepRefines(Apply(Apply(b, BeginCopyIn), EndCopyIn), StoreWrite);
    }
  }

  lemma PopAloneIsPop<T>(s: Ring<T>)
    requires Inv(s) && s.consumer.CIdle?
    ensures s.read != s.write ==> s.slots[s.read].Full?
    ensures var t := PopAlone(s);
            && Inv(t) && t.consumer.CIdle? && t.producer == s.producer && t.capacity == s.capacity
            && Queue(t) == if Queue(s) == [] then [] else Queue(s)[1..]
  {
    StepRefines(s, BeginPop);
    var a := Apply(s, BeginPop);
    EarlyReturns(a, LoadWrite);
    StepRefines(a, LoadWrite);
    var b := Apply(a, LoadWrite);
    assert Occupancy(s) > 0 ==> s.slots[Idx(s.capacity, s.read, 0)] == Full(s.pushed[|s.popped| + 0]);
    if b.consumer.CCopying? {
      StepRefines(b, EndCopyOut);
      StepRefines(Apply(b, EndCopyOut), StoreRead);
    }
  }

  lemma InRange<T>(s: Ring<T>)
    requires Inv(s)
    ensures s.read < s.capacity == |s.slots| && s.write < s.capacity && s.popped <= s.pushed
    ensures s.read == s.write <==> Queue(s) == []
  {
  }

  lemma HeadIsFull<T>(s: Ring<T>)
    requires Inv(s) && s.read != s.write
    ensures Queue(s) != [] && s.slots[s.read] == Full(Queue(s)[0])
  {
    assert s.slots[Idx(s.capacity, s.read, 0)] == Full(s.pushed[|s.popped| + 0]);
  }

  // An uninterrupted Pop on a non-empty ring, as one assignment to memory.
  lemma PopAloneMemory<T>(s: Ring<T>)
    requires Inv(s) && s.consumer.CIdle?
    ensures s.read != s.write ==> s.slots[s.read].Full?
    ensures PopAlone(s) ==
            if s.read == s.write then s
            else s.(read := (s.read + 1) % s.capacity, popped := s.popped + [s.slots[s.read].frame], peeked := None)
  {
    if s.read != s.write {
      HeadIsFull(s);
    }
  }
}
