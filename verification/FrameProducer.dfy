// The frame producer in stub mode: frames stamped 0, I, 2I, ... offered to the
// ring buffer one by one, the same frame again after a full buffer. A frame is
// represented by its PTS.
module FrameProducer {
  import opened Wrappers
  import opened SpscRing
  import FrameRingBuffer

  predicate Gapless(ps: seq<int>, interval: int) {
    forall i :: 0 <= i < |ps| ==> ps[i] == i * interval
  }

  lemma NextGapless(ps: seq<int>, interval: int)
    requires Gapless(ps, interval)
    ensures Gapless(ps + [|ps| * interval], interval)
    ensures (|ps| + 1) * interval == |ps| * interval + interval
  {
  }

  // frame_interval_us_: a rounded frame period, at least one microsecond.
  function FrameIntervalUs(targetFps: real): (interval: int)
    requires targetFps != 0.0
    ensures interval >= 1
    ensures interval as real - 0.5 <= 1000000.0 / targetFps < interval as real + 0.5
            || (interval == 1 && 1000000.0 / targetFps < 0.5)
  {
    var rounded := (1000000.0 / targetFps + 0.5).Floor;
    if rounded < 1 then 1 else rounded
  }

  class FrameProducer {
    const interval: int
    const output: FrameRingBuffer.FrameRingBuffer<int>
    var stubPtsCounter: int
    var framesProduced: nat
    var bufferFullCount: nat

    ghost predicate Valid()
      reads this, output, output.buffer
    {
      && output.Valid()
      && Gapless(output.pushed, interval)
      && |output.pushed| == framesProduced
      && stubPtsCounter == framesProduced * interval
    }

    constructor (out: FrameRingBuffer.FrameRingBuffer<int>, targetFps: real)
      requires out.Valid() && out.pushed == [] && targetFps != 0.0
      ensures Valid() && output == out && interval == FrameIntervalUs(targetFps)
    {
      output := out;
      interval := FrameIntervalUs(targetFps);
      stubPtsCounter, framesProduced, bufferFullCount := 0, 0, 0;
    }

    // A full buffer costs a retry, never a frame or a step of the counter.
    method ProduceStubFrame()
      requires Valid()
      modifies this, output, output.buffer
      ensures Valid()
      ensures var full := |old(output.Contents())| == output.capacity - 1;
              && output.Contents() ==
                   (if full then old(output.Contents()) else old(output.Contents()) + [old(framesProduced) * interval])
              && framesProduced == old(framesProduced) + (if full then 0 else 1)
              && bufferFullCount == old(bufferFullCount) + (if full then 1 else 0)
    {
      hide Inv, PushAlone, Queue, Gapless;
      var ok := output.Push(stubPtsCounter);
      if ok {
        NextGapless(old(output.pushed), interval);
        framesProduced := framesProduced + 1;
        stubPtsCounter := stubPtsCounter + interval;
      } else {
        bufferFullCount := bufferFullCount + 1;
      }
    }
  }

  // ---- the producer thread against any consumer ----

  datatype Stub = Stub(ring: Ring<int>, counter: int, produced: nat, full: nat)

  datatype Move = BeginFrame | RingMove(step: Step<int>)

  function RingStep(s: Stub, m: Move): Step<int> {
    if m.BeginFrame? then BeginPush(s.counter) else m.step
  }

  predicate InTurn(s: Stub, m: Move) {
    (m.RingMove? ==> !m.step.BeginPush?) && SpscRing.InTurn(s.ring, RingStep(s, m))
  }

  predicate Enabled(s: Stub, m: Move) {
    InTurn(s, m) && SpscRing.Enabled(s.ring, RingStep(s, m))
  }

  function Apply(s: Stub, m: Move, interval: int): Stub
    requires Enabled(s, m)
  {
    match m
    case BeginFrame => s.(ring := SpscRing.Apply(s.ring, BeginPush(s.counter)))
    case RingMove(step) =>
      var ring := SpscRing.Apply(s.ring, step);
      if step.StoreWrite? then
        Stub(ring, s.counter + interval, s.produced + 1, s.full)
      else if step.LoadRead? && ring.producer.PIdle? then
        Stub(ring, s.counter, s.produced, s.full + 1)
      else
        s.(ring := ring)
  }

  function Run(s: Stub, moves: seq<Move>, interval: int): Option<Stub> {
    if moves == [] then
      Some(s)
    else
      var before := Run(s, moves[..|moves| - 1], interval);
      if before.Some? && Enabled(before.value, moves[|moves| - 1])
      then Some(Apply(before.value, moves[|moves| - 1], interval)) else None
  }

  ghost predicate StubInv(s: Stub, interval: int) {
    && Inv(s.ring)
    && (Pushing(s.ring.producer) ==> Offers(s.ring.producer, s.counter))
    && Gapless(s.ring.pushed, interval)
    && |s.ring.pushed| == s.produced && s.counter == s.produced * interval
  }

  lemma MoveInv(s: Stub, m: Move, interval: int)
    requires StubInv(s, interval) && Enabled(s, m)
    ensures StubInv(Apply(s, m, interval), interval)
  {
    hide Inv;
    StepRefines(s.ring, RingStep(s, m));
  }

  // In every interleaving and after any number of full-buffer retries, the
  // popped frames carry 0, I, 2I, ... with none missing and none repeated, and
  // neither thread is ever kept from its next step.
  lemma {:induction false} GaplessStream(capacity: nat, junk: int, moves: seq<Move>, interval: int)
    requires capacity > 0
    requires Run(Stub(Init(capacity, junk), 0, 0, 0), moves, interval).Some?
    ensures var s := Run(Stub(Init(capacity, junk), 0, 0, 0), moves, interval).value;
            && StubInv(s, interval)
            && Gapless(s.ring.popped, interval)
            && |s.ring.popped| <= s.produced
            && forall m :: InTurn(s, m) <==> Enabled(s, m)
  {
    hide Inv;
    if moves == [] {
      InitInv(capacity, junk);
    } else {
      GaplessStream(capacity, junk, moves[..|moves| - 1], interval);
      var before := Run(Stub(Init(capacity, junk), 0, 0, 0), moves[..|moves| - 1], interval).value;
      MoveInv(before, moves[|moves| - 1], interval);
    }
    var s := Run(Stub(Init(capacity, junk), 0, 0, 0), moves, interval).value;
    PoppedIsPrefix(s.ring);
    forall m
      ensures InTurn(s, m) <==> Enabled(s, m)
    {
      NeverStuck(s.ring, RingStep(s, m));
    }
  }

  lemma PoppedIsPrefix(s: Ring<int>)
    requires Inv(s)
    ensures s.popped <= s.pushed
  {
  }
}
