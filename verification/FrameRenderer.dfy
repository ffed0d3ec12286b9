// The render loop: pop a frame, then render it or, when it is too late and
// enough frames are waiting, drop it. The producer may act between any two of
// the renderer's steps.
module FrameRenderer {
  import opened Wrappers
  import opened SpscRing

  const DROP_THRESHOLD_US: int := -8000
  const MIN_DEPTH_FOR_DROP: int := 5

  // What became of a popped frame: the time to its deadline (None without a
  // master clock), the buffer size read if any, and how many were waiting.
  datatype Decision<+T> = Decision(frame: T, dropped: bool, gapUs: Option<int>, size: Option<int>, left: int)

  datatype Phase<+T> = Idle | Popping | Holding(frame: T) | Sizing(frame: T, gapUs: int)

  datatype Renderer<+T> = Renderer(
    ring: Ring<T>, phase: Phase<T>,
    framesRendered: nat, framesDropped: nat, correctionsTotal: nat, framesSkipped: nat,
    tries: nat, decided: seq<Decision<T>>)

  // Decide carries the time to the frame's deadline; None is a renderer
  // without a master clock, which renders everything.
  datatype Move<+T> =
    | StartPop | Decide(gapUs: Option<int>) | AfterSize | ConsumerMove(step: Step<T>) | ProducerMove(step: Step<T>)

  predicate IsProducerStep<T>(step: Step<T>) {
    step.BeginPush? || step.LoadRead? || step.BeginCopyIn? || step.EndCopyIn? || step.StoreWrite?
    || step.ProducerSizeWrite? || step.ProducerSizeRead? || step.ProducerSizeReturn?
  }

  // The ring step a move takes, if any.
  function RingStep<T>(m: Move<T>): Option<Step<T>> {
    match m
    case StartPop => Some(BeginPop)
    case Decide(gap) => if gap.Some? && gap.value < DROP_THRESHOLD_US then Some(ConsumerSizeWrite) else None
    case AfterSize => Some(ConsumerSizeReturn)
    case ConsumerMove(step) => Some(step)
    case ProducerMove(step) => Some(step)
  }

  // The move is the next one of its thread.
  predicate InTurn<T>(r: Renderer<T>, m: Move<T>) {
    && (RingStep(m).Some? ==> SpscRing.InTurn(r.ring, RingStep(m).value))
    && match m
       case StartPop => r.phase.Idle?
       case Decide(_) => r.phase.Holding?
       case AfterSize => r.phase.Sizing?
       case ConsumerMove(step) =>
         || (r.phase.Popping? && (step.LoadWrite? || step.EndCopyOut? || step.StoreRead?))
         || (r.phase.Sizing? && step.ConsumerSizeRead?)
       case ProducerMove(step) => IsProducerStep(step)
  }

  predicate Enabled<T>(r: Renderer<T>, m: Move<T>) {
    InTurn(r, m) && (RingStep(m).Some? ==> SpscRing.Enabled(r.ring, RingStep(m).value))
  }

  function Render<T>(r: Renderer<T>, frame: T, gapUs: Option<int>, size: Option<int>): Renderer<T> {
    r.(phase := Idle, framesRendered := r.framesRendered + 1,
       decided := r.decided + [Decision(frame, false, gapUs, size, Occupancy(r.ring))])
  }

  function Drop<T>(r: Renderer<T>, frame: T, gapUs: int, size: int): Renderer<T> {
    r.(phase := Idle, framesDropped := r.framesDropped + 1, correctionsTotal := r.correctionsTotal + 1,
       decided := r.decided + [Decision(frame, true, Some(gapUs), Some(size), Occupancy(r.ring))])
  }

  function Apply<T>(r: Renderer<T>, m: Move<T>): Renderer<T>
    requires Enabled(r, m)
  {
    var next := if RingStep(m).Some? then r.(ring := SpscRing.Apply(r.ring, RingStep(m).value)) else r;
    match m
    case StartPop => next.(phase := Popping, tries := r.tries + 1)
    case Decide(gap) =>
      if gap.Some? && gap.value < DROP_THRESHOLD_US
      then next.(phase := Sizing(r.phase.frame, gap.value)) else Render(next, r.phase.frame, gap, None)
    case AfterSize =>
      if r.ring.consumer.size > MIN_DEPTH_FOR_DROP
      then Drop(next, r.phase.frame, r.phase.gapUs, r.ring.consumer.size)
      else Render(next, r.phase.frame, Some(r.phase.gapUs), Some(r.ring.consumer.size))
    case ConsumerMove(step) =>
      if step.LoadWrite? && next.ring.consumer.CIdle? then next.(phase := Idle, framesSkipped := r.framesSkipped + 1)
      else if step.StoreRead? then next.(phase := Holding(r.ring.consumer.got))
      else next
    case ProducerMove(_) => next
  }

  function Run<T>(r: Renderer<T>, moves: seq<Move<T>>): Option<Renderer<T>> {
    if moves == [] then
      Some(r)
    else
      var before := Run(r, moves[..|moves| - 1]);
      if before.Some? && Enabled(before.value, moves[|moves| - 1])
      then Some(Apply(before.value, moves[|moves| - 1])) else None
  }

  function Start<T>(capacity: nat, junk: T): Renderer<T> {
    Renderer(Init(capacity, junk), Idle, 0, 0, 0, 0, 0, [])
  }

  // ---- what every run keeps ----

  function Frames<T>(ds: seq<Decision<T>>): (fs: seq<T>)
    ensures |fs| == |ds| && forall i :: 0 <= i < |ds| ==> fs[i] == ds[i].frame
  {
    if ds == [] then [] else Frames(ds[..|ds| - 1]) + [ds[|ds| - 1].frame]
  }

  function Drops<T>(ds: seq<Decision<T>>): nat {
    if ds == [] then 0 else Drops(ds[..|ds| - 1]) + if ds[|ds| - 1].dropped then 1 else 0
  }

  function InHand<T>(r: Renderer<T>): seq<T> {
    if r.phase.Holding? || r.phase.Sizing? then [r.phase.frame] else []
  }

  ghost predicate PhaseInv<T>(r: Renderer<T>) {
    match r.phase
    case Idle => r.ring.consumer.CIdle?
    case Popping => r.ring.consumer.CLoaded? || r.ring.consumer.CCopying? || r.ring.consumer.CCopied?
    case Holding(_) => r.ring.consumer.CIdle?
    case Sizing(_, gap) => (r.ring.consumer.CSizing? || r.ring.consumer.CSized?) && gap < -8000
  }

  // A frame is dropped exactly when it is more than 8 ms late and more than five
  // were seen waiting; the buffer is looked at for such a frame only, and holds
  // at least as many as were seen.
  ghost predicate Sound<T>(d: Decision<T>) {
    && (d.dropped <==> d.gapUs.Some? && d.gapUs.value < -8000 && d.size.Some? && d.size.value > 5)
    && (d.size.Some? <==> d.gapUs.Some? && d.gapUs.value < -8000)
    && (d.size.Some? ==> d.size.value <= d.left)
  }

  ghost predicate RendererInv<T>(r: Renderer<T>) {
    && Inv(r.ring) && PhaseInv(r)
    && Frames(r.decided) + InHand(r) == r.ring.popped
    && r.framesDropped == Drops(r.decided) == r.correctionsTotal
    && r.framesRendered + r.framesDropped == |r.decided|
    && r.tries == |r.ring.popped| + r.framesSkipped + (if r.phase.Popping? then 1 else 0)
    && forall i :: 0 <= i < |r.decided| ==> Sound(r.decided[i])
  }

  lemma DecidedSnoc<T>(ds: seq<Decision<T>>, d: Decision<T>)
    ensures Frames(ds + [d]) == Frames(ds) + [d.frame]
    ensures Drops(ds + [d]) == Drops(ds) + if d.dropped then 1 else 0
  {
    assert (ds + [d])[..|ds|] == ds;
  }

  lemma MoveInv<T>(r: Renderer<T>, m: Move<T>)
    requires RendererInv(r) && Enabled(r, m)
    ensures RendererInv(Apply(r, m))
  {
    hide Frames, Drops, Inv, SpscRing.Apply, SpscRing.Enabled;
    if RingStep(m).Some? {
      StepRefines(r.ring, RingStep(m).value);
      StepHistory(r.ring, RingStep(m).value);
    }
    MovePhase(r, m);
    if m.Decide? || m.AfterSize? {
      var done := Apply(r, m).decided;
      if Apply(r, m).phase.Idle? {
        DecidedSnoc(r.decided, done[|r.decided|]);
      }
      if m.AfterSize? {
        SizeBound(r.ring);
      }
    } else if m.ConsumerMove? && m.step.StoreRead? {
      assert Frames(r.decided) + [r.ring.consumer.got] == r.ring.popped + [r.ring.consumer.got];
    }
  }

  lemma SizeBound<T>(s: Ring<T>)
    requires Inv(s)
    ensures s.consumer.CSized? ==> s.consumer.size <= Occupancy(s)
  {
  }

  lemma MovePhase<T>(r: Renderer<T>, m: Move<T>)
    requires PhaseInv(r) && Enabled(r, m)
    ensures PhaseInv(Apply(r, m))
    ensures m.AfterSize? ==> r.ring.consumer.CSized?
    ensures m.ConsumerMove? && m.step.StoreRead? ==> r.ring.consumer.CCopied? && r.phase.Popping?
  {
  }

  // In every interleaving: each popped frame is rendered or dropped, in pop
  // order, dropped exactly when late with enough frames waiting; each try pops a
  // frame or is skipped; a drop always leaves at least six frames in the buffer,
  // and neither thread is ever kept from its next step.
  lemma {:induction false} EveryRun<T>(capacity: nat, junk: T, moves: seq<Move<T>>)
    requires capacity > 0 && Run(Start(capacity, junk), moves).Some?
    ensures var r := Run(Start(capacity, junk), moves).value;
            && RendererInv(r)
            && |r.ring.popped| == r.framesRendered + r.framesDropped + |InHand(r)|
            && Frames(r.decided) <= r.ring.pushed
            && (forall i :: 0 <= i < |r.decided| ==> Sound(r.decided[i]))
            && (forall i :: 0 <= i < |r.decided| && r.decided[i].dropped ==> r.decided[i].left >= 6)
            && r.tries == |r.ring.popped| + r.framesSkipped + (if r.phase.Popping? then 1 else 0)
            && forall m :: InTurn(r, m) <==> Enabled(r, m)
  {
    if moves == [] {
      InitInv(capacity, junk);
    } else {
      EveryRun(capacity, junk, moves[..|moves| - 1]);
      MoveInv(Run(Start(capacity, junk), moves[..|moves| - 1]).value, moves[|moves| - 1]);
    }
    var r := Run(Start(capacity, junk), moves).value;
    forall m: Move<T>
      ensures InTurn(r, m) <==> Enabled(r, m)
    {
      if RingStep(m).Some? {
        NeverStuck(r.ring, RingStep(m).value);
      }
    }
  }
}
