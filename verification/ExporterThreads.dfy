// The exporter's threads, step by step: one submitter, the worker, and a
// controller that starts and stops the worker. Every ring access is one of the
// ring's atomic steps; every other shared variable is read or written in one
// step of its own.
module ExporterThreads {
  import opened Wrappers
  import opened MetricsStore
  import opened SpscRing

  // SCalling has seen running_ set, SSync has seen it clear.
  datatype Submitter = SIdle | SSync(e: Event) | SCalling(e: Event) | SCounting

  datatype Worker = WExited | WCheckStop | WCheckEmpty | WPopping | WHave(e: Event) | WCounting

  // Between the steps of Start and of Stop. Stop then waits for WExited.
  datatype Controller = Resting | Starting | Launching | Stopping

  // `accepted` holds the events of accepted calls in call order, `applied`
  // those the store has taken, in the order it took them; the latter come from
  // the worker (`byWorker`) and from synchronous calls (`byCaller`).
  datatype Exporter = Exporter(
    ring: Ring<Event>, running: bool, stopRequested: bool,
    controller: Controller, submitter: Submitter, worker: Worker, store: Store,
    calls: nat, synchronous: nat, submitted: nat, processed: nat, overflow: nat,
    accepted: seq<Event>, applied: seq<Event>, byWorker: seq<Event>, byCaller: seq<Event>,
    pushedBeforeStop: nat, pushedAtExit: nat)

  datatype Move =
    | Call(e: Event) | ApplySync | SubmitMove(step: Step<Event>) | CountSubmitted
    | CheckStop | CheckEmpty | WorkMove(step: Step<Event>) | Process | CountProcessed
    | StartRunning | ClearStop | Launch | LaunchFails | StopRunning | StopRequest

  function Initial(junk: Event, slots: nat): Exporter {
    Exporter(Init(slots, junk), false, false, Resting, SIdle, WExited, EMPTY, 0, 0, 0, 0, 0, [], [], [], [], 0, 0)
  }

  predicate IsPushStep(step: Step<Event>) {
    step.LoadRead? || step.BeginCopyIn? || step.EndCopyIn? || step.StoreWrite?
  }

  predicate IsPopStep(step: Step<Event>) {
    step.LoadWrite? || step.EndCopyOut? || step.StoreRead?
  }

  // The ring step a move takes, if any.
  function RingStep(x: Exporter, m: Move): Option<Step<Event>> {
    match m
    case Call(e) => if x.running then Some(BeginPush(e)) else None
    case SubmitMove(step) => Some(step)
    case CheckStop => if x.stopRequested then None else Some(BeginPop)
    case CheckEmpty => if x.ring.read == x.ring.write then None else Some(BeginPop)
    case WorkMove(step) => Some(step)
    case _ => None
  }

  // The move is the next one of its thread.
  predicate InTurn(x: Exporter, m: Move) {
    && (RingStep(x, m).Some? ==> SpscRing.InTurn(x.ring, RingStep(x, m).value))
    && match m
       case Call(_) => x.submitter.SIdle?
       case ApplySync => x.submitter.SSync?
       case SubmitMove(step) => x.submitter.SCalling? && IsPushStep(step)
       case CountSubmitted => x.submitter.SCounting?
       case CheckStop => x.worker.WCheckStop?
       case CheckEmpty => x.worker.WCheckEmpty?
       case WorkMove(step) => x.worker.WPopping? && IsPopStep(step)
       case Process => x.worker.WHave?
       case CountProcessed => x.worker.WCounting?
       case StartRunning => x.controller.Resting? && !x.running && x.worker.WExited?
       case ClearStop => x.controller.Starting?
       case Launch => x.controller.Launching?
       case LaunchFails => x.controller.Launching?
       case StopRunning => x.controller.Resting? && x.running
       case StopRequest => x.controller.Stopping?
  }

  predicate Enabled(x: Exporter, m: Move) {
    InTurn(x, m) && (RingStep(x, m).Some? ==> SpscRing.Enabled(x.ring, RingStep(x, m).value))
  }

  // Popped but not yet applied.
  function InHand(x: Exporter): seq<Event> {
    if x.worker.WHave? then [x.worker.e] else []
  }

  // Accepted by the queue but not yet applied.
  function Pending(x: Exporter): seq<Event>
    requires |x.ring.popped| <= |x.ring.pushed|
  {
    InHand(x) + Queue(x.ring)
  }

  function Apply(x: Exporter, m: Move): Exporter
    requires Enabled(x, m)
  {
    var next := if RingStep(x, m).Some? then x.(ring := SpscRing.Apply(x.ring, RingStep(x, m).value)) else x;
    match m
    case Call(e) =>
      next.(calls := x.calls + 1, submitter := if x.running then SCalling(e) else SSync(e))
    case ApplySync =>
      var e := x.submitter.e;
      next.(submitter := SIdle, synchronous := x.synchronous + 1, store := ProcessEvent(x.store, e),
            applied := x.applied + [e], byCaller := x.byCaller + [e], accepted := x.accepted + [e])
    case SubmitMove(step) =>
      if step.StoreWrite? then next.(submitter := SCounting, accepted := x.accepted + [x.submitter.e])
      else if step.LoadRead? && next.ring.producer.PIdle? then next.(submitter := SIdle, overflow := x.overflow + 1)
      else next
    case CountSubmitted => next.(submitter := SIdle, submitted := x.submitted + 1)
    case CheckStop => next.(worker := if x.stopRequested then WCheckEmpty else WPopping)
    case CheckEmpty =>
      if x.ring.read == x.ring.write then next.(worker := WExited, pushedAtExit := |x.ring.pushed|)
      else next.(worker := WPopping)
    case WorkMove(step) =>
      if step.StoreRead? then next.(worker := WHave(x.ring.consumer.got))
      else if step.LoadWrite? && next.ring.consumer.CIdle? then next.(worker := WCheckStop)
      else next
    case Process =>
      next.(worker := WCounting, store := ProcessEvent(x.store, x.worker.e),
            applied := x.applied + [x.worker.e], byWorker := x.byWorker + [x.worker.e])
    case CountProcessed => next.(worker := WCheckStop, processed := x.processed + 1)
    case StartRunning => next.(running := true, controller := Starting)
    case ClearStop => next.(stopRequested := false, controller := Launching)
    case Launch => next.(worker := WCheckStop, controller := Resting)
    case LaunchFails => next.(running := false, controller := Resting)
    case StopRunning => next.(running := false, controller := Stopping)
    case StopRequest => next.(stopRequested := true, controller := Resting, pushedBeforeStop := |x.ring.pushed|)
  }

  function Run(x: Exporter, moves: seq<Move>): Option<Exporter> {
    if moves == [] then
      Some(x)
    else
      var before := Run(x, moves[..|moves| - 1]);
      if before.Some? && Enabled(before.value, moves[|moves| - 1])
      then Some(Apply(before.value, moves[|moves| - 1])) else None
  }

  // ---- what every run keeps ----

  ghost predicate SubmitterInv(x: Exporter) {
    if x.submitter.SCalling? then Offers(x.ring.producer, x.submitter.e) else x.ring.producer.PIdle?
  }

  ghost predicate WorkerInv(x: Exporter) {
    if x.worker.WPopping?
    then x.ring.consumer.CLoaded? || x.ring.consumer.CCopying? || x.ring.consumer.CCopied?
    else x.ring.consumer.CIdle?
  }

  ghost predicate ThreadInv(x: Exporter) {
    Inv(x.ring) && SubmitterInv(x) && WorkerInv(x)
  }

  ghost predicate CountInv(x: Exporter) {
    && |x.ring.pushed| == x.submitted + (if x.submitter.SCounting? then 1 else 0)
    && |x.ring.popped| == x.processed + (if x.worker.WHave? || x.worker.WCounting? then 1 else 0)
    && x.calls == x.synchronous + x.overflow + |x.ring.pushed|
                  + (if x.submitter.SSync? || x.submitter.SCalling? then 1 else 0)
  }

  ghost predicate StopInv(x: Exporter) {
    && (x.worker.WCheckEmpty? ==> x.stopRequested)
    && ((x.running && x.controller.Resting?) || x.controller.Stopping? ==> !x.stopRequested && !x.worker.WExited?)
    && (x.controller.Starting? || x.controller.Launching? ==> x.running && x.worker.WExited?)
    && (x.controller.Stopping? ==> !x.running)
    && (x.controller.Launching? ==> !x.stopRequested)
    && (x.stopRequested ==> x.pushedBeforeStop <= |x.ring.pushed|)
    && (x.stopRequested && x.worker.WExited? ==> x.pushedBeforeStop <= |x.ring.popped|)
    && (x.worker.WExited? ==> |x.ring.popped| == x.pushedAtExit)
  }

  // Nothing is lost, applied twice or made up.
  ghost predicate FlowInv(x: Exporter) {
    && x.ring.popped == x.byWorker + InHand(x)
    && x.store == Fold(EMPTY, x.applied)
    && multiset(x.applied) == multiset(x.byWorker) + multiset(x.byCaller)
    && multiset(x.accepted) == multiset(x.ring.pushed) + multiset(x.byCaller)
  }

  ghost predicate ExporterInv(x: Exporter) {
    ThreadInv(x) && CountInv(x) && StopInv(x) && FlowInv(x)
  }

  lemma MoveThreads(x: Exporter, m: Move)
    requires ThreadInv(x) && StopInv(x) && Enabled(x, m)
    ensures ThreadInv(Apply(x, m))
  {
    hide Inv, SpscRing.Apply, SpscRing.Enabled, SubmitterInv, WorkerInv;
    PrefixLength(x.ring);
    MoveSubmitter(x, m);
    MoveWorker(x, m);
    if RingStep(x, m).Some? {
      StepRefines(x.ring, RingStep(x, m).value);
    }
  }

  lemma MoveSubmitter(x: Exporter, m: Move)
    requires SubmitterInv(x) && Enabled(x, m)
    ensures SubmitterInv(Apply(x, m))
  {
    hide Queue, ProcessEvent;
  }

  lemma MoveWorker(x: Exporter, m: Move)
    requires WorkerInv(x) && StopInv(x) && Enabled(x, m)
    ensures WorkerInv(Apply(x, m))
  {
    hide Queue, ProcessEvent;
  }

  lemma MoveCounts(x: Exporter, m: Move)
    requires ThreadInv(x) && StopInv(x) && CountInv(x) && Enabled(x, m)
    ensures CountInv(Apply(x, m))
  {
    hide Inv, SpscRing.Apply, SpscRing.Enabled;
    PrefixLength(x.ring);
    if m.SubmitMove? {
      CountsSubmit(x, m.step);
    } else if m.WorkMove? {
      CountsWork(x, m.step);
    } else if RingStep(x, m).Some? {
      StepHistory(x.ring, RingStep(x, m).value);
    }
  }

  lemma CountsSubmit(x: Exporter, step: Step<Event>)
    requires ThreadInv(x) && CountInv(x) && Enabled(x, SubmitMove(step))
    ensures CountInv(Apply(x, SubmitMove(step)))
  {
    hide Inv, SpscRing.Apply, SpscRing.Enabled;
    PrefixLength(x.ring);
    StepHistory(x.ring, step);
  }

  lemma CountsWork(x: Exporter, step: Step<Event>)
    requires ThreadInv(x) && CountInv(x) && Enabled(x, WorkMove(step))
    ensures CountInv(Apply(x, WorkMove(step)))
  {
    hide Inv, SpscRing.Apply, SpscRing.Enabled;
    PrefixLength(x.ring);
    StepHistory(x.ring, step);
  }

  lemma MoveStop(x: Exporter, m: Move)
    requires ThreadInv(x) && StopInv(x) && Enabled(x, m)
    ensures StopInv(Apply(x, m))
  {
    hide Inv, SpscRing.Apply, SpscRing.Enabled;
    PrefixLength(x.ring);
    if RingStep(x, m).Some? {
      StepHistory(x.ring, RingStep(x, m).value);
    }
    if m.CheckEmpty? && x.ring.read == x.ring.write {
      EmptyIsDrained(x.ring);
    }
  }

  lemma EmptyIsDrained(s: Ring<Event>)
    requires Inv(s) && s.read == s.write
    ensures |s.popped| == |s.pushed|
  {
    SizeAtRest(s);
  }

  lemma MoveFlow(x: Exporter, m: Move)
    requires ThreadInv(x) && StopInv(x) && FlowInv(x) && Enabled(x, m)
    ensures FlowInv(Apply(x, m))
  {
    hide Apply, ThreadInv, StopInv, FlowInv, SpscRing.Enabled;
    if m.ApplySync? {
      FlowSync(x);
    } else if m.Process? {
      FlowProcess(x);
    } else if m.SubmitMove? {
      FlowSubmit(x, m.step);
    } else if m.WorkMove? {
      FlowWork(x, m.step);
    } else {
      FlowOther(x, m);
    }
  }

  lemma FlowSync(x: Exporter)
    requires FlowInv(x) && Enabled(x, ApplySync)
    ensures FlowInv(Apply(x, ApplySync))
  {
    hide Fold, ProcessEvent, Queue, InHand;
    var y, e := Apply(x, ApplySync), x.submitter.e;
    FoldSnoc(EMPTY, x.applied, e);
    assert multiset(y.applied) == multiset(x.applied) + multiset{e};
    assert multiset(y.byCaller) == multiset(x.byCaller) + multiset{e};
    assert InHand(y) == InHand(x) by {
      SameHand(x, y);
    }
  }

  lemma SameHand(x: Exporter, y: Exporter)
    requires x.worker == y.worker
    ensures InHand(x) == InHand(y)
  {
  }

  lemma FlowProcess(x: Exporter)
    requires FlowInv(x) && Enabled(x, Process)
    ensures FlowInv(Apply(x, Process))
  {
    hide Fold, ProcessEvent, Queue;
    FoldSnoc(EMPTY, x.applied, x.worker.e);
  }

  lemma FlowSubmit(x: Exporter, step: Step<Event>)
    requires ThreadInv(x) && FlowInv(x) && Enabled(x, SubmitMove(step))
    ensures FlowInv(Apply(x, SubmitMove(step)))
  {
    hide Inv, Fold, SpscRing.Apply, SpscRing.Enabled, WorkerInv, SubmitterInv, FlowInv;
    var y := Apply(x, SubmitMove(step));
    StepHistory(x.ring, step);
    if step.StoreWrite? {
      StoreWriteOffers(x);
      FlowPushed(x, y, x.submitter.e);
    } else {
      FlowSame(x, y);
    }
  }

  lemma FlowPushed(x: Exporter, y: Exporter, e: Event)
    requires FlowInv(x) && y.ring.popped == x.ring.popped && y.ring.pushed == x.ring.pushed + [e]
    requires y.accepted == x.accepted + [e] && y.applied == x.applied && y.store == x.store
    requires y.byWorker == x.byWorker && y.byCaller == x.byCaller && y.worker == x.worker
    ensures FlowInv(y)
  {
    hide Fold;
  }

  lemma FlowSame(x: Exporter, y: Exporter)
    requires FlowInv(x) && y.ring.popped == x.ring.popped && y.ring.pushed == x.ring.pushed
    requires y.accepted == x.accepted && y.applied == x.applied && y.store == x.store
    requires y.byWorker == x.byWorker && y.byCaller == x.byCaller && y.worker == x.worker
    ensures FlowInv(y)
  {
    hide Fold;
  }

  lemma FlowWork(x: Exporter, step: Step<Event>)
    requires FlowInv(x) && Enabled(x, WorkMove(step))
    ensures FlowInv(Apply(x, WorkMove(step)))
  {
    hide Fold, SpscRing.Apply, SpscRing.Enabled;
    StepHistory(x.ring, step);
  }

  lemma FlowOther(x: Exporter, m: Move)
    requires StopInv(x) && FlowInv(x) && Enabled(x, m)
    requires !m.ApplySync? && !m.Process? && !m.SubmitMove? && !m.WorkMove?
    ensures FlowInv(Apply(x, m))
  {
    hide Fold, SpscRing.Apply, SpscRing.Enabled;
    if RingStep(x, m).Some? {
      StepHistory(x.ring, RingStep(x, m).value);
    }
  }

  lemma PendingOther(x: Exporter, m: Move)
    requires ThreadInv(x) && StopInv(x) && |x.ring.popped| <= |x.ring.pushed| && Enabled(x, m)
    requires !m.ApplySync? && !m.Process? && !m.SubmitMove? && !m.WorkMove?
    ensures |Apply(x, m).ring.popped| <= |Apply(x, m).ring.pushed|
    ensures Pending(Apply(x, m)) == Pending(x) && Apply(x, m).accepted == x.accepted
  {
    hide Inv, SpscRing.Apply, SpscRing.Enabled;
    if RingStep(x, m).Some? {
      StepHistory(x.ring, RingStep(x, m).value);
    }
  }

  // Queueing adds to the pending events, in the order the calls are accepted.
  lemma PendingSubmit(x: Exporter, step: Step<Event>)
    requires ThreadInv(x) && |x.ring.popped| <= |x.ring.pushed| && Enabled(x, SubmitMove(step))
    requires |Apply(x, SubmitMove(step)).ring.popped| <= |Apply(x, SubmitMove(step)).ring.pushed|
    ensures var y := Apply(x, SubmitMove(step));
            var more := if step.StoreWrite? then [x.submitter.e] else [];
            y.accepted == x.accepted + more && Pending(y) == Pending(x) + more
  {
    hide Inv, SpscRing.Apply, SpscRing.Enabled, Queue;
    StepRefines(x.ring, step);
    if step.StoreWrite? {
      StoreWriteOffers(x);
    }
  }

  // Popping moves the oldest pending event into the worker's hand.
  lemma PendingWork(x: Exporter, step: Step<Event>)
    requires ThreadInv(x) && |x.ring.popped| <= |x.ring.pushed| && Enabled(x, WorkMove(step))
    requires |Apply(x, WorkMove(step)).ring.popped| <= |Apply(x, WorkMove(step)).ring.pushed|
    ensures Pending(Apply(x, WorkMove(step))) == Pending(x)
  {
    hide Inv, SpscRing.Apply, SpscRing.Enabled, Queue;
    StepRefines(x.ring, step);
    if step.StoreRead? {
      assert Queue(x.ring) == [Queue(x.ring)[0]] + Queue(x.ring)[1..];
    }
  }

  lemma StoreWriteOffers(x: Exporter)
    requires ThreadInv(x) && x.submitter.SCalling? && SpscRing.Enabled(x.ring, StoreWrite)
    ensures x.ring.producer.x == x.submitter.e
  {
  }

  lemma PrefixLength(s: Ring<Event>)
    requires Inv(s)
    ensures |s.popped| <= |s.pushed|
  {
  }

  lemma {:induction false} RunExporterInv(junk: Event, slots: nat, moves: seq<Move>)
    requires slots > 0 && Run(Initial(junk, slots), moves).Some?
    ensures ExporterInv(Run(Initial(junk, slots), moves).value)
  {
    hide Inv, Fold, SpscRing.Apply, Apply, ThreadInv, CountInv, StopInv, FlowInv, Enabled;
    if moves == [] {
      InitialInv(junk, slots);
    } else {
      RunExporterInv(junk, slots, moves[..|moves| - 1]);
      MoveInv(Run(Initial(junk, slots), moves[..|moves| - 1]).value, moves[|moves| - 1]);
    }
  }

  lemma InitialInv(junk: Event, slots: nat)
    requires slots > 0
    ensures ExporterInv(Initial(junk, slots))
  {
    hide Inv;
    InitInv(slots, junk);
  }

  lemma MoveInv(x: Exporter, m: Move)
    requires ExporterInv(x) && Enabled(x, m)
    ensures ExporterInv(Apply(x, m))
  {
    hide Enabled, Apply, ThreadInv, CountInv, StopInv, FlowInv;
    MoveThreads(x, m);
    MoveCounts(x, m);
    MoveStop(x, m);
    MoveFlow(x, m);
  }

  // No thread is ever kept from its next step.
  lemma NoThreadStuck(x: Exporter, m: Move)
    requires ExporterInv(x)
    ensures InTurn(x, m) <==> Enabled(x, m)
  {
    hide Inv, SpscRing.InTurn, SpscRing.Enabled;
    if RingStep(x, m).Some? {
      NeverStuck(x.ring, RingStep(x, m).value);
    }
  }

  // ---- what is lost, and what is not ----

  // In every interleaving, whatever the callers do: the store is the fold of
  // the applied events; applied and pending events together are the accepted
  // calls, each once; the worker has applied a prefix of what was pushed; every
  // finished call was synchronous, submitted or refused.
  lemma NothingLost(junk: Event, slots: nat, moves: seq<Move>)
    requires slots > 0 && Run(Initial(junk, slots), moves).Some?
    ensures var x := Run(Initial(junk, slots), moves).value;
            && |x.ring.popped| <= |x.ring.pushed|
            && x.store == Fold(EMPTY, x.applied)
            && multiset(x.accepted) == multiset(x.applied + Pending(x))
            && x.byWorker <= x.ring.pushed
            && multiset(x.applied) == multiset(x.byWorker) + multiset(x.byCaller)
            && (x.submitter.SIdle? ==> x.calls == x.synchronous + x.submitted + x.overflow)
  {
    hide Run;
    RunExporterInv(junk, slots, moves);
    Conserved(Run(Initial(junk, slots), moves).value);
  }

  lemma Conserved(x: Exporter)
    requires ExporterInv(x)
    ensures |x.ring.popped| <= |x.ring.pushed|
    ensures multiset(x.accepted) == multiset(x.applied + Pending(x))
    ensures x.byWorker <= x.ring.popped <= x.ring.pushed
  {
    hide Fold;
    PrefixLength(x.ring);
    assert x.ring.pushed == x.ring.popped + Queue(x.ring);
  }

  // When the worker is gone, every event queued before the stop flag was raised
  // has been applied by it, in the order of the calls, and is in the store.
  lemma StopDrains(junk: Event, slots: nat, moves: seq<Move>)
    requires slots > 0 && Run(Initial(junk, slots), moves).Some?
    ensures var x := Run(Initial(junk, slots), moves).value;
            x.stopRequested && x.worker.WExited? ==>
              && x.pushedBeforeStop <= |x.ring.pushed|
              && x.ring.pushed[..x.pushedBeforeStop] <= x.byWorker
              && |x.byWorker| == x.processed
              && multiset(x.byWorker) <= multiset(x.applied)
              && x.store == Fold(EMPTY, x.applied)
  {
    hide Run, Fold, Inv;
    RunExporterInv(junk, slots, moves);
    var x := Run(Initial(junk, slots), moves).value;
    Conserved(x);
    if x.stopRequested && x.worker.WExited? {
      assert x.byWorker == x.ring.pushed[..|x.byWorker|];
    }
  }

  // ---- the worker leaves ----

  predicate IsWorkerMove(m: Move) {
    m.CheckStop? || m.CheckEmpty? || m.WorkMove? || m.Process? || m.CountProcessed?
  }

  function WorkerMoves(moves: seq<Move>): nat {
    if moves == [] then 0
    else WorkerMoves(moves[..|moves| - 1]) + if IsWorkerMove(moves[|moves| - 1]) then 1 else 0
  }

  // How far the worker still is from leaving, after a stop request: eight steps
  // at most for an event waiting or on its way, and those of the present one.
  function Rank(x: Exporter): int
    requires |x.ring.popped| <= |x.ring.pushed|
  {
    8 * (Occupancy(x.ring) + if x.submitter.SCalling? then 1 else 0)
    + match x.worker
      case WExited => -2
      case WCheckStop => 0
      case WCheckEmpty => -1
      case WPopping =>
        if x.ring.consumer.CLoaded? then (if Occupancy(x.ring) == 0 then 1 else -2)
        else if x.ring.consumer.CCopying? then -3 else -4
      case WHave(_) => 2
      case WCounting => 1
  }

  ghost predicate Leaving(x: Exporter) {
    x.stopRequested && !x.running && x.controller.Resting?
  }

  // A stop request cannot be taken back while the worker is there.
  lemma LeavingIsStopped(x: Exporter)
    requires ExporterInv(x) && x.stopRequested && !x.worker.WExited?
    ensures Leaving(x)
  {
  }

  lemma RankBound(x: Exporter)
    requires ExporterInv(x)
    ensures |x.ring.popped| <= |x.ring.pushed| && -2 <= Rank(x)
  {
    PrefixLength(x.ring);
    OccupiedWhilePopping(x.ring);
  }

  lemma OccupiedWhilePopping(s: Ring<Event>)
    requires Inv(s)
    ensures s.consumer.CCopying? || s.consumer.CCopied? ==> Occupancy(s) > 0
    ensures s.consumer.CLoaded? ==> s.consumer.read == s.read
  {
  }

  // Each worker step lowers the rank and no other step raises it.
  lemma RankFalls(x: Exporter, m: Move)
    requires ExporterInv(x) && Leaving(x) && !x.worker.WExited? && Enabled(x, m)
    requires |x.ring.popped| <= |x.ring.pushed| && |Apply(x, m).ring.popped| <= |Apply(x, m).ring.pushed|
    ensures Rank(Apply(x, m)) <= Rank(x) - if IsWorkerMove(m) then 1 else 0
    ensures Leaving(Apply(x, m))
  {
    hide Inv, SpscRing.Enabled, Queue, CountInv, FlowInv, ProcessEvent;
    OccupiedWhilePopping(x.ring);
    EmptyExactly(x.ring);
    if RingStep(x, m).Some? {
      StepHistory(x.ring, RingStep(x, m).value);
    }
  }

  lemma EmptyExactly(s: Ring<Event>)
    requires Inv(s)
    ensures s.read == s.write <==> Occupancy(s) == 0
  {
    SizeAtRest(s);
  }

  // As long as it is there the worker can always take a step.
  lemma WorkerCanMove(x: Exporter) returns (m: Move)
    requires ExporterInv(x) && !x.worker.WExited?
    ensures IsWorkerMove(m) && Enabled(x, m)
  {
    hide Inv, SpscRing.Enabled, CountInv, FlowInv, StopInv;
    m := match x.worker
      case WCheckStop => CheckStop
      case WCheckEmpty => CheckEmpty
      case WPopping =>
        WorkMove(if x.ring.consumer.CLoaded? then LoadWrite
                 else if x.ring.consumer.CCopying? then EndCopyOut
                 else StoreRead)
      case WHave(_) => Process
      case _ => CountProcessed;
    NoThreadStuck(x, m);
  }

  // After a stop request the worker is gone after at most this many steps of
  // its own, whatever the other threads do: the join in Stop returns.
  lemma {:induction false} StopTerminates(x: Exporter, moves: seq<Move>)
    requires ExporterInv(x) && x.stopRequested && |x.ring.popped| <= |x.ring.pushed|
    requires Run(x, moves).Some? && forall n :: 0 <= n < |moves| ==> !StateAt(x, moves, n).worker.WExited?
    ensures ExporterInv(Run(x, moves).value) && Run(x, moves).value.stopRequested
    ensures |Run(x, moves).value.ring.popped| <= |Run(x, moves).value.ring.pushed|
    ensures WorkerMoves(moves) <= Rank(x) - Rank(Run(x, moves).value) <= Rank(x) + 2
  {
    hide Rank, ExporterInv, Enabled, Apply;
    if moves != [] {
      var n := |moves| - 1;
      assert forall k :: 0 <= k <= n ==> moves[..n][..k] == moves[..k];
      assert forall k :: 0 <= k < n ==> StateAt(x, moves[..n], k) == StateAt(x, moves, k);
      StopTerminates(x, moves[..n]);
      var before := StateAt(x, moves, n);
      LeavingIsStopped(before);
      MoveInv(before, moves[n]);
      RankBound(Apply(before, moves[n]));
      RankFalls(before, moves[n]);
    }
    RankBound(Run(x, moves).value);
  }

  // While no worker runs, exactly the events pushed since the last one left
  // stay queued, with nobody to apply them until the next start.
  lemma LeftBehind(junk: Event, slots: nat, moves: seq<Move>)
    requires slots > 0 && Run(Initial(junk, slots), moves).Some?
    ensures var x := Run(Initial(junk, slots), moves).value;
            x.worker.WExited? ==>
              && |x.ring.popped| == x.pushedAtExit <= |x.ring.pushed|
              && x.byWorker == x.ring.pushed[..x.pushedAtExit]
              && Pending(x) == x.ring.pushed[x.pushedAtExit..]
  {
    hide Run, Fold, Inv;
    RunExporterInv(junk, slots, moves);
    Conserved(Run(Initial(junk, slots), moves).value);
  }

  // WaitUntilDrainedForTest believes its two counters. With no call in flight
  // it is right: processed has caught up exactly when nothing is pending.
  lemma DrainedCheckIsRight(junk: Event, slots: nat, moves: seq<Move>)
    requires slots > 0 && Run(Initial(junk, slots), moves).Some?
    ensures var x := Run(Initial(junk, slots), moves).value;
            && |x.ring.popped| <= |x.ring.pushed|
            && (x.submitter.SIdle? && !x.worker.WCounting? ==> (x.processed >= x.submitted <==> Pending(x) == []))
            && (x.submitter.SIdle? && x.processed >= x.submitted ==> Pending(x) == [])
  {
    hide Run, Fold;
    RunExporterInv(junk, slots, moves);
  }

  // ---- order ----

  // Applied and pending events are the accepted calls in call order.
  ghost predicate InOrder(x: Exporter) {
    |x.ring.popped| <= |x.ring.pushed| && x.accepted == x.applied + Pending(x)
  }

  // The synchronous call finds no pending event but copies of its own.
  ghost predicate FindsOwn(x: Exporter) {
    && |x.ring.popped| <= |x.ring.pushed| && x.submitter.SSync?
    && forall i :: 0 <= i < |Pending(x)| ==> Pending(x)[i] == x.submitter.e
  }

  // A synchronous call keeps the order exactly when it finds only its own.
  lemma SyncKeepsOrder(x: Exporter)
    requires InOrder(x) && Enabled(x, ApplySync)
    ensures InOrder(Apply(x, ApplySync)) <==> FindsOwn(x)
  {
    hide Queue, ProcessEvent;
    var e, p := x.submitter.e, Pending(x);
    var y := Apply(x, ApplySync);
    assert Pending(y) == p;
    assert y.accepted == x.applied + (p + [e]) && y.applied + p == x.applied + ([e] + p);
    if FindsOwn(x) {
      assert p + [e] == [e] + p;
    }
    if InOrder(y) {
      assert y.accepted[|x.applied|..] == p + [e] && (y.applied + p)[|x.applied|..] == [e] + p;
      Rotation(p, e);
    }
  }

  lemma {:induction false} Rotation(p: seq<Event>, e: Event)
    requires p + [e] == [e] + p
    ensures forall i :: 0 <= i < |p| ==> p[i] == e
  {
    if p != [] {
      assert (p + [e])[0] == ([e] + p)[0];
      assert p[1..] + [e] == (p + [e])[1..] == p;
      assert p == [e] + p[1..];
      Rotation(p[1..], e);
    }
  }

  // Every other step keeps it.
  lemma MoveOrder(x: Exporter, m: Move)
    requires ExporterInv(x) && InOrder(x) && Enabled(x, m)
    ensures InOrder(Apply(x, m)) <==> (m.ApplySync? ==> FindsOwn(x))
  {
    hide Apply, Enabled, ThreadInv, CountInv, StopInv, FlowInv, InOrder;
    MoveInv(x, m);
    if m.ApplySync? {
      SyncKeepsOrder(x);
    } else if m.Process? {
      OrderProcess(x);
    } else {
      OrderOther(x, m);
    }
  }

  lemma OrderProcess(x: Exporter)
    requires InOrder(x) && Enabled(x, Process)
    ensures InOrder(Apply(x, Process))
  {
    hide Fold, ProcessEvent, Queue;
    assert x.applied + Pending(x) == Apply(x, Process).applied + Pending(Apply(x, Process));
  }

  lemma OrderOther(x: Exporter, m: Move)
    requires ExporterInv(x) && InOrder(x) && Enabled(x, m) && !m.ApplySync? && !m.Process?
    requires ThreadInv(Apply(x, m))
    ensures InOrder(Apply(x, m))
  {
    hide Inv, Pending, SpscRing.Apply, SpscRing.Enabled, ProcessEvent, CountInv, StopInv, FlowInv, SubmitterInv,
         WorkerInv;
    PrefixLength(Apply(x, m).ring);
    if m.SubmitMove? {
      PendingSubmit(x, m.step);
    } else if m.WorkMove? {
      PendingWork(x, m.step);
    } else {
      PendingOther(x, m);
    }
  }

  function StateAt(x: Exporter, moves: seq<Move>, n: nat): Exporter
    requires n <= |moves|
  {
    var r := Run(x, moves[..n]);
    if r.Some? then r.value else x
  }

  ghost predicate AlwaysInOrder(x: Exporter, moves: seq<Move>) {
    forall n :: 0 <= n <= |moves| ==> InOrder(StateAt(x, moves, n))
  }

  ghost predicate SyncsFindOwn(x: Exporter, moves: seq<Move>) {
    forall n :: 0 <= n < |moves| && moves[n].ApplySync? ==> FindsOwn(StateAt(x, moves, n))
  }

  // Over whole runs: the events are in call order at every moment exactly when
  // no synchronous call ever finds another event pending.
  lemma {:induction false} OrderExactly(junk: Event, slots: nat, moves: seq<Move>)
    requires slots > 0 && Run(Initial(junk, slots), moves).Some?
    ensures AlwaysInOrder(Initial(junk, slots), moves) <==> SyncsFindOwn(Initial(junk, slots), moves)
  {
    hide InOrder, FindsOwn, Initial, ExporterInv, Apply, Enabled, AlwaysInOrder, SyncsFindOwn;
    var x := Initial(junk, slots);
    if moves == [] {
      InitialOrder(junk, slots);
    } else {
      var n := |moves| - 1;
      OrderExactly(junk, slots, moves[..n]);
      RunExporterInv(junk, slots, moves[..n]);
      PrefixesOf(x, moves, n);
      assert moves[..|moves|] == moves && moves[..n][..n] == moves[..n];
      if AlwaysInOrder(x, moves[..n]) {
        InOrderNow(x, moves[..n]);
        MoveOrder(StateAt(x, moves, n), moves[n]);
      }
    }
  }

  lemma InOrderNow(x: Exporter, moves: seq<Move>)
    requires AlwaysInOrder(x, moves)
    ensures InOrder(StateAt(x, moves, |moves|))
  {
  }

  lemma InitialOrder(junk: Event, slots: nat)
    ensures InOrder(Initial(junk, slots))
    ensures AlwaysInOrder(Initial(junk, slots), []) && SyncsFindOwn(Initial(junk, slots), [])
  {
  }

  lemma PrefixesOf(x: Exporter, moves: seq<Move>, n: nat)
    requires n + 1 == |moves|
    ensures AlwaysInOrder(x, moves) <==> AlwaysInOrder(x, moves[..n]) && InOrder(StateAt(x, moves, n + 1))
    ensures SyncsFindOwn(x, moves) <==>
            SyncsFindOwn(x, moves[..n]) && (moves[n].ApplySync? ==> FindsOwn(StateAt(x, moves, n)))
    ensures Disciplined(x, moves) <==> Disciplined(x, moves[..n]) && CallerRule(StateAt(x, moves, n), moves[n])
  {
    hide InOrder, FindsOwn, Run, CallerRule;
    forall k | 0 <= k <= n
      ensures StateAt(x, moves[..n], k) == StateAt(x, moves, k)
    {
      assert moves[..n][..k] == moves[..k];
    }
  }

  // In every interleaving in which no synchronous call finds another event
  // pending, the drained store is what the synchronous branches would have made
  // of the accepted calls in order.
  lemma AsyncRefinesSync(junk: Event, slots: nat, moves: seq<Move>)
    requires slots > 0 && Run(Initial(junk, slots), moves).Some?
    requires SyncsFindOwn(Initial(junk, slots), moves)
    ensures var x := Run(Initial(junk, slots), moves).value;
            && InOrder(x)
            && (Pending(x) == [] ==> x.store == Fold(EMPTY, x.accepted))
  {
    hide Run, Fold, Initial, SyncsFindOwn, Inv;
    OrderExactly(junk, slots, moves);
    RunExporterInv(junk, slots, moves);
    assert moves[..|moves|] == moves;
    var x := StateAt(Initial(junk, slots), moves, |moves|);
    assert x.applied + [] == x.applied;
  }

  // ---- what callers can do ----

  // Stop and Start only with no call in flight; calls only while the exporter
  // runs, or once Stop has returned, not in the middle of Start or Stop.
  predicate CallerRule(x: Exporter, m: Move) {
    match m
    case StopRunning => x.submitter.SIdle?
    case StartRunning => x.submitter.SIdle?
    case Call(_) => x.controller.Resting? && (x.running || x.worker.WExited?)
    case _ => true
  }

  ghost predicate Disciplined(x: Exporter, moves: seq<Move>) {
    forall n :: 0 <= n < |moves| ==> CallerRule(StateAt(x, moves, n), moves[n])
  }

  ghost predicate DisciplineInv(x: Exporter) {
    && (x.submitter.SCalling? ==> x.running && x.controller.Resting?)
    && (x.submitter.SSync? ==> x.worker.WExited? && !x.running && x.controller.Resting?)
    && (x.worker.WExited? ==> |x.ring.popped| == |x.ring.pushed|)
  }

  lemma MoveDiscipline(x: Exporter, m: Move)
    requires ExporterInv(x) && DisciplineInv(x) && Enabled(x, m) && CallerRule(x, m)
    ensures DisciplineInv(Apply(x, m))
    ensures m.ApplySync? ==> FindsOwn(x)
  {
    hide Inv, SpscRing.Apply, SpscRing.Enabled, ProcessEvent, CountInv, FlowInv, SubmitterInv, WorkerInv;
    if RingStep(x, m).Some? {
      StepHistory(x.ring, RingStep(x, m).value);
    }
    if m.CheckEmpty? && x.ring.read == x.ring.write {
      EmptyIsDrained(x.ring);
    }
  }

  // Callers that keep the rule never lose the order. Once the worker is gone,
  // nothing is pending and the store is the fold of the accepted calls.
  lemma {:induction false} DisciplineKeepsOrder(junk: Event, slots: nat, moves: seq<Move>)
    requires slots > 0 && Run(Initial(junk, slots), moves).Some?
    requires Disciplined(Initial(junk, slots), moves)
    ensures SyncsFindOwn(Initial(junk, slots), moves)
    ensures var x := Run(Initial(junk, slots), moves).value;
            && DisciplineInv(x)
            && (x.worker.WExited? ==> Pending(x) == [] && x.store == Fold(EMPTY, x.accepted))
  {
    hide InOrder, FindsOwn, Initial, ExporterInv, Apply, Enabled, AlwaysInOrder, SyncsFindOwn, Disciplined,
         CallerRule, Fold;
    var x := Initial(junk, slots);
    if moves == [] {
      InitialOrder(junk, slots);
      InitialDiscipline(junk, slots);
    } else {
      var n := |moves| - 1;
      PrefixesOf(x, moves, n);
      DisciplineKeepsOrder(junk, slots, moves[..n]);
      RunExporterInv(junk, slots, moves[..n]);
      MoveDiscipline(StateAt(x, moves, n), moves[n]);
    }
    AsyncRefinesSync(junk, slots, moves);
    RunExporterInv(junk, slots, moves);
    ExitIsDrained(Run(x, moves).value);
  }

  lemma InitialDiscipline(junk: Event, slots: nat)
    ensures DisciplineInv(Initial(junk, slots))
  {
  }

  lemma ExitIsDrained(x: Exporter)
    requires ExporterInv(x) && DisciplineInv(x)
    ensures |x.ring.popped| <= |x.ring.pushed|
    ensures x.worker.WExited? ==> Pending(x) == []
  {
    hide Fold;
    PrefixLength(x.ring);
  }

  // ---- a caller that does not ----

  // A removal made while the channel's update still waits is undone by it.
  lemma LateCallOvertakes(x: Exporter, c: int, m: ChannelMetrics)
    requires ExporterInv(x) && x.submitter == SSync(RemoveChannel(c))
    requires InOrder(x) && Pending(x) == [UpdateChannel(c, m)]
    ensures var y := Apply(x, ApplySync);
            && c in Fold(EMPTY, y.applied + Pending(y)).channels
            && c !in Fold(EMPTY, y.accepted).channels
  {
    var y := Apply(x, ApplySync);
    assert Pending(y) == [UpdateChannel(c, m)];
    FoldSnoc(EMPTY, y.applied, UpdateChannel(c, m));
    FoldSnoc(EMPTY, x.accepted, RemoveChannel(c));
  }

  // An update in flight while Stop runs is queued after the worker has left;
  // the removal that follows finds it there.
  function LateRun(c: int, m: ChannelMetrics): seq<Move> {
    [StartRunning, ClearStop, Launch, Call(UpdateChannel(c, m)), StopRunning, StopRequest, CheckStop, CheckEmpty,
     SubmitMove(LoadRead), SubmitMove(BeginCopyIn), SubmitMove(EndCopyIn), SubmitMove(StoreWrite), CountSubmitted,
     Call(RemoveChannel(c))]
  }

  const JUNK := RemoveChannel(0)

  // Where that run stands after n of its moves: until the worker has left, ...
  function StoppingAt(e: Event, slots: nat, n: nat): Exporter {
    var s := Initial(JUNK, slots);
    var called := s.(calls := 1, submitter := SCalling(e), ring := s.ring.(producer := PLoaded(e, 0)));
    if n == 0 then s
    else if n == 1 then s.(running := true, controller := Starting)
    else if n == 2 then s.(running := true, controller := Launching)
    else if n == 3 then s.(running := true, worker := WCheckStop)
    else if n == 4 then called.(running := true, worker := WCheckStop)
    else if n == 5 then called.(controller := Stopping, worker := WCheckStop)
    else if n == 6 then called.(stopRequested := true, worker := WCheckStop)
    else if n == 7 then called.(stopRequested := true, worker := WCheckEmpty)
    else called.(stopRequested := true)
  }

  // ... and from then on.
  function StoppedAt(e: Event, slots: nat, removal: Event, n: nat): Exporter
    requires slots >= 2
  {
    var s := StoppingAt(e, slots, 8);
    var full := s.ring.slots[0 := Full(e)];
    var queued := s.(accepted := [e], ring := s.ring.(slots := full, producer := PIdle, write := 1, pushed := [e]));
    if n == 8 then s
    else if n == 9 then s.(ring := s.ring.(producer := PChecked(e, 0, 1)))
    else if n == 10 then s.(ring := s.ring.(slots := s.ring.slots[0 := Torn], producer := PCopying(e, 0, 1)))
    else if n == 11 then s.(ring := s.ring.(slots := full, producer := PCopied(e, 1)))
    else if n == 12 then queued.(submitter := SCounting)
    else if n == 13 then queued.(submitted := 1, submitter := SIdle)
    else queued.(submitted := 1, calls := 2, submitter := SSync(removal))
  }

  lemma StoppingStep(c: int, m: ChannelMetrics, slots: nat, n: nat)
    requires n < 8 && slots >= 2
    ensures var x := StoppingAt(UpdateChannel(c, m), slots, n);
            && Enabled(x, LateRun(c, m)[n])
            && Apply(x, LateRun(c, m)[n]) == StoppingAt(UpdateChannel(c, m), slots, n + 1)
  {
    hide Repeat;
  }

  lemma StoppedStep(c: int, m: ChannelMetrics, slots: nat, n: nat)
    requires 8 <= n < 14 && slots >= 2
    ensures var x := StoppedAt(UpdateChannel(c, m), slots, RemoveChannel(c), n);
            && Enabled(x, LateRun(c, m)[n])
            && Apply(x, LateRun(c, m)[n]) == StoppedAt(UpdateChannel(c, m), slots, RemoveChannel(c), n + 1)
  {
    hide Repeat;
    SmallMod(1, slots);
  }

  lemma {:induction false} LateRunTo(c: int, m: ChannelMetrics, slots: nat, n: nat)
    requires n <= 14 && slots >= 2
    ensures Run(Initial(JUNK, slots), LateRun(c, m)[..n]) ==
            Some(if n <= 8 then StoppingAt(UpdateChannel(c, m), slots, n)
                 else StoppedAt(UpdateChannel(c, m), slots, RemoveChannel(c), n))
  {
    hide Enabled, Apply;
    if n > 0 {
      LateRunTo(c, m, slots, n - 1);
      assert LateRun(c, m)[..n][..n - 1] == LateRun(c, m)[..n - 1];
      if n <= 8 {
        StoppingStep(c, m, slots, n - 1);
      } else {
        StoppedStep(c, m, slots, n - 1);
      }
    }
  }

  // On a ring of any size, an event can be left behind, and a call can then
  // overtake it.
  lemma LateCallIsReachable(c: int, m: ChannelMetrics, slots: nat)
    requires slots >= 2
    ensures var r := Run(Initial(JUNK, slots), LateRun(c, m)[..13]);
            r.Some? && r.value.worker.WExited? && r.value.submitter.SIdle?
            && InOrder(r.value) && Pending(r.value) == [UpdateChannel(c, m)]
    ensures var r := Run(Initial(JUNK, slots), LateRun(c, m));
            && r.Some? && ExporterInv(r.value)
            && r.value.submitter == SSync(RemoveChannel(c))
            && InOrder(r.value) && Pending(r.value) == [UpdateChannel(c, m)]
  {
    hide Run, ExporterInv, Repeat;
    LateRunTo(c, m, slots, 13);
    LateRunTo(c, m, slots, 14);
    assert LateRun(c, m)[..14] == LateRun(c, m);
    RunExporterInv(JUNK, slots, LateRun(c, m));
  }
}
