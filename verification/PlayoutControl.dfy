// The playout control state machine as a function on its state, and what its
// counters mean over whole runs. PlayoutControlStateMachine is the object.
module PlayoutControl {
  import OrchestrationLoop

  datatype State = Idle | Buffering | Ready | Playing | Paused | Stopping | Error

  type Transition = (State, State)

  type BackPressureEvent = OrchestrationLoop.BackPressureEvent

  datatype Op =
    | BeginSession(id: string, request: int)
    | Pause(id: string, request: int, effective: int, deviationMs: real)
    | Resume(id: string, request: int, effective: int)
    | Seek(id: string, request: int, target: int, effective: int)
    | Stop(id: string, request: int, effective: int)
    | Recover(id: string, request: int)
    | OnBufferDepth(depth: nat, capacity: nat)
    | OnBackPressureEvent(event: BackPressureEvent)
    | OnBackPressureCleared
    | OnExternalTimeout
    | OnQueueOverflow

  // transitions_ maps pairs to counts, which is a multiset. `legal` and
  // `illegal` are its two sources, kept apart for the proofs only.
  datatype Control = Control(
    state: State, processed: set<string>, currentPtsUs: int,
    transitions: multiset<Transition>, legal: multiset<Transition>, illegal: multiset<Transition>,
    illegalTransitionTotal: nat, latencyViolationTotal: nat, timeoutTotal: nat,
    queueOverflowTotal: nat, recoverTotal: nat, lateSeekTotal: nat,
    pauseMs: seq<real>, resumeMs: seq<real>, seekMs: seq<real>, stopMs: seq<real>, deviationMs: seq<real>)

  const INITIAL := Control(
    Idle, {}, 0, multiset{}, multiset{}, multiset{}, 0, 0, 0, 0, 0, 0, [], [], [], [], [])

  const PAUSE_THRESHOLD_MS: real := 33.0
  const RESUME_THRESHOLD_MS: real := 50.0
  const SEEK_THRESHOLD_MS: real := 250.0
  const STOP_THRESHOLD_MS: real := 500.0
  const READINESS_THRESHOLD_FRAMES: nat := 3

  function LatencyMs(op: Op): real
    requires op.Pause? || op.Resume? || op.Seek? || op.Stop?
  {
    (op.effective - op.request) as real / 1000.0
  }

  function MoveTo(c: Control, to: State): Control {
    if c.state == to then c
    else c.(state := to, transitions := c.transitions + multiset{(c.state, to)},
            legal := c.legal + multiset{(c.state, to)})
  }

  function Reject(c: Control, attempted: State): Control {
    c.(illegalTransitionTotal := c.illegalTransitionTotal + 1,
       transitions := c.transitions + multiset{(c.state, attempted)},
       illegal := c.illegal + multiset{(c.state, attempted)})
  }

  function Violation(c: Control, over: bool): Control {
    if over then c.(latencyViolationTotal := c.latencyViolationTotal + 1) else c
  }

  predicate IsCommand(op: Op) {
    op.BeginSession? || op.Pause? || op.Resume? || op.Seek? || op.Stop? || op.Recover?
  }

  predicate Duplicate(c: Control, op: Op) {
    IsCommand(op) && op.id != "" && op.id in c.processed
  }

  // The states an operation accepted in state s passes through.
  function Path(s: State, op: Op): seq<State> {
    match op
    case BeginSession(_, _) => [Buffering]
    case Pause(_, _, _, _) => [Paused]
    case Resume(_, _, _) => [Playing]
    case Seek(_, _, _, _) => [Buffering, Ready, Playing]
    case Stop(_, _, _) => [Stopping, Idle]
    case Recover(_, _) => [Buffering]
    case OnBufferDepth(depth, capacity) =>
      if capacity == 0 then []
      else if s == Buffering && depth >= READINESS_THRESHOLD_FRAMES then [Ready, Playing]
      else if s == Playing && depth == 0 then [Buffering]
      else []
    case OnBackPressureEvent(event) => if event.Underrun? && s == Playing then [Buffering] else []
    case OnBackPressureCleared => if s == Buffering then [Ready, Playing] else []
    case OnExternalTimeout => [Error]
    case OnQueueOverflow => []
  }

  // The state a refused command is recorded as having attempted.
  function Attempted(op: Op): State {
    match op
    case Pause(_, _, _, _) => Paused
    case Resume(_, _, _) => Playing
    case Stop(_, _, _) => Stopping
    case _ => Buffering
  }

  // Samples and counters an accepted operation leaves behind.
  function Book(c: Control, op: Op): Control {
    match op
    case Pause(_, _, _, deviation) =>
      Violation(c.(pauseMs := c.pauseMs + [LatencyMs(op)], deviationMs := c.deviationMs + [deviation]),
                LatencyMs(op) > PAUSE_THRESHOLD_MS)
    case Resume(_, _, _) =>
      Violation(c.(resumeMs := c.resumeMs + [LatencyMs(op)]), LatencyMs(op) > RESUME_THRESHOLD_MS)
    case Seek(_, _, target, _) =>
      Violation(c.(seekMs := c.seekMs + [LatencyMs(op)], currentPtsUs := target), LatencyMs(op) > SEEK_THRESHOLD_MS)
    case Stop(_, _, _) =>
      Violation(c.(stopMs := c.stopMs + [LatencyMs(op)]), LatencyMs(op) > STOP_THRESHOLD_MS)
    case Recover(_, _) => c.(recoverTotal := c.recoverTotal + 1)
    case OnBackPressureEvent(event) =>
      if event.Overrun? then c.(queueOverflowTotal := c.queueOverflowTotal + 1) else c
    case OnExternalTimeout => c.(timeoutTotal := c.timeoutTotal + 1)
    case OnQueueOverflow => c.(queueOverflowTotal := c.queueOverflowTotal + 1)
    case _ => c
  }

  function Walk(c: Control, path: seq<State>): Control
    decreases |path|
  {
    if path == [] then c else Walk(MoveTo(c, path[0]), path[1..])
  }

  lemma WalkShort(c: Control, path: seq<State>)
    ensures path == [] ==> Walk(c, path) == c
    ensures |path| == 1 ==> Walk(c, path) == MoveTo(c, path[0])
    ensures |path| == 2 ==> Walk(c, path) == MoveTo(MoveTo(c, path[0]), path[1])
    ensures |path| == 3 ==> Walk(c, path) == MoveTo(MoveTo(MoveTo(c, path[0]), path[1]), path[2])
    decreases |path|
  {
    hide MoveTo;
    if 1 <= |path| <= 3 {
      WalkShort(MoveTo(c, path[0]), path[1..]);
    }
  }

  // The states in which a command is legal.
  predicate Allowed(s: State, op: Op) {
    match op
    case BeginSession(_, _) => s == Idle
    case Pause(_, _, _, _) => s == Playing
    case Resume(_, _, _) => s == Paused
    case Seek(_, _, _, _) => s == Playing || s == Paused
    case Stop(_, _, _) => s != Idle
    case Recover(_, _) => s == Error
    case _ => true
  }

  predicate LateSeek(c: Control, op: Op) {
    op.Seek? && op.target < c.currentPtsUs
  }

  // What an operation does once its command id has been registered.
  function Execute(c: Control, op: Op): Control {
    if LateSeek(c, op) then c.(lateSeekTotal := c.lateSeekTotal + 1)
    else if !Allowed(c.state, op) then Reject(c, Attempted(op))
    else Walk(Book(c, op), Path(c.state, op))
  }

  function Register(c: Control, op: Op): Control {
    if IsCommand(op) && op.id != "" then c.(processed := c.processed + {op.id}) else c
  }

  function Apply(c: Control, op: Op): Control {
    if Duplicate(c, op) then c else Execute(Register(c, op), op)
  }

  // What a command answers: a duplicate is acknowledged, whatever came of the
  // original.
  predicate Accepted(c: Control, op: Op) {
    Duplicate(c, op) || (!LateSeek(c, op) && Allowed(c.state, op))
  }

  function Run(ops: seq<Op>): Control {
    if ops == [] then INITIAL else Apply(Run(ops[..|ops| - 1]), ops[|ops| - 1])
  }

  // Apply, with the walk written out.
  lemma ApplyCases(c: Control, op: Op)
    ensures var d := Register(c, op);
            var b := Book(d, op);
            var p := Path(c.state, op);
            && d.state == c.state && (LateSeek(d, op) <==> LateSeek(c, op))
            && (Duplicate(c, op) ==> Apply(c, op) == c)
            && (!Duplicate(c, op) && LateSeek(c, op) ==> Apply(c, op) == d.(lateSeekTotal := d.lateSeekTotal + 1))
            && (!Duplicate(c, op) && !LateSeek(c, op) && !Allowed(c.state, op) ==>
                  Apply(c, op) == Reject(d, Attempted(op)))
            && (!Duplicate(c, op) && !LateSeek(c, op) && Allowed(c.state, op) ==>
                  && (p == [] ==> Apply(c, op) == b)
                  && (|p| == 1 ==> Apply(c, op) == MoveTo(b, p[0]))
                  && (|p| == 2 ==> Apply(c, op) == MoveTo(MoveTo(b, p[0]), p[1]))
                  && (|p| == 3 ==> Apply(c, op) == MoveTo(MoveTo(MoveTo(b, p[0]), p[1]), p[2])))
  {
    hide Book, Path, MoveTo, Reject, Allowed, Attempted, Walk;
    WalkShort(Book(Register(c, op), op), Path(c.state, op));
  }

  lemma RunSnoc(ops: seq<Op>, op: Op)
    ensures Run(ops + [op]) == Apply(Run(ops), op)
  {
    assert (ops + [op])[..|ops|] == ops;
  }

  // ---- what each operation does, state by state ----

  // d is c moved from state to state along these transitions, the rest alike as
  // far as moving goes.
  ghost predicate Moved(c: Control, d: Control, to: State, steps: multiset<Transition>) {
    d.state == to && d.transitions == c.transitions + steps && d.legal == c.legal + steps && d.illegal == c.illegal
  }

  lemma MovesTo(c: Control, b: Control, d: Control, from: State, to: State, steps: multiset<Transition>)
    requires Moved(c, b, from, steps) && from != to && d == MoveTo(b, to)
    ensures Moved(c, d, to, steps + multiset{(from, to)})
  {
  }

  lemma StaysPut(c: Control, op: Op)
    ensures Moved(c, Book(Register(c, op), op), c.state, multiset{})
  {
  }

  lemma OnBufferDepthMoves(c: Control, depth: nat, capacity: nat)
    ensures var d := Apply(c, OnBufferDepth(depth, capacity));
            if capacity > 0 && c.state == Buffering && depth >= 3
            then Moved(c, d, Playing, multiset{(Buffering, Ready), (Ready, Playing)})
            else if capacity > 0 && c.state == Playing && depth == 0
            then Moved(c, d, Buffering, multiset{(Playing, Buffering)})
            else d == c
  {
    hide Apply;
    ApplyCases(c, OnBufferDepth(depth, capacity));
  }

  lemma OnBackPressureMoves(c: Control, event: BackPressureEvent)
    ensures var d := Apply(c, OnBackPressureEvent(event));
            if event.Underrun? && c.state == Playing then Moved(c, d, Buffering, multiset{(Playing, Buffering)})
            else if event.Overrun? then d == c.(queueOverflowTotal := c.queueOverflowTotal + 1)
            else d == c
    ensures var d := Apply(c, OnBackPressureCleared);
            if c.state == Buffering then Moved(c, d, Playing, multiset{(Buffering, Ready), (Ready, Playing)})
            else d == c
  {
    hide Apply;
    ApplyCases(c, OnBackPressureEvent(event));
    ApplyCases(c, OnBackPressureCleared);
  }

  lemma OnExternalEventMoves(c: Control)
    ensures var d := Apply(c, OnExternalTimeout);
            Moved(c, d, Error, if c.state == Error then multiset{} else multiset{(c.state, Error)})
    ensures Apply(c, OnQueueOverflow) == c.(queueOverflowTotal := c.queueOverflowTotal + 1)
  {
    hide Apply;
    ApplyCases(c, OnExternalTimeout);
    ApplyCases(c, OnQueueOverflow);
  }

  // d is c with a refused attempt to reach `to` recorded.
  ghost predicate RefusedAs(c: Control, d: Control, to: State) {
    && d.state == c.state && d.transitions == c.transitions + multiset{(c.state, to)}
    && d.illegalTransitionTotal == c.illegalTransitionTotal + 1 && d.lateSeekTotal == c.lateSeekTotal
  }

  // New commands: the states that accept them, where they lead, and what a
  // refusal is recorded as. Between calls the state is not Ready or Stopping.
  lemma BeginSessionMoves(c: Control, id: string, request: int)
    ensures var op := BeginSession(id, request); var d := Apply(c, op);
            !Duplicate(c, op) ==>
              && (Accepted(c, op) <==> c.state == Idle)
              && if c.state == Idle then Moved(c, d, Buffering, multiset{(Idle, Buffering)})
                 else RefusedAs(c, d, Buffering)
  {
    hide Apply, Duplicate;
    ApplyCases(c, BeginSession(id, request));
  }

  lemma PauseMoves(c: Control, id: string, request: int, effective: int, deviation: real)
    ensures var op := Pause(id, request, effective, deviation); var d := Apply(c, op);
            !Duplicate(c, op) ==>
              && (Accepted(c, op) <==> c.state == Playing)
              && if c.state == Playing then Moved(c, d, Paused, multiset{(Playing, Paused)})
                 else RefusedAs(c, d, Paused)
  {
    hide Apply, Duplicate;
    ApplyCases(c, Pause(id, request, effective, deviation));
  }

  lemma ResumeMoves(c: Control, id: string, request: int, effective: int)
    ensures var op := Resume(id, request, effective); var d := Apply(c, op);
            !Duplicate(c, op) ==>
              && (Accepted(c, op) <==> c.state == Paused)
              && if c.state == Paused then Moved(c, d, Playing, multiset{(Paused, Playing)})
                 else RefusedAs(c, d, Playing)
  {
    hide Apply, Duplicate;
    ApplyCases(c, Resume(id, request, effective));
  }

  lemma SeekMoves(c: Control, id: string, request: int, target: int, effective: int)
    ensures var op := Seek(id, request, target, effective); var d := Apply(c, op);
            !Duplicate(c, op) ==>
              && (Accepted(c, op) <==> target >= c.currentPtsUs && (c.state == Playing || c.state == Paused))
              && if target < c.currentPtsUs then d == c.(lateSeekTotal := c.lateSeekTotal + 1, processed := d.processed)
                 else if c.state == Playing || c.state == Paused then
                   Moved(c, d, Playing, multiset{(c.state, Buffering), (Buffering, Ready), (Ready, Playing)})
                 else RefusedAs(c, d, Buffering)
  {
    hide Apply, Duplicate, Book, MoveTo, Moved;
    var op := Seek(id, request, target, effective);
    ApplyCases(c, op);
    StaysPut(c, op);
    if c.state == Playing || c.state == Paused {
      var b := Book(Register(c, op), op);
      var b1 := MoveTo(b, Buffering);
      var b2 := MoveTo(b1, Ready);
      MovesTo(c, b, b1, c.state, Buffering, multiset{});
      MovesTo(c, b1, b2, Buffering, Ready, multiset{} + multiset{(c.state, Buffering)});
      MovesTo(c, b2, MoveTo(b2, Playing), Ready, Playing,
              multiset{} + multiset{(c.state, Buffering)} + multiset{(Buffering, Ready)});
      assert multiset{} + multiset{(c.state, Buffering)} + multiset{(Buffering, Ready)} + multiset{(Ready, Playing)}
          == multiset{(c.state, Buffering), (Buffering, Ready), (Ready, Playing)};
    }
  }

  lemma StopMoves(c: Control, id: string, request: int, effective: int)
    requires c.state != Stopping
    ensures var op := Stop(id, request, effective); var d := Apply(c, op);
            !Duplicate(c, op) ==>
              && (Accepted(c, op) <==> c.state != Idle)
              && if c.state != Idle then Moved(c, d, Idle, multiset{(c.state, Stopping), (Stopping, Idle)})
                 else RefusedAs(c, d, Stopping)
  {
    hide Apply, Duplicate, Book, MoveTo, Moved;
    var op := Stop(id, request, effective);
    ApplyCases(c, op);
    StaysPut(c, op);
    if c.state != Idle {
      var b := Book(Register(c, op), op);
      var b1 := MoveTo(b, Stopping);
      MovesTo(c, b, b1, c.state, Stopping, multiset{});
      MovesTo(c, b1, MoveTo(b1, Idle), Stopping, Idle, multiset{} + multiset{(c.state, Stopping)});
      assert multiset{} + multiset{(c.state, Stopping)} + multiset{(Stopping, Idle)}
          == multiset{(c.state, Stopping), (Stopping, Idle)};
    }
  }

  lemma RecoverMoves(c: Control, id: string, request: int)
    ensures var op := Recover(id, request); var d := Apply(c, op);
            !Duplicate(c, op) ==>
              && (Accepted(c, op) <==> c.state == Error)
              && if c.state == Error then Moved(c, d, Buffering, multiset{(Error, Buffering)})
                 else RefusedAs(c, d, Buffering)
  {
    hide Apply, Duplicate;
    ApplyCases(c, Recover(id, request));
  }

  // One more sample of `us` microseconds, in milliseconds.
  ghost predicate Sampled(before: seq<real>, after: seq<real>, us: int) {
    |after| == |before| + 1 && before <= after && after[|before|] * 1000.0 == us as real
  }

  // What an accepted new command measures, and when that is too long: over 33
  // ms for a pause, 50 for a resume, 250 for a seek, 500 for a stop.
  lemma CommandSamples(c: Control, op: Op)
    requires Accepted(c, op) && !Duplicate(c, op) && (op.Pause? || op.Resume? || op.Seek? || op.Stop?)
    ensures var d, us := Apply(c, op), op.effective - op.request;
            && (if op.Pause? then Sampled(c.pauseMs, d.pauseMs, us) else d.pauseMs == c.pauseMs)
            && (if op.Resume? then Sampled(c.resumeMs, d.resumeMs, us) else d.resumeMs == c.resumeMs)
            && (if op.Seek? then Sampled(c.seekMs, d.seekMs, us) else d.seekMs == c.seekMs)
            && (if op.Stop? then Sampled(c.stopMs, d.stopMs, us) else d.stopMs == c.stopMs)
            && d.deviationMs == (if op.Pause? then c.deviationMs + [op.deviationMs] else c.deviationMs)
            && d.latencyViolationTotal == c.latencyViolationTotal
               + if us > (if op.Pause? then 33000
                          else if op.Resume? then 50000
                          else if op.Seek? then 250000
                          else 500000)
                 then 1 else 0
  {
    hide Walk, Path, Edges;
    var d := Register(c, op);
    WalkSamples(Book(d, op), Path(d.state, op));
  }

  // ---- ledgers ----

  function In(m: multiset<Transition>, s: State): int {
    m[(Idle, s)] + m[(Buffering, s)] + m[(Ready, s)] + m[(Playing, s)] + m[(Paused, s)] + m[(Stopping, s)]
    + m[(Error, s)]
  }

  function Out(m: multiset<Transition>, s: State): int {
    m[(s, Idle)] + m[(s, Buffering)] + m[(s, Ready)] + m[(s, Playing)] + m[(s, Paused)] + m[(s, Stopping)]
    + m[(s, Error)]
  }

  function Is(b: bool): int {
    if b then 1 else 0
  }

  function Over(samples: seq<real>, threshold: real): nat {
    if samples == [] then 0
    else Over(samples[..|samples| - 1], threshold) + if samples[|samples| - 1] > threshold then 1 else 0
  }

  // Every transition is a state change or an illegal attempt.
  ghost predicate TotalsInv(c: Control) {
    && c.transitions == c.legal + c.illegal
    && |c.illegal| == c.illegalTransitionTotal
  }

  // The state changes form a walk from Idle to the present state.
  ghost predicate FlowInv(c: Control) {
    forall s :: In(c.legal, s) - Out(c.legal, s) == Is(s == c.state) - Is(s == Idle)
  }

  ghost predicate SamplesInv(c: Control) {
    && c.transitions[(Playing, Paused)] == |c.pauseMs| == |c.deviationMs|
    && c.transitions[(Paused, Playing)] == |c.resumeMs|
    && c.transitions[(Stopping, Idle)] == |c.stopMs|
    && c.legal[(Error, Buffering)] == c.recoverTotal
    && c.legal[(Buffering, Ready)] == c.legal[(Ready, Playing)] >= |c.seekMs|
  }

  ghost predicate ViolationsInv(c: Control) {
    c.latencyViolationTotal ==
      Over(c.pauseMs, PAUSE_THRESHOLD_MS) + Over(c.resumeMs, RESUME_THRESHOLD_MS)
      + Over(c.seekMs, SEEK_THRESHOLD_MS) + Over(c.stopMs, STOP_THRESHOLD_MS)
  }

  ghost predicate Ledgers(c: Control) {
    && c.state != Ready && c.state != Stopping
    && TotalsInv(c) && FlowInv(c) && SamplesInv(c) && ViolationsInv(c)
  }

  lemma FlowAdd(m: multiset<Transition>, a: State, b: State, s: State)
    ensures In(m + multiset{(a, b)}, s) == In(m, s) + Is(s == b)
    ensures Out(m + multiset{(a, b)}, s) == Out(m, s) + Is(s == a)
  {
    InAdd(m, a, b, s);
    OutAdd(m, a, b, s);
  }

  lemma InAdd(m: multiset<Transition>, a: State, b: State, s: State)
    ensures In(m + multiset{(a, b)}, s) == In(m, s) + Is(s == b)
  {
  }

  lemma OutAdd(m: multiset<Transition>, a: State, b: State, s: State)
    ensures Out(m + multiset{(a, b)}, s) == Out(m, s) + Is(s == a)
  {
  }

  lemma MoveFlow(c: Control, to: State)
    requires FlowInv(c)
    ensures FlowInv(MoveTo(c, to))
  {
    forall s
      ensures In(MoveTo(c, to).legal, s) - Out(MoveTo(c, to).legal, s) == Is(s == to) - Is(s == Idle)
    {
      FlowAdd(c.legal, c.state, to, s);
    }
  }

  lemma OverSnoc(samples: seq<real>, x: real, threshold: real)
    ensures Over(samples + [x], threshold) == Over(samples, threshold) + if x > threshold then 1 else 0
  {
    assert (samples + [x])[..|samples|] == samples;
  }

  // The state changes along a path.
  function Edges(s: State, path: seq<State>): multiset<Transition>
    decreases |path|
  {
    if path == [] then multiset{}
    else (if s == path[0] then multiset{} else multiset{(s, path[0])}) + Edges(path[0], path[1..])
  }

  lemma {:induction false} WalkEdges(c: Control, path: seq<State>)
    ensures Walk(c, path) ==
            c.(state := if path == [] then c.state else path[|path| - 1],
               transitions := c.transitions + Edges(c.state, path), legal := c.legal + Edges(c.state, path))
    decreases |path|
  {
    hide MoveTo;
    if path != [] {
      var d, e := MoveTo(c, path[0]), if c.state == path[0] then multiset{} else multiset{(c.state, path[0])};
      MoveEdge(c, path[0]);
      WalkEdges(d, path[1..]);
      assert c.transitions + e + Edges(path[0], path[1..]) == c.transitions + (e + Edges(path[0], path[1..]));
      assert c.legal + e + Edges(path[0], path[1..]) == c.legal + (e + Edges(path[0], path[1..]));
    }
  }

  lemma MoveEdge(c: Control, to: State)
    ensures var e := if c.state == to then multiset{} else multiset{(c.state, to)};
            MoveTo(c, to) == c.(state := to, transitions := c.transitions + e, legal := c.legal + e)
  {
  }

  lemma {:induction false} WalkFlow(c: Control, path: seq<State>)
    requires FlowInv(c)
    ensures FlowInv(Walk(c, path))
    decreases |path|
  {
    hide FlowInv;
    if path != [] {
      MoveFlow(c, path[0]);
      WalkFlow(MoveTo(c, path[0]), path[1..]);
    }
  }

  lemma FlowOnlyOnMoves(c: Control, d: Control)
    requires FlowInv(c) && d.legal == c.legal && d.state == c.state
    ensures FlowInv(d)
  {
  }

  lemma BookKeepsLedger(c: Control, op: Op)
    ensures var d := Book(c, op);
            && d.state == c.state && d.transitions == c.transitions && d.legal == c.legal && d.illegal == c.illegal
            && d.illegalTransitionTotal == c.illegalTransitionTotal
  {
  }

  // How often the walk along path goes from x to y.
  function Steps(s: State, path: seq<State>, x: State, y: State): int
    decreases |path|
  {
    if path == [] then 0
    else Is(s != path[0] && s == x && path[0] == y) + Steps(path[0], path[1..], x, y)
  }

  lemma {:induction false} EdgesAt(s: State, path: seq<State>, x: State, y: State)
    ensures Edges(s, path)[(x, y)] == Steps(s, path, x, y)
    decreases |path|
  {
    if path != [] {
      EdgesAt(path[0], path[1..], x, y);
    }
  }

  lemma Steps3(s: State, path: seq<State>, x: State, y: State)
    ensures path == [] ==> Steps(s, path, x, y) == 0
    ensures |path| == 1 ==> Steps(s, path, x, y) == Step(s, path[0], x, y)
    ensures |path| == 2 ==> Steps(s, path, x, y) == Step(s, path[0], x, y) + Step(path[0], path[1], x, y)
    ensures |path| == 3 ==>
      Steps(s, path, x, y) == Step(s, path[0], x, y) + Step(path[0], path[1], x, y) + Step(path[1], path[2], x, y)
    decreases |path|
  {
    if 2 <= |path| <= 3 {
      Steps3(path[0], path[1..], x, y);
    }
  }

  function Step(a: State, b: State, x: State, y: State): int {
    Is(a != b && a == x && b == y)
  }

  // The edges each operation adds to the counts that samples are tied to.
  lemma PathSteps(s: State, op: Op)
    requires Allowed(s, op) && s != Ready && s != Stopping
    ensures var p := Path(s, op);
            && Steps(s, p, Playing, Paused) == Is(op.Pause?)
            && Steps(s, p, Paused, Playing) == Is(op.Resume?)
            && Steps(s, p, Stopping, Idle) == Is(op.Stop?)
            && Steps(s, p, Error, Buffering) == Is(op.Recover?)
            && Steps(s, p, Buffering, Ready) == Steps(s, p, Ready, Playing) >= Is(op.Seek?)
            && (p != [] ==> p[|p| - 1] != Ready && p[|p| - 1] != Stopping)
  {
    hide Steps;
    var p := Path(s, op);
    Steps3(s, p, Playing, Paused);
    Steps3(s, p, Paused, Playing);
    Steps3(s, p, Stopping, Idle);
    Steps3(s, p, Error, Buffering);
    Steps3(s, p, Buffering, Ready);
    Steps3(s, p, Ready, Playing);
  }

  // What an allowed operation adds to the counts and samples that SamplesInv ties.
  lemma WalkCounts(c: Control, op: Op)
    requires Allowed(c.state, op) && c.state != Ready && c.state != Stopping
    ensures var d := Walk(Book(c, op), Path(c.state, op));
            && d.state != Ready && d.state != Stopping
            && d.transitions[(Playing, Paused)] == c.transitions[(Playing, Paused)] + Is(op.Pause?)
            && d.transitions[(Paused, Playing)] == c.transitions[(Paused, Playing)] + Is(op.Resume?)
            && d.transitions[(Stopping, Idle)] == c.transitions[(Stopping, Idle)] + Is(op.Stop?)
            && d.legal[(Error, Buffering)] == c.legal[(Error, Buffering)] + Is(op.Recover?)
            && d.legal[(Buffering, Ready)] + c.legal[(Ready, Playing)]
               == d.legal[(Ready, Playing)] + c.legal[(Buffering, Ready)]
            && d.legal[(Buffering, Ready)] >= c.legal[(Buffering, Ready)] + Is(op.Seek?)
  {
    hide Edges, Steps, Walk, Path, Book;
    var p := Path(c.state, op);
    BookKeepsLedger(c, op);
    WalkEdges(Book(c, op), p);
    PathSteps(c.state, op);
    EdgesAt(c.state, p, Playing, Paused);
    EdgesAt(c.state, p, Paused, Playing);
    EdgesAt(c.state, p, Stopping, Idle);
    EdgesAt(c.state, p, Error, Buffering);
    EdgesAt(c.state, p, Buffering, Ready);
    EdgesAt(c.state, p, Ready, Playing);
  }

  lemma WalkSamples(c: Control, path: seq<State>)
    ensures var d := Walk(c, path);
            && d.pauseMs == c.pauseMs && d.resumeMs == c.resumeMs && d.seekMs == c.seekMs && d.stopMs == c.stopMs
            && d.deviationMs == c.deviationMs && d.recoverTotal == c.recoverTotal
            && d.latencyViolationTotal == c.latencyViolationTotal
            && d.currentPtsUs == c.currentPtsUs && d.processed == c.processed
  {
    hide Walk, Edges;
    WalkEdges(c, path);
  }

  lemma BookSamples(c: Control, op: Op)
    ensures var d := Book(c, op);
            && |d.pauseMs| == |c.pauseMs| + Is(op.Pause?) && |d.deviationMs| == |c.deviationMs| + Is(op.Pause?)
            && |d.resumeMs| == |c.resumeMs| + Is(op.Resume?) && |d.seekMs| == |c.seekMs| + Is(op.Seek?)
            && |d.stopMs| == |c.stopMs| + Is(op.Stop?) && d.recoverTotal == c.recoverTotal + Is(op.Recover?)
  {
  }

  // A refused command is never booked under a pair that has samples.
  lemma RejectCounts(c: Control, op: Op)
    requires !Allowed(c.state, op) && c.state != Ready && c.state != Stopping
    ensures var d := Reject(c, Attempted(op));
            && d.transitions[(Playing, Paused)] == c.transitions[(Playing, Paused)]
            && d.transitions[(Paused, Playing)] == c.transitions[(Paused, Playing)]
            && d.transitions[(Stopping, Idle)] == c.transitions[(Stopping, Idle)]
  {
  }

  lemma ApplySamples(c: Control, op: Op)
    requires SamplesInv(c) && c.state != Ready && c.state != Stopping
    ensures SamplesInv(Apply(c, op)) && Apply(c, op).state != Ready && Apply(c, op).state != Stopping
  {
    hide Book, Path, Walk, Edges;
    var d := Register(c, op);
    if !LateSeek(d, op) && Allowed(d.state, op) {
      WalkCounts(d, op);
      WalkSamples(Book(d, op), Path(d.state, op));
      BookSamples(d, op);
    } else if !Allowed(d.state, op) {
      RejectCounts(d, op);
    }
  }

  lemma BookViolations(c: Control, op: Op)
    requires ViolationsInv(c)
    ensures ViolationsInv(Book(c, op))
  {
    hide Over;
    if op.Pause? {
      OverSnoc(c.pauseMs, LatencyMs(op), PAUSE_THRESHOLD_MS);
    } else if op.Resume? {
      OverSnoc(c.resumeMs, LatencyMs(op), RESUME_THRESHOLD_MS);
    } else if op.Seek? {
      OverSnoc(c.seekMs, LatencyMs(op), SEEK_THRESHOLD_MS);
    } else if op.Stop? {
      OverSnoc(c.stopMs, LatencyMs(op), STOP_THRESHOLD_MS);
    }
  }

  lemma ApplyViolations(c: Control, op: Op)
    requires ViolationsInv(c)
    ensures ViolationsInv(Apply(c, op))
  {
    hide Book, Path, Walk, Over;
    var d := Register(c, op);
    BookViolations(d, op);
    WalkSamples(Book(d, op), Path(d.state, op));
  }

  lemma ApplyTotals(c: Control, op: Op)
    requires TotalsInv(c)
    ensures TotalsInv(Apply(c, op))
  {
    hide Book, Path, Walk, Edges, TotalsInv, Reject, Allowed, Attempted;
    var d := Register(c, op);
    BookKeepsLedger(d, op);
    SameTotals(c, d);
    SameTotals(d, Book(d, op));
    WalkTotals(Book(d, op), Path(d.state, op));
    RejectTotals(d, Attempted(op));
    SameTotals(d, d.(lateSeekTotal := d.lateSeekTotal + 1));
  }

  lemma SameTotals(c: Control, d: Control)
    requires TotalsInv(c) && d.transitions == c.transitions && d.legal == c.legal && d.illegal == c.illegal
    requires d.illegalTransitionTotal == c.illegalTransitionTotal
    ensures TotalsInv(d)
  {
  }

  lemma RejectTotals(c: Control, to: State)
    requires TotalsInv(c)
    ensures TotalsInv(Reject(c, to))
  {
  }

  lemma WalkTotals(c: Control, path: seq<State>)
    requires TotalsInv(c)
    ensures TotalsInv(Walk(c, path))
  {
    hide Walk, Edges;
    WalkEdges(c, path);
  }

  lemma ApplyFlow(c: Control, op: Op)
    requires FlowInv(c)
    ensures FlowInv(Apply(c, op))
  {
    hide Book, Path, Walk, FlowInv;
    var d := Register(c, op);
    FlowOnlyOnMoves(c, d);
    BookKeepsLedger(d, op);
    FlowOnlyOnMoves(d, Book(d, op));
    WalkFlow(Book(d, op), Path(d.state, op));
    if LateSeek(d, op) || !Allowed(d.state, op) {
      FlowOnlyOnMoves(d, Execute(d, op));
    }
  }

  // In every reachable state. The state is never Ready or Stopping between
  // calls; each recorded transition is a state change or an illegal attempt;
  // the state changes form a walk from Idle; sample counts match transition
  // counts; violations count the samples over their thresholds.
  lemma {:induction false} LedgersHold(ops: seq<Op>)
    ensures Ledgers(Run(ops))
  {
    hide FlowInv, SamplesInv, ViolationsInv, TotalsInv, Apply;
    if ops == [] {
      InitialLedgers();
    } else {
      var c, op := Run(ops[..|ops| - 1]), ops[|ops| - 1];
      LedgersHold(ops[..|ops| - 1]);
      ApplyTotals(c, op);
      ApplyFlow(c, op);
      ApplySamples(c, op);
      ApplyViolations(c, op);
    }
  }

  lemma InitialLedgers()
    ensures Ledgers(INITIAL)
  {
  }

  // How often a new command is refused as an attempt to go from Error to
  // Buffering.
  function RefusedInError(ops: seq<Op>): nat {
    if ops == [] then 0
    else
      var c, op := Run(ops[..|ops| - 1]), ops[|ops| - 1];
      RefusedInError(ops[..|ops| - 1])
      + if c.state == Error && !Duplicate(c, op) && (op.BeginSession? || (op.Seek? && !LateSeek(c, op))) then 1 else 0
  }

  // transitions_ from Error to Buffering counts the recoveries and, besides,
  // each session begun and each seek refused in Error.
  lemma {:induction false} ErrorToBuffering(ops: seq<Op>)
    ensures Run(ops).transitions[(Error, Buffering)] == Run(ops).recoverTotal + RefusedInError(ops)
  {
    IllegalFromError(ops);
    LedgersHold(ops);
  }

  lemma {:induction false} IllegalFromError(ops: seq<Op>)
    ensures Run(ops).illegal[(Error, Buffering)] == RefusedInError(ops)
  {
    hide Apply, Duplicate, LateSeek;
    if ops != [] {
      IllegalFromError(ops[..|ops| - 1]);
      ApplyIllegal(Run(ops[..|ops| - 1]), ops[|ops| - 1]);
    }
  }

  lemma ApplyIllegal(c: Control, op: Op)
    ensures Apply(c, op).illegal[(Error, Buffering)] == c.illegal[(Error, Buffering)]
            + Is(c.state == Error && !Duplicate(c, op) && (op.BeginSession? || (op.Seek? && !LateSeek(c, op))))
  {
    hide Walk, Path, Book, Duplicate, Reject, Attempted;
    var d := Register(c, op);
    BookKeepsLedger(d, op);
    WalkKeepsIllegal(Book(d, op), Path(d.state, op));
    if !Allowed(d.state, op) {
      RejectFromError(d, op);
    }
    NeverDuplicate(c, op);
  }

  lemma WalkKeepsIllegal(c: Control, path: seq<State>)
    ensures Walk(c, path).illegal == c.illegal
  {
    hide Walk, Edges;
    WalkEdges(c, path);
  }

  lemma NeverDuplicate(c: Control, op: Op)
    ensures Duplicate(c, op) ==> IsCommand(op)
  {
  }

  lemma RejectFromError(c: Control, op: Op)
    requires !Allowed(c.state, op)
    ensures Reject(c, Attempted(op)).illegal[(Error, Buffering)]
            == c.illegal[(Error, Buffering)] + Is(c.state == Error && (op.BeginSession? || op.Seek?))
  {
  }

  // A session begun in Error, without any recovery, is counted there.
  lemma ErrorToBufferingRefused()
    ensures var c := Run([OnExternalTimeout, BeginSession("a", 0)]);
            c.transitions[(Error, Buffering)] == 1 && c.recoverTotal == 0
  {
    hide Run, Apply;
    var t, b := OnExternalTimeout, BeginSession("a", 0);
    RunSnoc([], t);
    RunSnoc([t], b);
    assert [] + [t] == [t] && [t] + [b] == [t, b];
    NothingRun();
    TimeoutFromIdle();
    BeginInError(Run([t]), "a", 0);
  }

  lemma TimeoutFromIdle()
    ensures var c := Apply(INITIAL, OnExternalTimeout);
            c.state == Error && c.processed == {} && c.recoverTotal == 0 && c.transitions == multiset{(Idle, Error)}
  {
    hide Apply;
    ApplyCases(INITIAL, OnExternalTimeout);
  }

  lemma BeginInError(c: Control, id: string, request: int)
    requires c.state == Error && id !in c.processed
    ensures var d := Apply(c, BeginSession(id, request));
            d.recoverTotal == c.recoverTotal && d.transitions == c.transitions + multiset{(Error, Buffering)}
  {
    hide Apply;
    ApplyCases(c, BeginSession(id, request));
  }

  // ---- refusals ----

  // A refused command leaves the state, the samples and the position alone and
  // is counted once: as a late seek or as an illegal attempt.
  lemma RefusedIsHarmless(c: Control, op: Op)
    requires !Accepted(c, op)
    ensures var d := Apply(c, op);
            && d == c.(processed := d.processed, transitions := d.transitions, illegal := d.illegal,
                       illegalTransitionTotal := d.illegalTransitionTotal, lateSeekTotal := d.lateSeekTotal)
            && d.illegalTransitionTotal + d.lateSeekTotal == c.illegalTransitionTotal + c.lateSeekTotal + 1
            && |d.transitions| == |c.transitions| + d.illegalTransitionTotal - c.illegalTransitionTotal
  {
  }

  predicate IsOverflow(op: Op) {
    op.OnQueueOverflow? || op == OnBackPressureEvent(OrchestrationLoop.Overrun)
  }

  // Over a run: timeouts, overflows and refusals are each counted once.
  function Tally(ops: seq<Op>): (t: (nat, nat, nat)) {
    if ops == [] then (0, 0, 0)
    else
      var t, op := Tally(ops[..|ops| - 1]), ops[|ops| - 1];
      if op.OnExternalTimeout? then (t.0 + 1, t.1, t.2)
      else if IsOverflow(op) then (t.0, t.1 + 1, t.2)
      else if !Accepted(Run(ops[..|ops| - 1]), op) then (t.0, t.1, t.2 + 1)
      else t
  }

  lemma {:induction false} CountersTally(ops: seq<Op>)
    ensures Run(ops).timeoutTotal == Tally(ops).0
    ensures Run(ops).queueOverflowTotal == Tally(ops).1
    ensures Run(ops).illegalTransitionTotal + Run(ops).lateSeekTotal == Tally(ops).2
  {
    hide Apply, Duplicate, LateSeek, Allowed;
    if ops != [] {
      CountersTally(ops[..|ops| - 1]);
      ApplyCounters(Run(ops[..|ops| - 1]), ops[|ops| - 1]);
    }
  }

  lemma ApplyCounters(c: Control, op: Op)
    ensures var d := Apply(c, op);
            && d.timeoutTotal == c.timeoutTotal + Is(op.OnExternalTimeout?)
            && d.queueOverflowTotal == c.queueOverflowTotal + Is(IsOverflow(op))
            && d.illegalTransitionTotal + d.lateSeekTotal
               == c.illegalTransitionTotal + c.lateSeekTotal + Is(!Accepted(c, op))
    ensures !Accepted(c, op) ==> IsCommand(op)
  {
    hide Walk, Path, Book;
    var d := Register(c, op);
    BookCounters(d, op);
    WalkCounters(Book(d, op), Path(d.state, op));
  }

  lemma BookCounters(c: Control, op: Op)
    ensures var d := Book(c, op);
            && d.timeoutTotal == c.timeoutTotal + Is(op.OnExternalTimeout?)
            && d.queueOverflowTotal == c.queueOverflowTotal + Is(IsOverflow(op))
            && d.illegalTransitionTotal == c.illegalTransitionTotal && d.lateSeekTotal == c.lateSeekTotal
  {
  }

  lemma WalkCounters(c: Control, path: seq<State>)
    ensures var d := Walk(c, path);
            && d.timeoutTotal == c.timeoutTotal && d.queueOverflowTotal == c.queueOverflowTotal
            && d.illegalTransitionTotal == c.illegalTransitionTotal && d.lateSeekTotal == c.lateSeekTotal
  {
    hide Walk, Edges;
    WalkEdges(c, path);
  }

  // Error is entered by a timeout only, and left by Stop and Recover only: a
  // command over its latency threshold does not escalate.
  lemma ErrorExactly(c: Control, op: Op)
    requires c.state != Ready && c.state != Stopping
    ensures Apply(c, op).state == Error <==>
            op.OnExternalTimeout? || (c.state == Error && (Duplicate(c, op) || !(op.Stop? || op.Recover?)))
  {
    hide Walk, Book, Edges;
    var d := Register(c, op);
    BookKeepsLedger(d, op);
    WalkEdges(Book(d, op), Path(d.state, op));
  }

  // Over its threshold, any accepted pause is counted and still pauses.
  lemma LatePauseOnlyCounts(c: Control, op: Op)
    requires op.Pause? && c.state == Playing && !Duplicate(c, op) && LatencyMs(op) > PAUSE_THRESHOLD_MS
    ensures Apply(c, op).state == Paused && Apply(c, op).latencyViolationTotal == c.latencyViolationTotal + 1
  {
    hide Apply;
    ApplyCases(c, op);
  }

  lemma PlayingReached()
    ensures var c := Run([BeginSession("a", 0), OnBufferDepth(3, 8)]);
            c.state == Playing && c.processed == {"a"} && c.latencyViolationTotal == 0
  {
    hide Apply, Run;
    var a, b := BeginSession("a", 0), OnBufferDepth(3, 8);
    RunSnoc([], a);
    RunSnoc([a], b);
    assert [] + [a] == [a] && [a] + [b] == [a, b];
    NothingRun();
    SessionBegins("a", 0);
    BufferFills(Run([a]), 3, 8);
  }

  lemma SessionBegins(id: string, request: int)
    requires id != ""
    ensures var c := Apply(INITIAL, BeginSession(id, request));
            c.state == Buffering && c.processed == {id} && c.latencyViolationTotal == 0
  {
    hide Apply, In, Out;
    ApplyCases(INITIAL, BeginSession(id, request));
  }

  lemma BufferFills(c: Control, depth: nat, capacity: nat)
    requires c.state == Buffering && READINESS_THRESHOLD_FRAMES <= depth && capacity > 0
    ensures var d := Apply(c, OnBufferDepth(depth, capacity));
            d.state == Playing && d.processed == c.processed && d.latencyViolationTotal == c.latencyViolationTotal
  {
    hide Apply;
    ApplyCases(c, OnBufferDepth(depth, capacity));
  }

  lemma NothingRun()
    ensures Run([]) == INITIAL
    ensures INITIAL.state == Idle && INITIAL.currentPtsUs == 0 && INITIAL.processed == {}
    ensures INITIAL.transitions == multiset{} && INITIAL.illegalTransitionTotal == INITIAL.lateSeekTotal == 0
  {
  }

  // A run that pauses 100 ms after the request, where 33 ms are allowed, and
  // ends in Paused, not in Error.
  lemma LatePauseRun()
    ensures var c := Run([BeginSession("a", 0), OnBufferDepth(3, 8), Pause("b", 0, 100000, 0.0)]);
            c.state == Paused && c.latencyViolationTotal == 1
  {
    hide Apply, Run;
    var ops, p := [BeginSession("a", 0), OnBufferDepth(3, 8)], Pause("b", 0, 100000, 0.0);
    PlayingReached();
    RunSnoc(ops, p);
    assert ops + [p] == [BeginSession("a", 0), OnBufferDepth(3, 8), p];
    assert p.id == "b" && "b"[0] != "a"[0];
    LatePauseOnlyCounts(Run(ops), p);
  }

  // A refused command's id is taken: sent again it is acknowledged, and nothing
  // happens.
  lemma RefusedThenAcknowledged(id: string, request: int, effective: int, deviation: real)
    requires id != ""
    ensures var op := Pause(id, request, effective, deviation);
            && !Accepted(INITIAL, op)
            && Accepted(Run([op]), op) && Run([op, op]) == Run([op])
  {
    var op := Pause(id, request, effective, deviation);
    RunSnoc([], op);
    RunSnoc([op], op);
    assert [] + [op] == [op] && [op] + [op] == [op, op];
  }

  // In general: a second copy of a command is always acknowledged without
  // effect, whatever became of the first, exactly when it carries an id.
  lemma SecondCopy(c: Control, op: Op)
    requires IsCommand(op)
    ensures Duplicate(Apply(c, op), op) <==> op.id != ""
    ensures op.id != "" ==> Accepted(Apply(c, op), op) && Apply(Apply(c, op), op) == Apply(c, op)
  {
    hide Walk, Path, Book;
    var d := Register(c, op);
    WalkSamples(Book(d, op), Path(d.state, op));
    BookProcessed(d, op);
  }

  // ---- position ----

  lemma {:induction false} PositionNeverDecreases(ops: seq<Op>, n: nat)
    requires n <= |ops|
    ensures Run(ops[..n]).currentPtsUs <= Run(ops).currentPtsUs
    decreases |ops|
  {
    if n == |ops| {
      assert ops[..n] == ops;
    } else {
      var c, op := Run(ops[..|ops| - 1]), ops[|ops| - 1];
      PositionNeverDecreases(ops[..|ops| - 1], n);
      assert ops[..|ops| - 1][..n] == ops[..n];
      ApplyPosition(c, op);
    }
  }

  // Only an accepted new seek moves the position, and to its target.
  lemma ApplyPosition(c: Control, op: Op)
    ensures c.currentPtsUs <= Apply(c, op).currentPtsUs
    ensures Apply(c, op).currentPtsUs ==
            if op.Seek? && Accepted(c, op) && !Duplicate(c, op) then op.target else c.currentPtsUs
  {
    hide Walk, Path;
    var d := Register(c, op);
    WalkSamples(Book(d, op), Path(d.state, op));
  }

  // ---- deduplication ----

  function Ids(ops: seq<Op>): set<string> {
    if ops == [] then {}
    else
      var op := ops[|ops| - 1];
      Ids(ops[..|ops| - 1]) + if IsCommand(op) && op.id != "" then {op.id} else {}
  }

  // A command whose non-empty id an earlier command of any kind has carried.
  ghost predicate Repeats(ops: seq<Op>, i: int)
    requires 0 <= i < |ops|
  {
    IsCommand(ops[i]) && ops[i].id != "" && exists j :: 0 <= j < i && IsCommand(ops[j]) && ops[j].id == ops[i].id
  }

  // The run with every repeating command taken out.
  ghost function Erase(ops: seq<Op>): seq<Op> {
    if ops == [] then []
    else Erase(ops[..|ops| - 1]) + if Repeats(ops, |ops| - 1) then [] else [ops[|ops| - 1]]
  }

  lemma {:induction false} ProcessedIsIds(ops: seq<Op>)
    ensures Run(ops).processed == Ids(ops)
  {
    hide Walk, Path, Book;
    if ops != [] {
      ProcessedIsIds(ops[..|ops| - 1]);
      var c, op := Run(ops[..|ops| - 1]), ops[|ops| - 1];
      var d := Register(c, op);
      WalkSamples(Book(d, op), Path(d.state, op));
      BookProcessed(d, op);
    }
  }

  lemma BookProcessed(c: Control, op: Op)
    ensures Book(c, op).processed == c.processed
  {
  }

  lemma {:induction false} InIds(ops: seq<Op>, id: string)
    ensures id in Ids(ops) <==> id != "" && exists j :: 0 <= j < |ops| && IsCommand(ops[j]) && ops[j].id == id
  {
    if ops != [] {
      var init := ops[..|ops| - 1];
      InIds(init, id);
      if j :| 0 <= j < |ops| && IsCommand(ops[j]) && ops[j].id == id {
        assert j < |init| ==> init[j] == ops[j];
      }
      if j :| 0 <= j < |init| && IsCommand(init[j]) && init[j].id == id {
        assert ops[j] == init[j];
      }
    }
  }

  // Repeated commands leave no trace: not in the state, the counters, the
  // samples or the position.
  lemma {:induction false} DuplicatesErased(ops: seq<Op>)
    ensures Run(Erase(ops)) == Run(ops)
  {
    hide Execute, Register;
    if ops != [] {
      var init, op := ops[..|ops| - 1], ops[|ops| - 1];
      DuplicatesErased(init);
      RepeatsIsDuplicate(ops);
      if Repeats(ops, |ops| - 1) {
        assert Erase(ops) == Erase(init);
      } else {
        assert Erase(ops)[..|Erase(ops)| - 1] == Erase(init);
      }
    }
  }

  lemma RepeatsIsDuplicate(ops: seq<Op>)
    requires ops != []
    ensures Repeats(ops, |ops| - 1) <==> Duplicate(Run(ops[..|ops| - 1]), ops[|ops| - 1])
  {
    hide Run;
    var init, op := ops[..|ops| - 1], ops[|ops| - 1];
    ProcessedIsIds(init);
    if IsCommand(op) {
      InIds(init, op.id);
      if j :| 0 <= j < |init| && IsCommand(init[j]) && init[j].id == op.id {
        assert ops[j] == init[j];
      }
      if j :| 0 <= j < |ops| - 1 && IsCommand(ops[j]) && ops[j].id == op.id {
        assert init[j] == ops[j];
      }
    }
  }
}
