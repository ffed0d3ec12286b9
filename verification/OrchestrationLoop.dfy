// The orchestration loop: its thread function over a scripted clock, and the
// back-pressure bookkeeping around it.
module OrchestrationLoop {
  import opened Wrappers
  import opened TickTiming

  datatype BackPressureEvent = Underrun | Overrun | Stall

  datatype PendingBackPressure = PendingBackPressure(
    event: BackPressureEvent, startTick: nat, startTimeUtcUs: int, ticksElapsed: nat)

  datatype Report = Report(event: BackPressureEvent, now: int)

  datatype TickResult = TickResult(deadlineMet: bool, backpressureCleared: bool)

  // The part of the statistics that back-pressure handling works on.
  datatype Pressure = Pressure(
    pending: Option<PendingBackPressure>, recoveries: seq<(BackPressureEvent, real)>, unresolved: bool)

  // A pending event is cleared with its recovery time, or ages by one tick
  // and, past the limit, raises the alert.
  function Handled(b: Pressure, result: TickResult, now: int, maxTicks: nat): Pressure {
    match b.pending
    case None => b
    case Some(p) =>
      if result.backpressureCleared then
        Pressure(None, b.recoveries + [(p.event, (now - p.startTimeUtcUs) as real / 1000.0)], b.unresolved)
      else
        Pressure(Some(p.(ticksElapsed := p.ticksElapsed + 1)), b.recoveries,
                 b.unresolved || p.ticksElapsed + 1 > maxTicks)
  }

  // The events reported before n ticks from tick `first` on.
  function ReportedIn(script: Script, first: nat, n: nat): multiset<BackPressureEvent> {
    if n == 0 then multiset{} else ReportedIn(script, first, n - 1) + EventsOf(script.reports(first + n - 1))
  }

  // One tick: the reports before it, a missed deadline, the pending event.
  function Ticked(b: Pressure, tick: nat, reports: seq<Report>, result: TickResult, now: int, maxTicks: nat): Pressure {
    Handled(b.(pending := LastReport(b.pending, reports, tick), unresolved := b.unresolved || !result.deadlineMet),
            result, now, maxTicks)
  }

  // What the other threads and the callback do at each tick.
  datatype Script = Script(results: nat -> TickResult, reports: nat -> seq<Report>)

  // The clock is asked once more exactly when a pending event is cleared.
  predicate Rereads(b: Pressure, tick: nat, script: Script) {
    LastReport(b.pending, script.reports(tick), tick).Some? && script.results(tick).backpressureCleared
  }

  lemma RereadsExactly(b: Pressure, tick: nat, script: Script)
    ensures Rereads(b, tick, script) <==>
            script.results(tick).backpressureCleared && (b.pending.Some? || |script.reports(tick)| > 0)
  {
  }

  function RecoveryTime(t: Turn, clock: seq<int>): int {
    if t.at + 1 < t.next <= |clock| then clock[t.at + 1] else t.tick.actual
  }

  // The statistics after the turns of a run that began at tick `first`.
  function AfterTurns(
    b: Pressure, first: nat, turns: seq<Turn>, clock: seq<int>, script: Script, maxTicks: nat): Pressure
    decreases |turns|
  {
    if turns == [] then
      b
    else
      var n := |turns| - 1;
      Ticked(AfterTurns(b, first, turns[..n], clock, script, maxTicks), first + n, script.reports(first + n),
             script.results(first + n), RecoveryTime(turns[n], clock), maxTicks)
  }

  ghost predicate RereadsRecorded(
    b: Pressure, first: nat, turns: seq<Turn>, clock: seq<int>, script: Script, maxTicks: nat)
  {
    forall k :: 0 <= k < |turns| ==>
      (turns[k].next == turns[k].at + 2 <==>
        turns[k].at + 1 < |clock|
        && Rereads(AfterTurns(b, first, turns[..k], clock, script, maxTicks), first + k, script))
  }

  lemma TurnsSnoc(
    b: Pressure, first: nat, turns: seq<Turn>, t: Turn, clock: seq<int>, script: Script, maxTicks: nat)
    requires RereadsRecorded(b, first, turns, clock, script, maxTicks)
    ensures var before := AfterTurns(b, first, turns, clock, script, maxTicks);
            && AfterTurns(b, first, turns + [t], clock, script, maxTicks)
               == Ticked(before, first + |turns|, script.reports(first + |turns|), script.results(first + |turns|),
                         RecoveryTime(t, clock), maxTicks)
            && ((t.next == t.at + 2 <==> t.at + 1 < |clock| && Rereads(before, first + |turns|, script)) ==>
                  RereadsRecorded(b, first, turns + [t], clock, script, maxTicks))
  {
    hide Ticked, Rereads, RecoveryTime;
    var all := turns + [t];
    assert all[..|turns|] == turns;
    assert forall k :: 0 <= k <= |turns| ==> all[..k] == turns[..k];
    assert turns[..|turns|] == turns;
  }

  // In any run: an event that no tick clears and no report replaces raises the
  // alert at tick maxTicks + 1 and not before, unless a tick misses its deadline.
  lemma {:induction false} UnclearedRaisesAlert(
    b: Pressure, first: nat, turns: seq<Turn>, clock: seq<int>, script: Script, maxTicks: nat)
    requires b.pending.Some? && b.pending.value.ticksElapsed == 0 && !b.unresolved
    requires forall k :: first <= k < first + |turns| ==>
      script.reports(k) == [] && !script.results(k).backpressureCleared
    ensures var after := AfterTurns(b, first, turns, clock, script, maxTicks);
            && after.pending == Some(b.pending.value.(ticksElapsed := |turns|))
            && after.recoveries == b.recoveries
            && (after.unresolved <==>
                  |turns| > maxTicks || exists k :: first <= k < first + |turns| && !script.results(k).deadlineMet)
    decreases |turns|
  {
    if turns != [] {
      var n := |turns| - 1;
      UnclearedRaisesAlert(b, first, turns[..n], clock, script, maxTicks);
      var met := script.results(first + n).deadlineMet;
      assert !met ==> exists k :: first <= k < first + |turns| && !script.results(k).deadlineMet;
    }
  }

  // With nothing pending or reported, a run leaves the back-pressure statistics
  // alone but for ticks that miss their deadline.
  lemma {:induction false} QuietRun(
    b: Pressure, first: nat, turns: seq<Turn>, clock: seq<int>, script: Script, maxTicks: nat)
    requires b.pending.None? && forall k :: first <= k < first + |turns| ==> script.reports(k) == []
    ensures var after := AfterTurns(b, first, turns, clock, script, maxTicks);
            && after.pending.None? && after.recoveries == b.recoveries
            && (after.unresolved <==>
                  b.unresolved || exists k :: first <= k < first + |turns| && !script.results(k).deadlineMet)
    decreases |turns|
  {
    if turns != [] {
      var n := |turns| - 1;
      QuietRun(b, first, turns[..n], clock, script, maxTicks);
      var met := script.results(first + n).deadlineMet;
      assert !met ==> exists k :: first <= k < first + |turns| && !script.results(k).deadlineMet;
    }
  }

  // The reports before tick `first`, the last of them r, are the last for a
  // while, and no tick before the n-th clears anything.
  ghost predicate OnlyReport(first: nat, n: nat, script: Script, r: Report) {
    && n > 0 && script.reports(first) != [] && script.reports(first)[|script.reports(first)| - 1] == r
    && (forall k :: first < k < first + n ==> script.reports(k) == [])
    && (forall k :: first <= k < first + n - 1 ==> !script.results(k).backpressureCleared)
  }

  // A report replaces whatever was pending, and ages with the ticks.
  lemma {:induction false} ReportAges(
    b: Pressure, first: nat, turns: seq<Turn>, clock: seq<int>, script: Script, maxTicks: nat, r: Report)
    requires OnlyReport(first, |turns|, script, r) && !script.results(first + |turns| - 1).backpressureCleared
    ensures var after := AfterTurns(b, first, turns, clock, script, maxTicks);
            && after.pending == Some(PendingBackPressure(r.event, first, r.now, |turns|))
            && after.recoveries == b.recoveries
    decreases |turns|
  {
    var n := |turns| - 1;
    if n == 0 {
      assert turns[..n] == [];
    } else {
      ReportAges(b, first, turns[..n], clock, script, maxTicks, r);
    }
  }

  // The tick that clears it books one recovery: the time, in ms, from the report
  // to the answer of the clock after that tick.
  lemma ReportRecovers(
    b: Pressure, first: nat, turns: seq<Turn>, clock: seq<int>, script: Script, maxTicks: nat, r: Report)
    requires OnlyReport(first, |turns|, script, r) && script.results(first + |turns| - 1).backpressureCleared
    requires var t := turns[|turns| - 1]; t.next == t.at + 2 <= |clock|
    ensures var after, t := AfterTurns(b, first, turns, clock, script, maxTicks), turns[|turns| - 1];
            && after.pending.None?
            && |after.recoveries| == |b.recoveries| + 1 && b.recoveries <= after.recoveries
            && after.recoveries[|b.recoveries|].0 == r.event
            && after.recoveries[|b.recoveries|].1 * 1000.0 == (clock[t.at + 1] - r.now) as real
  {
    var n := |turns| - 1;
    if n == 0 {
      assert turns[..n] == [];
    } else {
      ReportAges(b, first, turns[..n], clock, script, maxTicks, r);
    }
  }

  // What a run counts as reported: the events of all reports, tick by tick.
  lemma {:induction false} EventsExactly(reports: seq<Report>)
    ensures EventsOf(reports) == multiset(seq(|reports|, i requires 0 <= i < |reports| => reports[i].event))
  {
    var all := seq(|reports|, i requires 0 <= i < |reports| => reports[i].event);
    if reports != [] {
      var n := |reports| - 1;
      EventsExactly(reports[..n]);
      assert all == seq(n, i requires 0 <= i < n => reports[..n][i].event) + [reports[n].event];
    }
  }

  lemma {:induction false} ReportedSplits(script: Script, first: nat, n: nat, m: nat)
    ensures ReportedIn(script, first, n + m) == ReportedIn(script, first, n) + ReportedIn(script, first + n, m)
    decreases m
  {
    hide EventsOf;
    if m > 0 {
      ReportedSplits(script, first, n, m - 1);
      var x, y := ReportedIn(script, first, n), ReportedIn(script, first + n, m - 1);
      var z := EventsOf(script.reports(first + n + m - 1));
      assert n + m - 1 == n + (m - 1);
      assert ReportedIn(script, first, n + m) == x + y + z;
      assert ReportedIn(script, first + n, m) == y + z;
      assert x + y + z == x + (y + z);
    }
  }

  lemma ReportedOnce(script: Script, first: nat)
    ensures ReportedIn(script, first, 0) == multiset{}
    ensures ReportedIn(script, first, 1) == EventsOf(script.reports(first))
  {
    assert ReportedIn(script, first, 1) == ReportedIn(script, first, 0) + EventsOf(script.reports(first));
  }

  // Every reported event is recovered, replaced or still pending.
  ghost predicate Balanced(
    reported: multiset<BackPressureEvent>, recovered: seq<(BackPressureEvent, real)>,
    superseded: multiset<BackPressureEvent>, pending: Option<PendingBackPressure>)
  {
    forall e :: reported[e] ==
      Count(recovered, e) + superseded[e] + if pending.Some? && pending.value.event == e then 1 else 0
  }

  lemma ReportBalanced(
    reported: multiset<BackPressureEvent>, recovered: seq<(BackPressureEvent, real)>,
    superseded: multiset<BackPressureEvent>, pending: Option<PendingBackPressure>, p: PendingBackPressure)
    requires Balanced(reported, recovered, superseded, pending)
    ensures Balanced(reported + multiset{p.event}, recovered,
                     superseded + (if pending.Some? then multiset{pending.value.event} else multiset{}), Some(p))
  {
    hide Count;
  }

  lemma RecoveryBalanced(
    reported: multiset<BackPressureEvent>, recovered: seq<(BackPressureEvent, real)>,
    superseded: multiset<BackPressureEvent>, p: PendingBackPressure, ms: real)
    requires Balanced(reported, recovered, superseded, Some(p))
    ensures Balanced(reported, recovered + [(p.event, ms)], superseded, None)
    ensures Balanced(reported, recovered, superseded, Some(p.(ticksElapsed := p.ticksElapsed + 1)))
  {
    CountSnoc(recovered, (p.event, ms));
    hide Count;
  }

  class OrchestrationLoop {
    const maxBackpressureTicks: nat
    var tickIndex: nat
    var tickSkewMs: seq<real>
    var backpressureEvents: multiset<BackPressureEvent>
    var recoveries: seq<(BackPressureEvent, real)>
    var backpressureUnresolved: bool
    var pending: Option<PendingBackPressure>
    // Reports that a later report replaced before they were cleared.
    ghost var superseded: multiset<BackPressureEvent>

    ghost predicate Valid()
      reads this
    {
      Balanced(backpressureEvents, recoveries, superseded, pending)
    }

    constructor (maxTicks: nat)
      ensures Valid() && tickIndex == 0 && backpressureEvents == multiset{} && pending.None?
    {
      maxBackpressureTicks := maxTicks;
      tickIndex, tickSkewMs := 0, [];
      backpressureEvents, recoveries, backpressureUnresolved := multiset{}, [], false;
      pending, superseded := None, multiset{};
    }

    method ReportBackPressureEvent(event: BackPressureEvent, now: int)
      requires Valid()
      modifies this`backpressureEvents, this`pending, this`superseded
      ensures Valid()
      ensures backpressureEvents == old(backpressureEvents) + multiset{event}
      ensures pending == Some(PendingBackPressure(event, tickIndex, now, 0))
      ensures superseded ==
        old(superseded) + if old(pending).Some? then multiset{old(pending).value.event} else multiset{}
    {
      hide Balanced;
      var p := PendingBackPressure(event, tickIndex, now, 0);
      ReportBalanced(backpressureEvents, recoveries, superseded, pending, p);
      backpressureEvents := backpressureEvents + multiset{event};
      superseded := superseded + if pending.Some? then multiset{pending.value.event} else multiset{};
      pending := Some(p);
    }

    function View(): Pressure
      reads this
    {
      Pressure(pending, recoveries, backpressureUnresolved)
    }

    method HandleBackPressure(result: TickResult, now: int)
      requires Valid()
      modifies this`recoveries, this`pending, this`backpressureUnresolved
      ensures Valid()
      ensures View() == Handled(old(View()), result, now, maxBackpressureTicks)
    {
      hide Balanced;
      if pending.None? {
        return;
      }
      var ms := (now - pending.value.startTimeUtcUs) as real / 1000.0;
      RecoveryBalanced(backpressureEvents, recoveries, superseded, pending.value, ms);
      var p := pending.value.(ticksElapsed := pending.value.ticksElapsed + 1);
      pending := Some(p);
      if result.backpressureCleared {
        recoveries := recoveries + [(p.event, ms)];
        pending := None;
        return;
      }
      if p.ticksElapsed > maxBackpressureTicks {
        backpressureUnresolved := true;
      }
    }

    // What other threads report while the loop waits.
    method ReceiveReports(reports: seq<Report>)
      requires Valid()
      modifies this`backpressureEvents, this`pending, this`superseded
      ensures Valid()
      ensures backpressureEvents == old(backpressureEvents) + EventsOf(reports)
      ensures pending == LastReport(old(pending), reports, tickIndex)
    {
      hide Balanced, EventsOf;
      EventsStart(reports);
      for i := 0 to |reports|
        invariant Valid()
        invariant backpressureEvents == old(backpressureEvents) + EventsOf(reports[..i])
        invariant pending == LastReport(old(pending), reports[..i], tickIndex)
      {
        EventsSnoc(reports, i);
        ReportBackPressureEvent(reports[i].event, reports[i].now);
      }
      assert reports[..|reports|] == reports;
    }

    // Polls the clock until the deadline has passed or the stop is seen, and
    // not a poll longer.
    method WaitForDeadline(clock: seq<int>, start: nat, stopAt: nat, deadline: int) returns (pos: nat, due: bool)
      requires 0 < start <= |clock|
      ensures start <= pos <= |clock|
      ensures due ==> start < pos && deadline <= clock[pos - 1]
      ensures forall k :: start <= k < pos - (if due then 1 else 0) ==> clock[k] < deadline
      ensures !due ==> pos >= stopAt || pos == |clock|
      ensures start <= stopAt ==> pos <= stopAt
      ensures start < stopAt && start < |clock| ==> start < pos
    {
      pos, due := start, false;
      while !due && pos < stopAt && pos < |clock|
        invariant start <= pos <= |clock|
        invariant due ==> start < pos && deadline <= clock[pos - 1]
        invariant forall k :: start <= k < pos - (if due then 1 else 0) ==> clock[k] < deadline
        invariant start <= stopAt ==> pos <= stopAt
        invariant !due && start < stopAt && start < |clock| && pos == start ==> pos < stopAt
        decreases |clock| - pos, !due
      {
        due := deadline - clock[pos] <= 0;
        pos := pos + 1;
      }
    }

    // Everything one tick does besides choosing the next deadline.
    method RunTick(t: Tick, result: TickResult, now: int)
      requires Valid()
      modifies this
      ensures Valid() && tickIndex == old(tickIndex) + 1 && backpressureEvents == old(backpressureEvents)
      ensures tickSkewMs == old(tickSkewMs) + [SkewMs(t)]
      ensures View() == Handled(old(View()).(unresolved := old(backpressureUnresolved) || !result.deadlineMet),
                                    result, now, maxBackpressureTicks)
    {
      hide Handled, Balanced;
      tickSkewMs := tickSkewMs + [(t.actual - t.deadline) as real / 1000.0];
      if !result.deadlineMet {
        backpressureUnresolved := true;
      }
      HandleBackPressure(result, now);
      tickIndex := tickIndex + 1;
    }

    // A tick and the reports before it. The clock is asked again only when a
    // pending event is cleared.
    method FinishTick(t: Tick, clock: seq<int>, start: nat, script: Script) returns (pos: nat)
      requires Valid() && 0 < start <= |clock|
      modifies this
      ensures Valid()
      ensures pos == start + if start < |clock| && Rereads(old(View()), old(tickIndex), script) then 1 else 0
      ensures tickIndex == old(tickIndex) + 1
      ensures tickSkewMs == old(tickSkewMs) + [SkewMs(t)]
      ensures backpressureEvents == old(backpressureEvents) + EventsOf(script.reports(old(tickIndex)))
      ensures View() == Ticked(old(View()), old(tickIndex), script.reports(old(tickIndex)),
                               script.results(old(tickIndex)),
                               if start < pos then clock[start] else t.actual, maxBackpressureTicks)
    {
      hide Handled, EventsOf, Balanced, LastReport;
      var result := script.results(tickIndex);
      ReceiveReports(script.reports(tickIndex));
      pos := start;
      var now := t.actual;
      if pending.Some? && result.backpressureCleared && pos < |clock| {
        now := clock[pos];
        pos := pos + 1;
      }
      RunTick(t, result, now);
    }

    // One turn of the loop, unless the script ends first.
    method RunTurn(clock: seq<int>, from: nat, stopAt: nat, deadline: int, script: Script)
      returns (ran: bool, t: Tick, next: nat, due: bool, ghost turn: Turn)
      requires Valid() && 0 < from < |clock| && from <= stopAt
      requires forall i, j :: 0 <= i <= j < |clock| ==> clock[i] <= clock[j]
      modifies this
      ensures Valid()
      ensures !ran ==> unchanged(this) && next == from && |clock| <= stopAt && NoneDue(clock, from, deadline)
      ensures ran ==>
        && t.deadline == deadline && (due ==> deadline <= t.actual)
        && turn == Turn(t, from, turn.at, next) && Prompt(turn, clock, stopAt)
        && (!due ==> turn.at == stopAt)
        && clock[from - 1] <= t.actual <= clock[next - 1]
        && (next == turn.at + 2 <==> turn.at + 1 < |clock| && Rereads(old(View()), old(tickIndex), script))
        && tickIndex == old(tickIndex) + 1
        && tickSkewMs == old(tickSkewMs) + [SkewMs(t)]
        && backpressureEvents == old(backpressureEvents) + EventsOf(script.reports(old(tickIndex)))
        && View() == Ticked(old(View()), old(tickIndex), script.reports(old(tickIndex)),
                            script.results(old(tickIndex)), RecoveryTime(turn, clock), maxBackpressureTicks)
    {
      hide Ticked, Rereads, EventsOf, Count, OrchestrationLoop.Valid;
      var waited;
      waited, due := WaitForDeadline(clock, from, stopAt, deadline);
      t := Tick(deadline, 0);
      turn := Turn(t, from, waited, from);
      if waited >= |clock| {
        return false, t, from, due, turn;
      }
      t := Tick(deadline, clock[waited]);
      next := FinishTick(t, clock, waited + 1, script);
      turn := Turn(t, from, waited, next);
      IsPrompt(turn, clock, stopAt, due);
      ran := true;
    }

    // The loop over the clock's successive answers. The running flag reads true
    // while fewer than stopAt answers have been given; with `between` it is
    // cleared only after the outer loop has looked, before the inner one does.
    // Where the script ends, the run is cut off.
    method Run(targetFps: real, clock: seq<int>, stopAt: nat, between: bool, script: Script)
      returns (ticks: seq<Tick>, ghost turns: seq<Turn>)
      requires Valid()
      requires forall i, j :: 0 <= i <= j < |clock| ==> clock[i] <= clock[j]
      modifies this
      ensures Valid() && tickIndex == old(tickIndex) + |ticks|
      ensures clock != [] ==> Chain(ticks, clock[0] + IntervalUs(targetFps), IntervalUs(targetFps))
      // Only a tick running after the stop may be early, and it is the last.
      ensures Paced(ticks, if stopAt < |clock| then |ticks| - 1 else |ticks|)
      ensures ActualsOrdered(ticks)
      ensures tickSkewMs == old(tickSkewMs) + Skews(ticks)
      // No tick is late by more than one answer of the clock, and none due is
      // left out while the loop runs.
      ensures TicksOf(turns) == ticks && Schedule(turns, clock, stopAt)
      ensures stopAt < |clock| ==> if between then stopAt < NextFrom(turns) else stopAt <= NextFrom(turns)
      ensures !between ==> AllPolled(turns, stopAt)
      ensures clock != [] && NextFrom(turns) < stopAt ==>
        NoneDue(clock, NextFrom(turns), DeadlineAfter(ticks, clock[0] + IntervalUs(targetFps), IntervalUs(targetFps)))
      ensures View() == AfterTurns(old(View()), old(tickIndex), turns, clock, script, maxBackpressureTicks)
      ensures RereadsRecorded(old(View()), old(tickIndex), turns, clock, script, maxBackpressureTicks)
      ensures backpressureEvents == old(backpressureEvents) + ReportedIn(script, old(tickIndex), |ticks|)
    {
      hide Chain, ActualsOrdered, Skews, Count, EventsOf, Schedule, AfterTurns, RereadsRecorded, Ticked, Rereads,
           TicksOf, ReportedIn, AllPolled, RecoveryTime, OrchestrationLoop.Valid;
      ticks, turns := [], [];
      CourseStart(if clock == [] then 0 else clock[0] + IntervalUs(targetFps), IntervalUs(targetFps));
      TurnsStart(View(), tickIndex, clock, stopAt, script, maxBackpressureTicks);
      if |clock| == 0 {
        return;
      }
      var interval := IntervalUs(targetFps);
      var nextDeadline := clock[0] + interval;
      var pos := 1;
      ghost var early := false;
      while (pos < stopAt || (pos == stopAt && between)) && pos < |clock|
        invariant pos == NextFrom(turns) <= |clock| && 0 < pos
        invariant Valid() && tickIndex == old(tickIndex) + |ticks| && |turns| == |ticks|
        invariant nextDeadline == DeadlineAfter(ticks, clock[0] + interval, interval)
        invariant early ==> stopAt < pos && stopAt < |clock|
        invariant !between ==> AllPolled(turns, stopAt)
        invariant Course(ticks, clock[0] + interval, interval, early)
        invariant ticks != [] ==> ticks[|ticks| - 1].actual <= clock[pos - 1]
        invariant tickSkewMs == old(tickSkewMs) + Skews(ticks)
        invariant TicksOf(turns) == ticks && Schedule(turns, clock, stopAt)
        invariant View() == AfterTurns(old(View()), old(tickIndex), turns, clock, script, maxBackpressureTicks)
        invariant RereadsRecorded(old(View()), old(tickIndex), turns, clock, script, maxBackpressureTicks)
        invariant backpressureEvents == old(backpressureEvents) + ReportedIn(script, old(tickIndex), |ticks|)
        decreases |clock| - pos
      {
        var ran, t, due;
        ghost var turn;
        ghost var from := pos;
        ran, t, pos, due, turn := RunTurn(clock, pos, stopAt, nextDeadline, script);
        if !ran {
          break;
        }
        assert ticks != [] ==> ticks[|ticks| - 1].actual <= clock[from - 1] <= t.actual;
        if !between {
          PolledSnoc(turns, turn, stopAt);
        }
        ReportedStep(script, old(tickIndex), |ticks|);
        ScheduleSnoc(turns, turn, clock, stopAt);
        TurnsSnoc(old(View()), old(tickIndex), turns, turn, clock, script, maxBackpressureTicks);
        TicksSnoc(turns, turn);
        CourseSnoc(ticks, t, clock[0] + interval, interval, due);
        early := !due;
        turns, ticks := turns + [turn], ticks + [t];
        nextDeadline := nextDeadline + interval;
        if t.actual - nextDeadline > interval {
          nextDeadline := t.actual + interval;
        }
      }
    }
  }

  function DeadlineAfter(ticks: seq<Tick>, first: int, interval: int): int {
    if ticks == [] then first else NextDeadline(ticks[|ticks| - 1], interval)
  }

  function TicksOf(turns: seq<Turn>): seq<Tick> {
    seq(|turns|, i requires 0 <= i < |turns| => turns[i].tick)
  }

  lemma ReportedStep(script: Script, first: nat, n: nat)
    ensures ReportedIn(script, first, n + 1) == ReportedIn(script, first, n) + EventsOf(script.reports(first + n))
  {
  }

  lemma TicksSnoc(turns: seq<Turn>, t: Turn)
    ensures TicksOf(turns + [t]) == TicksOf(turns) + [t.tick]
  {
  }

  lemma TurnsStart(b: Pressure, first: nat, clock: seq<int>, stopAt: nat, script: Script, maxTicks: nat)
    ensures TicksOf([]) == [] && Schedule([], clock, stopAt) && AllPolled([], stopAt)
    ensures ReportedIn(script, first, 0) == multiset{}
    ensures AfterTurns(b, first, [], clock, script, maxTicks) == b
    ensures RereadsRecorded(b, first, [], clock, script, maxTicks)
  {
  }

  // The latest report is the pending one.
  function LastReport(
    pending: Option<PendingBackPressure>, reports: seq<Report>, tick: nat): Option<PendingBackPressure>
  {
    if reports == [] then pending
    else Some(PendingBackPressure(reports[|reports| - 1].event, tick, reports[|reports| - 1].now, 0))
  }

  lemma EventsSnoc(reports: seq<Report>, i: nat)
    requires i < |reports|
    ensures EventsOf(reports[..i + 1]) == EventsOf(reports[..i]) + multiset{reports[i].event}
  {
    assert reports[..i + 1][..i] == reports[..i];
  }

  lemma EventsStart(reports: seq<Report>)
    ensures EventsOf(reports[..0]) == multiset{}
  {
  }

  function EventsOf(reports: seq<Report>): multiset<BackPressureEvent> {
    if reports == [] then multiset{} else EventsOf(reports[..|reports| - 1]) + multiset{reports[|reports| - 1].event}
  }

  function SkewMs(t: Tick): real {
    (t.actual - t.deadline) as real / 1000.0
  }

  function Skews(ticks: seq<Tick>): seq<real> {
    seq(|ticks|, i requires 0 <= i < |ticks| => SkewMs(ticks[i]))
  }

  // Skews are the ticks' distances from their deadlines, in ms.
  lemma SkewsExactly(ticks: seq<Tick>)
    ensures |Skews(ticks)| == |ticks|
    ensures forall k :: 0 <= k < |ticks| ==> Skews(ticks)[k] * 1000.0 == (ticks[k].actual - ticks[k].deadline) as real
  {
  }

  ghost predicate ActualsOrdered(ticks: seq<Tick>) {
    forall k :: 0 < k < |ticks| ==> ticks[k - 1].actual <= ticks[k].actual
  }

  // The ticks of one run; only the last may have come early.
  ghost predicate Course(ticks: seq<Tick>, first: int, interval: int, early: bool) {
    Chain(ticks, first, interval) && Paced(ticks, if early then |ticks| - 1 else |ticks|) && ActualsOrdered(ticks)
  }

  lemma CourseStart(first: int, interval: int)
    ensures Course([], first, interval, false) && Skews([]) == []
  {
  }

  lemma CourseSnoc(ticks: seq<Tick>, t: Tick, first: int, interval: int, due: bool)
    requires Course(ticks, first, interval, false)
    requires t.deadline == if ticks == [] then first else NextDeadline(ticks[|ticks| - 1], interval)
    requires ticks != [] ==> ticks[|ticks| - 1].actual <= t.actual
    requires due ==> t.deadline <= t.actual
    ensures Course(ticks + [t], first, interval, !due)
    ensures Skews(ticks + [t]) == Skews(ticks) + [SkewMs(t)]
  {
  }

  function Count(rs: seq<(BackPressureEvent, real)>, e: BackPressureEvent): nat {
    if rs == [] then 0 else Count(rs[..|rs| - 1], e) + if rs[|rs| - 1].0 == e then 1 else 0
  }

  lemma CountSnoc(rs: seq<(BackPressureEvent, real)>, r: (BackPressureEvent, real))
    ensures forall e :: Count(rs + [r], e) == Count(rs, e) + if r.0 == e then 1 else 0
  {
    assert (rs + [r])[..|rs|] == rs;
  }

  // A stop seen while waiting: the last tick comes before its deadline.
  method StoppedWhileWaiting(l: OrchestrationLoop, script: Script) returns (ticks: seq<Tick>)
    requires l.Valid()
    modifies l
    ensures ticks == [Tick(40000, 2)]
  {
    hide Rereads, AfterTurns, Ticked, RereadsRecorded, ActualsOrdered, Paced, Skews, OrchestrationLoop.Valid;
    ghost var turns;
    ticks, turns := l.Run(25.0, [0, 1, 2, 3], 2, false, script);
    assert turns != [] && turns[..0] == [];
    assert Prompt(turns[0], [0, 1, 2, 3], 2);
  }
}
