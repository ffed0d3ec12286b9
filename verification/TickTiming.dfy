// The deadlines of the orchestration loop: what one tick does to the next
// deadline, and what follows for runs of any length.
module TickTiming {

  // Nearest microsecond to 1 / max(fps, 1) seconds, halves rounded up.
  function IntervalUs(targetFps: real): (interval: int)
    ensures 0 <= interval <= 1000000
    ensures targetFps >= 1.0 ==> interval as real - 0.5 <= 1.0 / targetFps * 1000000.0 < interval as real + 0.5
    ensures targetFps < 1.0 ==> interval == 1000000
  {
    var fps := if targetFps < 1.0 then 1.0 else targetFps;
    assert 0.0 < 1.0 / fps <= 1.0;
    (1.0 / fps * 1000000.0 + 0.5).Floor
  }

  datatype Tick = Tick(deadline: int, actual: int)

  // More than two intervals late, the schedule restarts from the late tick.
  function NextDeadline(t: Tick, interval: int): int {
    var next := t.deadline + interval;
    if t.actual - next > interval then t.actual + interval else next
  }

  // Consecutive ticks of one run whose first deadline is `first`.
  ghost predicate Chain(ticks: seq<Tick>, first: int, interval: int) {
    && (ticks != [] ==> ticks[0].deadline == first)
    && forall k :: 0 < k < |ticks| ==> ticks[k].deadline == NextDeadline(ticks[k - 1], interval)
  }

  // The first n ticks waited for their deadlines.
  ghost predicate Paced(ticks: seq<Tick>, n: int) {
    forall k :: 0 <= k < n && k < |ticks| ==> ticks[k].deadline <= ticks[k].actual
  }

  lemma {:induction false} DeadlinesGrow(ticks: seq<Tick>, first: int, interval: nat, i: int, j: int)
    requires Chain(ticks, first, interval) && 0 <= i <= j < |ticks|
    ensures ticks[j].deadline >= ticks[i].deadline + (j - i) * interval
    decreases j
  {
    if i < j {
      DeadlinesGrow(ticks, first, interval, i, j - 1);
      assert ticks[j].deadline == NextDeadline(ticks[j - 1], interval);
      assert (j - i) * interval == (j - 1 - i) * interval + interval;
    }
  }

  // Where the schedule goes on: one interval after the deadline, or, from a tick
  // more than two intervals late, one interval after the tick itself. Either
  // way a tick that waited for its deadline has its successor within one.
  lemma NextTick(ticks: seq<Tick>, first: int, interval: nat, k: int)
    requires Chain(ticks, first, interval) && 0 <= k && k + 1 < |ticks|
    ensures ticks[k].actual - ticks[k].deadline > 2 * interval ==>
      ticks[k + 1].deadline == ticks[k].actual + interval
    ensures ticks[k].actual - ticks[k].deadline <= 2 * interval ==>
      ticks[k + 1].deadline == ticks[k].deadline + interval
    ensures ticks[k].deadline <= ticks[k].actual ==> ticks[k + 1].deadline <= ticks[k].actual + interval
  {
    assert ticks[k + 1].deadline == NextDeadline(ticks[k], interval);
  }

  // However late tick k was, the m-th tick after it comes no sooner than m - 2
  // intervals later: at most two ticks make up for lost time.
  lemma BurstBound(ticks: seq<Tick>, first: int, interval: nat, k: int, m: int)
    requires Chain(ticks, first, interval) && 0 <= k && 0 < m && k + m < |ticks|
    requires Paced(ticks, k + m + 1)
    ensures ticks[k + m].actual >= ticks[k].actual + (m - 2) * interval
  {
    DeadlinesGrow(ticks, first, interval, k + 1, k + m);
    assert ticks[k + 1].deadline == NextDeadline(ticks[k], interval);
    assert (m - 1) * interval - interval == (m - 2) * interval;
  }

  // A burst of two is possible: the bound is attained.
  lemma BurstOfTwo(interval: nat)
    requires interval > 0
    ensures var ticks := [Tick(0, 2 * interval), Tick(interval, 2 * interval), Tick(2 * interval, 2 * interval)];
            Chain(ticks, 0, interval) && Paced(ticks, 3)
  {
  }

  // The deadlines lie on the grid first + k * interval exactly as long as no
  // tick has been more than two intervals late.
  lemma {:induction false} GridUntilOverrun(ticks: seq<Tick>, first: int, interval: nat, n: int)
    requires Chain(ticks, first, interval) && 0 <= n < |ticks|
    ensures (forall k :: 0 <= k <= n ==> ticks[k].deadline == first + k * interval)
            <==> (forall k :: 0 <= k < n ==> ticks[k].actual - ticks[k].deadline <= 2 * interval)
  {
    if n > 0 {
      GridUntilOverrun(ticks, first, interval, n - 1);
      assert ticks[n].deadline == NextDeadline(ticks[n - 1], interval);
      GridStep(first, n, interval);
      var onGrid := forall k :: 0 <= k <= n - 1 ==> ticks[k].deadline == first + k * interval;
      if onGrid {
        assert ticks[n - 1].deadline == first + (n - 1) * interval;
      }
    } else {
      assert first + 0 * interval == first;
    }
  }

  lemma GridStep(first: int, n: int, interval: int)
    ensures first + n * interval == first + (n - 1) * interval + interval
  {
  }

  // ---- promptness, against the clock's successive answers ----

  // A tick, and which answers of the clock it used: those from `from` on were
  // polled, `at` is its actual time, `next` is the first one left for the rest.
  datatype Turn = Turn(tick: Tick, from: nat, at: nat, next: nat)

  // The tick ran on the answer after the first one at or past its deadline, or
  // after the last poll before the stop (the loop sees the stop once stopAt
  // answers have been given). A stop between the loop's two looks at the flag
  // leaves a tick without any poll: from == at == stopAt.
  ghost predicate Prompt(t: Turn, clock: seq<int>, stopAt: nat) {
    && 0 < t.from <= t.at < t.next <= |clock| && t.next <= t.at + 2
    && ((t.from < stopAt && t.from < t.at) || t.from == t.at == stopAt)
    && t.tick.actual == clock[t.at]
    && (forall k :: t.from <= k < t.at - 1 ==> clock[k] < t.tick.deadline)
    && (t.tick.deadline <= clock[t.at - 1] || t.at == stopAt)
  }

  lemma IsPrompt(t: Turn, clock: seq<int>, stopAt: nat, due: bool)
    requires 0 < t.from <= t.at < t.next <= |clock| && t.next <= t.at + 2 && t.tick.actual == clock[t.at]
    requires (t.from < stopAt && t.from < t.at) || t.from == t.at == stopAt
    requires forall k :: t.from <= k < t.at - (if due then 1 else 0) ==> clock[k] < t.tick.deadline
    requires if due then t.tick.deadline <= clock[t.at - 1] else t.at == stopAt
    ensures Prompt(t, clock, stopAt)
  {
  }

  function NextFrom(turns: seq<Turn>): nat {
    if turns == [] then 1 else turns[|turns| - 1].next
  }

  // Every tick is prompt, and no answer is skipped between them.
  ghost predicate Schedule(turns: seq<Turn>, clock: seq<int>, stopAt: nat) {
    forall k :: 0 <= k < |turns| ==> Prompt(turns[k], clock, stopAt) && turns[k].from == NextFrom(turns[..k])
  }

  // No tick is due on the answers that are left (the last one could only end a
  // poll).
  ghost predicate NoneDue(clock: seq<int>, from: nat, deadline: int) {
    forall k :: from <= k < |clock| - 1 ==> clock[k] < deadline
  }

  lemma ScheduleSnoc(turns: seq<Turn>, t: Turn, clock: seq<int>, stopAt: nat)
    requires Schedule(turns, clock, stopAt) && Prompt(t, clock, stopAt) && t.from == NextFrom(turns)
    ensures Schedule(turns + [t], clock, stopAt) && NextFrom(turns + [t]) == t.next
  {
    hide Prompt;
    var all := turns + [t];
    forall k | 0 <= k < |all|
      ensures Prompt(all[k], clock, stopAt) && all[k].from == NextFrom(all[..k])
    {
      assert all[..k] == turns[..k];
      if k == |turns| {
        assert turns[..k] == turns;
      }
    }
  }

  // No tick ran without a poll.
  ghost predicate AllPolled(turns: seq<Turn>, stopAt: nat) {
    forall k :: 0 <= k < |turns| ==> turns[k].from < stopAt
  }

  lemma PolledSnoc(turns: seq<Turn>, t: Turn, stopAt: nat)
    requires AllPolled(turns, stopAt)
    ensures AllPolled(turns + [t], stopAt) <==> t.from < stopAt
  {
    assert (turns + [t])[|turns|] == t;
  }
}
