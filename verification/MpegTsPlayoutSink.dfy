// The sink's worker loop: when a frame is sent, dropped or waited for, and the
// counters that record it. A frame is represented by its PTS in microseconds.
module MpegTsPlayoutSink {
  import opened Wrappers
  import opened PtsController
  import FrameRingBuffer

  const MAX_LATE_TOLERANCE_US: int := 50000
  const SOFT_WAIT_THRESHOLD_US: int := 5000
  const SAME_TIMEBASE_THRESHOLD_US: int := 1000000

  // One pass of the loop: frames the producer added since the last pass, the
  // clock sample, and whether the output queue is at its high-water mark.
  datatype Pass = Pass(arrivals: seq<int>, now: int, queueFull: bool)

  // What became of a popped frame, with the start time in force at that moment.
  datatype Fate = Fate(pts: int, now: int, start: Option<int>, sent: bool)

  function PtsList(fs: seq<Fate>): seq<int> {
    seq(|fs|, i requires 0 <= i < |fs| => fs[i].pts)
  }

  function SentCount(fs: seq<Fate>): nat {
    if fs == [] then 0 else SentCount(fs[..|fs| - 1]) + if fs[|fs| - 1].sent then 1 else 0
  }

  predicate IsLate(f: Fate) {
    !f.sent || (f.start.Some? && f.now - (f.start.value + f.pts) > 0)
  }

  function LateCount(fs: seq<Fate>): nat {
    if fs == [] then 0 else LateCount(fs[..|fs| - 1]) + if IsLate(fs[|fs| - 1]) then 1 else 0
  }

  lemma CountsSnoc(fs: seq<Fate>, f: Fate)
    ensures PtsList(fs + [f]) == PtsList(fs) + [f.pts]
    ensures SentCount(fs + [f]) == SentCount(fs) + if f.sent then 1 else 0
    ensures LateCount(fs + [f]) == LateCount(fs) + if IsLate(f) then 1 else 0
  {
    assert (fs + [f])[..|fs|] == fs;
  }

  // A sent frame was sampled within 5 ms before and 50 ms after its target
  // time; a dropped one past the tolerance (before the start time is known:
  // past it, but less than a second, against the clock itself).
  ghost predicate Justified(f: Fate) {
    match f.start
    case None => !f.sent && MAX_LATE_TOLERANCE_US < f.now - f.pts < SAME_TIMEBASE_THRESHOLD_US
    case Some(s) =>
      if f.sent then -SOFT_WAIT_THRESHOLD_US <= f.now - (s + f.pts) <= MAX_LATE_TOLERANCE_US
      else f.now - (s + f.pts) > MAX_LATE_TOLERANCE_US
  }

  // What a pass did: nothing under a full output queue, nothing on an empty
  // buffer, wait for the head of the buffer to come due, or settle it.
  datatype Outcome = Held | Underrun | Early(pts: int) | Settled(fate: Fate)

  function FatesOf(outcomes: seq<Outcome>): seq<Fate> {
    if outcomes == [] then []
    else
      var o := outcomes[|outcomes| - 1];
      FatesOf(outcomes[..|outcomes| - 1]) + if o.Settled? then [o.fate] else []
  }

  function Underruns(outcomes: seq<Outcome>): nat {
    if outcomes == [] then 0
    else Underruns(outcomes[..|outcomes| - 1]) + if outcomes[|outcomes| - 1].Underrun? then 1 else 0
  }

  // Frames waiting once n frames have arrived at a buffer for `room` frames.
  function Filled(waiting: nat, n: nat, room: nat): nat {
    if waiting >= room || waiting + n > room then room else waiting + n
  }

  // The arrivals that find room.
  function Admitted(arrivals: seq<int>, waiting: nat, room: nat): seq<int> {
    if waiting >= room then [] else if waiting + |arrivals| > room then arrivals[..room - waiting] else arrivals
  }

  lemma AdmittedSnoc(arrivals: seq<int>, i: nat, waiting: nat, room: nat)
    requires i < |arrivals|
    ensures Admitted(arrivals[..i + 1], waiting, room) ==
            Admitted(arrivals[..i], waiting, room) + if waiting + i < room then [arrivals[i]] else []
    ensures Filled(waiting, i + 1, room) == Filled(waiting, i, room) + if waiting + i < room then 1 else 0
    ensures Filled(waiting, i, room) < room <==> waiting + i < room
  {
  }

  lemma AdmittedNone(arrivals: seq<int>, waiting: nat, room: nat)
    ensures Admitted(arrivals[..0], waiting, room) == []
    ensures waiting <= room ==> Filled(waiting, 0, room) == waiting
  {
  }

  // The start time a settled frame is judged by and leaves behind, given the
  // one before it. Before there is one, a frame between 50 ms and a second
  // behind the clock itself is dropped, and any other becomes the anchor.
  function Anchor(before: Option<int>, pts: int, now: int): Option<int> {
    if before.Some? then before
    else if MAX_LATE_TOLERANCE_US < now - pts < SAME_TIMEBASE_THRESHOLD_US then None
    else Some(now - pts)
  }

  // The start time in force once these frames have been settled.
  function InForce(start: Option<int>, fs: seq<Fate>): Option<int> {
    if fs == [] then start else fs[|fs| - 1].start
  }

  // Frames waiting after the passes.
  function Backlog(waiting: nat, room: nat, passes: seq<Pass>, outcomes: seq<Outcome>): nat
    requires |passes| == |outcomes|
  {
    if passes == [] then
      waiting
    else
      var n := |passes| - 1;
      var before := Filled(Backlog(waiting, room, passes[..n], outcomes[..n]), |passes[n].arrivals|, room);
      if outcomes[n].Settled? && before > 0 then before - 1 else before
  }

  // The outcome is the one the pass calls for: `waiting` frames are there, the
  // first with PTS `head`, and `before` is the start time in force.
  ghost predicate CalledFor(o: Outcome, pass: Pass, waiting: nat, head: Option<int>, before: Option<int>) {
    match o
    case Held => pass.queueFull
    case Underrun => !pass.queueFull && waiting == 0
    case Early(pts) =>
      && !pass.queueFull && waiting > 0 && head == Some(pts)
      && before.Some? && pass.now - (before.value + pts) < -SOFT_WAIT_THRESHOLD_US
    case Settled(f) =>
      && !pass.queueFull && waiting > 0 && head == Some(f.pts) && f.now == pass.now
      && f.start == Anchor(before, f.pts, pass.now) && Justified(f)
  }

  // A pass calls for one outcome and no other.
  lemma OneOutcome(o: Outcome, o': Outcome, pass: Pass, waiting: nat, head: Option<int>, before: Option<int>)
    requires CalledFor(o, pass, waiting, head, before) && CalledFor(o', pass, waiting, head, before)
    ensures o == o'
  {
  }

  // Which one, in numbers. Once there is a start time: a head more than 5 ms
  // early waits, one up to 50 ms late is sent, a later one is dropped. Before: a
  // head between 50 ms and a second behind the clock is dropped, and any other
  // is sent as if due now.
  lemma OutcomeExactly(o: Outcome, pass: Pass, waiting: nat, pts: int, before: Option<int>)
    requires CalledFor(o, pass, waiting, Some(pts), before)
    ensures o.Held? <==> pass.queueFull
    ensures o.Underrun? <==> !pass.queueFull && waiting == 0
    ensures o.Settled? ==> o.fate.pts == pts && o.fate.now == pass.now
    ensures before.Some? && !pass.queueFull && waiting > 0 ==>
      var gap := pass.now - (before.value + pts);
      && (o == Early(pts) <==> gap < -5000)
      && (o.Settled? && o.fate.sent <==> -5000 <= gap <= 50000)
      && (o.Settled? && !o.fate.sent <==> gap > 50000)
      && (o.Settled? ==> o.fate.start == before)
    ensures before.None? && !pass.queueFull && waiting > 0 ==>
      && o.Settled?
      && (!o.fate.sent <==> 50000 < pass.now - pts < 1000000)
      && (o.fate.sent ==> o.fate.start.Some? && o.fate.start.value + pts == pass.now)
      && (!o.fate.sent ==> o.fate.start.None?)
  {
  }

  // A frame counts as late exactly when it was dropped or its target time had
  // passed, and each counter counts its frames once.
  lemma LateExactly(f: Fate)
    ensures IsLate(f) <==> !f.sent || exists s :: f.start == Some(s) && s + f.pts < f.now
  {
  }

  ghost function SentAt(fs: seq<Fate>): set<int> {
    set i | 0 <= i < |fs| && fs[i].sent
  }

  ghost function LateAt(fs: seq<Fate>): set<int> {
    set i | 0 <= i < |fs| && IsLate(fs[i])
  }

  lemma {:induction false} CountsExactly(fs: seq<Fate>)
    ensures SentCount(fs) == |SentAt(fs)| && LateCount(fs) == |LateAt(fs)|
  {
    hide IsLate, SentAt, LateAt;
    if fs == [] {
      AtNothing();
    } else {
      var n := |fs| - 1;
      CountsExactly(fs[..n]);
      assert fs == fs[..n] + [fs[n]];
      SentAtSnoc(fs[..n], fs[n]);
      LateAtSnoc(fs[..n], fs[n]);
    }
  }

  lemma AtNothing()
    ensures SentAt([]) == {} && LateAt([]) == {}
  {
  }

  lemma SentAtSnoc(fs: seq<Fate>, f: Fate)
    ensures |SentAt(fs + [f])| == |SentAt(fs)| + if f.sent then 1 else 0
  {
    assert forall i :: 0 <= i < |fs| ==> (fs + [f])[i] == fs[i];
    assert (fs + [f])[|fs|] == f;
    if f.sent {
      assert SentAt(fs + [f]) == SentAt(fs) + {|fs|};
    } else {
      assert SentAt(fs + [f]) == SentAt(fs);
    }
  }

  lemma LateAtSnoc(fs: seq<Fate>, f: Fate)
    ensures |LateAt(fs + [f])| == |LateAt(fs)| + if IsLate(f) then 1 else 0
  {
    hide IsLate;
    assert forall i :: 0 <= i < |fs| ==> (fs + [f])[i] == fs[i];
    assert (fs + [f])[|fs|] == f;
    if IsLate(f) {
      assert LateAt(fs + [f]) == LateAt(fs) + {|fs|};
    } else {
      assert LateAt(fs + [f]) == LateAt(fs);
    }
  }

  function At(s: seq<int>, i: nat): Option<int> {
    if i < |s| then Some(s[i]) else None
  }

  // A run that began with `waiting` frames in a buffer for `room`, `popped`
  // frames gone and the start time `start`.
  datatype Begin = Begin(waiting: nat, room: nat, popped: nat, start: Option<int>)

  // Pass i of the run had the outcome it called for; `pushed` are all frames
  // ever.
  ghost predicate CalledAt(b: Begin, passes: seq<Pass>, outcomes: seq<Outcome>, i: nat, pushed: seq<int>)
    requires i < |passes| == |outcomes|
  {
    CalledFor(outcomes[i], passes[i],
              Filled(Backlog(b.waiting, b.room, passes[..i], outcomes[..i]), |passes[i].arrivals|, b.room),
              At(pushed, b.popped + |FatesOf(outcomes[..i])|), InForce(b.start, FatesOf(outcomes[..i])))
  }

  ghost predicate AllCalledFor(b: Begin, passes: seq<Pass>, outcomes: seq<Outcome>, pushed: seq<int>) {
    |passes| == |outcomes| && forall i :: 0 <= i < |passes| ==> CalledAt(b, passes, outcomes, i, pushed)
  }

  // The frames the passes let into the buffer.
  function AllAdmitted(b: Begin, passes: seq<Pass>, outcomes: seq<Outcome>): seq<int>
    requires |passes| == |outcomes|
  {
    if passes == [] then
      []
    else
      var n := |passes| - 1;
      AllAdmitted(b, passes[..n], outcomes[..n])
      + Admitted(passes[n].arrivals, Backlog(b.waiting, b.room, passes[..n], outcomes[..n]), b.room)
  }

  // A run has one course: the frames and passes determine every outcome.
  lemma {:induction false} OneCourse(
    b: Begin, passes: seq<Pass>, outcomes: seq<Outcome>, others: seq<Outcome>, pushed: seq<int>)
    requires AllCalledFor(b, passes, outcomes, pushed) && AllCalledFor(b, passes, others, pushed)
    ensures outcomes == others
    decreases |passes|
  {
    hide CalledFor, CalledAt;
    if passes != [] {
      var n := |passes| - 1;
      CalledBefore(b, passes, outcomes, n, pushed);
      CalledBefore(b, passes, others, n, pushed);
      OneCourse(b, passes[..n], outcomes[..n], others[..n], pushed);
      LastOutcome(b, passes, outcomes, others, n, pushed);
      assert outcomes == outcomes[..n] + [outcomes[n]] && others == others[..n] + [others[n]];
    }
  }

  lemma LastOutcome(b: Begin, passes: seq<Pass>, outcomes: seq<Outcome>, others: seq<Outcome>, n: nat, pushed: seq<int>)
    requires n < |passes| == |outcomes| == |others| && outcomes[..n] == others[..n]
    requires CalledAt(b, passes, outcomes, n, pushed) && CalledAt(b, passes, others, n, pushed)
    ensures outcomes[n] == others[n]
  {
    hide CalledFor, Filled, Backlog, FatesOf, At, InForce;
    OneOutcome(outcomes[n], others[n], passes[n],
               Filled(Backlog(b.waiting, b.room, passes[..n], outcomes[..n]), |passes[n].arrivals|, b.room),
               At(pushed, b.popped + |FatesOf(outcomes[..n])|), InForce(b.start, FatesOf(outcomes[..n])));
  }

  lemma CalledBefore(b: Begin, passes: seq<Pass>, outcomes: seq<Outcome>, n: nat, pushed: seq<int>)
    requires AllCalledFor(b, passes, outcomes, pushed) && n <= |passes|
    ensures AllCalledFor(b, passes[..n], outcomes[..n], pushed)
  {
    hide CalledFor, Filled, Backlog, FatesOf, At, InForce;
    forall i | 0 <= i < n
      ensures CalledAt(b, passes[..n], outcomes[..n], i, pushed)
    {
      assert passes[..n][..i] == passes[..i] && outcomes[..n][..i] == outcomes[..i];
      assert CalledAt(b, passes, outcomes, i, pushed);
    }
  }

  lemma OutcomesStart(b: Begin, pushed: seq<int>)
    ensures AllCalledFor(b, [], [], pushed) && AllAdmitted(b, [], []) == []
    ensures FatesOf([]) == [] && Underruns([]) == 0 && Backlog(b.waiting, b.room, [], []) == b.waiting
  {
  }

  lemma OutcomesSnoc(b: Begin, passes: seq<Pass>, outcomes: seq<Outcome>, p: Pass, o: Outcome)
    requires |passes| == |outcomes|
    ensures FatesOf(outcomes + [o]) == FatesOf(outcomes) + if o.Settled? then [o.fate] else []
    ensures Underruns(outcomes + [o]) == Underruns(outcomes) + if o.Underrun? then 1 else 0
    ensures var before := Backlog(b.waiting, b.room, passes, outcomes);
            var filled := Filled(before, |p.arrivals|, b.room);
            && Backlog(b.waiting, b.room, passes + [p], outcomes + [o])
               == (if o.Settled? && filled > 0 then filled - 1 else filled)
            && AllAdmitted(b, passes + [p], outcomes + [o])
               == AllAdmitted(b, passes, outcomes) + Admitted(p.arrivals, before, b.room)
  {
    assert (outcomes + [o])[..|outcomes|] == outcomes && (passes + [p])[..|passes|] == passes;
  }

  // More frames change no earlier outcome.
  lemma CalledForSnoc(
    b: Begin, passes: seq<Pass>, outcomes: seq<Outcome>, p: Pass, o: Outcome, pushed: seq<int>, pushed': seq<int>)
    requires AllCalledFor(b, passes, outcomes, pushed) && pushed <= pushed'
    requires CalledFor(o, p, Filled(Backlog(b.waiting, b.room, passes, outcomes), |p.arrivals|, b.room),
                       At(pushed', b.popped + |FatesOf(outcomes)|), InForce(b.start, FatesOf(outcomes)))
    ensures AllCalledFor(b, passes + [p], outcomes + [o], pushed')
  {
    hide CalledAt;
    forall i | 0 <= i <= |passes|
      ensures CalledAt(b, passes + [p], outcomes + [o], i, pushed')
    {
      if i < |passes| {
        CalledLater(b, passes, outcomes, p, o, i, pushed, pushed');
      } else {
        CalledNow(b, passes, outcomes, p, o, pushed');
      }
    }
  }

  lemma CalledNow(b: Begin, passes: seq<Pass>, outcomes: seq<Outcome>, p: Pass, o: Outcome, pushed: seq<int>)
    requires |passes| == |outcomes|
    requires CalledFor(o, p, Filled(Backlog(b.waiting, b.room, passes, outcomes), |p.arrivals|, b.room),
                       At(pushed, b.popped + |FatesOf(outcomes)|), InForce(b.start, FatesOf(outcomes)))
    ensures CalledAt(b, passes + [p], outcomes + [o], |passes|, pushed)
  {
    hide CalledFor, Filled, Backlog, FatesOf, At, InForce;
    assert (passes + [p])[..|passes|] == passes && (outcomes + [o])[..|passes|] == outcomes;
  }

  lemma CalledLater(
    b: Begin, passes: seq<Pass>, outcomes: seq<Outcome>, p: Pass, o: Outcome, i: nat,
    pushed: seq<int>, pushed': seq<int>)
    requires i < |passes| == |outcomes| && CalledAt(b, passes, outcomes, i, pushed) && pushed <= pushed'
    ensures CalledAt(b, passes + [p], outcomes + [o], i, pushed')
  {
    hide Filled, Backlog, FatesOf, Justified, InForce, Anchor;
    assert (passes + [p])[..i] == passes[..i] && (outcomes + [o])[..i] == outcomes[..i];
  }

  class MpegTSPlayoutSink {
    const frameBuffer: FrameRingBuffer.FrameRingBuffer<int>
    var sinkStartTimeUtcUs: int
    var sinkStartTimeRecorded: bool
    var framesSent: nat
    var framesDropped: nat
    var lateFrames: nat
    var lateFrameDrops: nat
    var bufferUnderruns: nat
    ghost var fates: seq<Fate>

    function StartTime(): Option<int>
      reads this
    {
      if sinkStartTimeRecorded then Some(sinkStartTimeUtcUs) else None
    }

    ghost predicate Valid()
      reads this, frameBuffer, frameBuffer.buffer
    {
      && frameBuffer.Valid()
      && frameBuffer.popped == PtsList(fates)
      && framesSent == SentCount(fates)
      && framesDropped == lateFrameDrops && framesSent + framesDropped == |fates|
      && lateFrames == LateCount(fates)
      && forall i :: 0 <= i < |fates| ==>
           Justified(fates[i]) && (fates[i].start.None? || fates[i].start == StartTime())
    }

    constructor (buffer: FrameRingBuffer.FrameRingBuffer<int>)
      requires buffer.Valid() && buffer.popped == []
      ensures Valid() && frameBuffer == buffer && !sinkStartTimeRecorded && fates == []
    {
      frameBuffer := buffer;
      sinkStartTimeUtcUs, sinkStartTimeRecorded := 0, false;
      framesSent, framesDropped, lateFrames, lateFrameDrops, bufferUnderruns := 0, 0, 0, 0, 0;
      fates := [];
    }

    // Where a run that starts here begins.
    ghost function Now(): Begin
      requires Valid()
      reads this, frameBuffer, frameBuffer.buffer
    {
      Begin(|frameBuffer.Contents()|, frameBuffer.capacity - 1, |fates|, StartTime())
    }

    // One frame from the producer.
    method Arrive(pts: int)
      requires Valid()
      modifies frameBuffer, frameBuffer.buffer
      ensures Valid() && frameBuffer.popped == old(frameBuffer.popped)
      ensures old(frameBuffer.Contents()) <= frameBuffer.Contents()
      ensures var room := |old(frameBuffer.Contents())| < frameBuffer.capacity - 1;
              && frameBuffer.pushed == old(frameBuffer.pushed) + (if room then [pts] else [])
              && |frameBuffer.Contents()| == |old(frameBuffer.Contents())| + (if room then 1 else 0)
    {
      hide Justified, IsLate, SentCount, LateCount, PtsList, FrameRingBuffer.FrameRingBuffer.Contents,
           FrameRingBuffer.FrameRingBuffer.View;
      var ok := frameBuffer.Push(pts);
    }

    method Receive(arrivals: seq<int>)
      requires Valid()
      modifies frameBuffer, frameBuffer.buffer
      ensures Valid()
      ensures old(frameBuffer.Contents()) <= frameBuffer.Contents() && frameBuffer.popped == old(frameBuffer.popped)
      ensures frameBuffer.pushed ==
              old(frameBuffer.pushed) + Admitted(arrivals, |old(frameBuffer.Contents())|, frameBuffer.capacity - 1)
      ensures |frameBuffer.Contents()| ==
              Filled(|old(frameBuffer.Contents())|, |arrivals|, frameBuffer.capacity - 1)
    {
      frameBuffer.Ledger();
      hide Justified, IsLate, SentCount, LateCount, PtsList, Admitted, Filled, FrameRingBuffer.FrameRingBuffer.Contents,
           MpegTSPlayoutSink.Valid;
      ghost var waiting, room := |frameBuffer.Contents()|, frameBuffer.capacity - 1;
      AdmittedNone(arrivals, waiting, room);
      for i := 0 to |arrivals|
        invariant Valid() && frameBuffer.Valid()
        invariant old(frameBuffer.Contents()) <= frameBuffer.Contents() && frameBuffer.popped == old(frameBuffer.popped)
        invariant frameBuffer.pushed == old(frameBuffer.pushed) + Admitted(arrivals[..i], waiting, room)
        invariant |frameBuffer.Contents()| == Filled(waiting, i, room) <= room
      {
        BufferValid();
        Arrive(arrivals[i]);
        BufferValid();
        AdmittedSnoc(arrivals, i, waiting, room);
      }
      assert arrivals[..|arrivals|] == arrivals;
    }

    lemma BufferValid()
      requires Valid()
      ensures frameBuffer.Valid()
    {
    }

    // Takes the head of the buffer and counts it.
    method Settle(pts: int, now: int, sent: bool)
      requires Valid() && frameBuffer.Contents() != [] && frameBuffer.Contents()[0] == pts
      requires Justified(Fate(pts, now, StartTime(), sent))
      modifies this`framesSent, this`framesDropped, this`lateFrames, this`lateFrameDrops, this`fates, frameBuffer
      ensures Valid() && fates == old(fates) + [Fate(pts, now, StartTime(), sent)]
      ensures frameBuffer.Contents() == old(frameBuffer.Contents())[1..]
      ensures frameBuffer.pushed == old(frameBuffer.pushed)
    {
      hide Justified, IsLate, SentCount, LateCount, PtsList;
      LateWhen(pts, now, sent);
      var frame := frameBuffer.Pop();
      ghost var fate := Fate(pts, now, StartTime(), sent);
      CountsSnoc(fates, fate);
      if sent {
        if now - (sinkStartTimeUtcUs + pts) > 0 {
          lateFrames := lateFrames + 1;
        }
        framesSent := framesSent + 1;
      } else {
        lateFrameDrops := lateFrameDrops + 1;
        framesDropped := framesDropped + 1;
        lateFrames := lateFrames + 1;
      }
      fates := fates + [fate];
    }

    lemma LateWhen(pts: int, now: int, sent: bool)
      requires Justified(Fate(pts, now, StartTime(), sent))
      ensures IsLate(Fate(pts, now, StartTime(), sent)) <==> (!sent || now - (sinkStartTimeUtcUs + pts) > 0)
    {
    }

    // One pass. It settles at most one frame, always the head of the buffer.
    method RunPass(pass: Pass) returns (ghost outcome: Outcome)
      requires Valid()
      modifies this, frameBuffer, frameBuffer.buffer
      ensures Valid()
      ensures frameBuffer.pushed ==
              old(frameBuffer.pushed) + Admitted(pass.arrivals, |old(frameBuffer.Contents())|, frameBuffer.capacity - 1)
      ensures var waiting := Filled(|old(frameBuffer.Contents())|, |pass.arrivals|, frameBuffer.capacity - 1);
              && CalledFor(outcome, pass, waiting, At(frameBuffer.pushed, |old(fates)|), old(StartTime()))
              && |frameBuffer.Contents()| == if outcome.Settled? && waiting > 0 then waiting - 1 else waiting
      ensures StartTime() == if outcome.Settled? then outcome.fate.start else old(StartTime())
      ensures fates == old(fates) + if outcome.Settled? then [outcome.fate] else []
      ensures bufferUnderruns == old(bufferUnderruns) + if outcome.Underrun? then 1 else 0
    {
      hide SentCount, LateCount, FrameRingBuffer.FrameRingBuffer.Contents;
      Receive(pass.arrivals);
      if pass.queueFull {
        return Held;
      }
      var next := frameBuffer.Peek();
      HeadIsPushed();
      if next.None? {
        bufferUnderruns := bufferUnderruns + 1;
        return Underrun;
      }
      var pts, now := next.value, pass.now;
      if !sinkStartTimeRecorded {
        var age := now - pts;
        if age > 0 && age < SAME_TIMEBASE_THRESHOLD_US && age > MAX_LATE_TOLERANCE_US {
          outcome := Settled(Fate(pts, now, StartTime(), false));
          Settle(pts, now, false);
          return;
        }
        sinkStartTimeUtcUs := now - pts;
        sinkStartTimeRecorded := true;
      }
      var gap := now - (sinkStartTimeUtcUs + pts);
      if gap < -SOFT_WAIT_THRESHOLD_US {
        return Early(pts);
      }
      outcome := Settled(Fate(pts, now, StartTime(), gap <= MAX_LATE_TOLERANCE_US));
      Settle(pts, now, gap <= MAX_LATE_TOLERANCE_US);
    }

    // The head of the buffer is the first frame pushed and not settled.
    lemma HeadIsPushed()
      requires Valid()
      ensures |frameBuffer.pushed| == |fates| + |frameBuffer.Contents()|
      ensures frameBuffer.Contents() != [] ==> At(frameBuffer.pushed, |fates|) == Some(frameBuffer.Contents()[0])
    {
      assert |frameBuffer.popped| == |fates|;
      frameBuffer.Ledger();
    }

    // Runs of any length: each pass has the outcome it calls for, and the
    // settled frames, the start time, the underruns, the frames let in and the
    // frames left are exactly those of the outcomes.
    method WorkerLoop(passes: seq<Pass>) returns (ghost outcomes: seq<Outcome>)
      requires Valid()
      modifies this, frameBuffer, frameBuffer.buffer
      ensures Valid() && |outcomes| == |passes|
      ensures var b := old(Now());
              && AllCalledFor(b, passes, outcomes, frameBuffer.pushed)
              && frameBuffer.pushed == old(frameBuffer.pushed) + AllAdmitted(b, passes, outcomes)
              && |frameBuffer.Contents()| == Backlog(b.waiting, b.room, passes, outcomes)
              && StartTime() == InForce(b.start, FatesOf(outcomes))
      ensures fates == old(fates) + FatesOf(outcomes)
      ensures bufferUnderruns == old(bufferUnderruns) + Underruns(outcomes)
    {
      hide CalledFor, AllCalledFor, Filled, Backlog, FatesOf, Underruns, At, Justified, PtsList, SentCount, LateCount,
           Admitted, AllAdmitted, FrameRingBuffer.FrameRingBuffer.Contents;
      outcomes := [];
      ghost var b := Now();
      OutcomesStart(b, frameBuffer.pushed);
      assert passes[..0] == [];
      for i := 0 to |passes|
        invariant Valid() && |outcomes| == i
        invariant AllCalledFor(b, passes[..i], outcomes, frameBuffer.pushed)
        invariant frameBuffer.pushed == old(frameBuffer.pushed) + AllAdmitted(b, passes[..i], outcomes)
        invariant StartTime() == InForce(b.start, FatesOf(outcomes))
        invariant fates == old(fates) + FatesOf(outcomes)
        invariant bufferUnderruns == old(bufferUnderruns) + Underruns(outcomes)
        invariant |frameBuffer.Contents()| == Backlog(b.waiting, b.room, passes[..i], outcomes)
      {
        ghost var pushed := frameBuffer.pushed;
        ghost var outcome := RunPass(passes[i]);
        CalledForSnoc(b, passes[..i], outcomes, passes[i], outcome, pushed, frameBuffer.pushed);
        OutcomesSnoc(b, passes[..i], outcomes, passes[i], outcome);
        assert passes[..i + 1] == passes[..i] + [passes[i]];
        outcomes := outcomes + [outcome];
      }
      assert passes[..|passes|] == passes;
    }

    // Over runs of any length, the clock distance of two sent frames and their
    // PTS distance differ by at most 55 ms: nothing accumulates.
    lemma NoDrift(i: int, j: int)
      requires Valid() && 0 <= i < |fates| && 0 <= j < |fates| && fates[i].sent && fates[j].sent
      ensures -55000 <= (fates[j].now - fates[i].now) - (fates[j].pts - fates[i].pts) <= 55000
    {
      assert Justified(fates[i]) && Justified(fates[j]);
    }

    // Frames pushed in PTS order are sent in PTS order, whatever was dropped.
    lemma SentInOrder(i: int, j: int)
      requires Valid() && 0 <= i < j < |fates|
      requires forall a, b :: 0 <= a < b < |frameBuffer.pushed| ==> frameBuffer.pushed[a] < frameBuffer.pushed[b]
      ensures fates[i].pts < fates[j].pts
    {
      assert frameBuffer.popped <= frameBuffer.pushed;
      assert frameBuffer.popped[i] == fates[i].pts && frameBuffer.popped[j] == fates[j].pts;
    }
  }

  // The PTS handed to the encoder for a frame. C++ division truncates.
  function Pts90k(pts: int): int {
    TruncDiv(pts * 90000, 1000000)
  }

  // Frames a tick (12 us) or more apart reach the encoder with strictly
  // increasing PTS, less than a tick off their distance; across PTS 0, where
  // truncation changes direction, it takes two ticks (23 us).
  lemma TicksKeepSpacing(a: int, b: int)
    requires a <= b
    ensures Pts90k(a) <= Pts90k(b) && (a + (if a < 0 < b then 23 else 12) <= b ==> Pts90k(a) < Pts90k(b))
    ensures (if a < 0 < b then -2000000 else -1000000) < (Pts90k(b) - Pts90k(a)) * 1000000 - (b - a) * 90000 < 1000000
  {
    TruncDivNear(a * 90000);
    TruncDivNear(b * 90000);
  }

  lemma TruncDivNear(x: int)
    ensures x >= 0 ==> x - 1000000 < TruncDiv(x, 1000000) * 1000000 <= x
    ensures x <= 0 ==> x <= TruncDiv(x, 1000000) * 1000000 < x + 1000000
  {
  }
}
