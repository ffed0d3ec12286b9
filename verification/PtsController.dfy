// The PTS controller: wall clock microseconds to strictly increasing ticks of
// the 90 kHz clock.
module PtsController {
  import opened Wrappers
  import opened Monotonic

  // C++ integer division, which truncates towards zero.
  function TruncDiv(a: int, b: int): int
    requires b > 0
  {
    if a >= 0 then a / b else -((-a) / b)
  }

  // The tick a frame at `wallclock` has on a clock that started at `first`.
  function Tick(first: int, wallclock: int): int {
    TruncDiv((wallclock - first) * 90, 1000)
  }

  // Ninety ticks a millisecond: a tick is the whole part, towards zero, of the
  // time since the start, and a second is exactly 90000 of them.
  lemma TickRate(first: int, wallclock: int)
    ensures first <= wallclock ==> 0 <= 90 * (wallclock - first) - 1000 * Tick(first, wallclock) < 1000
    ensures wallclock <= first ==> 0 <= 1000 * Tick(first, wallclock) - 90 * (wallclock - first) < 1000
    ensures first <= wallclock ==> Tick(first, wallclock + 1000000) == Tick(first, wallclock) + 90000
  {
  }

  function Ticks(first: int, ws: seq<int>): seq<int> {
    seq(|ws|, i requires 0 <= i < |ws| => Tick(first, ws[i]))
  }

  class PTSController {
    var ptsBase90k: int
    var firstFrameWallclockUs: int
    var lastPts90k: int
    var initialized: bool
    // Every PTS issued since the last reset, and the wall clocks they were for.
    ghost var wallclocks: seq<int>
    ghost var issued: seq<int>

    // The PTS issued so far are the least strictly increasing ticks above 0.
    ghost predicate Valid()
      reads this
    {
      initialized ==>
        && ptsBase90k == 0
        && issued == Lift(Some(0), Ticks(firstFrameWallclockUs, wallclocks))
        && lastPts90k == if issued == [] then 0 else issued[|issued| - 1]
    }

    constructor ()
      ensures Valid() && !initialized
    {
      ptsBase90k, firstFrameWallclockUs, lastPts90k, initialized := 0, 0, 0, false;
      wallclocks, issued := [], [];
    }

    method Reset(firstFrame: int)
      modifies this
      ensures Valid() && initialized && firstFrameWallclockUs == firstFrame
      ensures wallclocks == [] && issued == []
    {
      firstFrameWallclockUs := firstFrame;
      ptsBase90k := 0;
      lastPts90k := 0;
      initialized := true;
      wallclocks, issued := [], [];
    }

    method PtsForFrameWallclock(frame: int) returns (pts: int)
      requires Valid()
      modifies this
      ensures Valid() && initialized == old(initialized) && firstFrameWallclockUs == old(firstFrameWallclockUs)
      ensures !initialized ==> pts == 0 && wallclocks == old(wallclocks) && issued == old(issued)
      ensures initialized ==> wallclocks == old(wallclocks) + [frame] && issued == old(issued) + [pts]
    {
      if !initialized {
        return 0;
      }
      var delta := frame - firstFrameWallclockUs;
      pts := ptsBase90k + TruncDiv(delta * 90, 1000);
      if pts <= lastPts90k {
        pts := lastPts90k + 1;
      }
      LiftSnoc(Some(0), Ticks(firstFrameWallclockUs, wallclocks), Tick(firstFrameWallclockUs, frame));
      assert Ticks(firstFrameWallclockUs, wallclocks + [frame])
          == Ticks(firstFrameWallclockUs, wallclocks) + [Tick(firstFrameWallclockUs, frame)];
      lastPts90k := pts;
      wallclocks, issued := wallclocks + [frame], issued + [pts];
    }

    method ResetForNewProducer()
      modifies this
      ensures Valid() && !initialized && firstFrameWallclockUs == lastPts90k == ptsBase90k == 0
    {
      ptsBase90k, lastPts90k, firstFrameWallclockUs, initialized := 0, 0, 0, false;
    }
  }

  lemma {:induction false} LiftSnoc(last: Option<int>, ps: seq<int>, p: int)
    ensures var ys := Lift(last, ps);
            Lift(last, ps + [p]) == ys + [LiftOne(if ys == [] then last else Some(ys[|ys| - 1]), p)]
    decreases |ps|
  {
    if ps == [] {
      assert ps + [p] == [p];
    } else {
      LiftSnoc(Some(LiftOne(last, ps[0])), ps[1..], p);
      assert (ps + [p])[1..] == ps[1..] + [p];
    }
  }

  // Frames that start at or after the reset and come at least 12 us apart are
  // stamped with their own tick or the one after it, however long the run: the
  // extra tick of the first frame never accumulates.
  lemma {:induction false} NoDrift(first: int, ws: seq<int>, i: int)
    requires 0 <= i < |ws| && first <= ws[0]
    requires forall k :: 0 < k < |ws| ==> ws[k - 1] + 12 <= ws[k]
    ensures var ys := Lift(Some(0), Ticks(first, ws));
            |ys| == |ws| && Tick(first, ws[i]) <= ys[i] <= Tick(first, ws[i]) + 1
  {
    var ts := Ticks(first, ws);
    LiftAdmissible(Some(0), ts);
    LiftClosedForm(Some(0), ts, i);
    forall j | 0 <= j <= i
      ensures ts[j] + (i - j) <= ts[i]
    {
      TicksAdvance(first, ws, j, i);
    }
    assert 0 <= ts[0];
  }

  lemma {:induction false} TicksAdvance(first: int, ws: seq<int>, j: int, i: int)
    requires 0 <= j <= i < |ws| && first <= ws[0]
    requires forall k :: 0 < k < |ws| ==> ws[k - 1] + 12 <= ws[k]
    ensures first <= ws[i]
    ensures Tick(first, ws[j]) + (i - j) <= Tick(first, ws[i])
    decreases i
  {
    if i > 0 {
      TicksAdvance(first, ws, if j == i then j - 1 else j, i - 1);
    }
  }

  // The first frame after a reset gets tick 1, not the 0 the reset announces.
  lemma FirstFrameIsOne(first: int)
    ensures Lift(Some(0), Ticks(first, [first])) == [1]
  {
    assert Ticks(first, [first]) == [0];
    assert Lift(Some(0), [0]) == [1] + Lift(Some(1), [0][1..]);
  }
}
