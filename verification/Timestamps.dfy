// The PTS/DTS rules the encoder pipeline applies to every packet it receives
// from the encoder, and what they guarantee to the muxer.
module Timestamps {
  import opened Wrappers
  import opened Monotonic

  // An encoded packet's times on the 90 kHz clock; None is "no timestamp".
  datatype Times = Times(pts: Option<int>, dts: Option<int>)

  // last_pts_90k_ and last_dts_90k_, None while not yet valid.
  datatype Last = Last(pts: Option<int>, dts: Option<int>)

  function NormalizedPts(last: Last, t: Times): Option<int> {
    if t.pts.Some? then Some(LiftOne(last.pts, t.pts.value)) else None
  }

  function Clamp(d: int, pts: Option<int>): int {
    if pts.Some? && d > pts.value then pts.value else d
  }

  function NormalizedDts(last: Last, t: Times): Option<int> {
    if t.dts.None? then
      None
    else
      var pts := NormalizedPts(last, t);
      var d := Clamp(t.dts.value, pts);
      if last.dts.Some? && d <= last.dts.value then Some(Clamp(last.dts.value + 1, pts)) else Some(d)
  }

  function Normalize(last: Last, t: Times): Times {
    Times(NormalizedPts(last, t), NormalizedDts(last, t))
  }

  function Remember(last: Last, out: Times): Last {
    Last(if out.pts.Some? then out.pts else last.pts, if out.dts.Some? then out.dts else last.dts)
  }

  function NormalizeAll(last: Last, ts: seq<Times>): seq<Times>
    decreases |ts|
  {
    if ts == [] then
      []
    else
      var out := Normalize(last, ts[0]);
      [out] + NormalizeAll(Remember(last, out), ts[1..])
  }

  // The second clamp takes back the step above the last DTS. It fires when the
  // packet's own (lifted) PTS has not passed the last DTS.
  predicate Reclamps(last: Last, t: Times) {
    t.dts.Some? && last.dts.Some? && NormalizedPts(last, t).Some? && NormalizedPts(last, t).value <= last.dts.value
  }

  predicate AnyReclamp(last: Last, ts: seq<Times>)
    decreases |ts|
  {
    ts != [] && (Reclamps(last, ts[0]) || AnyReclamp(Remember(last, Normalize(last, ts[0])), ts[1..]))
  }

  function PtsOf(ts: seq<Times>): seq<int> {
    if ts == [] then [] else (if ts[0].pts.Some? then [ts[0].pts.value] else []) + PtsOf(ts[1..])
  }

  function DtsOf(ts: seq<Times>): seq<int> {
    if ts == [] then [] else (if ts[0].dts.Some? then [ts[0].dts.value] else []) + DtsOf(ts[1..])
  }

  // ---- PTS: for every packet sequence ----

  // The PTS sequence is lifted on its own, whatever the DTS do.
  lemma {:induction false} PtsLifted(last: Last, ts: seq<Times>)
    ensures PtsOf(NormalizeAll(last, ts)) == Lift(last.pts, PtsOf(ts))
    decreases |ts|
  {
    if ts != [] {
      var out := Normalize(last, ts[0]);
      PtsLifted(Remember(last, out), ts[1..]);
      assert NormalizeAll(last, ts)[1..] == NormalizeAll(Remember(last, out), ts[1..]);
      if ts[0].pts.Some? {
        assert ([ts[0].pts.value] + PtsOf(ts[1..]))[1..] == PtsOf(ts[1..]);
      } else {
        assert [] + PtsOf(ts[1..]) == PtsOf(ts[1..]);
      }
    }
  }

  lemma PtsStrictlyIncreasing(last: Last, ts: seq<Times>)
    ensures StrictlyIncreasing(PtsOf(NormalizeAll(last, ts)))
    ensures AllAbove(last.pts, PtsOf(NormalizeAll(last, ts)))
  {
    PtsLifted(last, ts);
    LiftAdmissible(last.pts, PtsOf(ts));
  }

  lemma {:induction false} DtsNotAbovePts(last: Last, ts: seq<Times>, i: int)
    requires 0 <= i < |ts|
    ensures |NormalizeAll(last, ts)| == |ts|
    ensures var out := NormalizeAll(last, ts)[i];
            out.pts.Some? && out.dts.Some? ==> out.dts.value <= out.pts.value
    decreases |ts|
  {
    var next := Remember(last, Normalize(last, ts[0]));
    if i > 0 {
      DtsNotAbovePts(next, ts[1..], i - 1);
    } else if |ts| > 1 {
      DtsNotAbovePts(next, ts[1..], 0);
    }
  }

  ghost function Distance(a: int, b: int): nat {
    if a <= b then b - a else a - b
  }

  // d may go out after `last` with this PTS.
  ghost predicate DtsAllowed(last: Option<int>, pts: Option<int>, d: int) {
    (last.Some? ==> last.value < d) && (pts.Some? ==> d <= pts.value)
  }

  // A packet keeps its DTS if that is allowed, and otherwise gets the nearest
  // one that is; where none is, its PTS. It has a DTS exactly when it came with
  // one.
  lemma DtsNearest(last: Last, t: Times)
    ensures Normalize(last, t).dts.Some? <==> t.dts.Some?
    ensures t.dts.Some? ==>
      var pts, out := Normalize(last, t).pts, Normalize(last, t).dts.value;
      && (DtsAllowed(last.dts, pts, t.dts.value) ==> out == t.dts.value)
      && (forall d :: DtsAllowed(last.dts, pts, d) ==>
            DtsAllowed(last.dts, pts, out) && Distance(t.dts.value, out) <= Distance(t.dts.value, d))
      && ((forall d :: !DtsAllowed(last.dts, pts, d)) ==> pts == Some(out))
  {
    if t.dts.Some? && last.dts.Some? {
      assert Normalize(last, t).pts.None? ==> DtsAllowed(last.dts, None, last.dts.value + 1);
      assert Normalize(last, t).pts.Some? && last.dts.value < Normalize(last, t).pts.value ==>
          DtsAllowed(last.dts, Normalize(last, t).pts, last.dts.value + 1);
    } else if t.dts.Some? {
      assert DtsAllowed(last.dts, Normalize(last, t).pts, Clamp(t.dts.value, Normalize(last, t).pts));
    }
  }

  // ---- DTS: exactly when the second clamp stays quiet ----

  lemma {:induction false} DtsStrictlyIncreasing(last: Last, ts: seq<Times>)
    ensures StrictlyIncreasing(DtsOf(NormalizeAll(last, ts))) && AllAbove(last.dts, DtsOf(NormalizeAll(last, ts)))
            <==> !AnyReclamp(last, ts)
    decreases |ts|
  {
    if ts != [] {
      var out := Normalize(last, ts[0]);
      var next := Remember(last, out);
      DtsStrictlyIncreasing(next, ts[1..]);
      assert NormalizeAll(last, ts)[1..] == NormalizeAll(next, ts[1..]);
      var rest := DtsOf(NormalizeAll(next, ts[1..]));
      if out.dts.Some? {
        ConsOrdered(last.dts, out.dts.value, rest);
      } else {
        assert [] + rest == rest;
      }
    }
  }

  lemma ConsOrdered(last: Option<int>, y: int, ys: seq<int>)
    ensures StrictlyIncreasing([y] + ys) && AllAbove(last, [y] + ys)
            <==> (last.Some? ==> last.value < y) && StrictlyIncreasing(ys) && AllAbove(Some(y), ys)
  {
    var zs := [y] + ys;
    assert forall i :: 0 <= i < |ys| ==> ys[i] == zs[i + 1];
    if StrictlyIncreasing(zs) && AllAbove(last, zs) {
      assert zs[0] == y;
    }
  }

  ghost predicate Ordered(last: Last) {
    last.dts.Some? ==> last.pts.Some? && last.dts.value <= last.pts.value
  }

  // A sequence in which DTS never comes without PTS never fires the second clamp.
  lemma {:induction false} NoReclampWithPts(last: Last, ts: seq<Times>)
    requires Ordered(last)
    requires forall i :: 0 <= i < |ts| && ts[i].dts.Some? ==> ts[i].pts.Some?
    ensures !AnyReclamp(last, ts)
    decreases |ts|
  {
    if ts != [] {
      NoReclampWithPts(Remember(last, Normalize(last, ts[0])), ts[1..]);
    }
  }

  // A DTS without a PTS can overtake the next packet, whose DTS then steps back.
  lemma DtsAloneBreaksOrder()
    ensures var ts := [Times(None, Some(10)), Times(Some(5), Some(5))];
            NormalizeAll(Last(None, None), ts) == ts && !StrictlyIncreasing(DtsOf(NormalizeAll(Last(None, None), ts)))
  {
    var a, b := Times(None, Some(10)), Times(Some(5), Some(5));
    var last := Last(None, Some(10));
    assert NormalizeAll(last, [b]) == [b] + NormalizeAll(Last(Some(5), Some(5)), []);
    assert [a, b][1..] == [b];
    assert DtsOf([b]) == [5];
    assert DtsOf([a, b]) == [10, 5];
    assert [10, 5][0] >= [10, 5][1];
  }

  // ---- what the muxer is handed ----

  // A packet on its way to the muxer: through the rules, or drained past them
  // while the encoder refuses a frame.
  datatype Source = Received(times: Times) | Drained(times: Times)

  function Handed(last: Last, e: Source): Times {
    if e.Received? then Normalize(last, e.times) else e.times
  }

  function After(last: Last, e: Source): Last {
    if e.Received? then Remember(last, Normalize(last, e.times)) else last
  }

  function Written(last: Last, events: seq<Source>): seq<Times>
    decreases |events|
  {
    if events == [] then [] else [Handed(last, events[0])] + Written(After(last, events[0]), events[1..])
  }

  function LastWritten(last: Last, events: seq<Source>): Last
    decreases |events|
  {
    if events == [] then last else LastWritten(After(last, events[0]), events[1..])
  }

  lemma {:induction false} WrittenSnoc(last: Last, events: seq<Source>, e: Source)
    ensures Written(last, events + [e]) == Written(last, events) + [Handed(LastWritten(last, events), e)]
    ensures LastWritten(last, events + [e]) == After(LastWritten(last, events), e)
    decreases |events|
  {
    if events == [] {
      assert events + [e] == [e];
    } else {
      WrittenSnoc(After(last, events[0]), events[1..], e);
      assert (events + [e])[1..] == events[1..] + [e];
    }
  }

  function TimesOf(events: seq<Source>): seq<Times> {
    if events == [] then [] else [events[0].times] + TimesOf(events[1..])
  }

  ghost predicate NoneDrained(events: seq<Source>) {
    forall i :: 0 <= i < |events| ==> events[i].Received?
  }

  // Without draining, one packet sequence under the rules.
  lemma {:induction false} WrittenReceived(last: Last, events: seq<Source>)
    requires NoneDrained(events)
    ensures Written(last, events) == NormalizeAll(last, TimesOf(events))
    decreases |events|
  {
    if events != [] {
      WrittenReceived(After(last, events[0]), events[1..]);
      assert TimesOf(events)[1..] == TimesOf(events[1..]);
    }
  }

  function Higher(high: Option<int>, x: Option<int>): Option<int> {
    if x.Some? then x else high
  }

  // high is the last PTS written. A drained packet must pass it by itself, and
  // so must a packet received while a drained one is ahead of the rules.
  predicate PtsFits(last: Last, high: Option<int>, e: Source) {
    e.times.pts.None? || high.None? || high.value < e.times.pts.value || (e.Received? && high == last.pts)
  }

  predicate AllPtsFit(last: Last, high: Option<int>, events: seq<Source>)
    decreases |events|
  {
    events == []
    || (PtsFits(last, high, events[0])
        && AllPtsFit(After(last, events[0]), Higher(high, Handed(last, events[0]).pts), events[1..]))
  }

  // high is the last DTS written. The same for DTS, and the (lifted) PTS of a
  // received packet must pass it too.
  predicate DtsFits(last: Last, high: Option<int>, e: Source) {
    e.times.dts.None? || high.None?
    || ((high.value < e.times.dts.value || (e.Received? && high == last.dts))
        && (e.Received? && e.times.pts.Some? ==> high.value < NormalizedPts(last, e.times).value))
  }

  predicate AllDtsFit(last: Last, high: Option<int>, events: seq<Source>)
    decreases |events|
  {
    events == []
    || (DtsFits(last, high, events[0])
        && AllDtsFit(After(last, events[0]), Higher(high, Handed(last, events[0]).dts), events[1..]))
  }

  ghost predicate NotAbove(last: Option<int>, high: Option<int>) {
    last.Some? ==> high.Some? && last.value <= high.value
  }

  // One packet raises the PTS exactly when it fits.
  lemma PtsStep(last: Last, high: Option<int>, e: Source)
    requires NotAbove(last.pts, high) && e.times.pts.Some?
    ensures Handed(last, e).pts.Some?
    ensures (high.Some? ==> high.value < Handed(last, e).pts.value) <==> PtsFits(last, high, e)
    ensures PtsFits(last, high, e) ==> NotAbove(After(last, e).pts, Handed(last, e).pts)
  {
  }

  lemma DtsStep(last: Last, high: Option<int>, e: Source)
    requires NotAbove(last.dts, high) && e.times.dts.Some?
    ensures Handed(last, e).dts.Some?
    ensures (high.Some? ==> high.value < Handed(last, e).dts.value) <==> DtsFits(last, high, e)
    ensures DtsFits(last, high, e) ==> NotAbove(After(last, e).dts, Handed(last, e).dts)
  {
  }

  // The muxer sees strictly increasing PTS exactly when every packet fits.
  lemma {:induction false} WrittenPtsIncreasing(last: Last, high: Option<int>, events: seq<Source>)
    requires NotAbove(last.pts, high)
    ensures StrictlyIncreasing(PtsOf(Written(last, events))) && AllAbove(high, PtsOf(Written(last, events)))
            <==> AllPtsFit(last, high, events)
    decreases |events|
  {
    hide Handed, PtsFits, After;
    if events != [] {
      var e, out := events[0], Handed(last, events[0]);
      var next, rest := After(last, e), Written(After(last, e), events[1..]);
      assert Written(last, events)[1..] == rest;
      if e.times.pts.Some? {
        PtsStep(last, high, e);
        ConsOrdered(high, out.pts.value, PtsOf(rest));
        if PtsFits(last, high, e) {
          WrittenPtsIncreasing(next, out.pts, events[1..]);
        }
      } else {
        NoPts(last, high, e);
        assert [] + PtsOf(rest) == PtsOf(rest);
        WrittenPtsIncreasing(next, high, events[1..]);
      }
    }
  }

  lemma NoPts(last: Last, high: Option<int>, e: Source)
    requires e.times.pts.None?
    ensures Handed(last, e).pts.None? && After(last, e).pts == last.pts && PtsFits(last, high, e)
  {
  }

  // And strictly increasing DTS exactly when every packet fits.
  lemma {:induction false} WrittenDtsIncreasing(last: Last, high: Option<int>, events: seq<Source>)
    requires NotAbove(last.dts, high)
    ensures StrictlyIncreasing(DtsOf(Written(last, events))) && AllAbove(high, DtsOf(Written(last, events)))
            <==> AllDtsFit(last, high, events)
    decreases |events|
  {
    hide Handed, DtsFits, After;
    if events != [] {
      var e, out := events[0], Handed(last, events[0]);
      var next, rest := After(last, e), Written(After(last, e), events[1..]);
      assert Written(last, events)[1..] == rest;
      if e.times.dts.Some? {
        DtsStep(last, high, e);
        ConsOrdered(high, out.dts.value, DtsOf(rest));
        if DtsFits(last, high, e) {
          WrittenDtsIncreasing(next, out.dts, events[1..]);
        }
      } else {
        NoDts(last, high, e);
        assert [] + DtsOf(rest) == DtsOf(rest);
        WrittenDtsIncreasing(next, high, events[1..]);
      }
    }
  }

  lemma NoDts(last: Last, high: Option<int>, e: Source)
    requires e.times.dts.None?
    ensures Handed(last, e).dts.None? && After(last, e).dts == last.dts && DtsFits(last, high, e)
  {
  }

  lemma DrainBreaksOrder()
    ensures var events := [Received(Times(Some(10), None)), Drained(Times(Some(5), None))];
            !StrictlyIncreasing(PtsOf(Written(Last(None, None), events)))
  {
    var a, b := Received(Times(Some(10), None)), Drained(Times(Some(5), None));
    var last := Last(Some(10), None);
    assert [a, b][1..] == [b];
    assert Written(last, [b]) == [b.times] + Written(last, []);
    assert Written(Last(None, None), [a, b]) == [a.times, b.times];
    assert PtsOf([b.times]) == [5];
    assert [a.times, b.times][1..] == [b.times];
    assert PtsOf([a.times, b.times]) == [10, 5];
    assert [10, 5][0] >= [10, 5][1];
  }
}
