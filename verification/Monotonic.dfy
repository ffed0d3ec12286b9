// Lifting a sequence of timestamps to a strictly increasing one, a tick at a
// time. The encoder pipeline does this to PTS and the PTS controller to wall
// clock ticks.
module Monotonic {
  import opened Wrappers

  function LiftOne(last: Option<int>, p: int): int {
    if last.Some? && p <= last.value then last.value + 1 else p
  }

  function Lift(last: Option<int>, ps: seq<int>): seq<int>
    decreases |ps|
  {
    if ps == [] then
      []
    else
      var y := LiftOne(last, ps[0]);
      [y] + Lift(Some(y), ps[1..])
  }

  ghost predicate StrictlyIncreasing(ys: seq<int>) {
    forall i, j :: 0 <= i < j < |ys| ==> ys[i] < ys[j]
  }

  ghost predicate AllAbove(last: Option<int>, ys: seq<int>) {
    last.Some? ==> forall i :: 0 <= i < |ys| ==> last.value < ys[i]
  }

  // A candidate result: strictly increasing, past `last`, never below ps.
  ghost predicate Admissible(last: Option<int>, ps: seq<int>, ys: seq<int>) {
    && |ys| == |ps|
    && StrictlyIncreasing(ys)
    && AllAbove(last, ys)
    && forall i :: 0 <= i < |ps| ==> ps[i] <= ys[i]
  }

  lemma {:induction false} LiftAdmissible(last: Option<int>, ps: seq<int>)
    ensures Admissible(last, ps, Lift(last, ps))
    decreases |ps|
  {
    if ps != [] {
      var y := LiftOne(last, ps[0]);
      LiftAdmissible(Some(y), ps[1..]);
      var ys := Lift(last, ps);
      var rest := Lift(Some(y), ps[1..]);
      forall i | 0 <= i < |ys|
        ensures ps[i] <= ys[i] && (i > 0 ==> y < ys[i])
      {
        if i > 0 {
          assert ys[i] == rest[i - 1] && ps[i] == ps[1..][i - 1];
        }
      }
      forall i, j | 0 <= i < j < |ys|
        ensures ys[i] < ys[j]
      {
        if i > 0 {
          assert ys[i] == rest[i - 1] && ys[j] == rest[j - 1];
        }
      }
    }
  }

  // The lifted sequence is the pointwise least admissible one.
  lemma {:induction false} LiftLeast(last: Option<int>, ps: seq<int>, zs: seq<int>, i: int)
    requires Admissible(last, ps, zs) && 0 <= i < |ps|
    ensures |Lift(last, ps)| == |ps| && Lift(last, ps)[i] <= zs[i]
    decreases |ps|
  {
    LiftAdmissible(last, ps);
    if i > 0 {
      var y := LiftOne(last, ps[0]);
      assert forall k :: 0 <= k < |ps| - 1 ==> ps[1..][k] <= zs[1..][k];
      assert y <= zs[0];
      LiftLeast(Some(y), ps[1..], zs[1..], i - 1);
    }
  }

  // What position i must reach: every earlier input plus the distance to i,
  // and the floor that `last` sets.
  ghost predicate Bound(last: Option<int>, ps: seq<int>, i: int, v: int)
    requires 0 <= i < |ps|
  {
    && (forall j :: 0 <= j <= i ==> ps[j] + (i - j) <= v)
    && (last.Some? ==> last.value + 1 + i <= v)
  }

  ghost predicate Attained(last: Option<int>, ps: seq<int>, i: int, v: int)
    requires 0 <= i < |ps|
  {
    || (exists j :: 0 <= j <= i && ps[j] + (i - j) == v)
    || (last.Some? && last.value + 1 + i == v)
  }

  // The closed form: the maximum over j <= i of ps[j] + (i - j) and the floor.
  lemma {:induction false} LiftClosedForm(last: Option<int>, ps: seq<int>, i: int)
    requires 0 <= i < |ps|
    ensures |Lift(last, ps)| == |ps|
    ensures Bound(last, ps, i, Lift(last, ps)[i]) && Attained(last, ps, i, Lift(last, ps)[i])
    decreases |ps|
  {
    LiftAdmissible(last, ps);
    var y := LiftOne(last, ps[0]);
    var v := Lift(last, ps)[i];
    if i == 0 {
      assert Attained(last, ps, i, v) by {
        if v == ps[0] {
          assert ps[0] + (i - 0) == v;
        }
      }
    } else {
      var rest := ps[1..];
      LiftClosedForm(Some(y), rest, i - 1);
      assert v == Lift(Some(y), rest)[i - 1];
      forall j | 0 <= j <= i
        ensures ps[j] + (i - j) <= v
      {
        if j > 0 {
          assert rest[j - 1] + (i - 1 - (j - 1)) <= v;
        }
      }
      if j :| 0 <= j <= i - 1 && rest[j] + (i - 1 - j) == v {
        assert ps[j + 1] + (i - (j + 1)) == v;
      } else {
        assert y + 1 + (i - 1) == v;
        if y == ps[0] {
          assert ps[0] + (i - 0) == v;
        }
      }
    }
  }
}
