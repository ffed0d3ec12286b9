// Per-PID continuity counters (ISO/IEC 13818-1, section 2.4.3.3): what the
// packet loop of the encoder pipeline does to a stream of whole packets, and
// the law it establishes.
module Continuity {
  import opened TsPacket

  datatype CounterState = CounterState(lastCc: Nibble, initialized: bool)

  type Counters = map<Pid, CounterState>

  // continuity_counters_[pid]: a missing entry reads as a default one.
  function StateOf(m: Counters, pid: Pid): CounterState {
    if pid in m then m[pid] else CounterState(0, false)
  }

  datatype Fixed = Fixed(counters: Counters, packet: Packet, corrected: bool)

  // One pass of the packet loop over the packet p.
  function FixPacket(m: Counters, p: Packet): Fixed {
    var pid := ExtractPID(p);
    if pid == NULL_PID then
      Fixed(m, p, false)
    else
      var state := StateOf(m, pid);
      var cc := ExtractContinuityCounter(p);
      if Discontinuity(p) || !state.initialized then
        Fixed(m[pid := CounterState(cc, true)], p, false)
      else if HasPayload(p) then
        var expected := Successor(state.lastCc);
        if cc != expected then
          Fixed(m[pid := CounterState(expected, true)], WithCounter(p, expected), true)
        else
          Fixed(m[pid := CounterState(cc, true)], p, false)
      else if cc != state.lastCc then
        Fixed(m[pid := state], WithCounter(p, state.lastCc), true)
      else
        Fixed(m[pid := state], p, false)
  }

  function Successor(c: Nibble): Nibble {
    (c + 1) % 0x10
  }

  datatype FixedAll = FixedAll(counters: Counters, packets: seq<Packet>, corrections: nat)

  function FixAll(m: Counters, ps: seq<Packet>): FixedAll {
    if ps == [] then
      FixedAll(m, [], 0)
    else
      var r := FixAll(m, ps[..|ps| - 1]);
      var f := FixPacket(r.counters, ps[|ps| - 1]);
      FixedAll(f.counters, r.packets + [f.packet], r.corrections + if f.corrected then 1 else 0)
  }

  // ---- the law, stated without FixPacket ----

  // The counter a lawful packet must carry; None where the law leaves it free.
  predicate Free(before: CounterState, p: Packet) {
    IsNull(p) || Discontinuity(p) || !before.initialized
  }

  predicate LawfulAfter(before: CounterState, p: Packet) {
    Free(before, p) ||
    ExtractContinuityCounter(p) == if HasPayload(p) then Successor(before.lastCc) else before.lastCc
  }

  // The counter of the last packet of pid in ps; m answers when there is none.
  function LastCounter(m: Counters, ps: seq<Packet>, pid: Pid): CounterState {
    if ps == [] then
      StateOf(m, pid)
    else if ExtractPID(ps[|ps| - 1]) == pid then
      CounterState(ExtractContinuityCounter(ps[|ps| - 1]), true)
    else
      LastCounter(m, ps[..|ps| - 1], pid)
  }

  ghost predicate Lawful(m: Counters, ps: seq<Packet>) {
    forall i :: 0 <= i < |ps| ==> LawfulAfter(LastCounter(m, ps[..i], ExtractPID(ps[i])), ps[i])
  }

  // Between i and j no packet carries the PID of packet j.
  ghost predicate Consecutive(ps: seq<Packet>, i: int, j: int) {
    && 0 <= i < j < |ps|
    && ExtractPID(ps[i]) == ExtractPID(ps[j])
    && forall k :: i < k < j ==> ExtractPID(ps[k]) != ExtractPID(ps[j])
  }

  ghost predicate SameShape(ps: seq<Packet>, qs: seq<Packet>) {
    |ps| == |qs| && forall i :: 0 <= i < |ps| ==> SameButCounter(ps[i], qs[i])
  }

  // ps and qs carry the same counter wherever the law leaves it free in qs.
  ghost predicate SameRestarts(m: Counters, ps: seq<Packet>, qs: seq<Packet>)
    requires |ps| == |qs|
  {
    forall i :: 0 <= i < |qs| && Free(LastCounter(m, qs[..i], ExtractPID(qs[i])), qs[i])
      ==> ExtractContinuityCounter(ps[i]) == ExtractContinuityCounter(qs[i])
  }

  function Differences(ps: seq<Packet>, qs: seq<Packet>): nat
    requires |ps| == |qs|
  {
    if ps == [] then 0
    else Differences(ps[..|ps| - 1], qs[..|qs| - 1]) + if ps[|ps| - 1] != qs[|qs| - 1] then 1 else 0
  }

  function OnlyPid(ps: seq<Packet>, pid: Pid): seq<Packet> {
    if ps == [] then []
    else OnlyPid(ps[..|ps| - 1], pid) + if ExtractPID(ps[|ps| - 1]) == pid then [ps[|ps| - 1]] else []
  }

  // ---- one packet ----

  lemma FixPacketLawful(m: Counters, p: Packet)
    ensures SameButCounter(p, FixPacket(m, p).packet)
    ensures ExtractPID(FixPacket(m, p).packet) == ExtractPID(p)
    ensures LawfulAfter(StateOf(m, ExtractPID(p)), FixPacket(m, p).packet)
    ensures FixPacket(m, p).corrected <==> FixPacket(m, p).packet != p
    ensures LawfulAfter(StateOf(m, ExtractPID(p)), p) <==> FixPacket(m, p).packet == p
    ensures forall pid :: StateOf(FixPacket(m, p).counters, pid) == NextState(m, FixPacket(m, p).packet, pid)
  {
    var state := StateOf(m, ExtractPID(p));
    assert state.initialized ==> state == CounterState(state.lastCc, true);
    WithCounterFields(p, Successor(state.lastCc));
    WithCounterFields(p, state.lastCc);
    SameButCounterFields(p, WithCounter(p, Successor(state.lastCc)));
    SameButCounterFields(p, WithCounter(p, state.lastCc));
  }

  // The state of pid once the packet q has gone out.
  function NextState(m: Counters, q: Packet, pid: Pid): CounterState {
    if ExtractPID(q) == pid && !IsNull(q) then CounterState(ExtractContinuityCounter(q), true) else StateOf(m, pid)
  }

  // ---- the whole stream ----

  lemma LawfulSnoc(m: Counters, ps: seq<Packet>, p: Packet)
    requires Lawful(m, ps)
    requires LawfulAfter(LastCounter(m, ps, ExtractPID(p)), p)
    ensures Lawful(m, ps + [p])
  {
    var qs := ps + [p];
    forall i | 0 <= i < |qs|
      ensures LawfulAfter(LastCounter(m, qs[..i], ExtractPID(qs[i])), qs[i])
    {
      assert qs[..i] == ps[..i];
      if i == |ps| {
        assert ps[..i] == ps;
      }
    }
  }

  lemma LastCounterSnoc(m: Counters, ps: seq<Packet>, p: Packet, pid: Pid)
    ensures LastCounter(m, ps + [p], pid) ==
            if ExtractPID(p) == pid then CounterState(ExtractContinuityCounter(p), true) else LastCounter(m, ps, pid)
  {
    assert (ps + [p])[..|ps|] == ps;
  }

  // last_cc of a PID is the counter of that PID's last output packet, and the
  // output obeys the law from the state the loop started in.
  lemma {:induction false} FixAllLawful(m: Counters, ps: seq<Packet>)
    ensures var r := FixAll(m, ps);
            && Lawful(m, r.packets)
            && forall pid :: pid != NULL_PID ==> StateOf(r.counters, pid) == LastCounter(m, r.packets, pid)
  {
    if ps != [] {
      var p := ps[|ps| - 1];
      FixAllLawful(m, ps[..|ps| - 1]);
      var r := FixAll(m, ps[..|ps| - 1]);
      FixPacketLawful(r.counters, p);
      var q := FixPacket(r.counters, p).packet;
      FreeIfNull(q);
      LawfulSnoc(m, r.packets, q);
      var after := FixPacket(r.counters, p).counters;
      forall pid | pid != NULL_PID
        ensures StateOf(after, pid) == LastCounter(m, r.packets + [q], pid)
      {
        LastCounterSnoc(m, r.packets, q, pid);
        assert StateOf(r.counters, pid) == LastCounter(m, r.packets, pid);
        assert StateOf(after, pid) == NextState(r.counters, q, pid);
      }
    }
  }

  lemma FreeIfNull(p: Packet)
    ensures IsNull(p) ==> forall b :: LawfulAfter(b, p)
  {
  }

  // Only low nibbles of byte 3 change, and the correction counter grows by the
  // number of packets that changed.
  lemma {:induction false} FixAllChanges(m: Counters, ps: seq<Packet>)
    ensures SameShape(ps, FixAll(m, ps).packets)
    ensures FixAll(m, ps).corrections == Differences(ps, FixAll(m, ps).packets)
  {
    if ps != [] {
      var init, p := ps[..|ps| - 1], ps[|ps| - 1];
      FixAllChanges(m, init);
      FixPacketLawful(FixAll(m, init).counters, p);
      assert ps == init + [p];
      ChangesSnoc(init, FixAll(m, init).packets, p, FixPacket(FixAll(m, init).counters, p).packet);
    }
  }

  lemma ChangesSnoc(ps: seq<Packet>, qs: seq<Packet>, p: Packet, q: Packet)
    requires SameShape(ps, qs) && SameButCounter(p, q)
    ensures SameShape(ps + [p], qs + [q])
    ensures Differences(ps + [p], qs + [q]) == Differences(ps, qs) + if p != q then 1 else 0
  {
    assert (ps + [p])[..|ps|] == ps && (qs + [q])[..|qs|] == qs;
  }

  // The law of section 2.4.3.3 for any two consecutive packets of a PID.
  lemma {:induction false} LawfulPairs(m: Counters, ps: seq<Packet>, i: int, j: int)
    requires Lawful(m, ps) && Consecutive(ps, i, j)
    requires !IsNull(ps[j]) && !Discontinuity(ps[j])
    ensures ExtractContinuityCounter(ps[j]) ==
            if HasPayload(ps[j]) then (ExtractContinuityCounter(ps[i]) + 1) % 0x10 else ExtractContinuityCounter(ps[i])
  {
    LastCounterAt(m, ps[..j], i, ExtractPID(ps[j]));
    assert LawfulAfter(LastCounter(m, ps[..j], ExtractPID(ps[j])), ps[j]);
  }

  lemma {:induction false} LastCounterAt(m: Counters, ps: seq<Packet>, i: int, pid: Pid)
    requires 0 <= i < |ps| && ExtractPID(ps[i]) == pid
    requires forall k :: i < k < |ps| ==> ExtractPID(ps[k]) != pid
    ensures LastCounter(m, ps, pid) == CounterState(ExtractContinuityCounter(ps[i]), true)
  {
    if i < |ps| - 1 {
      LastCounterAt(m, ps[..|ps| - 1], i, pid);
    }
  }

  // Across any number of calls: the output of FixAll, read as one stream.
  lemma ContinuityLaw(m: Counters, ps: seq<Packet>, i: int, j: int)
    requires Consecutive(FixAll(m, ps).packets, i, j)
    ensures var qs := FixAll(m, ps).packets;
            !IsNull(qs[j]) && !Discontinuity(qs[j]) ==>
              ExtractContinuityCounter(qs[j]) ==
              if HasPayload(qs[j]) then (ExtractContinuityCounter(qs[i]) + 1) % 0x10
              else ExtractContinuityCounter(qs[i])
  {
    FixAllLawful(m, ps);
    var qs := FixAll(m, ps).packets;
    if !IsNull(qs[j]) && !Discontinuity(qs[j]) {
      LawfulPairs(m, qs, i, j);
    }
  }

  // ---- the fix is a projection onto the lawful streams ----

  // There is one lawful packet of the shape of p with its free counter.
  lemma FixPacketUnique(m: Counters, p: Packet, q: Packet)
    requires SameButCounter(p, q)
    requires IsNull(q) || LawfulAfter(StateOf(m, ExtractPID(q)), q)
    requires IsNull(q) || Free(StateOf(m, ExtractPID(q)), q) ==>
      ExtractContinuityCounter(p) == ExtractContinuityCounter(q)
    ensures q == FixPacket(m, p).packet
  {
    var f := FixPacket(m, p).packet;
    SameButCounterFields(p, q);
    FixPacketLawful(m, p);
    SameButCounterFields(p, f);
    SameButCounterTransitive(q, p, f);
    SameButCounterFields(q, f);
  }

  lemma SameButCounterTransitive(a: Packet, b: Packet, c: Packet)
    requires SameButCounter(b, a) && SameButCounter(b, c)
    ensures SameButCounter(a, c)
  {
  }

  // There is one lawful stream of the shape of ps with its restart counters.
  lemma {:induction false} FixAllUnique(m: Counters, ps: seq<Packet>, qs: seq<Packet>)
    requires SameShape(ps, qs) && Lawful(m, qs) && SameRestarts(m, ps, qs)
    ensures qs == FixAll(m, ps).packets
  {
    hide FixPacket, Lawful, SameRestarts, SameShape;
    ShapeLength(ps, qs);
    if ps != [] {
      var n := |ps| - 1;
      RestrictUnique(m, ps, qs, n);
      FixAllUnique(m, ps[..n], qs[..n]);
      UniqueLast(m, ps, qs, n);
      assert qs == qs[..n] + [qs[n]];
    }
  }

  lemma ShapeLength(ps: seq<Packet>, qs: seq<Packet>)
    requires SameShape(ps, qs)
    ensures |ps| == |qs|
  {
  }

  lemma UniqueLast(m: Counters, ps: seq<Packet>, qs: seq<Packet>, n: nat)
    requires SameShape(ps, qs) && Lawful(m, qs) && SameRestarts(m, ps, qs) && n < |qs|
    requires qs[..n] == FixAll(m, ps[..n]).packets
    ensures qs[n] == FixPacket(FixAll(m, ps[..n]).counters, ps[n]).packet
  {
    hide FixPacket, LastCounter, FixAll, LawfulAfter, ExtractContinuityCounter;
    var q := qs[n];
    var counters := FixAll(m, ps[..n]).counters;
    FixAllLawful(m, ps[..n]);
    assert LawfulAfter(LastCounter(m, qs[..n], ExtractPID(q)), q);
    if !IsNull(q) {
      assert StateOf(counters, ExtractPID(q)) == LastCounter(m, qs[..n], ExtractPID(q));
    } else {
      NullIsFree(LastCounter(m, qs[..n], ExtractPID(q)), q);
    }
    FixPacketUnique(counters, ps[n], q);
  }

  lemma NullIsFree(before: CounterState, p: Packet)
    requires IsNull(p)
    ensures Free(before, p)
  {
  }

  lemma RestrictUnique(m: Counters, ps: seq<Packet>, qs: seq<Packet>, n: nat)
    requires SameShape(ps, qs) && Lawful(m, qs) && SameRestarts(m, ps, qs) && n <= |qs|
    ensures SameShape(ps[..n], qs[..n]) && Lawful(m, qs[..n]) && SameRestarts(m, ps[..n], qs[..n])
  {
    hide LastCounter, LawfulAfter, Free, SameButCounter, ExtractContinuityCounter, ExtractPID;
    forall i | 0 <= i < n
      ensures qs[..n][..i] == qs[..i]
    {
    }
  }

  // Where the law leaves a counter free, the packet goes out with its own.
  lemma FreeKept(m: Counters, p: Packet)
    requires Free(StateOf(m, ExtractPID(p)), FixPacket(m, p).packet)
    ensures FixPacket(m, p).packet == p
  {
    FixPacketLawful(m, p);
    SameButCounterFields(p, FixPacket(m, p).packet);
  }

  lemma {:induction false} FixAllRestarts(m: Counters, ps: seq<Packet>)
    ensures |FixAll(m, ps).packets| == |ps| && SameRestarts(m, ps, FixAll(m, ps).packets)
  {
    hide FixPacket, LastCounter, Free, SameButCounter, SameRestarts;
    if ps == [] {
      NoRestarts(m);
    } else {
      var n := |ps| - 1;
      FixAllRestarts(m, ps[..n]);
      RestartLast(m, ps, n);
      var r := FixAll(m, ps[..n]);
      RestartsSnoc(m, ps[..n], r.packets, ps[n], FixPacket(r.counters, ps[n]).packet);
      assert ps == ps[..n] + [ps[n]];
    }
  }

  lemma NoRestarts(m: Counters)
    ensures SameRestarts(m, [], [])
  {
  }

  lemma RestartsSnoc(m: Counters, ps: seq<Packet>, qs: seq<Packet>, p: Packet, q: Packet)
    requires |ps| == |qs| && SameRestarts(m, ps, qs)
    requires Free(LastCounter(m, qs, ExtractPID(q)), q) ==> q == p
    ensures SameRestarts(m, ps + [p], qs + [q])
  {
    hide LastCounter, Free, ExtractPID, ExtractContinuityCounter;
    var qq := qs + [q];
    forall i | 0 <= i < |qq| && Free(LastCounter(m, qq[..i], ExtractPID(qq[i])), qq[i])
      ensures ExtractContinuityCounter((ps + [p])[i]) == ExtractContinuityCounter(qq[i])
    {
      assert qq[..i] == qs[..i];
      if i == |qs| {
        assert qs[..i] == qs;
      }
    }
  }

  lemma RestartLast(m: Counters, ps: seq<Packet>, n: nat)
    requires n < |ps|
    ensures var r := FixAll(m, ps[..n]); var q := FixPacket(r.counters, ps[n]).packet;
            Free(LastCounter(m, r.packets, ExtractPID(q)), q) ==> q == ps[n]
  {
    hide FixPacket, LastCounter, FixAll;
    var r, p := FixAll(m, ps[..n]), ps[n];
    var q := FixPacket(r.counters, p).packet;
    FixAllLawful(m, ps[..n]);
    FixPacketLawful(r.counters, p);
    if Free(LastCounter(m, r.packets, ExtractPID(q)), q) {
      if IsNull(q) {
        NullIsFree(StateOf(r.counters, ExtractPID(p)), q);
      } else {
        assert StateOf(r.counters, ExtractPID(p)) == LastCounter(m, r.packets, ExtractPID(q));
      }
      FreeKept(r.counters, p);
    }
  }

  // The fix is the lawful stream of the shape of ps with its restart counters,
  // and there is no other.
  lemma FixAllCharacterised(m: Counters, ps: seq<Packet>, qs: seq<Packet>)
    ensures qs == FixAll(m, ps).packets <==> SameShape(ps, qs) && Lawful(m, qs) && SameRestarts(m, ps, qs)
  {
    hide FixAll, Lawful, SameRestarts;
    if qs == FixAll(m, ps).packets {
      FixAllLawful(m, ps);
      FixAllChanges(m, ps);
      FixAllRestarts(m, ps);
    } else if SameShape(ps, qs) && Lawful(m, qs) && SameRestarts(m, ps, qs) {
      FixAllUnique(m, ps, qs);
    }
  }

  // A stream is left alone exactly when it is lawful.
  lemma FixAllIdentity(m: Counters, ps: seq<Packet>)
    ensures FixAll(m, ps).packets == ps <==> Lawful(m, ps)
  {
    FixAllLawful(m, ps);
    if Lawful(m, ps) {
      FixAllUnique(m, ps, ps);
    }
  }

  lemma FixAllIdempotent(m: Counters, ps: seq<Packet>)
    ensures FixAll(m, FixAll(m, ps).packets).packets == FixAll(m, ps).packets
  {
    FixAllLawful(m, ps);
    FixAllIdentity(m, FixAll(m, ps).packets);
  }

  // ---- PIDs do not disturb each other ----

  // Fixing and then keeping one PID is fixing that PID's packets alone, from
  // any counters that agree on that PID.
  lemma {:induction false} FixAllDemultiplexes(m: Counters, alone: Counters, ps: seq<Packet>, pid: Pid)
    requires StateOf(m, pid) == StateOf(alone, pid)
    ensures OnlyPid(FixAll(m, ps).packets, pid) == FixAll(alone, OnlyPid(ps, pid)).packets
    ensures StateOf(FixAll(m, ps).counters, pid) == StateOf(FixAll(alone, OnlyPid(ps, pid)).counters, pid)
  {
    hide FixPacket, ExtractPID, StateOf;
    if ps != [] {
      var init, p := ps[..|ps| - 1], ps[|ps| - 1];
      FixAllDemultiplexes(m, alone, init, pid);
      var r := FixAll(m, init);
      OnlyPidSnoc(r.packets, FixPacket(r.counters, p).packet, pid);
      FixPacketLocal(r.counters, FixAll(alone, OnlyPid(init, pid)).counters, p, pid);
      FixAllSnoc(alone, OnlyPid(init, pid), p);
      assert OnlyPid(init, pid) + [] == OnlyPid(init, pid);
      assert OnlyPid(r.packets, pid) + [] == OnlyPid(r.packets, pid);
    }
  }

  // A packet is fixed by its own PID's state, and changes no other.
  lemma FixPacketLocal(m: Counters, n: Counters, p: Packet, pid: Pid)
    requires StateOf(m, pid) == StateOf(n, pid)
    ensures ExtractPID(FixPacket(m, p).packet) == ExtractPID(p)
    ensures if ExtractPID(p) == pid
            then FixPacket(m, p).packet == FixPacket(n, p).packet
              && StateOf(FixPacket(m, p).counters, pid) == StateOf(FixPacket(n, p).counters, pid)
            else StateOf(FixPacket(m, p).counters, pid) == StateOf(m, pid)
  {
    FixPacketLawful(m, p);
    FixPacketLawful(n, p);
  }

  lemma FixAllSnoc(m: Counters, ps: seq<Packet>, p: Packet)
    ensures var r := FixAll(m, ps); var f := FixPacket(r.counters, p);
            FixAll(m, ps + [p]) ==
            FixedAll(f.counters, r.packets + [f.packet], r.corrections + if f.corrected then 1 else 0)
  {
    assert (ps + [p])[..|ps|] == ps;
  }

  lemma OnlyPidSnoc(ps: seq<Packet>, p: Packet, pid: Pid)
    ensures OnlyPid(ps + [p], pid) == OnlyPid(ps, pid) + if ExtractPID(p) == pid then [p] else []
  {
    assert (ps + [p])[..|ps|] == ps;
  }

  // ---- splitting a stream between calls ----

  lemma {:induction false} FixAllConcat(m: Counters, ps: seq<Packet>, qs: seq<Packet>)
    ensures var a := FixAll(m, ps); var b := FixAll(a.counters, qs);
            FixAll(m, ps + qs) == FixedAll(b.counters, a.packets + b.packets, a.corrections + b.corrections)
  {
    hide FixPacket;
    if qs == [] {
      assert ps + qs == ps;
    } else {
      FixAllConcat(m, ps, qs[..|qs| - 1]);
      assert (ps + qs)[..|ps + qs| - 1] == ps + qs[..|qs| - 1];
    }
  }
}
