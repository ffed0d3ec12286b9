// The encoder pipeline object: its fields are updated in place by the muxer's
// writes, the receive loop and close. FFmpeg is an arbitrary source of packets
// and chunks; the output callback is the log `delivered`.
module EncoderPipeline {
  import opened Wrappers
  import opened TsPacket
  import opened Continuity
  import TsStream
  import opened Monotonic
  import opened Timestamps

  type Bytes = TsStream.Bytes

  const FRESH := Last(None, None)
  const MAX_PACKETS_PER_FRAME: nat := 10
  const MAX_DRAIN_ATTEMPTS: nat := 5

  // What the muxer answered for a packet.
  datatype MuxResult = Accepted | Again | Refused

  // What the encoder answered for a frame.
  datatype SendResult = Sent | Busy | SendError

  // What the encoder answered when asked for a packet, and the muxer for it.
  datatype Answer = Got(times: Times, result: MuxResult) | NoMore | ReceiveError

  // The packets a loop with this limit takes: it stops at the first answer that
  // is no packet, and after the muxer said Again.
  function Taken(answers: seq<Answer>, limit: nat): seq<Times>
    decreases |answers|
  {
    if limit == 0 || answers == [] || !answers[0].Got? then []
    else [answers[0].times] + if answers[0].result.Again? then [] else Taken(answers[1..], limit - 1)
  }

  // What Taken means: a run of packets, and why it ends where it does.
  lemma {:induction false} TakenIsPrefix(answers: seq<Answer>, limit: nat)
    ensures var n := |Taken(answers, limit)|;
            && n <= limit && n <= |answers|
            && (forall i :: 0 <= i < n ==>
                  && answers[i].Got? && answers[i].times == Taken(answers, limit)[i]
                  && (i < n - 1 ==> !answers[i].result.Again?))
            && (n == limit || n == |answers| || !answers[n].Got? || (n > 0 && answers[n - 1].result.Again?))
    decreases |answers|
  {
    if limit > 0 && answers != [] && answers[0].Got? && !answers[0].result.Again? {
      TakenIsPrefix(answers[1..], limit - 1);
      var rest := Taken(answers[1..], limit - 1);
      forall i | 0 < i < |rest| + 1
        ensures Taken(answers, limit)[i] == rest[i - 1] && answers[i] == answers[1..][i - 1]
      {
      }
    }
  }

  lemma TakenStep(answers: seq<Answer>, i: nat, limit: nat)
    requires i <= |answers|
    ensures Taken(answers[i..], limit) ==
            if limit == 0 || i == |answers| || !answers[i].Got? then []
            else [answers[i].times] + if answers[i].result.Again? then [] else Taken(answers[i + 1..], limit - 1)
  {
    if i < |answers| {
      assert answers[i..][1..] == answers[i + 1..];
    }
  }

  // It fails exactly when an error comes before the tenth packet (or whatever
  // the limit is), with nothing before it but packets the muxer did not put off.
  lemma NoErrorExactly(answers: seq<Answer>, limit: nat)
    ensures !NoErrorMet(answers, limit) <==>
            exists n :: 0 <= n < limit && n < |answers| && answers[n].ReceiveError?
              && forall i :: 0 <= i < n ==> answers[i].Got? && !answers[i].result.Again?
  {
    TakenIsPrefix(answers, limit);
    var n := |Taken(answers, limit)|;
    if k :| 0 <= k < limit && k < |answers| && answers[k].ReceiveError?
            && forall i :: 0 <= i < k ==> answers[i].Got? && !answers[i].result.Again? {
      assert n == k;
    }
    if !NoErrorMet(answers, limit) {
      assert answers[n].ReceiveError?;
    }
  }

  // The receive loop succeeds unless an error ends it.
  predicate NoErrorMet(answers: seq<Answer>, limit: nat) {
    var n := |Taken(answers, limit)|;
    TakenIsPrefix(answers, limit);
    n == limit || n == |answers| || !answers[n].ReceiveError? || (n > 0 && answers[n - 1].result.Again?)
  }

  // The flush at close asks until there is no more, through any errors.
  function Flushed(answers: seq<Answer>): seq<Times> {
    if answers == [] || answers[0].NoMore? then []
    else (if answers[0].Got? then [answers[0].times] else []) + Flushed(answers[1..])
  }

  // n is where the encoder first says NoMore, or the end of the script.
  ghost predicate FirstNoMore(answers: seq<Answer>, n: int) {
    && 0 <= n <= |answers| && (forall i :: 0 <= i < n ==> !answers[i].NoMore?)
    && (n < |answers| ==> answers[n].NoMore?)
  }

  // ks are, in order, exactly the positions below n that hold a packet.
  ghost predicate PacketsAt(answers: seq<Answer>, n: int, ks: seq<int>) {
    && 0 <= n <= |answers|
    && (forall j :: 0 <= j < |ks| ==> 0 <= ks[j] < n && answers[ks[j]].Got?)
    && (forall j, j' :: 0 <= j < j' < |ks| ==> ks[j] < ks[j'])
    && (forall i :: 0 <= i < n && answers[i].Got? ==> i in ks)
  }

  lemma PacketsAtNext(answers: seq<Answer>, n: nat, ks: seq<int>)
    requires PacketsAt(answers, n, ks) && n < |answers|
    ensures PacketsAt(answers, n + 1, if answers[n].Got? then ks + [n] else ks)
  {
    if answers[n].Got? {
      assert n in ks + [n];
      assert forall i :: i in ks ==> i in ks + [n];
    }
  }

  ghost predicate InTimes(answers: seq<Answer>, i: int, t: Times) {
    0 <= i < |answers| && answers[i].Got? && answers[i].times == t
  }

  lemma NoPacketsYet(answers: seq<Answer>)
    ensures PacketsAt(answers, 0, [])
  {
  }

  lemma PacketsThere(answers: seq<Answer>, n: int, ks: seq<int>)
    requires PacketsAt(answers, n, ks)
    ensures forall j :: 0 <= j < |ks| ==> 0 <= ks[j] < |answers| && answers[ks[j]].Got?
  {
  }

  function AsReceived(ts: seq<Times>): seq<Source> {
    seq(|ts|, i requires 0 <= i < |ts| => Received(ts[i]))
  }

  function AsDrained(ts: seq<Times>): seq<Source> {
    seq(|ts|, i requires 0 <= i < |ts| => Drained(ts[i]))
  }

  lemma SourcesSnoc(ts: seq<Times>, t: Times)
    ensures AsReceived(ts + [t]) == AsReceived(ts) + [Received(t)]
    ensures AsDrained(ts + [t]) == AsDrained(ts) + [Drained(t)]
    ensures AsReceived([]) == [] && AsDrained([]) == []
  {
  }

  // How the frame fared in the end.
  function Outcome(first: SendResult, second: SendResult): SendResult {
    if first.Busy? then second else first
  }

  function FrameEvents(first: SendResult, drained: seq<Answer>, second: SendResult, answers: seq<Answer>): seq<Source> {
    (if first.Busy? then AsDrained(Taken(drained, MAX_DRAIN_ATTEMPTS)) else [])
    + (if Outcome(first, second).Sent? then AsReceived(Taken(answers, MAX_PACKETS_PER_FRAME)) else [])
  }

  // What a frame sends to the muxer: up to five packets as they came when the
  // encoder was busy, then, if it took the frame, up to ten under the rules.
  lemma FrameEventsExactly(first: SendResult, drained: seq<Answer>, second: SendResult, answers: seq<Answer>)
    ensures var nd := if first.Busy? then |Taken(drained, 5)| else 0;
            var nr := if first.Sent? || (first.Busy? && second.Sent?) then |Taken(answers, 10)| else 0;
            var events := FrameEvents(first, drained, second, answers);
            && nd <= |drained| && nr <= |answers| && |events| == nd + nr
            && (forall k :: 0 <= k < nd ==> drained[k].Got? && events[k] == Drained(drained[k].times))
            && (forall k :: 0 <= k < nr ==> answers[k].Got? && events[nd + k] == Received(answers[k].times))
  {
    TakenIsPrefix(drained, MAX_DRAIN_ATTEMPTS);
    TakenIsPrefix(answers, MAX_PACKETS_PER_FRAME);
  }

  // The whole result is what is done followed by the result of the rest.
  ghost predicate Continues(whole: TsStream.Processed, done: Bytes, corrections: int, rest: TsStream.Processed) {
    whole == TsStream.Processed(rest.counters, done + rest.bytes, whole.corrections)
    && whole.corrections == corrections + rest.corrections
  }

  lemma Continued(
    whole: TsStream.Processed, done: Bytes, corrections: int, more: Bytes, moreCorrections: nat,
    rest: TsStream.Processed)
    requires Continues(whole, done, corrections,
                       TsStream.Processed(rest.counters, more + rest.bytes, moreCorrections + rest.corrections))
    ensures Continues(whole, done + more, corrections + moreCorrections, rest)
  {
    TsStream.Associative(done, more, rest.bytes);
  }

  lemma ContinuesFromStart(whole: TsStream.Processed)
    ensures Continues(whole, [], 0, whole)
  {
  }

  lemma ContinuesToEnd(whole: TsStream.Processed, done: Bytes, corrections: int, m: Counters, rest: Bytes)
    requires Continues(whole, done, corrections, TsStream.Processed(m, rest, 0))
    ensures whole.counters == m && whole.bytes == done + rest && whole.corrections == corrections
  {
  }

  // Rewriting one packet in place, seen from both sides of the offset.
  lemma InPlace(before: Bytes, b: Bytes, offset: nat, size: nat, q: Packet)
    requires offset + PACKET_SIZE <= size <= |before| == |b| && before[offset..] == b[offset..]
    ensures before[offset..size][..PACKET_SIZE] == before[offset..offset + PACKET_SIZE]
    ensures var after := before[..offset] + q + before[offset + PACKET_SIZE..];
            && |after| == |before|
            && after[..offset + PACKET_SIZE] == before[..offset] + q
            && after[offset + PACKET_SIZE..] == b[offset + PACKET_SIZE..]
            && after[offset + PACKET_SIZE..size] == before[offset..size][PACKET_SIZE..]
  {
    var next := offset + PACKET_SIZE;
    var after := before[..offset] + q + before[next..];
    assert before[next..] == before[offset..][PACKET_SIZE..] && b[next..] == b[offset..][PACKET_SIZE..];
    assert after[next..] == before[next..];
    assert after[next..size] == after[next..][..size - next];
    assert before[offset..size][PACKET_SIZE..] == before[next..size] == before[next..][..size - next];
  }

  lemma Reassembled(now: Bytes, b: Bytes, offset: nat, size: nat)
    requires offset <= size <= |now| == |b| && now[offset..] == b[offset..]
    ensures now == now[..offset] + now[offset..size] + b[size..]
  {
    assert now[size..] == now[offset..][size - offset..] == b[offset..][size - offset..] == b[size..];
  }

  class EncoderPipeline {
    const stubMode: bool
    var initialized: bool
    var callback: bool
    var continuityCounters: Counters
    var continuityCorrections: nat
    var packetAlignmentBuffer: Bytes
    var lastPts90k: int
    var lastPtsValid: bool
    var lastDts90k: int
    var lastDtsValid: bool
    // What the callback of the present session has been handed.
    var delivered: Bytes
    // Every packet since construction, and the times it had when it was handed
    // to the muxer.
    ghost var events: seq<Source>
    ghost var muxed: seq<Times>

    function View(): TsStream.Conditioner
      reads this
    {
      TsStream.Conditioner(packetAlignmentBuffer, continuityCounters, continuityCorrections, delivered, callback)
    }

    function LastTimes(): Last
      reads this
    {
      Last(if lastPtsValid then Some(lastPts90k) else None, if lastDtsValid then Some(lastDts90k) else None)
    }

    ghost predicate Valid()
      reads this
    {
      && (!initialized || stubMode ==> packetAlignmentBuffer == [])
      && muxed == Written(FRESH, events)
      && LastTimes() == LastWritten(FRESH, events)
    }

    constructor (stub: bool)
      ensures Valid() && !initialized && stubMode == stub && events == []
    {
      stubMode := stub;
      initialized, callback := false, false;
      continuityCounters, continuityCorrections := map[], 0;
      packetAlignmentBuffer, delivered := [], [];
      lastPts90k, lastDts90k := 0, 0;
      lastPtsValid, lastDtsValid := false, false;
      events, muxed := [], [];
    }

    // The timestamps of an earlier session are kept: order holds across sessions.
    // `granted` says whether FFmpeg gave everything asked for. When it did
    // not, the callback stays installed and the next open replaces it.
    method Open(withCallback: bool, granted: bool) returns (ok: bool)
      requires Valid()
      modifies this
      ensures Valid() && events == old(events)
      ensures ok <==> old(initialized) || stubMode || granted
      ensures initialized == ok
      ensures old(initialized) || stubMode ==> View() == old(View())
      ensures !old(initialized) && !stubMode ==> View() == TsStream.OPENED.(callback := withCallback)
    {
      if initialized {
        return true;
      }
      if stubMode {
        initialized := true;
        return true;
      }
      continuityCounters := map[];
      continuityCorrections := 0;
      callback := withCallback;
      delivered := [];
      if !granted {
        return false;
      }
      initialized := true;
      return true;
    }

    // ---- the byte stream ----

    // One packet of the loop, rewritten in place.
    method FixPacketAt(offset: nat)
      requires offset + PACKET_SIZE <= |packetAlignmentBuffer| && packetAlignmentBuffer[offset] == SYNC
      modifies this`packetAlignmentBuffer, this`continuityCounters, this`continuityCorrections
      ensures var b := old(packetAlignmentBuffer);
              var f := FixPacket(old(continuityCounters), b[offset..offset + PACKET_SIZE]);
              && packetAlignmentBuffer == b[..offset] + f.packet + b[offset + PACKET_SIZE..]
              && continuityCounters == f.counters
              && continuityCorrections == old(continuityCorrections) + if f.corrected then 1 else 0
    {
      ghost var b := packetAlignmentBuffer;
      var p: Packet := packetAlignmentBuffer[offset..offset + PACKET_SIZE];
      var pid := ExtractPID(p);
      var cc := ExtractContinuityCounter(p);
      if pid != NULL_PID {
        var state := StateOf(continuityCounters, pid);
        if Discontinuity(p) {
          state := state.(initialized := false);
        }
        if !state.initialized {
          state := CounterState(cc, true);
        } else if HasPayload(p) {
          var expected := Successor(state.lastCc);
          if cc != expected {
            packetAlignmentBuffer := packetAlignmentBuffer[offset + 3 := p[3] / 0x10 * 0x10 + expected];
            cc := expected;
            continuityCorrections := continuityCorrections + 1;
          }
          state := state.(lastCc := cc);
        } else if cc != state.lastCc {
          packetAlignmentBuffer := packetAlignmentBuffer[offset + 3 := p[3] / 0x10 * 0x10 + state.lastCc];
          continuityCorrections := continuityCorrections + 1;
        }
        continuityCounters := continuityCounters[pid := state];
      }
      ghost var f := FixPacket(old(continuityCounters), p);
      assert continuityCounters == f.counters;
      assert b[..offset] + f.packet + b[offset + PACKET_SIZE..] == packetAlignmentBuffer;
    }

    method ProcessTSPackets(size: nat)
      requires size <= |packetAlignmentBuffer|
      modifies this`packetAlignmentBuffer, this`continuityCounters, this`continuityCorrections
      ensures var r := TsStream.Process(old(continuityCounters), old(packetAlignmentBuffer)[..size]);
              && packetAlignmentBuffer == r.bytes + old(packetAlignmentBuffer)[size..]
              && continuityCounters == r.counters
              && continuityCorrections == old(continuityCorrections) + r.corrections
    {
      hide TsStream.Process, FixPacket, Continues;
      ghost var m, b, k := continuityCounters, packetAlignmentBuffer, continuityCorrections;
      var offset := 0;
      assert b[0..size] == b[..size];
      assert b[..0] == [];
      ContinuesFromStart(TsStream.Process(m, b[..size]));
      while offset + PACKET_SIZE <= size
        invariant 0 <= offset <= size
        invariant |packetAlignmentBuffer| == |b| && packetAlignmentBuffer[offset..] == b[offset..]
        invariant Continues(TsStream.Process(m, b[..size]), packetAlignmentBuffer[..offset], continuityCorrections - k,
                            TsStream.Process(continuityCounters, packetAlignmentBuffer[offset..size]))
      {
        ghost var s := packetAlignmentBuffer[offset..size];
        ghost var before := packetAlignmentBuffer;
        ghost var done := continuityCorrections - k;
        TsStream.ProcessStep(continuityCounters, s);
        if packetAlignmentBuffer[offset] != SYNC {
          assert s[1..] == packetAlignmentBuffer[offset + 1..size];
          Continued(TsStream.Process(m, b[..size]), before[..offset], done, [s[0]], 0,
                    TsStream.Process(continuityCounters, s[1..]));
          offset := offset + 1;
          assert before[..offset] == before[..offset - 1] + [s[0]];
        } else {
          ghost var f := FixPacket(continuityCounters, s[..PACKET_SIZE]);
          Continued(TsStream.Process(m, b[..size]), before[..offset], done, f.packet, if f.corrected then 1 else 0,
                    TsStream.Process(f.counters, s[PACKET_SIZE..]));
          InPlace(before, b, offset, size, f.packet);
          FixPacketAt(offset);
          offset := offset + PACKET_SIZE;
        }
      }
      TsStream.ProcessRest(continuityCounters, packetAlignmentBuffer[offset..size]);
      ContinuesToEnd(TsStream.Process(m, b[..size]), packetAlignmentBuffer[..offset], continuityCorrections - k,
                     continuityCounters, packetAlignmentBuffer[offset..size]);
      Reassembled(packetAlignmentBuffer, b, offset, size);
    }

    // Drops the oldest data when the buffer would outgrow its limit.
    method MakeRoom(size: nat)
      modifies this`packetAlignmentBuffer
      ensures packetAlignmentBuffer == TsStream.MakeRoom(old(packetAlignmentBuffer), size)
    {
      if |packetAlignmentBuffer| + size > TsStream.MAX_BUFFER {
        var drop := |packetAlignmentBuffer| + size - TsStream.MAX_BUFFER;
        drop := (drop / PACKET_SIZE + 1) * PACKET_SIZE;
        if drop < |packetAlignmentBuffer| {
          packetAlignmentBuffer := packetAlignmentBuffer[drop..];
        } else {
          packetAlignmentBuffer := [];
        }
      }
    }

    method WriteWithAlignment(chunk: Bytes) returns (ok: bool)
      modifies this`packetAlignmentBuffer, this`continuityCounters, this`continuityCorrections, this`delivered
      ensures View() == TsStream.WriteWithAlignment(old(View()), chunk)
      ensures ok <==> callback || |packetAlignmentBuffer| < PACKET_SIZE
      ensures old(Valid()) && initialized && !stubMode ==> Valid()
    {
      hide TsStream.Process, TsStream.MakeRoom, Written, LastWritten;
      MakeRoom(|chunk|);
      packetAlignmentBuffer := packetAlignmentBuffer + chunk;
      var complete := |packetAlignmentBuffer| / PACKET_SIZE * PACKET_SIZE;
      if complete > 0 {
        ghost var b := packetAlignmentBuffer;
        ProcessTSPackets(complete);
        if callback {
          delivered := delivered + packetAlignmentBuffer[..complete];
        } else {
          return false;
        }
        packetAlignmentBuffer := packetAlignmentBuffer[complete..];
      }
      return true;
    }

    method HandleAVIOWrite(chunk: Bytes) returns (n: int)
      modifies this`packetAlignmentBuffer, this`continuityCounters, this`continuityCorrections, this`delivered
      ensures View() == (if chunk == [] then old(View()) else TsStream.WriteWithAlignment(old(View()), chunk))
      ensures n == if chunk == [] || callback || |packetAlignmentBuffer| < PACKET_SIZE then |chunk| else -1
      ensures old(Valid()) && initialized && !stubMode ==> Valid()
    {
      if |chunk| == 0 {
        return 0;
      }
      var ok := WriteWithAlignment(chunk);
      if !ok {
        return -1;
      }
      return |chunk|;
    }

    // ---- timestamps ----

    // The PTS and DTS rules for one packet.
    method EnforceMonotonic(t: Times) returns (out: Times)
      modifies this`lastPts90k, this`lastPtsValid, this`lastDts90k, this`lastDtsValid
      ensures out == Normalize(old(LastTimes()), t)
      ensures LastTimes() == Remember(old(LastTimes()), out)
    {
      out := t;
      if out.pts.Some? {
        var pts := out.pts.value;
        if lastPtsValid && pts <= lastPts90k {
          pts := lastPts90k + 1;
          out := out.(pts := Some(pts));
        }
        lastPts90k := pts;
        lastPtsValid := true;
      }
      if out.dts.Some? {
        var dts := out.dts.value;
        if out.pts.Some? && dts > out.pts.value {
          dts := out.pts.value;
          out := out.(dts := Some(dts));
        }
        if lastDtsValid && dts <= lastDts90k {
          dts := lastDts90k + 1;
          out := out.(dts := Some(dts));
          if out.pts.Some? && dts > out.pts.value {
            dts := out.pts.value;
            out := out.(dts := Some(dts));
          }
        }
        lastDts90k := dts;
        lastDtsValid := true;
      }
    }

    // A packet under the rules, on its way to the muxer.
    method HandOver(t: Times)
      requires Valid()
      modifies this`lastPts90k, this`lastPtsValid, this`lastDts90k, this`lastDtsValid, this`events, this`muxed
      ensures Valid() && events == old(events) + [Received(t)]
    {
      var out := EnforceMonotonic(t);
      WrittenSnoc(FRESH, events, Received(t));
      events, muxed := events + [Received(t)], muxed + [out];
    }

    // The receive loop of encodeFrame over the encoder's answers.
    method ReceivePackets(answers: seq<Answer>) returns (ok: bool)
      requires Valid()
      modifies this`lastPts90k, this`lastPtsValid, this`lastDts90k, this`lastDtsValid, this`events, this`muxed
      ensures Valid()
      ensures events == old(events) + AsReceived(Taken(answers, MAX_PACKETS_PER_FRAME))
      ensures ok <==> NoErrorMet(answers, MAX_PACKETS_PER_FRAME)
    {
      hide Written, LastWritten, Taken, AsReceived, EncoderPipeline.Valid;
      var i := 0;
      ghost var done: seq<Times> := [];
      ghost var all := Taken(answers, MAX_PACKETS_PER_FRAME);
      assert answers[0..] == answers;
      SourcesSnoc([], Times(None, None));
      while i < MAX_PACKETS_PER_FRAME && i < |answers| && answers[i].Got?
        invariant Valid() && i == |done| <= |answers| && i <= MAX_PACKETS_PER_FRAME
        invariant done + Taken(answers[i..], MAX_PACKETS_PER_FRAME - i) == all
        invariant events == old(events) + AsReceived(done)
        invariant i > 0 ==> answers[i - 1].Got? && !answers[i - 1].result.Again?
      {
        var t := answers[i].times;
        HandOver(t);
        TakenStep(answers, i, MAX_PACKETS_PER_FRAME - i);
        SourcesSnoc(done, t);
        done := done + [t];
        if answers[i].result.Again? {
          assert done == all;
          return true;
        }
        i := i + 1;
      }
      TakenStep(answers, i, MAX_PACKETS_PER_FRAME - i);
      assert done == all;
      return i == MAX_PACKETS_PER_FRAME || i == |answers| || !answers[i].ReceiveError?;
    }

    // What happens while the encoder refuses a frame: packets go to the muxer
    // with the times they came with.
    method DrainPackets(answers: seq<Answer>)
      requires Valid()
      modifies this`events, this`muxed
      ensures Valid() && events == old(events) + AsDrained(Taken(answers, MAX_DRAIN_ATTEMPTS))
    {
      hide Written, LastWritten, Taken, AsDrained, EncoderPipeline.Valid;
      var i := 0;
      ghost var done: seq<Times> := [];
      ghost var all := Taken(answers, MAX_DRAIN_ATTEMPTS);
      assert answers[0..] == answers;
      SourcesSnoc([], Times(None, None));
      while i < MAX_DRAIN_ATTEMPTS && i < |answers| && answers[i].Got?
        invariant Valid() && i == |done| <= |answers| && i <= MAX_DRAIN_ATTEMPTS
        invariant done + Taken(answers[i..], MAX_DRAIN_ATTEMPTS - i) == all
        invariant events == old(events) + AsDrained(done)
      {
        ghost var t := answers[i].times;
        HandOverAsIs(t);
        TakenStep(answers, i, MAX_DRAIN_ATTEMPTS - i);
        SourcesSnoc(done, t);
        done := done + [t];
        if answers[i].result.Again? {
          assert done == all;
          return;
        }
        i := i + 1;
      }
      TakenStep(answers, i, MAX_DRAIN_ATTEMPTS - i);
      assert done == all;
    }

    ghost method HandOverAsIs(t: Times)
      requires Valid()
      modifies this`events, this`muxed
      ensures Valid() && events == old(events) + [Drained(t)]
    {
      WrittenSnoc(FRESH, events, Drained(t));
      events, muxed := events + [Drained(t)], muxed + [t];
    }

    // `ready` says whether codec, header and picture could be prepared; the
    // other arguments are the encoder's answers. After a refused frame packets
    // are drained and the frame is offered once more.
    method EncodeFrame(ready: bool, first: SendResult, drained: seq<Answer>, second: SendResult, answers: seq<Answer>)
      returns (ok: bool)
      requires Valid()
      modifies this`lastPts90k, this`lastPtsValid, this`lastDts90k, this`lastDtsValid, this`events, this`muxed
      ensures Valid()
      ensures events ==
        old(events) + if initialized && !stubMode && ready then FrameEvents(first, drained, second, answers) else []
      ensures !initialized ==> !ok
      ensures initialized && stubMode ==> ok
      ensures initialized && !stubMode ==>
        (ok <==> ready && match Outcome(first, second)
                          case Sent => NoErrorMet(answers, MAX_PACKETS_PER_FRAME)
                          case Busy => true
                          case SendError => false)
    {
      hide Written, LastWritten, Taken, AsReceived, AsDrained, NoErrorMet, EncoderPipeline.Valid;
      if !initialized {
        return false;
      }
      if stubMode {
        return true;
      }
      if !ready {
        return false;
      }
      var send := first;
      if first.Busy? {
        DrainPackets(drained);
        send := second;
        if send.Busy? {
          return true;
        }
      }
      if send.SendError? {
        return false;
      }
      ok := ReceivePackets(answers);
    }

    // ---- closing ----

    // `flushed` are the encoder's answers at close, `chunks` the bytes the
    // muxer writes for them and for its trailer. An encoder that never says
    // NoMore keeps close from returning; so would an error that repeats for
    // ever. An encoder that never had a frame is not asked: flushed is [NoMore].
    method Close(flushed: seq<Answer>, chunks: seq<Bytes>) returns (returned: bool)
      requires Valid()
      modifies this
      ensures Valid()
      ensures returned <==> !old(initialized) || stubMode || NoMore in flushed
      ensures initialized == (old(initialized) && !returned)
      ensures events == old(events) + if old(initialized) && !stubMode then AsReceived(Flushed(flushed)) else []
      ensures !old(initialized) || stubMode || !returned ==> View() == old(View())
      ensures old(initialized) && !stubMode && returned ==>
        View() == TsStream.Close(if old(callback) then TsStream.WriteAll(old(View()), chunks) else old(View()))
    {
      hide TsStream.Process, TsStream.WriteAll, TsStream.WriteWithAlignment, TsStream.Close, Written, LastWritten,
           Flushed, AsReceived, FirstNoMore, PacketsAt;
      if !initialized {
        return true;
      }
      if stubMode {
        initialized := false;
        return true;
      }
      ghost var n, ks;
      returned, n, ks := FlushEncoder(flushed);
      if !returned {
        return;
      }
      CloseStream(chunks);
      initialized := false;
    }

    method CloseStream(chunks: seq<Bytes>)
      modifies this`packetAlignmentBuffer, this`continuityCounters, this`continuityCorrections, this`delivered,
               this`callback
      ensures packetAlignmentBuffer == [] && !callback
      ensures View() == TsStream.Close(if old(callback) then TsStream.WriteAll(old(View()), chunks) else old(View()))
    {
      hide TsStream.FlushWhole, TsStream.FlushPartial, TsStream.WriteAll;
      if callback {
        WriteChunks(chunks);
      }
      FlushAlignment();
      if callback {
        delivered := delivered + TsStream.NULL_PACKET;
      }
      callback := false;
      continuityCounters := map[];
      continuityCorrections := 0;
    }

    // Every packet before the first NoMore goes to the muxer, in order: the new
    // events are those of the positions ks.
    method FlushEncoder(flushed: seq<Answer>) returns (ended: bool, ghost n: nat, ghost ks: seq<int>)
      requires Valid()
      modifies this`lastPts90k, this`lastPtsValid, this`lastDts90k, this`lastDtsValid, this`events, this`muxed
      ensures Valid()
      ensures events == old(events) + AsReceived(Flushed(flushed))
      ensures FirstNoMore(flushed, n) && PacketsAt(flushed, n, ks)
      ensures |events| == |old(events)| + |ks| && old(events) <= events
      ensures forall j :: 0 <= j < |ks| ==> events[|old(events)| + j] == Received(flushed[ks[j]].times)
      ensures ended <==> NoMore in flushed
    {
      hide Written, LastWritten, PacketsAt;
      var i := 0;
      ghost var done: seq<Times> := [];
      ks := [];
      assert PacketsAt(flushed, 0, []) by {
        NoPacketsYet(flushed);
      }
      while i < |flushed| && !flushed[i].NoMore?
        invariant 0 <= i <= |flushed| && Valid()
        invariant NoMore !in flushed[..i] && PacketsAt(flushed, i, ks)
        invariant |done| == |ks| && forall j :: 0 <= j < |ks| ==> InTimes(flushed, ks[j], done[j])
        invariant done + Flushed(flushed[i..]) == Flushed(flushed)
        invariant events == old(events) + AsReceived(done)
      {
        assert flushed[i..][1..] == flushed[i + 1..];
        PacketsAtNext(flushed, i, ks);
        if flushed[i].Got? {
          HandOver(flushed[i].times);
          done, ks := done + [flushed[i].times], ks + [i];
        }
        i := i + 1;
      }
      assert done == Flushed(flushed);
      PacketsThere(flushed, i, ks);
      n := i;
      ended := i < |flushed|;
    }

    method WriteChunks(chunks: seq<Bytes>)
      requires callback
      modifies this`packetAlignmentBuffer, this`continuityCounters, this`continuityCorrections, this`delivered
      ensures View() == TsStream.WriteAll(old(View()), chunks)
    {
      var i := 0;
      while i < |chunks|
        invariant 0 <= i <= |chunks|
        invariant View() == TsStream.WriteAll(old(View()), chunks[..i])
      {
        var ok := WriteWithAlignment(chunks[i]);
        i := i + 1;
        assert chunks[..i][..i - 1] == chunks[..i - 1];
      }
      assert chunks[..i] == chunks;
    }

    method FlushAlignment()
      modifies this`packetAlignmentBuffer, this`continuityCounters, this`continuityCorrections, this`delivered
      ensures packetAlignmentBuffer == []
      ensures View() == TsStream.FlushPartial(TsStream.FlushWhole(old(View())))
    {
      hide TsStream.Process, TsStream.NullFromPartial;
      if packetAlignmentBuffer != [] {
        var complete := |packetAlignmentBuffer| / PACKET_SIZE * PACKET_SIZE;
        if complete > 0 {
          ProcessTSPackets(complete);
          if callback {
            delivered := delivered + packetAlignmentBuffer[..complete];
          }
          packetAlignmentBuffer := packetAlignmentBuffer[complete..];
        }
        if packetAlignmentBuffer != [] {
          PadPartial();
        }
      }
    }

    // Whatever is left of the last packet goes out as a null packet.
    method PadPartial()
      requires 0 < |packetAlignmentBuffer| < PACKET_SIZE
      modifies this`packetAlignmentBuffer, this`continuityCounters, this`continuityCorrections, this`delivered
      ensures View() == TsStream.FlushPartial(old(View()))
    {
      hide TsStream.Process, TsStream.NullFromPartial;
      ghost var before := View();
      TurnIntoNull();
      assert packetAlignmentBuffer[..PACKET_SIZE] == packetAlignmentBuffer;
      assert packetAlignmentBuffer[PACKET_SIZE..] == [];
      ProcessTSPackets(PACKET_SIZE);
      ghost var r := TsStream.Process(before.counters, TsStream.NullFromPartial(before.buffer));
      assert packetAlignmentBuffer == r.bytes + [] == r.bytes;
      if callback {
        delivered := delivered + packetAlignmentBuffer;
      }
      packetAlignmentBuffer := [];
    }

    // Zero padding, then the header of a null packet over the first four bytes.
    method TurnIntoNull()
      requires 0 < |packetAlignmentBuffer| < PACKET_SIZE
      modifies this`packetAlignmentBuffer
      ensures packetAlignmentBuffer == TsStream.NullFromPartial(old(packetAlignmentBuffer))
    {
      hide TsStream.NullFromPartial, TsStream.Zeros;
      TsStream.PaddedInPlace(packetAlignmentBuffer);
      packetAlignmentBuffer := packetAlignmentBuffer + TsStream.Zeros(PACKET_SIZE - |packetAlignmentBuffer|);
      packetAlignmentBuffer := packetAlignmentBuffer[0 := 0x47][1 := 0x1F][2 := 0xFF][3 := 0x10];
    }
  }

  // ---- what a client sees ----

  // Over any number of sessions the muxer is handed strictly increasing PTS
  // exactly when every packet fits, and always when none was drained; the same
  // for DTS when none was drained and no DTS came without a PTS.
  lemma MuxedInOrder(p: EncoderPipeline)
    requires p.Valid()
    ensures StrictlyIncreasing(PtsOf(p.muxed)) <==> AllPtsFit(FRESH, None, p.events)
    ensures StrictlyIncreasing(DtsOf(p.muxed)) <==> AllDtsFit(FRESH, None, p.events)
    ensures NoneDrained(p.events) ==> StrictlyIncreasing(PtsOf(p.muxed))
    ensures NoneDrained(p.events) && (forall t :: t in TimesOf(p.events) && t.dts.Some? ==> t.pts.Some?)
            ==> StrictlyIncreasing(DtsOf(p.muxed))
  {
    WrittenPtsIncreasing(FRESH, None, p.events);
    WrittenDtsIncreasing(FRESH, None, p.events);
    if NoneDrained(p.events) {
      WrittenReceived(FRESH, p.events);
      PtsStrictlyIncreasing(FRESH, TimesOf(p.events));
      if forall t :: t in TimesOf(p.events) && t.dts.Some? ==> t.pts.Some? {
        NoReclampWithPts(FRESH, TimesOf(p.events));
        DtsStrictlyIncreasing(FRESH, TimesOf(p.events));
      }
    }
  }

  // A whole session, as the muxer drives it: whatever the chunks, before and
  // during close, the callback gets the session's packets and nothing else.
  method Session(p: EncoderPipeline, chunks: seq<Bytes>, flushed: seq<Answer>, trailer: seq<Bytes>)
    requires p.Valid() && !p.initialized && !p.stubMode && NoMore in flushed
    requires forall i :: 0 <= i < |chunks| ==> |chunks[i]| <= TsStream.MAX_BUFFER - (PACKET_SIZE - 1)
    requires forall i :: 0 <= i < |trailer| ==> |trailer[i]| <= TsStream.MAX_BUFFER - (PACKET_SIZE - 1)
    requires TsStream.Synced(TsStream.Concat(chunks + trailer))
    modifies p
    ensures p.Valid() && !p.initialized
    ensures var s := TsStream.Concat(chunks + trailer);
            TsStream.Synced(s[..TsStream.Whole(|s|)]) && p.delivered == TsStream.Flatten(TsStream.SessionPackets(s))
  {
    hide TsStream.Process, TsStream.WriteWithAlignment, TsStream.WriteAll, TsStream.Close, TsStream.SessionPackets,
         TsStream.Flatten, TsStream.Synced, TsStream.Concat, Written, LastWritten;
    var ok := p.Open(true, true);
    TsStream.WriteNothing(TsStream.OPENED);
    assert chunks[..0] == [];
    for i := 0 to |chunks|
      invariant p.Valid() && p.initialized && p.callback && |p.packetAlignmentBuffer| < PACKET_SIZE
      invariant p.View() == TsStream.WriteAll(TsStream.OPENED, chunks[..i])
    {
      ghost var before := p.View();
      var n := p.HandleAVIOWrite(chunks[i]);
      TsStream.WriteSnoc(TsStream.OPENED, chunks, i);
      TsStream.WriteLeavesPartial(before, chunks[i]);
    }
    assert chunks[..|chunks|] == chunks;
    var returned := p.Close(flushed, trailer);
    TsStream.SessionInTwoPhases(chunks, trailer);
  }
}
