// What the metrics exporter keeps, and what one event does to it.
module MetricsStore {

  datatype ChannelState = STOPPED | BUFFERING | READY | ERROR_STATE

  datatype ChannelMetrics = ChannelMetrics(
    state: ChannelState, bufferDepthFrames: nat, frameGapSeconds: real, decodeFailureCount: nat, correctionsTotal: nat)

  datatype Transport = GrpcStream | Scrape | File

  datatype TransportData = TransportData(deliveries: nat, failures: nat, latenciesMs: seq<real>)

  datatype Event =
    | UpdateChannel(channel: int, metrics: ChannelMetrics)
    | RemoveChannel(channel: int)
    | RegisterDescriptor(name: string, version: string)
    | DeprecateDescriptor(name: string)
    | RecordTransport(transport: Transport, success: bool, latencyMs: real)

  datatype Store = Store(
    channels: map<int, ChannelMetrics>,
    versions: map<string, string>,
    deprecated: map<string, bool>,
    transports: map<Transport, TransportData>)

  const EMPTY := Store(map[], map[], map[], map[])

  function ProcessEvent(s: Store, e: Event): Store {
    match e
    case UpdateChannel(c, m) => s.(channels := s.channels[c := m])
    case RemoveChannel(c) => s.(channels := s.channels - {c})
    case RegisterDescriptor(n, v) => s.(versions := s.versions[n := v], deprecated := s.deprecated[n := false])
    case DeprecateDescriptor(n) => s.(deprecated := s.deprecated[n := true])
    case RecordTransport(t, ok, ms) =>
      var d := if t in s.transports then s.transports[t] else TransportData(0, 0, []);
      var d' := d.(latenciesMs := d.latenciesMs + [ms]);
      s.(transports := s.transports[t :=
           if ok then d'.(deliveries := d.deliveries + 1) else d'.(failures := d.failures + 1)])
  }

  function Fold(s: Store, es: seq<Event>): Store {
    if es == [] then s else ProcessEvent(Fold(s, es[..|es| - 1]), es[|es| - 1])
  }

  lemma FoldSnoc(s: Store, es: seq<Event>, e: Event)
    ensures Fold(s, es + [e]) == ProcessEvent(Fold(s, es), e)
  {
    assert (es + [e])[..|es|] == es;
  }

  lemma {:induction false} FoldCons(s: Store, e: Event, es: seq<Event>)
    ensures Fold(s, [e] + es) == Fold(ProcessEvent(s, e), es)
  {
    if es == [] {
      assert [e] + es == [e];
      FoldSnoc(s, [], e);
      assert [] + [e] == [e];
    } else {
      var init := es[..|es| - 1];
      FoldCons(s, e, init);
      assert ([e] + es)[..|es|] == [e] + init;
    }
  }

  // ---- what a sequence of events leaves behind ----

  ghost predicate IsRecord(e: Event, t: Transport) {
    e.RecordTransport? && e.transport == t
  }

  // The positions of t's deliveries, or failures.
  ghost function Records(es: seq<Event>, t: Transport, success: bool): set<int> {
    set i | 0 <= i < |es| && IsRecord(es[i], t) && es[i].success == success
  }

  // The latencies recorded for t, in order.
  ghost function Latencies(es: seq<Event>, t: Transport): seq<real> {
    if es == [] then []
    else
      var e := es[|es| - 1];
      Latencies(es[..|es| - 1], t) + if IsRecord(e, t) then [e.latencyMs] else []
  }

  lemma RecordsSnoc(es: seq<Event>, e: Event, t: Transport, success: bool)
    ensures |Records(es + [e], t, success)| ==
            |Records(es, t, success)| + if IsRecord(e, t) && e.success == success then 1 else 0
  {
    var all, before := Records(es + [e], t, success), Records(es, t, success);
    assert forall i :: 0 <= i < |es| ==> (es + [e])[i] == es[i];
    assert (es + [e])[|es|] == e;
    if IsRecord(e, t) && e.success == success {
      assert all == before + {|es|};
    } else {
      assert all == before;
    }
  }

  // A transport is known once recorded; it has as many deliveries and failures
  // as there were successful and failed records, and all their latencies.
  lemma {:induction false} TransportLeft(es: seq<Event>, t: Transport)
    ensures var s := Fold(EMPTY, es);
            && (t in s.transports <==> exists i :: 0 <= i < |es| && IsRecord(es[i], t))
            && (t in s.transports ==>
                  && s.transports[t].deliveries == |Records(es, t, true)|
                  && s.transports[t].failures == |Records(es, t, false)|
                  && s.transports[t].latenciesMs == Latencies(es, t))
            && (t !in s.transports ==>
                  |Records(es, t, true)| == |Records(es, t, false)| == 0 && Latencies(es, t) == [])
  {
    if es == [] {
      assert Records(es, t, true) == {} && Records(es, t, false) == {};
    } else {
      var init, e := es[..|es| - 1], es[|es| - 1];
      TransportLeft(init, t);
      assert es == init + [e];
      RecordsSnoc(init, e, t, true);
      RecordsSnoc(init, e, t, false);
      assert forall i :: 0 <= i < |init| ==> init[i] == es[i];
    }
  }

  ghost predicate Touches(e: Event, channel: int) {
    (e.UpdateChannel? || e.RemoveChannel?) && e.channel == channel
  }

  // Event i is the last one that concerns the channel.
  ghost predicate LastTouch(es: seq<Event>, i: int, channel: int) {
    0 <= i < |es| && Touches(es[i], channel) && forall k :: i < k < |es| ==> !Touches(es[k], channel)
  }

  // A channel has the metrics of its last update, if no removal followed.
  lemma {:induction false} ChannelLeft(es: seq<Event>, channel: int, i: int)
    ensures LastTouch(es, i, channel) ==>
            if es[i].UpdateChannel?
            then channel in Fold(EMPTY, es).channels && Fold(EMPTY, es).channels[channel] == es[i].metrics
            else channel !in Fold(EMPTY, es).channels
    ensures (forall k :: 0 <= k < |es| ==> !Touches(es[k], channel)) ==> channel !in Fold(EMPTY, es).channels
  {
    if es != [] {
      ChannelLeft(es[..|es| - 1], channel, i);
    }
  }

  ghost predicate Registers(e: Event, name: string) {
    e.RegisterDescriptor? && e.name == name
  }

  ghost predicate Describes(e: Event, name: string) {
    Registers(e, name) || (e.DeprecateDescriptor? && e.name == name)
  }

  // A descriptor has its last registered version, and no other has one.
  lemma {:induction false} VersionLeft(es: seq<Event>, name: string, i: int)
    ensures 0 <= i < |es| && Registers(es[i], name) && (forall k :: i < k < |es| ==> !Registers(es[k], name)) ==>
            name in Fold(EMPTY, es).versions && Fold(EMPTY, es).versions[name] == es[i].version
    ensures (forall k :: 0 <= k < |es| ==> !Registers(es[k], name)) ==> name !in Fold(EMPTY, es).versions
  {
    if es != [] {
      VersionLeft(es[..|es| - 1], name, i);
    }
  }

  // It is deprecated exactly when its last event is a deprecation, and unknown
  // without any.
  lemma {:induction false} DeprecationLeft(es: seq<Event>, name: string, i: int)
    ensures 0 <= i < |es| && Describes(es[i], name) && (forall k :: i < k < |es| ==> !Describes(es[k], name)) ==>
            && name in Fold(EMPTY, es).deprecated
            && (Fold(EMPTY, es).deprecated[name] <==> es[i].DeprecateDescriptor?)
    ensures (forall k :: 0 <= k < |es| ==> !Describes(es[k], name)) ==> name !in Fold(EMPTY, es).deprecated
  {
    if es != [] {
      DeprecationLeft(es[..|es| - 1], name, i);
    }
  }
}
