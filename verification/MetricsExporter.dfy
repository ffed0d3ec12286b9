// The exporter as an object: with no worker running a call writes the maps at
// once; otherwise it queues an event, which the worker applies later. The
// calls here run one at a time; ExporterThreads interleaves them.
module MetricsExporter {
  import opened MetricsStore
  import FrameRingBuffer

  const QUEUE_SLOTS: nat := 1024

  datatype Snapshot = Snapshot(
    running: bool, stopRequested: bool, store: Store, queue: seq<Event>, overflow: nat, submitted: nat, processed: nat)

  // A call either acts on the store now, or waits at the end of the queue, or
  // is refused by a full queue and leaves no trace but the overflow count.
  ghost predicate Submitted(before: Snapshot, after: Snapshot, e: Event, accepted: bool) {
    if !before.running then
      accepted && after == before.(store := ProcessEvent(before.store, e))
    else if |before.queue| < QUEUE_SLOTS - 1 then
      accepted && after == before.(queue := before.queue + [e], submitted := before.submitted + 1)
    else
      !accepted && after == before.(overflow := before.overflow + 1)
  }

  class MetricsExporter {
    // The event queue is the frame ring buffer's ring, with 1024 slots in all.
    const eventQueue: FrameRingBuffer.FrameRingBuffer<Event>
    var running: bool
    var stopRequested: bool
    var queueOverflowTotal: nat
    var submittedEvents: nat
    var processedEvents: nat
    var channelMetrics: map<int, ChannelMetrics>
    var descriptorVersions: map<string, string>
    var descriptorDeprecated: map<string, bool>
    var transportData: map<Transport, TransportData>

    function View(): Store
      reads this
    {
      Store(channelMetrics, descriptorVersions, descriptorDeprecated, transportData)
    }

    ghost predicate Valid()
      reads this, eventQueue, eventQueue.buffer
    {
      && eventQueue.Valid() && eventQueue.capacity == QUEUE_SLOTS
      && submittedEvents == processedEvents + |eventQueue.Contents()|
    }

    // The store as it will be when the queue has drained.
    ghost function Settled(): Store
      requires Valid()
      reads this, eventQueue, eventQueue.buffer
    {
      Fold(View(), eventQueue.Contents())
    }

    constructor ()
      ensures Valid() && fresh(eventQueue) && fresh(eventQueue.buffer)
      ensures View() == EMPTY && eventQueue.Contents() == [] && !running
    {
      eventQueue := new FrameRingBuffer.FrameRingBuffer<Event>(QUEUE_SLOTS - 1, RemoveChannel(0));
      running, stopRequested := false, false;
      queueOverflowTotal, submittedEvents, processedEvents := 0, 0, 0;
      channelMetrics, descriptorVersions, descriptorDeprecated, transportData := map[], map[], map[], map[];
    }

    // httpFails: an HTTP server is wanted and cannot start.
    method Start(httpFails: bool) returns (started: bool)
      requires Valid()
      modifies this`running, this`stopRequested
      ensures Valid()
      ensures started <==> !old(running) && !httpFails
      ensures running == (old(running) || started)
      ensures stopRequested == (old(running) && old(stopRequested))
    {
      if running {
        return false;
      }
      running := true;
      stopRequested := false;
      if httpFails {
        running := false;
        return false;
      }
      return true;
    }

    // The queued half of every submit method.
    method Enqueue(e: Event) returns (accepted: bool)
      requires Valid()
      modifies this`queueOverflowTotal, this`submittedEvents, eventQueue, eventQueue.buffer
      ensures Valid()
      ensures accepted <==> |old(eventQueue.Contents())| < 1023
      ensures eventQueue.Contents() == old(eventQueue.Contents()) + if accepted then [e] else []
      ensures submittedEvents == old(submittedEvents) + (if accepted then 1 else 0)
      ensures queueOverflowTotal == old(queueOverflowTotal) + (if accepted then 0 else 1)
    {
      accepted := eventQueue.Push(e);
      if !accepted {
        queueOverflowTotal := queueOverflowTotal + 1;
        return;
      }
      submittedEvents := submittedEvents + 1;
    }

    // Everything about the exporter that calls and worker change.
    ghost function Now(): Snapshot
      requires Valid()
      reads this, eventQueue, eventQueue.buffer
    {
      Snapshot(running, stopRequested, View(), eventQueue.Contents(), queueOverflowTotal, submittedEvents,
               processedEvents)
    }

    method SubmitChannelMetrics(channel: int, metrics: ChannelMetrics) returns (accepted: bool)
      requires Valid()
      modifies this, eventQueue, eventQueue.buffer
      ensures Valid()
      ensures Submitted(old(Now()), Now(), UpdateChannel(channel, metrics), accepted)
    {
      if !running {
        channelMetrics := channelMetrics[channel := metrics];
        return true;
      }
      accepted := Enqueue(UpdateChannel(channel, metrics));
    }

    method SubmitChannelRemoval(channel: int)
      requires Valid()
      modifies this, eventQueue, eventQueue.buffer
      ensures Valid()
      ensures exists accepted :: Submitted(old(Now()), Now(), RemoveChannel(channel), accepted)
    {
      if !running {
        channelMetrics := channelMetrics - {channel};
        assert Submitted(old(Now()), Now(), RemoveChannel(channel), true);
        return;
      }
      var accepted := Enqueue(RemoveChannel(channel));
      assert Submitted(old(Now()), Now(), RemoveChannel(channel), accepted);
    }

    method RegisterMetricDescriptor(name: string, version: string)
      requires Valid()
      modifies this, eventQueue, eventQueue.buffer
      ensures Valid()
      ensures exists accepted ::
        Submitted(old(Now()), Now(), RegisterDescriptor(name, version), accepted)
    {
      if !running {
        descriptorVersions := descriptorVersions[name := version];
        descriptorDeprecated := descriptorDeprecated[name := false];
        assert Submitted(old(Now()), Now(), RegisterDescriptor(name, version), true);
        return;
      }
      var accepted := Enqueue(RegisterDescriptor(name, version));
      assert Submitted(old(Now()), Now(), RegisterDescriptor(name, version), accepted);
    }

    method DeprecateMetricDescriptor(name: string)
      requires Valid()
      modifies this, eventQueue, eventQueue.buffer
      ensures Valid()
      ensures exists accepted :: Submitted(old(Now()), Now(), DeprecateDescriptor(name), accepted)
    {
      if !running {
        descriptorDeprecated := descriptorDeprecated[name := true];
        assert Submitted(old(Now()), Now(), DeprecateDescriptor(name), true);
        return;
      }
      var accepted := Enqueue(DeprecateDescriptor(name));
      assert Submitted(old(Now()), Now(), DeprecateDescriptor(name), accepted);
    }

    method RecordDeliveryStatus(transport: Transport, success: bool, latencyMs: real)
      requires Valid()
      modifies this, eventQueue, eventQueue.buffer
      ensures Valid()
      ensures exists accepted ::
        Submitted(old(Now()), Now(), RecordTransport(transport, success, latencyMs), accepted)
    {
      if !running {
        var data := if transport in transportData then transportData[transport] else TransportData(0, 0, []);
        data := data.(latenciesMs := data.latenciesMs + [latencyMs]);
        if success {
          data := data.(deliveries := data.deliveries + 1);
        } else {
          data := data.(failures := data.failures + 1);
        }
        transportData := transportData[transport := data];
        assert Submitted(old(Now()), Now(), RecordTransport(transport, success, latencyMs), true);
        return;
      }
      var accepted := Enqueue(RecordTransport(transport, success, latencyMs));
      assert Submitted(old(Now()), Now(), RecordTransport(transport, success, latencyMs),
                       accepted);
    }

    method ProcessNext() returns (worked: bool)
      requires Valid()
      modifies this`processedEvents, this`channelMetrics, this`descriptorVersions, this`descriptorDeprecated,
               this`transportData, eventQueue
      ensures Valid()
      ensures worked <==> old(eventQueue.Contents()) != []
      ensures !worked ==> View() == old(View()) && eventQueue.Contents() == []
      ensures worked ==>
        && View() == ProcessEvent(old(View()), old(eventQueue.Contents())[0])
        && eventQueue.Contents() == old(eventQueue.Contents())[1..]
        && processedEvents == old(processedEvents) + 1
    {
      var event := eventQueue.Pop();
      if event.None? {
        return false;
      }
      match event.value {
        case UpdateChannel(c, m) =>
          channelMetrics := channelMetrics[c := m];
        case RemoveChannel(c) =>
          channelMetrics := channelMetrics - {c};
        case RegisterDescriptor(n, v) =>
          descriptorVersions := descriptorVersions[n := v];
          descriptorDeprecated := descriptorDeprecated[n := false];
        case DeprecateDescriptor(n) =>
          descriptorDeprecated := descriptorDeprecated[n := true];
        case RecordTransport(t, ok, ms) =>
          var data := if t in transportData then transportData[t] else TransportData(0, 0, []);
          data := data.(latenciesMs := data.latenciesMs + [ms]);
          if ok {
            data := data.(deliveries := data.deliveries + 1);
          } else {
            data := data.(failures := data.failures + 1);
          }
          transportData := transportData[t := data];
      }
      processedEvents := processedEvents + 1;
      return true;
    }

    // Stop waits for the worker, whose loop ends only on an empty queue:
    // everything accepted before has been applied, in order.
    method Stop()
      requires Valid()
      modifies this, eventQueue
      ensures Valid() && !running && stopRequested == (old(running) || old(stopRequested))
      ensures queueOverflowTotal == old(queueOverflowTotal) && submittedEvents == old(submittedEvents)
      ensures old(running) ==>
        eventQueue.Contents() == [] && View() == old(Settled()) && processedEvents == submittedEvents
      ensures !old(running) ==> View() == old(View()) && eventQueue.Contents() == old(eventQueue.Contents())
    {
      if !running {
        return;
      }
      running := false;
      stopRequested := true;
      var worked := true;
      while worked
        invariant Valid() && !running && stopRequested
        invariant queueOverflowTotal == old(queueOverflowTotal) && submittedEvents == old(submittedEvents)
        invariant Settled() == old(Settled())
        invariant !worked ==> eventQueue.Contents() == []
        decreases |eventQueue.Contents()|, worked
      {
        ghost var store, queue := View(), eventQueue.Contents();
        worked := ProcessNext();
        if worked {
          FoldCons(store, queue[0], queue[1..]);
          assert queue == [queue[0]] + queue[1..];
        }
      }
    }
  }
}
