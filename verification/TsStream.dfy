// The byte stream between the muxer and the output callback: reassembly of
// arbitrary chunks into whole packets, the packet loop with its byte-by-byte
// resynchronisation, and the padding written when the stream is closed.
module TsStream {
  import opened TsPacket
  import opened Continuity

  type Bytes = seq<Byte>

  const MAX_BUFFER: nat := 1024 * 1024

  // The part of n that fills whole packets.
  function Whole(n: nat): nat {
    n / PACKET_SIZE * PACKET_SIZE
  }

  datatype Processed = Processed(counters: Counters, bytes: Bytes, corrections: nat)

  // The packet loop over the bytes s. A byte that should open a packet but is
  // not the sync byte is stepped over, one byte at a time.
  function Process(m: Counters, s: Bytes): (r: Processed)
    ensures |r.bytes| == |s|
    decreases |s|
  {
    if |s| < PACKET_SIZE then
      Processed(m, s, 0)
    else if s[0] != SYNC then
      var r := Process(m, s[1..]);
      Processed(r.counters, [s[0]] + r.bytes, r.corrections)
    else
      var f := FixPacket(m, s[..PACKET_SIZE]);
      var r := Process(f.counters, s[PACKET_SIZE..]);
      Processed(r.counters, f.packet + r.bytes, r.corrections + if f.corrected then 1 else 0)
  }

  lemma ProcessStep(m: Counters, s: Bytes)
    requires |s| >= PACKET_SIZE
    ensures s[0] != SYNC ==>
      var r := Process(m, s[1..]);
      Process(m, s) == Processed(r.counters, [s[0]] + r.bytes, r.corrections)
    ensures s[0] == SYNC ==>
      var f := FixPacket(m, s[..PACKET_SIZE]);
      var r := Process(f.counters, s[PACKET_SIZE..]);
      Process(m, s) == Processed(r.counters, f.packet + r.bytes, (if f.corrected then 1 else 0) + r.corrections)
  {
    hide FixPacket;
  }

  lemma ProcessRest(m: Counters, s: Bytes)
    requires |s| < PACKET_SIZE
    ensures Process(m, s) == Processed(m, s, 0)
  {
  }

  // Bytes without a sync byte are passed over one by one: what follows them is
  // found whatever their number, and they go out as they are.
  lemma {:induction false} Resync(m: Counters, junk: Bytes, s: Bytes)
    requires forall i :: 0 <= i < |junk| ==> junk[i] != 0x47
    ensures Process(m, junk + s) == Process(m, s).(bytes := junk + Process(m, s).bytes)
    decreases |junk|
  {
    hide FixPacket;
    if junk == [] {
      assert junk + s == s;
      assert [] + Process(m, s).bytes == Process(m, s).bytes;
    } else if |junk + s| < PACKET_SIZE {
      ProcessRest(m, junk + s);
      ProcessRest(m, s);
    } else {
      ProcessStep(m, junk + s);
      assert (junk + s)[1..] == junk[1..] + s;
      Resync(m, junk[1..], s);
      assert [junk[0]] + (junk[1..] + Process(m, s).bytes) == junk + Process(m, s).bytes;
    }
  }

  // On any bytes, synced or not: only low nibbles change, and no byte moves.
  lemma {:induction false} ProcessTouchesNibbles(m: Counters, s: Bytes)
    ensures forall i :: 0 <= i < |s| ==> Process(m, s).bytes[i] / 0x10 == s[i] / 0x10
    decreases |s|
  {
    hide FixPacket, SameButCounter, LawfulAfter;
    if |s| >= PACKET_SIZE {
      ProcessStep(m, s);
      if s[0] != SYNC {
        ProcessTouchesNibbles(m, s[1..]);
      } else {
        var f := FixPacket(m, s[..PACKET_SIZE]);
        ProcessTouchesNibbles(f.counters, s[PACKET_SIZE..]);
        FixTouchesNibbles(m, s[..PACKET_SIZE]);
      }
    }
  }

  lemma FixTouchesNibbles(m: Counters, p: Packet)
    ensures forall i :: 0 <= i < PACKET_SIZE ==> FixPacket(m, p).packet[i] / 0x10 == p[i] / 0x10
  {
    hide FixPacket;
    FixPacketLawful(m, p);
  }

  // The state that outlives a single write. `delivered` is everything the
  // output callback has been handed.
  datatype Conditioner = Conditioner(
    buffer: Bytes, counters: Counters, corrections: nat, delivered: Bytes, callback: bool)

  const OPENED := Conditioner([], map[], 0, [], true)

  // What is kept of the buffer when `size` more bytes arrive.
  function MakeRoom(buffer: Bytes, size: nat): Bytes {
    if |buffer| + size > MAX_BUFFER then
      var drop := ((|buffer| + size - MAX_BUFFER) / PACKET_SIZE + 1) * PACKET_SIZE;
      if drop < |buffer| then buffer[drop..] else []
    else
      buffer
  }

  function WriteWithAlignment(c: Conditioner, chunk: Bytes): Conditioner {
    var b := MakeRoom(c.buffer, |chunk|) + chunk;
    var full := Whole(|b|);
    if full == 0 then
      c.(buffer := b)
    else
      var r := Process(c.counters, b[..full]);
      if c.callback then
        Conditioner(b[full..], r.counters, c.corrections + r.corrections, c.delivered + r.bytes, true)
      else
        Conditioner(r.bytes + b[full..], r.counters, c.corrections + r.corrections, c.delivered, false)
  }

  function WriteAll(c: Conditioner, chunks: seq<Bytes>): Conditioner {
    if chunks == [] then c
    else WriteWithAlignment(WriteAll(c, chunks[..|chunks| - 1]), chunks[|chunks| - 1])
  }

  lemma WriteNothing(c: Conditioner)
    ensures WriteAll(c, []) == c
  {
  }

  lemma WriteSnoc(c: Conditioner, chunks: seq<Bytes>, i: nat)
    requires i < |chunks|
    ensures WriteAll(c, chunks[..i + 1]) == WriteWithAlignment(WriteAll(c, chunks[..i]), chunks[i])
  {
    assert chunks[..i + 1][..i] == chunks[..i];
  }

  // With a callback a write leaves less than a packet behind; an empty one
  // leaves everything as it is.
  lemma WriteLeavesPartial(c: Conditioner, chunk: Bytes)
    requires c.callback && |c.buffer| < PACKET_SIZE
    ensures |WriteWithAlignment(c, chunk).buffer| < PACKET_SIZE && WriteWithAlignment(c, chunk).callback
    ensures chunk == [] ==> WriteWithAlignment(c, chunk) == c
  {
    hide Process;
  }

  // Writes before close and the muxer's writes during close are one sequence.
  lemma {:induction false} WriteAllConcat(c: Conditioner, early: seq<Bytes>, late: seq<Bytes>)
    ensures WriteAll(WriteAll(c, early), late) == WriteAll(c, early + late)
  {
    hide WriteWithAlignment;
    if late == [] {
      assert early + late == early;
    } else {
      WriteAllConcat(c, early, late[..|late| - 1]);
      assert (early + late)[..|early + late| - 1] == early + late[..|late| - 1];
    }
  }

  // What an overflow drops: the least number of whole packet sizes that is more
  // than the overflow, from the front; everything, if that is no less.
  lemma MakeRoomExactly(buffer: Bytes, size: nat, drop: int)
    ensures |buffer| + size <= 1048576 ==> MakeRoom(buffer, size) == buffer
    ensures |buffer| + size > 1048576 && drop % 188 == 0 && 0 < drop - (|buffer| + size - 1048576) <= 188 ==>
      MakeRoom(buffer, size) == if drop < |buffer| then buffer[drop..] else []
  {
  }

  // Without a callback nothing is delivered and nothing lost: what is there
  // after an overflow drop and the chunk waits, with its counters fixed.
  lemma WriteWithoutCallback(c: Conditioner, chunk: Bytes)
    requires !c.callback
    ensures var d := WriteWithAlignment(c, chunk); var b := MakeRoom(c.buffer, |chunk|) + chunk;
            && d.delivered == c.delivered && !d.callback
            && |d.buffer| == |b| && forall i :: 0 <= i < |b| ==> d.buffer[i] / 16 == b[i] / 16
  {
    hide Process, MakeRoom;
    var b := MakeRoom(c.buffer, |chunk|) + chunk;
    ProcessTouchesNibbles(c.counters, b[..Whole(|b|)]);
  }

  // Chunks of up to 1 MiB never make the buffer outgrow 1 MiB, with or without
  // a callback to take the packets.
  lemma {:induction false} BufferBounded(c: Conditioner, chunks: seq<Bytes>)
    requires |c.buffer| <= MAX_BUFFER && forall i :: 0 <= i < |chunks| ==> |chunks[i]| <= MAX_BUFFER
    ensures |WriteAll(c, chunks).buffer| <= MAX_BUFFER
  {
    hide Process;
    if chunks != [] {
      BufferBounded(c, chunks[..|chunks| - 1]);
      WriteBounded(WriteAll(c, chunks[..|chunks| - 1]), chunks[|chunks| - 1]);
    }
  }

  lemma WriteBounded(c: Conditioner, chunk: Bytes)
    requires |c.buffer| <= MAX_BUFFER && |chunk| <= MAX_BUFFER
    ensures |WriteWithAlignment(c, chunk).buffer| <= MAX_BUFFER
  {
    hide Process;
  }

  // ---- closing ----

  const NULL_HEADER: Bytes := [0x47, 0x1F, 0xFF, 0x10]

  function Zeros(n: nat): (s: Bytes)
    ensures |s| == n && forall i :: 0 <= i < n ==> s[i] == 0
  {
    if n == 0 then [] else [0] + Zeros(n - 1)
  }

  const NULL_PACKET: Packet := NULL_HEADER + Zeros(184)

  // A partial packet padded with zeros and turned into a null packet.
  function NullFromPartial(rest: Bytes): Packet
    requires |rest| < PACKET_SIZE
  {
    NULL_HEADER + (rest + Zeros(PACKET_SIZE - |rest|))[4..]
  }

  // Its bytes: a null header, the partial packet from byte 4 on, zeros.
  lemma NullFromPartialBytes(rest: Bytes)
    requires |rest| < PACKET_SIZE
    ensures var p := NullFromPartial(rest);
            && p[0] == 0x47 && p[1] == 0x1F && p[2] == 0xFF && p[3] == 0x10
            && (forall i :: 4 <= i < |rest| ==> p[i] == rest[i])
            && (forall i :: 4 <= i < 188 && |rest| <= i ==> p[i] == 0)
    ensures NULL_PACKET == NullFromPartial([])
  {
    assert forall i :: 4 <= i < 188 ==> NullFromPartial(rest)[i] == (rest + Zeros(PACKET_SIZE - |rest|))[i];
    assert Zeros(188)[4..] == Zeros(184) by {
      assert forall i :: 0 <= i < 184 ==> Zeros(188)[4..][i] == Zeros(184)[i];
    }
    assert [] + Zeros(188) == Zeros(188);
  }

  lemma PaddedInPlace(rest: Bytes)
    requires 0 < |rest| < PACKET_SIZE
    ensures (rest + Zeros(PACKET_SIZE - |rest|))[0 := 0x47][1 := 0x1F][2 := 0xFF][3 := 0x10] == NullFromPartial(rest)
  {
    hide Zeros;
    var padded := rest + Zeros(PACKET_SIZE - |rest|);
    HeaderInPlace(padded, NULL_HEADER);
  }

  lemma HeaderInPlace(s: Bytes, h: Bytes)
    requires |s| >= 4 && |h| == 4
    ensures s[0 := h[0]][1 := h[1]][2 := h[2]][3 := h[3]] == h + s[4..]
  {
  }

  function Deliver(c: Conditioner, out: Bytes): Conditioner {
    if c.callback then c.(delivered := c.delivered + out) else c
  }

  function FlushWhole(c: Conditioner): Conditioner {
    var full := Whole(|c.buffer|);
    if full == 0 then
      c
    else
      var r := Process(c.counters, c.buffer[..full]);
      Deliver(c, r.bytes).(buffer := c.buffer[full..], counters := r.counters,
                           corrections := c.corrections + r.corrections)
  }

  function FlushPartial(c: Conditioner): Conditioner
    requires |c.buffer| < PACKET_SIZE
  {
    if c.buffer == [] then
      c
    else
      var r := Process(c.counters, NullFromPartial(c.buffer));
      Deliver(c, r.bytes).(buffer := [], counters := r.counters, corrections := c.corrections + r.corrections)
  }

  function Close(c: Conditioner): Conditioner {
    Deliver(FlushPartial(FlushWhole(c)), NULL_PACKET).(counters := map[], corrections := 0, callback := false)
  }

  // On any bytes: with a callback, closing delivers what waits rounded up to
  // whole packets and one packet more; without one, nothing. The session is
  // empty afterwards.
  lemma CloseRounds(c: Conditioner)
    ensures var d := Close(c);
            && d.buffer == [] && d.counters == map[] && d.corrections == 0 && !d.callback
            && c.delivered <= d.delivered
            && |d.delivered| - |c.delivered| == if c.callback then (|c.buffer| + 187) / 188 * 188 + 188 else 0
  {
    hide Process, NullFromPartial;
  }

  // ---- whole packets ----

  // A sync byte at every multiple of the packet size.
  ghost predicate Synced(s: Bytes) {
    forall k :: 0 <= k < |s| && k % PACKET_SIZE == 0 ==> s[k] == SYNC
  }

  function Split(s: Bytes): seq<Packet>
    requires Synced(s)
  {
    if |s| < PACKET_SIZE then
      []
    else
      SyncedDrop(s);
      [s[..PACKET_SIZE]] + Split(s[PACKET_SIZE..])
  }

  function Flatten(ps: seq<Packet>): Bytes {
    if ps == [] then [] else ps[0] + Flatten(ps[1..])
  }

  function Concat(chunks: seq<Bytes>): Bytes {
    if chunks == [] then [] else Concat(chunks[..|chunks| - 1]) + chunks[|chunks| - 1]
  }

  lemma SyncedDrop(s: Bytes)
    requires Synced(s) && |s| >= PACKET_SIZE
    ensures Synced(s[PACKET_SIZE..])
  {
    forall k | 0 <= k < |s| - PACKET_SIZE && k % PACKET_SIZE == 0
      ensures s[PACKET_SIZE..][k] == SYNC
    {
      assert (k + PACKET_SIZE) % PACKET_SIZE == 0;
    }
  }

  lemma SyncedParts(s: Bytes, n: nat)
    requires Synced(s) && n <= |s| && n % PACKET_SIZE == 0
    ensures Synced(s[..n]) && Synced(s[n..])
  {
    forall k | 0 <= k < |s| - n && k % PACKET_SIZE == 0
      ensures s[n..][k] == SYNC
    {
      assert (k + n) % PACKET_SIZE == 0;
    }
  }

  lemma {:induction false} SplitConcat(s: Bytes, n: nat)
    requires Synced(s) && n <= |s| && n % PACKET_SIZE == 0
    requires Synced(s[..n]) && Synced(s[n..])
    ensures Split(s) == Split(s[..n]) + Split(s[n..])
    decreases n
  {
    if n == 0 {
      assert s[0..] == s;
    } else {
      var t := s[PACKET_SIZE..];
      SyncedDrop(s);
      assert s[..n][PACKET_SIZE..] == t[..n - PACKET_SIZE];
      assert s[n..] == t[n - PACKET_SIZE..];
      assert s[..n][..PACKET_SIZE] == s[..PACKET_SIZE];
      SyncedParts(t, n - PACKET_SIZE);
      SplitConcat(t, n - PACKET_SIZE);
    }
  }

  lemma {:induction false} FlattenConcat(ps: seq<Packet>, qs: seq<Packet>)
    ensures Flatten(ps + qs) == Flatten(ps) + Flatten(qs)
  {
    if ps == [] {
      assert ps + qs == qs;
    } else {
      FlattenConcat(ps[1..], qs);
      assert (ps + qs)[1..] == ps[1..] + qs;
      Associative(ps[0], Flatten(ps[1..]), Flatten(qs));
    }
  }

  lemma Associative(a: Bytes, b: Bytes, c: Bytes)
    ensures a + (b + c) == (a + b) + c
  {
  }

  lemma {:induction false} FlattenSynced(ps: seq<Packet>)
    ensures |Flatten(ps)| == PACKET_SIZE * |ps| && Synced(Flatten(ps))
  {
    if ps != [] {
      FlattenSynced(ps[1..]);
      var rest := Flatten(ps[1..]);
      forall k | 0 <= k < |Flatten(ps)| && k % PACKET_SIZE == 0
        ensures Flatten(ps)[k] == SYNC
      {
        if k > 0 {
          assert (k - PACKET_SIZE) % PACKET_SIZE == 0;
          assert Flatten(ps)[k] == rest[k - PACKET_SIZE];
        }
      }
    }
  }

  // On a synced stream the byte loop is the packet-wise fix.
  lemma {:induction false} ProcessSynced(m: Counters, s: Bytes)
    requires Synced(s) && |s| % PACKET_SIZE == 0
    ensures var r := FixAll(m, Split(s));
            Process(m, s) == Processed(r.counters, Flatten(r.packets), r.corrections)
    decreases |s|
  {
    if s != [] {
      var p := s[..PACKET_SIZE];
      SyncedDrop(s);
      var f := FixPacket(m, p);
      ProcessSynced(f.counters, s[PACKET_SIZE..]);
      FixAllConcat(m, [p], Split(s[PACKET_SIZE..]));
      FixAllOne(m, p);
      var r := FixAll(f.counters, Split(s[PACKET_SIZE..]));
      assert ([f.packet] + r.packets)[1..] == r.packets;
    }
  }

  lemma FixAllOne(m: Counters, p: Packet)
    ensures var f := FixPacket(m, p);
            FixAll(m, [p]) == FixedAll(f.counters, [f.packet], if f.corrected then 1 else 0)
  {
    assert [p][..0] == [];
    assert FixAll(m, [p][..0]) == FixedAll(m, [], 0);
  }

  // ---- chunking is invisible ----

  // The state after the bytes s have been written, whatever the chunks.
  ghost predicate Delivered(c: Conditioner, s: Bytes) {
    && Synced(s)
    && Synced(s[..Whole(|s|)])
    && var r := FixAll(map[], Split(s[..Whole(|s|)]));
       c == Conditioner(s[Whole(|s|)..], r.counters, r.corrections, Flatten(r.packets), true)
  }

  lemma {:induction false} ChunkingInvisible(chunks: seq<Bytes>)
    requires forall i :: 0 <= i < |chunks| ==> |chunks[i]| <= MAX_BUFFER - (PACKET_SIZE - 1)
    requires Synced(Concat(chunks))
    ensures Delivered(WriteAll(OPENED, chunks), Concat(chunks))
  {
    var s := Concat(chunks);
    SyncedParts(s, Whole(|s|));
    if chunks == [] {
      assert s[..0] == [];
    } else {
      var init, chunk := chunks[..|chunks| - 1], chunks[|chunks| - 1];
      assert Concat(init) == s[..|Concat(init)|];
      ChunkingInvisible(init);
      WriteKeepsDelivered(WriteAll(OPENED, init), Concat(init), chunk);
    }
  }

  // More whole packets continue the fix where it stopped.
  lemma StreamExtends(a: Bytes, b: Bytes)
    requires Synced(a) && Synced(b) && Synced(a + b)
    requires |a| % PACKET_SIZE == 0 && |b| % PACKET_SIZE == 0
    ensures var r0 := FixAll(map[], Split(a));
            var p := Process(r0.counters, b);
            var r := FixAll(map[], Split(a + b));
            && r.counters == p.counters
            && Flatten(r.packets) == Flatten(r0.packets) + p.bytes
            && r.corrections == r0.corrections + p.corrections
  {
    assert (a + b)[..|a|] == a && (a + b)[|a|..] == b;
    SplitConcat(a + b, |a|);
    var r0 := FixAll(map[], Split(a));
    FixAllConcat(map[], Split(a), Split(b));
    ProcessSynced(r0.counters, b);
    FlattenConcat(r0.packets, FixAll(r0.counters, Split(b)).packets);
  }

  lemma WriteKeepsDelivered(c: Conditioner, s: Bytes, chunk: Bytes)
    requires Delivered(c, s) && Synced(s + chunk)
    requires |chunk| <= MAX_BUFFER - (PACKET_SIZE - 1)
    ensures Delivered(WriteWithAlignment(c, chunk), s + chunk)
  {
    hide Process, FixAll, Split, Flatten, WriteWithAlignment;
    var t := s + chunk;
    var w0, w := Whole(|s|), Whole(|t|);
    WholeSuffix(|s|, |t|);
    SyncedParts(t, w);
    SyncedParts(t[..w], w0);
    var sent, fill := s[..w0], t[w0..w];
    assert t[..w] == sent + fill;
    assert t[..w][w0..] == fill;
    StreamExtends(sent, fill);
    WriteEffect(c, chunk);
    assert c.buffer + chunk == t[w0..];
    assert t[w0..][..w - w0] == fill;
    assert t[w0..][w - w0..] == t[w..];
  }

  // Without overflow a write is one pass over buffer and chunk.
  lemma WriteEffect(c: Conditioner, chunk: Bytes)
    requires c.callback && |c.buffer| < PACKET_SIZE
    requires |chunk| <= MAX_BUFFER - (PACKET_SIZE - 1)
    ensures var b := c.buffer + chunk;
            var full := Whole(|b|);
            var r := Process(c.counters, b[..full]);
            WriteWithAlignment(c, chunk) ==
            Conditioner(b[full..], r.counters, c.corrections + r.corrections, c.delivered + r.bytes, true)
  {
    assert MakeRoom(c.buffer, |chunk|) == c.buffer;
  }

  lemma WholeSuffix(n: nat, m: nat)
    requires n <= m
    ensures Whole(n) <= n && Whole(n) <= Whole(m) && Whole(n) % PACKET_SIZE == 0
    ensures Whole(m - Whole(n)) == Whole(m) - Whole(n)
  {
  }

  // ---- a whole session ----

  // What a session that wrote the bytes s hands to the callback, packet by packet.
  function SessionPackets(s: Bytes): seq<Packet>
    requires Synced(s[..Whole(|s|)])
  {
    var rest := s[Whole(|s|)..];
    FixAll(map[], Split(s[..Whole(|s|)])).packets
    + (if rest == [] then [] else [NullFromPartial(rest)])
    + [NULL_PACKET]
  }

  lemma NullPacketFixed(m: Counters, p: Packet)
    requires IsNull(p)
    ensures Process(m, p) == Processed(m, p, 0)
    ensures forall c :: LawfulAfter(c, p)
  {
    assert p[..PACKET_SIZE] == p;
    assert p + p[PACKET_SIZE..] == p;
  }

  // Open, any number of writes, close: a whole number of packets, each with
  // its sync byte, and the continuity law from the first packet to the last.
  lemma SessionOutput(chunks: seq<Bytes>)
    requires forall i :: 0 <= i < |chunks| ==> |chunks[i]| <= MAX_BUFFER - (PACKET_SIZE - 1)
    requires Synced(Concat(chunks))
    ensures Synced(Concat(chunks)[..Whole(|Concat(chunks)|)])
    ensures var c := Close(WriteAll(OPENED, chunks));
            var out := SessionPackets(Concat(chunks));
            && c == Conditioner([], map[], 0, Flatten(out), false)
            && Lawful(map[], out)
            && |c.delivered| == PACKET_SIZE * |out| && Synced(c.delivered)
  {
    var s := Concat(chunks);
    SyncedParts(s, Whole(|s|));
    ChunkingInvisible(chunks);
    CloseDelivered(WriteAll(OPENED, chunks), s);
  }

  // The same for writes before close and the muxer's own writes during it.
  lemma SessionInTwoPhases(early: seq<Bytes>, late: seq<Bytes>)
    requires forall i :: 0 <= i < |early| ==> |early[i]| <= MAX_BUFFER - (PACKET_SIZE - 1)
    requires forall i :: 0 <= i < |late| ==> |late[i]| <= MAX_BUFFER - (PACKET_SIZE - 1)
    requires Synced(Concat(early + late))
    ensures var s := Concat(early + late);
            && Synced(s[..Whole(|s|)])
            && Close(WriteAll(WriteAll(OPENED, early), late)).delivered == Flatten(SessionPackets(s))
  {
    hide Synced, Close, WriteAll, SessionPackets, Flatten, Concat, Lawful, Whole;
    var s := Concat(early + late);
    WriteAllConcat(OPENED, early, late);
    SessionOutput(early + late);
  }

  lemma CloseDelivered(c: Conditioner, s: Bytes)
    requires Delivered(c, s)
    ensures var out := SessionPackets(s);
            && Close(c) == Conditioner([], map[], 0, Flatten(out), false)
            && Lawful(map[], out)
            && |Flatten(out)| == PACKET_SIZE * |out| && Synced(Flatten(out))
  {
    hide Process, FixAll, Split, Flatten, Lawful, Synced, NullFromPartial;
    var ps := FixAll(map[], Split(s[..Whole(|s|)])).packets;
    FixAllLawful(map[], Split(s[..Whole(|s|)]));
    var qs := if c.buffer == [] then ps else ps + [NullFromPartial(c.buffer)];
    if c.buffer != [] {
      PartialIsNull(c.buffer);
      AppendNull(c.counters, ps, NullFromPartial(c.buffer));
    }
    assert FlushWhole(c) == c;
    AppendNull(map[], qs, NULL_PACKET);
    assert SessionPackets(s) == qs + [NULL_PACKET];
    FlattenSynced(qs + [NULL_PACKET]);
  }

  lemma PartialIsNull(rest: Bytes)
    requires |rest| < PACKET_SIZE
    ensures IsNull(NullFromPartial(rest))
  {
  }

  lemma AppendNull(m: Counters, ps: seq<Packet>, p: Packet)
    requires IsNull(p) && Lawful(map[], ps)
    ensures Process(m, p) == Processed(m, p, 0)
    ensures Lawful(map[], ps + [p])
    ensures Flatten(ps + [p]) == Flatten(ps) + p
  {
    NullPacketFixed(m, p);
    FlattenConcat(ps, [p]);
    assert Flatten([p]) == p;
    LawfulSnoc(map[], ps, p);
  }
}
