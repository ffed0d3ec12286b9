// The 188-byte MPEG-TS packet as the encoder pipeline reads and writes it:
// header fields of ISO/IEC 13818-1, section 2.4.3.2. Bytes are numbers below
// 256, so the source's masks and shifts read as remainders and quotients.
module TsPacket {

  type Byte = b: int | 0 <= b < 256 witness 0

  // A continuity counter: the low four bits of header byte 3.
  type Nibble = b: int | 0 <= b < 16 witness 0

  type Pid = p: int | 0 <= p < 0x2000 witness 0

  const PACKET_SIZE: nat := 188
  const SYNC: Byte := 0x47
  const NULL_PID: Pid := 0x1FFF

  // A full packet that starts with the sync byte.
  type Packet = p: seq<Byte> | |p| == PACKET_SIZE && p[0] == SYNC
    witness [SYNC] + seq(187, _ => 0)

  // ((p[1] & 0x1F) << 8) | p[2]
  function ExtractPID(p: Packet): Pid {
    var high: int, low: int := p[1], p[2];
    high % 0x20 * 0x100 + low
  }

  // p[3] & 0x0F
  function ExtractContinuityCounter(p: Packet): Nibble {
    p[3] % 0x10
  }

  // Bit 0x20 of byte 3.
  predicate HasAdaptation(p: Packet) {
    p[3] / 0x20 % 2 == 1
  }

  // Bit 0x10 of byte 3.
  predicate HasPayload(p: Packet) {
    p[3] / 0x10 % 2 == 1
  }

  predicate IsNull(p: Packet) {
    ExtractPID(p) == NULL_PID
  }

  // The discontinuity indicator (bit 0x80 of byte 5 of a non-empty adaptation
  // field); never looked up in a null packet.
  predicate Discontinuity(p: Packet) {
    HasAdaptation(p) && !IsNull(p) && p[4] > 0 && p[5] >= 0x80
  }

  // The fields of a header, as section 2.4.3.2 lays them out bit by bit.
  datatype Header = Header(
    transportError: nat, unitStart: nat, priority: nat, pid: nat,
    scrambling: nat, adaptation: nat, payload: nat, counter: nat)

  ghost predicate InRange(h: Header) {
    && h.transportError < 2 && h.unitStart < 2 && h.priority < 2 && h.pid < 0x2000
    && h.scrambling < 4 && h.adaptation < 2 && h.payload < 2 && h.counter < 16
  }

  // The packet carries these fields: one, one, one and thirteen bits in bytes 1
  // and 2, then two, one, one and four in byte 3.
  ghost predicate Carries(p: Packet, h: Header) {
    var high: int, low: int := p[1], p[2];
    && InRange(h)
    && high * 256 + low == h.transportError * 32768 + h.unitStart * 16384 + h.priority * 8192 + h.pid
    && p[3] == h.scrambling * 64 + h.adaptation * 32 + h.payload * 16 + h.counter
  }

  // The readers read those fields and nothing else.
  lemma ReadersReadFields(p: Packet, h: Header)
    requires Carries(p, h)
    ensures ExtractPID(p) == h.pid && ExtractContinuityCounter(p) == h.counter
    ensures HasAdaptation(p) <==> h.adaptation == 1
    ensures HasPayload(p) <==> h.payload == 1
    ensures IsNull(p) <==> h.pid == 8191
    // The first flag of a non-empty adaptation field.
    ensures Discontinuity(p) <==> h.adaptation == 1 && h.pid != 8191 && p[4] != 0 && p[5] / 128 == 1
  {
    assert p[1] == h.transportError * 128 + h.unitStart * 64 + h.priority * 32 + h.pid / 256;
    assert p[2] == h.pid % 256;
    assert p[3] / 0x10 == h.scrambling * 4 + h.adaptation * 2 + h.payload;
    assert p[3] / 0x20 == h.scrambling * 2 + h.adaptation;
  }

  lemma HighBits(high: Byte, low: Byte)
    ensures var b: int := high;
            && b / 128 < 2
            && b * 256 + low == b / 128 * 32768 + b / 64 % 2 * 16384 + b / 32 % 2 * 8192 + (b % 32 * 256 + low)
            && b % 32 * 256 + low < 0x2000
  {
    var b: int := high;
    assert b / 64 == b / 128 * 2 + b / 64 % 2 && b / 32 == b / 64 * 2 + b / 32 % 2;
  }

  lemma FlagBits(flags: Byte)
    ensures var b: int := flags;
            b / 64 < 4 && b == b / 64 * 64 + b / 32 % 2 * 32 + b / 16 % 2 * 16 + b % 16
  {
    var b: int := flags;
    assert b / 32 == b / 64 * 2 + b / 32 % 2 && b / 16 == b / 32 * 2 + b / 16 % 2;
  }

  // Every packet carries some.
  lemma EveryPacketCarries(p: Packet) returns (h: Header)
    ensures Carries(p, h)
  {
    var high: int, flags: int := p[1], p[3];
    HighBits(p[1], p[2]);
    FlagBits(p[3]);
    h := Header(high / 128, high / 64 % 2, high / 32 % 2, high % 32 * 256 + p[2],
                flags / 64, flags / 32 % 2, flags / 16 % 2, flags % 16);
  }

  // p[3] = (p[3] & 0xF0) | c
  function WithCounter(p: Packet, c: Nibble): Packet {
    p[3 := p[3] / 0x10 * 0x10 + c]
  }

  // p and q differ at most in the low nibble of byte 3.
  ghost predicate SameButCounter(p: Packet, q: Packet) {
    && p[3] / 0x10 == q[3] / 0x10
    && forall i :: 0 <= i < PACKET_SIZE && i != 3 ==> p[i] == q[i]
  }

  lemma WithCounterFields(p: Packet, c: Nibble)
    ensures SameButCounter(p, WithCounter(p, c))
    ensures ExtractContinuityCounter(WithCounter(p, c)) == c
  {
  }

  lemma SameButCounterFields(p: Packet, q: Packet)
    requires SameButCounter(p, q)
    ensures ExtractPID(p) == ExtractPID(q) && HasPayload(p) == HasPayload(q)
    ensures Discontinuity(p) == Discontinuity(q)
    ensures ExtractContinuityCounter(p) == ExtractContinuityCounter(q) ==> p == q
  {
    assert p[3] / 0x20 == p[3] / 0x10 / 2 && q[3] / 0x20 == q[3] / 0x10 / 2;
    if ExtractContinuityCounter(p) == ExtractContinuityCounter(q) {
      assert p[3] == q[3];
      assert p == q;
    }
  }
}
