/** RoCEv2 packets: the builder's fields, the byte layout, the parser, and their inverse law. */
module RocePacket {
  import opened Common
  import opened RoceTypes
  import opened Bits
  import Crc

  const BTH_SIZE := 12
  const RETH_SIZE := 16
  const AETH_SIZE := 4
  const IMM_SIZE := 4
  const ICRC_SIZE := 4
  const DEFAULT_PKEY: U16 := 0xFFFF

  /** Base transport header, as the parser reports it. */
  datatype Bth = Bth(opcode: Byte, solicited: bool, migReq: bool, padCount: nat, version: nat, pkey: U16,
                     fecn: bool, becn: bool, destQp: U24, ackRequest: bool, psn: U24)

  datatype Reth = Reth(address: U64, rkey: U32, dmaLength: U32)

  datatype Aeth = Aeth(syndrome: Byte, msn: U24)

  /** A parsed packet. */
  datatype Packet = Packet(bth: Bth, reth: Option<Reth>, aeth: Option<Aeth>, immediate: Option<U32>, payload: seq<Byte>)

  type PadCount = x: int | 0 <= x < 4

  /** The builder's fields after its setters have masked their arguments. */
  datatype Builder = Builder(
    opcode: Byte, destQp: U24, psn: U24, pkey: U16, ackRequest: bool, solicited: bool, padCount: PadCount,
    fecn: bool, becn: bool, remoteAddress: U64, rkey: U32, dmaLength: U32, syndrome: Byte, msn: U24,
    immediate: Option<U32>, payload: seq<Byte>)

  /** A freshly constructed builder with the given opcode, destination and sequence number. */
  function NewBuilder(opcode: Byte, destQp: U32, psn: U24): Builder {
    Builder(opcode, destQp % TWO_24, psn, DEFAULT_PKEY, true, false, 0, false, false, 0, 0, 0, SYNDROME_ACK, 0, None, [])
  }

  predicate NeedsReth(op: Byte) { op in {WRITE_FIRST, WRITE_ONLY, WRITE_ONLY_IMM, READ_REQUEST} }

  predicate NeedsAeth(op: Byte) {
    op in {ACKNOWLEDGE, READ_RESPONSE_FIRST, READ_RESPONSE_LAST, READ_RESPONSE_ONLY}
  }

  predicate HasImmediateVariant(op: Byte) {
    op in {SEND_LAST_IMM, SEND_ONLY_IMM, WRITE_LAST_IMM, WRITE_ONLY_IMM}
  }

  // ---------------------------------------------------------------------------
  // Big-endian numbers
  // ---------------------------------------------------------------------------

  function BigEndian(v: nat, n: nat): (s: seq<Byte>)
    ensures |s| == n
  {
    seq(n, i requires 0 <= i < n => (v / Pow256(n - 1 - i)) % 256)
  }

  function FromBigEndian(s: seq<Byte>): nat {
    if s == [] then 0 else 256 * FromBigEndian(s[..|s| - 1]) + s[|s| - 1]
  }

  function Pow256(n: nat): (p: nat)
    ensures p >= 1
  { 
    if n == 0 then 1 else 256 * Pow256(n - 1)
  }

  lemma BigEndianStep(v: nat, n: nat)
    requires n > 0
    ensures BigEndian(v, n) == BigEndian(v / 256, n - 1) + [v % 256]
  {
    var r := BigEndian(v / 256, n - 1) + [v % 256];
    forall i | 0 <= i < n ensures BigEndian(v, n)[i] == r[i] {
      if i < n - 1 {
        DivDiv(v, 256, Pow256(n - 2 - i));
        assert Pow256(n - 1 - i) == 256 * Pow256(n - 2 - i);
        assert r[i] == BigEndian(v / 256, n - 1)[i] == ((v / 256) / Pow256(n - 2 - i)) % 256;
      } else {
        assert Pow256(n - 1 - i) == 1;
        assert v / 1 == v;
      }
    }
  }

  lemma {:induction false} BigEndianRoundTrip(v: nat, n: nat)
    requires v < Pow256(n)
    ensures FromBigEndian(BigEndian(v, n)) == v
    decreases n
  {
    if n > 0 {
      BigEndianStep(v, n);
      BigEndianRoundTrip(v / 256, n - 1);
      assert BigEndian(v, n)[..n - 1] == BigEndian(v / 256, n - 1);
    }
  }

  lemma {:induction false} FromBigEndianInjective(s: seq<Byte>, t: seq<Byte>)
    requires |s| == |t| && s != t
    ensures FromBigEndian(s) != FromBigEndian(t)
    decreases |s|
  {
    var n := |s|;
    assert n > 0;
    if s[n - 1] == t[n - 1] {
      assert s == s[..n - 1] + [s[n - 1]];
      assert t == t[..n - 1] + [t[n - 1]];
      FromBigEndianInjective(s[..n - 1], t[..n - 1]);
    }
  }

  // ---------------------------------------------------------------------------
  // Layout
  // ---------------------------------------------------------------------------

  function Flag(b: bool, weight: nat): nat { if b then weight else 0 }

  function BthBytes(b: Builder): (s: seq<Byte>)
    ensures |s| == BTH_SIZE
  {
    [b.opcode, Flag(b.solicited, 128) + 16 * b.padCount] + BigEndian(b.pkey, 2)
    + [Flag(b.fecn, 128) + Flag(b.becn, 64)] + BigEndian(b.destQp, 3)
    + [Flag(b.ackRequest, 128)] + BigEndian(b.psn, 3)
  }

  function RethBytes(b: Builder): (s: seq<Byte>)
    ensures |s| == if NeedsReth(b.opcode) then RETH_SIZE else 0
  {
    if NeedsReth(b.opcode) then BigEndian(b.remoteAddress, 8) + BigEndian(b.rkey, 4) + BigEndian(b.dmaLength, 4) else []
  }

  function AethBytes(b: Builder): (s: seq<Byte>)
    ensures |s| == if NeedsAeth(b.opcode) then AETH_SIZE else 0
  {
    if NeedsAeth(b.opcode) then [b.syndrome] + BigEndian(b.msn, 3) else []
  }

  function ImmBytes(b: Builder): (s: seq<Byte>)
    ensures |s| == if b.immediate.Some? && HasImmediateVariant(b.opcode) then IMM_SIZE else 0
  {
    if b.immediate.Some? && HasImmediateVariant(b.opcode) then BigEndian(b.immediate.value, 4) else []
  }

  /** Everything the check value covers. */
  function Body(b: Builder): seq<Byte> {
    BthBytes(b) + RethBytes(b) + AethBytes(b) + ImmBytes(b) + b.payload
  }

  function IcrcBytes(data: seq<Byte>): (s: seq<Byte>)
    ensures |s| == ICRC_SIZE
  {
    BigEndian(FromBits(Crc.SerialCrc(data)), 4)
  }

  /** The packet on the wire. */
  function Encode(b: Builder): seq<Byte> { Body(b) + IcrcBytes(Body(b)) }

  /** Copies data into the packet buffer at offset and returns the offset behind it. */
  method Put(packet: array<Byte>, offset: nat, data: seq<Byte>) returns (next: nat)
    requires offset + |data| <= packet.Length
    modifies packet
    ensures next == offset + |data|
    ensures packet[..next] == old(packet[..offset]) + data
  {
    forall i | 0 <= i < |data| {
      packet[offset + i] := data[i];
    }
    next := offset + |data|;
  }

  /** Lays the headers, the payload and the check value out in one buffer. */
  method Build(b: Builder, table: seq<Word>) returns (packet: array<Byte>)
    requires Crc.IsCrcTable(table)
    ensures packet[..] == Encode(b)
  {
    hide BigEndian;
    hide Crc.SerialCrc;
    hide Crc.IsCrcTable;
    var size := BTH_SIZE + |RethBytes(b)| + |AethBytes(b)| + |ImmBytes(b)| + |b.payload| + ICRC_SIZE;
    packet := new Byte[size](_ => 0);
    var offset := Put(packet, 0, BthBytes(b));
    offset := Put(packet, offset, RethBytes(b));
    offset := Put(packet, offset, AethBytes(b));
    offset := Put(packet, offset, ImmBytes(b));
    offset := Put(packet, offset, b.payload);
    var crc := Crc.Calculate(table, packet[..offset]);
    assert packet[..offset] == Body(b);
    offset := Put(packet, offset, BigEndian(FromBits(crc), 4));
    assert packet[..] == packet[..offset];
  }

  // ---------------------------------------------------------------------------
  // Parser
  // ---------------------------------------------------------------------------

  /** A big-endian field of at most eight bytes. */
  function Field(data: seq<Byte>, offset: nat, n: nat): nat
    requires offset + n <= |data|
  {
    FromBigEndian(data[offset..offset + n])
  }

  lemma {:induction false} FieldBound(s: seq<Byte>)
    ensures FromBigEndian(s) < Pow256(|s|)
    decreases |s|
  {
    if s != [] {
      FieldBound(s[..|s| - 1]);
    }
  }

  function Field16(data: seq<Byte>, offset: nat): U16
    requires offset + 2 <= |data|
  {
    assert Field(data, offset, 2) < 0x1_0000 by { FieldBound(data[offset..offset + 2]); Pow256Four(); }
    Field(data, offset, 2)
  }

  function Field24(data: seq<Byte>, offset: nat): U24
    requires offset + 3 <= |data|
  {
    assert Field(data, offset, 3) < 0x100_0000 by { FieldBound(data[offset..offset + 3]); Pow256Four(); }
    Field(data, offset, 3)
  }

  function Field32(data: seq<Byte>, offset: nat): U32
    requires offset + 4 <= |data|
  {
    assert Field(data, offset, 4) < 0x1_0000_0000 by { FieldBound(data[offset..offset + 4]); Pow256Four(); }
    Field(data, offset, 4)
  }

  function Field64(data: seq<Byte>, offset: nat): U64
    requires offset + 8 <= |data|
  {
    assert Field(data, offset, 8) < 0x1_0000_0000_0000_0000 by { FieldBound(data[offset..offset + 8]); Pow256Four(); }
    Field(data, offset, 8)
  }

  lemma Pow256Four()
    ensures Pow256(2) == 0x1_0000 && Pow256(3) == 0x100_0000
    ensures Pow256(4) == 0x1_0000_0000
    ensures Pow256(8) == 0x1_0000_0000_0000_0000
  {
    assert Pow256(4) == 0x1_0000_0000;
    assert Pow256(6) == 65536 * Pow256(4);
    assert Pow256(8) == 65536 * Pow256(6);
  }

  function ParseBth(data: seq<Byte>): Bth
    requires |data| >= BTH_SIZE
  {
    Bth(data[0], data[1] / 128 == 1, (data[1] / 64) % 2 == 1, (data[1] / 16) % 4, data[1] % 16, Field16(data, 2),
        data[4] / 128 == 1, (data[4] / 64) % 2 == 1, Field24(data, 5), data[8] / 128 == 1, Field24(data, 9))
  }

  function ParseReth(data: seq<Byte>, at: nat): Reth
    requires at + RETH_SIZE <= |data|
  {
    Reth(Field64(data, at), Field32(data, at + 8), Field32(data, at + 12))
  }

  function ParseAeth(data: seq<Byte>, at: nat): Aeth
    requires at + AETH_SIZE <= |data|
  {
    Aeth(data[at], Field24(data, at + 1))
  }

  /** Sizes of the optional headers the parser expects for an opcode. */
  function RethSize(op: Byte): nat { if NeedsReth(op) then RETH_SIZE else 0 }

  function AethSize(op: Byte): nat { if NeedsAeth(op) then AETH_SIZE else 0 }

  function ImmSize(op: Byte): nat { if HasImmediateVariant(op) then IMM_SIZE else 0 }

  /** The parser: header presence follows the opcode alone; the check value is not looked at. */
  function Parse(data: seq<Byte>): (r: Option<Packet>) {
    if |data| < BTH_SIZE + ICRC_SIZE then None else
    var bth := ParseBth(data);
    var end := |data| - ICRC_SIZE;
    var rethAt := BTH_SIZE;
    var aethAt := rethAt + RethSize(bth.opcode);
    if aethAt > end then None else
    var immAt := aethAt + AethSize(bth.opcode);
    if immAt > end then None else
    var payloadAt := immAt + ImmSize(bth.opcode);
    if payloadAt > end then None else
    Some(Packet(
           bth,
           if NeedsReth(bth.opcode) then Some(ParseReth(data, rethAt)) else None,
           if NeedsAeth(bth.opcode) then Some(ParseAeth(data, aethAt)) else None,
           if HasImmediateVariant(bth.opcode) then Some(Field32(data, immAt)) else None,
           data[payloadAt..end]))
  }

  // ---------------------------------------------------------------------------
  // Parser and builder are inverses
  // ---------------------------------------------------------------------------

  /** What a receiver should learn from a built packet. */
  function Headers(b: Builder): Packet {
    Packet(Bth(b.opcode, b.solicited, false, b.padCount, 0, b.pkey, b.fecn, b.becn, b.destQp, b.ackRequest, b.psn),
           if NeedsReth(b.opcode) then Some(Reth(b.remoteAddress, b.rkey, b.dmaLength)) else None,
           if NeedsAeth(b.opcode) then Some(Aeth(b.syndrome, b.msn)) else None,
           if HasImmediateVariant(b.opcode) then b.immediate else None,
           b.payload)
  }

  /** An opcode that announces an immediate was given one. */
  predicate ImmediateSupplied(b: Builder) { HasImmediateVariant(b.opcode) ==> b.immediate.Some? }

  lemma FieldAt(data: seq<Byte>, offset: nat, v: nat, n: nat)
    requires offset + n <= |data|
    requires data[offset..offset + n] == BigEndian(v, n)
    requires v < Pow256(n)
    ensures Field(data, offset, n) == v
  {
    BigEndianRoundTrip(v, n);
  }

  lemma ParseBthBytes(b: Builder, data: seq<Byte>)
    requires BthBytes(b) <= data
    ensures ParseBth(data) == Headers(b).bth
  {
    var bytes := BthBytes(b);
    Pow256Four();
    assert forall i :: 0 <= i < BTH_SIZE ==> data[i] == bytes[i];
    assert data[2..4] == bytes[2..4] == BigEndian(b.pkey, 2);
    FieldAt(data, 2, b.pkey, 2);
    assert data[5..8] == bytes[5..8] == BigEndian(b.destQp, 3);
    FieldAt(data, 5, b.destQp, 3);
    assert data[9..12] == bytes[9..12] == BigEndian(b.psn, 3);
    FieldAt(data, 9, b.psn, 3);
  }

  lemma ParseRethBytes(b: Builder, data: seq<Byte>, at: nat)
    requires NeedsReth(b.opcode)
    requires at + RETH_SIZE <= |data| && data[at..at + RETH_SIZE] == RethBytes(b)
    ensures Some(ParseReth(data, at)) == Headers(b).reth
  {
    var bytes := RethBytes(b);
    Pow256Four();
    assert data[at..at + 8] == bytes[..8] == BigEndian(b.remoteAddress, 8);
    FieldAt(data, at, b.remoteAddress, 8);
    assert data[at + 8..at + 12] == bytes[8..12] == BigEndian(b.rkey, 4);
    FieldAt(data, at + 8, b.rkey, 4);
    assert data[at + 12..at + 16] == bytes[12..16] == BigEndian(b.dmaLength, 4);
    FieldAt(data, at + 12, b.dmaLength, 4);
  }

  lemma ParseAethBytes(b: Builder, data: seq<Byte>, at: nat)
    requires NeedsAeth(b.opcode)
    requires at + AETH_SIZE <= |data| && data[at..at + AETH_SIZE] == AethBytes(b)
    ensures Some(ParseAeth(data, at)) == Headers(b).aeth
  {
    var bytes := AethBytes(b);
    Pow256Four();
    assert data[at] == data[at..at + AETH_SIZE][0] == bytes[0];
    assert data[at + 1..at + 4] == bytes[1..4] == BigEndian(b.msn, 3);
    FieldAt(data, at + 1, b.msn, 3);
  }

  lemma ParseImmBytes(b: Builder, data: seq<Byte>, at: nat)
    requires HasImmediateVariant(b.opcode) && b.immediate.Some?
    requires at + IMM_SIZE <= |data| && data[at..at + IMM_SIZE] == ImmBytes(b)
    ensures Some(Field32(data, at)) == Headers(b).immediate
  {
    Pow256Four();
    FieldAt(data, at, b.immediate.value, 4);
  }

  /** With the announced immediate supplied, parsing returns every field and the exact payload. */
  lemma ParseEncode(b: Builder)
    requires ImmediateSupplied(b)
    ensures Parse(Encode(b)) == Some(Headers(b))
  {
    hide Encode;
    hide BthBytes;
    hide ParseBth;
    hide ParseReth;
    hide ParseAeth;
    hide Field32;
    var data := Encode(b);
    var op := b.opcode;
    var aethAt := BTH_SIZE + RethSize(op);
    var immAt := aethAt + AethSize(op);
    var payloadAt := immAt + ImmSize(op);
    EncodeParts(b);
    ParseBthBytes(b, data);
    if NeedsReth(op) {
      ParseRethBytes(b, data, BTH_SIZE);
    }
    if NeedsAeth(op) {
      ParseAethBytes(b, data, aethAt);
    }
    if HasImmediateVariant(op) {
      ParseImmBytes(b, data, immAt);
    }
    assert Parse(data).Some?;
    assert Parse(data).value.payload == b.payload;
  }

  /** Where each part of a built packet lies. */
  lemma EncodeParts(b: Builder)
    requires ImmediateSupplied(b)
    ensures var data, op := Encode(b), b.opcode;
            var aethAt := BTH_SIZE + RethSize(op);
            var immAt := aethAt + AethSize(op);
            var payloadAt := immAt + ImmSize(op);
            && |data| == payloadAt + |b.payload| + ICRC_SIZE
            && BthBytes(b) <= data
            && data[BTH_SIZE..aethAt] == RethBytes(b)
            && data[aethAt..immAt] == AethBytes(b)
            && data[immAt..payloadAt] == ImmBytes(b)
            && data[payloadAt..|data| - ICRC_SIZE] == b.payload
  {
    hide BigEndian;
    hide Crc.SerialCrc;
    var h1 := BthBytes(b) + RethBytes(b);
    var h2 := h1 + AethBytes(b);
    var h3 := h2 + ImmBytes(b);
    assert Encode(b) == h3 + b.payload + IcrcBytes(Body(b));
  }

  /**
   * Parsing inverts building exactly when an announced immediate was supplied: without it
   * the parser takes payload bytes for the immediate, or rejects the packet.
   */
  lemma CodecRoundTrip(b: Builder)
    ensures Parse(Encode(b)) == Some(Headers(b)) <==> ImmediateSupplied(b)
  {
    if ImmediateSupplied(b) {
      ParseEncode(b);
    } else {
      var data := Encode(b);
      var r := Parse(data);
      assert data[..BTH_SIZE] == BthBytes(b);
      assert data[0] == BthBytes(b)[0] == b.opcode;
      if r.Some? {
        assert |r.value.payload| == |data| - ICRC_SIZE - BTH_SIZE - RethSize(b.opcode) - AethSize(b.opcode) - IMM_SIZE;
        assert |data| == BTH_SIZE + RethSize(b.opcode) + AethSize(b.opcode) + |b.payload| + ICRC_SIZE;
      }
    }
  }

  // ---------------------------------------------------------------------------
  // The check value
  // ---------------------------------------------------------------------------

  /** Receiver-side verification of the trailing check value. */
  predicate VerifyIcrc(packet: seq<Byte>) {
    |packet| >= ICRC_SIZE
    && var n := |packet| - ICRC_SIZE;
       FromBits(Crc.SerialCrc(packet[..n])) == FromBigEndian(packet[n..])
  }

  lemma IcrcReadBack(data: seq<Byte>)
    ensures FromBigEndian(IcrcBytes(data)) == FromBits(Crc.SerialCrc(data))
  {
    ByteWidth();
    Pow256Four();
    BigEndianRoundTrip(FromBits(Crc.SerialCrc(data)), 4);
  }

  /** Every built packet passes verification. */
  lemma BuiltPacketVerifies(b: Builder)
    ensures VerifyIcrc(Encode(b))
  {
    var n := |Body(b)|;
    assert Encode(b)[..n] == Body(b);
    assert Encode(b)[n..] == IcrcBytes(Body(b));
    IcrcReadBack(Body(b));
  }

  /** A built packet with any one byte changed, header, payload or check value, fails verification. */
  lemma CorruptByteRejected(b: Builder, k: nat, v: Byte)
    requires k < |Encode(b)| && v != Encode(b)[k]
    ensures !VerifyIcrc(Encode(b)[k := v])
  {
    var body, packet, bad := Body(b), Encode(b), Encode(b)[k := v];
    var n := |body|;
    IcrcReadBack(body);
    if k < n {
      assert bad[..n] == body[k := v];
      assert bad[n..] == IcrcBytes(body);
      Crc.ByteChangeDetected(body, k, v);
      ToFromBits(Crc.SerialCrc(body));
      ToFromBits(Crc.SerialCrc(body[k := v]));
    } else {
      assert bad[..n] == body;
      assert bad[n..] == IcrcBytes(body)[k - n := v];
      FromBigEndianInjective(IcrcBytes(body), bad[n..]);
    }
  }
}
