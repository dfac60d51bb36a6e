/** The packet on the wire byte by byte, with every code, offset and length written out as a number. */
module WireLayout {
  import opened Common
  import opened RoceTypes
  import opened Bits
  import opened RocePacket
  import Crc

  function Two(v: U16): seq<Byte> { [v / 0x100, v % 0x100] }

  function Three(v: U24): seq<Byte> { [v / 0x1_0000, (v / 0x100) % 0x100, v % 0x100] }

  function Four(v: U32): seq<Byte> { [v / 0x100_0000, (v / 0x1_0000) % 0x100, (v / 0x100) % 0x100, v % 0x100] }

  function Eight(v: U64): seq<Byte> { Four(v / TWO_32) + Four(v % TWO_32) }

  lemma BigEndianTwo(v: U16)
    ensures BigEndian(v, 2) == Two(v)
  {
    BigEndianStep(v, 2);
    BigEndianStep(v / 256, 1);
  }

  lemma BigEndianThree(v: U24)
    ensures BigEndian(v, 3) == Three(v)
  {
    BigEndianStep(v, 3);
    BigEndianTwo(v / 256);
  }

  lemma ShiftedDigits(v: U32)
    ensures (v / 0x100) / 0x1_0000 == v / 0x100_0000 && ((v / 0x100) / 0x100) % 0x100 == (v / 0x1_0000) % 0x100
  {
  }

  lemma BigEndianFour(v: U32)
    ensures BigEndian(v, 4) == Four(v)
  {
    hide BigEndian;
    BigEndianStep(v, 4);
    BigEndianThree(v / 256);
    ShiftedDigits(v);
  }

  /** The last m bytes hold the part below 256^m, the others the rest. */
  lemma {:induction false} BigEndianSplit(a: nat, r: nat, n: nat, m: nat)
    requires r < Pow256(m)
    ensures BigEndian(a * Pow256(m) + r, n + m) == BigEndian(a, n) + BigEndian(r, m)
    decreases m
  {
    hide BigEndian;
    if m == 0 {
      assert BigEndian(r, 0) == [];
    } else {
      var p := Pow256(m - 1);
      var v := a * Pow256(m) + r;
      assert r / 256 < p;
      assert v == (a * p + r / 256) * 256 + r % 256 by { assert a * (256 * p) == a * p * 256; }
      DivUnique(v, 256, a * p + r / 256, r % 256);
      BigEndianStep(v, n + m);
      BigEndianSplit(a, r / 256, n, m - 1);
      BigEndianStep(r, m);
    }
  }

  lemma BigEndianEight(v: U64)
    ensures BigEndian(v, 8) == Eight(v)
  {
    Pow256Four();
    BigEndianSplit(v / TWO_32, v % TWO_32, 4, 4);
    assert v / TWO_32 * TWO_32 + v % TWO_32 == v;
    hide BigEndian;
    BigEndianFour(v / TWO_32);
    BigEndianFour(v % TWO_32);
  }

  /** Bytes in front of the payload, by opcode. */
  function HeaderLength(opcode: Byte): nat {
    match opcode
    case 0x03 => 16
    case 0x05 => 16
    case 0x06 => 28
    case 0x09 => 16
    case 0x0A => 28
    case 0x0B => 32
    case 0x0C => 28
    case 0x0D => 16
    case 0x0F => 16
    case 0x10 => 16
    case 0x11 => 16
    case _ => 12
  }

  function CheckValue(data: seq<Byte>): U32 {
    ByteWidth();
    FromBits(Crc.SerialCrc(data))
  }

  /** Total length, and where the payload and the check value lie. */
  lemma WireLength(b: Builder)
    requires ImmediateSupplied(b)
    ensures var data, n := Encode(b), HeaderLength(b.opcode) + |b.payload|;
            && |data| == n + 4 && data[HeaderLength(b.opcode)..n] == b.payload
            && data[n..] == Four(CheckValue(data[..n]))
  {
    EncodeParts(b);
    ByteWidth();
    BigEndianFour(CheckValue(Body(b)));
    hide BigEndian, BthBytes, RethBytes, AethBytes, ImmBytes;
    var n := HeaderLength(b.opcode) + |b.payload|;
    assert |Body(b)| == n;
    assert Encode(b)[..n] == Body(b) && Encode(b)[n..] == IcrcBytes(Body(b));
  }

  lemma BthLayout(b: Builder)
    ensures BthBytes(b) ==
            [b.opcode, (if b.solicited then 0x80 else 0) + b.padCount * 0x10] + Two(b.pkey)
            + [(if b.fecn then 0x80 else 0) + (if b.becn then 0x40 else 0)] + Three(b.destQp)
            + [if b.ackRequest then 0x80 else 0] + Three(b.psn)
  {
    hide BigEndian, Two, Three;
    BigEndianTwo(b.pkey);
    BigEndianThree(b.destQp);
    BigEndianThree(b.psn);
  }

  lemma BthFirst(b: Builder)
    ensures |Encode(b)| >= 16 && Encode(b)[..12] == BthBytes(b)
  {
    hide BthBytes, BigEndian, RethBytes, AethBytes, ImmBytes;
  }

  /** The twelve bytes every packet starts with. */
  lemma WireBth(b: Builder)
    ensures |Encode(b)| >= 16
    ensures Encode(b)[..12] ==
            [b.opcode, (if b.solicited then 0x80 else 0) + b.padCount * 0x10] + Two(b.pkey)
            + [(if b.fecn then 0x80 else 0) + (if b.becn then 0x40 else 0)] + Three(b.destQp)
            + [if b.ackRequest then 0x80 else 0] + Three(b.psn)
  {
    BthLayout(b);
    BthFirst(b);
    hide Encode, BthBytes, Two, Three;
  }

  /** A WRITE that starts a message, and a READ request, name the remote address, key and length. */
  lemma WireReth(b: Builder)
    requires b.opcode in {0x06, 0x0A, 0x0B, 0x0C}
    ensures |Encode(b)| >= 32
    ensures Encode(b)[12..28] == Eight(b.remoteAddress) + Four(b.rkey) + Four(b.dmaLength)
  {
    BigEndianEight(b.remoteAddress);
    BigEndianFour(b.rkey);
    BigEndianFour(b.dmaLength);
    hide BigEndian, BthBytes;
    assert Encode(b)[12..28] == RethBytes(b) by { hide RethBytes; }
  }

  /** An acknowledgement, and the first, last or only response to a READ, carries syndrome and message number. */
  lemma WireAeth(b: Builder)
    requires b.opcode in {0x0D, 0x0F, 0x10, 0x11}
    ensures |Encode(b)| >= 20 && Encode(b)[12..16] == [b.syndrome] + Three(b.msn)
  {
    BigEndianThree(b.msn);
    hide BigEndian, BthBytes;
    assert Encode(b)[12..16] == AethBytes(b) by { hide AethBytes; }
  }

  /** The immediate comes right before the payload. */
  lemma WireImmediate(b: Builder)
    requires b.opcode in {0x03, 0x05, 0x09, 0x0B} && b.immediate.Some?
    ensures var at := if b.opcode == 0x0B then 28 else 12;
            |Encode(b)| >= at + 8 && Encode(b)[at..at + 4] == Four(b.immediate.value)
  {
    BigEndianFour(b.immediate.value);
    EncodeParts(b);
    hide BigEndian, BthBytes;
  }

  /** The other opcodes have no such header, whatever the builder was given. */
  lemma WirePlain(b: Builder)
    requires HeaderLength(b.opcode) == 12
    ensures |Encode(b)| == 12 + |b.payload| + 4 && Encode(b)[12..12 + |b.payload|] == b.payload
  {
    WireLength(b);
  }
}
