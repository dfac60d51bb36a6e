/** What the receiver of each generated packet reads in it, field by field. */
module PacketFields {
  import opened Common
  import opened RoceTypes
  import opened HostMemory
  import opened MemoryRegions
  import opened Sgl
  import opened RocePacket
  import opened RoceQueuePair
  import opened SendRecv
  import opened RdmaWrite
  import opened RdmaRead
  import opened Transport
  import opened Engine

  /** Packet sizes per path MTU code. */
  lemma MtuTable(code: Byte)
    ensures MtuBytes(code) == if 1 <= code <= 5 then [256, 512, 1024, 2048, 4096][code - 1] else 1024
  {
  }

  /** Addressed to the peer under this number, with the default partition key and no congestion marks. */
  predicate Addressed(p: Packet, destQp: U32, psn: int) {
    && p.bth.destQp == destQp % 0x100_0000 && p.bth.psn == psn % 0x100_0000 && p.bth.pkey == 0xFFFF
    && !p.bth.fecn && !p.bth.becn && !p.bth.migReq && p.bth.version == 0
  }

  /** The i-th of n stretches of a message, and the padding announced with it: up to the next multiple of four at the end. */
  predicate CarriesPart(p: Packet, msg: seq<Byte>, mtu: nat, n: nat, i: nat) {
    && i * mtu <= |msg| && |p.payload| == Min(mtu, |msg| - i * mtu) && p.payload == msg[i * mtu..i * mtu + |p.payload|]
    && 0 <= p.bth.padCount < 4 && (if i == n - 1 then (|p.payload| + p.bth.padCount) % 4 == 0 else p.bth.padCount == 0)
  }

  /** Opcodes of a message cut in n packets: the code of its first packet, and the others relative to it. */
  function CodeAt(first: Byte, n: nat, i: nat, immediate: bool): int {
    if n == 1 then first + (if immediate then 5 else 4)
    else if i == 0 then first
    else if i < n - 1 then first + 1
    else first + (if immediate then 3 else 2)
  }

  lemma PadAligns(size: nat)
    ensures 0 <= PadFor(size) < 4 && (size + PadFor(size)) % 4 == 0
  {
  }

  lemma SlicePart(msg: seq<Byte>, mtu: nat, n: nat, i: nat)
    requires i < n && Covers(n, |msg|, mtu)
    ensures var s := Slice(msg, mtu, i); i * mtu <= |msg| && |s| == Min(mtu, |msg| - i * mtu) && s == msg[i * mtu..i * mtu + |s|]
  {
    OffsetStep(n, |msg|, mtu, i);
  }

  /** The i-th packet of a SEND: codes 0 to 5. */
  lemma SendFields(qp: Qp, wqe: SendWqe, msg: seq<Byte>, n: nat, i: nat)
    requires i < n && Covers(n, |msg|, MtuBytes(qp.pathMtu)) && (wqe.opcode.Send? || wqe.opcode.SendImm?)
    ensures var p := Headers(SendBuilder(qp, wqe, msg, n, i));
            && p.bth.opcode == CodeAt(0x00, n, i, wqe.opcode.SendImm?)
            && Addressed(p, qp.destQp, qp.sqPsn + i) && CarriesPart(p, msg, MtuBytes(qp.pathMtu), n, i)
            && (p.bth.ackRequest <==> i == n - 1) && (p.bth.solicited <==> wqe.solicited && i == n - 1)
            && p.immediate == (if wqe.opcode.SendImm? && i == n - 1 then Some(wqe.immediate) else None)
            && p.reth == None && p.aeth == None
  {
    SlicePart(msg, MtuBytes(qp.pathMtu), n, i);
    PadAligns(|Slice(msg, MtuBytes(qp.pathMtu), i)|);
    hide Slice, PadFor, MtuBytes, Covers;
  }

  /** The i-th packet of a WRITE: codes 6 to 11, the first one with the remote address, the key and the whole length. */
  lemma WriteFields(qp: Qp, wqe: SendWqe, msg: seq<Byte>, n: nat, i: nat)
    requires i < n && Covers(n, |msg|, MtuBytes(qp.pathMtu)) && (wqe.opcode.RdmaWrite? || wqe.opcode.RdmaWriteImm?)
    ensures var p := Headers(WriteBuilder(qp, wqe, msg, n, i));
            && p.bth.opcode == CodeAt(0x06, n, i, wqe.opcode.RdmaWriteImm?)
            && Addressed(p, qp.destQp, qp.sqPsn + i) && CarriesPart(p, msg, MtuBytes(qp.pathMtu), n, i)
            && (p.bth.ackRequest <==> i == n - 1) && !p.bth.solicited
            && p.immediate == (if wqe.opcode.RdmaWriteImm? && i == n - 1 then Some(wqe.immediate) else None)
            && p.reth == (if i == 0 then Some(Reth(wqe.remoteAddress, wqe.rkey, wqe.totalLength)) else None) && p.aeth == None
  {
    SlicePart(msg, MtuBytes(qp.pathMtu), n, i);
    PadAligns(|Slice(msg, MtuBytes(qp.pathMtu), i)|);
    hide Slice, PadFor, MtuBytes, Covers;
  }

  /** A READ request: code 12, no payload. */
  lemma RequestFields(destQp: U32, psn: U24, wqe: SendWqe)
    ensures var p := Headers(RequestBuilder(destQp, psn, wqe));
            && p.bth.opcode == 0x0C && Addressed(p, destQp, psn) && !p.bth.ackRequest && !p.bth.solicited && p.bth.padCount == 0
            && p.reth == Some(Reth(wqe.remoteAddress, wqe.rkey, wqe.totalLength))
            && p.aeth == None && p.immediate == None && p.payload == []
  {
  }

  /** The i-th response to a READ: codes 13 to 16, all but the middle ones with a positive syndrome. */
  lemma ResponseFields(qp: Qp, data: seq<Byte>, n: nat, i: nat)
    requires i < n && Covers(n, |data|, MtuBytes(qp.pathMtu))
    ensures var p := Headers(ResponseBuilder(qp, data, n, i));
            && p.bth.opcode == (if n == 1 then 0x10 else if i == 0 then 0x0D else if i < n - 1 then 0x0E else 0x0F)
            && Addressed(p, qp.destQp, qp.sqPsn + i) && CarriesPart(p, data, MtuBytes(qp.pathMtu), n, i)
            && !p.bth.ackRequest && !p.bth.solicited
            && p.aeth == (if 0 < i < n - 1 then None else Some(Aeth(0, 0))) && p.reth == None && p.immediate == None
  {
    SlicePart(data, MtuBytes(qp.pathMtu), n, i);
    PadAligns(|Slice(data, MtuBytes(qp.pathMtu), i)|);
    hide Slice, PadFor, MtuBytes, Covers;
  }

  /** An ACK or NAK: code 17 with the syndrome, under the number it answers. */
  lemma ReplyFields(destQp: U32, r: Reply)
    ensures var p := Headers(AckBuilder(destQp, r));
            && p.bth.opcode == 0x11 && Addressed(p, destQp, r.psn) && !p.bth.ackRequest && p.bth.padCount == 0 && !p.bth.solicited
            && p.aeth == Some(Aeth(r.syndrome, 0)) && p.reth == None && p.immediate == None && p.payload == []
  {
  }

  // ---------------------------------------------------------------------------
  // Completions at the sender
  // ---------------------------------------------------------------------------

  /** One Success completion per retired work request, in order; all of them are reported as SENDs of no bytes. */
  lemma {:induction false} RetiredAt(wrIds: seq<U64>, qpNumber: U32, i: nat)
    requires i < |wrIds|
    ensures |RetiredCqes(wrIds, qpNumber)| == |wrIds|
    ensures RetiredCqes(wrIds, qpNumber)[i] == Cqe(wrIds[i], Success, Send, qpNumber, 0, None, true)
    decreases |wrIds|
  {
    var n := |wrIds| - 1;
    if n == 0 {
      assert RetiredCqes(wrIds[..0], qpNumber) == [];
    } else {
      RetiredAt(wrIds[..n], qpNumber, if i < n then i else 0);
    }
  }

  /** An arrival puts its one reply on the wire, or else its READ responses in order. */
  lemma {:induction false} AnswerAt(destQp: U32, d: Delivery, i: nat)
    requires d.reply.None? ==> i < |d.responses|
    ensures d.reply.Some? ==> Answer(destQp, d) == [Encode(AckBuilder(destQp, d.reply.value))]
    ensures d.reply.None? ==> |Answer(destQp, d)| == |d.responses| && Answer(destQp, d)[i] == Encode(d.responses[i])
  {
    hide Encode;
    if d.reply.None? {
      EncodedAt(d.responses, i);
    }
  }

  lemma {:induction false} EncodedAt(builders: seq<Builder>, i: nat)
    requires i < |builders|
    ensures |Encoded(builders)| == |builders| && Encoded(builders)[i] == Encode(builders[i])
    decreases |builders|
  {
    hide Encode;
    var n := |builders| - 1;
    if n == 0 {
      assert Encoded(builders[..0]) == [];
    } else {
      EncodedAt(builders[..n], if i < n then i else 0);
    }
  }

  // ---------------------------------------------------------------------------
  // READ responses that do not go well
  // ---------------------------------------------------------------------------

  predicate StartsResponse(p: Packet) { p.bth.opcode in {0x0D, 0x10} }

  /** One response to the outstanding READ: ignored, refused by the peer, too much for the list, or stored. */
  lemma ResponseOutcome(h: Host, t: Regions, qpNumber: U32, st: ReadState, p: Packet)
    ensures var r := ProcessReadResponse(h, t, qpNumber, st, p);
            var w := WriteSgl(h, Guarded(t, st.lkey), st.sgl, p.payload, st.cursor);
            if !(0x0D <= p.bth.opcode <= 0x10) || !st.inProgress || (StartsResponse(p) && p.aeth.None?) then
              r.host == h && r.st == st && r.res.cqe == None && !r.res.success && !r.res.complete
            else if StartsResponse(p) && p.aeth.value.syndrome != 0 then
              && r.host == h && !r.st.inProgress && !r.res.success && r.res.complete
              && r.res.cqe == Some(Cqe(st.wrId, RemoteAccessError, RdmaRead, qpNumber, 0, None, true))
            else if w.written != |p.payload| then
              && r.host == w.host && !r.st.inProgress && !r.res.success && r.res.complete
              && r.res.cqe == Some(Cqe(st.wrId, LocalAccessError, RdmaRead, qpNumber, st.bytesReceived, None, true))
            else
              var bytes, ends := (st.bytesReceived + |p.payload|) % 0x1_0000_0000, p.bth.opcode in {0x0F, 0x10};
              && r.host == w.host && r.res.success && (r.res.complete <==> ends) && (r.st.inProgress <==> !ends) && r.st.bytesReceived == bytes
              && r.res.cqe == (if ends then Some(Cqe(st.wrId, Success, RdmaRead, qpNumber, bytes, None, true)) else None)
  {
    hide WriteSgl;
  }
}
