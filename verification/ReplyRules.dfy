/** What the responder sends back for each arriving request, read off the state before. */
module ReplyRules {
  import opened Common
  import opened RoceTypes
  import opened HostMemory
  import opened MemoryRegions
  import opened RocePacket
  import opened RoceQueuePair
  import opened SendRecv
  import opened RdmaWrite
  import opened RdmaRead
  import opened Transport
  import Sgl
  import opened LossyDelivery

  predicate EndsMessage(p: Packet) { OpcodeIsLast(p.bth.opcode) || OpcodeIsOnly(p.bth.opcode) }

  predicate IsRequest(p: Packet) { OpcodeIsSend(p.bth.opcode) || OpcodeIsWrite(p.bth.opcode) || p.bth.opcode == READ_REQUEST }

  /** The pair can receive and this is the packet it expects next. */
  predicate InOrder(s: Responder, p: Packet) { s.qp.state in {QpState.Rtr, QpState.Rts} && p.bth.psn == s.qp.rqPsn }

  /**
   * A region of the domain grants the access: it is registered under the key, gives the right,
   * and contains the range, or the range wraps round the address space back into it.
   */
  predicate Allows(t: Regions, rkey: U32, pd: U32, address: U64, length: U64, write: bool) {
    && rkey in t.byRkey
    && var mr := t.byRkey[rkey];
       && mr.pd == pd && (if write then mr.access.remoteWrite else mr.access.remoteRead)
       && (Contains(mr, address, length) || WrapsInside(mr, address, length))
  }

  lemma AllowsIff(t: Regions, rkey: U32, pd: U32, address: U64, length: U64, write: bool)
    ensures ValidateRkey(t, rkey, pd, address, length, write) <==> Allows(t, rkey, pd, address, length, write)
  {
  }

  /** The first or only packet of a WRITE, or a READ request, asks for something it may not have. */
  predicate Forbidden(t: Regions, s: Responder, p: Packet, write: bool)
    requires p.reth.Some?
  {
    !Allows(t, p.reth.value.rkey, s.qp.pd, p.reth.value.address, p.reth.value.dmaLength, write)
  }

  // ---------------------------------------------------------------------------
  // Requests out of order
  // ---------------------------------------------------------------------------

  /** A request to a pair that cannot receive, or with another number than the expected one. */
  lemma RefusedOutOfOrder(t: Regions, s: Responder, p: Packet)
    requires IsRequest(p)
    ensures var reply := Deliver(t, s, p).reply;
            && (s.qp.state !in {QpState.Rtr, QpState.Rts} ==> reply == Some(Reply(p.bth.psn, SYNDROME_INVALID_REQUEST)))
            && (s.qp.state in {QpState.Rtr, QpState.Rts} && p.bth.psn != s.qp.rqPsn ==>
                  reply == Some(Reply(s.qp.rqPsn, SYNDROME_PSN_SEQ_ERROR)))
  {
    hide AcceptSend, AcceptWrite, AnswerRead, ValidateRkey;
  }

  // ---------------------------------------------------------------------------
  // Requests in order
  // ---------------------------------------------------------------------------

  /** A SEND packet in order. */
  lemma SendReply(t: Regions, s: Responder, p: Packet)
    requires OpcodeIsSend(p.bth.opcode) && InOrder(s, p)
    ensures var reply, psn := Deliver(t, s, p).reply, p.bth.psn;
            if Starts(p) && s.qp.recvQueue == [] then reply == Some(Reply(psn, SYNDROME_RNR_NAK))
            else if !Starts(p) && !s.recv.inProgress then reply == Some(Reply(psn, SYNDROME_INVALID_REQUEST))
            else if !Starts(p) && s.recv.expectedPsn != psn then reply == Some(Reply(s.recv.expectedPsn, SYNDROME_PSN_SEQ_ERROR))
            else
              && SendInSequence(s, p)
              && reply == if !SendFits(s, p) then Some(Reply(psn, SYNDROME_REMOTE_ACCESS_ERROR))
                          else if EndsMessage(p) || p.bth.ackRequest then Some(Reply(psn, SYNDROME_ACK)) else None
  {
    hide Sgl.WriteSgl, AdvancePsn, OpcodeIsFirst, OpcodeIsLast, OpcodeIsOnly;
  }

  /** A WRITE packet in order. */
  lemma WriteReply(t: Regions, s: Responder, p: Packet)
    requires OpcodeIsWrite(p.bth.opcode) && InOrder(s, p)
    ensures var reply, psn := Deliver(t, s, p).reply, p.bth.psn;
            if Starts(p) && p.reth.None? then reply == Some(Reply(psn, SYNDROME_INVALID_REQUEST))
            else if Starts(p) && Forbidden(t, s, p, true) then reply == Some(Reply(psn, SYNDROME_REMOTE_ACCESS_ERROR))
            else if !Starts(p) && !s.write.inProgress then reply == Some(Reply(psn, SYNDROME_INVALID_REQUEST))
            else if !Starts(p) && s.write.expectedPsn != psn then reply == Some(Reply(s.write.expectedPsn, SYNDROME_PSN_SEQ_ERROR))
            else
              && WriteInSequence(t, s, p)
              && reply == if !WriteFits(t, s, p) then Some(Reply(psn, SYNDROME_REMOTE_ACCESS_ERROR))
                          else if Starving(t, s, p) then Some(Reply(psn, SYNDROME_RNR_NAK))
                          else if EndsMessage(p) || p.bth.ackRequest then Some(Reply(psn, SYNDROME_ACK)) else None
  {
    if p.reth.Some? {
      AllowsIff(t, p.reth.value.rkey, s.qp.pd, p.reth.value.address, p.reth.value.dmaLength, true);
    }
    hide AdvancePsn, ValidateRkey, Allows, WriteRemote, OpcodeIsFirst, OpcodeIsLast, OpcodeIsOnly;
  }

  /** Every packet's own stretch is checked again: a WRITE packet in sequence fits when its region allows it and memory takes it. */
  lemma WriteFitsIff(t: Regions, s: Responder, p: Packet)
    requires WriteInSequence(t, s, p)
    ensures var base := if Starts(p) then p.reth.value.address else s.write.remoteAddress;
            var key := if Starts(p) then p.reth.value.rkey else s.write.rkey;
            var address := (base + if Starts(p) then 0 else s.write.bytesWritten) % TWO_64;
            WriteFits(t, s, p) <==>
              || p.payload == []
              || (|p.payload| < TWO_64 && Allows(t, key, s.qp.pd, address, |p.payload|, true) && Accessible(s.host, address, |p.payload|))
  {
    var st := WrittenFrom(t, s, p);
    if 0 < |p.payload| < TWO_64 {
      AllowsIff(t, st.rkey, s.qp.pd, Sum64(st.remoteAddress, st.bytesWritten), |p.payload|, true);
    }
    hide Allows, ValidateRkey, Accessible, Starts;
  }

  /** A READ request in order: answered, or refused with one NAK; data that cannot be read is refused after the number has moved on. */
  lemma ReadReply(t: Regions, s: Responder, p: Packet)
    requires p.bth.opcode == READ_REQUEST && InOrder(s, p)
    ensures var d, psn := Deliver(t, s, p), p.bth.psn;
            if p.reth.None? then d.reply == Some(Reply(psn, SYNDROME_INVALID_REQUEST)) && d.responses == []
            else if Forbidden(t, s, p, false) then d.reply == Some(Reply(psn, SYNDROME_REMOTE_ACCESS_ERROR)) && d.responses == []
            else
              && ReadInSequence(t, s, p)
              && var reth := p.reth.value; var mtu := MtuBytes(s.qp.pathMtu);
                 if reth.dmaLength > 0 && (!Accessible(s.host, reth.address, reth.dmaLength) || reth.dmaLength + mtu - 1 >= TWO_32)
                 then d.reply == Some(Reply(psn, SYNDROME_REMOTE_ACCESS_ERROR)) && d.responses == []
                 else d.reply == None && d.responses != []
  {
    if p.reth.Some? {
      var reth := p.reth.value;
      AllowsIff(t, reth.rkey, s.qp.pd, reth.address, reth.dmaLength, false);
      PacketCountExact(reth.dmaLength, MtuBytes(s.qp.pathMtu));
      PacketCountExact(0, MtuBytes(s.qp.pathMtu));
    }
    hide AdvancePsn, ValidateRkey, Allows, ResponseBuilder;
  }

  /** Every request that is not taken draws exactly one refusal and nothing else. */
  lemma RefusedUnlessTaken(t: Regions, s: Responder, p: Packet)
    requires IsRequest(p) && !Taken(t, s, p)
    ensures var d := Deliver(t, s, p); d.reply.Some? && d.reply.value.syndrome != SYNDROME_ACK && d.responses == []
  {
    RefusedOutOfOrder(t, s, p);
    if InOrder(s, p) {
      if OpcodeIsSend(p.bth.opcode) {
        SendReply(t, s, p);
      } else if OpcodeIsWrite(p.bth.opcode) {
        WriteReply(t, s, p);
      } else {
        ReadReply(t, s, p);
      }
    } else {
      NothingAnswered(t, s, p);
    }
    hide Deliver, SendFits, WriteFits, Allows, ValidateRkey, Starts, MtuBytes;
    if p.bth.opcode != READ_REQUEST {
      OnlyReadsAnswer(t, s, p);
    }
  }

  lemma NothingAnswered(t: Regions, s: Responder, p: Packet)
    requires !InOrder(s, p)
    ensures Deliver(t, s, p).responses == []
  {
    hide ProcessRecv, ProcessWrite, AnswerRead, ValidateRkey;
  }

  /**
   * A SEND or WRITE packet that is taken, and is not an immediate without a receive entry, is
   * acknowledged under its own number exactly when it ends its message or asks for it.
   */
  lemma AckedIff(t: Regions, s: Responder, p: Packet)
    requires (OpcodeIsSend(p.bth.opcode) || OpcodeIsWrite(p.bth.opcode)) && Taken(t, s, p) && !Starving(t, s, p)
    ensures Deliver(t, s, p).reply == if EndsMessage(p) || p.bth.ackRequest then Some(Reply(p.bth.psn, SYNDROME_ACK)) else None
  {
    if OpcodeIsSend(p.bth.opcode) {
      SendReply(t, s, p);
    } else {
      WriteReply(t, s, p);
      if p.reth.Some? {
        AllowsIff(t, p.reth.value.rkey, s.qp.pd, p.reth.value.address, p.reth.value.dmaLength, true);
      }
    }
    hide Deliver, SendFits, WriteFits, Allows, ValidateRkey, OpcodeIsFirst, OpcodeIsLast, OpcodeIsOnly, Starving;
  }

  // ---------------------------------------------------------------------------
  // Completions at the responder
  // ---------------------------------------------------------------------------

  /** A SEND is reported once, by the packet that ends it, with the entry, the bytes and the immediate of the whole message. */
  lemma SendReported(s: Responder, p: Packet)
    requires OpcodeIsSend(p.bth.opcode)
    ensures var r, taken := ProcessRecv(s.host, s.qp, s.recv, p).res, SendInSequence(s, p) && SendFits(s, p);
            && (r.success <==> taken) && (r.complete <==> taken && EndsMessage(p)) && (r.cqe.Some? <==> r.complete)
            && (r.cqe.Some? ==>
                  var wrId := if Starts(p) then s.qp.recvQueue[0].wrId else s.recv.wrId;
                  var bytes := ((if Starts(p) then 0 else s.recv.bytesReceived) + |p.payload|) % TWO_32;
                  var immediate := if p.immediate.Some? || Starts(p) then p.immediate else s.recv.immediate;
                  r.cqe.value == Cqe(wrId, Success, if immediate.Some? then SendImm else Send, s.qp.number, bytes, immediate, false))
  {
    hide Sgl.WriteSgl, AdvancePsn, OpcodeIsFirst, OpcodeIsLast, OpcodeIsOnly;
  }

  /** A WRITE is reported only with an immediate, by the packet that ends it, through the oldest receive entry. */
  lemma WriteReported(t: Regions, s: Responder, p: Packet)
    requires OpcodeIsWrite(p.bth.opcode)
    ensures var r, taken := ProcessWrite(s.host, t, s.qp, s.write, p).res, WriteInSequence(t, s, p) && WriteFits(t, s, p);
            var immediate := if p.immediate.Some? || Starts(p) then p.immediate else s.write.immediate;
            && (r.complete <==> taken && EndsMessage(p))
            && (r.success <==> taken && !(EndsMessage(p) && immediate.Some? && s.qp.recvQueue == []))
            && (r.cqe.Some? <==> r.success && EndsMessage(p) && immediate.Some?)
            && (r.cqe.Some? ==>
                  var bytes := ((if Starts(p) then 0 else s.write.bytesWritten) + |p.payload|) % TWO_32;
                  r.cqe.value == Cqe(s.qp.recvQueue[0].wrId, Success, RdmaWriteImm, s.qp.number, bytes, immediate, false))
  {
    hide AdvancePsn, ValidateRkey, WriteRemote, OpcodeIsFirst, OpcodeIsLast, OpcodeIsOnly;
  }
}
