/** The engine: dispatches arriving packets to the processors, and posted work to packets and pending entries. */
module Engine {
  import opened Common
  import Bits
  import Crc
  import opened RoceTypes
  import opened HostMemory
  import opened MemoryRegions
  import opened Sgl
  import opened RocePacket
  import opened RoceQueuePair
  import opened SendRecv
  import opened RdmaWrite
  import opened RdmaRead
  import opened Transport
  import opened Connection
  import opened Reliability
  import Dcqcn

  /** An acknowledgement or refusal packet. */
  function AckBuilder(destQp: U32, r: Reply): Builder {
    NewBuilder(ACKNOWLEDGE, destQp, r.psn).(ackRequest := false, syndrome := r.syndrome, msn := 0)
  }

  function Encoded(builders: seq<Builder>): seq<seq<Byte>> {
    if builders == [] then [] else Encoded(builders[..|builders| - 1]) + [Encode(builders[|builders| - 1])]
  }

  /** What an arrival puts on the wire: the reply, or the READ responses. */
  function Answer(destQp: U32, d: Delivery): seq<seq<Byte>> {
    if d.reply.Some? then [Encode(AckBuilder(destQp, d.reply.value))] else Encoded(d.responses)
  }

  /** A completed send work request. */
  function RetiredCqe(wrId: U64, qpNumber: U32): Cqe { Cqe(wrId, Success, Send, qpNumber, 0, None, true) }

  function FailedCqe(status: WqeStatus, qpNumber: U32): Cqe { Cqe(0, status, Send, qpNumber, 0, None, true) }

  function RetiredCqes(wrIds: seq<U64>, qpNumber: U32): seq<Cqe> {
    if wrIds == [] then [] else RetiredCqes(wrIds[..|wrIds| - 1], qpNumber) + [RetiredCqe(wrIds[|wrIds| - 1], qpNumber)]
  }

  class RdmaEngine {
    const sendRecv: SendRecvProcessor
    const writer: WriteProcessor
    const reader: ReadProcessor
    const reliability: ReliabilityManager
    const congestion: Dcqcn.CongestionControlManager
    const crcTable: seq<Bits.Word>
    var outgoing: seq<seq<Byte>>
    var cqs: map<U32, seq<Cqe>>

    constructor (mem: SimpleHostMemory, table: MemoryRegionTable, crcTable: seq<Bits.Word>, config: Config, dcqcn: Dcqcn.Config)
      requires Crc.IsCrcTable(crcTable)
      ensures Wired() && sendRecv.mem == mem && sendRecv.table == table && reliability.config == config
      ensures outgoing == [] && cqs == map[] && reliability.pendingOps == map[]
      ensures congestion.cfg == dcqcn && congestion.flows == map[] && congestion.now == 0
    {
      sendRecv := new SendRecvProcessor(mem, table, crcTable);
      writer := new WriteProcessor(mem, table, crcTable);
      reader := new ReadProcessor(mem, table, crcTable);
      reliability := new ReliabilityManager(config);
      congestion := new Dcqcn.CongestionControlManager(dcqcn);
      this.crcTable, outgoing, cqs := crcTable, [], map[];
    }

    /** The processors share one memory and one region table. */
    ghost predicate Wired() {
      && sendRecv.mem == writer.mem == reader.mem && sendRecv.table == writer.table == reader.table
      && sendRecv.crcTable == writer.crcTable == reader.crcTable == crcTable && Crc.IsCrcTable(crcTable)
    }

    /** The responder of one connection as spread over the engine's objects. */
    ghost function Seen(qp: RdmaQueuePair, cq: U32): Responder
      requires cq in cqs
      reads this, sendRecv, sendRecv.mem.buffer, writer, qp
    {
      Responder(sendRecv.mem.View(), qp.View(), sendRecv.StateOf(qp.number), writer.StateOf(qp.number), cqs[cq])
    }

    method QueueBuilt(builders: seq<Builder>)
      requires Crc.IsCrcTable(crcTable)
      modifies this`outgoing
      ensures outgoing == old(outgoing) + Encoded(builders)
    {
      hide Encode;
      for i := 0 to |builders|
        invariant outgoing == old(outgoing) + Encoded(builders[..i])
      {
        assert builders[..i + 1][..i] == builders[..i];
        var packet := Build(builders[i], crcTable);
        outgoing := outgoing + [packet[..]];
      }
      assert builders[..|builders|] == builders;
    }

    method Respond(destQp: U32, res: RecvResult)
      requires Crc.IsCrcTable(crcTable)
      modifies this`outgoing
      ensures outgoing == old(outgoing) + if ReplyFor(res).Some? then [Encode(AckBuilder(destQp, ReplyFor(res).value))] else []
    {
      hide Encode;
      if (res.success && res.needsAck) || (!res.success && res.syndrome != SYNDROME_ACK) {
        var packet := Build(AckBuilder(destQp, Reply(res.ackPsn, res.syndrome)), crcTable);
        outgoing := outgoing + [packet[..]];
      }
    }

    /** An arriving request packet has exactly the effect and the answer of the responder's step function. */
    method ProcessRequest(qp: RdmaQueuePair, cq: U32, p: Packet)
      requires Wired() && cq in cqs
      modifies this, sendRecv, writer, qp, sendRecv.mem.buffer
      ensures cq in cqs && Wired()
      ensures var d := Deliver(sendRecv.table.View(), old(Seen(qp, cq)), p);
              Seen(qp, cq) == d.next && outgoing == old(outgoing) + Answer(qp.destQp, d)
      ensures cqs.Keys == old(cqs.Keys) && forall c <- cqs :: c != cq ==> cqs[c] == old(cqs)[c]
      ensures forall q: U32 :: q != qp.number ==>
                sendRecv.StateOf(q) == old(sendRecv.StateOf(q)) && writer.StateOf(q) == old(writer.StateOf(q))
    {
      hide ProcessRecv;
      hide ProcessWrite;
      hide ProcessReadRequest;
      hide Encode;
      hide ReplyFor;
      var op := p.bth.opcode;
      if OpcodeIsSend(op) {
        var res := sendRecv.ProcessRecvPacket(qp, p);
        SendKeepsDestination(old(sendRecv.mem.View()), old(qp.View()), old(sendRecv.StateOf(qp.number)), p);
        Respond(qp.destQp, res);
        if res.success && res.cqe.Some? {
          cqs := cqs[cq := cqs[cq] + [res.cqe.value]];
        }
      } else if OpcodeIsWrite(op) {
        var res := writer.ProcessWritePacket(qp, p);
        Respond(qp.destQp, res);
        if res.success && res.cqe.Some? {
          cqs := cqs[cq := cqs[cq] + [res.cqe.value]];
        }
      } else if op == READ_REQUEST {
        var res := reader.ProcessReadRequestPacket(qp, p);
        ReadAnswersOrRefuses(sendRecv.mem.View(), sendRecv.table.View(), old(qp.View()), p);
        if res.needsNak {
          var packet := Build(AckBuilder(qp.destQp, Reply(res.nakPsn, res.syndrome)), crcTable);
          outgoing := outgoing + [packet[..]];
        } else {
          QueueBuilt(res.responses);
        }
      }
    }

    /** Retires the operations an ACK completes, one completion each, in posting order. */
    method RetireAcknowledged(qpNumber: U32, cq: U32, ackPsn: U24)
      requires cq in cqs
      modifies this`cqs, reliability`pendingOps
      ensures var before := old(reliability.pendingOps);
              if qpNumber in before then
                && reliability.pendingOps == before[qpNumber := SurvivingOps(before[qpNumber], ackPsn)]
                && cqs == old(cqs)[cq := old(cqs)[cq] + RetiredCqes(WrIds(CompletedOps(before[qpNumber], ackPsn)), qpNumber)]
              else reliability.pendingOps == before && cqs == old(cqs)
    {
      hide CompletedOps;
      hide SurvivingOps;
      hide WrIds;
      var res := reliability.ProcessAck(qpNumber, ackPsn);
      var posted := cqs[cq];
      for i := 0 to |res.completed|
        invariant posted == cqs[cq] + RetiredCqes(res.completed[..i], qpNumber)
      {
        assert res.completed[..i + 1][..i] == res.completed[..i];
        posted := posted + [RetiredCqe(res.completed[i], qpNumber)];
      }
      assert res.completed[..|res.completed|] == res.completed;
      cqs := cqs[cq := posted];
    }

    /**
     * An ACK retires the operations it covers.  A NAK changes their retry counts, and one that
     * is fatal posts exactly one error completion and moves the queue pair to its error state
     * where that is permitted.
     */
    method ProcessAckPacket(qp: RdmaQueuePair, cq: U32, psn: U24, syndrome: Byte)
      requires cq in cqs
      modifies this`cqs, reliability`pendingOps, qp
      ensures var before := old(reliability.pendingOps);
              if qp.number !in before then
                reliability.pendingOps == before && cqs == old(cqs) && qp.View() == old(qp.View())
              else if syndrome == SYNDROME_ACK then
                && reliability.pendingOps == before[qp.number := SurvivingOps(before[qp.number], psn)]
                && cqs == old(cqs)[cq := old(cqs)[cq] + RetiredCqes(WrIds(CompletedOps(before[qp.number], psn)), qp.number)]
                && qp.View() == old(qp.View())
              else
                var error := NakError(reliability.config, before[qp.number], psn, syndrome);
                && reliability.pendingOps == before[qp.number := NakOps(reliability.config, before[qp.number], psn, syndrome)]
                && cqs == (if error.Some? then old(cqs)[cq := old(cqs)[cq] + [Cqe(0, error.value, Send, qp.number, 0, None, true)]] else old(cqs))
                && qp.View() == old(qp.View()).(state := if error.Some? && ValidTransition(old(qp.state), QpState.Error) then QpState.Error else old(qp.state))
    {
      hide CompletedOps, SurvivingOps, WrIds, NakOps, NakError, RetiredCqes;
      if syndrome == SYNDROME_ACK {
        RetireAcknowledged(qp.number, cq, psn);
      } else {
        var res := reliability.ProcessNak(qp.number, psn, syndrome);
        if res.error.Some? {
          cqs := cqs[cq := cqs[cq] + [FailedCqe(res.error.value, qp.number)]];
          var _ := qp.Modify(ToState(QpState.Error));
        }
      }
    }

    /**
     * Posting work emits the packets of the request and registers one pending entry covering
     * exactly their sequence numbers; a request that yields no packet is refused.
     */
    method PostSend(qp: RdmaQueuePair, wqe: SendWqe) returns (ok: bool)
      requires Wired()
      modifies this`outgoing, qp`sqPsn, reader`requestStates, reliability`pendingOps
      ensures var post := Posting(wqe, ReadSgl(sendRecv.mem.View(), sendRecv.table.View(), wqe.lkey, wqe.sgl));
              var builders := if CanSend(old(qp.View())) && WellFormed(post) then Packets(old(qp.View()), post) else [];
              && (ok <==> builders != [])
              && |outgoing| == |old(outgoing)| + |builders|
              && old(outgoing) <= outgoing
              && (forall i :: 0 <= i < |builders| ==> outgoing[|old(outgoing)| + i] == Encode(builders[i]))
              && qp.sqPsn == AdvancePsn(old(qp.sqPsn), |builders|)
              && reader.requestStates == (if ok && wqe.opcode.RdmaRead? then old(reader.requestStates)[qp.number := BeginRead(wqe, old(qp.sqPsn))]
                                          else old(reader.requestStates))
              && reliability.pendingOps ==
                 if ok then
                   var before := old(reliability.pendingOps);
                   before[qp.number := (if qp.number in before then before[qp.number] else [])
                                       + [NewPending(old(qp.sqPsn), AdvancePsn(old(qp.sqPsn), |builders| - 1), wqe.wrId, wqe.opcode, 0)]]
                 else old(reliability.pendingOps)
    {
      hide Encode;
      hide ReadSgl;
      hide Packets;
      hide AdvancePsn;
      var startPsn := qp.sqPsn;
      AdvanceNone(startPsn);
      if qp.state != Rts {
        return false;
      }
      ReadIsOnePacket(qp.View(), Posting(wqe, ReadSgl(sendRecv.mem.View(), sendRecv.table.View(), wqe.lkey, wqe.sgl)));
      var packets := GeneratePackets(qp, wqe);
      if packets == [] {
        return false;
      }
      var endPsn := startPsn;
      if |packets| > 1 {
        endPsn := AdvancePsn(startPsn, |packets| - 1);
      }
      reliability.AddPending(qp.number, startPsn, endPsn, wqe.wrId, wqe.opcode, 0);
      outgoing := outgoing + packets;
      ok := true;
    }

    /** Picks the processor by the kind of work. */
    method GeneratePackets(qp: RdmaQueuePair, wqe: SendWqe) returns (packets: seq<seq<Byte>>)
      requires Wired()
      modifies qp`sqPsn, reader`requestStates
      ensures var post := Posting(wqe, ReadSgl(sendRecv.mem.View(), sendRecv.table.View(), wqe.lkey, wqe.sgl));
              var builders := if WellFormed(post) then Packets(old(qp.View()), post) else [];
              && |packets| == |builders|
              && (forall i :: 0 <= i < |builders| ==> packets[i] == Encode(builders[i]))
              && qp.sqPsn == AdvancePsn(old(qp.sqPsn), |builders|)
      ensures reader.requestStates == if wqe.opcode.RdmaRead? then old(reader.requestStates)[qp.number := BeginRead(wqe, old(qp.sqPsn))]
                                      else old(reader.requestStates)
    {
      hide Encode;
      hide ReadSgl;
      hide SendBuilder;
      hide WriteBuilder;
      hide AdvancePsn;
      AdvanceNone(qp.sqPsn);
      match wqe.opcode {
        case Send => packets := sendRecv.GenerateSendPackets(qp, wqe);
        case SendImm => packets := sendRecv.GenerateSendPackets(qp, wqe);
        case RdmaWrite => packets := writer.GenerateWritePackets(qp, wqe);
        case RdmaWriteImm => packets := writer.GenerateWritePackets(qp, wqe);
        case RdmaRead => packets := reader.GenerateReadRequest(qp, wqe);
      }
    }

    /** A congestion notification is handed on with time zero. */
    method ProcessCnpPacket(qpNumber: U32)
      requires congestion.Valid()
      modifies congestion`flows
      ensures congestion.Valid()
      ensures congestion.flows == if congestion.cfg.enabled
                                  then old(congestion.flows)[qpNumber := Dcqcn.CnpReceived(congestion.cfg, old(congestion.FlowOf(qpNumber)), 0)]
                                  else old(congestion.flows)
    {
      congestion.HandleCnp(qpNumber, 0);
    }

    /**
     * One step of time: the congestion clock moves and every flow's timers run, and every queue
     * pair's pending list is checked once, against the length of the step instead of the time.
     */
    method AdvanceTime(qps: set<U32>, elapsed: U64)
      requires congestion.Valid()
      modifies reliability`pendingOps, congestion
      ensures congestion.Valid() && congestion.now == old(congestion.now) + elapsed && congestion.flows.Keys == old(congestion.flows).Keys
      ensures forall q <- congestion.flows :: congestion.flows[q] ==
                if congestion.cfg.enabled then Dcqcn.AdvanceFlow(congestion.cfg, old(congestion.flows)[q], congestion.now) else old(congestion.flows)[q]
      ensures reliability.pendingOps.Keys == old(reliability.pendingOps).Keys
      ensures forall q <- reliability.pendingOps :: reliability.pendingOps[q] ==
                if q in qps then TickOps(reliability.config, old(reliability.pendingOps)[q], elapsed) else old(reliability.pendingOps)[q]
    {
      hide TickOps, Dcqcn.AdvanceFlow;
      congestion.AdvanceTime(elapsed);
      CheckAllTimeouts(qps, elapsed);
    }

    method CheckAllTimeouts(qps: set<U32>, elapsed: U64)
      modifies reliability`pendingOps
      ensures reliability.pendingOps.Keys == old(reliability.pendingOps).Keys
      ensures forall q <- reliability.pendingOps :: reliability.pendingOps[q] ==
                if q in qps then TickOps(reliability.config, old(reliability.pendingOps)[q], elapsed) else old(reliability.pendingOps)[q]
    {
      hide TickOps, RetransmitPsns;
      var todo := qps;
      ghost var before := reliability.pendingOps;
      while todo != {}
        invariant todo <= qps && reliability.pendingOps.Keys == before.Keys
        invariant forall q <- before :: reliability.pendingOps[q] ==
                    if q in qps - todo then TickOps(reliability.config, before[q], elapsed) else before[q]
        decreases todo
      {
        var q :| q in todo;
        var _ := reliability.CheckTimeouts(q, elapsed);
        todo := todo - {q};
      }
    }
  }

  lemma ReadIsOnePacket(qp: Qp, post: Posting)
    ensures post.wqe.opcode.RdmaRead? ==> WellFormed(post) && |Packets(qp, post)| == 1
  {
  }

  lemma SendKeepsDestination(h: Host, qp: Qp, st: RecvState, p: Packet)
    ensures ProcessRecv(h, qp, st, p).qp.destQp == qp.destQp
  {
    hide WriteSgl;
    hide AdvancePsn;
  }

  lemma ReadAnswersOrRefuses(h: Host, t: Regions, qp: Qp, p: Packet)
    ensures var r := ProcessReadRequest(h, t, qp, p);
            r.qp.destQp == qp.destQp && (r.res.needsNak ==> r.res.responses == [])
  {
    hide AdvancePsn;
    hide ResponseBuilder;
  }
}
