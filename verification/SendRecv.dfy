/** Two-sided messages: cutting a SEND into packets and receiving it into a posted buffer list. */
module SendRecv {
  import opened Common
  import Bits
  import Crc
  import opened RoceTypes
  import opened HostMemory
  import opened MemoryRegions
  import opened Sgl
  import opened RocePacket
  import opened RoceQueuePair

  // ---------------------------------------------------------------------------
  // Sender
  // ---------------------------------------------------------------------------

  function SendOpcode(first: bool, last: bool, immediate: bool): Byte {
    if first && last then (if immediate then SEND_ONLY_IMM else SEND_ONLY)
    else if first then SEND_FIRST
    else if last then (if immediate then SEND_LAST_IMM else SEND_LAST)
    else SEND_MIDDLE
  }

  /** Bytes that would align the payload to four; announced, never sent. */
  function PadFor(size: nat): PadCount { (4 - size % 4) % 4 }

  /** A SEND packet with the given position, sequence number and payload. */
  function SendSegment(destQp: U32, psn: U24, wqe: SendWqe, first: bool, last: bool, payload: seq<Byte>): Builder {
    var immediate := wqe.opcode.SendImm? && last;
    NewBuilder(SendOpcode(first, last, immediate), destQp, psn).(
      padCount := if last then PadFor(|payload|) else 0,
      solicited := wqe.solicited && last,
      ackRequest := last,
      payload := payload,
      immediate := if immediate then Some(wqe.immediate) else None)
  }

  /** The i-th of n packets of a SEND. */
  function SendBuilder(qp: Qp, wqe: SendWqe, msg: seq<Byte>, n: nat, i: nat): Builder {
    SendSegment(qp.destQp, AdvancePsn(qp.sqPsn, i), wqe, i == 0, i + 1 == n, Slice(msg, MtuBytes(qp.pathMtu), i))
  }

  function SendBuilders(qp: Qp, wqe: SendWqe, msg: seq<Byte>): seq<Builder>
    requires |msg| == wqe.totalLength
  {
    var n := PacketCount(wqe.totalLength, MtuBytes(qp.pathMtu));
    seq(n, i requires 0 <= i < n => SendBuilder(qp, wqe, msg, n, i))
  }

  // ---------------------------------------------------------------------------
  // Receiver
  // ---------------------------------------------------------------------------

  datatype RecvState = RecvState(wrId: U64, bytesReceived: U32, expectedPsn: U24, sgl: seq<SglEntry>, cursor: Cursor,
                                 inProgress: bool, immediate: Option<U32>)

  const IDLE_RECV := RecvState(0, 0, 0, [], START, false, None)

  datatype RecvResult = RecvResult(success: bool, needsAck: bool, complete: bool, ackPsn: U24, syndrome: Byte, cqe: Option<Cqe>)

  const IGNORED := RecvResult(false, false, false, 0, SYNDROME_ACK, None)

  function Refuse(psn: U24, syndrome: Byte): RecvResult { RecvResult(false, true, false, psn, syndrome, None) }

  datatype RecvStep = RecvStep(host: Host, qp: Qp, st: RecvState, res: RecvResult)

  function BeginRecv(wqe: RecvWqe, psn: U24): RecvState { RecvState(wqe.wrId, 0, psn, wqe.sgl, START, true, None) }

  function RecvCqe(qpNumber: U32, st: RecvState): Cqe {
    Cqe(st.wrId, Success, if st.immediate.Some? then SendImm else Send, qpNumber, st.bytesReceived, st.immediate, false)
  }

  /** A SEND packet in sequence: place the payload, advance, and complete on the last packet. */
  function AcceptSend(h: Host, qp: Qp, st: RecvState, p: Packet): RecvStep {
    var w := WriteSgl(h, Unguarded, st.sgl, p.payload, st.cursor);
    var psn := p.bth.psn;
    if w.written != |p.payload| then
      RecvStep(w.host, qp, st.(cursor := w.cursor, inProgress := false), Refuse(psn, SYNDROME_REMOTE_ACCESS_ERROR))
    else
      var ends := OpcodeIsLast(p.bth.opcode) || OpcodeIsOnly(p.bth.opcode);
      var st' := st.(cursor := w.cursor,
                     bytesReceived := (st.bytesReceived + w.written) % TWO_32,
                     expectedPsn := AdvancePsn(psn, 1),
                     immediate := if p.immediate.Some? then p.immediate else st.immediate,
                     inProgress := !ends);
      var acks := p.bth.ackRequest || ends;
      RecvStep(w.host, qp.(rqPsn := AdvancePsn(qp.rqPsn, 1)), st',
               RecvResult(true, acks, ends, if acks then psn else 0, SYNDROME_ACK,
                          if ends then Some(RecvCqe(qp.number, st')) else None))
  }

  /** One incoming SEND packet, with every refusal in the order the receiver tests for it. */
  function ProcessRecv(h: Host, qp: Qp, st: RecvState, p: Packet): RecvStep {
    var op, psn := p.bth.opcode, p.bth.psn;
    if !OpcodeIsSend(op) then RecvStep(h, qp, st, IGNORED)
    else if !CanReceive(qp) then RecvStep(h, qp, st, Refuse(psn, SYNDROME_INVALID_REQUEST))
    else if psn != qp.rqPsn then RecvStep(h, qp, st, Refuse(qp.rqPsn, SYNDROME_PSN_SEQ_ERROR))
    else if OpcodeIsFirst(op) || OpcodeIsOnly(op) then
      if qp.recvQueue == [] then RecvStep(h, qp, st, Refuse(psn, SYNDROME_RNR_NAK))
      else AcceptSend(h, qp.(recvQueue := qp.recvQueue[1..]), BeginRecv(qp.recvQueue[0], psn), p)
    else if !st.inProgress then RecvStep(h, qp, st, Refuse(psn, SYNDROME_INVALID_REQUEST))
    else if st.expectedPsn != psn then RecvStep(h, qp, st, Refuse(st.expectedPsn, SYNDROME_PSN_SEQ_ERROR))
    else AcceptSend(h, qp, st, p)
  }

  // ---------------------------------------------------------------------------
  // The processor
  // ---------------------------------------------------------------------------

  class SendRecvProcessor {
    const mem: SimpleHostMemory
    const table: MemoryRegionTable
    const crcTable: seq<Bits.Word>
    var recvStates: map<U32, RecvState>

    constructor (mem: SimpleHostMemory, table: MemoryRegionTable, crcTable: seq<Bits.Word>)
      ensures this.mem == mem && this.table == table && this.crcTable == crcTable && recvStates == map[]
    {
      this.mem, this.table, this.crcTable, recvStates := mem, table, crcTable, map[];
    }

    ghost function StateOf(qpNumber: U32): RecvState
      reads this
    {
      if qpNumber in recvStates then recvStates[qpNumber] else IDLE_RECV
    }

    /** The segmentation loop emits exactly the packets of SendBuilders, encoded, and advances the PSN past them. */
    method GenerateSendPackets(qp: RdmaQueuePair, wqe: SendWqe) returns (packets: seq<seq<Byte>>)
      requires Crc.IsCrcTable(crcTable)
      modifies qp`sqPsn
      ensures var msg := ReadSgl(mem.View(), table.View(), wqe.lkey, wqe.sgl);
              if (wqe.opcode.Send? || wqe.opcode.SendImm?) && |msg| == wqe.totalLength then
                var builders := SendBuilders(old(qp.View()), wqe, msg);
                && |packets| == |builders|
                && (forall i :: 0 <= i < |packets| ==> packets[i] == Encode(builders[i]))
                && qp.sqPsn == AdvancePsn(old(qp.sqPsn), |builders|)
              else packets == [] && qp.sqPsn == old(qp.sqPsn)
    {
      hide Encode;
      hide ReadSgl;
      hide SendSegment;
      hide Covers;
      hide AdvancePsn;
      packets := [];
      if !wqe.opcode.Send? && !wqe.opcode.SendImm? {
        return;
      }
      var msg := ReadFromSgl(mem, Regions(table.byLkey, table.byRkey, table.nextKey), wqe.lkey, wqe.sgl);
      if |msg| != wqe.totalLength {
        return;
      }
      ghost var qp0 := qp.View();
      var mtu := MtuBytes(qp.pathMtu);
      var n := PacketCount(wqe.totalLength, mtu);
      PacketCountExact(wqe.totalLength, mtu);
      var offset := 0;
      AdvanceNone(qp.sqPsn);
      for i := 0 to n
        invariant |packets| == i
        invariant offset == Min(i * mtu, |msg|)
        invariant qp.sqPsn == AdvancePsn(qp0.sqPsn, i)
        invariant forall k :: 0 <= k < i ==> packets[k] == Encode(SendBuilder(qp0, wqe, msg, n, k))
      {
        OffsetStep(n, |msg|, mtu, i);
        var payload := msg[offset..offset + Min(mtu, |msg| - offset)];
        assert payload == Slice(msg, mtu, i);
        AdvanceTwice(qp0.sqPsn, i, 1);
        var psn := qp.NextSendPsn();
        var b := SendSegment(qp.destQp, psn, wqe, i == 0, i + 1 == n, payload);
        var packet := Build(b, crcTable);
        packets := packets + [packet[..]];
        offset := offset + |payload|;
      }
    }

    /** Places the payload of an in-sequence packet and completes the message on its last packet. */
    method PlacePayload(qp: RdmaQueuePair, st0: RecvState, p: Packet) returns (st: RecvState, res: RecvResult)
      modifies qp`rqPsn, mem.buffer
      ensures RecvStep(mem.View(), qp.View(), st, res) == AcceptSend(old(mem.View()), old(qp.View()), st0, p)
    {
      hide WriteSgl;
      hide OpcodeIsLast;
      hide OpcodeIsOnly;
      var op, psn := p.bth.opcode, p.bth.psn;
      var written, index, offset := WriteToSgl(mem, Unguarded, st0.sgl, p.payload, st0.cursor.index, st0.cursor.offset);
      st := st0.(cursor := Cursor(index, offset));
      if written != |p.payload| {
        return st.(inProgress := false), Refuse(psn, SYNDROME_REMOTE_ACCESS_ERROR);
      }
      st := st.(bytesReceived := (st.bytesReceived + written) % TWO_32, expectedPsn := AdvancePsn(psn, 1));
      qp.AdvanceRecvPsn();
      if p.immediate.Some? {
        st := st.(immediate := p.immediate);
      }
      res := RecvResult(true, false, false, 0, SYNDROME_ACK, None);
      var ends := OpcodeIsLast(op) || OpcodeIsOnly(op);
      st := st.(inProgress := !ends);
      if ends {
        res := res.(complete := true, cqe := Some(RecvCqe(qp.number, st)));
      }
      if p.bth.ackRequest || ends {
        res := res.(needsAck := true, ackPsn := psn);
      }
    }

    /** The receive path over the per-QP state map, the queue pair and memory computes ProcessRecv. */
    method ProcessRecvPacket(qp: RdmaQueuePair, p: Packet) returns (res: RecvResult)
      modifies this`recvStates, qp, mem.buffer
      ensures RecvStep(mem.View(), qp.View(), StateOf(qp.number), res)
           == ProcessRecv(old(mem.View()), old(qp.View()), old(StateOf(qp.number)), p)
      ensures forall k: U32 :: k != qp.number ==> StateOf(k) == old(StateOf(k))
    {
      hide AcceptSend;
      hide OpcodeIsFirst;
      hide OpcodeIsOnly;
      var op, psn := p.bth.opcode, p.bth.psn;
      if !OpcodeIsSend(op) {
        return IGNORED;
      }
      if qp.state != Rtr && qp.state != Rts {
        return Refuse(psn, SYNDROME_INVALID_REQUEST);
      }
      if psn != qp.rqPsn {
        return Refuse(qp.rqPsn, SYNDROME_PSN_SEQ_ERROR);
      }
      var st := if qp.number in recvStates then recvStates[qp.number] else IDLE_RECV;
      if OpcodeIsFirst(op) || OpcodeIsOnly(op) {
        var wqe := qp.ConsumeRecv();
        if wqe.None? {
          return Refuse(psn, SYNDROME_RNR_NAK);
        }
        st := BeginRecv(wqe.value, psn);
      } else {
        if !st.inProgress {
          return Refuse(psn, SYNDROME_INVALID_REQUEST);
        }
        if st.expectedPsn != psn {
          return Refuse(st.expectedPsn, SYNDROME_PSN_SEQ_ERROR);
        }
      }
      st, res := PlacePayload(qp, st, p);
      recvStates := recvStates[qp.number := st];
    }
  }
}
