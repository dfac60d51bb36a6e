/** One-sided WRITE: cutting the message into packets and storing them in a registered region. */
module RdmaWrite {
  import opened Common
  import Bits
  import Crc
  import opened RoceTypes
  import opened HostMemory
  import opened MemoryRegions
  import opened Sgl
  import opened RocePacket
  import opened RoceQueuePair
  import opened SendRecv

  // ---------------------------------------------------------------------------
  // Requester
  // ---------------------------------------------------------------------------

  function WriteOpcode(first: bool, last: bool, immediate: bool): Byte {
    if first && last then (if immediate then WRITE_ONLY_IMM else WRITE_ONLY)
    else if first then WRITE_FIRST
    else if last then (if immediate then WRITE_LAST_IMM else WRITE_LAST)
    else WRITE_MIDDLE
  }

  /** A WRITE packet; the first one carries the remote address, key and total length. */
  function WriteSegment(destQp: U32, psn: U24, wqe: SendWqe, first: bool, last: bool, payload: seq<Byte>): Builder {
    var immediate := wqe.opcode.RdmaWriteImm? && last;
    var b := NewBuilder(WriteOpcode(first, last, immediate), destQp, psn).(
      padCount := if last then PadFor(|payload|) else 0,
      ackRequest := last,
      payload := payload,
      immediate := if immediate then Some(wqe.immediate) else None);
    if first then b.(remoteAddress := wqe.remoteAddress, rkey := wqe.rkey, dmaLength := wqe.totalLength) else b
  }

  function WriteBuilder(qp: Qp, wqe: SendWqe, msg: seq<Byte>, n: nat, i: nat): Builder {
    WriteSegment(qp.destQp, AdvancePsn(qp.sqPsn, i), wqe, i == 0, i + 1 == n, Slice(msg, MtuBytes(qp.pathMtu), i))
  }

  function WriteBuilders(qp: Qp, wqe: SendWqe, msg: seq<Byte>): seq<Builder>
    requires |msg| == wqe.totalLength
  {
    var n := PacketCount(wqe.totalLength, MtuBytes(qp.pathMtu));
    seq(n, i requires 0 <= i < n => WriteBuilder(qp, wqe, msg, n, i))
  }

  // ---------------------------------------------------------------------------
  // Responder
  // ---------------------------------------------------------------------------

  datatype WriteState = WriteState(remoteAddress: U64, rkey: U32, totalLength: U32, bytesWritten: U32, expectedPsn: U24,
                                   inProgress: bool, immediate: Option<U32>)

  const IDLE_WRITE := WriteState(0, 0, 0, 0, 0, false, None)

  datatype WriteStep = WriteStep(host: Host, qp: Qp, st: WriteState, res: RecvResult)

  function BeginWrite(reth: Reth, psn: U24): WriteState {
    WriteState(reth.address, reth.rkey, reth.dmaLength, 0, psn, true, None)
  }

  /** Checks the key for the stretch actually written, then writes it. */
  function WriteRemote(h: Host, t: Regions, rkey: U32, pd: U32, address: U64, data: seq<Byte>): Option<Host> {
    if data == [] then Some(h)
    else if |data| < TWO_64 && ValidateRkey(t, rkey, pd, address, |data|, true) then HostWrite(h, address, data)
    else None
  }

  function WriteCqe(wrId: U64, qpNumber: U32, st: WriteState, immediate: U32): Cqe {
    Cqe(wrId, Success, RdmaWriteImm, qpNumber, st.bytesWritten, Some(immediate), false)
  }

  /** A WRITE packet in sequence: store, advance, and on the last packet settle the immediate. */
  function AcceptWrite(h: Host, t: Regions, qp: Qp, st: WriteState, p: Packet): WriteStep {
    var psn := p.bth.psn;
    var stored := WriteRemote(h, t, st.rkey, qp.pd, Sum64(st.remoteAddress, st.bytesWritten), p.payload);
    if stored.None? then WriteStep(h, qp, st.(inProgress := false), Refuse(psn, SYNDROME_REMOTE_ACCESS_ERROR)) else
    var ends := OpcodeIsLast(p.bth.opcode) || OpcodeIsOnly(p.bth.opcode);
    var st' := st.(bytesWritten := (st.bytesWritten + |p.payload|) % TWO_32,
                   expectedPsn := AdvancePsn(psn, 1),
                   immediate := if p.immediate.Some? then p.immediate else st.immediate,
                   inProgress := !ends);
    var qp' := qp.(rqPsn := AdvancePsn(qp.rqPsn, 1));
    var acks := p.bth.ackRequest || ends;
    var done := RecvResult(true, acks, ends, if acks then psn else 0, SYNDROME_ACK, None);
    if !ends || st'.immediate.None? then WriteStep(stored.value, qp', st', done)
    else if qp'.recvQueue == [] then WriteStep(stored.value, qp', st', Refuse(psn, SYNDROME_RNR_NAK).(complete := true))
    else WriteStep(stored.value, qp'.(recvQueue := qp'.recvQueue[1..]), st',
                   done.(cqe := Some(WriteCqe(qp'.recvQueue[0].wrId, qp.number, st', st'.immediate.value))))
  }

  /** One incoming WRITE packet, with every refusal in the order the responder tests for it. */
  function ProcessWrite(h: Host, t: Regions, qp: Qp, st: WriteState, p: Packet): WriteStep {
    var op, psn := p.bth.opcode, p.bth.psn;
    if !OpcodeIsWrite(op) then WriteStep(h, qp, st, IGNORED)
    else if !CanReceive(qp) then WriteStep(h, qp, st, Refuse(psn, SYNDROME_INVALID_REQUEST))
    else if psn != qp.rqPsn then WriteStep(h, qp, st, Refuse(qp.rqPsn, SYNDROME_PSN_SEQ_ERROR))
    else if OpcodeIsFirst(op) || OpcodeIsOnly(op) then
      if p.reth.None? then WriteStep(h, qp, st, Refuse(psn, SYNDROME_INVALID_REQUEST))
      else if !ValidateRkey(t, p.reth.value.rkey, qp.pd, p.reth.value.address, p.reth.value.dmaLength, true) then
        WriteStep(h, qp, st, Refuse(psn, SYNDROME_REMOTE_ACCESS_ERROR))
      else AcceptWrite(h, t, qp, BeginWrite(p.reth.value, psn), p)
    else if !st.inProgress then WriteStep(h, qp, st, Refuse(psn, SYNDROME_INVALID_REQUEST))
    else if st.expectedPsn != psn then WriteStep(h, qp, st, Refuse(st.expectedPsn, SYNDROME_PSN_SEQ_ERROR))
    else AcceptWrite(h, t, qp, st, p)
  }

  // ---------------------------------------------------------------------------
  // The processor
  // ---------------------------------------------------------------------------

  class WriteProcessor {
    const mem: SimpleHostMemory
    const table: MemoryRegionTable
    const crcTable: seq<Bits.Word>
    var writeStates: map<U32, WriteState>

    constructor (mem: SimpleHostMemory, table: MemoryRegionTable, crcTable: seq<Bits.Word>)
      ensures this.mem == mem && this.table == table && this.crcTable == crcTable && writeStates == map[]
    {
      this.mem, this.table, this.crcTable, writeStates := mem, table, crcTable, map[];
    }

    ghost function StateOf(qpNumber: U32): WriteState
      reads this
    {
      if qpNumber in writeStates then writeStates[qpNumber] else IDLE_WRITE
    }

    /** The segmentation loop emits exactly the packets of WriteBuilders, encoded, and advances the PSN past them. */
    method GenerateWritePackets(qp: RdmaQueuePair, wqe: SendWqe) returns (packets: seq<seq<Byte>>)
      requires Crc.IsCrcTable(crcTable)
      modifies qp`sqPsn
      ensures var msg := ReadSgl(mem.View(), table.View(), wqe.lkey, wqe.sgl);
              if (wqe.opcode.RdmaWrite? || wqe.opcode.RdmaWriteImm?) && |msg| == wqe.totalLength then
                var builders := WriteBuilders(old(qp.View()), wqe, msg);
                && |packets| == |builders|
                && (forall i :: 0 <= i < |packets| ==> packets[i] == Encode(builders[i]))
                && qp.sqPsn == AdvancePsn(old(qp.sqPsn), |builders|)
              else packets == [] && qp.sqPsn == old(qp.sqPsn)
    {
      hide Encode;
      hide ReadSgl;
      hide WriteSegment;
      hide Covers;
      hide AdvancePsn;
      packets := [];
      if !wqe.opcode.RdmaWrite? && !wqe.opcode.RdmaWriteImm? {
        return;
      }
      var msg := ReadFromSgl(mem, Regions(table.byLkey, table.byRkey, table.nextKey), wqe.lkey, wqe.sgl);
      if |msg| != wqe.totalLength {
        return;
      }
      ghost var qp0 := qp.View();
      var mtu := MtuBytes(qp.pathMtu);
      var n := PacketCount(wqe.totalLength, mtu);
      PacketCountExact(wqe.totalLength, mtu);
      var offset := 0;
      AdvanceNone(qp.sqPsn);
      for i := 0 to n
        invariant |packets| == i
        invariant offset == Min(i * mtu, |msg|)
        invariant qp.sqPsn == AdvancePsn(qp0.sqPsn, i)
        invariant forall k :: 0 <= k < i ==> packets[k] == Encode(WriteBuilder(qp0, wqe, msg, n, k))
      {
        OffsetStep(n, |msg|, mtu, i);
        var payload := msg[offset..offset + Min(mtu, |msg| - offset)];
        assert payload == Slice(msg, mtu, i);
        AdvanceTwice(qp0.sqPsn, i, 1);
        var psn := qp.NextSendPsn();
        var b := WriteSegment(qp.destQp, psn, wqe, i == 0, i + 1 == n, payload);
        var packet := Build(b, crcTable);
        packets := packets + [packet[..]];
        offset := offset + |payload|;
      }
    }

    method WriteToRemote(rkey: U32, pd: U32, address: U64, data: seq<Byte>) returns (ok: bool)
      modifies mem.buffer
      ensures ok <==> WriteRemote(old(mem.View()), table.View(), rkey, pd, address, data).Some?
      ensures mem.View() == if ok then WriteRemote(old(mem.View()), table.View(), rkey, pd, address, data).value else old(mem.View())
    {
      if data == [] {
        return true;
      }
      if |data| >= TWO_64 || !ValidateRkey(Regions(table.byLkey, table.byRkey, table.nextKey), rkey, pd, address, |data|, true) {
        return false;
      }
      ok := mem.Write(address, data);
    }

    /** Stores the payload of an in-sequence packet and settles the message on its last packet. */
    method PlacePayload(qp: RdmaQueuePair, st0: WriteState, p: Packet) returns (st: WriteState, res: RecvResult)
      requires CanReceive(qp.View())
      modifies qp`rqPsn, qp`recvQueue, mem.buffer
      ensures WriteStep(mem.View(), qp.View(), st, res) == AcceptWrite(old(mem.View()), table.View(), old(qp.View()), st0, p)
    {
      hide WriteRemote;
      hide OpcodeIsLast;
      hide OpcodeIsOnly;
      var op, psn := p.bth.opcode, p.bth.psn;
      var ok := WriteToRemote(st0.rkey, qp.pd, Sum64(st0.remoteAddress, st0.bytesWritten), p.payload);
      if !ok {
        return st0.(inProgress := false), Refuse(psn, SYNDROME_REMOTE_ACCESS_ERROR);
      }
      st := st0.(bytesWritten := (st0.bytesWritten + |p.payload|) % TWO_32, expectedPsn := AdvancePsn(psn, 1));
      qp.AdvanceRecvPsn();
      if p.immediate.Some? {
        st := st.(immediate := p.immediate);
      }
      res := RecvResult(true, false, false, 0, SYNDROME_ACK, None);
      var ends := OpcodeIsLast(op) || OpcodeIsOnly(op);
      st := st.(inProgress := !ends);
      if ends {
        res := res.(complete := true);
        if st.immediate.Some? {
          var wqe := qp.ConsumeRecv();
          if wqe.None? {
            return st, Refuse(psn, SYNDROME_RNR_NAK).(complete := true);
          }
          res := res.(cqe := Some(WriteCqe(wqe.value.wrId, qp.number, st, st.immediate.value)));
        }
      }
      if p.bth.ackRequest || ends {
        res := res.(needsAck := true, ackPsn := psn);
      }
    }

    /** The responder path over the per-QP state map, the queue pair and memory computes ProcessWrite. */
    method ProcessWritePacket(qp: RdmaQueuePair, p: Packet) returns (res: RecvResult)
      modifies this`writeStates, qp, mem.buffer
      ensures WriteStep(mem.View(), qp.View(), StateOf(qp.number), res)
           == ProcessWrite(old(mem.View()), table.View(), old(qp.View()), old(StateOf(qp.number)), p)
      ensures forall k: U32 :: k != qp.number ==> StateOf(k) == old(StateOf(k))
    {
      hide AcceptWrite;
      hide OpcodeIsFirst;
      hide OpcodeIsOnly;
      hide ValidateAccess;
      var op, psn := p.bth.opcode, p.bth.psn;
      if !OpcodeIsWrite(op) {
        return IGNORED;
      }
      if qp.state != Rtr && qp.state != Rts {
        return Refuse(psn, SYNDROME_INVALID_REQUEST);
      }
      if psn != qp.rqPsn {
        return Refuse(qp.rqPsn, SYNDROME_PSN_SEQ_ERROR);
      }
      var st := if qp.number in writeStates then writeStates[qp.number] else IDLE_WRITE;
      if OpcodeIsFirst(op) || OpcodeIsOnly(op) {
        if p.reth.None? {
          return Refuse(psn, SYNDROME_INVALID_REQUEST);
        }
        var reth := p.reth.value;
        if !ValidateRkey(Regions(table.byLkey, table.byRkey, table.nextKey), reth.rkey, qp.pd, reth.address, reth.dmaLength, true) {
          return Refuse(psn, SYNDROME_REMOTE_ACCESS_ERROR);
        }
        st := BeginWrite(reth, psn);
      } else {
        if !st.inProgress {
          return Refuse(psn, SYNDROME_INVALID_REQUEST);
        }
        if st.expectedPsn != psn {
          return Refuse(st.expectedPsn, SYNDROME_PSN_SEQ_ERROR);
        }
      }
      st, res := PlacePayload(qp, st, p);
      writeStates := writeStates[qp.number := st];
    }
  }
}
