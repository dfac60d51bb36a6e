/** One-sided READ: the request, the responder's answer, and filling the requester's buffer list. */
module RdmaRead {
  import opened Common
  import Crc
  import Bits
  import opened RoceTypes
  import opened HostMemory
  import opened MemoryRegions
  import opened Sgl
  import opened RocePacket
  import opened RoceQueuePair
  import opened SendRecv

  // ---------------------------------------------------------------------------
  // Requester: request
  // ---------------------------------------------------------------------------

  /** The outstanding READ of a queue pair. */
  datatype ReadState = ReadState(wrId: U64, lkey: U32, totalLength: U32, bytesReceived: U32, expectedPsn: U24, startPsn: U24,
                                 sgl: seq<SglEntry>, cursor: Cursor, inProgress: bool)

  function BeginRead(wqe: SendWqe, psn: U24): ReadState {
    ReadState(wqe.wrId, wqe.lkey, wqe.totalLength, 0, psn, psn, wqe.sgl, START, true)
  }

  function RequestBuilder(destQp: U32, psn: U24, wqe: SendWqe): Builder {
    NewBuilder(READ_REQUEST, destQp, psn).(
      ackRequest := false, remoteAddress := wqe.remoteAddress, rkey := wqe.rkey, dmaLength := wqe.totalLength)
  }

  // ---------------------------------------------------------------------------
  // Responder
  // ---------------------------------------------------------------------------

  function ReadResponseOpcode(first: bool, last: bool): Byte {
    if first && last then READ_RESPONSE_ONLY
    else if first then READ_RESPONSE_FIRST
    else if last then READ_RESPONSE_LAST
    else READ_RESPONSE_MIDDLE
  }

  function ResponseSegment(destQp: U32, psn: U24, first: bool, last: bool, payload: seq<Byte>): Builder {
    NewBuilder(ReadResponseOpcode(first, last), destQp, psn).(
      padCount := if last then PadFor(|payload|) else 0, ackRequest := false, payload := payload)
  }

  /** The i-th of n response packets; sequence numbers come from the responder's own send counter. */
  function ResponseBuilder(qp: Qp, data: seq<Byte>, n: nat, i: nat): Builder {
    ResponseSegment(qp.destQp, AdvancePsn(qp.sqPsn, i), i == 0, i + 1 == n, Slice(data, MtuBytes(qp.pathMtu), i))
  }

  function ResponseBuilders(qp: Qp, data: seq<Byte>): seq<Builder>
    requires |data| < TWO_32
  {
    var n := PacketCount(|data|, MtuBytes(qp.pathMtu));
    seq(n, i requires 0 <= i < n => ResponseBuilder(qp, data, n, i))
  }

  /** The bytes a READ asks for, or nothing when they may not be read. */
  function ReadRemote(h: Host, t: Regions, rkey: U32, pd: U32, address: U64, length: U32): (r: Option<seq<Byte>>)
    ensures r.Some? ==> |r.value| == length
  {
    if ValidateRkey(t, rkey, pd, address, length, false) then HostRead(h, address, length) else None
  }

  datatype RequestResult = RequestResult(success: bool, needsNak: bool, nakPsn: U24, syndrome: Byte, responses: seq<Builder>)

  function RefuseRead(psn: U24, syndrome: Byte): RequestResult { RequestResult(false, true, psn, syndrome, []) }

  datatype RequestStep = RequestStep(qp: Qp, res: RequestResult)

  /** An in-sequence READ request: the sequence number advances even when the data cannot be read. */
  function AnswerRead(h: Host, t: Regions, qp: Qp, reth: Reth, psn: U24): RequestStep {
    var qp' := qp.(rqPsn := AdvancePsn(qp.rqPsn, 1));
    var data := ReadRemote(h, t, reth.rkey, qp.pd, reth.address, reth.dmaLength);
    var responses :=
      if data.Some? then ResponseBuilders(qp', data.value)
      else if reth.dmaLength == 0 then ResponseBuilders(qp', [])
      else [];
    var qp'' := qp'.(sqPsn := AdvancePsn(qp'.sqPsn, |responses|));
    if responses == [] && reth.dmaLength > 0 then RequestStep(qp'', RefuseRead(psn, SYNDROME_REMOTE_ACCESS_ERROR))
    else RequestStep(qp'', RequestResult(true, false, 0, SYNDROME_ACK, responses))
  }

  function ProcessReadRequest(h: Host, t: Regions, qp: Qp, p: Packet): RequestStep {
    var psn := p.bth.psn;
    if p.bth.opcode != READ_REQUEST then RequestStep(qp, RequestResult(false, false, 0, SYNDROME_ACK, []))
    else if !CanReceive(qp) then RequestStep(qp, RefuseRead(psn, SYNDROME_INVALID_REQUEST))
    else if psn != qp.rqPsn then RequestStep(qp, RefuseRead(qp.rqPsn, SYNDROME_PSN_SEQ_ERROR))
    else if p.reth.None? then RequestStep(qp, RefuseRead(psn, SYNDROME_INVALID_REQUEST))
    else if !ValidateRkey(t, p.reth.value.rkey, qp.pd, p.reth.value.address, p.reth.value.dmaLength, false) then
      RequestStep(qp, RefuseRead(psn, SYNDROME_REMOTE_ACCESS_ERROR))
    else AnswerRead(h, t, qp, p.reth.value, psn)
  }

  // ---------------------------------------------------------------------------
  // Requester: responses
  // ---------------------------------------------------------------------------

  datatype ResponseResult = ResponseResult(success: bool, complete: bool, cqe: Option<Cqe>)

  const NO_RESPONSE := ResponseResult(false, false, None)

  datatype ResponseStep = ResponseStep(host: Host, st: ReadState, res: ResponseResult)

  function ReadCqe(qpNumber: U32, st: ReadState, status: WqeStatus, bytes: U32): Cqe {
    Cqe(st.wrId, status, RdmaRead, qpNumber, bytes, None, true)
  }

  /** Fills the buffer list with a response payload; completes on the last packet or on a local failure. */
  function AcceptResponse(h: Host, t: Regions, qpNumber: U32, st: ReadState, p: Packet): ResponseStep {
    var w := WriteSgl(h, Guarded(t, st.lkey), st.sgl, p.payload, st.cursor);
    var st1 := st.(cursor := w.cursor);
    if w.written != |p.payload| then
      ResponseStep(w.host, st1.(inProgress := false),
                   ResponseResult(false, true, Some(ReadCqe(qpNumber, st, LocalAccessError, st.bytesReceived))))
    else
      var ends := OpcodeIsLast(p.bth.opcode) || OpcodeIsOnly(p.bth.opcode);
      var st2 := st1.(bytesReceived := (st.bytesReceived + w.written) % TWO_32,
                      expectedPsn := AdvancePsn(p.bth.psn, 1),
                      inProgress := !ends);
      ResponseStep(w.host, st2,
                   ResponseResult(true, ends, if ends then Some(ReadCqe(qpNumber, st2, Success, st2.bytesReceived)) else None))
  }

  /** One incoming READ response; its sequence number is not checked. */
  function ProcessReadResponse(h: Host, t: Regions, qpNumber: U32, st: ReadState, p: Packet): ResponseStep {
    var op := p.bth.opcode;
    if !OpcodeIsReadResponse(op) || !st.inProgress then ResponseStep(h, st, NO_RESPONSE)
    else if (OpcodeIsFirst(op) || OpcodeIsOnly(op)) && p.aeth.None? then ResponseStep(h, st, NO_RESPONSE)
    else if (OpcodeIsFirst(op) || OpcodeIsOnly(op)) && p.aeth.value.syndrome != SYNDROME_ACK then
      ResponseStep(h, st.(inProgress := false),
                   ResponseResult(false, true, Some(ReadCqe(qpNumber, st, RemoteAccessError, 0))))
    else AcceptResponse(h, t, qpNumber, st, p)
  }

  // ---------------------------------------------------------------------------
  // The processor
  // ---------------------------------------------------------------------------

  class ReadProcessor {
    const mem: SimpleHostMemory
    const table: MemoryRegionTable
    const crcTable: seq<Bits.Word>
    var requestStates: map<U32, ReadState>

    constructor (mem: SimpleHostMemory, table: MemoryRegionTable, crcTable: seq<Bits.Word>)
      ensures this.mem == mem && this.table == table && this.crcTable == crcTable && requestStates == map[]
    {
      this.mem, this.table, this.crcTable, requestStates := mem, table, crcTable, map[];
    }

    /** Records the outstanding READ and emits its request packet. */
    method GenerateReadRequest(qp: RdmaQueuePair, wqe: SendWqe) returns (packets: seq<seq<Byte>>)
      requires Crc.IsCrcTable(crcTable)
      modifies this`requestStates, qp`sqPsn
      ensures if wqe.opcode.RdmaRead? then
                && packets == [Encode(RequestBuilder(qp.destQp, old(qp.sqPsn), wqe))]
                && requestStates == old(requestStates)[qp.number := BeginRead(wqe, old(qp.sqPsn))]
                && qp.sqPsn == AdvancePsn(old(qp.sqPsn), 1)
              else packets == [] && requestStates == old(requestStates) && qp.sqPsn == old(qp.sqPsn)
    {
      hide Encode;
      if !wqe.opcode.RdmaRead? {
        return [];
      }
      var psn := qp.NextSendPsn();
      requestStates := requestStates[qp.number := BeginRead(wqe, psn)];
      var packet := Build(RequestBuilder(qp.destQp, psn, wqe), crcTable);
      packets := [packet[..]];
    }

    /** Cuts the answer into response packets, drawing sequence numbers from the send counter. */
    method GenerateReadResponses(qp: RdmaQueuePair, data: seq<Byte>) returns (builders: seq<Builder>)
      requires |data| < TWO_32
      modifies qp`sqPsn
      ensures builders == ResponseBuilders(old(qp.View()), data)
      ensures qp.sqPsn == AdvancePsn(old(qp.sqPsn), |builders|)
    {
      hide ResponseSegment;
      hide Covers;
      hide AdvancePsn;
      builders := [];
      ghost var qp0 := qp.View();
      var mtu := MtuBytes(qp.pathMtu);
      var n := PacketCount(|data|, mtu);
      PacketCountExact(|data|, mtu);
      var offset := 0;
      AdvanceNone(qp.sqPsn);
      for i := 0 to n
        invariant |builders| == i
        invariant offset == Min(i * mtu, |data|)
        invariant qp.sqPsn == AdvancePsn(qp0.sqPsn, i)
        invariant forall k :: 0 <= k < i ==> builders[k] == ResponseBuilder(qp0, data, n, k)
      {
        OffsetStep(n, |data|, mtu, i);
        var payload := data[offset..offset + Min(mtu, |data| - offset)];
        assert payload == Slice(data, mtu, i);
        AdvanceTwice(qp0.sqPsn, i, 1);
        var psn := qp.NextSendPsn();
        builders := builders + [ResponseSegment(qp.destQp, psn, i == 0, i + 1 == n, payload)];
        offset := offset + |payload|;
      }
    }

    method ReadFromRemote(rkey: U32, pd: U32, address: U64, length: U32) returns (data: Option<seq<Byte>>)
      ensures data == ReadRemote(mem.View(), table.View(), rkey, pd, address, length)
    {
      if !ValidateRkey(Regions(table.byLkey, table.byRkey, table.nextKey), rkey, pd, address, length, false) {
        return None;
      }
      data := mem.Read(address, length);
    }

    /** The responder path over the queue pair and memory computes ProcessReadRequest. */
    method ProcessReadRequestPacket(qp: RdmaQueuePair, p: Packet) returns (res: RequestResult)
      modifies qp`rqPsn, qp`sqPsn
      ensures RequestStep(qp.View(), res) == ProcessReadRequest(mem.View(), table.View(), old(qp.View()), p)
    {
      hide ResponseBuilder;
      hide ReadRemote;
      hide ValidateRkey;
      hide AdvancePsn;
      var psn := p.bth.psn;
      if p.bth.opcode != READ_REQUEST {
        return RequestResult(false, false, 0, SYNDROME_ACK, []);
      }
      if qp.state != Rtr && qp.state != Rts {
        return RefuseRead(psn, SYNDROME_INVALID_REQUEST);
      }
      if psn != qp.rqPsn {
        return RefuseRead(qp.rqPsn, SYNDROME_PSN_SEQ_ERROR);
      }
      if p.reth.None? {
        return RefuseRead(psn, SYNDROME_INVALID_REQUEST);
      }
      var reth := p.reth.value;
      if !ValidateRkey(Regions(table.byLkey, table.byRkey, table.nextKey), reth.rkey, qp.pd, reth.address, reth.dmaLength, false) {
        return RefuseRead(psn, SYNDROME_REMOTE_ACCESS_ERROR);
      }
      qp.AdvanceRecvPsn();
      var data := ReadFromRemote(reth.rkey, qp.pd, reth.address, reth.dmaLength);
      var responses := [];
      AdvanceNone(qp.sqPsn);
      if data.Some? {
        responses := GenerateReadResponses(qp, data.value);
      } else if reth.dmaLength == 0 {
        responses := GenerateReadResponses(qp, []);
      }
      if responses == [] && reth.dmaLength > 0 {
        return RefuseRead(psn, SYNDROME_REMOTE_ACCESS_ERROR);
      }
      res := RequestResult(true, false, 0, SYNDROME_ACK, responses);
    }

    /** The requester path over the outstanding READ and memory computes ProcessReadResponse. */
    method ProcessReadResponsePacket(qp: RdmaQueuePair, p: Packet) returns (res: ResponseResult)
      modifies this`requestStates, mem.buffer
      ensures if qp.number !in old(requestStates) then
                res == NO_RESPONSE && requestStates == old(requestStates) && mem.View() == old(mem.View())
              else
                var step := ProcessReadResponse(old(mem.View()), table.View(), qp.number, old(requestStates)[qp.number], p);
                mem.View() == step.host && res == step.res && requestStates == old(requestStates)[qp.number := step.st]
    {
      hide WriteSgl;
      hide OpcodeIsFirst;
      hide OpcodeIsLast;
      hide OpcodeIsOnly;
      var op := p.bth.opcode;
      if qp.number !in requestStates {
        return NO_RESPONSE;
      }
      var st := requestStates[qp.number];
      if !OpcodeIsReadResponse(op) || !st.inProgress {
        return NO_RESPONSE;
      }
      if OpcodeIsFirst(op) || OpcodeIsOnly(op) {
        if p.aeth.None? {
          return NO_RESPONSE;
        }
        if p.aeth.value.syndrome != SYNDROME_ACK {
          requestStates := requestStates[qp.number := st.(inProgress := false)];
          return ResponseResult(false, true, Some(ReadCqe(qp.number, st, RemoteAccessError, 0)));
        }
      }
      var guard := Guarded(Regions(table.byLkey, table.byRkey, table.nextKey), st.lkey);
      var written, index, offset := WriteToSgl(mem, guard, st.sgl, p.payload, st.cursor.index, st.cursor.offset);
      st := st.(cursor := Cursor(index, offset));
      if written != |p.payload| {
        requestStates := requestStates[qp.number := st.(inProgress := false)];
        return ResponseResult(false, true, Some(ReadCqe(qp.number, st, LocalAccessError, st.bytesReceived)));
      }
      var ends := OpcodeIsLast(op) || OpcodeIsOnly(op);
      st := st.(bytesReceived := (st.bytesReceived + written) % TWO_32, expectedPsn := AdvancePsn(p.bth.psn, 1), inProgress := !ends);
      res := ResponseResult(true, ends, if ends then Some(ReadCqe(qp.number, st, Success, st.bytesReceived)) else None);
      requestStates := requestStates[qp.number := st];
    }
  }
}
