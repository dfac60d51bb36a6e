/**
 * The responder of a reliable connection as a state machine, driven by an adversarial
 * channel: packets of a numbered stream arrive dropped, duplicated and reordered, mixed
 * with posted buffers and changes to the region table.
 */
module Transport {
  import opened Common
  import Sgl
  import opened RoceTypes
  import opened HostMemory
  import opened MemoryRegions
  import opened RocePacket
  import opened RoceQueuePair
  import opened SendRecv
  import opened RdmaWrite
  import opened RdmaRead

  datatype Responder = Responder(host: Host, qp: Qp, recv: RecvState, write: WriteState, cqes: seq<Cqe>)

  datatype Reply = Reply(psn: U24, syndrome: Byte)

  datatype Delivery = Delivery(next: Responder, reply: Option<Reply>, responses: seq<Builder>)

  /** The acknowledgement or refusal sent back for a processed SEND or WRITE packet. */
  function ReplyFor(res: RecvResult): Option<Reply> {
    if (if res.success then res.needsAck else res.syndrome != SYNDROME_ACK) then Some(Reply(res.ackPsn, res.syndrome)) else None
  }

  function Posted(cqes: seq<Cqe>, res: RecvResult): seq<Cqe> {
    if res.success && res.cqe.Some? then cqes + [res.cqe.value] else cqes
  }

  /** One arriving packet, dispatched by opcode. */
  function Deliver(t: Regions, s: Responder, p: Packet): Delivery {
    var op := p.bth.opcode;
    if OpcodeIsSend(op) then
      var r := ProcessRecv(s.host, s.qp, s.recv, p);
      Delivery(s.(host := r.host, qp := r.qp, recv := r.st, cqes := Posted(s.cqes, r.res)), ReplyFor(r.res), [])
    else if OpcodeIsWrite(op) then
      var r := ProcessWrite(s.host, t, s.qp, s.write, p);
      Delivery(s.(host := r.host, qp := r.qp, write := r.st, cqes := Posted(s.cqes, r.res)), ReplyFor(r.res), [])
    else if op == READ_REQUEST then
      var r := ProcessReadRequest(s.host, t, s.qp, p);
      Delivery(s.(qp := r.qp), if r.res.needsNak then Some(Reply(r.res.nakPsn, r.res.syndrome)) else None, r.res.responses)
    else Delivery(s, None, [])
  }

  /** The packet was taken: the expected sequence number moved. */
  predicate Accepts(t: Regions, s: Responder, p: Packet) { Deliver(t, s, p).next.qp.rqPsn != s.qp.rqPsn }

  // ---------------------------------------------------------------------------
  // One step
  // ---------------------------------------------------------------------------

  lemma AdvanceMoves(psn: U24)
    ensures AdvancePsn(psn, 1) != psn
  {
  }

  /** A packet with any other sequence number than the expected one leaves everything as it was. */
  lemma WrongPsnIgnored(t: Regions, s: Responder, p: Packet)
    requires p.bth.psn != s.qp.rqPsn
    ensures Deliver(t, s, p).next == s && Deliver(t, s, p).responses == []
  {
    hide AcceptSend;
    hide AcceptWrite;
    hide AnswerRead;
  }

  lemma RecvStepFacts(h: Host, qp: Qp, st: RecvState, p: Packet)
    ensures var r := ProcessRecv(h, qp, st, p);
            && r.qp.rqPsn in {qp.rqPsn, AdvancePsn(qp.rqPsn, 1)}
            && (r.qp.rqPsn == qp.rqPsn && ReplyFor(r.res) != Some(Reply(p.bth.psn, SYNDROME_REMOTE_ACCESS_ERROR)) ==>
                  r.host == h && r.qp == qp && r.st == st && !r.res.success)
            && (ReplyFor(r.res).Some? && ReplyFor(r.res).value.syndrome == SYNDROME_ACK ==>
                  r.qp.rqPsn != qp.rqPsn && ReplyFor(r.res).value.psn == p.bth.psn)
            && r.qp.state == qp.state && r.qp.pd == qp.pd && |r.host.bytes| == |h.bytes|
  {
    hide Sgl.WriteSgl;
    hide AdvancePsn;
    AdvanceMoves(qp.rqPsn);
    WriteSglSize(h, Sgl.Unguarded, st.sgl, p.payload, st.cursor);
    if qp.recvQueue != [] {
      WriteSglSize(h, Sgl.Unguarded, qp.recvQueue[0].sgl, p.payload, Sgl.START);
    }
  }

  /** Filling a list never changes the size of memory. */
  lemma {:induction false} WriteSglSize(h: Host, g: Sgl.Guard, sgl: seq<SglEntry>, data: seq<Byte>, c: Sgl.Cursor)
    ensures |Sgl.WriteSgl(h, g, sgl, data, c).host.bytes| == |h.bytes|
    decreases |sgl| - c.index, |data|
  {
    if data != [] && c.index < |sgl| {
      var e := sgl[c.index];
      var n := Sgl.Stretch(e, c.offset, |data|);
      var r := HostWrite(h, Sgl.Destination(e, c.offset), data[..n]);
      if r.Some? {
        WriteSglSize(r.value, g, sgl, data[n..], Sgl.NextCursor(e, c, n));
      }
    }
  }

  lemma WriteStepFacts(h: Host, t: Regions, qp: Qp, st: WriteState, p: Packet)
    ensures var r := ProcessWrite(h, t, qp, st, p);
            && r.qp.rqPsn in {qp.rqPsn, AdvancePsn(qp.rqPsn, 1)}
            && (r.qp.rqPsn == qp.rqPsn && ReplyFor(r.res) != Some(Reply(p.bth.psn, SYNDROME_REMOTE_ACCESS_ERROR)) ==>
                  r.host == h && r.qp == qp && r.st == st && !r.res.success)
            && (ReplyFor(r.res).Some? && ReplyFor(r.res).value.syndrome == SYNDROME_ACK ==>
                  r.qp.rqPsn != qp.rqPsn && ReplyFor(r.res).value.psn == p.bth.psn)
            && r.qp.state == qp.state && r.qp.pd == qp.pd && |r.host.bytes| == |h.bytes|
  {
    hide AdvancePsn;
    hide ValidateRkey;
    hide WriteRemote;
    hide OpcodeIsFirst;
    hide OpcodeIsLast;
    hide OpcodeIsOnly;
    AdvanceMoves(qp.rqPsn);
    WriteRemoteSize(h, t, st.rkey, qp.pd, Sum64(st.remoteAddress, st.bytesWritten), p.payload);
    if p.reth.Some? {
      WriteRemoteSize(h, t, p.reth.value.rkey, qp.pd, Sum64(p.reth.value.address, 0), p.payload);
    }
  }

  lemma WriteRemoteSize(h: Host, t: Regions, rkey: U32, pd: U32, address: U64, data: seq<Byte>)
    ensures var r := WriteRemote(h, t, rkey, pd, address, data);
            r.Some? ==> |r.value.bytes| == |h.bytes|
  {
  }

  /**
   * What one arrival can do: the expected sequence number stays or moves by one; a refusal
   * changes nothing, unless the packet was in sequence and its payload could not be stored;
   * an ACK names an accepted packet.
   */
  lemma DeliverFacts(t: Regions, s: Responder, p: Packet)
    ensures var d := Deliver(t, s, p);
            && (Accepts(t, s, p) ==> p.bth.psn == s.qp.rqPsn && d.next.qp.rqPsn == AdvancePsn(s.qp.rqPsn, 1))
            && (!Accepts(t, s, p) && d.reply != Some(Reply(p.bth.psn, SYNDROME_REMOTE_ACCESS_ERROR)) ==> d.next == s)
            && (!Accepts(t, s, p) && !Spoils(t, s, p) ==> d.next == s)
            && (d.reply.Some? && d.reply.value.syndrome == SYNDROME_ACK ==> Accepts(t, s, p) && d.reply.value.psn == p.bth.psn)
            && d.next.qp.state == s.qp.state && d.next.qp.pd == s.qp.pd && |d.next.host.bytes| == |s.host.bytes|
  {
    RecvStepFacts(s.host, s.qp, s.recv, p);
    WriteStepFacts(s.host, t, s.qp, s.write, p);
    ReadStepFacts(s.host, t, s.qp, p);
    ArrivalDecided(t, s, p);
    hide Spoils, Taken;
    if p.bth.psn != s.qp.rqPsn {
      WrongPsnIgnored(t, s, p);
    }
    hide ProcessRecv;
    hide ProcessWrite;
    hide ProcessReadRequest;
    hide AdvancePsn;
  }

  lemma ReadStepFacts(h: Host, t: Regions, qp: Qp, p: Packet)
    ensures var r := ProcessReadRequest(h, t, qp, p);
            && r.qp.rqPsn in {qp.rqPsn, AdvancePsn(qp.rqPsn, 1)}
            && (r.qp.rqPsn == qp.rqPsn ==> r.qp == qp)
            && (r.res.needsNak ==> r.res.syndrome != SYNDROME_ACK)
            && r.qp.state == qp.state && r.qp.pd == qp.pd
  {
    hide AdvancePsn;
    hide ValidateRkey;
    hide ReadRemote;
    AdvanceMoves(qp.rqPsn);
  }

  // ---------------------------------------------------------------------------
  // Which packets are taken, and which refusals leave a trace, read off the state before
  // ---------------------------------------------------------------------------

  predicate Starts(p: Packet) { OpcodeIsFirst(p.bth.opcode) || OpcodeIsOnly(p.bth.opcode) }

  /** A SEND packet that gets as far as its payload: the expected number, with a list at hand. */
  predicate SendInSequence(s: Responder, p: Packet) {
    && OpcodeIsSend(p.bth.opcode) && CanReceive(s.qp) && p.bth.psn == s.qp.rqPsn
    && if Starts(p) then s.qp.recvQueue != [] else s.recv.inProgress && s.recv.expectedPsn == p.bth.psn
  }

  /** The message state its payload is placed from. */
  function PlacedFrom(s: Responder, p: Packet): RecvState
    requires SendInSequence(s, p)
  {
    if Starts(p) then BeginRecv(s.qp.recvQueue[0], p.bth.psn) else s.recv
  }

  predicate SendFits(s: Responder, p: Packet)
    requires SendInSequence(s, p)
  {
    var st := PlacedFrom(s, p);
    Sgl.WriteSgl(s.host, Sgl.Unguarded, st.sgl, p.payload, st.cursor).written == |p.payload|
  }

  predicate WriteInSequence(t: Regions, s: Responder, p: Packet) {
    && OpcodeIsWrite(p.bth.opcode) && CanReceive(s.qp) && p.bth.psn == s.qp.rqPsn
    && if Starts(p) then p.reth.Some? && ValidateRkey(t, p.reth.value.rkey, s.qp.pd, p.reth.value.address, p.reth.value.dmaLength, true)
       else s.write.inProgress && s.write.expectedPsn == p.bth.psn
  }

  function WrittenFrom(t: Regions, s: Responder, p: Packet): WriteState
    requires WriteInSequence(t, s, p)
  {
    if Starts(p) then BeginWrite(p.reth.value, p.bth.psn) else s.write
  }

  predicate WriteFits(t: Regions, s: Responder, p: Packet)
    requires WriteInSequence(t, s, p)
  {
    var st := WrittenFrom(t, s, p);
    WriteRemote(s.host, t, st.rkey, s.qp.pd, Sum64(st.remoteAddress, st.bytesWritten), p.payload).Some?
  }

  predicate ReadInSequence(t: Regions, s: Responder, p: Packet) {
    && p.bth.opcode == READ_REQUEST && CanReceive(s.qp) && p.bth.psn == s.qp.rqPsn
    && p.reth.Some? && ValidateRkey(t, p.reth.value.rkey, s.qp.pd, p.reth.value.address, p.reth.value.dmaLength, false)
  }

  predicate Taken(t: Regions, s: Responder, p: Packet) {
    || (SendInSequence(s, p) && SendFits(s, p))
    || (WriteInSequence(t, s, p) && WriteFits(t, s, p))
    || ReadInSequence(t, s, p)
  }

  /** In sequence, but its payload cannot be stored in full: refused, with the message abandoned. */
  predicate Spoils(t: Regions, s: Responder, p: Packet) {
    (SendInSequence(s, p) && !SendFits(s, p)) || (WriteInSequence(t, s, p) && !WriteFits(t, s, p))
  }

  lemma SendDecided(s: Responder, p: Packet)
    ensures var r := ProcessRecv(s.host, s.qp, s.recv, p);
            && (r.qp.rqPsn != s.qp.rqPsn <==> SendInSequence(s, p) && SendFits(s, p))
            && (!SendInSequence(s, p) ==> r.host == s.host && r.qp == s.qp && r.st == s.recv && !r.res.success)
            && (SendInSequence(s, p) && !SendFits(s, p) ==>
                  && !r.res.success && !r.st.inProgress
                  && r.qp == (if Starts(p) then s.qp.(recvQueue := s.qp.recvQueue[1..]) else s.qp)
                  && (r.qp != s.qp || r.st != s.recv))
  {
    hide Sgl.WriteSgl, AdvancePsn, OpcodeIsLast, OpcodeIsFirst, OpcodeIsOnly, OpcodeIsSend;
    AdvanceMoves(s.qp.rqPsn);
    if s.qp.recvQueue != [] {
      assert |s.qp.recvQueue[1..]| < |s.qp.recvQueue|;
    }
  }

  lemma WriteDecided(t: Regions, s: Responder, p: Packet)
    ensures var r := ProcessWrite(s.host, t, s.qp, s.write, p);
            && (r.qp.rqPsn != s.qp.rqPsn <==> WriteInSequence(t, s, p) && WriteFits(t, s, p))
            && (!WriteInSequence(t, s, p) ==> r.host == s.host && r.qp == s.qp && r.st == s.write && !r.res.success)
            && (WriteInSequence(t, s, p) && !WriteFits(t, s, p) ==>
                  r.host == s.host && r.qp == s.qp && r.st == WrittenFrom(t, s, p).(inProgress := false) && !r.res.success)
  {
    hide AdvancePsn, ValidateRkey, WriteRemote, OpcodeIsFirst, OpcodeIsLast, OpcodeIsOnly, OpcodeIsWrite;
    AdvanceMoves(s.qp.rqPsn);
  }

  lemma ReadDecided(t: Regions, s: Responder, p: Packet)
    ensures ProcessReadRequest(s.host, t, s.qp, p).qp.rqPsn != s.qp.rqPsn <==> ReadInSequence(t, s, p)
    ensures !ReadInSequence(t, s, p) ==> ProcessReadRequest(s.host, t, s.qp, p).qp == s.qp
  {
    hide AdvancePsn, ValidateRkey, ReadRemote, ResponseBuilders;
    AdvanceMoves(s.qp.rqPsn);
  }

  /**
   * The state before an arrival decides it: a packet is taken exactly when it is in sequence
   * and its payload can be stored; a packet that is neither taken nor spoils its message
   * changes nothing; a SEND that spoils its message always changes the state, and a WRITE
   * that does so changes the message state alone.
   */
  lemma ArrivalDecided(t: Regions, s: Responder, p: Packet)
    ensures Accepts(t, s, p) <==> Taken(t, s, p)
    ensures !Taken(t, s, p) && !Spoils(t, s, p) ==> Deliver(t, s, p).next == s
    ensures SendInSequence(s, p) && !SendFits(s, p) ==>
              var s' := Deliver(t, s, p).next;
              && s' != s && !s'.recv.inProgress && s'.cqes == s.cqes && s'.write == s.write
              && s'.qp == (if Starts(p) then s.qp.(recvQueue := s.qp.recvQueue[1..]) else s.qp)
    ensures WriteInSequence(t, s, p) && !WriteFits(t, s, p) ==>
              Deliver(t, s, p).next == s.(write := WrittenFrom(t, s, p).(inProgress := false))
  {
    SendDecided(s, p);
    WriteDecided(t, s, p);
    ReadDecided(t, s, p);
    hide ProcessRecv, ProcessWrite, ProcessReadRequest, SendFits, WriteFits, PlacedFrom, WrittenFrom, ValidateRkey, Starts;
  }

  /** For a list that lies in memory, without faults, not fitting means a payload longer than the room left. */
  lemma FitsIffRoom(s: Responder, p: Packet)
    requires SendInSequence(s, p) && FaultFree(s.host)
    requires var st := PlacedFrom(s, p); Sgl.InRange(st.sgl, |s.host.bytes|) && Sgl.CursorOk(st.sgl, st.cursor)
    ensures var st := PlacedFrom(s, p); SendFits(s, p) <==> |p.payload| <= |Sgl.Remaining(st.sgl, st.cursor)|
  {
    hide Sgl.WriteSgl, Sgl.Remaining, Sgl.InRange, Sgl.CursorOk, SendInSequence;
    var st := PlacedFrom(s, p);
    assert Sgl.GuardOpen(Sgl.Unguarded, st.sgl);
    Sgl.WriteSglIsScatter(s.host, Sgl.Unguarded, st.sgl, p.payload, st.cursor);
  }

  // ---------------------------------------------------------------------------
  // Runs
  // ---------------------------------------------------------------------------

  datatype Event =
    | Arrive(packet: Packet)
    | PostBuffer(wqe: RecvWqe)
    | RegisterRegion(pd: U32, address: U64, length: U64, access: Access)
    | DeregisterRegion(lkey: nat)

  datatype System = System(regions: Regions, maxRegions: nat, recvDepth: nat, r: Responder)

  function Step(s: System, e: Event): System {
    match e
    case Arrive(p) => s.(r := Deliver(s.regions, s.r, p).next)
    case PostBuffer(wqe) =>
      if s.r.qp.state in {Init, Rtr, Rts} && |s.r.qp.recvQueue| < s.recvDepth
      then s.(r := s.r.(qp := s.r.qp.(recvQueue := s.r.qp.recvQueue + [wqe]))) else s
    case RegisterRegion(pd, address, length, access) =>
      s.(regions := Register(s.regions, s.maxRegions, pd, address, length, access).0)
    case DeregisterRegion(lkey) => s.(regions := Deregister(s.regions, lkey))
  }

  function Run(s: System, events: seq<Event>): System {
    if events == [] then s else Step(Run(s, events[..|events| - 1]), events[|events| - 1])
  }

  /** The packets that moved the expected sequence number, in order. */
  function Accepted(s: System, events: seq<Event>): seq<Packet> {
    if events == [] then [] else
    var before, e := events[..|events| - 1], events[|events| - 1];
    var s' := Run(s, before);
    Accepted(s, before) + if e.Arrive? && Accepts(s'.regions, s'.r, e.packet) then [e.packet] else []
  }

  /** Everything sent back. */
  function Replies(s: System, events: seq<Event>): seq<Reply> {
    if events == [] then [] else
    var before, e := events[..|events| - 1], events[|events| - 1];
    var s' := Run(s, before);
    Replies(s, before) + if e.Arrive? then Sent(Deliver(s'.regions, s'.r, e.packet).reply) else []
  }

  function Sent(reply: Option<Reply>): seq<Reply> { if reply.Some? then [reply.value] else [] }

  /** The events that matter: all but the arrivals that were not taken. */
  function Effective(s: System, events: seq<Event>): seq<Event> {
    if events == [] then [] else
    var before, e := events[..|events| - 1], events[|events| - 1];
    var s' := Run(s, before);
    Effective(s, before) + if e.Arrive? && !Accepts(s'.regions, s'.r, e.packet) then [] else [e]
  }

  /** Numbered one after the other from start, wrapping as often as needed. */
  predicate Consecutive(stream: seq<Packet>, start: U24) {
    forall k :: 0 <= k < |stream| ==> stream[k].bth.psn == AdvancePsn(start, k)
  }

  /** Fewer than 2^24 packets, numbered consecutively from start. */
  predicate Numbered(stream: seq<Packet>, start: U24) { |stream| < TWO_24 && Consecutive(stream, start) }

  /** p is a packet of the stream less than 2^24 places away from the m-th. */
  predicate Nearby(stream: seq<Packet>, m: nat, p: Packet) {
    exists k :: 0 <= k < |stream| && stream[k] == p && -TWO_24 < k - m < TWO_24
  }

  /** Every arrival is a copy of a packet of the stream less than 2^24 places away from the next one due. */
  ghost predicate DrawnNearby(s: System, events: seq<Event>, stream: seq<Packet>) {
    forall i :: 0 <= i < |events| && events[i].Arrive? ==> Nearby(stream, |Accepted(s, events[..i])|, events[i].packet)
  }

  /** Every arrival is a copy of some packet of the stream. */
  predicate DrawnFrom(events: seq<Event>, stream: seq<Packet>) {
    forall i :: 0 <= i < |events| && events[i].Arrive? ==> events[i].packet in stream
  }

  /**
   * Over any channel, the packets taken are a prefix of the stream, in order and each once,
   * and the expected sequence number counts them.
   */
  lemma {:induction false} LossyChannelSafety(s: System, events: seq<Event>, stream: seq<Packet>)
    requires Numbered(stream, s.r.qp.rqPsn) && DrawnFrom(events, stream)
    ensures Accepted(s, events) <= stream
    ensures Run(s, events).r.qp.rqPsn == AdvancePsn(s.r.qp.rqPsn, |Accepted(s, events)|)
    decreases |events|
  {
    hide Deliver;
    if events == [] {
      AdvanceNone(s.r.qp.rqPsn);
    } else {
      var before, e := events[..|events| - 1], events[|events| - 1];
      LossyChannelSafety(s, before, stream);
      if e.Arrive? {
        assert events[|events| - 1].packet in stream;
        assert Nearby(stream, |Accepted(s, before)|, e.packet);
        TakenIsNext(Run(s, before), e.packet, stream, s.r.qp.rqPsn, |Accepted(s, before)|);
      }
    }
  }

  /** With m packets taken, only packet number m of the stream can be taken next. */
  lemma TakenIsNext(s: System, p: Packet, stream: seq<Packet>, start: U24, m: nat)
    requires Consecutive(stream, start) && Nearby(stream, m, p) && m <= |stream|
    requires s.r.qp.rqPsn == AdvancePsn(start, m)
    ensures Accepts(s.regions, s.r, p) ==> m < |stream| && p == stream[m]
    ensures Step(s, Arrive(p)).r.qp.rqPsn == AdvancePsn(start, if Accepts(s.regions, s.r, p) then m + 1 else m)
  {
    DeliverFacts(s.regions, s.r, p);
    hide Deliver;
    hide AdvancePsn;
    var k :| 0 <= k < |stream| && stream[k] == p && -TWO_24 < k - m < TWO_24;
    if Accepts(s.regions, s.r, p) {
      AdvanceInjective(start, k, m);
      AdvanceTwice(start, m, 1);
    }
  }

  lemma DrawnBefore(s: System, events: seq<Event>, stream: seq<Packet>)
    requires events != [] && DrawnNearby(s, events, stream)
    ensures var before, e := events[..|events| - 1], events[|events| - 1];
            DrawnNearby(s, before, stream) && (e.Arrive? ==> Nearby(stream, |Accepted(s, before)|, e.packet))
  {
    hide Accepted, Nearby;
    var before := events[..|events| - 1];
    assert forall i :: 0 <= i < |before| ==> before[..i] == events[..i] && before[i] == events[i];
  }

  /**
   * A connection of any length: as long as no copy older or newer than the window of 2^24
   * packets arrives, the packets taken are a prefix of the stream however often its numbers wrap.
   */
  lemma {:induction false} LongStreamSafety(s: System, events: seq<Event>, stream: seq<Packet>)
    requires Consecutive(stream, s.r.qp.rqPsn) && DrawnNearby(s, events, stream)
    ensures Accepted(s, events) <= stream
    ensures Run(s, events).r.qp.rqPsn == AdvancePsn(s.r.qp.rqPsn, |Accepted(s, events)|)
    decreases |events|
  {
    hide Deliver, Accepts, Nearby, AdvancePsn, DrawnNearby;
    if events == [] {
      AdvanceNone(s.r.qp.rqPsn);
    } else {
      var before, e := events[..|events| - 1], events[|events| - 1];
      DrawnBefore(s, events, stream);
      LongStreamSafety(s, before, stream);
      if e.Arrive? {
        TakenIsNext(Run(s, before), e.packet, stream, s.r.qp.rqPsn, |Accepted(s, before)|);
      }
    }
  }

  /** No arrival of the run is in sequence with a payload that cannot be stored. */
  predicate NothingSpoilt(s: System, events: seq<Event>) {
    forall i :: 0 <= i < |events| && events[i].Arrive? ==>
      var s' := Run(s, events[..i]); !Spoils(s'.regions, s'.r, events[i].packet)
  }

  /**
   * In a run where every packet in sequence can be stored, the arrivals that were not taken
   * left no trace: the run ends where the in-order run of its effective events ends.
   */
  lemma {:induction false} LossesAreInvisible(s: System, events: seq<Event>)
    requires NothingSpoilt(s, events)
    ensures Run(s, Effective(s, events)) == Run(s, events)
    decreases |events|
  {
    hide Deliver, Accepts, Taken, Spoils;
    if events != [] {
      var before, e := events[..|events| - 1], events[|events| - 1];
      var s' := Run(s, before);
      assert forall i :: 0 <= i < |before| ==> before[..i] == events[..i] && before[i] == events[i];
      LossesAreInvisible(s, before);
      if e.Arrive? && !Accepts(s'.regions, s'.r, e.packet) {
        ArrivalDecided(s'.regions, s'.r, e.packet);
        assert Effective(s, events) == Effective(s, before);
      } else {
        assert Effective(s, events)[..|Effective(s, before)|] == Effective(s, before);
      }
    }
  }

  /** The arrivals among the effective events are exactly the packets taken, in order. */
  function Arrivals(events: seq<Event>): seq<Packet> {
    if events == [] then [] else
    var e := events[|events| - 1];
    Arrivals(events[..|events| - 1]) + if e.Arrive? then [e.packet] else []
  }

  lemma {:induction false} EffectiveArrivals(s: System, events: seq<Event>)
    ensures Arrivals(Effective(s, events)) == Accepted(s, events)
    decreases |events|
  {
    hide Accepts;
    if events != [] {
      var before := events[..|events| - 1];
      EffectiveArrivals(s, before);
      var kept := Effective(s, events);
      if |kept| > |Effective(s, before)| {
        assert kept[..|kept| - 1] == Effective(s, before);
      } else {
        assert kept == Effective(s, before);
        assert Accepted(s, events) == Accepted(s, before);
      }
    }
  }

  /** For each reply, how many packets had been taken before it: for an ACK, the index of the packet it answers. */
  function ReplyIndices(s: System, events: seq<Event>): (r: seq<nat>)
    ensures |r| == |Replies(s, events)|
  {
    if events == [] then [] else
    var before, e := events[..|events| - 1], events[|events| - 1];
    var s' := Run(s, before);
    ReplyIndices(s, before)
    + if e.Arrive? && Deliver(s'.regions, s'.r, e.packet).reply.Some? then [|Accepted(s, before)|] else []
  }

  /** An ACK names the packet that was taken when it was sent. */
  lemma {:induction false} AckIndex(s: System, events: seq<Event>, i: nat)
    requires i < |Replies(s, events)| && Replies(s, events)[i].syndrome == SYNDROME_ACK
    ensures var k := ReplyIndices(s, events)[i];
            k < |Accepted(s, events)| && Accepted(s, events)[k].bth.psn == Replies(s, events)[i].psn
    decreases |events|
  {
    hide Deliver;
    hide Accepts;
    var before, e := events[..|events| - 1], events[|events| - 1];
    var s' := Run(s, before);
    if i < |Replies(s, before)| {
      AckIndex(s, before, i);
      var k := ReplyIndices(s, before)[i];
      assert Accepted(s, events)[k] == Accepted(s, before)[k];
    } else {
      AckNamesPacket(s'.regions, s'.r, e.packet);
      assert Accepted(s, events)[|Accepted(s, before)|] == e.packet;
    }
  }

  /** Copies of a stream of fewer than 2^24 packets are never far from the next packet due. */
  lemma DrawnIsNearby(s: System, events: seq<Event>, stream: seq<Packet>)
    requires Numbered(stream, s.r.qp.rqPsn) && DrawnFrom(events, stream)
    ensures DrawnNearby(s, events, stream)
  {
    hide Run, Accepted;
    forall i | 0 <= i < |events| && events[i].Arrive? ensures Nearby(stream, |Accepted(s, events[..i])|, events[i].packet) {
      LossyChannelSafety(s, events[..i], stream);
      var k :| 0 <= k < |stream| && stream[k] == events[i].packet;
    }
  }

  /** Every ACK ever sent names a packet among those taken so far. */
  lemma {:induction false} AcksNameTakenPackets(s: System, events: seq<Event>, i: nat)
    requires i < |Replies(s, events)| && Replies(s, events)[i].syndrome == SYNDROME_ACK
    ensures exists k :: 0 <= k < |Accepted(s, events)| && Accepted(s, events)[k].bth.psn == Replies(s, events)[i].psn
    decreases |events|
  {
    hide Deliver;
    hide Accepts;
    var before, e := events[..|events| - 1], events[|events| - 1];
    var s' := Run(s, before);
    if i < |Replies(s, before)| {
      AcksNameTakenPackets(s, before, i);
      var k :| 0 <= k < |Accepted(s, before)| && Accepted(s, before)[k].bth.psn == Replies(s, before)[i].psn;
      assert Accepted(s, events)[k] == Accepted(s, before)[k];
    } else {
      AckNamesPacket(s'.regions, s'.r, e.packet);
      assert Accepted(s, events)[|Accepted(s, before)|] == e.packet;
    }
  }

  lemma AckNamesPacket(t: Regions, s: Responder, p: Packet)
    requires Deliver(t, s, p).reply.Some? && Deliver(t, s, p).reply.value.syndrome == SYNDROME_ACK
    ensures Accepts(t, s, p) && Deliver(t, s, p).reply.value.psn == p.bth.psn
  {
    DeliverFacts(t, s, p);
    hide Deliver;
  }
}
