/**
 * Whole messages over the lossy channel: whatever it drops, repeats or reorders, the responder
 * is always where in-order delivery of the packets it has taken would put it.
 */
module LossyDelivery {
  import opened Common
  import opened RoceTypes
  import opened HostMemory
  import opened MemoryRegions
  import opened Sgl
  import opened RocePacket
  import opened RoceQueuePair
  import opened SendRecv
  import opened RdmaWrite
  import opened RdmaRead
  import opened Transport
  import opened SendEndToEnd
  import WriteEndToEnd
  import ReadEndToEnd
  import opened Connection

  // ---------------------------------------------------------------------------
  // Any stream that in-order delivery takes in full
  // ---------------------------------------------------------------------------

  /** The last packet of a WRITE with immediate, and no receive entry to report it through. */
  predicate Starving(t: Regions, s: Responder, p: Packet) {
    && WriteInSequence(t, s, p) && (OpcodeIsLast(p.bth.opcode) || OpcodeIsOnly(p.bth.opcode))
    && (p.immediate.Some? || WrittenFrom(t, s, p).immediate.Some?) && s.qp.recvQueue == []
  }

  /** Delivered in order, every packet of the stream is taken, and, if fed, none of them finds its receive entry missing. */
  ghost predicate Flows(t: Regions, s: Responder, stream: seq<Packet>, fed: bool) {
    forall m :: 0 <= m < |stream| ==>
      && Accepts(t, Transmit(t, s, stream[..m]), stream[m])
      && (fed ==> !Starving(t, Transmit(t, s, stream[..m]), stream[m]))
  }

  /** The same responder with more receive entries posted behind those it has. */
  function WithBuffers(s: Responder, more: seq<RecvWqe>): Responder {
    s.(qp := s.qp.(recvQueue := s.qp.recvQueue + more))
  }

  /** Every region of t is still there in t'. */
  predicate Extends(t: Regions, t': Regions) { forall k <- t.byRkey :: k in t'.byRkey && t'.byRkey[k] == t.byRkey[k] }

  /** A SEND packet that is taken does the same with more receive entries behind. */
  lemma SendWithMore(s: Responder, more: seq<RecvWqe>, p: Packet)
    requires SendInSequence(s, p)
    ensures var r, r' := ProcessRecv(s.host, s.qp, s.recv, p), ProcessRecv(s.host, WithBuffers(s, more).qp, s.recv, p);
            r' == r.(qp := r.qp.(recvQueue := r.qp.recvQueue + more))
  {
    hide Sgl.WriteSgl, AdvancePsn, OpcodeIsFirst, OpcodeIsLast, OpcodeIsOnly, OpcodeIsSend;
    if s.qp.recvQueue != [] {
      assert (s.qp.recvQueue + more)[1..] == s.qp.recvQueue[1..] + more && (s.qp.recvQueue + more)[0] == s.qp.recvQueue[0];
    }
  }

  lemma WriteWithMore(t: Regions, t': Regions, s: Responder, more: seq<RecvWqe>, p: Packet)
    requires Extends(t, t') && WriteInSequence(t, s, p) && WriteFits(t, s, p) && (more == [] || !Starving(t, s, p))
    ensures var r, r' := ProcessWrite(s.host, t, s.qp, s.write, p), ProcessWrite(s.host, t', WithBuffers(s, more).qp, s.write, p);
            r' == r.(qp := r.qp.(recvQueue := r.qp.recvQueue + more))
  {
    var st := WrittenFrom(t, s, p);
    var address := Sum64(st.remoteAddress, st.bytesWritten);
    assert WriteRemote(s.host, t', st.rkey, s.qp.pd, address, p.payload) == WriteRemote(s.host, t, st.rkey, s.qp.pd, address, p.payload);
    assert Starts(p) ==> ValidateRkey(t', p.reth.value.rkey, s.qp.pd, p.reth.value.address, p.reth.value.dmaLength, true);
    hide AdvancePsn, ValidateRkey, WriteRemote, OpcodeIsFirst, OpcodeIsLast, OpcodeIsOnly, OpcodeIsWrite;
    if s.qp.recvQueue != [] {
      assert (s.qp.recvQueue + more)[1..] == s.qp.recvQueue[1..] + more && (s.qp.recvQueue + more)[0] == s.qp.recvQueue[0];
    }
  }

  lemma ReadWithMore(t: Regions, t': Regions, s: Responder, more: seq<RecvWqe>, p: Packet)
    requires Extends(t, t') && ReadInSequence(t, s, p)
    ensures var r, r' := ProcessReadRequest(s.host, t, s.qp, p), ProcessReadRequest(s.host, t', WithBuffers(s, more).qp, p);
            r'.res == r.res && r'.qp == r.qp.(recvQueue := r.qp.recvQueue + more)
  {
    var reth := p.reth.value;
    assert ValidateRkey(t', reth.rkey, s.qp.pd, reth.address, reth.dmaLength, false);
    hide AdvancePsn, ValidateRkey, ResponseBuilder, MtuBytes, PacketCount;
  }

  /** A packet that is taken does the same with more receive entries and more regions around. */
  lemma TakenWithMore(t: Regions, t': Regions, s: Responder, more: seq<RecvWqe>, p: Packet)
    requires Extends(t, t') && Accepts(t, s, p) && (more == [] || !Starving(t, s, p))
    ensures var d, d' := Deliver(t, s, p), Deliver(t', WithBuffers(s, more), p);
            d' == d.(next := WithBuffers(d.next, more)) && Accepts(t', WithBuffers(s, more), p)
  {
    ArrivalDecided(t, s, p);
    if SendInSequence(s, p) {
      SendWithMore(s, more, p);
    } else if WriteInSequence(t, s, p) {
      WriteWithMore(t, t', s, more, p);
    } else {
      ReadWithMore(t, t', s, more, p);
    }
    hide ProcessRecv, ProcessWrite, ProcessReadRequest, SendFits, WriteFits, ValidateRkey, Starts, AdvancePsn, WriteRemote, Sgl.WriteSgl, Starving, Extends;
  }

  /**
   * A responder in step with a stream of any length, and a channel that only carries copies of
   * its packets, none of them 2^24 places or more away from the next one due. In between,
   * receive entries may be posted, if the stream is fed without them, and regions registered.
   */
  ghost predicate OverChannel(s: System, events: seq<Event>, stream: seq<Packet>, fed: bool) {
    && Consecutive(stream, s.r.qp.rqPsn) && Flows(s.regions, s.r, stream, fed) && Consistent(s.regions)
    && OnlyAdds(events, fed) && DrawnNearby(s, events, stream)
  }

  /** No region is deregistered, and receive entries are posted only if the stream is fed. */
  predicate OnlyAdds(events: seq<Event>, fed: bool) {
    forall i :: 0 <= i < |events| ==> !events[i].DeregisterRegion? && (events[i].PostBuffer? ==> fed)
  }

  /** The receive entries a run has posted. */
  function BuffersPosted(s: System, events: seq<Event>): seq<RecvWqe> {
    if events == [] then [] else
    var before, e := events[..|events| - 1], events[|events| - 1];
    var s' := Run(s, before);
    BuffersPosted(s, before)
    + if e.PostBuffer? && s'.r.qp.state in {Init, Rtr, Rts} && |s'.r.qp.recvQueue| < s'.recvDepth then [e.wqe] else []
  }

  lemma {:induction false} FlowCounts(t: Regions, s: Responder, stream: seq<Packet>, fed: bool, m: nat)
    requires Flows(t, s, stream, fed) && m <= |stream|
    ensures Transmit(t, s, stream[..m]).qp.rqPsn == AdvancePsn(s.qp.rqPsn, m)
    decreases m
  {
    hide Deliver, Accepts, AdvancePsn, Starving;
    if m == 0 {
      AdvanceNone(s.qp.rqPsn);
    } else {
      FlowCounts(t, s, stream, fed, m - 1);
      TransmitNext(t, s, stream, m - 1);
      DeliverFacts(t, Transmit(t, s, stream[..m - 1]), stream[m - 1]);
      AdvanceTwice(s.qp.rqPsn, m - 1, 1);
    }
  }

  /** With m packets taken in order, packet m is taken when it arrives and any other nearby is ignored. */
  lemma PrefixStep(t: Regions, t': Regions, s: Responder, stream: seq<Packet>, fed: bool, m: nat, more: seq<RecvWqe>, p: Packet)
    requires Extends(t, t') && Consecutive(stream, s.qp.rqPsn) && Flows(t, s, stream, fed) && (more == [] || fed)
    requires m <= |stream| && Nearby(stream, m, p)
    ensures var before := Transmit(t, s, stream[..m]); var d := Deliver(t', WithBuffers(before, more), p);
            if m < |stream| && p == stream[m] then
              && Accepts(t', WithBuffers(before, more), p) && d.next == WithBuffers(Transmit(t, s, stream[..m + 1]), more)
              && d.responses == Deliver(t, before, p).responses && d.reply == Deliver(t, before, p).reply
            else !Accepts(t', WithBuffers(before, more), p) && d.next == WithBuffers(before, more) && d.responses == []
  {
    hide Deliver, AdvancePsn, Transmit, Starving, Extends;
    var before := Transmit(t, s, stream[..m]);
    FlowCounts(t, s, stream, fed, m);
    var k :| 0 <= k < |stream| && stream[k] == p && -TWO_24 < k - m < TWO_24;
    if k == m {
      TransmitNext(t, s, stream, m);
      TakenWithMore(t, t', before, more, p);
    } else {
      if p.bth.psn == before.qp.rqPsn {
        AdvanceInjective(s.qp.rqPsn, k, m);
      }
      WrongPsnIgnored(t', WithBuffers(before, more), p);
    }
  }

  /** The READ responses a run puts on the wire, in order. */
  function Emitted(s: System, events: seq<Event>): seq<Builder> {
    if events == [] then [] else
    var before, e := events[..|events| - 1], events[|events| - 1];
    var s' := Run(s, before);
    Emitted(s, before) + if e.Arrive? then Deliver(s'.regions, s'.r, e.packet).responses else []
  }

  /** The READ responses that in-order delivery puts on the wire. */
  function EmittedInOrder(t: Regions, s: Responder, packets: seq<Packet>): seq<Builder> {
    if packets == [] then [] else
    var before := packets[..|packets| - 1];
    EmittedInOrder(t, s, before) + Deliver(t, Transmit(t, s, before), packets[|packets| - 1]).responses
  }

  lemma EmittedNext(t: Regions, s: Responder, stream: seq<Packet>, m: nat)
    requires m < |stream|
    ensures EmittedInOrder(t, s, stream[..m + 1])
            == EmittedInOrder(t, s, stream[..m]) + Deliver(t, Transmit(t, s, stream[..m]), stream[m]).responses
  {
    hide Deliver, Transmit;
    assert stream[..m + 1][..m] == stream[..m];
  }

  /**
   * At every moment the responder is in the state of loss-free delivery of the packets it has
   * taken, with the receive entries posted meanwhile behind its own, and has sent exactly the
   * responses that this delivery would have sent.
   */
  lemma {:induction false} LossyRunIsPrefix(s: System, events: seq<Event>, stream: seq<Packet>, fed: bool)
    requires OverChannel(s, events, stream, fed)
    ensures Accepted(s, events) <= stream
    ensures Consistent(Run(s, events).regions) && Extends(s.regions, Run(s, events).regions)
    ensures BuffersPosted(s, events) == [] || fed
    ensures Run(s, events).r == WithBuffers(Transmit(s.regions, s.r, stream[..|Accepted(s, events)|]), BuffersPosted(s, events))
    ensures Emitted(s, events) == EmittedInOrder(s.regions, s.r, stream[..|Accepted(s, events)|])
    decreases |events|
  {
    hide Deliver, Accepts, Transmit, Flows, Consecutive, DrawnNearby, Nearby, EmittedInOrder, Consistent, Extends, Register;
    if events == [] {
      NothingSent(s.regions, s.r, stream);
      NothingAdded(s.regions, s.r);
    } else {
      var before, e := events[..|events| - 1], events[|events| - 1];
      var m, s', more := |Accepted(s, before)|, Run(s, before), BuffersPosted(s, before);
      DrawnBefore(s, events, stream);
      assert !e.DeregisterRegion? && (e.PostBuffer? ==> fed);
      LossyRunIsPrefix(s, before, stream, fed);
      match e {
        case Arrive(p) =>
          PrefixStep(s.regions, s'.regions, s.r, stream, fed, m, more, p);
          if m < |stream| && p == stream[m] {
            EmittedNext(s.regions, s.r, stream, m);
          }
        case PostBuffer(wqe) =>
          MoreBuffers(Transmit(s.regions, s.r, stream[..m]), more, wqe);
        case RegisterRegion(pd, address, length, access) =>
          RegisterExtends(s.regions, s'.regions, s'.maxRegions, pd, address, length, access);
      }
    }
  }

  lemma NothingSent(t: Regions, s: Responder, stream: seq<Packet>)
    ensures Transmit(t, s, stream[..0]) == s && EmittedInOrder(t, s, stream[..0]) == []
  {
  }

  lemma NothingAdded(t: Regions, s: Responder)
    ensures WithBuffers(s, []) == s && Extends(t, t)
  {
    assert s.qp.recvQueue + [] == s.qp.recvQueue;
  }

  lemma MoreBuffers(s: Responder, more: seq<RecvWqe>, wqe: RecvWqe)
    ensures WithBuffers(s, more + [wqe]) == WithBuffers(WithBuffers(s, more), [wqe])
  {
    assert s.qp.recvQueue + (more + [wqe]) == s.qp.recvQueue + more + [wqe];
  }

  lemma RegisterExtends(t: Regions, t': Regions, maxRegions: nat, pd: U32, address: U64, length: U64, access: Access)
    requires Extends(t, t') && Consistent(t')
    ensures var t'' := Register(t', maxRegions, pd, address, length, access).0; Extends(t, t'') && Consistent(t'')
  {
    RegisterKeepsConsistent(t', maxRegions, pd, address, length, access);
  }

  /** Once every packet has been taken, the run has ended as loss-free delivery would. */
  lemma LossyRunCompletes(s: System, events: seq<Event>, stream: seq<Packet>, fed: bool)
    requires OverChannel(s, events, stream, fed) && |Accepted(s, events)| == |stream|
    ensures Run(s, events).r == WithBuffers(Transmit(s.regions, s.r, stream), BuffersPosted(s, events))
    ensures Emitted(s, events) == EmittedInOrder(s.regions, s.r, stream)
  {
    hide Run, Accepted, Transmit, Flows, Emitted, EmittedInOrder;
    LossyRunIsPrefix(s, events, stream, fed);
    assert stream[..|stream|] == stream;
  }

  /** Within 2^24 packets the expected sequence number tells that every packet has been taken. */
  lemma CaughtUp(s: System, events: seq<Event>, stream: seq<Packet>, fed: bool)
    requires OverChannel(s, events, stream, fed) && |stream| < TWO_24
    requires Run(s, events).r.qp.rqPsn == AdvancePsn(s.r.qp.rqPsn, |stream|)
    ensures |Accepted(s, events)| == |stream|
  {
    hide Run, Accepted, AdvancePsn, Transmit, Flows, Emitted, EmittedInOrder;
    LossyRunIsPrefix(s, events, stream, fed);
    FlowCounts(s.regions, s.r, stream, fed, |Accepted(s, events)|);
    AdvanceInjective(s.r.qp.rqPsn, |Accepted(s, events)|, |stream|);
  }

  /** The next packet in order is always taken when a copy of it arrives, so retransmission makes progress. */
  lemma NextPacketIsTaken(s: System, events: seq<Event>, stream: seq<Packet>, fed: bool)
    requires OverChannel(s, events, stream, fed) && |Accepted(s, events)| < |stream|
    ensures var p := stream[|Accepted(s, events)|];
            Accepted(s, events + [Arrive(p)]) == Accepted(s, events) + [p]
  {
    hide Deliver, Accepts, Run, Transmit, Flows, Consecutive, Emitted, EmittedInOrder, Extends, Consistent;
    LossyRunIsPrefix(s, events, stream, fed);
    var m := |Accepted(s, events)|;
    assert Nearby(stream, m, stream[m]);
    PrefixStep(s.regions, Run(s, events).regions, s.r, stream, fed, m, BuffersPosted(s, events), stream[m]);
    assert (events + [Arrive(stream[m])])[..|events|] == events;
  }

  // ---------------------------------------------------------------------------
  // Which postings flow
  // ---------------------------------------------------------------------------

  /** The packets of one posting as the responder sees them. */
  function PostingStream(qp: Qp, p: Posting): seq<Packet>
    requires WellFormed(p)
  {
    HeadersOf(Packets(qp, p))
  }

  /** The responder can serve the posting: a list with room, a granted range, or a readable one. */
  ghost predicate Servable(t: Regions, s: Responder, qp: Qp, p: Posting)
    requires WellFormed(p)
  {
    && p.wqe.totalLength + MtuBytes(if p.wqe.opcode.RdmaRead? then s.qp.pathMtu else qp.pathMtu) - 1 < TWO_32
    && match p.wqe.opcode
       case Send => Ready(s, qp) && |p.msg| <= |Buffer(s)|
       case SendImm => Ready(s, qp) && |p.msg| <= |Buffer(s)|
       case RdmaWrite => WriteEndToEnd.Granted(t, s, qp, p.wqe)
       case RdmaWriteImm => WriteEndToEnd.Granted(t, s, qp, p.wqe)
       case RdmaRead => ReadEndToEnd.ReadGranted(t, s.host, s.qp, qp.sqPsn, p.wqe)
  }

  /** The posting has had its whole effect, and nothing else has. */
  ghost predicate Served(t: Regions, s: Responder, qp: Qp, p: Posting, s': Responder)
    requires WellFormed(p) && Servable(t, s, qp, p)
  {
    match p.wqe.opcode
    case Send => Completed(s, qp, p.wqe, p.msg, s')
    case SendImm => Completed(s, qp, p.wqe, p.msg, s')
    case RdmaWrite => WriteEndToEnd.Written(s, qp, p.wqe, p.msg, s')
    case RdmaWriteImm => WriteEndToEnd.Written(s, qp, p.wqe, p.msg, s')
    case RdmaRead => s' == s.(qp := s.qp.(rqPsn := AdvancePsn(qp.sqPsn, 1), sqPsn := AdvancePsn(s.qp.sqPsn, |ReadAnswer(t, s, qp, p)|)))
  }

  /** The responses a granted READ is answered with: those of the remote bytes at that moment. */
  ghost function ReadAnswer(t: Regions, s: Responder, qp: Qp, p: Posting): seq<Builder>
    requires WellFormed(p) && Servable(t, s, qp, p) && p.wqe.opcode.RdmaRead?
  {
    ResponseBuilders(s.qp.(rqPsn := AdvancePsn(s.qp.rqPsn, 1)), ReadEndToEnd.Wanted(s.host, p.wqe))
  }

  /** The responses a posting draws: those of a READ, and none otherwise. */
  ghost function Answered(t: Regions, s: Responder, qp: Qp, p: Posting): seq<Builder>
    requires WellFormed(p) && Servable(t, s, qp, p)
  {
    if p.wqe.opcode.RdmaRead? then ReadAnswer(t, s, qp, p) else []
  }

  lemma OnlyReadsAnswer(t: Regions, s: Responder, p: Packet)
    requires p.bth.opcode != READ_REQUEST
    ensures Deliver(t, s, p).responses == []
  {
    hide ProcessRecv, ProcessWrite, ProcessReadRequest;
  }

  /** Messages other than READs draw no responses. */
  lemma {:induction false} NoAnswer(t: Regions, s: Responder, packets: seq<Packet>)
    requires forall i :: 0 <= i < |packets| ==> packets[i].bth.opcode != READ_REQUEST
    ensures EmittedInOrder(t, s, packets) == []
    decreases |packets|
  {
    hide Deliver, Transmit;
    if packets != [] {
      var n := |packets| - 1;
      NoAnswer(t, s, packets[..n]);
      OnlyReadsAnswer(t, Transmit(t, s, packets[..n]), packets[n]);
    }
  }

  lemma NotARead(qp: Qp, p: Posting, k: nat)
    requires WellFormed(p) && !p.wqe.opcode.RdmaRead? && k < |PostingStream(qp, p)|
    ensures PostingStream(qp, p)[k].bth.opcode != READ_REQUEST
  {
    hide AdvancePsn, Slice;
  }

  /** A stream flows when in-order delivery counts its packets one by one. */
  lemma CountedFlows(t: Regions, s: Responder, stream: seq<Packet>, fed: bool)
    requires forall m :: 0 <= m <= |stream| ==> Transmit(t, s, stream[..m]).qp.rqPsn == AdvancePsn(s.qp.rqPsn, m)
    requires fed ==> forall m :: 0 <= m < |stream| ==> !Starving(t, Transmit(t, s, stream[..m]), stream[m])
    ensures Flows(t, s, stream, fed)
  {
    hide Deliver, Transmit, AdvancePsn, Starving;
    forall m | 0 <= m < |stream| ensures Accepts(t, Transmit(t, s, stream[..m]), stream[m]) {
      TransmitNext(t, s, stream, m);
      if AdvancePsn(s.qp.rqPsn, m) == AdvancePsn(s.qp.rqPsn, m + 1) {
        AdvanceInjective(s.qp.rqPsn, m, m + 1);
      }
    }
  }

  lemma SendFlows(t: Regions, s: Responder, qp: Qp, wqe: SendWqe, msg: seq<Byte>, fed: bool)
    requires Ready(s, qp) && IsSend(wqe, msg) && |msg| <= |Buffer(s)| && |msg| + MtuBytes(qp.pathMtu) - 1 < TWO_32
    ensures Flows(t, s, SendStream(qp, wqe, msg), fed)
  {
    var stream := SendStream(qp, wqe, msg);
    forall m | 0 <= m < |stream| ensures !OpcodeIsWrite(stream[m].bth.opcode) {
      SendIsNotWrite(qp, wqe, msg, m);
    }
    hide Flows, Transmit, SendStream, AdvancePsn, Scatter, Buffer;
    forall m | 0 <= m <= |stream| ensures Transmit(t, s, stream[..m]).qp.rqPsn == AdvancePsn(s.qp.rqPsn, m) {
      SendPrefix(t, s, qp, wqe, msg, m);
      AdvanceNone(s.qp.rqPsn);
    }
    CountedFlows(t, s, stream, fed);
  }

  lemma SendIsNotWrite(qp: Qp, wqe: SendWqe, msg: seq<Byte>, k: nat)
    requires |msg| == wqe.totalLength && k < |SendStream(qp, wqe, msg)|
    ensures !OpcodeIsWrite(SendStream(qp, wqe, msg)[k].bth.opcode)
  {
    hide AdvancePsn, Slice;
  }

  lemma WriteFlows(t: Regions, s: Responder, qp: Qp, wqe: SendWqe, msg: seq<Byte>, fed: bool)
    requires WriteEndToEnd.Granted(t, s, qp, wqe) && WriteEndToEnd.IsWrite(wqe, msg) && |msg| + MtuBytes(qp.pathMtu) - 1 < TWO_32
    requires fed ==> !WriteEndToEnd.Starved(s, wqe)
    ensures Flows(t, s, WriteEndToEnd.WriteStream(qp, wqe, msg), fed)
  {
    hide Flows, Transmit, WriteEndToEnd.WriteStream, AdvancePsn, Splice, Starving, WriteEndToEnd.Starved;
    var stream := WriteEndToEnd.WriteStream(qp, wqe, msg);
    forall m | 0 <= m <= |stream| ensures Transmit(t, s, stream[..m]).qp.rqPsn == AdvancePsn(s.qp.rqPsn, m) {
      WriteEndToEnd.WritePrefix(t, s, qp, wqe, msg, m);
      AdvanceNone(s.qp.rqPsn);
    }
    if fed {
      forall m | 0 <= m < |stream| ensures !Starving(t, Transmit(t, s, stream[..m]), stream[m]) {
        WriteEndToEnd.WritePrefix(t, s, qp, wqe, msg, m);
        WriteIsFed(t, s, qp, wqe, msg, m, Transmit(t, s, stream[..m]));
      }
    }
    CountedFlows(t, s, stream, fed);
  }

  lemma WriteIsFed(t: Regions, s0: Responder, qp: Qp, wqe: SendWqe, msg: seq<Byte>, m: nat, s: Responder)
    requires WriteEndToEnd.IsWrite(wqe, msg) && !WriteEndToEnd.Starved(s0, wqe) && m < |WriteEndToEnd.WriteStream(qp, wqe, msg)|
    requires wqe.remoteAddress + |msg| <= |s0.host.bytes| && WriteEndToEnd.Midway(s0, qp, wqe, msg, m, s)
    ensures !Starving(t, s, WriteEndToEnd.WriteStream(qp, wqe, msg)[m])
  {
    hide AdvancePsn, Slice, Splice, ValidateRkey;
  }

  lemma ReadServed(t: Regions, s: Responder, qp: Qp, p: Posting, fed: bool)
    requires WellFormed(p) && Servable(t, s, qp, p) && p.wqe.opcode.RdmaRead?
    ensures Flows(t, s, PostingStream(qp, p), fed) && Served(t, s, qp, p, Transmit(t, s, PostingStream(qp, p)))
    ensures EmittedInOrder(t, s, PostingStream(qp, p)) == Answered(t, s, qp, p)
  {
    hide ProcessReadRequest, AdvancePsn, ResponseBuilders, MtuBytes;
    var stream := PostingStream(qp, p);
    var request := Headers(RequestBuilder(qp.destQp, qp.sqPsn, p.wqe));
    assert stream == [request];
    assert stream[..0] == [];
    assert Transmit(t, s, stream) == Deliver(t, s, request).next;
    ReadEndToEnd.RequestAnswered(t, s.host, s.qp, qp.sqPsn, qp.destQp, p.wqe);
    AdvanceMoves(s.qp.rqPsn);
  }

  /** A servable posting is taken packet by packet, and in order it has exactly its effect. */
  lemma PostingServed(t: Regions, s: Responder, qp: Qp, p: Posting, fed: bool)
    requires WellFormed(p) && Servable(t, s, qp, p) && (fed ==> !WriteEndToEnd.Starved(s, p.wqe))
    ensures Flows(t, s, PostingStream(qp, p), fed) && Served(t, s, qp, p, Transmit(t, s, PostingStream(qp, p)))
    ensures EmittedInOrder(t, s, PostingStream(qp, p)) == Answered(t, s, qp, p)
  {
    if p.wqe.opcode.RdmaRead? {
      ReadServed(t, s, qp, p, fed);
    } else {
      forall k | 0 <= k < |PostingStream(qp, p)| ensures PostingStream(qp, p)[k].bth.opcode != READ_REQUEST {
        NotARead(qp, p, k);
      }
      NoAnswer(t, s, PostingStream(qp, p));
      hide EmittedInOrder, Flows, Transmit, Completed, WriteEndToEnd.Written, SendBuilders, WriteBuilders, HeadersOf, MtuBytes, Buffer, Ready, WriteEndToEnd.Granted;
      if p.wqe.opcode.Send? || p.wqe.opcode.SendImm? {
        SendFlows(t, s, qp, p.wqe, p.msg, fed);
        SendDelivered(t, s, qp, p.wqe, p.msg);
      } else {
        WriteFlows(t, s, qp, p.wqe, p.msg, fed);
        WriteEndToEnd.WriteDelivered(t, s, qp, p.wqe, p.msg);
      }
    }
  }

  /**
   * One SEND, WRITE or READ over the lossy channel, with receive entries posted and regions
   * registered meanwhile. Once every packet of it has been taken, the posting has had exactly
   * its effect, once, with the new entries behind it, and has drawn exactly its responses.
   */
  lemma PostingSurvivesLossyChannel(s: System, events: seq<Event>, qp: Qp, p: Posting, fed: bool)
    requires WellFormed(p) && Servable(s.regions, s.r, qp, p) && (fed ==> !WriteEndToEnd.Starved(s.r, p.wqe))
    requires s.r.qp.rqPsn == qp.sqPsn && Consistent(s.regions)
    requires OnlyAdds(events, fed) && DrawnNearby(s, events, PostingStream(qp, p))
    requires |Accepted(s, events)| == |PostingStream(qp, p)|
    ensures var s' := Transmit(s.regions, s.r, PostingStream(qp, p));
            Served(s.regions, s.r, qp, p, s') && Run(s, events).r == WithBuffers(s', BuffersPosted(s, events))
    ensures Emitted(s, events) == Answered(s.regions, s.r, qp, p)
  {
    PostingConsecutive(qp, p);
    hide Run, Accepted, Emitted, EmittedInOrder, Answered, Served, Servable, PostingStream, Flows, Consecutive, DrawnNearby, AdvancePsn, Transmit,
      Consistent, OnlyAdds, BuffersPosted;
    PostingServed(s.regions, s.r, qp, p, fed);
    LossyRunCompletes(s, events, PostingStream(qp, p), fed);
  }

  lemma PostingConsecutive(qp: Qp, p: Posting)
    requires WellFormed(p)
    ensures Consecutive(PostingStream(qp, p), qp.sqPsn)
  {
    hide AdvancePsn, Slice, Packets;
    forall k | 0 <= k < |PostingStream(qp, p)| ensures PostingStream(qp, p)[k].bth.psn == AdvancePsn(qp.sqPsn, k) {
      PacketsNumbered(qp, p, k);
    }
  }

  // ---------------------------------------------------------------------------
  // Sequences of postings
  // ---------------------------------------------------------------------------

  lemma {:induction false} TransmitConcat(t: Regions, s: Responder, a: seq<Packet>, b: seq<Packet>)
    ensures Transmit(t, s, a + b) == Transmit(t, Transmit(t, s, a), b)
    decreases |b|
  {
    hide Deliver;
    if b == [] {
      assert a + b == a;
    } else {
      var n := |b| - 1;
      TransmitConcat(t, s, a, b[..n]);
      assert (a + b)[..|a| + n] == a + b[..n] && (a + b)[|a| + n] == b[n];
    }
  }

  lemma FlowConcat(t: Regions, s: Responder, a: seq<Packet>, b: seq<Packet>, fed: bool)
    requires Flows(t, s, a, fed) && Flows(t, Transmit(t, s, a), b, fed)
    ensures Flows(t, s, a + b, fed)
  {
    hide Accepts, Transmit, Starving;
    var all := a + b;
    forall m | 0 <= m < |all|
      ensures Accepts(t, Transmit(t, s, all[..m]), all[m]) && (fed ==> !Starving(t, Transmit(t, s, all[..m]), all[m]))
    {
      FlowAt(t, s, a, b, fed, m);
    }
  }

  lemma FlowAt(t: Regions, s: Responder, a: seq<Packet>, b: seq<Packet>, fed: bool, m: nat)
    requires Flows(t, s, a, fed) && Flows(t, Transmit(t, s, a), b, fed) && m < |a + b|
    ensures Accepts(t, Transmit(t, s, (a + b)[..m]), (a + b)[m]) && (fed ==> !Starving(t, Transmit(t, s, (a + b)[..m]), (a + b)[m]))
  {
    hide Accepts, Transmit, Starving;
    if m < |a| {
      assert (a + b)[..m] == a[..m] && (a + b)[m] == a[m];
    } else {
      var k := m - |a|;
      assert (a + b)[..m] == a + b[..k] && (a + b)[m] == b[k];
      TransmitConcat(t, s, a, b[..k]);
    }
  }

  /** The responder after the first j postings, delivered in order. */
  function AfterPostings(t: Regions, s: Responder, qp: Qp, posts: seq<Posting>, j: nat): Responder
    requires AllWellFormed(posts) && j <= |posts|
  {
    Transmit(t, s, Stream(qp, posts[..j]))
  }

  /** The sender when it posts the j-th. */
  function SenderAt(qp: Qp, posts: seq<Posting>, j: nat): Qp
    requires AllWellFormed(posts) && j <= |posts|
  {
    SenderAfter(qp, |Outgoing(qp, posts[..j])|)
  }

  /** Each posting is servable when its turn comes and, if fed, finds the receive entry it needs. */
  ghost predicate AllServable(t: Regions, s: Responder, qp: Qp, posts: seq<Posting>, fed: bool) {
    && AllWellFormed(posts)
    && forall j :: 0 <= j < |posts| ==>
         && Servable(t, AfterPostings(t, s, qp, posts, j), SenderAt(qp, posts, j), posts[j])
         && (fed ==> !WriteEndToEnd.Starved(AfterPostings(t, s, qp, posts, j), posts[j].wqe))
  }

  lemma StreamGrows(qp: Qp, posts: seq<Posting>, j: nat)
    requires AllWellFormed(posts) && j < |posts|
    ensures Stream(qp, posts[..j + 1]) == Stream(qp, posts[..j]) + PostingStream(SenderAt(qp, posts, j), posts[j])
  {
    hide Packets, Headers;
    assert posts[..j + 1][..j] == posts[..j] && posts[..j + 1][j] == posts[j];
  }

  /** One posting after another: each has exactly its effect on the state the earlier ones left. */
  lemma PostingStep(t: Regions, s: Responder, qp: Qp, posts: seq<Posting>, fed: bool, j: nat)
    requires AllServable(t, s, qp, posts, fed) && j < |posts|
    ensures Served(t, AfterPostings(t, s, qp, posts, j), SenderAt(qp, posts, j), posts[j], AfterPostings(t, s, qp, posts, j + 1))
    ensures Flows(t, AfterPostings(t, s, qp, posts, j), PostingStream(SenderAt(qp, posts, j), posts[j]), fed)
    ensures EmittedInOrder(t, s, Stream(qp, posts[..j + 1]))
            == EmittedInOrder(t, s, Stream(qp, posts[..j])) + Answered(t, AfterPostings(t, s, qp, posts, j), SenderAt(qp, posts, j), posts[j])
  {
    hide Transmit, Stream, Served, Servable, PostingStream, Flows, SenderAt, EmittedInOrder, Answered;
    StreamGrows(qp, posts, j);
    TransmitConcat(t, s, Stream(qp, posts[..j]), PostingStream(SenderAt(qp, posts, j), posts[j]));
    EmittedConcat(t, s, Stream(qp, posts[..j]), PostingStream(SenderAt(qp, posts, j), posts[j]));
    PostingServed(t, AfterPostings(t, s, qp, posts, j), SenderAt(qp, posts, j), posts[j], fed);
  }

  lemma {:induction false} EmittedConcat(t: Regions, s: Responder, a: seq<Packet>, b: seq<Packet>)
    ensures EmittedInOrder(t, s, a + b) == EmittedInOrder(t, s, a) + EmittedInOrder(t, Transmit(t, s, a), b)
    decreases |b|
  {
    hide Deliver, Transmit;
    if b == [] {
      assert a + b == a;
    } else {
      var n := |b| - 1;
      EmittedConcat(t, s, a, b[..n]);
      TransmitConcat(t, s, a, b[..n]);
      assert (a + b)[..|a| + n] == a + b[..n] && (a + b)[|a| + n] == b[n];
    }
  }

  /** The responses drawn by the first j postings, each by the state the earlier ones left. */
  ghost function AllAnswered(t: Regions, s: Responder, qp: Qp, posts: seq<Posting>, fed: bool, j: nat): seq<Builder>
    requires AllServable(t, s, qp, posts, fed) && j <= |posts|
  {
    if j == 0 then [] else
    AllAnswered(t, s, qp, posts, fed, j - 1)
    + Answered(t, AfterPostings(t, s, qp, posts, j - 1), SenderAt(qp, posts, j - 1), posts[j - 1])
  }

  lemma {:induction false} PostingsAnswered(t: Regions, s: Responder, qp: Qp, posts: seq<Posting>, fed: bool, j: nat)
    requires AllServable(t, s, qp, posts, fed) && j <= |posts|
    ensures AllWellFormed(posts[..j])
    ensures EmittedInOrder(t, s, Stream(qp, posts[..j])) == AllAnswered(t, s, qp, posts, fed, j)
    decreases j
  {
    AllServableForm(t, s, qp, posts, fed);
    hide Stream, EmittedInOrder, AllAnswered, AllServable, AllWellFormed;
    if j == 0 {
      NothingAsked(t, s, qp, posts, fed);
    } else {
      PostingsAnswered(t, s, qp, posts, fed, j - 1);
      AnswerStep(t, s, qp, posts, fed, j - 1);
    }
  }

  lemma NothingAsked(t: Regions, s: Responder, qp: Qp, posts: seq<Posting>, fed: bool)
    requires AllServable(t, s, qp, posts, fed)
    ensures EmittedInOrder(t, s, Stream(qp, posts[..0])) == AllAnswered(t, s, qp, posts, fed, 0)
  {
    hide Transmit, Packets, Servable;
    assert Stream(qp, posts[..0]) == [];
  }

  lemma AnswerStep(t: Regions, s: Responder, qp: Qp, posts: seq<Posting>, fed: bool, j: nat)
    requires AllServable(t, s, qp, posts, fed) && j < |posts|
    requires EmittedInOrder(t, s, Stream(qp, posts[..j])) == AllAnswered(t, s, qp, posts, fed, j)
    ensures EmittedInOrder(t, s, Stream(qp, posts[..j + 1])) == AllAnswered(t, s, qp, posts, fed, j + 1)
  {
    AllServableForm(t, s, qp, posts, fed);
    PostingStep(t, s, qp, posts, fed, j);
    hide Stream, Outgoing, EmittedInOrder, Answered, Served, Flows, AllWellFormed, AfterPostings, SenderAt, AllServable, Transmit, Servable;
  }

  lemma {:induction false} PostingsFlow(t: Regions, s: Responder, qp: Qp, posts: seq<Posting>, fed: bool, j: nat)
    requires AllServable(t, s, qp, posts, fed) && j <= |posts|
    ensures Flows(t, s, Stream(qp, posts[..j]), fed)
    decreases j
  {
    AllServableForm(t, s, qp, posts, fed);
    hide Stream, Flows, AllServable, AllWellFormed;
    if j == 0 {
      NoPostings(t, s, qp, posts, fed);
    } else {
      PostingsFlow(t, s, qp, posts, fed, j - 1);
      FlowStep(t, s, qp, posts, fed, j - 1);
    }
  }

  lemma FlowStep(t: Regions, s: Responder, qp: Qp, posts: seq<Posting>, fed: bool, j: nat)
    requires AllServable(t, s, qp, posts, fed) && j < |posts| && Flows(t, s, Stream(qp, posts[..j]), fed)
    ensures Flows(t, s, Stream(qp, posts[..j + 1]), fed)
  {
    AllServableForm(t, s, qp, posts, fed);
    PostingStep(t, s, qp, posts, fed, j);
    var a, b := Stream(qp, posts[..j]), PostingStream(SenderAt(qp, posts, j), posts[j]);
    assert AfterPostings(t, s, qp, posts, j) == Transmit(t, s, a);
    hide Transmit, Stream, Served, Servable, PostingStream, Flows, SenderAt, AllServable, AllWellFormed, AfterPostings;
    StreamGrows(qp, posts, j);
    FlowConcat(t, s, a, b, fed);
  }

  lemma NoPostings(t: Regions, s: Responder, qp: Qp, posts: seq<Posting>, fed: bool)
    requires AllWellFormed(posts)
    ensures Flows(t, s, Stream(qp, posts[..0]), fed)
  {
    hide Transmit, Accepts, Packets;
    assert Stream(qp, posts[..0]) == [];
  }

  lemma AllServableForm(t: Regions, s: Responder, qp: Qp, posts: seq<Posting>, fed: bool)
    requires AllServable(t, s, qp, posts, fed)
    ensures AllWellFormed(posts) && forall j :: 0 <= j <= |posts| ==> AllWellFormed(posts[..j])
  {
  }

  /**
   * Any sequence of SENDs, WRITEs and READs, of any total length, over the lossy channel, with
   * receive entries posted and regions registered meanwhile. Each posting servable when its turn
   * comes: at every moment the responder is where in-order delivery of the packets taken would
   * put it, and once all have been taken, every posting has had exactly its effect on the state
   * the earlier ones left, and each READ has drawn its responses exactly once, with the remote
   * bytes of that moment, whatever the channel did.
   */
  lemma PostingsSurviveLossyChannel(s: System, events: seq<Event>, qp: Qp, posts: seq<Posting>, fed: bool)
    requires AllServable(s.regions, s.r, qp, posts, fed) && s.r.qp.rqPsn == qp.sqPsn && Consistent(s.regions)
    requires OnlyAdds(events, fed) && DrawnNearby(s, events, Stream(qp, posts))
    ensures var stream, more := Stream(qp, posts), BuffersPosted(s, events);
            && Accepted(s, events) <= stream
            && Run(s, events).r == WithBuffers(Transmit(s.regions, s.r, stream[..|Accepted(s, events)|]), more)
            && (|Accepted(s, events)| == |stream| ==>
                  && Run(s, events).r == WithBuffers(AfterPostings(s.regions, s.r, qp, posts, |posts|), more)
                  && Emitted(s, events) == AllAnswered(s.regions, s.r, qp, posts, fed, |posts|)
                  && forall j :: 0 <= j < |posts| ==>
                       Served(s.regions, AfterPostings(s.regions, s.r, qp, posts, j), SenderAt(qp, posts, j), posts[j],
                              AfterPostings(s.regions, s.r, qp, posts, j + 1)))
  {
    AllServableForm(s.regions, s.r, qp, posts, fed);
    hide Run, Accepted, Transmit, Served, Servable, Flows, Outgoing, AdvancePsn, AllServable, SenderAt, HeadersOf, DrawnNearby, Consecutive,
      Emitted, EmittedInOrder, AllAnswered, Answered, BuffersPosted, OnlyAdds, Consistent, Extends;
    var stream := Stream(qp, posts);
    assert posts[..|posts|] == posts;
    StreamConsecutive(qp, posts);
    PostingsFlow(s.regions, s.r, qp, posts, fed, |posts|);
    LossyRunIsPrefix(s, events, stream, fed);
    if |Accepted(s, events)| == |stream| {
      LossyRunCompletes(s, events, stream, fed);
      PostingsAnswered(s.regions, s.r, qp, posts, fed, |posts|);
      forall j | 0 <= j < |posts|
        ensures Served(s.regions, AfterPostings(s.regions, s.r, qp, posts, j), SenderAt(qp, posts, j), posts[j],
                       AfterPostings(s.regions, s.r, qp, posts, j + 1))
      {
        PostingStep(s.regions, s.r, qp, posts, fed, j);
      }
    }
  }
}
