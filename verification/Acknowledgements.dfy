/** What has been taken is acknowledged, and the acknowledgement retires it. */
module Acknowledgements {
  import opened Common
  import opened RoceTypes
  import opened HostMemory
  import opened MemoryRegions
  import opened RocePacket
  import opened RoceQueuePair
  import opened SendRecv
  import opened RdmaWrite
  import opened RdmaRead
  import opened Transport
  import opened SendEndToEnd
  import WriteEndToEnd
  import opened Reliability
  import opened Connection
  import opened LossyDelivery
  import opened ReplyRules

  /** Over the lossy channel, the reply that in-order delivery gives to a packet is sent when that packet is taken. */
  lemma {:induction false} TakenIsReplied(s: System, events: seq<Event>, stream: seq<Packet>, fed: bool, m: nat)
    requires OverChannel(s, events, stream, fed) && m < |Accepted(s, events)|
    ensures m < |stream|
    ensures var reply := Deliver(s.regions, Transmit(s.regions, s.r, stream[..m]), stream[m]).reply;
            reply.Some? ==> reply.value in Replies(s, events)
    decreases |events|
  {
    hide Deliver, Accepts, Transmit, Flows, Consecutive, DrawnNearby, Nearby, EmittedInOrder, Emitted, Consistent, Extends, Register;
    LossyRunIsPrefix(s, events, stream, fed);
    var before, e := events[..|events| - 1], events[|events| - 1];
    DrawnBefore(s, events, stream);
    assert OnlyAdds(before, fed);
    if m < |Accepted(s, before)| {
      TakenIsReplied(s, before, stream, fed, m);
    } else {
      LossyRunIsPrefix(s, before, stream, fed);
      PrefixStep(s.regions, Run(s, before).regions, s.r, stream, fed, m, BuffersPosted(s, before), e.packet);
    }
  }

  /** The last packet of a SEND or WRITE, as the responder sees it. */
  lemma LastPacket(qp: Qp, p: Posting)
    requires WellFormed(p) && !p.wqe.opcode.RdmaRead? && p.wqe.totalLength + MtuBytes(qp.pathMtu) - 1 < TWO_32
    ensures var stream := PostingStream(qp, p); var n := |stream|;
            && n >= 1 && EndsMessage(stream[n - 1]) && stream[n - 1].bth.psn == AdvancePsn(qp.sqPsn, n - 1)
            && (OpcodeIsSend(stream[n - 1].bth.opcode) || OpcodeIsWrite(stream[n - 1].bth.opcode))
  {
    PacketCountExact(p.wqe.totalLength, MtuBytes(qp.pathMtu));
    hide AdvancePsn, Slice, MtuBytes, PacketCount, Covers;
  }

  /** One posting, delivered in order, is acknowledged under the number of its last packet. */
  lemma LastIsAcked(t: Regions, s: Responder, qp: Qp, p: Posting)
    requires WellFormed(p) && Servable(t, s, qp, p) && !p.wqe.opcode.RdmaRead? && !WriteEndToEnd.Starved(s, p.wqe)
    ensures var stream := PostingStream(qp, p); var n := |stream|;
            n >= 1 && Deliver(t, Transmit(t, s, stream[..n - 1]), stream[n - 1]).reply == Some(Reply(AdvancePsn(qp.sqPsn, n - 1), SYNDROME_ACK))
  {
    var stream := PostingStream(qp, p);
    LastPacket(qp, p);
    PostingServed(t, s, qp, p, true);
    hide Deliver, Transmit, PostingStream, Served, Servable, Answered, EmittedInOrder, Starving, Taken, AdvancePsn, MtuBytes;
    var before := Transmit(t, s, stream[..|stream| - 1]);
    ArrivalDecided(t, before, stream[|stream| - 1]);
    AckedIff(t, before, stream[|stream| - 1]);
  }

  /** The stream begins with these packets, in two parts. */
  predicate BeginsWith(stream: seq<Packet>, front: seq<Packet>, own: seq<Packet>) { front + own <= stream }

  /** With other packets before and behind, the last packet of a posting is still answered with its ACK. */
  lemma LastReply(t: Regions, s: Responder, qp: Qp, front: seq<Packet>, p: Posting, stream: seq<Packet>, m: int)
    requires WellFormed(p) && !p.wqe.opcode.RdmaRead?
    requires Servable(t, Transmit(t, s, front), SenderAfter(qp, |front|), p) && !WriteEndToEnd.Starved(Transmit(t, s, front), p.wqe)
    requires BeginsWith(stream, front, PostingStream(SenderAfter(qp, |front|), p))
    requires m == |front| + |PostingStream(SenderAfter(qp, |front|), p)| - 1
    ensures |front| <= m < |stream|
    ensures Deliver(t, Transmit(t, s, stream[..m]), stream[m]).reply == Some(Reply(AdvancePsn(qp.sqPsn, m), SYNDROME_ACK))
  {
    hide Transmit, Servable, Deliver, PostingStream, AdvancePsn, WriteEndToEnd.Starved;
    var sender := SenderAfter(qp, |front|);
    var own := PostingStream(sender, p);
    LastIsAcked(t, Transmit(t, s, front), sender, p);
    AdvanceTwice(qp.sqPsn, |front|, |own| - 1);
    assert stream[..m] == front + own[..|own| - 1] && stream[m] == own[|own| - 1];
    TransmitConcat(t, s, front, own[..|own| - 1]);
  }

  /** Where the packets of posting j lie in the sender's whole stream. */
  lemma PostingInStream(qp: Qp, posts: seq<Posting>, j: nat, front: seq<Packet>, stream: seq<Packet>, m: int)
    requires AllWellFormed(posts) && j < |posts|
    requires front == Stream(qp, posts[..j]) && stream == Stream(qp, posts) && m == LastOf(qp, posts, j)
    ensures |front| == |Outgoing(qp, posts[..j])|
    ensures var own := PostingStream(SenderAfter(qp, |front|), posts[j]); BeginsWith(stream, front, own) && m == |front| + |own| - 1
  {
    hide Packets, Headers, PostingStream;
    StreamGrows(qp, posts, j);
    OutgoingGrows(qp, posts, j + 1);
    assert Stream(qp, posts[..j + 1]) <= Stream(qp, posts) by {
      assert forall i :: 0 <= i < |Outgoing(qp, posts[..j + 1])| ==> Outgoing(qp, posts[..j + 1])[i] == Outgoing(qp, posts)[i];
    }
  }

  /** Posting j finds the responder as the packets before it left it. */
  lemma ServableBehind(t: Regions, s: Responder, qp: Qp, posts: seq<Posting>, fed: bool, j: nat, front: seq<Packet>)
    requires AllServable(t, s, qp, posts, fed) && j < |posts| && front == Stream(qp, posts[..j])
    ensures Transmit(t, s, front) == AfterPostings(t, s, qp, posts, j)
    ensures WellFormed(posts[j]) && Servable(t, Transmit(t, s, front), SenderAfter(qp, |front|), posts[j])
  {
    hide Servable, Transmit, Packets;
  }

  /**
   * Delivered means acknowledged. Over the lossy channel, once every packet up to the last one
   * of a SEND or WRITE has been taken, an ACK for that last packet has been sent.
   */
  lemma DeliveredIsAcked(s: System, events: seq<Event>, qp: Qp, posts: seq<Posting>, fed: bool, j: nat)
    requires AllServable(s.regions, s.r, qp, posts, fed) && s.r.qp.rqPsn == qp.sqPsn && Consistent(s.regions)
    requires OnlyAdds(events, fed) && DrawnNearby(s, events, Stream(qp, posts))
    requires j < |posts| && !posts[j].wqe.opcode.RdmaRead?
    requires !WriteEndToEnd.Starved(AfterPostings(s.regions, s.r, qp, posts, j), posts[j].wqe)
    requires |Accepted(s, events)| > LastOf(qp, posts, j)
    ensures |Outgoing(qp, posts[..j])| < |Outgoing(qp, posts[..j + 1])|
    ensures Reply(AdvancePsn(qp.sqPsn, LastOf(qp, posts, j)), SYNDROME_ACK) in Replies(s, events)
  {
    AllServableForm(s.regions, s.r, qp, posts, fed);
    var front, stream, m := Stream(qp, posts[..j]), Stream(qp, posts), LastOf(qp, posts, j);
    ServableBehind(s.regions, s.r, qp, posts, fed, j, front);
    PostingInStream(qp, posts, j, front, stream, m);
    assert posts[..|posts|] == posts;
    StreamConsecutive(qp, posts);
    PostingsFlow(s.regions, s.r, qp, posts, fed, |posts|);
    hide Run, Accepted, Replies, Transmit, Flows, AllServable, Deliver, Outgoing, DrawnNearby, OnlyAdds, Consistent, AdvancePsn, AfterPostings,
      WriteEndToEnd.Starved, Stream, Consecutive, Servable, PostingStream, SenderAfter, SenderAt, BeginsWith, AllWellFormed;
    LastReply(s.regions, s.r, qp, front, posts[j], stream, m);
    TakenIsReplied(s, events, stream, fed, m);
  }

  /** An operation an ACK completes is reported by the manager and kept no longer. */
  lemma {:induction false} CompletedIsReported(ops: seq<Pending>, ack: U24, op: Pending)
    requires op in ops && CompletedBy(op, ack)
    ensures op in CompletedOps(ops, ack) && op.wrId in WrIds(CompletedOps(ops, ack)) && op !in SurvivingOps(ops, ack)
    decreases |ops|
  {
    hide Acknowledged;
    var n := |ops| - 1;
    if op in ops[..n] {
      CompletedIsReported(ops[..n], ack, op);
      WrIdsStep(CompletedOps(ops[..n], ack), ops[n]);
    } else {
      NotSurviving(ops[..n], ack, op);
      WrIdsStep(CompletedOps(ops[..n], ack), ops[n]);
    }
    assert CompletedOps(ops[..n], ack) + [] == CompletedOps(ops[..n], ack);
  }

  lemma {:induction false} NotSurviving(ops: seq<Pending>, ack: U24, op: Pending)
    requires CompletedBy(op, ack)
    ensures op !in SurvivingOps(ops, ack)
    decreases |ops|
  {
    hide Acknowledged;
    if ops != [] {
      NotSurviving(ops[..|ops| - 1], ack, op);
    }
  }

  /**
   * Delivered means retired. That ACK, handed to the manager while the operation is pending,
   * reports the operation completed and takes it off the list.
   */
  lemma DeliveredIsRetired(s: System, events: seq<Event>, qp: Qp, posts: seq<Posting>, fed: bool, j: nat, ops: seq<Pending>)
    requires AllServable(s.regions, s.r, qp, posts, fed) && s.r.qp.rqPsn == qp.sqPsn && Consistent(s.regions)
    requires OnlyAdds(events, fed) && DrawnNearby(s, events, Stream(qp, posts))
    requires j < |posts| && !posts[j].wqe.opcode.RdmaRead?
    requires !WriteEndToEnd.Starved(AfterPostings(s.regions, s.r, qp, posts, j), posts[j].wqe)
    requires |Accepted(s, events)| > LastOf(qp, posts, j)
    ensures |Outgoing(qp, posts[..j])| < |Outgoing(qp, posts[..j + 1])|
    ensures PendingFor(qp, posts, j) in ops ==>
              exists i :: 0 <= i < |Replies(s, events)| && Replies(s, events)[i].syndrome == SYNDROME_ACK
                          && posts[j].wqe.wrId in WrIds(CompletedOps(ops, Replies(s, events)[i].psn))
                          && PendingFor(qp, posts, j) !in SurvivingOps(ops, Replies(s, events)[i].psn)
  {
    AllServableForm(s.regions, s.r, qp, posts, fed);
    hide Run, Accepted, Replies, Transmit, Servable, AllServable, Outgoing, DrawnNearby, OnlyAdds, Consistent, AdvancePsn, AfterPostings,
      WriteEndToEnd.Starved, CompletedOps, SurvivingOps, WrIds;
    DeliveredIsAcked(s, events, qp, posts, fed, j);
    var last := LastOf(qp, posts, j);
    var ack := AdvancePsn(qp.sqPsn, last);
    AckRetiresIff(qp, posts, j, last);
    if PendingFor(qp, posts, j) in ops {
      CompletedIsReported(ops, ack, PendingFor(qp, posts, j));
      var i :| 0 <= i < |Replies(s, events)| && Replies(s, events)[i] == Reply(ack, SYNDROME_ACK);
    }
  }
}
