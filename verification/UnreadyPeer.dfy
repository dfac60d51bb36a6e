/** A sender and a peer without a receive buffer: the whole exchange, up to the error the sender reports. */
module UnreadyPeer {
  import opened Common
  import opened RoceTypes
  import opened MemoryRegions
  import opened RocePacket
  import opened RoceQueuePair
  import opened SendRecv
  import opened RdmaWrite
  import opened Transport
  import opened Reliability
  import opened ReliabilityRules
  import opened Connection
  import opened LossyDelivery
  import opened ReplyRules

  /** Every posting becomes fewer than 2^24 packets. */
  lemma FewPackets(qp: Qp, p: Posting)
    requires WellFormed(p)
    ensures |Packets(qp, p)| < TWO_24
  {
    var mtu := MtuBytes(qp.pathMtu);
    if !p.wqe.opcode.RdmaRead? && p.wqe.totalLength > 0 {
      QuotientBelow((p.wqe.totalLength + mtu - 1) % TWO_32, mtu);
    }
  }

  lemma QuotientBelow(a: nat, b: nat)
    requires a < TWO_32 && b >= 256
    ensures a / b < TWO_24
  {
  }

  /** The entry recorded when a work request is posted that becomes these packets. */
  function Recorded(qp: Qp, p: Posting): Pending
    requires WellFormed(p) && Packets(qp, p) != []
  {
    NewPending(qp.sqPsn, AdvancePsn(qp.sqPsn, |Packets(qp, p)| - 1), p.wqe.wrId, p.wqe.opcode, 0)
  }

  /** Posted when k packets have gone before, it covers exactly its own. */
  lemma RecordedCovers(qp: Qp, p: Posting, k: nat)
    requires WellFormed(p) && Packets(qp, p) != [] && qp.sqPsn == k % TWO_24
    ensures Covering(Recorded(qp, p), Span(k, k + |Packets(qp, p)| - 1))
  {
    FewPackets(qp, p);
    hide Packets;
  }

  /** The first packet of a SEND, in order, at a peer without a receive buffer: one RNR NAK, and nothing changes. */
  lemma UnreadyReply(t: Regions, s: Responder, p: Packet)
    requires OpcodeIsSend(p.bth.opcode) && Starts(p) && InOrder(s, p) && s.qp.recvQueue == []
    ensures Deliver(t, s, p) == Delivery(s, Some(Reply(p.bth.psn, SYNDROME_RNR_NAK)), [])
  {
    hide AcceptSend, OpcodeIsFirst, OpcodeIsOnly;
  }

  /** What the sender's pending list becomes when a reply comes in. */
  function AfterReply(cfg: Config, ops: seq<Pending>, reply: Option<Reply>): seq<Pending> {
    match reply
    case None => ops
    case Some(r) => if r.syndrome == SYNDROME_ACK then SurvivingOps(ops, r.psn) else NakOps(cfg, ops, r.psn, r.syndrome)
  }

  datatype Exchange = Exchange(peer: Responder, ops: seq<Pending>)

  /** The sender transmits the packet n times and takes in every reply. */
  function Rounds(cfg: Config, t: Regions, s: Responder, ops: seq<Pending>, p: Packet, n: nat): Exchange {
    if n == 0 then Exchange(s, ops) else
    var before := Rounds(cfg, t, s, ops, p, n - 1);
    var d := Deliver(t, before.peer, p);
    Exchange(d.next, AfterReply(cfg, before.ops, d.reply))
  }

  lemma {:induction false} RoundsAreNaks(cfg: Config, t: Regions, s: Responder, ops: seq<Pending>, p: Packet, k: nat, n: nat)
    requires OpcodeIsSend(p.bth.opcode) && Starts(p) && InOrder(s, p) && s.qp.recvQueue == [] && p.bth.psn == k % TWO_24
    ensures Rounds(cfg, t, s, ops, p, n) == Exchange(s, NotReady(cfg, ops, k, n))
  {
    hide Deliver, Starts, NakOps, OpcodeIsSend, SurvivingOps;
    if n > 0 {
      RoundsAreNaks(cfg, t, s, ops, p, k, n - 1);
      UnreadyReply(t, s, p);
    }
  }

  lemma SendStarts(qp: Qp, p: Posting)
    requires WellFormed(p) && (p.wqe.opcode.Send? || p.wqe.opcode.SendImm?) && Packets(qp, p) != []
    ensures var first := PostingStream(qp, p)[0]; OpcodeIsSend(first.bth.opcode) && Starts(first) && first.bth.psn == qp.sqPsn
  {
    AdvanceNone(qp.sqPsn);
    hide Slice, AdvancePsn, MtuBytes;
  }

  /**
   * A SEND to a peer that never posts a receive buffer. Its first packet, sent again and again,
   * changes nothing there and draws an RNR NAK each time. The sender is told to send it again
   * rnrRetryCount times, the operation waiting all the while; the next NAK is reported as
   * RnrRetryExceededError and ends the waiting.
   */
  lemma UnreadySendFails(cfg: Config, t: Regions, s: Responder, qp: Qp, p: Posting, k: nat, ops: seq<Pending>, spans: seq<Span>, i: nat, n: nat)
    requires WellFormed(p) && (p.wqe.opcode.Send? || p.wqe.opcode.SendImm?) && Packets(qp, p) != [] && qp.sqPsn == k % TWO_24
    requires s.qp.state in {QpState.Rtr, QpState.Rts} && s.qp.rqPsn == qp.sqPsn && s.qp.recvQueue == []
    requires Spanned(ops, spans, k) && i < |ops| && ops[i] == Recorded(qp, p) && spans[i].first == k
    requires forall m :: 0 <= m < |ops| && m != i ==> k != spans[m].first && k != spans[m].last
    requires n <= cfg.rnrRetryCount
    ensures var first := PostingStream(qp, p)[0];
            var before, after := Rounds(cfg, t, s, ops, first, n), Rounds(cfg, t, s, ops, first, n + 1);
            && Deliver(t, before.peer, first) == Delivery(s, Some(Reply(qp.sqPsn, SYNDROME_RNR_NAK)), []) && |after.ops| == |ops|
            && var error := NakError(cfg, before.ops, qp.sqPsn, SYNDROME_RNR_NAK);
               var again := SomeToRetry(cfg, before.ops, qp.sqPsn, SYNDROME_RNR_NAK);
               if n < cfg.rnrRetryCount then error == None && again && after.ops[i].waiting && after.ops[i].retryCount == n + 1
               else error == Some(RnrRetryExceededError) && !again && !after.ops[i].waiting
  {
    var first := PostingStream(qp, p)[0];
    SendStarts(qp, p);
    hide Packets, PostingStream, Deliver, Starts, NakOps, OpcodeIsSend, SurvivingOps, NotReady, SomeToRetry, NakError, Rounds, Covering, Near;
    RoundsAreNaks(cfg, t, s, ops, first, k, n);
    RoundsAreNaks(cfg, t, s, ops, first, k, n + 1);
    UnreadyReply(t, s, first);
    RetriesThenFails(cfg, ops, spans, k, i, n);
  }
}
