/**
 * A whole connection: the sender's posted operations, the packets they become, the lossy
 * channel, the responder, and the ACKs that retire the operations.
 */
module Connection {
  import opened Common
  import Sgl
  import opened RoceTypes
  import opened MemoryRegions
  import opened RocePacket
  import opened RoceQueuePair
  import opened SendRecv
  import opened RdmaWrite
  import opened RdmaRead
  import opened Transport
  import opened SendEndToEnd
  import opened Reliability

  /** A posted work request with the message its buffer list held. */
  datatype Posting = Posting(wqe: SendWqe, msg: seq<Byte>)

  predicate WellFormed(p: Posting) { p.wqe.opcode.RdmaRead? || |p.msg| == p.wqe.totalLength }

  /** The packets one work request becomes. */
  function Packets(qp: Qp, p: Posting): seq<Builder>
    requires WellFormed(p)
  {
    match p.wqe.opcode
    case Send => SendBuilders(qp, p.wqe, p.msg)
    case SendImm => SendBuilders(qp, p.wqe, p.msg)
    case RdmaWrite => WriteBuilders(qp, p.wqe, p.msg)
    case RdmaWriteImm => WriteBuilders(qp, p.wqe, p.msg)
    case RdmaRead => [RequestBuilder(qp.destQp, qp.sqPsn, p.wqe)]
  }

  predicate AllWellFormed(posts: seq<Posting>) { forall i :: 0 <= i < |posts| ==> WellFormed(posts[i]) }

  /** The sender after k packets. */
  function SenderAfter(qp: Qp, k: nat): Qp { qp.(sqPsn := AdvancePsn(qp.sqPsn, k)) }

  /** All packets of a sequence of work requests. */
  function Outgoing(qp: Qp, posts: seq<Posting>): seq<Builder>
    requires AllWellFormed(posts)
  {
    if posts == [] then [] else
    var sent := Outgoing(qp, posts[..|posts| - 1]);
    sent + Packets(SenderAfter(qp, |sent|), posts[|posts| - 1])
  }

  /** What the responder should see. */
  function Stream(qp: Qp, posts: seq<Posting>): seq<Packet>
    requires AllWellFormed(posts)
  {
    HeadersOf(Outgoing(qp, posts))
  }

  lemma PacketsNumbered(qp: Qp, p: Posting, k: nat)
    requires WellFormed(p) && k < |Packets(qp, p)|
    ensures Packets(qp, p)[k].psn == AdvancePsn(qp.sqPsn, k)
    ensures ImmediateSupplied(Packets(qp, p)[k])
  {
    hide AdvancePsn;
    hide Slice;
    AdvanceNone(qp.sqPsn);
  }

  /** Packets of consecutive work requests carry consecutive sequence numbers, and survive the wire. */
  lemma {:induction false} StreamNumbered(qp: Qp, posts: seq<Posting>, k: nat)
    requires AllWellFormed(posts) && k < |Outgoing(qp, posts)|
    ensures Outgoing(qp, posts)[k].psn == AdvancePsn(qp.sqPsn, k)
    ensures Parse(Encode(Outgoing(qp, posts)[k])) == Some(Stream(qp, posts)[k])
    decreases |posts|
  {
    hide AdvancePsn;
    hide Packets;
    hide Parse;
    hide Encode;
    var sent := Outgoing(qp, posts[..|posts| - 1]);
    if k < |sent| {
      StreamNumbered(qp, posts[..|posts| - 1], k);
    } else {
      PacketsNumbered(SenderAfter(qp, |sent|), posts[|posts| - 1], k - |sent|);
      AdvanceTwice(qp.sqPsn, |sent|, k - |sent|);
      CodecRoundTrip(Outgoing(qp, posts)[k]);
    }
  }

  lemma {:induction false} OutgoingGrows(qp: Qp, posts: seq<Posting>, j: nat)
    requires AllWellFormed(posts) && j <= |posts|
    ensures Outgoing(qp, posts[..j]) <= Outgoing(qp, posts)
    decreases |posts|
  {
    hide Packets;
    if j < |posts| {
      OutgoingGrows(qp, posts[..|posts| - 1], j);
      assert posts[..|posts| - 1][..j] == posts[..j];
    } else {
      assert posts[..j] == posts;
    }
  }

  /** The entry the engine hands to the reliability manager for work request j. */
  function PendingFor(qp: Qp, posts: seq<Posting>, j: nat): Pending
    requires AllWellFormed(posts) && j < |posts|
    requires |Outgoing(qp, posts[..j])| < |Outgoing(qp, posts[..j + 1])|
  {
    NewPending(AdvancePsn(qp.sqPsn, |Outgoing(qp, posts[..j])|), AdvancePsn(qp.sqPsn, |Outgoing(qp, posts[..j + 1])| - 1),
               posts[j].wqe.wrId, posts[j].wqe.opcode, 0)
  }

  /** The number, in the sender's whole stream, of the last packet of work request j. */
  function LastOf(qp: Qp, posts: seq<Posting>, j: nat): int
    requires AllWellFormed(posts) && j < |posts|
  {
    |Outgoing(qp, posts[..j + 1])| - 1
  }

  lemma StreamConsecutive(qp: Qp, posts: seq<Posting>)
    requires AllWellFormed(posts)
    ensures Consecutive(Stream(qp, posts), qp.sqPsn) && |Stream(qp, posts)| == |Outgoing(qp, posts)|
  {
    hide Outgoing, AdvancePsn;
    var stream := Stream(qp, posts);
    forall n | 0 <= n < |stream| ensures stream[n].bth.psn == AdvancePsn(qp.sqPsn, n) {
      StreamNumbered(qp, posts, n);
    }
  }

  /** Every ACK the responder sends names the packet of the stream it took just then. */
  lemma AckIsForTakenPacket(s: System, events: seq<Event>, qp: Qp, posts: seq<Posting>, i: nat)
    requires AllWellFormed(posts) && s.r.qp.rqPsn == qp.sqPsn && DrawnNearby(s, events, Stream(qp, posts))
    requires i < |Replies(s, events)| && Replies(s, events)[i].syndrome == SYNDROME_ACK
    ensures var k := ReplyIndices(s, events)[i];
            && k < |Accepted(s, events)| && Accepted(s, events) <= Stream(qp, posts)
            && Replies(s, events)[i].psn == AdvancePsn(qp.sqPsn, k)
  {
    hide Run, Replies, ReplyIndices, Accepted, Outgoing, AdvancePsn, DrawnNearby;
    var stream := Stream(qp, posts);
    StreamConsecutive(qp, posts);
    LongStreamSafety(s, events, stream);
    AckIndex(s, events, i);
    assert Accepted(s, events)[ReplyIndices(s, events)[i]] == stream[ReplyIndices(s, events)[i]];
  }

  /**
   * Exactly when an ACK for packet k retires work request j: its last packet lies at or behind
   * k within the half space, or so far ahead that the 24-bit difference wraps.
   */
  lemma AckRetiresIff(qp: Qp, posts: seq<Posting>, j: nat, k: nat)
    requires AllWellFormed(posts) && j < |posts| && |Outgoing(qp, posts[..j])| < |Outgoing(qp, posts[..j + 1])|
    ensures var last, retired := LastOf(qp, posts, j), CompletedBy(PendingFor(qp, posts, j), AdvancePsn(qp.sqPsn, k));
            && (retired <==> (k - last) % TWO_24 < HALF_SPACE)
            && (last > k ==> (retired <==> (last - k) % TWO_24 == 0 || (last - k) % TWO_24 > HALF_SPACE))
            && (-TWO_24 < k - last < TWO_24 ==> (retired <==> last <= k < last + HALF_SPACE || last > k + HALF_SPACE))
  {
    hide Outgoing, CompletedBy, AdvancePsn;
    RetiredIff(PendingFor(qp, posts, j), qp.sqPsn, k, LastOf(qp, posts, j));
  }

  lemma RetiredIff(op: Pending, psn: U24, k: nat, last: nat)
    requires op.waiting && op.endPsn == AdvancePsn(psn, last)
    ensures var retired := CompletedBy(op, AdvancePsn(psn, k));
            && (retired <==> (k - last) % TWO_24 < HALF_SPACE)
            && (last > k ==> (retired <==> (last - k) % TWO_24 == 0 || (last - k) % TWO_24 > HALF_SPACE))
            && (-TWO_24 < k - last < TWO_24 ==> (retired <==> last <= k < last + HALF_SPACE || last > k + HALF_SPACE))
  {
    DifferenceKept(psn, k, last);
    BehindOrWrapped(k, last);
    hide AdvancePsn;
  }

  lemma DifferenceKept(psn: U24, k: nat, last: nat)
    ensures (AdvancePsn(psn, k) - AdvancePsn(psn, last)) % TWO_24 == (k - last) % TWO_24
  {
    ModDifference(psn + k, psn + last);
  }

  /** The half-space test on a difference of true numbers. */
  lemma BehindOrWrapped(k: int, last: int)
    ensures var behind := (k - last) % TWO_24 < HALF_SPACE;
            && (last > k ==> (behind <==> (last - k) % TWO_24 == 0 || (last - k) % TWO_24 > HALF_SPACE))
            && (-TWO_24 < k - last < TWO_24 ==> (behind <==> last <= k < last + HALF_SPACE || last > k + HALF_SPACE))
  {
  }

  /**
   * No false completion within the half space. Whatever the channel does in either direction
   * and however long the connection, if an ACK the responder ever sent retires an operation
   * whose last packet is at most 2^23 ahead of the packet acknowledged, then the responder has
   * taken every packet of that operation and of all operations before it, in order.
   */
  lemma CompletionMeansDelivery(s: System, events: seq<Event>, qp: Qp, posts: seq<Posting>, i: nat, j: nat)
    requires AllWellFormed(posts) && s.r.qp.rqPsn == qp.sqPsn && DrawnNearby(s, events, Stream(qp, posts))
    requires i < |Replies(s, events)| && Replies(s, events)[i].syndrome == SYNDROME_ACK
    requires j < |posts| && |Outgoing(qp, posts[..j])| < |Outgoing(qp, posts[..j + 1])|
    requires CompletedBy(PendingFor(qp, posts, j), Replies(s, events)[i].psn)
    requires LastOf(qp, posts, j) <= ReplyIndices(s, events)[i] + HALF_SPACE
    ensures Stream(qp, posts[..j + 1]) <= Accepted(s, events) <= Stream(qp, posts)
  {
    hide Run, Replies, ReplyIndices, Accepted, Outgoing, DrawnNearby;
    var k := ReplyIndices(s, events)[i];
    AckIsForTakenPacket(s, events, qp, posts, i);
    OutgoingGrows(qp, posts, j + 1);
    var last := LastOf(qp, posts, j);
    AckRetiresIff(qp, posts, j, k);
    assert last <= k;
    assert forall n :: 0 <= n <= last ==> Stream(qp, posts[..j + 1])[n] == Stream(qp, posts)[n] == Accepted(s, events)[n];
  }

  /** Conversely, an ACK for the last packet of an operation, or any later one in the window, retires it. */
  lemma LateAckCompletes(qp: Qp, posts: seq<Posting>, j: nat, k: nat)
    requires AllWellFormed(posts) && j < |posts| && |Outgoing(qp, posts[..j])| < |Outgoing(qp, posts[..j + 1])|
    requires |Outgoing(qp, posts[..j + 1])| - 1 <= k < |Outgoing(qp, posts[..j + 1])| - 1 + HALF_SPACE
    ensures CompletedBy(PendingFor(qp, posts, j), AdvancePsn(qp.sqPsn, k))
  {
    hide Outgoing;
    HalfSpaceIsOrder(qp.sqPsn + k, qp.sqPsn + |Outgoing(qp, posts[..j + 1])| - 1);
  }

  /**
   * Outside the half space the code does retire what was never taken: a short SEND is taken and
   * acknowledged, with a SEND of 0x8000_0001 bytes at an MTU of 256 posted behind it. That one
   * ACK retires both, although no packet of the second has been taken.
   */
  lemma LongMessageRetiredUntaken(s: System, qp: Qp, posts: seq<Posting>)
    requires |posts| == 2 && IsSend(posts[0].wqe, posts[0].msg) && IsSend(posts[1].wqe, posts[1].msg)
    requires qp.pathMtu == 1 && |posts[0].msg| <= 256 && |posts[1].msg| == 0x8000_0001
    requires Ready(s.r, qp) && |posts[0].msg| <= |Buffer(s.r)|
    ensures AllWellFormed(posts) && |Outgoing(qp, posts[..1])| == 1 < |Outgoing(qp, posts[..2])|
    ensures var stream := Stream(qp, posts); var events := [Arrive(stream[0])];
            && Replies(s, events) == [Reply(qp.sqPsn, SYNDROME_ACK)] && Accepted(s, events) == [stream[0]]
            && CompletedBy(PendingFor(qp, posts, 1), qp.sqPsn)
            && LastOf(qp, posts, 1) == 0x80_0001
  {
    TwoSends(qp, posts);
    var stream := Stream(qp, posts);
    var p := stream[0];
    var events := [Arrive(p)];
    ShortSendAcked(s.regions, s.r, qp, posts[0].wqe, posts[0].msg);
    hide Outgoing, AdvancePsn, Deliver, Stream, PendingFor, SendBuilder;
    assert events[..0] == [];
    assert Run(s, []) == s && Replies(s, []) == [] && Accepted(s, []) == [];
    AdvanceNone(qp.sqPsn);
    AckRetiresIff(qp, posts, 1, 0);
  }

  lemma TwoSends(qp: Qp, posts: seq<Posting>)
    requires |posts| == 2 && IsSend(posts[0].wqe, posts[0].msg) && IsSend(posts[1].wqe, posts[1].msg)
    requires qp.pathMtu == 1 && |posts[0].msg| <= 256 && |posts[1].msg| == 0x8000_0001
    ensures AllWellFormed(posts) && |Outgoing(qp, posts[..1])| == 1 && |Outgoing(qp, posts[..2])| == 0x80_0002
    ensures |Stream(qp, posts)| == 0x80_0002 && Stream(qp, posts)[0] == Headers(SendBuilder(qp, posts[0].wqe, posts[0].msg, 1, 0))
  {
    hide SendBuilder, Headers;
    assert posts[..2] == posts && posts[..1] == [posts[0]] && posts[..1][..0] == [] && posts[..2][..1] == posts[..1];
    assert Outgoing(qp, []) == [];
    assert PacketCount(posts[0].wqe.totalLength, 256) == 1;
    assert PacketCount(0x8000_0001, 256) == 0x80_0001;
    assert Packets(SenderAfter(qp, 0), posts[0]) == [SendBuilder(SenderAfter(qp, 0), posts[0].wqe, posts[0].msg, 1, 0)];
    assert SenderAfter(qp, 0) == qp by { AdvanceNone(qp.sqPsn); }
    assert Outgoing(qp, posts[..1]) == Packets(qp, posts[0]);
    assert Outgoing(qp, posts)[..1] == Outgoing(qp, posts[..1]);
  }

  /** A one-packet SEND that fits is taken and acknowledged under its own number. */
  lemma ShortSendAcked(t: Regions, s: Responder, qp: Qp, wqe: SendWqe, msg: seq<Byte>)
    requires IsSend(wqe, msg) && qp.pathMtu == 1 && |msg| <= 256 && Ready(s, qp) && |msg| <= |Buffer(s)|
    ensures var p := Headers(SendBuilder(qp, wqe, msg, 1, 0));
            Accepts(t, s, p) && Deliver(t, s, p).reply == Some(Reply(qp.sqPsn, SYNDROME_ACK))
  {
    hide Sgl.WriteSgl, Sgl.Addresses, Sgl.Remaining, AdvancePsn;
    var p := Headers(SendBuilder(qp, wqe, msg, 1, 0));
    AdvanceNone(qp.sqPsn);
    AdvanceMoves(s.qp.rqPsn);
    PlacedAtStart(s, qp, msg);
    var w := s.qp.recvQueue[0];
    assert p.payload == msg;
    assert SendInSequence(s, p);
    FitsIffRoom(s, p);
    assert Buffer(s)[0..] == Buffer(s);
  }
}
