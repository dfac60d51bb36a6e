/** A SEND, from the sender's message to the receiver's buffer list and completion. */
module SendEndToEnd {
  import opened Common
  import opened RoceTypes
  import opened HostMemory
  import opened MemoryRegions
  import opened Sgl
  import opened RocePacket
  import opened RoceQueuePair
  import opened SendRecv
  import opened Transport

  /** In-order, loss-free delivery. */
  function Transmit(t: Regions, s: Responder, packets: seq<Packet>): Responder {
    if packets == [] then s else
    Deliver(t, Transmit(t, s, packets[..|packets| - 1]), packets[|packets| - 1]).next
  }

  /** What the receiver reads off a sequence of built packets. */
  function HeadersOf(builders: seq<Builder>): seq<Packet> {
    seq(|builders|, i requires 0 <= i < |builders| => Headers(builders[i]))
  }

  lemma TransmitNext(t: Regions, s: Responder, packets: seq<Packet>, m: nat)
    requires m < |packets|
    ensures Transmit(t, s, packets[..m + 1]) == Deliver(t, Transmit(t, s, packets[..m]), packets[m]).next
  {
    hide Deliver;
    assert packets[..m + 1][..m] == packets[..m];
  }

  /** A receiver ready for a message: connected, in step, with a usable buffer list posted. */
  ghost predicate Ready(s: Responder, sender: Qp) {
    && CanReceive(s.qp) && s.qp.rqPsn == sender.sqPsn && s.qp.recvQueue != []
    && FaultFree(s.host) && InRange(s.qp.recvQueue[0].sgl, |s.host.bytes|)
  }

  function Buffer(s: Responder): seq<nat>
    requires s.qp.recvQueue != []
  {
    Addresses(s.qp.recvQueue[0].sgl)
  }

  predicate IsSend(wqe: SendWqe, msg: seq<Byte>) {
    (wqe.opcode.Send? || wqe.opcode.SendImm?) && |msg| == wqe.totalLength
  }

  /** done bytes of the message are in the buffer, i packets have been taken. */
  ghost predicate Placed(s0: Responder, msg: seq<Byte>, done: nat, i: nat, h: Host, qp: Qp, st: RecvState)
    requires s0.qp.recvQueue != []
  {
    var w, addrs := s0.qp.recvQueue[0], Buffer(s0);
    && done <= |msg| && done <= |addrs| && Within(addrs, |s0.host.bytes|)
    && h == s0.host.(bytes := Scatter(s0.host.bytes, addrs[..done], msg[..done]))
    && qp == s0.qp.(recvQueue := s0.qp.recvQueue[1..], rqPsn := AdvancePsn(s0.qp.rqPsn, i))
    && st.wrId == w.wrId && st.sgl == w.sgl && st.bytesReceived == done && st.expectedPsn == AdvancePsn(s0.qp.rqPsn, i)
    && CursorOk(st.sgl, st.cursor) && Remaining(st.sgl, st.cursor) == addrs[done..]
  }

  lemma PlacedAtStart(s: Responder, sender: Qp, msg: seq<Byte>)
    requires Ready(s, sender)
    ensures var w := s.qp.recvQueue[0];
            Placed(s, msg, 0, 0, s.host, s.qp.(recvQueue := s.qp.recvQueue[1..]), BeginRecv(w, s.qp.rqPsn))
  {
    var w := s.qp.recvQueue[0];
    AddressesWithin(w.sgl, |s.host.bytes|);
    assert w.sgl[0..] == w.sgl;
    assert Remaining(w.sgl, START) == Addresses(w.sgl);
    AdvanceNone(s.qp.rqPsn);
  }

  /** Placing the next stretch of the message through the buffer cursor. */
  lemma PlaceStretch(s0: Responder, msg: seq<Byte>, done: nat, i: nat, h: Host, qp: Qp, st: RecvState, n: nat)
    requires s0.qp.recvQueue != [] && FaultFree(s0.host) && InRange(s0.qp.recvQueue[0].sgl, |s0.host.bytes|)
    requires Placed(s0, msg, done, i, h, qp, st) && done + n <= |msg|
    ensures var w := WriteSgl(h, Unguarded, st.sgl, msg[done..done + n], st.cursor);
            && w.written == Min(n, |Buffer(s0)| - done)
            && (done + n <= |Buffer(s0)| ==>
                  && w.host == s0.host.(bytes := Scatter(s0.host.bytes, Buffer(s0)[..done + n], msg[..done + n]))
                  && CursorOk(st.sgl, w.cursor)
                  && Remaining(st.sgl, w.cursor) == Buffer(s0)[done + n..])
  {
    hide WriteSgl;
    hide Addresses;
    hide Scatter;
    var addrs, data := Buffer(s0), msg[done..done + n];
    assert |h.bytes| == |s0.host.bytes|;
    assert FaultFree(h);
    assert GuardOpen(Unguarded, st.sgl);
    WriteSglIsScatter(h, Unguarded, st.sgl, data, st.cursor);
    if done + n <= |addrs| {
      assert Min(|data|, |addrs[done..]|) == n;
      assert data[..n] == data;
      Subslices(msg, done, n);
      Subslices(addrs, done, n);
      ScatterSplit(s0.host.bytes, addrs, msg, done, n);
    }
  }

  /** What the receiver reads off packet i of a SEND. */
  lemma PacketShape(sender: Qp, wqe: SendWqe, msg: seq<Byte>, n: nat, i: nat)
    requires IsSend(wqe, msg) && i < n
    ensures var p := Headers(SendBuilder(sender, wqe, msg, n, i));
            && p.payload == Slice(msg, MtuBytes(sender.pathMtu), i) && p.bth.psn == AdvancePsn(sender.sqPsn, i)
            && (OpcodeIsLast(p.bth.opcode) || OpcodeIsOnly(p.bth.opcode) <==> i + 1 == n)
            && p.immediate == if i + 1 == n && wqe.opcode.SendImm? then Some(wqe.immediate) else None
  {
    hide Slice, AdvancePsn;
  }

  /** One in-sequence packet moves the message on by one slice. */
  lemma PlacePacket(s0: Responder, sender: Qp, wqe: SendWqe, msg: seq<Byte>, n: nat, i: nat, h: Host, qp: Qp, st: RecvState)
    requires Ready(s0, sender) && IsSend(wqe, msg) && Covers(n, |msg|, MtuBytes(sender.pathMtu)) && i < n
    requires Min((i + 1) * MtuBytes(sender.pathMtu), |msg|) <= |Buffer(s0)|
    requires Placed(s0, msg, i * MtuBytes(sender.pathMtu), i, h, qp, st) && st.immediate == None
    ensures var r := AcceptSend(h, qp, st, Headers(SendBuilder(sender, wqe, msg, n, i)));
            && Placed(s0, msg, Min((i + 1) * MtuBytes(sender.pathMtu), |msg|), i + 1, r.host, r.qp, r.st)
            && r.res.success && r.st.inProgress == (i + 1 < n)
            && r.st.immediate == (if i + 1 == n && wqe.opcode.SendImm? then Some(wqe.immediate) else None)
            && r.res.cqe == (if i + 1 == n then Some(RecvCqe(s0.qp.number, r.st)) else None)
  {
    hide WriteSgl, AdvancePsn, Buffer, Scatter, Remaining, SendBuilder, OpcodeIsLast, OpcodeIsOnly;
    PacketShape(sender, wqe, msg, n, i);
    var mtu := MtuBytes(sender.pathMtu);
    OffsetStep(n, |msg|, mtu, i);
    var done, size := i * mtu, |Slice(msg, mtu, i)|;
    assert Slice(msg, mtu, i) == msg[done..done + size];
    PlaceStretch(s0, msg, done, i, h, qp, st, size);
    AdvanceTwice(s0.qp.rqPsn, i, 1);
  }

  /** A packet whose slice does not fit is refused; the message is abandoned where it stands. */
  lemma OverflowPacket(s0: Responder, sender: Qp, wqe: SendWqe, msg: seq<Byte>, n: nat, i: nat, h: Host, qp: Qp, st: RecvState)
    requires Ready(s0, sender) && IsSend(wqe, msg) && Covers(n, |msg|, MtuBytes(sender.pathMtu)) && i < n
    requires Min((i + 1) * MtuBytes(sender.pathMtu), |msg|) > |Buffer(s0)|
    requires Placed(s0, msg, i * MtuBytes(sender.pathMtu), i, h, qp, st)
    ensures var r := AcceptSend(h, qp, st, Headers(SendBuilder(sender, wqe, msg, n, i)));
            r.qp == qp && r.res == Refuse(AdvancePsn(sender.sqPsn, i), SYNDROME_REMOTE_ACCESS_ERROR)
  {
    hide WriteSgl;
    hide AdvancePsn;
    hide Buffer;
    hide Scatter;
    hide Remaining;
    var mtu := MtuBytes(sender.pathMtu);
    OffsetStep(n, |msg|, mtu, i);
    var done, size := i * mtu, |Slice(msg, mtu, i)|;
    assert Slice(msg, mtu, i) == msg[done..done + size];
    PlaceStretch(s0, msg, done, i, h, qp, st, size);
  }

  /** Where the receiver stands before packet i: the state its payload will be placed from. */
  ghost predicate Midway(s0: Responder, sender: Qp, msg: seq<Byte>, i: nat, s: Responder)
    requires s0.qp.recvQueue != []
  {
    && s.write == s0.write && s.cqes == s0.cqes
    && if i == 0 then s == s0
       else Placed(s0, msg, i * MtuBytes(sender.pathMtu), i, s.host, s.qp, s.recv) && s.recv.inProgress && s.recv.immediate == None
  }

  /** Delivering packet i to a receiver midway through the message is placing its payload. */
  lemma DeliverIsAccept(t: Regions, s0: Responder, sender: Qp, wqe: SendWqe, msg: seq<Byte>, n: nat, i: nat, s: Responder)
    requires Ready(s0, sender) && IsSend(wqe, msg) && i < n && Midway(s0, sender, msg, i, s)
    ensures var p := Headers(SendBuilder(sender, wqe, msg, n, i));
            var qp, st := if i == 0 then s.qp.(recvQueue := s.qp.recvQueue[1..]) else s.qp,
                          if i == 0 then BeginRecv(s.qp.recvQueue[0], s.qp.rqPsn) else s.recv;
            && Placed(s0, msg, i * MtuBytes(sender.pathMtu), i, s.host, qp, st) && st.immediate == None
            && var r := AcceptSend(s.host, qp, st, p);
               Deliver(t, s, p).next == s.(host := r.host, qp := r.qp, recv := r.st, cqes := Posted(s.cqes, r.res))
  {
    hide AcceptSend;
    hide AdvancePsn;
    hide Slice;
    hide Scatter;
    hide Remaining;
    hide Addresses;
    AdvanceNone(s0.qp.rqPsn);
    if i == 0 {
      PlacedAtStart(s0, sender, msg);
    }
  }

  /** The packets of a SEND as the receiver sees them. */
  function SendStream(sender: Qp, wqe: SendWqe, msg: seq<Byte>): seq<Packet>
    requires |msg| == wqe.totalLength
  {
    HeadersOf(SendBuilders(sender, wqe, msg))
  }

  /** The completion a SEND earns the receiver. */
  function SendCompletion(s: Responder, wqe: SendWqe): Cqe
    requires s.qp.recvQueue != []
  {
    Cqe(s.qp.recvQueue[0].wrId, Success, wqe.opcode, s.qp.number, wqe.totalLength,
        if wqe.opcode.SendImm? then Some(wqe.immediate) else None, false)
  }

  /** The receiver after the whole message: buffer filled, one completion, sequence numbers in step. */
  ghost predicate Completed(s0: Responder, sender: Qp, wqe: SendWqe, msg: seq<Byte>, s: Responder)
    requires s0.qp.recvQueue != [] && |msg| == wqe.totalLength
  {
    && |msg| <= |Buffer(s0)| && Within(Buffer(s0), |s0.host.bytes|)
    && s.host == s0.host.(bytes := Scatter(s0.host.bytes, Buffer(s0)[..|msg|], msg))
    && s.qp == s0.qp.(recvQueue := s0.qp.recvQueue[1..], rqPsn := AdvancePsn(sender.sqPsn, |SendStream(sender, wqe, msg)|))
    && s.cqes == s0.cqes + [SendCompletion(s0, wqe)]
    && !s.recv.inProgress && s.write == s0.write
  }

  lemma {:induction false} SendPrefix(t: Regions, s0: Responder, sender: Qp, wqe: SendWqe, msg: seq<Byte>, i: nat)
    requires Ready(s0, sender) && IsSend(wqe, msg) && |msg| <= |Buffer(s0)|
    requires |msg| + MtuBytes(sender.pathMtu) - 1 < TWO_32 && i <= |SendStream(sender, wqe, msg)|
    ensures var s := Transmit(t, s0, SendStream(sender, wqe, msg)[..i]);
            if i < |SendStream(sender, wqe, msg)| then Midway(s0, sender, msg, i, s) else Completed(s0, sender, wqe, msg, s)
    decreases i
  {
    hide Deliver;
    hide Midway;
    hide SendBuilder;
    hide Completed;
    var stream := SendStream(sender, wqe, msg);
    var n, mtu := |stream|, MtuBytes(sender.pathMtu);
    PacketCountExact(wqe.totalLength, mtu);
    if i == 0 {
      assert stream[..0] == [];
      MidwayAtStart(s0, sender, msg);
    } else {
      SendPrefix(t, s0, sender, wqe, msg, i - 1);
      var s := Transmit(t, s0, stream[..i - 1]);
      assert stream[..i][..i - 1] == stream[..i - 1];
      assert stream[..i][i - 1] == Headers(SendBuilder(sender, wqe, msg, n, i - 1));
      SendNext(t, s0, sender, wqe, msg, n, i - 1, s);
    }
  }

  lemma MidwayAtStart(s0: Responder, sender: Qp, msg: seq<Byte>)
    requires s0.qp.recvQueue != []
    ensures Midway(s0, sender, msg, 0, s0)
  {
  }

  lemma SendNext(t: Regions, s0: Responder, sender: Qp, wqe: SendWqe, msg: seq<Byte>, n: nat, i: nat, s: Responder)
    requires Ready(s0, sender) && IsSend(wqe, msg) && |msg| <= |Buffer(s0)|
    requires n == |SendStream(sender, wqe, msg)| && Covers(n, |msg|, MtuBytes(sender.pathMtu)) && i < n
    requires Midway(s0, sender, msg, i, s)
    ensures var s' := Deliver(t, s, Headers(SendBuilder(sender, wqe, msg, n, i))).next;
            if i + 1 < n then Midway(s0, sender, msg, i + 1, s') else Completed(s0, sender, wqe, msg, s')
  {
    hide AcceptSend;
    hide Deliver;
    hide SendBuilder;
    hide SendBuilders;
    hide Buffer;
    hide Scatter;
    hide Remaining;
    hide AdvancePsn;
    var mtu := MtuBytes(sender.pathMtu);
    DeliverIsAccept(t, s0, sender, wqe, msg, n, i, s);
    var qp := if i == 0 then s.qp.(recvQueue := s.qp.recvQueue[1..]) else s.qp;
    var st := if i == 0 then BeginRecv(s.qp.recvQueue[0], s.qp.rqPsn) else s.recv;
    PlacePacket(s0, sender, wqe, msg, n, i, s.host, qp, st);
    OffsetStep(n, |msg|, mtu, i);
    assert msg[..|msg|] == msg;
  }

  /**
   * SEND end to end. For every message, MTU and starting sequence number, a receiver in step
   * with a buffer list at least as long as the message ends up with exactly the message in
   * the list and nothing else changed, one successful completion carrying the length and the
   * immediate, and its expected sequence number equal to the sender's next one.
   */
  lemma SendDelivered(t: Regions, s: Responder, sender: Qp, wqe: SendWqe, msg: seq<Byte>)
    requires Ready(s, sender) && IsSend(wqe, msg) && |msg| <= |Buffer(s)|
    requires |msg| + MtuBytes(sender.pathMtu) - 1 < TWO_32
    ensures var s' := Transmit(t, s, SendStream(sender, wqe, msg));
            && Completed(s, sender, wqe, msg, s')
            && (forall x :: 0 <= x < |s.host.bytes| && x !in Buffer(s)[..|msg|] ==> s'.host.bytes[x] == s.host.bytes[x])
            && (Distinct(Buffer(s)) ==> forall k :: 0 <= k < |msg| ==> s'.host.bytes[Buffer(s)[k]] == msg[k])
  {
    hide SendStream;
    hide Transmit;
    hide Buffer;
    var stream := SendStream(sender, wqe, msg);
    SendPrefix(t, s, sender, wqe, msg, |stream|);
    assert stream[..|stream|] == stream;
    ScatterReads(s.host.bytes, Buffer(s)[..|msg|], msg);
    assert forall k :: 0 <= k < |msg| ==> Buffer(s)[..|msg|][k] == Buffer(s)[k];
  }

  // ---------------------------------------------------------------------------
  // The buffer bound is exact
  // ---------------------------------------------------------------------------

  /** No completion yet, and the receiver still expects a packet it has already been offered. */
  ghost predicate Stuck(s0: Responder, i: nat, s: Responder) {
    s.cqes == s0.cqes && exists j :: 0 <= j < i && s.qp.rqPsn == AdvancePsn(s0.qp.rqPsn, j)
  }

  lemma StuckStays(t: Regions, s0: Responder, sender: Qp, wqe: SendWqe, msg: seq<Byte>, n: nat, i: nat, s: Responder)
    requires s0.qp.rqPsn == sender.sqPsn && i < n < TWO_24 && Stuck(s0, i, s)
    ensures Stuck(s0, i + 1, Deliver(t, s, Headers(SendBuilder(sender, wqe, msg, n, i))).next)
  {
    hide Deliver;
    hide AdvancePsn;
    hide Slice;
    var j :| 0 <= j < i && s.qp.rqPsn == AdvancePsn(s0.qp.rqPsn, j);
    var p := Headers(SendBuilder(sender, wqe, msg, n, i));
    if p.bth.psn == s.qp.rqPsn {
      AdvanceInjective(sender.sqPsn, i, j);
    }
    WrongPsnIgnored(t, s, p);
  }

  lemma OverflowNext(t: Regions, s0: Responder, sender: Qp, wqe: SendWqe, msg: seq<Byte>, n: nat, i: nat, s: Responder)
    requires Ready(s0, sender) && IsSend(wqe, msg) && |msg| > |Buffer(s0)|
    requires Covers(n, |msg|, MtuBytes(sender.pathMtu)) && i < n && Midway(s0, sender, msg, i, s)
    ensures var s' := Deliver(t, s, Headers(SendBuilder(sender, wqe, msg, n, i))).next;
            (i + 1 < n && Midway(s0, sender, msg, i + 1, s')) || Stuck(s0, i + 1, s')
  {
    hide AcceptSend;
    hide Deliver;
    hide SendBuilder;
    hide Buffer;
    hide Scatter;
    hide Remaining;
    hide AdvancePsn;
    var mtu := MtuBytes(sender.pathMtu);
    DeliverIsAccept(t, s0, sender, wqe, msg, n, i, s);
    var qp := if i == 0 then s.qp.(recvQueue := s.qp.recvQueue[1..]) else s.qp;
    var st := if i == 0 then BeginRecv(s.qp.recvQueue[0], s.qp.rqPsn) else s.recv;
    OffsetStep(n, |msg|, mtu, i);
    if Min((i + 1) * mtu, |msg|) <= |Buffer(s0)| {
      PlacePacket(s0, sender, wqe, msg, n, i, s.host, qp, st);
    } else {
      OverflowPacket(s0, sender, wqe, msg, n, i, s.host, qp, st);
      assert qp.rqPsn == AdvancePsn(s0.qp.rqPsn, i);
    }
  }

  lemma {:induction false} OverflowPrefix(t: Regions, s0: Responder, sender: Qp, wqe: SendWqe, msg: seq<Byte>, i: nat)
    requires Ready(s0, sender) && IsSend(wqe, msg) && |msg| > |Buffer(s0)|
    requires |msg| + MtuBytes(sender.pathMtu) - 1 < TWO_32 && i <= |SendStream(sender, wqe, msg)|
    ensures var s := Transmit(t, s0, SendStream(sender, wqe, msg)[..i]);
            (i < |SendStream(sender, wqe, msg)| && Midway(s0, sender, msg, i, s)) || Stuck(s0, i, s)
    decreases i
  {
    hide Deliver;
    hide Midway;
    hide Stuck;
    hide SendBuilder;
    var stream := SendStream(sender, wqe, msg);
    var n, mtu := |stream|, MtuBytes(sender.pathMtu);
    PacketCountExact(wqe.totalLength, mtu);
    if i == 0 {
      assert stream[..0] == [];
      MidwayAtStart(s0, sender, msg);
    } else {
      OverflowPrefix(t, s0, sender, wqe, msg, i - 1);
      var s := Transmit(t, s0, stream[..i - 1]);
      assert stream[..i][..i - 1] == stream[..i - 1];
      assert stream[..i][i - 1] == Headers(SendBuilder(sender, wqe, msg, n, i - 1));
      if Midway(s0, sender, msg, i - 1, s) {
        OverflowNext(t, s0, sender, wqe, msg, n, i - 1, s);
      } else {
        MessageIsShort(n, |msg|, mtu);
        StuckStays(t, s0, sender, wqe, msg, n, i - 1, s);
      }
    }
  }

  /** A message of fewer than 2^32 bytes never needs 2^24 packets. */
  lemma MessageIsShort(n: nat, length: nat, mtu: nat)
    requires mtu >= 256 && length + mtu - 1 < TWO_32 && Covers(n, length, mtu)
    ensures n < TWO_24
  {
    MulMonotone(256, mtu, n - 1);
    assert (n - 1) * mtu == mtu * (n - 1);
  }

  /** The receiver completes the message exactly when its buffer list is long enough. */
  lemma SendCompletesIffItFits(t: Regions, s: Responder, sender: Qp, wqe: SendWqe, msg: seq<Byte>)
    requires Ready(s, sender) && IsSend(wqe, msg)
    requires |msg| + MtuBytes(sender.pathMtu) - 1 < TWO_32
    ensures Completed(s, sender, wqe, msg, Transmit(t, s, SendStream(sender, wqe, msg))) <==> |msg| <= |Buffer(s)|
    ensures |msg| > |Buffer(s)| ==> Transmit(t, s, SendStream(sender, wqe, msg)).cqes == s.cqes
  {
    hide SendStream;
    hide Transmit;
    hide Buffer;
    if |msg| <= |Buffer(s)| {
      SendDelivered(t, s, sender, wqe, msg);
    } else {
      var stream := SendStream(sender, wqe, msg);
      OverflowPrefix(t, s, sender, wqe, msg, |stream|);
      assert stream[..|stream|] == stream;
    }
  }

  /** The receiver's parser reads exactly these packets off the bytes the sender builds. */
  lemma SendStreamOnWire(sender: Qp, wqe: SendWqe, msg: seq<Byte>, i: nat)
    requires IsSend(wqe, msg) && i < |SendStream(sender, wqe, msg)|
    ensures Parse(Encode(SendBuilders(sender, wqe, msg)[i])) == Some(SendStream(sender, wqe, msg)[i])
  {
    hide Parse;
    hide Encode;
    hide Slice;
    CodecRoundTrip(SendBuilders(sender, wqe, msg)[i]);
  }
}
