/** RDMA WRITE: a whole message lands exactly where it was addressed, and no WRITE ever lands elsewhere. */
module WriteEndToEnd {
  import opened Common
  import RdmaRead
  import opened RoceTypes
  import opened HostMemory
  import opened MemoryRegions
  import opened RocePacket
  import opened RoceQueuePair
  import opened SendRecv
  import opened RdmaWrite
  import opened Transport
  import opened SendEndToEnd

  predicate IsWrite(wqe: SendWqe, msg: seq<Byte>) {
    (wqe.opcode.RdmaWrite? || wqe.opcode.RdmaWriteImm?) && |msg| == wqe.totalLength
  }

  /** A responder in step, with a live region granting the whole target range. */
  ghost predicate Granted(t: Regions, s: Responder, sender: Qp, wqe: SendWqe) {
    && CanReceive(s.qp) && s.qp.rqPsn == sender.sqPsn
    && FaultFree(s.host) && wqe.remoteAddress + wqe.totalLength <= |s.host.bytes| < TWO_64
    && wqe.rkey in t.byRkey
    && var mr := t.byRkey[wqe.rkey];
       mr.pd == s.qp.pd && mr.access.remoteWrite && Contains(mr, wqe.remoteAddress, wqe.totalLength)
  }

  /** The granted range admits every part of it. */
  lemma PartGranted(t: Regions, s: Responder, sender: Qp, wqe: SendWqe, offset: nat, n: nat)
    requires Granted(t, s, sender, wqe) && offset + n <= wqe.totalLength
    ensures Sum64(wqe.remoteAddress, offset) == wqe.remoteAddress + offset
    ensures ValidateRkey(t, wqe.rkey, s.qp.pd, wqe.remoteAddress + offset, n, true)
  {
  }

  /** done bytes of the message stored, i packets taken. */
  ghost predicate Stored(s0: Responder, wqe: SendWqe, msg: seq<Byte>, done: nat, i: nat, h: Host, qp: Qp, st: WriteState)
    requires wqe.remoteAddress + |msg| <= |s0.host.bytes|
  {
    && done <= |msg|
    && h == s0.host.(bytes := Splice(s0.host.bytes, wqe.remoteAddress, msg[..done]))
    && qp == s0.qp.(rqPsn := AdvancePsn(s0.qp.rqPsn, i))
    && st.remoteAddress == wqe.remoteAddress && st.rkey == wqe.rkey && st.bytesWritten == done
    && st.expectedPsn == AdvancePsn(s0.qp.rqPsn, i) && st.immediate == None
  }

  lemma SpliceOn(bytes: seq<Byte>, a: nat, msg: seq<Byte>, done: nat, n: nat)
    requires a + |msg| <= |bytes| && done + n <= |msg|
    ensures Splice(Splice(bytes, a, msg[..done]), a + done, msg[done..done + n]) == Splice(bytes, a, msg[..done + n])
  {
  }

  lemma RemoteStretch(t: Regions, s0: Responder, sender: Qp, wqe: SendWqe, msg: seq<Byte>, done: nat, n: nat)
    requires Granted(t, s0, sender, wqe) && IsWrite(wqe, msg) && done + n <= |msg|
    ensures WriteRemote(s0.host.(bytes := Splice(s0.host.bytes, wqe.remoteAddress, msg[..done])), t, wqe.rkey, s0.qp.pd,
                        Sum64(wqe.remoteAddress, done), msg[done..done + n])
         == Some(s0.host.(bytes := Splice(s0.host.bytes, wqe.remoteAddress, msg[..done + n])))
  {
    hide ValidateRkey;
    PartGranted(t, s0, sender, wqe, done, n);
    SpliceOn(s0.host.bytes, wqe.remoteAddress, msg, done, n);
    assert n == 0 ==> msg[..done] == msg[..done + n];
  }

  /** What the responder reads off packet i of a WRITE. */
  lemma PacketShape(sender: Qp, wqe: SendWqe, msg: seq<Byte>, n: nat, i: nat)
    requires i < n
    ensures var p := Headers(WriteBuilder(sender, wqe, msg, n, i));
            && p.payload == Slice(msg, MtuBytes(sender.pathMtu), i) && p.bth.psn == AdvancePsn(sender.sqPsn, i)
            && (OpcodeIsLast(p.bth.opcode) || OpcodeIsOnly(p.bth.opcode) <==> i + 1 == n)
            && p.immediate == if i + 1 == n && wqe.opcode.RdmaWriteImm? then Some(wqe.immediate) else None
  {
    hide Slice;
    hide AdvancePsn;
  }

  /** One in-sequence packet stores one slice; the last one settles the immediate. */
  lemma StorePacket(t: Regions, s0: Responder, sender: Qp, wqe: SendWqe, msg: seq<Byte>, n: nat, i: nat, h: Host, qp: Qp, st: WriteState)
    requires Granted(t, s0, sender, wqe) && IsWrite(wqe, msg) && Covers(n, |msg|, MtuBytes(sender.pathMtu)) && i < n
    requires Stored(s0, wqe, msg, i * MtuBytes(sender.pathMtu), i, h, qp, st)
    ensures var r := AcceptWrite(h, t, qp, st, Headers(WriteBuilder(sender, wqe, msg, n, i)));
            && r.st.inProgress == (i + 1 < n)
            && (r.res.success <==> i + 1 < n || !Starved(s0, wqe))
            && (i + 1 < n ==> Stored(s0, wqe, msg, (i + 1) * MtuBytes(sender.pathMtu), i + 1, r.host, r.qp, r.st) && r.res.cqe == None)
            && (i + 1 == n ==>
                  && r.host == s0.host.(bytes := Splice(s0.host.bytes, wqe.remoteAddress, msg))
                  && r.qp == s0.qp.(rqPsn := AdvancePsn(s0.qp.rqPsn, n),
                                    recvQueue := if Notifies(s0, wqe) then s0.qp.recvQueue[1..] else s0.qp.recvQueue)
                  && r.res.cqe == (if Notifies(s0, wqe) then Some(WriteCompletion(s0, wqe)) else None)
                  && (Starved(s0, wqe) ==> ReplyFor(r.res) == Some(Reply(AdvancePsn(sender.sqPsn, i), SYNDROME_RNR_NAK))))
  {
    hide AdvancePsn;
    hide WriteRemote;
    hide Splice;
    hide OpcodeIsLast;
    hide OpcodeIsOnly;
    hide WriteBuilder;
    var mtu := MtuBytes(sender.pathMtu);
    OffsetStep(n, |msg|, mtu, i);
    PacketShape(sender, wqe, msg, n, i);
    var done, payload := i * mtu, Slice(msg, mtu, i);
    assert payload == msg[done..done + |payload|];
    RemoteStretch(t, s0, sender, wqe, msg, done, |payload|);
    assert i + 1 == n ==> msg[..done + |payload|] == msg;
    AdvanceTwice(s0.qp.rqPsn, i, 1);
  }

  /** The immediate finds a receive entry to be reported through. */
  predicate Notifies(s: Responder, wqe: SendWqe) { wqe.opcode.RdmaWriteImm? && s.qp.recvQueue != [] }

  /** The immediate finds none. */
  predicate Starved(s: Responder, wqe: SendWqe) { wqe.opcode.RdmaWriteImm? && s.qp.recvQueue == [] }

  function WriteCompletion(s: Responder, wqe: SendWqe): Cqe
    requires s.qp.recvQueue != []
  {
    Cqe(s.qp.recvQueue[0].wrId, Success, RdmaWriteImm, s.qp.number, wqe.totalLength, Some(wqe.immediate), false)
  }

  ghost predicate Midway(s0: Responder, sender: Qp, wqe: SendWqe, msg: seq<Byte>, i: nat, s: Responder)
    requires wqe.remoteAddress + |msg| <= |s0.host.bytes|
  {
    && s.recv == s0.recv && s.cqes == s0.cqes
    && if i == 0 then s == s0
       else Stored(s0, wqe, msg, i * MtuBytes(sender.pathMtu), i, s.host, s.qp, s.write) && s.write.inProgress
  }

  lemma DeliverIsStore(t: Regions, s0: Responder, sender: Qp, wqe: SendWqe, msg: seq<Byte>, n: nat, i: nat, s: Responder)
    requires Granted(t, s0, sender, wqe) && IsWrite(wqe, msg) && i < n && Midway(s0, sender, wqe, msg, i, s)
    ensures var p := Headers(WriteBuilder(sender, wqe, msg, n, i));
            var st := if i == 0 then BeginWrite(p.reth.value, s.qp.rqPsn) else s.write;
            && Stored(s0, wqe, msg, i * MtuBytes(sender.pathMtu), i, s.host, s.qp, st)
            && var r := AcceptWrite(s.host, t, s.qp, st, p);
               && Deliver(t, s, p).next == s.(host := r.host, qp := r.qp, write := r.st, cqes := Posted(s.cqes, r.res))
               && Deliver(t, s, p).reply == ReplyFor(r.res)
  {
    hide AcceptWrite;
    hide AdvancePsn;
    hide Slice;
    hide ValidateRkey;
    AdvanceNone(s0.qp.rqPsn);
    PartGranted(t, s0, sender, wqe, 0, wqe.totalLength);
    assert msg[..0] == [];
    assert Splice(s0.host.bytes, wqe.remoteAddress, []) == s0.host.bytes;
  }

  function WriteStream(sender: Qp, wqe: SendWqe, msg: seq<Byte>): seq<Packet>
    requires |msg| == wqe.totalLength
  {
    HeadersOf(WriteBuilders(sender, wqe, msg))
  }

  /** The responder after the whole message. */
  ghost predicate Written(s0: Responder, sender: Qp, wqe: SendWqe, msg: seq<Byte>, s: Responder)
    requires |msg| == wqe.totalLength && wqe.remoteAddress + |msg| <= |s0.host.bytes|
  {
    && s.host == s0.host.(bytes := Splice(s0.host.bytes, wqe.remoteAddress, msg))
    && s.qp == s0.qp.(rqPsn := AdvancePsn(sender.sqPsn, |WriteStream(sender, wqe, msg)|),
                      recvQueue := if Notifies(s0, wqe) then s0.qp.recvQueue[1..] else s0.qp.recvQueue)
    && s.cqes == s0.cqes + (if Notifies(s0, wqe) then [WriteCompletion(s0, wqe)] else [])
    && !s.write.inProgress && s.recv == s0.recv
  }

  lemma WriteNext(t: Regions, s0: Responder, sender: Qp, wqe: SendWqe, msg: seq<Byte>, n: nat, i: nat, s: Responder)
    requires Granted(t, s0, sender, wqe) && IsWrite(wqe, msg) && n == |WriteStream(sender, wqe, msg)|
    requires Covers(n, |msg|, MtuBytes(sender.pathMtu)) && i < n && Midway(s0, sender, wqe, msg, i, s)
    ensures var s' := Deliver(t, s, Headers(WriteBuilder(sender, wqe, msg, n, i))).next;
            if i + 1 < n then Midway(s0, sender, wqe, msg, i + 1, s') else Written(s0, sender, wqe, msg, s')
    ensures i + 1 == n && Starved(s0, wqe) ==>
              Deliver(t, s, Headers(WriteBuilder(sender, wqe, msg, n, i))).reply == Some(Reply(AdvancePsn(sender.sqPsn, i), SYNDROME_RNR_NAK))
  {
    hide ReplyFor;
    hide AcceptWrite;
    hide Deliver;
    hide AdvancePsn;
    hide Splice;
    hide WriteBuilders;
    DeliverIsStore(t, s0, sender, wqe, msg, n, i, s);
    var p := Headers(WriteBuilder(sender, wqe, msg, n, i));
    var st := if i == 0 then BeginWrite(p.reth.value, s.qp.rqPsn) else s.write;
    hide WriteBuilder;
    StorePacket(t, s0, sender, wqe, msg, n, i, s.host, s.qp, st);
  }

  lemma {:induction false} WritePrefix(t: Regions, s0: Responder, sender: Qp, wqe: SendWqe, msg: seq<Byte>, i: nat)
    requires Granted(t, s0, sender, wqe) && IsWrite(wqe, msg)
    requires |msg| + MtuBytes(sender.pathMtu) - 1 < TWO_32 && i <= |WriteStream(sender, wqe, msg)|
    ensures var s := Transmit(t, s0, WriteStream(sender, wqe, msg)[..i]);
            if i < |WriteStream(sender, wqe, msg)| then Midway(s0, sender, wqe, msg, i, s) else Written(s0, sender, wqe, msg, s)
    decreases i
  {
    hide Deliver;
    hide Stored;
    hide Written;
    hide WriteBuilder;
    var stream := WriteStream(sender, wqe, msg);
    var n := |stream|;
    PacketCountExact(wqe.totalLength, MtuBytes(sender.pathMtu));
    if i == 0 {
      assert stream[..0] == [];
    } else {
      WritePrefix(t, s0, sender, wqe, msg, i - 1);
      assert stream[..i][..i - 1] == stream[..i - 1];
      assert stream[..i][i - 1] == Headers(WriteBuilder(sender, wqe, msg, n, i - 1));
      WriteNext(t, s0, sender, wqe, msg, n, i - 1, Transmit(t, s0, stream[..i - 1]));
    }
  }

  /**
   * WRITE end to end. A granted WRITE of any length and MTU turns exactly the addressed range
   * into the message, leaves the sequence numbers in step, and completes at the responder
   * once if it carries an immediate that finds a receive entry, and not at all otherwise.
   */
  lemma WriteDelivered(t: Regions, s: Responder, sender: Qp, wqe: SendWqe, msg: seq<Byte>)
    requires Granted(t, s, sender, wqe) && IsWrite(wqe, msg)
    requires |msg| + MtuBytes(sender.pathMtu) - 1 < TWO_32
    ensures var s' := Transmit(t, s, WriteStream(sender, wqe, msg));
            && Written(s, sender, wqe, msg, s')
            && s'.host.bytes[wqe.remoteAddress..wqe.remoteAddress + |msg|] == msg
            && forall x :: 0 <= x < |s.host.bytes| && !(wqe.remoteAddress <= x < wqe.remoteAddress + |msg|) ==>
                 s'.host.bytes[x] == s.host.bytes[x]
  {
    hide WriteStream;
    hide Transmit;
    var stream := WriteStream(sender, wqe, msg);
    WritePrefix(t, s, sender, wqe, msg, |stream|);
    assert stream[..|stream|] == stream;
  }

  /** A WRITE is numbered from the sender's counter and never needs 2^24 packets. */
  lemma WriteStreamNumbered(sender: Qp, wqe: SendWqe, msg: seq<Byte>)
    requires IsWrite(wqe, msg) && |msg| + MtuBytes(sender.pathMtu) - 1 < TWO_32
    ensures Numbered(WriteStream(sender, wqe, msg), sender.sqPsn) && |WriteStream(sender, wqe, msg)| >= 1
  {
    hide AdvancePsn, Slice;
    PacketCountExact(wqe.totalLength, MtuBytes(sender.pathMtu));
    MessageIsShort(|WriteStream(sender, wqe, msg)|, |msg|, MtuBytes(sender.pathMtu));
  }

  /**
   * A granted WRITE with immediate earns the responder its completion exactly when a receive
   * entry is there when the last packet arrives. Without one the bytes are stored and the
   * sequence number moves on all the same, the last packet is answered with a not-ready NAK,
   * and from then on every repeat of the message is ignored, whatever has been posted since.
   */
  lemma ImmediateReportedIff(t: Regions, s: Responder, sender: Qp, wqe: SendWqe, msg: seq<Byte>)
    requires Granted(t, s, sender, wqe) && IsWrite(wqe, msg) && wqe.opcode.RdmaWriteImm?
    requires |msg| + MtuBytes(sender.pathMtu) - 1 < TWO_32
    ensures var stream := WriteStream(sender, wqe, msg); var s' := Transmit(t, s, stream);
            && |stream| >= 1
            && (s'.cqes != s.cqes <==> s.qp.recvQueue != [])
            && (s.qp.recvQueue == [] ==>
                  && s'.cqes == s.cqes && s'.qp == s.qp.(rqPsn := AdvancePsn(sender.sqPsn, |stream|))
                  && s'.host == s.host.(bytes := Splice(s.host.bytes, wqe.remoteAddress, msg))
                  && Deliver(t, Transmit(t, s, stream[..|stream| - 1]), stream[|stream| - 1]).reply
                     == Some(Reply(AdvancePsn(sender.sqPsn, |stream| - 1), SYNDROME_RNR_NAK)))
  {
    hide Deliver, Splice, AdvancePsn, Stored;
    WriteStreamNumbered(sender, wqe, msg);
    WriteDelivered(t, s, sender, wqe, msg);
    var stream := WriteStream(sender, wqe, msg);
    var n := |stream|;
    PacketCountExact(wqe.totalLength, MtuBytes(sender.pathMtu));
    WritePrefix(t, s, sender, wqe, msg, n - 1);
    hide Transmit;
    WriteNext(t, s, sender, wqe, msg, n, n - 1, Transmit(t, s, stream[..n - 1]));
    assert stream[n - 1] == Headers(WriteBuilder(sender, wqe, msg, n, n - 1));
  }

  /** Once a stream of fewer than 2^24 packets has gone by, its packets change nothing any more. */
  lemma {:induction false} RepeatsIgnored(t: Regions, s: Responder, stream: seq<Packet>, start: U24, repeats: seq<Packet>)
    requires Numbered(stream, start) && s.qp.rqPsn == AdvancePsn(start, |stream|)
    requires forall i :: 0 <= i < |repeats| ==> repeats[i] in stream
    ensures Transmit(t, s, repeats) == s
    decreases |repeats|
  {
    hide Deliver, AdvancePsn;
    if repeats != [] {
      var n := |repeats| - 1;
      RepeatsIgnored(t, s, stream, start, repeats[..n]);
      var k :| 0 <= k < |stream| && stream[k] == repeats[n];
      if stream[k].bth.psn == s.qp.rqPsn {
        AdvanceInjective(start, k, |stream|);
      }
      WrongPsnIgnored(t, s, repeats[n]);
    }
  }

  /** The starved immediate stays lost: with buffers posted afterwards, repeating the message changes nothing. */
  lemma StarvedImmediateIsLost(t: Regions, s: Responder, sender: Qp, wqe: SendWqe, msg: seq<Byte>, posted: seq<RecvWqe>, repeats: seq<Packet>)
    requires Granted(t, s, sender, wqe) && IsWrite(wqe, msg) && Starved(s, wqe)
    requires |msg| + MtuBytes(sender.pathMtu) - 1 < TWO_32
    requires forall i :: 0 <= i < |repeats| ==> repeats[i] in WriteStream(sender, wqe, msg)
    ensures var s' := Transmit(t, s, WriteStream(sender, wqe, msg));
            var refilled := s'.(qp := s'.qp.(recvQueue := posted));
            Transmit(t, refilled, repeats) == refilled && refilled.cqes == s.cqes
  {
    hide Transmit, WriteStream, Deliver, Splice, AdvancePsn;
    WriteStreamNumbered(sender, wqe, msg);
    ImmediateReportedIff(t, s, sender, wqe, msg);
    var s' := Transmit(t, s, WriteStream(sender, wqe, msg));
    RepeatsIgnored(t, s'.(qp := s'.qp.(recvQueue := posted)), WriteStream(sender, wqe, msg), sender.sqPsn, repeats);
  }

  /** The responder's parser reads exactly these packets off the bytes the requester builds. */
  lemma WriteStreamOnWire(sender: Qp, wqe: SendWqe, msg: seq<Byte>, i: nat)
    requires IsWrite(wqe, msg) && i < |WriteStream(sender, wqe, msg)|
    ensures Parse(Encode(WriteBuilders(sender, wqe, msg)[i])) == Some(WriteStream(sender, wqe, msg)[i])
  {
    hide Parse;
    hide Encode;
    hide Slice;
    CodecRoundTrip(WriteBuilders(sender, wqe, msg)[i]);
  }

  // ---------------------------------------------------------------------------
  // Frame over whole runs
  // ---------------------------------------------------------------------------

  /**
   * A stretch that passes both the 64-bit key check and the memory bound lies inside a live
   * region, wrap-around or not.
   */
  lemma RemoteWriteInsideRegion(h: Host, t: Regions, rkey: U32, pd: U32, address: U64, data: seq<Byte>, x: nat)
    requires Consistent(t) && |h.bytes| < TWO_64 && x < |h.bytes|
    requires var r := WriteRemote(h, t, rkey, pd, address, data);
             r.Some? && r.value.bytes[x] != h.bytes[x]
    ensures RemotelyWritable(t, pd, x)
  {
    var mr := t.byRkey[rkey];
    assert address <= x < address + |data|;
    assert t.byLkey[mr.lkey] == mr;
    assert Contains(mr, x, 1);
  }

  lemma WritePacketFrame(h: Host, t: Regions, qp: Qp, st: WriteState, p: Packet, x: nat)
    requires Consistent(t) && |h.bytes| < TWO_64 && x < |h.bytes|
    requires |ProcessWrite(h, t, qp, st, p).host.bytes| == |h.bytes|
    requires ProcessWrite(h, t, qp, st, p).host.bytes[x] != h.bytes[x]
    ensures RemotelyWritable(t, qp.pd, x)
  {
    hide WriteRemote;
    hide AdvancePsn;
    hide RemotelyWritable;
    hide ValidateRkey;
    hide Consistent;
    if p.reth.Some? && (OpcodeIsFirst(p.bth.opcode) || OpcodeIsOnly(p.bth.opcode)) {
      RemoteWriteInsideRegion(h, t, p.reth.value.rkey, qp.pd, Sum64(p.reth.value.address, 0), p.payload, x);
    } else {
      RemoteWriteInsideRegion(h, t, st.rkey, qp.pd, Sum64(st.remoteAddress, st.bytesWritten), p.payload, x);
    }
  }

  /** The table stays consistent and memory keeps its size over every run. */
  lemma {:induction false} RunKeeps(s: System, events: seq<Event>)
    requires Consistent(s.regions)
    ensures var s' := Run(s, events);
            && Consistent(s'.regions) && |s'.r.host.bytes| == |s.r.host.bytes|
            && s'.r.qp.pd == s.r.qp.pd && s'.r.qp.state == s.r.qp.state
    decreases |events|
  {
    hide Deliver;
    hide Consistent;
    hide Register;
    hide Deregister;
    if events != [] {
      var s', e := Run(s, events[..|events| - 1]), events[|events| - 1];
      RunKeeps(s, events[..|events| - 1]);
      match e {
        case Arrive(p) => DeliverFacts(s'.regions, s'.r, p);
        case PostBuffer(_) =>
        case RegisterRegion(pd, address, length, access) =>
          RegisterKeepsConsistent(s'.regions, s'.maxRegions, pd, address, length, access);
        case DeregisterRegion(lkey) => DeregisterKeepsConsistent(s'.regions, lkey);
      }
    }
  }

  /**
   * Over any run of arbitrary packets, registrations and deregistrations, every byte an
   * arriving WRITE packet changes lies in a region that was registered at that moment, with
   * remote write access, in the queue pair's own protection domain.
   */
  lemma WritesStayInRegions(s: System, events: seq<Event>, i: nat, x: nat)
    requires Consistent(s.regions) && |s.r.host.bytes| < TWO_64
    requires i < |events| && events[i].Arrive? && OpcodeIsWrite(events[i].packet.bth.opcode)
    requires x < |s.r.host.bytes| == |Run(s, events[..i]).r.host.bytes| == |Run(s, events[..i + 1]).r.host.bytes|
    requires Run(s, events[..i + 1]).r.host.bytes[x] != Run(s, events[..i]).r.host.bytes[x]
    ensures RemotelyWritable(Run(s, events[..i]).regions, s.r.qp.pd, x)
  {
    RunKeeps(s, events[..i]);
    assert events[..i + 1][..i] == events[..i];
    var s' := Run(s, events[..i]);
    var p := events[i].packet;
    hide ProcessWrite;
    hide ProcessRecv;
    hide RdmaRead.ProcessReadRequest;
    hide RemotelyWritable;
    hide Consistent;
    WritePacketFrame(s'.r.host, s'.regions, s'.r.qp, s'.r.write, p, x);
  }
}
