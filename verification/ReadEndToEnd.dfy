/** RDMA READ: the requester's buffer list ends up holding the remote bytes. */
module ReadEndToEnd {
  import opened Common
  import Bits
  import opened RoceTypes
  import opened HostMemory
  import opened MemoryRegions
  import opened Sgl
  import opened RocePacket
  import opened RoceQueuePair
  import opened SendRecv
  import opened RdmaRead
  import opened RdmaWrite
  import opened Transport
  import opened SendEndToEnd

  // ---------------------------------------------------------------------------
  // Responder
  // ---------------------------------------------------------------------------

  /** A responder in step, with a live region that grants remote reads of the whole range. */
  ghost predicate ReadGranted(t: Regions, h: Host, qp: Qp, psn: U24, wqe: SendWqe) {
    && CanReceive(qp) && qp.rqPsn == psn
    && FaultFree(h) && wqe.remoteAddress + wqe.totalLength <= |h.bytes| < TWO_64
    && wqe.rkey in t.byRkey
    && var mr := t.byRkey[wqe.rkey];
       mr.pd == qp.pd && mr.access.remoteRead && Contains(mr, wqe.remoteAddress, wqe.totalLength)
  }

  /** The bytes the READ asks for, as they are when the request arrives. */
  function Wanted(h: Host, wqe: SendWqe): seq<Byte>
    requires wqe.remoteAddress + wqe.totalLength <= |h.bytes|
  {
    h.bytes[wqe.remoteAddress..wqe.remoteAddress + wqe.totalLength]
  }

  lemma RequestAnswered(t: Regions, h: Host, qp: Qp, psn: U24, destQp: U32, wqe: SendWqe)
    requires ReadGranted(t, h, qp, psn, wqe)
    requires wqe.totalLength + MtuBytes(qp.pathMtu) - 1 < TWO_32
    ensures var r := ProcessReadRequest(h, t, qp, Headers(RequestBuilder(destQp, psn, wqe)));
            && r.res.success && !r.res.needsNak
            && r.res.responses == ResponseBuilders(qp.(rqPsn := AdvancePsn(qp.rqPsn, 1)), Wanted(h, wqe))
            && r.qp == qp.(rqPsn := AdvancePsn(qp.rqPsn, 1), sqPsn := AdvancePsn(qp.sqPsn, |r.res.responses|))
  {
    hide AdvancePsn;
    hide ResponseBuilder;
    PacketCountExact(wqe.totalLength, MtuBytes(qp.pathMtu));
    assert ValidateRkey(t, wqe.rkey, qp.pd, wqe.remoteAddress, wqe.totalLength, false);
    assert ReadRemote(h, t, wqe.rkey, qp.pd, wqe.remoteAddress, wqe.totalLength) == Some(Wanted(h, wqe));
  }

  // ---------------------------------------------------------------------------
  // Requester
  // ---------------------------------------------------------------------------

  datatype Requester = Requester(host: Host, st: ReadState, cqes: seq<Cqe>)

  /** Responses processed in order; a completion is delivered only for a successful one. */
  function Receive(t: Regions, qpNumber: U32, s: Requester, packets: seq<Packet>): Requester {
    if packets == [] then s else
    var before := Receive(t, qpNumber, s, packets[..|packets| - 1]);
    var r := ProcessReadResponse(before.host, t, qpNumber, before.st, packets[|packets| - 1]);
    Requester(r.host, r.st, before.cqes + if r.res.success && r.res.cqe.Some? then [r.res.cqe.value] else [])
  }

  /** The local list lies in memory and in a region the local key may write. */
  ghost predicate Writable(t: Regions, h: Host, wqe: SendWqe) {
    && FaultFree(h) && InRange(wqe.sgl, |h.bytes|)
    && wqe.lkey in t.byLkey && t.byLkey[wqe.lkey].access.localWrite
    && forall i :: 0 <= i < |wqe.sgl| ==> Contains(t.byLkey[wqe.lkey], wqe.sgl[i].address, wqe.sgl[i].length)
  }

  lemma WritableIsOpen(t: Regions, h: Host, wqe: SendWqe)
    requires Writable(t, h, wqe)
    ensures GuardOpen(Guarded(t, wqe.lkey), wqe.sgl)
  {
    forall i, offset: nat, n: nat | 0 <= i < |wqe.sgl|
      ensures StretchPermitted(Guarded(t, wqe.lkey), wqe.sgl[i], offset, n)
    {
      assert Contains(t.byLkey[wqe.lkey], wqe.sgl[i].address, wqe.sgl[i].length);
      assert wqe.sgl[i].address + wqe.sgl[i].length <= |h.bytes|;
    }
  }

  /** done bytes of the data are in the list, i responses processed. */
  ghost predicate Filled(h0: Host, wqe: SendWqe, data: seq<Byte>, done: nat, h: Host, st: ReadState) {
    var addrs := Addresses(wqe.sgl);
    && done <= |data| && done <= |addrs| && Within(addrs, |h0.bytes|)
    && h == h0.(bytes := Scatter(h0.bytes, addrs[..done], data[..done]))
    && st.wrId == wqe.wrId && st.lkey == wqe.lkey && st.sgl == wqe.sgl && st.bytesReceived == done % TWO_32
    && CursorOk(st.sgl, st.cursor) && Remaining(st.sgl, st.cursor) == addrs[done..]
  }

  lemma FilledAtStart(t: Regions, h: Host, wqe: SendWqe, data: seq<Byte>, psn: U24)
    requires Writable(t, h, wqe)
    ensures Filled(h, wqe, data, 0, h, BeginRead(wqe, psn))
  {
    AddressesWithin(wqe.sgl, |h.bytes|);
    assert wqe.sgl[0..] == wqe.sgl;
    assert Remaining(wqe.sgl, START) == Addresses(wqe.sgl);
  }

  lemma FillStretch(t: Regions, h0: Host, wqe: SendWqe, data: seq<Byte>, done: nat, h: Host, st: ReadState, n: nat)
    requires Writable(t, h0, wqe) && Filled(h0, wqe, data, done, h, st)
    requires done + n <= |data|
    ensures var w := WriteSgl(h, Guarded(t, wqe.lkey), st.sgl, data[done..done + n], st.cursor);
            && w.written == Min(n, |Addresses(wqe.sgl)| - done)
            && (done + n <= |Addresses(wqe.sgl)| ==>
                  && w.host == h0.(bytes := Scatter(h0.bytes, Addresses(wqe.sgl)[..done + n], data[..done + n]))
                  && CursorOk(st.sgl, w.cursor) && Remaining(st.sgl, w.cursor) == Addresses(wqe.sgl)[done + n..])
  {
    WritableIsOpen(t, h0, wqe);
    hide WriteSgl;
    hide Addresses;
    hide Scatter;
    hide GuardOpen;
    var addrs, part := Addresses(wqe.sgl), data[done..done + n];
    assert FaultFree(h);
    WriteSglIsScatter(h, Guarded(t, wqe.lkey), st.sgl, part, st.cursor);
    if done + n <= |addrs| {
      assert Min(|part|, |addrs[done..]|) == n;
      assert part[..n] == part;
      Subslices(data, done, n);
      Subslices(addrs, done, n);
      ScatterSplit(h0.bytes, addrs, data, done, n);
    }
  }

  /** A response the requester does not turn down: first and only packets carry a positive AETH. */
  predicate Good(p: Packet) {
    && OpcodeIsReadResponse(p.bth.opcode)
    && (OpcodeIsFirst(p.bth.opcode) || OpcodeIsOnly(p.bth.opcode) ==> p.aeth.Some? && p.aeth.value.syndrome == SYNDROME_ACK)
  }

  predicate Ends(p: Packet) { OpcodeIsLast(p.bth.opcode) || OpcodeIsOnly(p.bth.opcode) }

  /** One good response while the READ is under way. */
  lemma OneHeard(t: Regions, h0: Host, qpNumber: U32, wqe: SendWqe, c: seq<Byte>, p: Packet, s: Requester)
    requires Writable(t, h0, wqe) && Good(p) && Filled(h0, wqe, c, |c|, s.host, s.st) && s.st.inProgress
    ensures var r := ProcessReadResponse(s.host, t, qpNumber, s.st, p); var c' := c + p.payload;
            if |c'| > |Addresses(wqe.sgl)| then !r.res.success && !r.st.inProgress
            else
              && Filled(h0, wqe, c', |c'|, r.host, r.st)
              && r.res.success && r.st.inProgress == !Ends(p)
              && r.res.cqe == (if Ends(p) then Some(ReadCqe(qpNumber, r.st, Success, |c'| % TWO_32)) else None)
  {
    hide WriteSgl, Addresses, Scatter, Remaining, AdvancePsn, OpcodeIsFirst, OpcodeIsLast, OpcodeIsOnly, Writable;
    var c' := c + p.payload;
    assert c'[..|c|] == c == c[..|c|] && c'[|c|..|c| + |p.payload|] == p.payload;
    FillStretch(t, h0, wqe, c', |c|, s.host, s.st, |p.payload|);
    Bits.ModAdd(|c|, |p.payload|, TWO_32);
  }

  /** What the requester reads off response i. */
  lemma ResponseShape(qp: Qp, data: seq<Byte>, n: nat, i: nat)
    requires i < n
    ensures var p := Headers(ResponseBuilder(qp, data, n, i));
            && p.payload == Slice(data, MtuBytes(qp.pathMtu), i) && OpcodeIsReadResponse(p.bth.opcode)
            && (OpcodeIsLast(p.bth.opcode) || OpcodeIsOnly(p.bth.opcode) <==> i + 1 == n)
            && (OpcodeIsFirst(p.bth.opcode) || OpcodeIsOnly(p.bth.opcode) ==> p.aeth == Some(Aeth(SYNDROME_ACK, 0)))
  {
    hide Slice;
    hide AdvancePsn;
  }

  function OneResponse(t: Regions, qpNumber: U32, s: Requester, p: Packet): Requester {
    var r := ProcessReadResponse(s.host, t, qpNumber, s.st, p);
    Requester(r.host, r.st, s.cqes + if r.res.success && r.res.cqe.Some? then [r.res.cqe.value] else [])
  }

  lemma ReceiveOneMore(t: Regions, qpNumber: U32, s0: Requester, stream: seq<Packet>, i: nat)
    requires i < |stream|
    ensures Receive(t, qpNumber, s0, stream[..i + 1]) == OneResponse(t, qpNumber, Receive(t, qpNumber, s0, stream[..i]), stream[i])
  {
    hide ProcessReadResponse;
    assert stream[..i + 1][..i] == stream[..i] && stream[..i + 1][i] == stream[i];
  }

  /** The responses as they arrive. */
  lemma ResponseStream(responder: Qp, data: seq<Byte>)
    requires |data| + MtuBytes(responder.pathMtu) - 1 < TWO_32
    ensures var n := |ResponseBuilders(responder, data)|; var stream := HeadersOf(ResponseBuilders(responder, data));
            && |stream| == n >= 1 && Covers(n, |data|, MtuBytes(responder.pathMtu))
            && forall i :: 0 <= i < n ==> stream[i] == Headers(ResponseBuilder(responder, data, n, i))
  {
    hide Headers, ResponseBuilder, PacketCount;
    PacketCountExact(|data|, MtuBytes(responder.pathMtu));
  }

  lemma FilledKeepsRequest(h0: Host, wqe: SendWqe, data: seq<Byte>, done: nat, r: ResponseStep)
    requires Filled(h0, wqe, data, done, r.host, r.st)
    ensures r.st.wrId == wqe.wrId
  {
  }

  /** The requester's parser reads exactly these responses off the bytes the responder builds. */
  lemma ResponsesOnWire(qp: Qp, data: seq<Byte>, i: nat)
    requires |data| < TWO_32 && i < |ResponseBuilders(qp, data)|
    ensures Parse(Encode(ResponseBuilders(qp, data)[i])) == Some(HeadersOf(ResponseBuilders(qp, data))[i])
  {
    hide Parse;
    hide Encode;
    hide Slice;
    CodecRoundTrip(ResponseBuilders(qp, data)[i]);
  }

  // ---------------------------------------------------------------------------
  // Responses in whatever order they arrive
  // ---------------------------------------------------------------------------

  /** Some last or only response has arrived. */
  predicate Over(ps: seq<Packet>) { exists i :: 0 <= i < |ps| && Ends(ps[i]) }

  /** The payloads in order of arrival, up to the first last or only response. */
  function Heard(ps: seq<Packet>): seq<Byte> {
    if ps == [] then [] else
    var before := ps[..|ps| - 1];
    Heard(before) + if Over(before) then [] else ps[|ps| - 1].payload
  }

  /** Where the requester stands after the responses ps. */
  ghost predicate Standing(h0: Host, qpNumber: U32, wqe: SendWqe, ps: seq<Packet>, s: Requester) {
    var c := Heard(ps);
    if |c| > |Addresses(wqe.sgl)| then s.cqes == [] && !s.st.inProgress
    else
      && Filled(h0, wqe, c, |c|, s.host, s.st)
      && s.st.inProgress == !Over(ps)
      && s.cqes == (if Over(ps) then [Cqe(wqe.wrId, Success, RdmaRead, qpNumber, |c| % TWO_32, None, true)] else [])
  }

  lemma StandingStep(t: Regions, h0: Host, qpNumber: U32, wqe: SendWqe, ps: seq<Packet>, p: Packet, s: Requester)
    requires Writable(t, h0, wqe) && Good(p) && Standing(h0, qpNumber, wqe, ps, s)
    ensures Standing(h0, qpNumber, wqe, ps + [p], OneResponse(t, qpNumber, s, p))
  {
    HeardStep(ps, p);
    hide Heard, Over, Writable, Filled, Good, Addresses;
    if s.st.inProgress {
      hide ProcessReadResponse, Ends;
      OneHeard(t, h0, qpNumber, wqe, Heard(ps), p, s);
      var r := ProcessReadResponse(s.host, t, qpNumber, s.st, p);
      if r.res.success {
        FilledKeepsRequest(h0, wqe, Heard(ps + [p]), |Heard(ps + [p])|, r);
      }
    } else {
      assert OneResponse(t, qpNumber, s, p) == s;
      assert Heard(ps) + [] == Heard(ps);
    }
  }

  lemma NothingArrived(t: Regions, h: Host, qpNumber: U32, psn: U24, wqe: SendWqe)
    requires Writable(t, h, wqe)
    ensures Standing(h, qpNumber, wqe, [], Receive(t, qpNumber, Requester(h, BeginRead(wqe, psn), []), []))
  {
    hide Writable, Filled, Addresses;
    FilledAtStart(t, h, wqe, [], psn);
  }

  lemma HeardStep(ps: seq<Packet>, p: Packet)
    ensures Heard(ps + [p]) == Heard(ps) + (if Over(ps) then [] else p.payload)
    ensures Over(ps + [p]) <==> Over(ps) || Ends(p)
  {
    hide Ends;
    var all := ps + [p];
    assert all[..|ps|] == ps && all[|ps|] == p;
    assert forall i :: 0 <= i < |ps| ==> all[i] == ps[i];
  }

  /**
   * The requester never looks at a response's sequence number. Whatever good responses arrive,
   * in whatever order and number, the list is filled with their payloads in order of arrival
   * up to the first last or only one, and that one earns a Success completion for as many
   * bytes as arrived; payloads that do not fit end the READ without a successful completion.
   */
  lemma {:induction false} ReadTakesWhatArrives(t: Regions, h: Host, qpNumber: U32, psn: U24, wqe: SendWqe, ps: seq<Packet>)
    requires Writable(t, h, wqe) && forall i :: 0 <= i < |ps| ==> Good(ps[i])
    ensures Standing(h, qpNumber, wqe, ps, Receive(t, qpNumber, Requester(h, BeginRead(wqe, psn), []), ps))
    decreases |ps|
  {
    hide Writable, Good, Standing, OneResponse, Receive;
    if ps == [] {
      NothingArrived(t, h, qpNumber, psn, wqe);
    } else {
      var n := |ps| - 1;
      var s0 := Requester(h, BeginRead(wqe, psn), []);
      ReadTakesWhatArrives(t, h, qpNumber, psn, wqe, ps[..n]);
      ReceiveOneMore(t, qpNumber, s0, ps, n);
      assert ps[..n + 1] == ps && ps[..n] + [ps[n]] == ps;
      StandingStep(t, h, qpNumber, wqe, ps[..n], ps[n], Receive(t, qpNumber, s0, ps[..n]));
    }
  }

  lemma HeardInList(bytes: seq<Byte>, addrs: seq<nat>, c: seq<Byte>)
    requires Within(addrs, |bytes|) && Distinct(addrs) && |c| <= |addrs|
    ensures forall k :: 0 <= k < |addrs| ==> Scatter(bytes, addrs[..|c|], c)[addrs[k]] == if k < |c| then c[k] else bytes[addrs[k]]
  {
    hide Scatter;
    var front := addrs[..|c|];
    assert forall k :: 0 <= k < |c| ==> front[k] == addrs[k];
    ScatterReads(bytes, front, c);
  }

  /** The i-th response lost, the others in order. */
  function Without(stream: seq<Packet>, i: nat): seq<Packet>
    requires i < |stream|
  {
    stream[..i] + stream[i + 1..]
  }

  lemma {:induction false} HeardBeforeEnd(ps: seq<Packet>, qs: seq<Packet>)
    requires forall i :: 0 <= i < |ps| ==> !Ends(ps[i])
    ensures Heard(ps + qs) == Heard(ps) + Heard(qs)
    decreases |qs|
  {
    hide Ends, Over, Heard;
    if qs == [] {
      NothingHeard();
      assert ps + qs == ps;
    } else {
      var n := |qs| - 1;
      HeardBeforeEnd(ps, qs[..n]);
      assert (ps + qs[..n]) + [qs[n]] == ps + qs && qs[..n] + [qs[n]] == qs;
      HeardStep(ps + qs[..n], qs[n]);
      HeardStep(qs[..n], qs[n]);
      OverOfRest(ps, qs[..n]);
    }
  }

  lemma OverOfRest(ps: seq<Packet>, qs: seq<Packet>)
    requires forall i :: 0 <= i < |ps| ==> !Ends(ps[i])
    ensures Over(ps + qs) <==> Over(qs)
  {
    hide Ends;
    var all := ps + qs;
    assert forall i :: 0 <= i < |ps| ==> all[i] == ps[i];
    assert forall i :: 0 <= i < |qs| ==> all[|ps| + i] == qs[i];
    if Over(all) {
      var i :| 0 <= i < |all| && Ends(all[i]);
      assert Ends(qs[i - |ps|]);
    }
  }

  /** A READ's responses: all good, cut from the data slice by slice, only the last one ends it. */
  ghost predicate Answers(stream: seq<Packet>, data: seq<Byte>, mtu: nat) {
    && Covers(|stream|, |data|, mtu)
    && forall k :: 0 <= k < |stream| ==>
         Good(stream[k]) && (Ends(stream[k]) <==> k + 1 == |stream|) && stream[k].payload == Slice(data, mtu, k)
  }

  lemma ResponsesAnswer(responder: Qp, data: seq<Byte>)
    requires |data| + MtuBytes(responder.pathMtu) - 1 < TWO_32
    ensures Answers(HeadersOf(ResponseBuilders(responder, data)), data, MtuBytes(responder.pathMtu))
  {
    hide HeadersOf, ResponseBuilders, ResponseBuilder, Headers, MtuBytes, Slice, OpcodeIsFirst, OpcodeIsLast, OpcodeIsOnly, OpcodeIsReadResponse;
    var stream := HeadersOf(ResponseBuilders(responder, data));
    ResponseStream(responder, data);
    forall k | 0 <= k < |stream|
      ensures Good(stream[k]) && (Ends(stream[k]) <==> k + 1 == |stream|) && stream[k].payload == Slice(data, MtuBytes(responder.pathMtu), k)
    {
      ResponseShape(responder, data, |stream|, k);
    }
  }

  /** In order, the first i responses are heard in full. */
  lemma {:induction false} PrefixHeard(stream: seq<Packet>, data: seq<Byte>, mtu: nat, i: nat)
    requires Answers(stream, data, mtu) && i <= |stream|
    ensures Heard(stream[..i]) == data[..Min(i * mtu, |data|)]
    decreases i
  {
    hide Heard, Good, Ends;
    if i == 0 {
      NothingHeard();
      assert stream[..0] == [] && data[..Min(0 * mtu, |data|)] == [];
    } else {
      PrefixHeard(stream, data, mtu, i - 1);
      assert stream[..i - 1] + [stream[i - 1]] == stream[..i];
      HeardStep(stream[..i - 1], stream[i - 1]);
      assert !Over(stream[..i - 1]);
      SlicePrefix(data, mtu, |stream|, i - 1);
    }
  }

  lemma NothingHeard()
    ensures Heard([]) == []
  {
  }

  lemma SlicePrefix(data: seq<Byte>, mtu: nat, n: nat, i: nat)
    requires Covers(n, |data|, mtu) && i < n
    ensures data[..Min(i * mtu, |data|)] + Slice(data, mtu, i) == data[..Min((i + 1) * mtu, |data|)]
  {
    OffsetStep(n, |data|, mtu, i);
  }

  lemma PrefixAt(stream: seq<Packet>, data: seq<Byte>, mtu: nat, i: nat, at: nat)
    requires Answers(stream, data, mtu) && i <= |stream| && at == i * mtu <= |data|
    ensures Heard(stream[..i]) == data[..at]
  {
    hide Answers, Heard;
    PrefixHeard(stream, data, mtu, i);
  }

  lemma WholeHeard(stream: seq<Packet>, data: seq<Byte>, mtu: nat)
    requires Answers(stream, data, mtu)
    ensures Heard(stream) == data
  {
    assert |stream| * mtu >= |data|;
    hide Answers, Heard;
    PrefixHeard(stream, data, mtu, |stream|);
    assert stream[..|stream|] == stream && data[..|data|] == data;
  }

  /**
   * READ round trip. With valid keys on both sides and responses in order, for every length
   * and MTU including zero length, the requester's list ends up holding exactly the remote
   * bytes as they were when the request arrived, with one successful completion of the full
   * length; the request consumes one sequence number of the responder's receive side.
   */
  lemma ReadRoundTrip(local: Regions, h: Host, qpNumber: U32, destQp: U32, psn: U24, wqe: SendWqe, remote: Regions, hr: Host, qpr: Qp)
    requires Writable(local, h, wqe) && wqe.totalLength <= |Addresses(wqe.sgl)|
    requires ReadGranted(remote, hr, qpr, psn, wqe)
    requires wqe.totalLength + MtuBytes(qpr.pathMtu) - 1 < TWO_32
    ensures var r := ProcessReadRequest(hr, remote, qpr, Headers(RequestBuilder(destQp, psn, wqe)));
            var addrs := Addresses(wqe.sgl);
            var s := Receive(local, qpNumber, Requester(h, BeginRead(wqe, psn), []), HeadersOf(r.res.responses));
            && Within(addrs, |h.bytes|)
            && s.host == h.(bytes := Scatter(h.bytes, addrs[..wqe.totalLength], Wanted(hr, wqe)))
            && (Distinct(addrs) ==> forall k :: 0 <= k < wqe.totalLength ==> s.host.bytes[addrs[k]] == hr.bytes[wqe.remoteAddress + k])
            && s.cqes == [Cqe(wqe.wrId, Success, RdmaRead, qpNumber, wqe.totalLength, None, true)]
            && !s.st.inProgress
            && r.qp.rqPsn == AdvancePsn(psn, 1)
  {
    hide ProcessReadRequest, ResponseBuilders, Receive, Scatter, AdvancePsn, HeadersOf, Addresses, Writable, Answers, Good, Heard, Over, MtuBytes;
    var data := Wanted(hr, wqe);
    var qp' := qpr.(rqPsn := AdvancePsn(qpr.rqPsn, 1));
    RequestAnswered(remote, hr, qpr, psn, destQp, wqe);
    var stream := HeadersOf(ResponseBuilders(qp', data));
    ResponsesAnswer(qp', data);
    AnswersEnd(stream, data, MtuBytes(qp'.pathMtu));
    WholeHeard(stream, data, MtuBytes(qp'.pathMtu));
    ReadTakesWhatArrives(local, h, qpNumber, psn, wqe, stream);
    assert data[..|data|] == data;
    ScatterReads(h.bytes, Addresses(wqe.sgl)[..wqe.totalLength], data);
    assert forall k :: 0 <= k < |data| ==> Addresses(wqe.sgl)[..wqe.totalLength][k] == Addresses(wqe.sgl)[k];
  }

  lemma AnswersEnd(stream: seq<Packet>, data: seq<Byte>, mtu: nat)
    requires Answers(stream, data, mtu)
    ensures Over(stream) && forall i :: 0 <= i < |stream| ==> Good(stream[i])
  {
    hide Good, Ends;
    assert Ends(stream[|stream| - 1]);
  }

  /**
   * Losing any response but the last goes unnoticed: the READ still completes with Success,
   * for as many bytes fewer as that response carried, with the rest moved up in its place.
   */
  lemma LostResponseStillSucceeds(t: Regions, h: Host, qpNumber: U32, psn: U24, wqe: SendWqe, responder: Qp, data: seq<Byte>, i: nat)
    requires Writable(t, h, wqe) && |data| == wqe.totalLength <= |Addresses(wqe.sgl)|
    requires |data| + MtuBytes(responder.pathMtu) - 1 < TWO_32
    requires i + 1 < |HeadersOf(ResponseBuilders(responder, data))|
    ensures var stream, mtu := HeadersOf(ResponseBuilders(responder, data)), MtuBytes(responder.pathMtu);
            var s := Receive(t, qpNumber, Requester(h, BeginRead(wqe, psn), []), Without(stream, i));
            && (i + 1) * mtu < |data|
            && Filled(h, wqe, data[..i * mtu] + data[(i + 1) * mtu..], |data| - mtu, s.host, s.st)
            && s.cqes == [Cqe(wqe.wrId, Success, RdmaRead, qpNumber, |data| - mtu, None, true)]
  {
    hide HeadersOf, ResponseBuilders, Headers, MtuBytes, Writable, Receive, Addresses, Filled, Answers, Good, Ends, Heard, Over, Without;
    var stream := HeadersOf(ResponseBuilders(responder, data));
    ResponsesAnswer(responder, data);
    WithoutHeard(stream, data, MtuBytes(responder.pathMtu), i);
    ReadTakesWhatArrives(t, h, qpNumber, psn, wqe, Without(stream, i));
  }

  /** What is heard of a READ that lost response i. */
  lemma WithoutHeard(stream: seq<Packet>, data: seq<Byte>, mtu: nat, i: nat)
    requires Answers(stream, data, mtu) && i + 1 < |stream|
    ensures var ps := Without(stream, i);
            && (i + 1) * mtu < |data|
            && |data[..i * mtu] + data[(i + 1) * mtu..]| == |data| - mtu
            && Heard(ps) == data[..i * mtu] + data[(i + 1) * mtu..]
            && Over(ps) && forall k :: 0 <= k < |ps| ==> Good(ps[k])
  {
    SomethingAfter(|stream|, |data|, mtu, i);
    hide Answers, Covers, Heard, Over, Without, Good;
    PrefixAt(stream, data, mtu, i, i * mtu);
    PrefixAt(stream, data, mtu, i + 1, (i + 1) * mtu);
    WholeHeard(stream, data, mtu);
    LoseOne(stream, data, mtu, i * mtu, (i + 1) * mtu, i);
  }

  lemma LoseOne(stream: seq<Packet>, data: seq<Byte>, mtu: nat, a: nat, b: nat, i: nat)
    requires Answers(stream, data, mtu)
    requires i + 1 < |stream| && a <= b <= |data|
    requires Heard(stream) == data && Heard(stream[..i]) == data[..a] && Heard(stream[..i + 1]) == data[..b]
    ensures var ps := Without(stream, i);
            Heard(ps) == data[..a] + data[b..] && Over(ps) && forall k :: 0 <= k < |ps| ==> Good(ps[k])
  {
    hide Good, Ends, Heard, Slice, Covers;
    var ps := Without(stream, i);
    assert stream == stream[..i + 1] + stream[i + 1..];
    HeardBeforeEnd(stream[..i + 1], stream[i + 1..]);
    HeardBeforeEnd(stream[..i], stream[i + 1..]);
    assert Heard(stream[i + 1..]) == (data[..b] + Heard(stream[i + 1..]))[b..] == data[b..];
    assert ps[|ps| - 1] == stream[|stream| - 1];
  }

  lemma SomethingAfter(n: nat, length: nat, mtu: nat, i: nat)
    requires Covers(n, length, mtu) && i + 1 < n
    ensures (i + 1) * mtu < length && (i + 1) * mtu == i * mtu + mtu && n * mtu >= length
  {
    MulMonotone(i + 1, n - 1, mtu);
  }

  // ---------------------------------------------------------------------------
  // Answering a READ puts the responder's own SENDs out of step
  // ---------------------------------------------------------------------------

  /** How many response packets a run has put on the wire. */
  function ResponsesSent(s: System, events: seq<Event>): nat {
    if events == [] then 0 else
    var before, e := events[..|events| - 1], events[|events| - 1];
    var s' := Run(s, before);
    ResponsesSent(s, before) + if e.Arrive? then |Deliver(s'.regions, s'.r, e.packet).responses| else 0
  }

  lemma DeliveryUsesSendNumbers(t: Regions, s: Responder, p: Packet)
    ensures var d := Deliver(t, s, p);
            && d.next.qp.sqPsn == AdvancePsn(s.qp.sqPsn, |d.responses|)
            && d.next.qp.destQp == s.qp.destQp && d.next.qp.pathMtu == s.qp.pathMtu
  {
    hide AdvancePsn, WriteSgl, WriteRemote, ValidateRkey, ReadRemote, ResponseBuilders;
    AdvanceNone(s.qp.sqPsn);
  }

  /** Whatever arrives, the send counter advances by exactly the responses sent. */
  lemma {:induction false} RunUsesSendNumbers(s: System, events: seq<Event>)
    ensures var qp := Run(s, events).r.qp;
            && qp.sqPsn == AdvancePsn(s.r.qp.sqPsn, ResponsesSent(s, events))
            && qp.destQp == s.r.qp.destQp && qp.pathMtu == s.r.qp.pathMtu
    decreases |events|
  {
    hide Deliver, AdvancePsn;
    AdvanceNone(s.r.qp.sqPsn);
    if events != [] {
      var before, e := events[..|events| - 1], events[|events| - 1];
      RunUsesSendNumbers(s, before);
      if e.Arrive? {
        var s' := Run(s, before);
        DeliveryUsesSendNumbers(s'.regions, s'.r, e.packet);
        AdvanceTwice(s.r.qp.sqPsn, ResponsesSent(s, before), |Deliver(s'.regions, s'.r, e.packet).responses|);
      }
    }
  }

  /** A packet inside a message, for a receiver with no message under way, is refused without a trace. */
  lemma InnerPacketRefused(t: Regions, s: Responder, sender: Qp, wqe: SendWqe, msg: seq<Byte>, n: nat, i: nat)
    requires !s.recv.inProgress && 0 < i < n
    ensures Deliver(t, s, Headers(SendBuilder(sender, wqe, msg, n, i))).next == s
  {
    hide AcceptSend, AdvancePsn, Slice;
  }

  /** A message that starts out of step is ignored packet by packet, wherever its numbers wrap to. */
  lemma {:induction false} OutOfStepIgnored(t: Regions, peer: Responder, sender: Qp, wqe: SendWqe, msg: seq<Byte>, i: nat)
    requires peer.qp.rqPsn != sender.sqPsn && !peer.recv.inProgress && IsSend(wqe, msg)
    requires i <= |SendStream(sender, wqe, msg)|
    ensures Transmit(t, peer, SendStream(sender, wqe, msg)[..i]) == peer
    decreases i
  {
    hide Deliver, AdvancePsn, SendBuilder, Headers;
    var stream := SendStream(sender, wqe, msg);
    if i > 0 {
      OutOfStepIgnored(t, peer, sender, wqe, msg, i - 1);
      assert stream[..i][..i - 1] == stream[..i - 1];
      var n := |stream|;
      assert stream[i - 1] == Headers(SendBuilder(sender, wqe, msg, n, i - 1));
      if i == 1 {
        FirstPacketPsn(sender, wqe, msg, n);
        WrongPsnIgnored(t, peer, stream[0]);
      } else {
        InnerPacketRefused(t, peer, sender, wqe, msg, n, i - 1);
      }
    }
  }

  lemma FirstPacketPsn(sender: Qp, wqe: SendWqe, msg: seq<Byte>, n: nat)
    ensures Headers(SendBuilder(sender, wqe, msg, n, 0)).bth.psn == sender.sqPsn
  {
    hide AdvancePsn, Slice;
    AdvanceNone(sender.sqPsn);
  }

  lemma BackInStep(psn: U24, k: nat)
    ensures AdvancePsn(psn, k) == psn <==> k % TWO_24 == 0
  {
    Bits.ModAdd(k, psn, TWO_24);
  }

  /**
   * Responses are numbered from the responder's send counter, but the requester does not
   * count them. Two sides in step before any run of arrivals: a SEND the responder then posts
   * completes exactly when the run sent a multiple of 2^24 responses and the message fits;
   * after any other number of responses the peer ignores every one of its packets.
   */
  lemma SendAfterReadsIff(t: Regions, peer: Responder, s: System, events: seq<Event>, wqe: SendWqe, msg: seq<Byte>)
    requires Ready(peer, s.r.qp) && !peer.recv.inProgress && IsSend(wqe, msg)
    requires |msg| + MtuBytes(s.r.qp.pathMtu) - 1 < TWO_32
    ensures var sender, k := Run(s, events).r.qp, ResponsesSent(s, events);
            var end := Transmit(t, peer, SendStream(sender, wqe, msg));
            && (Completed(peer, sender, wqe, msg, end) <==> k % TWO_24 == 0 && |msg| <= |Buffer(peer)|)
            && (k % TWO_24 != 0 ==> end == peer)
  {
    hide Run, ResponsesSent, Transmit, SendStream, Buffer, AdvancePsn;
    RunUsesSendNumbers(s, events);
    var sender, k := Run(s, events).r.qp, ResponsesSent(s, events);
    BackInStep(s.r.qp.sqPsn, k);
    if k % TWO_24 == 0 {
      SendCompletesIffItFits(t, peer, sender, wqe, msg);
    } else {
      var stream := SendStream(sender, wqe, msg);
      OutOfStepIgnored(t, peer, sender, wqe, msg, |stream|);
      assert stream[..|stream|] == stream;
    }
  }

  /** One READ is enough: a request answered with fewer than 2^24 responses always breaks the agreement. */
  lemma OneReadBreaksStep(t: Regions, peer: Responder, s: System, psn: U24, destQp: U32, read: SendWqe, wqe: SendWqe, msg: seq<Byte>)
    requires Ready(peer, s.r.qp) && !peer.recv.inProgress && IsSend(wqe, msg)
    requires ReadGranted(s.regions, s.r.host, s.r.qp, psn, read)
    requires |msg| + MtuBytes(s.r.qp.pathMtu) - 1 < TWO_32 && read.totalLength + MtuBytes(s.r.qp.pathMtu) - 1 < TWO_32
    ensures var sender := Run(s, [Arrive(Headers(RequestBuilder(destQp, psn, read)))]).r.qp;
            Transmit(t, peer, SendStream(sender, wqe, msg)) == peer
  {
    hide Transmit, SendStream, Buffer, AdvancePsn, ResponseBuilders, ProcessReadRequest;
    var p := Headers(RequestBuilder(destQp, psn, read));
    var events := [Arrive(p)];
    assert events[..0] == [];
    assert Run(s, []) == s;
    RequestAnswered(s.regions, s.r.host, s.r.qp, psn, destQp, read);
    var after := s.r.qp.(rqPsn := AdvancePsn(s.r.qp.rqPsn, 1));
    ResponseCount(after, Wanted(s.r.host, read));
    assert ResponsesSent(s, events) == |ResponseBuilders(after, Wanted(s.r.host, read))|;
    SendAfterReadsIff(t, peer, s, events, wqe, msg);
  }

  lemma ResponseCount(qp: Qp, data: seq<Byte>)
    requires |data| + MtuBytes(qp.pathMtu) - 1 < TWO_32
    ensures 1 <= |ResponseBuilders(qp, data)| < TWO_24
  {
    hide ResponseBuilder;
    PacketCountExact(|data|, MtuBytes(qp.pathMtu));
    MessageIsShort(|ResponseBuilders(qp, data)|, |data|, MtuBytes(qp.pathMtu));
  }
}
