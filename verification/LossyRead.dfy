/** A READ over the lossy channel: which arrivals of its responses make it right, whatever the remote bytes are. */
module LossyRead {
  import opened Common
  import opened RoceTypes
  import opened HostMemory
  import opened MemoryRegions
  import opened Sgl
  import opened RocePacket
  import opened RoceQueuePair
  import opened RdmaRead
  import opened SendEndToEnd
  import opened ReadEndToEnd

  /** The responses with the given numbers, in order of arrival. */
  function Pick(stream: seq<Packet>, idx: seq<nat>): (ps: seq<Packet>)
    requires forall i :: 0 <= i < |idx| ==> idx[i] < |stream|
    ensures |ps| == |idx| && forall i :: 0 <= i < |idx| ==> ps[i] == stream[idx[i]]
  {
    seq(|idx|, i requires 0 <= i < |idx| => stream[idx[i]])
  }

  /** The arrivals up to and including the first copy of the last of n responses. */
  function UpToLast(idx: seq<nat>, n: nat): (r: seq<nat>)
    ensures r <= idx
  {
    if idx == [] || n - 1 !in idx[..|idx| - 1] then idx else UpToLast(idx[..|idx| - 1], n)
  }

  /** 0, 1, ..., n - 1. */
  function InOrder(n: nat): (r: seq<nat>)
    ensures |r| == n && forall i :: 0 <= i < n ==> r[i] == i
  {
    seq(n, i requires 0 <= i < n => i)
  }

  lemma {:induction false} UpToLastShape(idx: seq<nat>, n: nat)
    ensures var r := UpToLast(idx, n);
            && (n - 1 in idx ==> r != [] && r[|r| - 1] == n - 1)
            && (forall i :: 0 <= i < |r| - 1 ==> r[i] != n - 1)
    decreases |idx|
  {
    if idx != [] {
      UpToLastShape(idx[..|idx| - 1], n);
      assert forall i :: 0 <= i < |idx| - 1 ==> idx[i] == idx[..|idx| - 1][i];
    }
  }

  /** What comes after a last response is not heard. */
  lemma {:induction false} UpToLastHeard(stream: seq<Packet>, data: seq<Byte>, mtu: nat, idx: seq<nat>)
    requires Answers(stream, data, mtu) && forall i :: 0 <= i < |idx| ==> idx[i] < |stream|
    ensures Heard(Pick(stream, idx)) == Heard(Pick(stream, UpToLast(idx, |stream|)))
    ensures Over(Pick(stream, idx)) <==> |stream| - 1 in idx
    decreases |idx|
  {
    hide Heard, Good, Ends, Slice, Covers;
    var ps := Pick(stream, idx);
    assert forall i :: 0 <= i < |idx| ==> (Ends(ps[i]) <==> idx[i] == |stream| - 1);
    if idx != [] && |stream| - 1 in idx[..|idx| - 1] {
      var m := |idx| - 1;
      UpToLastHeard(stream, data, mtu, idx[..m]);
      assert Pick(stream, idx[..m]) + [ps[m]] == ps;
      HeardStep(Pick(stream, idx[..m]), ps[m]);
      assert Heard(Pick(stream, idx[..m])) + [] == Heard(Pick(stream, idx[..m]));
    }
  }

  lemma SliceStart(data: seq<Byte>, mtu: nat, n: nat, i: nat, at: nat)
    requires Covers(n, |data|, mtu) && i < n && |data| > 0 && at == i * mtu
    ensures at < |data| && |Slice(data, mtu, i)| > 0 && Slice(data, mtu, i)[0] == data[at]
  {
    MulMonotone(i, n - 1, mtu);
    OffsetStep(n, |data|, mtu, i);
  }

  lemma {:induction false} HeardGrows(ps: seq<Packet>, qs: seq<Packet>)
    ensures Heard(ps) <= Heard(ps + qs)
    decreases |qs|
  {
    hide Ends, Over, Heard;
    if qs == [] {
      assert ps + qs == ps;
    } else {
      var n := |qs| - 1;
      HeardGrows(ps, qs[..n]);
      assert (ps + qs[..n]) + [qs[n]] == ps + qs;
      HeardStep(ps + qs[..n], qs[n]);
    }
  }

  /** Arrivals 0, ..., i - 1 and then another: what is heard goes on with the slice of that one. */
  lemma DeviationHeard(stream: seq<Packet>, data: seq<Byte>, mtu: nat, r: seq<nat>, i: nat, at: nat, from: nat)
    requires Answers(stream, data, mtu) && |data| > 0 && i < |r| && i < |stream|
    requires forall m :: 0 <= m < |r| ==> r[m] < |stream|
    requires (forall m :: 0 <= m < i ==> r[m] == m) && (forall m :: 0 <= m < |r| - 1 ==> r[m] != |stream| - 1)
    requires at == i * mtu && from == r[i] * mtu
    ensures at < |data| && from < |data|
    ensures var c := Heard(Pick(stream, r)); at < |c| && c[at] == data[from]
  {
    hide Answers, Heard, Over, Slice;
    var ps := Pick(stream, r);
    SliceOf(stream, data, mtu, i, at);
    SliceOf(stream, data, mtu, r[i], from);
    NotYetOver(stream, data, mtu, r, i);
    assert ps[..i] == stream[..i];
    PrefixAt(stream, data, mtu, i, at);
    HeardNext(ps, i);
  }

  /** The payload that follows on what has been heard of the first i responses. */
  lemma HeardNext(ps: seq<Packet>, i: nat)
    requires i < |ps| && !Over(ps[..i]) && |ps[i].payload| > 0
    ensures var c, at := Heard(ps), |Heard(ps[..i])|; at < |c| && c[at] == ps[i].payload[0]
  {
    hide Heard, Over;
    assert ps[..i] + [ps[i]] == ps[..i + 1];
    HeardStep(ps[..i], ps[i]);
    assert ps[..i + 1] + ps[i + 1..] == ps;
    HeardGrows(ps[..i + 1], ps[i + 1..]);
  }

  lemma SliceOf(stream: seq<Packet>, data: seq<Byte>, mtu: nat, k: nat, at: nat)
    requires Answers(stream, data, mtu) && k < |stream| && |data| > 0 && at == k * mtu
    ensures at < |data| && |stream[k].payload| > 0 && stream[k].payload[0] == data[at]
  {
    SlicePayload(stream, data, mtu, k);
    SliceStart(data, mtu, |stream|, k, at);
  }

  lemma SlicePayload(stream: seq<Packet>, data: seq<Byte>, mtu: nat, k: nat)
    requires Answers(stream, data, mtu) && k < |stream|
    ensures stream[k].payload == Slice(data, mtu, k)
  {
    hide Slice, Covers, Good, Ends;
  }

  lemma NotYetOver(stream: seq<Packet>, data: seq<Byte>, mtu: nat, r: seq<nat>, i: nat)
    requires Answers(stream, data, mtu) && i < |r| && forall m :: 0 <= m < |r| ==> r[m] < |stream|
    requires forall m :: 0 <= m < |r| - 1 ==> r[m] != |stream| - 1
    ensures !Over(Pick(stream, r)[..i])
  {
    hide Ends, Good, Slice, Covers;
    var ps := Pick(stream, r);
    assert forall k :: 0 <= k < i ==> ps[..i][k] == stream[r[k]];
  }

  /** Data that tells slice i from every other slice: ones there, zeros elsewhere. */
  function Marked(length: nat, mtu: nat, i: nat): (data: seq<Byte>)
    ensures |data| == length
  {
    seq(length, k requires 0 <= k < length => if i * mtu <= k < (i + 1) * mtu then 1 else 0)
  }

  lemma MarkedStart(length: nat, mtu: nat, i: nat, d: nat, at: nat, from: nat)
    requires mtu > 0 && i != d && at == i * mtu < length && from == d * mtu < length
    ensures Marked(length, mtu, i)[at] == 1 && Marked(length, mtu, i)[from] == 0
  {
    assert (i + 1) * mtu == i * mtu + mtu;
    if d < i {
      MulMonotone(d + 1, i, mtu);
      assert (d + 1) * mtu == d * mtu + mtu;
    } else {
      MulMonotone(i + 1, d, mtu);
    }
  }

  /** Arrivals that end with the first copy of the last response are all of them in order, or leave the order somewhere. */
  lemma FirstDeviation(r: seq<nat>, n: nat) returns (i: nat)
    requires n > 0 && r != [] && r[|r| - 1] == n - 1
    requires forall m :: 0 <= m < |r| - 1 ==> r[m] != n - 1
    ensures r == InOrder(n) || (i < |r| && i < n && r[i] != i && forall m :: 0 <= m < i ==> r[m] == m)
  {
    i := 0;
    while i < |r| && i < n && r[i] == i
      invariant i <= |r| && i <= n && forall m :: 0 <= m < i ==> r[m] == m
    {
      i := i + 1;
    }
    if i == |r| || i == n {
      assert r[i - 1] == i - 1;
      assert |r| == n;
    }
  }

  /** The requester after the arrivals idx out of the responses of a READ of data. */
  function Arrived(t: Regions, h: Host, qpNumber: U32, psn: U24, wqe: SendWqe, responder: Qp, data: seq<Byte>, idx: seq<nat>): Requester
    requires |data| < TWO_32 && forall i :: 0 <= i < |idx| ==> idx[i] < PacketCount(|data|, MtuBytes(responder.pathMtu))
  {
    Receive(t, qpNumber, Requester(h, BeginRead(wqe, psn), []), Pick(HeadersOf(ResponseBuilders(responder, data)), idx))
  }

  /** The READ is reported as a Success of full length, and the list holds the data. */
  ghost predicate ReadRight(qpNumber: U32, wqe: SendWqe, data: seq<Byte>, s: Requester) {
    var addrs := Addresses(wqe.sgl);
    && s.cqes == [Cqe(wqe.wrId, Success, RdmaRead, qpNumber, wqe.totalLength, None, true)]
    && |data| <= |addrs| && Within(addrs, |s.host.bytes|)
    && forall k :: 0 <= k < |data| ==> s.host.bytes[addrs[k]] == data[k]
  }

  /** What was heard decides whether the READ is right. */
  lemma RightIffHeard(t: Regions, h: Host, qpNumber: U32, psn: U24, wqe: SendWqe, data: seq<Byte>, ps: seq<Packet>)
    requires Writable(t, h, wqe) && |data| == wqe.totalLength <= |Addresses(wqe.sgl)| && Distinct(Addresses(wqe.sgl))
    requires forall i :: 0 <= i < |ps| ==> Good(ps[i])
    ensures var s, c := Receive(t, qpNumber, Requester(h, BeginRead(wqe, psn), []), ps), Heard(ps);
            && (Over(ps) && c == data ==> ReadRight(qpNumber, wqe, data, s))
            && (ReadRight(qpNumber, wqe, data, s) ==> Over(ps) && forall k :: 0 <= k < |c| && k < |data| ==> c[k] == data[k])
  {
    hide Receive, Addresses, Writable, Scatter, Over, Heard, Good, Distinct;
    ReadTakesWhatArrives(t, h, qpNumber, psn, wqe, ps);
    var addrs, c := Addresses(wqe.sgl), Heard(ps);
    assert c[..|c|] == c;
    if |c| <= |addrs| {
      HeardInList(h.bytes, addrs, c);
    }
  }

  lemma PickIsGood(stream: seq<Packet>, data: seq<Byte>, mtu: nat, idx: seq<nat>)
    requires Answers(stream, data, mtu) && forall i :: 0 <= i < |idx| ==> idx[i] < |stream|
    ensures forall i :: 0 <= i < |idx| ==> Good(Pick(stream, idx)[i])
  {
    hide Good, Ends, Slice, Covers;
  }

  lemma ResponseCount(responder: Qp, data: seq<Byte>)
    requires |data| < TWO_32
    ensures |HeadersOf(ResponseBuilders(responder, data))| == PacketCount(|data|, MtuBytes(responder.pathMtu))
  {
    hide ResponseBuilder, Headers, PacketCount;
  }

  /** Everything the arrivals decide, in one place. */
  lemma ArrivedFacts(t: Regions, h: Host, qpNumber: U32, psn: U24, wqe: SendWqe, responder: Qp, data: seq<Byte>, idx: seq<nat>)
    requires Writable(t, h, wqe) && |data| == wqe.totalLength <= |Addresses(wqe.sgl)| && Distinct(Addresses(wqe.sgl))
    requires |data| + MtuBytes(responder.pathMtu) - 1 < TWO_32
    requires forall i :: 0 <= i < |idx| ==> idx[i] < PacketCount(|data|, MtuBytes(responder.pathMtu))
    ensures var stream := HeadersOf(ResponseBuilders(responder, data)); var n := PacketCount(|data|, MtuBytes(responder.pathMtu));
            && n == |stream| >= 1 && Answers(stream, data, MtuBytes(responder.pathMtu))
            && var c := Heard(Pick(stream, UpToLast(idx, n))); var s := Arrived(t, h, qpNumber, psn, wqe, responder, data, idx);
               && (n - 1 in idx && c == data ==> ReadRight(qpNumber, wqe, data, s))
               && (ReadRight(qpNumber, wqe, data, s) ==> n - 1 in idx && forall k :: 0 <= k < |c| && k < |data| ==> c[k] == data[k])
  {
    var stream, mtu := HeadersOf(ResponseBuilders(responder, data)), MtuBytes(responder.pathMtu);
    ResponsesAnswer(responder, data);
    ResponseStream(responder, data);
    ResponseCount(responder, data);
    hide HeadersOf, ResponseBuilders, MtuBytes, PacketCount, Answers, Writable, Addresses, Distinct, Heard, Over, Good, ReadRight, UpToLast, Receive, Covers;
    UpToLastHeard(stream, data, mtu, idx);
    PickIsGood(stream, data, mtu, idx);
    RightIffHeard(t, h, qpNumber, psn, wqe, data, Pick(stream, idx));
  }

  lemma InOrderRight(t: Regions, h: Host, qpNumber: U32, psn: U24, wqe: SendWqe, responder: Qp, data: seq<Byte>, idx: seq<nat>)
    requires Writable(t, h, wqe) && |data| == wqe.totalLength <= |Addresses(wqe.sgl)| && Distinct(Addresses(wqe.sgl))
    requires |data| + MtuBytes(responder.pathMtu) - 1 < TWO_32
    requires var n := PacketCount(|data|, MtuBytes(responder.pathMtu));
             (forall i :: 0 <= i < |idx| ==> idx[i] < n) && UpToLast(idx, n) == InOrder(n)
    ensures ReadRight(qpNumber, wqe, data, Arrived(t, h, qpNumber, psn, wqe, responder, data, idx))
  {
    hide HeadersOf, ResponseBuilders, MtuBytes, PacketCount, Answers, Writable, Addresses, Distinct, Heard, ReadRight, UpToLast, Arrived;
    var stream := HeadersOf(ResponseBuilders(responder, data));
    ArrivedFacts(t, h, qpNumber, psn, wqe, responder, data, idx);
    assert Pick(stream, InOrder(|stream|)) == stream;
    WholeHeard(stream, data, MtuBytes(responder.pathMtu));
    assert InOrder(|stream|)[|stream| - 1] == |stream| - 1 && InOrder(|stream|)[|stream| - 1] in idx;
  }

  /** Arrivals that leave the order at i: the READ goes wrong for data that marks slice i. */
  lemma DeviationWrong(t: Regions, h: Host, qpNumber: U32, psn: U24, wqe: SendWqe, responder: Qp, idx: seq<nat>, i: nat)
    requires Writable(t, h, wqe) && 0 < wqe.totalLength <= |Addresses(wqe.sgl)| && Distinct(Addresses(wqe.sgl))
    requires wqe.totalLength + MtuBytes(responder.pathMtu) - 1 < TWO_32
    requires var n := PacketCount(wqe.totalLength, MtuBytes(responder.pathMtu)); var r := UpToLast(idx, n);
             && (forall m :: 0 <= m < |idx| ==> idx[m] < n)
             && (forall m :: 0 <= m < |r| - 1 ==> r[m] != n - 1)
             && i < |r| && i < n && r[i] != i && (forall m :: 0 <= m < i ==> r[m] == m)
    ensures var data := Marked(wqe.totalLength, MtuBytes(responder.pathMtu), i);
            !ReadRight(qpNumber, wqe, data, Arrived(t, h, qpNumber, psn, wqe, responder, data, idx))
  {
    assert MtuBytes(responder.pathMtu) > 0;
    hide HeadersOf, ResponseBuilders, PacketCount, Answers, Writable, Addresses, Distinct, Heard, ReadRight, UpToLast, Arrived, Marked, MtuBytes;
    var length, mtu := wqe.totalLength, MtuBytes(responder.pathMtu);
    var data := Marked(length, mtu, i);
    var stream := HeadersOf(ResponseBuilders(responder, data));
    ArrivedFacts(t, h, qpNumber, psn, wqe, responder, data, idx);
    var at := HeardDiffers(stream, length, mtu, UpToLast(idx, |stream|), i);
  }

  /** Arrivals that leave the order at i, heard against data that marks slice i. */
  lemma HeardDiffers(stream: seq<Packet>, length: nat, mtu: nat, r: seq<nat>, i: nat) returns (at: nat)
    requires mtu > 0 && length > 0 && Answers(stream, Marked(length, mtu, i), mtu) && i < |r| && i < |stream| && r[i] != i
    requires forall m :: 0 <= m < |r| ==> r[m] < |stream|
    requires (forall m :: 0 <= m < i ==> r[m] == m) && (forall m :: 0 <= m < |r| - 1 ==> r[m] != |stream| - 1)
    ensures var c := Heard(Pick(stream, r)); at < |c| && at < length && c[at] != Marked(length, mtu, i)[at]
  {
    hide Answers, Heard, Marked, Pick;
    at := i * mtu;
    DeviationHeard(stream, Marked(length, mtu, i), mtu, r, i, at, r[i] * mtu);
    MarkedStart(length, mtu, i, r[i], at, r[i] * mtu);
  }

  /** Arrivals out of order: data exists for which the READ goes wrong. */
  lemma DisorderWrong(t: Regions, h: Host, qpNumber: U32, psn: U24, wqe: SendWqe, responder: Qp, idx: seq<nat>) returns (data: seq<Byte>)
    requires Writable(t, h, wqe) && wqe.totalLength <= |Addresses(wqe.sgl)| && Distinct(Addresses(wqe.sgl))
    requires wqe.totalLength + MtuBytes(responder.pathMtu) - 1 < TWO_32
    requires var n := PacketCount(wqe.totalLength, MtuBytes(responder.pathMtu));
             (forall i :: 0 <= i < |idx| ==> idx[i] < n) && UpToLast(idx, n) != InOrder(n)
    ensures |data| == wqe.totalLength && !ReadRight(qpNumber, wqe, data, Arrived(t, h, qpNumber, psn, wqe, responder, data, idx))
  {
    var length, mtu := wqe.totalLength, MtuBytes(responder.pathMtu);
    var n := PacketCount(length, mtu);
    SomeResponse(length, mtu);
    hide MtuBytes, PacketCount, Writable, Addresses, Distinct, ReadRight, Arrived, Marked;
    if n - 1 in idx {
      UpToLastShape(idx, n);
      var r := UpToLast(idx, n);
      hide UpToLast, InOrder;
      var i := FirstDeviation(r, n);
      assert r[i] < n;
      data := Marked(length, mtu, i);
      DeviationWrong(t, h, qpNumber, psn, wqe, responder, idx, i);
    } else {
      hide UpToLast, InOrder;
      data := Marked(length, mtu, 0);
      NoLastWrong(t, h, qpNumber, psn, wqe, responder, data, idx);
    }
  }

  lemma SomeResponse(length: U32, mtu: nat)
    requires 256 <= mtu <= 4096 && length + mtu - 1 < TWO_32
    ensures PacketCount(length, mtu) >= 1 && (length == 0 ==> PacketCount(length, mtu) == 1)
  {
    PacketCountExact(length, mtu);
  }

  /** Without a last response there is no completion at all. */
  lemma NoLastWrong(t: Regions, h: Host, qpNumber: U32, psn: U24, wqe: SendWqe, responder: Qp, data: seq<Byte>, idx: seq<nat>)
    requires Writable(t, h, wqe) && |data| == wqe.totalLength <= |Addresses(wqe.sgl)| && Distinct(Addresses(wqe.sgl))
    requires |data| + MtuBytes(responder.pathMtu) - 1 < TWO_32
    requires var n := PacketCount(|data|, MtuBytes(responder.pathMtu));
             (forall i :: 0 <= i < |idx| ==> idx[i] < n) && n - 1 !in idx
    ensures !ReadRight(qpNumber, wqe, data, Arrived(t, h, qpNumber, psn, wqe, responder, data, idx))
  {
    hide HeadersOf, ResponseBuilders, MtuBytes, PacketCount, Answers, Writable, Addresses, Distinct, Heard, ReadRight, UpToLast, Arrived;
    ArrivedFacts(t, h, qpNumber, psn, wqe, responder, data, idx);
  }

  /**
   * When a READ over a lossy channel is right. With one distinct list, it is reported as a
   * Success of full length and holds the remote bytes, whatever those are, exactly when the
   * responses up to the first copy of the last one arrived all of them, in order, and once each.
   */
  lemma LossyReadIff(t: Regions, h: Host, qpNumber: U32, psn: U24, wqe: SendWqe, responder: Qp, idx: seq<nat>)
    requires Writable(t, h, wqe) && wqe.totalLength <= |Addresses(wqe.sgl)| && Distinct(Addresses(wqe.sgl))
    requires wqe.totalLength + MtuBytes(responder.pathMtu) - 1 < TWO_32
    requires forall i :: 0 <= i < |idx| ==> idx[i] < PacketCount(wqe.totalLength, MtuBytes(responder.pathMtu))
    ensures (forall data: seq<Byte> :: |data| == wqe.totalLength ==>
               ReadRight(qpNumber, wqe, data, Arrived(t, h, qpNumber, psn, wqe, responder, data, idx)))
            <==> var n := PacketCount(wqe.totalLength, MtuBytes(responder.pathMtu)); UpToLast(idx, n) == InOrder(n)
  {
    hide Writable, Addresses, Distinct, ReadRight, Arrived, UpToLast, MtuBytes, PacketCount;
    var n := PacketCount(wqe.totalLength, MtuBytes(responder.pathMtu));
    if UpToLast(idx, n) == InOrder(n) {
      forall data: seq<Byte> | |data| == wqe.totalLength
        ensures ReadRight(qpNumber, wqe, data, Arrived(t, h, qpNumber, psn, wqe, responder, data, idx))
      {
        InOrderRight(t, h, qpNumber, psn, wqe, responder, data, idx);
      }
    } else {
      var data := DisorderWrong(t, h, qpNumber, psn, wqe, responder, idx);
    }
  }

  /**
   * A Success of full length over wrong bytes: the first response arrives twice and the second
   * is lost. The list then holds the first slice twice, and is right exactly when the two
   * slices are the same.
   */
  lemma RepeatHidesLoss(t: Regions, h: Host, qpNumber: U32, psn: U24, wqe: SendWqe, responder: Qp, data: seq<Byte>)
    requires Writable(t, h, wqe) && |data| == wqe.totalLength <= |Addresses(wqe.sgl)|
    requires |data| + MtuBytes(responder.pathMtu) - 1 < TWO_32
    requires 3 <= |HeadersOf(ResponseBuilders(responder, data))|
    ensures var stream, mtu := HeadersOf(ResponseBuilders(responder, data)), MtuBytes(responder.pathMtu);
            var s := Receive(t, qpNumber, Requester(h, BeginRead(wqe, psn), []), FirstTwice(stream));
            && 2 * mtu < |data|
            && s.cqes == [Cqe(wqe.wrId, Success, RdmaRead, qpNumber, wqe.totalLength, None, true)]
            && Filled(h, wqe, SliceTwice(data, mtu), |data|, s.host, s.st)
            && (SliceTwice(data, mtu) == data <==> data[..mtu] == data[mtu..2 * mtu])
  {
    hide HeadersOf, ResponseBuilders, MtuBytes, Writable, Addresses, Receive, Filled, Answers, Heard, Over, Good, FirstTwice, SliceTwice;
    var stream, mtu := HeadersOf(ResponseBuilders(responder, data)), MtuBytes(responder.pathMtu);
    ResponsesAnswer(responder, data);
    RepeatHeard(stream, data, mtu);
    SameSlices(data, mtu);
    ReadTakesWhatArrives(t, h, qpNumber, psn, wqe, FirstTwice(stream));
  }

  /** The first response twice, the second not at all. */
  function FirstTwice(stream: seq<Packet>): seq<Packet>
    requires |stream| >= 2
  {
    [stream[0], stream[0]] + stream[2..]
  }

  /** The first slice in place of the second. */
  function SliceTwice(data: seq<Byte>, mtu: nat): seq<Byte>
    requires 2 * mtu <= |data|
  {
    data[..mtu] + data[..mtu] + data[2 * mtu..]
  }

  lemma SameSlices(data: seq<Byte>, mtu: nat)
    requires 2 * mtu < |data|
    ensures var c := SliceTwice(data, mtu); |c| == |data| && (c == data <==> data[..mtu] == data[mtu..2 * mtu])
  {
    var c := SliceTwice(data, mtu);
    assert c[mtu..2 * mtu] == data[..mtu];
    assert data == data[..mtu] + data[mtu..2 * mtu] + data[2 * mtu..];
  }

  lemma RepeatHeard(stream: seq<Packet>, data: seq<Byte>, mtu: nat)
    requires Answers(stream, data, mtu) && |stream| >= 3
    ensures var ps := FirstTwice(stream);
            && 2 * mtu < |data| && Heard(ps) == SliceTwice(data, mtu)
            && Over(ps) && forall k :: 0 <= k < |ps| ==> Good(ps[k])
  {
    SomethingAfter(|stream|, |data|, mtu, 1);
    FirstTwiceShape(stream, data, mtu);
    hide Answers, Heard, Over, Good, Ends;
    var p, rest := stream[0], stream[2..];
    TailHeard(stream, data, mtu, 2, 2 * mtu);
    PrefixAt(stream, data, mtu, 1, mtu);
    assert stream[..1] == [p] && [p, p] == [p] + [p] && [] + [p] == [p];
    HeardStep([p], p);
    NothingHeard();
    HeardStep([], p);
    HeardBeforeEnd([p, p], rest);
  }

  lemma FirstTwiceShape(stream: seq<Packet>, data: seq<Byte>, mtu: nat)
    requires Answers(stream, data, mtu) && |stream| >= 3
    ensures var ps := FirstTwice(stream);
            !Ends(stream[0]) && !Over([]) && !Over([stream[0]]) && Over(ps) && forall k :: 0 <= k < |ps| ==> Good(ps[k])
  {
    hide Good, Ends, Slice, Covers;
    var ps := FirstTwice(stream);
    assert ps[|ps| - 1] == stream[|stream| - 1];
    assert forall k :: 2 <= k < |ps| ==> ps[k] == stream[k];
  }

  /** What is heard of the responses from the i-th on. */
  lemma TailHeard(stream: seq<Packet>, data: seq<Byte>, mtu: nat, i: nat, at: nat)
    requires Answers(stream, data, mtu) && i < |stream| && at == i * mtu <= |data|
    ensures Heard(stream[i..]) == data[at..]
  {
    hide Heard, Good, Ends, Slice, Covers;
    PrefixAt(stream, data, mtu, i, at);
    WholeHeard(stream, data, mtu);
    assert stream == stream[..i] + stream[i..];
    HeardBeforeEnd(stream[..i], stream[i..]);
    assert Heard(stream[i..]) == (data[..at] + Heard(stream[i..]))[at..];
  }
}
