/** The Ethernet loopback path: transmit descriptors in, receive buffers and completions out. */
module DataPath {
  import opened Common
  import opened HostMemory
  import opened Segmentation
  import Checksum

  datatype RxDescriptor = RxDescriptor(bufferAddress: U64, bufferLength: U32, checksum: ChecksumMode, descriptorIndex: U16,
                                       checksumOffload: bool, vlanStrip: bool, vlanPresent: bool, vlanTag: U16, groEnabled: bool)

  datatype Entry = Entry(queueId: U16, descriptorIndex: U16, status: CompletionCode, checksumOffloaded: bool,
                         checksumVerified: bool, tsoPerformed: bool, gsoPerformed: bool, vlanInserted: bool,
                         vlanStripped: bool, groAggregated: bool, segmentsProduced: U16, vlanTag: U16)

  function MakeCompletion(queueId: U16, index: U16, status: CompletionCode): Entry {
    Entry(queueId, index, status, false, false, false, false, false, false, false, 1, 0)
  }

  function MakeTxCompletion(queueId: U16, tx: TxDescriptor, status: CompletionCode, segments: nat, tso: bool, gso: bool): (r: Entry)
    ensures r.descriptorIndex == tx.descriptorIndex && r.status == status && r.tsoPerformed == tso && r.gsoPerformed == gso
  {
    var e := MakeCompletion(queueId, tx.descriptorIndex, status)
             .(checksumOffloaded := tx.checksumOffload, tsoPerformed := tso, gsoPerformed := gso,
               segmentsProduced := Min(segments, 0xFFFF));
    if tx.vlanInsert then e.(vlanInserted := true, vlanTag := tx.vlanTag) else e
  }

  // ---------------------------------------------------------------------------
  // One segment into one receive buffer
  // ---------------------------------------------------------------------------

  /** The segment on the wire, behind a VLAN header if one is inserted. */
  function OnWire(tx: TxDescriptor, segment: seq<Byte>): seq<Byte> {
    if tx.vlanInsert then [0x81, 0x00, tx.vlanTag / 256, tx.vlanTag % 256] + segment else segment
  }

  predicate Strips(tx: TxDescriptor, rx: RxDescriptor) { rx.vlanStrip && (tx.vlanInsert || rx.vlanPresent) }

  /** What the receive buffer is to hold. */
  function Received(tx: TxDescriptor, rx: RxDescriptor, wire: seq<Byte>): seq<Byte> {
    if Strips(tx, rx) && |wire| >= 4 then wire[4..] else wire
  }

  predicate ChecksRx(rx: RxDescriptor) { rx.checksumOffload && rx.checksum != NoChecksum }

  function ChecksumOf(data: seq<Byte>): int { Checksum.ONES - Checksum.OnesSum(Checksum.WordSum(data)) }

  function WithVlan(tx: TxDescriptor, rx: RxDescriptor, e: Entry): Entry {
    if Strips(tx, rx) then e.(vlanStripped := true, vlanTag := if tx.vlanInsert then tx.vlanTag else rx.vlanTag) else e
  }

  /** Memory after the segment, its receive completion, and the transmit status if the packet ends here. */
  datatype Verdict = Verdict(host: Host, entry: Entry, failure: Option<CompletionCode>)

  function ReceiveSegment(h: Host, queueId: U16, tx: TxDescriptor, rx: RxDescriptor, wire: seq<Byte>): Verdict {
    var data := Received(tx, rx, wire);
    if rx.bufferLength < |data| then
      Verdict(h, WithVlan(tx, rx, MakeCompletion(queueId, rx.descriptorIndex, BufferTooSmall)), Some(CompletionCode.Success))
    else match HostWrite(h, rx.bufferAddress, data)
    case None => Verdict(h, MakeCompletion(queueId, rx.descriptorIndex, Fault), Some(Fault))
    case Some(h') =>
      var e := MakeCompletion(queueId, rx.descriptorIndex, CompletionCode.Success).(groAggregated := rx.groEnabled, checksumVerified := ChecksRx(rx));
      if ChecksRx(rx) && ChecksumOf(data) != 0 then Verdict(h', e.(status := ChecksumError), Some(CompletionCode.Success))
      else Verdict(h', WithVlan(tx, rx, e), None)
  }

  // ---------------------------------------------------------------------------
  // A packet's segments into successive receive buffers
  // ---------------------------------------------------------------------------

  datatype Progress = Progress(host: Host, entries: seq<Entry>, failure: Option<CompletionCode>, packets: nat, bytes: nat)

  function Advance(p: Progress, queueId: U16, tx: TxDescriptor, rx: RxDescriptor, segment: seq<Byte>): Progress {
    var v := ReceiveSegment(p.host, queueId, tx, rx, OnWire(tx, segment));
    var got := if v.failure.None? then 1 else 0;
    Progress(v.host, p.entries + [v.entry], v.failure, p.packets + got,
             p.bytes + got * |Received(tx, rx, OnWire(tx, segment))|)
  }

  /** The receive descriptors taken so far, one segment each, up to the first failure. */
  function Deliver(h: Host, queueId: U16, tx: TxDescriptor, rxs: seq<RxDescriptor>, segments: seq<seq<Byte>>): (p: Progress)
    requires |rxs| <= |segments|
    decreases |rxs|
  {
    if rxs == [] then Progress(h, [], None, 0, 0) else
    var n := |rxs| - 1;
    var p := Deliver(h, queueId, tx, rxs[..n], segments);
    if p.failure.Some? then p else Advance(p, queueId, tx, rxs[n], segments[n])
  }

  /** Everything a processed transmit descriptor brings about. */
  datatype Outcome = Outcome(host: Host, rxEntries: seq<Entry>, txEntry: Entry,
                             txPackets: nat, txBytes: nat, rxPackets: nat, rxBytes: nat)

  function Drop(h: Host, entry: Entry): Outcome { Outcome(h, [], entry, 0, 0, 0, 0) }

  /** A packet that ended at a failing segment, having delivered those before it. */
  function Stopped(queueId: U16, tx: TxDescriptor, p: Progress, total: nat, tso: bool, gso: bool): (o: Outcome)
    ensures o.txEntry.descriptorIndex == tx.descriptorIndex
  {
    var code := if p.failure.Some? then p.failure.value else CompletionCode.Success;
    Outcome(p.host, p.entries, MakeTxCompletion(queueId, tx, code, total, tso, gso), 0, 0, p.packets, p.bytes)
  }

  function Sent(queueId: U16, tx: TxDescriptor, p: Progress, total: nat, tso: bool, gso: bool, length: nat): (o: Outcome)
    ensures o.txEntry.descriptorIndex == tx.descriptorIndex
  {
    Outcome(p.host, p.entries, MakeTxCompletion(queueId, tx, CompletionCode.Success, total, tso, gso), total, length, p.packets, p.bytes)
  }

  /** The packet itself, given the receive descriptors that were available and those it took. */
  function PacketOutcome(h: Host, queueId: U16, maxMtu: nat, tx: TxDescriptor, packet: seq<Byte>, available: nat,
                         rxs: seq<RxDescriptor>): Outcome
  {
    if |packet| > maxMtu then Drop(h, MakeTxCompletion(queueId, tx, MtuExceeded, 0, false, false))
    else match SegmentsOf(tx, packet)
    case Dropped(code) => Drop(h, MakeTxCompletion(queueId, tx, code, 0, false, false))
    case Segments(list) =>
      var tso, gso := tx.tsoEnabled && |list| > 1, tx.gsoEnabled && |list| > 1;
      if available < |list| || |rxs| > |list| then Drop(h, MakeTxCompletion(queueId, tx, NoDescriptor, 0, tso, gso))
      else
        var p := Deliver(h, queueId, tx, rxs, list);
        match p.failure
        case Some(_) => Stopped(queueId, tx, p, |list|, tso, gso)
        case None => Sent(queueId, tx, p, |list|, tso, gso, |packet|)
  }

  predicate BadTxChecksum(tx: TxDescriptor, packet: seq<Byte>) {
    !tx.checksumOffload && tx.checksum != NoChecksum && ChecksumOf(packet) != tx.checksumValue
  }

  function DescriptorOutcome(h: Host, queueId: U16, maxMtu: nat, tx: TxDescriptor, available: nat, rxs: seq<RxDescriptor>): Outcome {
    if available == 0 then Drop(h, MakeTxCompletion(queueId, tx, NoDescriptor, 0, false, false))
    else match HostRead(h, tx.bufferAddress, tx.length)
    case None => Drop(h, MakeTxCompletion(queueId, tx, Fault, 0, false, false))
    case Some(packet) =>
      if BadTxChecksum(tx, packet) then Drop(h, MakeTxCompletion(queueId, tx, ChecksumError, 0, false, false))
      else PacketOutcome(h, queueId, maxMtu, tx, packet, available, rxs)
  }

  /** The descriptors read from raw ring slots. */
  function DecodeAll(decode: seq<Byte> -> Option<RxDescriptor>, raw: seq<seq<Byte>>): (r: Option<seq<RxDescriptor>>)
    ensures r.Some? ==> |r.value| == |raw| && forall i :: 0 <= i < |raw| ==> decode(raw[i]) == Some(r.value[i])
  {
    if raw == [] then Some([]) else
    var front, last := DecodeAll(decode, raw[..|raw| - 1]), decode(raw[|raw| - 1]);
    if front.None? || last.None? then None else Some(front.value + [last.value])
  }

  lemma DecodeOneMore(decode: seq<Byte> -> Option<RxDescriptor>, raw: seq<seq<Byte>>, d: seq<Byte>)
    requires DecodeAll(decode, raw).Some? && decode(d).Some?
    ensures DecodeAll(decode, raw + [d]) == Some(DecodeAll(decode, raw).value + [decode(d).value])
  {
    assert (raw + [d])[..|raw|] == raw;
  }

  // ---------------------------------------------------------------------------
  // What the outcome means
  // ---------------------------------------------------------------------------

  /** While nothing failed, every receive descriptor taken has its own completion, with its index. */
  ghost predicate OneEach(entries: seq<Entry>, rxs: seq<RxDescriptor>) {
    |entries| == |rxs| && forall i :: 0 <= i < |rxs| ==> entries[i].descriptorIndex == rxs[i].descriptorIndex
  }

  ghost predicate AllSucceeded(entries: seq<Entry>) {
    forall i :: 0 <= i < |entries| ==> entries[i].status == CompletionCode.Success
  }

  lemma OneEachMore(entries: seq<Entry>, more: seq<Entry>, rxs: seq<RxDescriptor>, rx: RxDescriptor)
    requires OneEach(entries, rxs) && |more| == |entries| + 1 && more[..|entries|] == entries
    requires more[|entries|].descriptorIndex == rx.descriptorIndex
    ensures OneEach(more, rxs + [rx])
    ensures AllSucceeded(entries) && more[|entries|].status == CompletionCode.Success ==> AllSucceeded(more)
  {
    assert forall i :: 0 <= i < |entries| ==> more[i] == entries[i];
  }

  lemma OutcomeIndex(h: Host, queueId: U16, maxMtu: nat, tx: TxDescriptor, available: nat, rxs: seq<RxDescriptor>)
    ensures DescriptorOutcome(h, queueId, maxMtu, tx, available, rxs).txEntry.descriptorIndex == tx.descriptorIndex
  {
    hide Deliver, SegmentsOf, ChecksumOf, MakeTxCompletion;
  }

  /** One more receive descriptor: a step while the delivery is going, nothing after a failure. */
  lemma DeliverOneMore(h: Host, queueId: U16, tx: TxDescriptor, rxs: seq<RxDescriptor>, rx: RxDescriptor, segments: seq<seq<Byte>>)
    requires |rxs| < |segments|
    ensures var p := Deliver(h, queueId, tx, rxs, segments);
            Deliver(h, queueId, tx, rxs + [rx], segments) == if p.failure.Some? then p else Advance(p, queueId, tx, rx, segments[|rxs|])
  {
    assert (rxs + [rx])[..|rxs|] == rxs;
  }

  /** What the i-th receive buffer is given. */
  function DataFor(tx: TxDescriptor, rx: RxDescriptor, segment: seq<Byte>): seq<Byte> {
    Received(tx, rx, OnWire(tx, segment))
  }

  /** A caller's view of when one segment goes through. */
  predicate Takes(h: Host, tx: TxDescriptor, rx: RxDescriptor, segment: seq<Byte>) {
    var data := DataFor(tx, rx, segment);
    |data| <= rx.bufferLength && Accessible(h, rx.bufferAddress, |data|) && (ChecksRx(rx) ==> ChecksumOf(data) == 0)
  }

  ghost predicate SameShape(a: Host, b: Host) { |a.bytes| == |b.bytes| && a.fault == b.fault }

  /** One step: it goes on exactly when the buffer takes the segment, and then the segment is in the buffer. */
  lemma AdvanceExact(p: Progress, queueId: U16, tx: TxDescriptor, rx: RxDescriptor, segment: seq<Byte>)
    ensures var q := Advance(p, queueId, tx, rx, segment);
            && SameShape(q.host, p.host)
            && (q.failure.None? <==> Takes(p.host, tx, rx, segment))
            && |q.entries| == |p.entries| + 1 && q.entries[..|p.entries|] == p.entries
            && q.entries[|p.entries|].descriptorIndex == rx.descriptorIndex
            && (q.entries[|p.entries|].status == CompletionCode.Success <==> q.failure.None?)
            && q.failure in {None, Some(Fault), Some(CompletionCode.Success)}
            && (q.failure == Some(Fault) <==>
                  |DataFor(tx, rx, segment)| <= rx.bufferLength && !Accessible(p.host, rx.bufferAddress, |DataFor(tx, rx, segment)|))
            && (q.failure.None? ==>
                  && q.packets == p.packets + 1
                  && q.bytes == p.bytes + |DataFor(tx, rx, segment)|
                  && q.host.bytes == Splice(p.host.bytes, rx.bufferAddress, DataFor(tx, rx, segment)))
  {
    hide ChecksumOf, Splice;
  }

  predicate AllTake(h: Host, tx: TxDescriptor, rxs: seq<RxDescriptor>, segments: seq<seq<Byte>>)
    requires |rxs| <= |segments|
  {
    forall i :: 0 <= i < |rxs| ==> Takes(h, tx, rxs[i], segments[i])
  }

  lemma AllTakeOneMore(h: Host, tx: TxDescriptor, rxs: seq<RxDescriptor>, rx: RxDescriptor, segments: seq<seq<Byte>>)
    requires |rxs| < |segments|
    ensures AllTake(h, tx, rxs + [rx], segments) <==> AllTake(h, tx, rxs, segments) && Takes(h, tx, rx, segments[|rxs|])
  {
    hide Takes;
    var all := rxs + [rx];
    assert forall i :: 0 <= i < |all| ==> all[i] == if i < |rxs| then rxs[i] else rx;
  }

  /**
   * A delivery goes through exactly when every buffer is large enough, reachable and, where
   * asked for, passes its checksum; memory keeps its size, and each descriptor gets its completion.
   */
  lemma {:induction false} DeliversIff(h: Host, queueId: U16, tx: TxDescriptor, rxs: seq<RxDescriptor>, segments: seq<seq<Byte>>)
    requires |rxs| <= |segments|
    ensures var p := Deliver(h, queueId, tx, rxs, segments);
            && SameShape(p.host, h)
            && (p.failure.None? <==> AllTake(h, tx, rxs, segments))
            && (p.failure.None? ==> OneEach(p.entries, rxs) && AllSucceeded(p.entries) && p.packets == |rxs|)
    decreases |rxs|
  {
    if rxs != [] {
      hide Takes, Advance, AllTake, Deliver, OneEach, AllSucceeded;
      var n := |rxs| - 1;
      var p := Deliver(h, queueId, tx, rxs[..n], segments);
      DeliversIff(h, queueId, tx, rxs[..n], segments);
      assert rxs[..n] + [rxs[n]] == rxs;
      AllTakeOneMore(h, tx, rxs[..n], rxs[n], segments);
      DeliverOneMore(h, queueId, tx, rxs[..n], rxs[n], segments);
      if p.failure.None? {
        AdvanceExact(p, queueId, tx, rxs[n], segments[n]);
        TakesSameShape(p.host, h, tx, rxs[n], segments[n]);
        OneEachMore(p.entries, Deliver(h, queueId, tx, rxs, segments).entries, rxs[..n], rxs[n]);
      }
    }
  }

  lemma TakesSameShape(a: Host, b: Host, tx: TxDescriptor, rx: RxDescriptor, segment: seq<Byte>)
    requires SameShape(a, b)
    ensures Takes(a, tx, rx, segment) == Takes(b, tx, rx, segment)
  {
  }

  /** Without VLAN tags the received bytes are the segments' bytes. */
  lemma {:induction false} DeliveredBytes(h: Host, queueId: U16, tx: TxDescriptor, rxs: seq<RxDescriptor>, segments: seq<seq<Byte>>)
    requires |rxs| <= |segments| && !tx.vlanInsert && (forall i :: 0 <= i < |rxs| ==> !Strips(tx, rxs[i]))
    requires Deliver(h, queueId, tx, rxs, segments).failure.None?
    ensures Deliver(h, queueId, tx, rxs, segments).bytes == TotalLength(segments[..|rxs|])
    decreases |rxs|
  {
    if rxs != [] {
      hide Advance;
      var n := |rxs| - 1;
      var p := Deliver(h, queueId, tx, rxs[..n], segments);
      if p.failure.None? {
        DeliveredBytes(h, queueId, tx, rxs[..n], segments);
        AdvanceExact(p, queueId, tx, rxs[n], segments[n]);
        assert segments[..|rxs|][..n] == segments[..n];
      }
    }
  }

  // ---------------------------------------------------------------------------
  // What memory holds afterwards
  // ---------------------------------------------------------------------------

  /** Byte a lies in what the i-th buffer is given. */
  ghost predicate InBuffer(tx: TxDescriptor, rxs: seq<RxDescriptor>, segments: seq<seq<Byte>>, i: nat, a: nat)
    requires i < |rxs| <= |segments|
  {
    rxs[i].bufferAddress <= a < rxs[i].bufferAddress + |DataFor(tx, rxs[i], segments[i])|
  }

  ghost predicate BuffersApart(tx: TxDescriptor, rxs: seq<RxDescriptor>, segments: seq<seq<Byte>>)
    requires |rxs| <= |segments|
  {
    forall i: nat, j: nat, a: nat :: i < j < |rxs| && InBuffer(tx, rxs, segments, i, a) ==> !InBuffer(tx, rxs, segments, j, a)
  }

  /** Each buffer holds what it was given, and every other byte is as before. */
  ghost predicate Holds(before: seq<Byte>, after: seq<Byte>, tx: TxDescriptor, rxs: seq<RxDescriptor>, segments: seq<seq<Byte>>)
    requires |rxs| <= |segments|
  {
    && |after| == |before|
    && (forall i: nat, a: nat :: i < |rxs| && InBuffer(tx, rxs, segments, i, a) ==>
          a < |after| && after[a] == DataFor(tx, rxs[i], segments[i])[a - rxs[i].bufferAddress])
    && (forall a: nat :: a < |before| && (forall i :: 0 <= i < |rxs| ==> !InBuffer(tx, rxs, segments, i, a)) ==> after[a] == before[a])
  }

  lemma HoldsOneMore(before: seq<Byte>, after: seq<Byte>, tx: TxDescriptor, rxs: seq<RxDescriptor>, segments: seq<seq<Byte>>)
    requires 0 < |rxs| <= |segments| && BuffersApart(tx, rxs, segments)
    requires Holds(before, after, tx, rxs[..|rxs| - 1], segments)
    requires rxs[|rxs| - 1].bufferAddress + |DataFor(tx, rxs[|rxs| - 1], segments[|rxs| - 1])| <= |after|
    ensures var n := |rxs| - 1;
            Holds(before, Splice(after, rxs[n].bufferAddress, DataFor(tx, rxs[n], segments[n])), tx, rxs, segments)
  {
    hide DataFor;
    var n := |rxs| - 1;
    var front := rxs[..n];
    var last := Splice(after, rxs[n].bufferAddress, DataFor(tx, rxs[n], segments[n]));
    assert forall i: nat, a: nat :: i < n ==> (InBuffer(tx, front, segments, i, a) <==> InBuffer(tx, rxs, segments, i, a));
    forall i: nat, a: nat | i < |rxs| && InBuffer(tx, rxs, segments, i, a)
      ensures a < |last| && last[a] == DataFor(tx, rxs[i], segments[i])[a - rxs[i].bufferAddress]
    {
      if i < n {
        assert InBuffer(tx, front, segments, i, a) && !InBuffer(tx, rxs, segments, n, a);
      }
    }
    forall a: nat | a < |before| && (forall i :: 0 <= i < |rxs| ==> !InBuffer(tx, rxs, segments, i, a))
      ensures last[a] == before[a]
    {
      assert !InBuffer(tx, rxs, segments, n, a);
      assert forall i :: 0 <= i < n ==> !InBuffer(tx, front, segments, i, a);
    }
  }

  /** A delivery that goes through fills disjoint buffers with their segments and touches nothing else. */
  lemma {:induction false} DeliveredContents(h: Host, queueId: U16, tx: TxDescriptor, rxs: seq<RxDescriptor>, segments: seq<seq<Byte>>)
    requires |rxs| <= |segments| && BuffersApart(tx, rxs, segments)
    requires Deliver(h, queueId, tx, rxs, segments).failure.None?
    ensures Holds(h.bytes, Deliver(h, queueId, tx, rxs, segments).host.bytes, tx, rxs, segments)
    decreases |rxs|
  {
    if rxs != [] {
      hide Advance, BuffersApart, Holds, Splice;
      var n := |rxs| - 1;
      var p := Deliver(h, queueId, tx, rxs[..n], segments);
      if p.failure.None? {
        ApartPrefix(tx, rxs, segments);
        DeliveredContents(h, queueId, tx, rxs[..n], segments);
        AdvanceExact(p, queueId, tx, rxs[n], segments[n]);
        HoldsOneMore(h.bytes, p.host.bytes, tx, rxs, segments);
      }
    }
  }

  lemma ApartPrefix(tx: TxDescriptor, rxs: seq<RxDescriptor>, segments: seq<seq<Byte>>)
    requires 0 < |rxs| <= |segments| && BuffersApart(tx, rxs, segments)
    ensures BuffersApart(tx, rxs[..|rxs| - 1], segments)
  {
    hide DataFor;
    var front := rxs[..|rxs| - 1];
    assert forall i: nat, a: nat :: i < |front| ==> (InBuffer(tx, front, segments, i, a) <==> InBuffer(tx, rxs, segments, i, a));
  }

  // ---------------------------------------------------------------------------
  // Whole descriptors
  // ---------------------------------------------------------------------------

  /** The segments a packet becomes, none when it is dropped. */
  function PacketSegments(maxMtu: nat, tx: TxDescriptor, packet: seq<Byte>): seq<seq<Byte>> {
    if |packet| > maxMtu || SegmentsOf(tx, packet).Dropped? then [] else SegmentsOf(tx, packet).list
  }

  /** The segments a transmit descriptor asks for, none when its packet is refused. */
  function Wanted(h: Host, maxMtu: nat, tx: TxDescriptor): (s: seq<seq<Byte>>) {
    match HostRead(h, tx.bufferAddress, tx.length)
    case None => []
    case Some(packet) => if BadTxChecksum(tx, packet) then [] else PacketSegments(maxMtu, tx, packet)
  }

  lemma WantedExact(h: Host, maxMtu: nat, tx: TxDescriptor)
    ensures var s := Wanted(h, maxMtu, tx);
            s != [] ==> && Accessible(h, tx.bufferAddress, tx.length)
                        && s == SegmentsOf(tx, HostRead(h, tx.bufferAddress, tx.length).value).list
                        && |s| <= MAX_TSO_SEGMENTS
                        && TotalLength(s) == tx.length + (|s| - 1) * tx.headerLength
    ensures Wanted(h, maxMtu, tx) == [] <==>
              || !Accessible(h, tx.bufferAddress, tx.length)
              || BadTxChecksum(tx, HostRead(h, tx.bufferAddress, tx.length).value)
              || tx.length > maxMtu
              || (SegmentationEnabled(tx, tx.length) && BreaksALimit(tx, tx.length))
  {
    hide BadTxChecksum, SegmentsOf, TotalLength, SegmentationEnabled, BreaksALimit, CutUp;
    if Accessible(h, tx.bufferAddress, tx.length) {
      var packet := HostRead(h, tx.bufferAddress, tx.length).value;
      DroppedIffLimitBroken(tx, packet);
      if SegmentsOf(tx, packet).Segments? {
        SegmentsRebuildPacket(tx, packet);
      }
    }
  }

  /**
   * The receive descriptors a call takes for the segments s: none when there are too few for
   * all of them, otherwise one after the other up to the first that does not take its segment.
   */
  predicate TakenFor(h: Host, tx: TxDescriptor, rxs: seq<RxDescriptor>, s: seq<seq<Byte>>, available: nat) {
    if s == [] || available < |s| then rxs == []
    else
      && 0 < |rxs| <= |s| && AllTake(h, tx, rxs[..|rxs| - 1], s)
      && (|rxs| < |s| ==> !Takes(h, tx, rxs[|rxs| - 1], s[|rxs| - 1]))
  }

  /** The buffer is reached and turns the segment down: too small, or a failed checksum. */
  predicate TurnsDown(h: Host, tx: TxDescriptor, rx: RxDescriptor, segment: seq<Byte>) {
    var data := DataFor(tx, rx, segment);
    |data| > rx.bufferLength || (Accessible(h, rx.bufferAddress, |data|) && ChecksRx(rx) && ChecksumOf(data) != 0)
  }

  /** The buffer is large enough and cannot be written. */
  predicate Faults(h: Host, tx: TxDescriptor, rx: RxDescriptor, segment: seq<Byte>) {
    var data := DataFor(tx, rx, segment);
    |data| <= rx.bufferLength && !Accessible(h, rx.bufferAddress, |data|)
  }

  /** A delivery under way that fails with its next descriptor. */
  lemma StopsHere(h: Host, queueId: U16, tx: TxDescriptor, rxs: seq<RxDescriptor>, rx: RxDescriptor, s: seq<seq<Byte>>)
    requires |rxs| < |s| && Deliver(h, queueId, tx, rxs, s).failure.None?
    ensures Deliver(h, queueId, tx, rxs + [rx], s).failure.Some? ==> TakenFor(h, tx, rxs + [rx], s, |s|)
  {
    hide Deliver, Takes, AllTake;
    DeliversIff(h, queueId, tx, rxs, s);
    DeliversIff(h, queueId, tx, rxs + [rx], s);
    AllTakeOneMore(h, tx, rxs, rx, s);
    assert (rxs + [rx])[..|rxs|] == rxs;
  }

  /** A delivery that has gone all the way. */
  lemma GoesThrough(h: Host, queueId: U16, tx: TxDescriptor, rxs: seq<RxDescriptor>, s: seq<seq<Byte>>)
    requires |rxs| == |s| && Deliver(h, queueId, tx, rxs, s).failure.None?
    ensures TakenFor(h, tx, rxs, s, |s|)
  {
    hide Deliver, Takes;
    DeliversIff(h, queueId, tx, rxs, s);
    if s != [] {
      var front := rxs[..|rxs| - 1];
      assert forall i :: 0 <= i < |front| ==> front[i] == rxs[i];
    }
  }

  /** A delivery that ends at its last descriptor: why, and what it has done until then. */
  lemma StopReason(h: Host, queueId: U16, tx: TxDescriptor, rxs: seq<RxDescriptor>, s: seq<seq<Byte>>)
    requires 0 < |rxs| <= |s| && AllTake(h, tx, rxs[..|rxs| - 1], s) && !Takes(h, tx, rxs[|rxs| - 1], s[|rxs| - 1])
    ensures var n := |rxs| - 1; var p := Deliver(h, queueId, tx, rxs, s);
            && p.failure == Some(if Faults(h, tx, rxs[n], s[n]) then Fault else CompletionCode.Success)
            && (Faults(h, tx, rxs[n], s[n]) <==> !TurnsDown(h, tx, rxs[n], s[n]))
            && OneEach(p.entries, rxs) && p.packets == n
            && AllSucceeded(p.entries[..n]) && p.entries[n].status != CompletionCode.Success
  {
    hide Deliver, Advance, AllTake, Takes, TurnsDown, Faults, OneEach, AllSucceeded;
    var n := |rxs| - 1;
    var p := Deliver(h, queueId, tx, rxs[..n], s);
    DeliversIff(h, queueId, tx, rxs[..n], s);
    assert rxs[..n] + [rxs[n]] == rxs;
    DeliverOneMore(h, queueId, tx, rxs[..n], rxs[n], s);
    TakesOrNot(h, tx, rxs[n], s[n]);
    StepStops(p, h, queueId, tx, rxs[n], s[n]);
    AdvanceExact(p, queueId, tx, rxs[n], s[n]);
    hide DataFor;
    OneEachMore(p.entries, Deliver(h, queueId, tx, rxs, s).entries, rxs[..n], rxs[n]);
    OneEachSize(p.entries, rxs[..n]);
  }

  /** A step that does not go through: which code it ends with. */
  lemma StepStops(p: Progress, h: Host, queueId: U16, tx: TxDescriptor, rx: RxDescriptor, segment: seq<Byte>)
    requires SameShape(p.host, h) && !Takes(h, tx, rx, segment)
    ensures var q := Advance(p, queueId, tx, rx, segment);
            && q.failure == Some(if Faults(h, tx, rx, segment) then Fault else CompletionCode.Success)
            && q.packets == p.packets
  {
    hide Advance;
    TakesSameShape(p.host, h, tx, rx, segment);
    AdvanceExact(p, queueId, tx, rx, segment);
    StoppedPackets(p, queueId, tx, rx, segment);
  }

  lemma OneEachSize(entries: seq<Entry>, rxs: seq<RxDescriptor>)
    requires OneEach(entries, rxs)
    ensures |entries| == |rxs|
  {
  }

  lemma StoppedPackets(p: Progress, queueId: U16, tx: TxDescriptor, rx: RxDescriptor, segment: seq<Byte>)
    requires Advance(p, queueId, tx, rx, segment).failure.Some?
    ensures Advance(p, queueId, tx, rx, segment).packets == p.packets
  {
    hide ReceiveSegment, Received;
  }

  /** What a descriptor with segments comes to: sent, out of receive descriptors, or stopped at a buffer. */
  lemma OutcomeCases(h: Host, queueId: U16, maxMtu: nat, tx: TxDescriptor, available: nat, rxs: seq<RxDescriptor>)
    requires Wanted(h, maxMtu, tx) != [] && |rxs| <= |Wanted(h, maxMtu, tx)|
    ensures var s := Wanted(h, maxMtu, tx); var o := DescriptorOutcome(h, queueId, maxMtu, tx, available, rxs);
            var tso, gso := tx.tsoEnabled && |s| > 1, tx.gsoEnabled && |s| > 1;
            if available < |s| then
              o.txEntry.status == NoDescriptor && o == Drop(h, o.txEntry)
            else
              var p := Deliver(h, queueId, tx, rxs, s);
              o == if p.failure.Some? then Stopped(queueId, tx, p, |s|, tso, gso) else Sent(queueId, tx, p, |s|, tso, gso, tx.length)
  {
    hide Deliver, BadTxChecksum, SegmentsOf, MakeTxCompletion, Stopped, Sent;
  }

  /** A packet that is refused as a whole is reported with its own code, never as a success. */
  lemma RefusedCases(h: Host, queueId: U16, maxMtu: nat, tx: TxDescriptor, available: nat, rxs: seq<RxDescriptor>)
    requires Wanted(h, maxMtu, tx) == []
    ensures var o := DescriptorOutcome(h, queueId, maxMtu, tx, available, rxs);
            && o == Drop(h, o.txEntry)
            && if available == 0 then o.txEntry.status == NoDescriptor
               else o.txEntry.status in {Fault, ChecksumError, MtuExceeded, InvalidMss, TooManySegments}
  {
    WantedExact(h, maxMtu, tx);
    hide Deliver, BadTxChecksum, MakeTxCompletion, Stopped, Sent, Headed, TotalLength;
  }

  /**
   * A transmit descriptor is counted as sent exactly when its packet is acceptable, enough
   * receive descriptors were there, and every one taken took its segment, up to the last.  It
   * is then reported as Success with its segment count, the bytes received exceed the packet by
   * one header per extra segment, and disjoint buffers hold the segments with the rest of
   * memory untouched.
   */
  lemma SentExactlyWhenDelivered(h: Host, queueId: U16, maxMtu: nat, tx: TxDescriptor, available: nat, rxs: seq<RxDescriptor>)
    requires TakenFor(h, tx, rxs, Wanted(h, maxMtu, tx), available)
    ensures var s := Wanted(h, maxMtu, tx); var o := DescriptorOutcome(h, queueId, maxMtu, tx, available, rxs);
            && (o.txPackets > 0 <==> s != [] && available >= |s| && |rxs| == |s| && AllTake(h, tx, rxs, s))
            && (o.txPackets > 0 ==>
                  && o.txPackets == o.rxPackets == |s| == o.txEntry.segmentsProduced
                  && o.txEntry.status == CompletionCode.Success
                  && o.txBytes == tx.length
                  && OneEach(o.rxEntries, rxs) && AllSucceeded(o.rxEntries)
                  && (!tx.vlanInsert && (forall i :: 0 <= i < |rxs| ==> !Strips(tx, rxs[i])) ==>
                        o.rxBytes == tx.length + (|s| - 1) * tx.headerLength)
                  && (BuffersApart(tx, rxs, s) ==> Holds(h.bytes, o.host.bytes, tx, rxs, s)))
  {
    var s := Wanted(h, maxMtu, tx);
    if s == [] {
      RefusedCases(h, queueId, maxMtu, tx, available, rxs);
    } else {
      WantedExact(h, maxMtu, tx);
      OutcomeCases(h, queueId, maxMtu, tx, available, rxs);
      if available >= |s| {
        hide DescriptorOutcome, Wanted, Deliver, TotalLength, Takes, BuffersApart, Holds, OneEach, AllSucceeded, Strips;
        WholeDelivery(h, queueId, tx, rxs, s);
        if AllTake(h, tx, rxs, s) && |rxs| == |s| {
          assert s[..|rxs|] == s;
          if BuffersApart(tx, rxs, s) {
            DeliveredContents(h, queueId, tx, rxs, s);
          }
          if !tx.vlanInsert && (forall i :: 0 <= i < |rxs| ==> !Strips(tx, rxs[i])) {
            DeliveredBytes(h, queueId, tx, rxs, s);
          }
        }
      }
    }
  }

  /** Descriptors taken for segments: the delivery went through exactly when the last one took its segment, too. */
  lemma WholeDelivery(h: Host, queueId: U16, tx: TxDescriptor, rxs: seq<RxDescriptor>, s: seq<seq<Byte>>)
    requires 0 < |rxs| <= |s| && AllTake(h, tx, rxs[..|rxs| - 1], s)
    requires |rxs| < |s| ==> !Takes(h, tx, rxs[|rxs| - 1], s[|rxs| - 1])
    ensures var p := Deliver(h, queueId, tx, rxs, s);
            && (p.failure.None? <==> |rxs| == |s| && AllTake(h, tx, rxs, s))
            && (p.failure.Some? <==> !Takes(h, tx, rxs[|rxs| - 1], s[|rxs| - 1]))
            && (p.failure.None? ==> OneEach(p.entries, rxs) && AllSucceeded(p.entries) && p.packets == |rxs|)
  {
    hide Deliver, Takes, OneEach, AllSucceeded, AllTake;
    var n := |rxs| - 1;
    assert rxs[..n] + [rxs[n]] == rxs;
    AllTakeOneMore(h, tx, rxs[..n], rxs[n], s);
    DeliversIff(h, queueId, tx, rxs, s);
  }

  /**
   * What the transmit status tells. NoDescriptor: there were too few receive descriptors.
   * Fault with receive descriptors taken: the last one's buffer could not be written. And a
   * Success that was not counted as sent: the last buffer was too small or failed its
   * checksum, after the segments before it had been delivered.
   */
  lemma StatusMeaning(h: Host, queueId: U16, maxMtu: nat, tx: TxDescriptor, available: nat, rxs: seq<RxDescriptor>)
    requires TakenFor(h, tx, rxs, Wanted(h, maxMtu, tx), available)
    ensures var s := Wanted(h, maxMtu, tx); var o := DescriptorOutcome(h, queueId, maxMtu, tx, available, rxs);
            var n := |rxs| - 1;
            && (o.txEntry.status == NoDescriptor <==> available == 0 || (s != [] && available < |s|))
            && (o.txEntry.status == Fault && rxs != [] <==> rxs != [] && Faults(h, tx, rxs[n], s[n]))
            && (o.txEntry.status == CompletionCode.Success && o.txPackets == 0 <==> rxs != [] && TurnsDown(h, tx, rxs[n], s[n]))
            && (rxs != [] && o.txPackets == 0 ==>
                  && o.rxPackets == n && OneEach(o.rxEntries, rxs)
                  && AllSucceeded(o.rxEntries[..n]) && o.rxEntries[n].status != CompletionCode.Success)
  {
    hide DescriptorOutcome, Wanted, Deliver, Takes, AllTake, Faults, TurnsDown, OneEach, AllSucceeded, MakeTxCompletion;
    var s := Wanted(h, maxMtu, tx);
    if s == [] {
      RefusedCases(h, queueId, maxMtu, tx, available, rxs);
    } else {
      OutcomeCases(h, queueId, maxMtu, tx, available, rxs);
      if available >= |s| {
        var n := |rxs| - 1;
        TakesOrNot(h, tx, rxs[n], s[n]);
        WholeDelivery(h, queueId, tx, rxs, s);
        if !Takes(h, tx, rxs[n], s[n]) {
          StopReason(h, queueId, tx, rxs, s);
        }
      }
    }
  }

  /** A buffer takes its segment, turns it down, or faults: exactly one of the three. */
  lemma TakesOrNot(h: Host, tx: TxDescriptor, rx: RxDescriptor, segment: seq<Byte>)
    ensures Takes(h, tx, rx, segment) <==> !TurnsDown(h, tx, rx, segment) && !Faults(h, tx, rx, segment)
    ensures !(TurnsDown(h, tx, rx, segment) && Faults(h, tx, rx, segment))
  {
    hide DataFor, ChecksumOf;
  }

  /** A two-byte packet and a one-byte receive buffer: reported as sent, and delivered nowhere. */
  lemma FalseSuccess(h: Host, queueId: U16)
    requires h.bytes == [1, 2] && FaultFree(h)
    ensures var tx := TxDescriptor(0, 2, NoChecksum, 7, 0, false, false, false, 0, 0, false, 0);
            var rx := RxDescriptor(0, 1, NoChecksum, 9, false, false, false, 0, false);
            var o := DescriptorOutcome(h, queueId, 9000, tx, 1, [rx]);
            && o.txEntry.status == CompletionCode.Success && o.txPackets == 0 && o.rxPackets == 0
            && |o.rxEntries| == 1 && o.rxEntries[0].status == BufferTooSmall && o.host == h
  {
    var tx := TxDescriptor(0, 2, NoChecksum, 7, 0, false, false, false, 0, 0, false, 0);
    var rx := RxDescriptor(0, 1, NoChecksum, 9, false, false, false, 0, false);
    assert h.bytes[0..2] == [1, 2];
    assert HostRead(h, 0, 2) == Some([1, 2]);
    assert SegmentsOf(tx, [1, 2]) == Segments([[1, 2]]);
    assert [rx][..0] == [];
    assert Deliver(h, queueId, tx, [], [[1, 2]]) == Progress(h, [], None, 0, 0);
  }
}
