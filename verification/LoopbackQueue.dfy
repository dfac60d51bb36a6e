/** A queue pair's rings, completion queues and memory, worked in place one transmit descriptor at a time. */
module LoopbackQueue {
  import opened Common
  import Checksum
  import opened HostMemory
  import opened Segmentation
  import opened Rings
  import opened DataPath
  import opened HostRings

  datatype Stats = Stats(txPackets: nat, rxPackets: nat, txBytes: nat, rxBytes: nat)

  /** What a step may change, apart from the transmit ring. */
  datatype Snapshot = Snapshot(host: Host, txOffered: seq<Entry>, rxOffered: seq<Entry>, taken: seq<seq<Byte>>,
                               available: int, history: seq<seq<Byte>>, stats: Stats)

  /** Some segments delivered, into the receive descriptors raw. */
  function Midway(s: Snapshot, p: Progress, raw: seq<seq<Byte>>): Snapshot {
    Snapshot(p.host, s.txOffered, s.rxOffered + p.entries, s.taken + raw, s.available - |raw|, s.history,
             s.stats.(rxPackets := s.stats.rxPackets + p.packets, rxBytes := s.stats.rxBytes + p.bytes))
  }

  /** A transmit descriptor dealt with, its segments gone into the receive descriptors raw. */
  function After(s: Snapshot, o: Outcome, raw: seq<seq<Byte>>): Snapshot {
    Snapshot(o.host, s.txOffered + [o.txEntry], s.rxOffered + o.rxEntries, s.taken + raw, s.available - |raw|, s.history,
             Stats(s.stats.txPackets + o.txPackets, s.stats.rxPackets + o.rxPackets,
                   s.stats.txBytes + o.txBytes, s.stats.rxBytes + o.rxBytes))
  }

  /** One segment through the receive side. */
  function AfterSegment(s: Snapshot, queueId: U16, tx: TxDescriptor, rx: RxDescriptor, wire: seq<Byte>,
                        total: nat, tso: bool, gso: bool): Snapshot
  {
    var v := ReceiveSegment(s.host, queueId, tx, rx, wire);
    match v.failure
    case None =>
      s.(host := v.host, rxOffered := s.rxOffered + [v.entry],
         stats := s.stats.(rxPackets := s.stats.rxPackets + 1, rxBytes := s.stats.rxBytes + |Received(tx, rx, wire)|))
    case Some(code) =>
      s.(host := v.host, rxOffered := s.rxOffered + [v.entry],
         txOffered := s.txOffered + [MakeTxCompletion(queueId, tx, code, total, tso, gso)])
  }

  function Take(s: Snapshot, d: seq<Byte>): Snapshot { s.(taken := s.taken + [d], available := s.available - 1) }

  /** Taking one more receive descriptor and delivering one more segment. */
  lemma MidwayStep(s: Snapshot, p: Progress, raw: seq<seq<Byte>>, d: seq<Byte>, queueId: U16, tx: TxDescriptor,
                   rx: RxDescriptor, segment: seq<Byte>, total: nat, tso: bool, gso: bool)
    ensures var p' := Advance(p, queueId, tx, rx, segment);
            var next := AfterSegment(Take(Midway(s, p, raw), d), queueId, tx, rx, OnWire(tx, segment), total, tso, gso);
            && (p'.failure.None? <==> ReceiveSegment(p.host, queueId, tx, rx, OnWire(tx, segment)).failure.None?)
            && (p'.failure.None? ==> next == Midway(s, p', raw + [d]))
            && (p'.failure.Some? ==> next == After(s, Stopped(queueId, tx, p', total, tso, gso), raw + [d]))
  {
    hide ReceiveSegment, Received, OnWire, MakeTxCompletion;
    assert s.rxOffered + p.entries + [ReceiveSegment(p.host, queueId, tx, rx, OnWire(tx, segment)).entry]
        == s.rxOffered + (p.entries + [ReceiveSegment(p.host, queueId, tx, rx, OnWire(tx, segment)).entry]);
    assert s.taken + raw + [d] == s.taken + (raw + [d]);
  }

  /** The call as it was found: its receive ring, its first slot and the state before. */
  datatype Call = Call(cfg: RingConfig, decode: seq<Byte> -> Option<RxDescriptor>, queueId: U16, first: nat, before: Snapshot)

  /** A delivery under way: the descriptors raw, read as rxs, have taken a segment each, and now is where that leads. */
  ghost predicate Underway(c: Call, tx: TxDescriptor, segments: seq<seq<Byte>>, rxs: seq<RxDescriptor>, raw: seq<seq<Byte>>, now: Snapshot, consumer: nat) {
    && DecodeAll(c.decode, raw) == Some(rxs) && |rxs| <= |segments|
    && CameOff(c.cfg, c.queueId, c.first, consumer, c.before.host, tx, rxs, segments, raw)
    && var p := Deliver(c.before.host, c.queueId, tx, rxs, segments);
       p.failure.None? && OneEach(p.entries, rxs) && now == Midway(c.before, p, raw)
  }

  /** A delivery that has ended with its last descriptor. */
  ghost predicate Ended(c: Call, tx: TxDescriptor, segments: seq<seq<Byte>>, rxs: seq<RxDescriptor>, raw: seq<seq<Byte>>, now: Snapshot, consumer: nat,
                        tso: bool, gso: bool) {
    && DecodeAll(c.decode, raw) == Some(rxs) && |rxs| <= |segments|
    && CameOff(c.cfg, c.queueId, c.first, consumer, c.before.host, tx, rxs, segments, raw)
    && TakenFor(c.before.host, tx, rxs, segments, |segments|)
    && var p := Deliver(c.before.host, c.queueId, tx, rxs, segments);
       p.failure.Some? && OneEach(p.entries, rxs) && now == After(c.before, Stopped(c.queueId, tx, p, |segments|, tso, gso), raw)
  }

  lemma UnderwayStart(c: Call, tx: TxDescriptor, segments: seq<seq<Byte>>)
    ensures Underway(c, tx, segments, [], [], c.before, c.first)
  {
    NothingOff(c.cfg, c.queueId, c.first, c.before.host, tx, segments);
    NothingDecoded(c.decode);
    NothingDelivered(c.before.host, c.queueId, tx, segments);
    MidwayStart(c.before);
  }

  /** One more descriptor off the ring, one more segment through it. */
  lemma UnderwayStep(c: Call, tx: TxDescriptor, segments: seq<seq<Byte>>, rxs: seq<RxDescriptor>, raw: seq<seq<Byte>>, now: Snapshot, consumer: nat,
                     consumer': nat, rx: RxDescriptor, d: seq<Byte>, tso: bool, gso: bool)
    requires Underway(c, tx, segments, rxs, raw, now, consumer) && |rxs| < |segments| && c.first < c.cfg.ringSize
    requires c.decode(d) == Some(rx) && consumer' == Moved(c.cfg.ringSize, consumer, 1)
    requires c.cfg.hostBacked ==> d == HostSlot(now.host, c.cfg, consumer)
    ensures var wire := OnWire(tx, segments[|rxs|]);
            var next := AfterSegment(Take(now, d), c.queueId, tx, rx, wire, |segments|, tso, gso);
            && Take(now, d).host == now.host && now.txOffered == c.before.txOffered
            && if ReceiveSegment(now.host, c.queueId, tx, rx, wire).failure.None?
               then Underway(c, tx, segments, rxs + [rx], raw + [d], next, consumer')
               else Ended(c, tx, segments, rxs + [rx], raw + [d], next, consumer', tso, gso)
  {
    hide Deliver, Advance, AfterSegment, OnWire, DecodeAll, ReceiveSegment, AllTake, OneEach, Stopped, After, TakenFor, CameOff, HostSlot, Moved;
    var h := c.before.host;
    var p := Deliver(h, c.queueId, tx, rxs, segments);
    DecodeOneMore(c.decode, raw, d);
    DeliverOneMore(h, c.queueId, tx, rxs, rx, segments);
    MidwayStep(c.before, p, raw, d, c.queueId, tx, rx, segments[|rxs|], |segments|, tso, gso);
    EntriesMatch(h, c.queueId, tx, rxs, rx, segments);
    StopsHere(h, c.queueId, tx, rxs, rx, segments);
    OneMoreOff(c.cfg, c.queueId, c.first, consumer, consumer', h, tx, rxs, segments, raw, rx, d);
  }

  lemma UnderwayFields(c: Call, tx: TxDescriptor, segments: seq<seq<Byte>>, rxs: seq<RxDescriptor>, raw: seq<seq<Byte>>, now: Snapshot, consumer: nat)
    requires Underway(c, tx, segments, rxs, raw, now, consumer)
    ensures |raw| == |rxs| && now.txOffered == c.before.txOffered && now.available == c.before.available - |raw|
  {
    hide Deliver, DecodeAll, CameOff, OneEach;
  }

  /** An outcome reached with the receive descriptors raw, all accounted for. */
  ghost predicate Settled(c: Call, tx: TxDescriptor, segments: seq<seq<Byte>>, available: nat, rxs: seq<RxDescriptor>, raw: seq<seq<Byte>>,
                          o: Outcome, now: Snapshot, consumer: nat) {
    && DecodeAll(c.decode, raw) == Some(rxs)
    && now == After(c.before, o, raw) && OneEach(o.rxEntries, rxs) && (o.txPackets > 0 ==> o.txPackets == |rxs|)
    && TakenFor(c.before.host, tx, rxs, segments, available)
    && CameOff(c.cfg, c.queueId, c.first, consumer, c.before.host, tx, rxs, segments, raw)
  }

  /** A packet, or a descriptor, dealt with as specified. */
  ghost predicate PacketSettled(c: Call, maxMtu: nat, tx: TxDescriptor, packet: seq<Byte>, available: nat, rxs: seq<RxDescriptor>,
                                raw: seq<seq<Byte>>, now: Snapshot, consumer: nat) {
    Settled(c, tx, PacketSegments(maxMtu, tx, packet), available, rxs, raw,
            PacketOutcome(c.before.host, c.queueId, maxMtu, tx, packet, available, rxs), now, consumer)
  }

  ghost predicate DescriptorSettled(c: Call, maxMtu: nat, tx: TxDescriptor, available: nat, rxs: seq<RxDescriptor>,
                                    raw: seq<seq<Byte>>, now: Snapshot, consumer: nat) {
    Settled(c, tx, Wanted(c.before.host, maxMtu, tx), available, rxs, raw,
            DescriptorOutcome(c.before.host, c.queueId, maxMtu, tx, available, rxs), now, consumer)
  }

  /** Nothing taken, nothing delivered. */
  lemma RefusalSettles(c: Call, tx: TxDescriptor, segments: seq<seq<Byte>>, available: nat, entry: Entry)
    requires segments == [] || available < |segments|
    ensures Settled(c, tx, segments, available, [], [], Drop(c.before.host, entry), After(c.before, Drop(c.before.host, entry), []), c.first)
  {
    hide After, CameOff, DecodeAll;
    NothingDecoded(c.decode);
    NothingOff(c.cfg, c.queueId, c.first, c.before.host, tx, segments);
  }

  lemma StopSettles(c: Call, maxMtu: nat, tx: TxDescriptor, packet: seq<Byte>, available: nat, rxs: seq<RxDescriptor>, raw: seq<seq<Byte>>,
                    now: Snapshot, consumer: nat)
    requires |packet| <= maxMtu && SegmentsOf(tx, packet).Segments?
    requires var list := SegmentsOf(tx, packet).list;
             && available >= |list|
             && Ended(c, tx, list, rxs, raw, now, consumer, tx.tsoEnabled && |list| > 1, tx.gsoEnabled && |list| > 1)
    ensures PacketSettled(c, maxMtu, tx, packet, available, rxs, raw, now, consumer)
  {
    hide After, CameOff, DecodeAll, SegmentsOf, Deliver, OneEach, MakeTxCompletion, AllTake, Takes;
  }

  lemma SentSettles(c: Call, maxMtu: nat, tx: TxDescriptor, packet: seq<Byte>, available: nat, rxs: seq<RxDescriptor>, raw: seq<seq<Byte>>,
                    now: Snapshot, consumer: nat)
    requires |packet| <= maxMtu && SegmentsOf(tx, packet).Segments?
    requires var list := SegmentsOf(tx, packet).list;
             available >= |list| == |rxs| && Underway(c, tx, list, rxs, raw, now, consumer)
    ensures var list := SegmentsOf(tx, packet).list;
            var p := Deliver(c.before.host, c.queueId, tx, rxs, list);
            && now == Midway(c.before, p, raw)
            && PacketSettled(c, maxMtu, tx, packet, available, rxs, raw,
                             After(c.before, Sent(c.queueId, tx, p, |list|, tx.tsoEnabled && |list| > 1, tx.gsoEnabled && |list| > 1, |packet|), raw), consumer)
  {
    GoesThrough(c.before.host, c.queueId, tx, rxs, SegmentsOf(tx, packet).list);
    hide After, Midway, CameOff, DecodeAll, SegmentsOf, Deliver, OneEach, MakeTxCompletion, AllTake, Takes;
  }

  /** A packet read and let through decides its descriptor. */
  lemma PacketSettles(c: Call, maxMtu: nat, tx: TxDescriptor, packet: seq<Byte>, available: nat, rxs: seq<RxDescriptor>, raw: seq<seq<Byte>>,
                      now: Snapshot, consumer: nat)
    requires available > 0 && HostRead(c.before.host, tx.bufferAddress, tx.length) == Some(packet) && !BadTxChecksum(tx, packet)
    requires PacketSettled(c, maxMtu, tx, packet, available, rxs, raw, now, consumer)
    ensures DescriptorSettled(c, maxMtu, tx, available, rxs, raw, now, consumer)
  {
    hide Settled, PacketOutcome, PacketSegments, BadTxChecksum;
  }

  /** The receive ring after the call, in either storage mode: the oldest descriptors taken, the others still queued. */
  lemma RxRingMoves(c: Call, maxMtu: nat, tx: TxDescriptor, count: nat, rxs: seq<RxDescriptor>, raw: seq<seq<Byte>>, now: Snapshot, consumer: nat,
                    queued: seq<seq<Byte>>, left: seq<seq<Byte>>)
    requires DescriptorSettled(c, maxMtu, tx, count, rxs, raw, now, consumer)
    requires c.before.available == count == |queued| <= c.cfg.ringSize && (count > 0 ==> c.first < c.cfg.ringSize)
    requires now.available >= 0 && |left| == now.available
    requires !c.cfg.hostBacked ==> c.before.history == c.before.taken + queued && now.history == now.taken + left
    requires c.cfg.hostBacked ==>
               queued == HostQueue(c.before.host, c.cfg, c.first, count) && left == HostQueue(now.host, c.cfg, consumer, |left|)
    ensures |raw| <= |queued|
    ensures !c.cfg.hostBacked || AllClear(c.cfg, c.decode, queued) ==> raw == queued[..|raw|] && left == queued[|raw|..]
  {
    hide DescriptorOutcome, OneEach, HostQueue, AllClear, CameOff, DecodeAll, TakenFor, Wanted;
    if c.cfg.hostBacked {
      HostRingMoves(c.cfg, c.first, count, consumer, c.before.host, c.queueId, maxMtu, tx, raw, c.decode);
    } else {
      QueueAdvanced(c.before.taken, queued, raw, left);
    }
  }

  function HeadOf(queue: seq<seq<Byte>>): seq<Byte> { if queue == [] then [] else queue[0] }

  lemma MidwayStart(s: Snapshot)
    ensures Midway(s, Progress(s.host, [], None, 0, 0), []) == s
  {
    assert s.rxOffered + [] == s.rxOffered && s.taken + [] == s.taken;
  }

  /** The n-th transmit completion is for the n-th transmit descriptor. */
  ghost predicate TxMatched(decode: seq<Byte> -> Option<TxDescriptor>, popped: seq<seq<Byte>>, offered: seq<Entry>) {
    && |offered| == |popped|
    && forall i :: 0 <= i < |popped| ==>
         decode(popped[i]).Some? && offered[i].descriptorIndex == decode(popped[i]).value.descriptorIndex
  }

  ghost predicate RxMatched(decode: seq<Byte> -> Option<RxDescriptor>, popped: seq<seq<Byte>>, offered: seq<Entry>) {
    && |offered| == |popped|
    && forall i :: 0 <= i < |popped| ==>
         decode(popped[i]).Some? && offered[i].descriptorIndex == decode(popped[i]).value.descriptorIndex
  }

  lemma TxMatchedSize(decode: seq<Byte> -> Option<TxDescriptor>, popped: seq<seq<Byte>>, offered: seq<Entry>)
    ensures TxMatched(decode, popped, offered) ==> |offered| == |popped|
  {
  }

  /** What was handed out, and what is left: taking raw off the front of a queue. */
  lemma QueueAdvanced(popped: seq<seq<Byte>>, queued: seq<seq<Byte>>, raw: seq<seq<Byte>>, left: seq<seq<Byte>>)
    ensures popped + raw + left == popped + queued ==>
              |raw| <= |queued| && raw == queued[..|raw|] && left == queued[|raw|..]
  {
    if popped + raw + left == popped + queued {
      assert queued == (popped + queued)[|popped|..] == raw + left;
    }
  }

  lemma TxMatchedOneMore(decode: seq<Byte> -> Option<TxDescriptor>, popped: seq<seq<Byte>>, offered: seq<Entry>, d: seq<Byte>, e: Entry)
    requires TxMatched(decode, popped, offered) && decode(d).Some? && e.descriptorIndex == decode(d).value.descriptorIndex
    ensures TxMatched(decode, popped + [d], offered + [e])
  {
  }

  lemma RxMatchedMore(decode: seq<Byte> -> Option<RxDescriptor>, popped: seq<seq<Byte>>, offered: seq<Entry>,
                      raw: seq<seq<Byte>>, entries: seq<Entry>)
    requires RxMatched(decode, popped, offered) && DecodeAll(decode, raw).Some? && OneEach(entries, DecodeAll(decode, raw).value)
    ensures RxMatched(decode, popped + raw, offered + entries)
  {
    hide DecodeAll;
    var rxs := DecodeAll(decode, raw).value;
    assert |rxs| == |raw| && forall i :: 0 <= i < |raw| ==> decode(raw[i]) == Some(rxs[i]);
  }

  class QueuePair {
    const queueId: U16
    const maxMtu: nat
    const decodeTx: seq<Byte> -> Option<TxDescriptor>
    const decodeRx: seq<Byte> -> Option<RxDescriptor>
    const memory: SimpleHostMemory
    const txRing: DescriptorRing
    const rxRing: DescriptorRing
    const txCompletion: CompletionQueue<Entry>
    const rxCompletion: CompletionQueue<Entry>
    var stats: Stats

    constructor (queueId: U16, maxMtu: nat, decodeTx: seq<Byte> -> Option<TxDescriptor>, decodeRx: seq<Byte> -> Option<RxDescriptor>,
                 memory: SimpleHostMemory, txConfig: RingConfig, rxConfig: RingConfig, txEntries: nat, rxEntries: nat)
      requires txConfig.ringSize < TWO_32 && txConfig.ringSize * txConfig.descriptorSize <= TWO_64
      requires rxConfig.ringSize < TWO_32 && rxConfig.ringSize * rxConfig.descriptorSize <= TWO_64
      requires txEntries < TWO_32 && rxEntries < TWO_32 && memory.buffer.Length <= TWO_64
      ensures Valid() && Matched() && this.memory == memory
      ensures txRing.config == txConfig && rxRing.config == rxConfig
      ensures this.decodeTx == decodeTx && this.decodeRx == decodeRx
      ensures txRing.Contents() == [] && rxRing.Contents() == [] && stats == Stats(0, 0, 0, 0)
    {
      this.queueId, this.maxMtu, this.decodeTx, this.decodeRx, this.memory := queueId, maxMtu, decodeTx, decodeRx, memory;
      var tx := new DescriptorRing(txConfig, memory);
      var rx := new DescriptorRing(rxConfig, memory);
      var txDone := new CompletionQueue<Entry>(txEntries);
      var rxDone := new CompletionQueue<Entry>(rxEntries);
      txRing, rxRing, txCompletion, rxCompletion := tx, rx, txDone, rxDone;
      stats := Stats(0, 0, 0, 0);
    }

    ghost predicate Valid()
      reads txRing, rxRing, txCompletion, rxCompletion, txCompletion.entries, rxCompletion.entries
    {
      && txRing.Valid() && rxRing.Valid() && txCompletion.Valid() && rxCompletion.Valid()
      && txRing.memory == memory && rxRing.memory == memory
      && txRing != rxRing && txCompletion != rxCompletion && txCompletion.entries != rxCompletion.entries
      && txRing.storage != memory.buffer && rxRing.storage != memory.buffer
    }

    /**
     * Over the whole life of the queue pair: the n-th completion offered on either side is
     * for the n-th descriptor taken from that side's ring.
     */
    ghost predicate Matched()
      reads txRing, rxRing, txCompletion, rxCompletion
    {
      && TxMatched(decodeTx, txRing.popped, txCompletion.offered)
      && RxMatched(decodeRx, rxRing.popped, rxCompletion.offered)
    }

    /** In-model rings whose slots are large enough for a descriptor: nothing to go wrong on the way. */
    ghost predicate Dependable()
      reads {}
    {
      && !txRing.config.hostBacked && !rxRing.config.hostBacked
      && (forall raw :: |raw| == txRing.config.descriptorSize ==> decodeTx(raw).Some?)
      && (forall raw :: |raw| == rxRing.config.descriptorSize ==> decodeRx(raw).Some?)
    }

    method OfferTx(entry: Entry)
      requires Valid()
      modifies txCompletion, txCompletion.entries
      ensures Valid() && txCompletion.offered == old(txCompletion.offered) + [entry]
    {
      var _ := txCompletion.PostCompletion(entry);
    }

    /** The transmit descriptor ends here with nothing delivered. */
    method Refuse(entry: Entry)
      requires Valid()
      modifies txCompletion, txCompletion.entries
      ensures Valid() && Now() == After(old(Now()), Drop(old(memory.View()), entry), [])
    {
      hide Valid;
      OfferTx(entry);
    }

    /** The transmit descriptor ends here with every segment delivered. */
    method FinalizeTxSuccess(tx: TxDescriptor, total: nat, length: nat, tso: bool, gso: bool, ghost s: Snapshot, ghost p: Progress, ghost raw: seq<seq<Byte>>)
      requires Valid() && Now() == Midway(s, p, raw)
      modifies this`stats, txCompletion, txCompletion.entries
      ensures Valid() && Now() == After(s, Sent(queueId, tx, p, total, tso, gso, length), raw)
    {
      hide Valid, MakeTxCompletion;
      OfferTx(MakeTxCompletion(queueId, tx, CompletionCode.Success, total, tso, gso));
      stats := stats.(txPackets := stats.txPackets + total, txBytes := stats.txBytes + length);
    }

    method OfferRx(entry: Entry)
      requires Valid()
      modifies rxCompletion, rxCompletion.entries
      ensures Valid() && rxCompletion.offered == old(rxCompletion.offered) + [entry]
    {
      var _ := rxCompletion.PostCompletion(entry);
    }

    ghost function Now(): Snapshot
      reads this, memory.buffer, rxRing, rxRing.storage, txCompletion, rxCompletion
    {
      Snapshot(memory.View(), txCompletion.offered, rxCompletion.offered, rxRing.popped, rxRing.count, rxRing.History(), stats)
    }

    /** The segment's way into memory: its receive completion, and the transmit status if it ends there. */
    method StoreSegment(wire: seq<Byte>, tx: TxDescriptor, rx: RxDescriptor) returns (entry: Entry, failure: Option<CompletionCode>, length: nat)
      modifies memory.buffer
      ensures Verdict(memory.View(), entry, failure) == ReceiveSegment(old(memory.View()), queueId, tx, rx, wire)
      ensures length == |Received(tx, rx, wire)|
    {
      hide Checksum.WordSum, Checksum.OnesSum, Splice;
      var segment := wire;
      if rx.vlanStrip && (tx.vlanInsert || rx.vlanPresent) && |segment| >= 4 {
        segment := segment[4..];
      }
      length := |segment|;
      if rx.bufferLength < |segment| {
        return WithVlan(tx, rx, MakeCompletion(queueId, rx.descriptorIndex, BufferTooSmall)), Some(CompletionCode.Success), length;
      }
      var written := memory.Write(rx.bufferAddress, segment);
      if !written {
        return MakeCompletion(queueId, rx.descriptorIndex, Fault), Some(Fault), length;
      }
      entry := MakeCompletion(queueId, rx.descriptorIndex, CompletionCode.Success).(groAggregated := rx.groEnabled);
      if rx.checksumOffload && rx.checksum != NoChecksum {
        entry := entry.(checksumVerified := true);
        var sum := Checksum.ComputeChecksum(segment);
        if sum != 0 {
          return entry.(status := ChecksumError), Some(CompletionCode.Success), length;
        }
      }
      entry, failure := WithVlan(tx, rx, entry), None;
    }

    /** One segment into the buffer of a receive descriptor just taken, with its completions. */
    method HandleRxSegment(wire: seq<Byte>, tx: TxDescriptor, rx: RxDescriptor, total: nat, tso: bool, gso: bool)
      returns (ok: bool)
      requires Valid()
      modifies this`stats, txCompletion, rxCompletion, txCompletion.entries, rxCompletion.entries, memory.buffer
      ensures Valid()
      ensures ok == ReceiveSegment(old(memory.View()), queueId, tx, rx, wire).failure.None?
      ensures Now() == AfterSegment(old(Now()), queueId, tx, rx, wire, total, tso, gso)
    {
      assert rxRing.storage != memory.buffer;
      hide Valid, ReceiveSegment, Received, MakeTxCompletion, DescriptorRing.History;
      var entry, failure, length := StoreSegment(wire, tx, rx);
      if failure.Some? {
        OfferTx(MakeTxCompletion(queueId, tx, failure.value, total, tso, gso));
        OfferRx(entry);
        return false;
      }
      OfferRx(entry);
      stats := stats.(rxPackets := stats.rxPackets + 1, rxBytes := stats.rxBytes + length);
      ok := true;
    }

    /** The next receive descriptor, taken off its ring and read. */
    method TakeRx() returns (rx: Option<RxDescriptor>, ghost raw: seq<Byte>)
      requires Valid()
      modifies rxRing
      ensures Valid()
      ensures rx.Some? ==> decodeRx(raw) == rx && Now() == Take(old(Now()), raw)
      ensures Now().txOffered == old(Now()).txOffered
      ensures Dependable() && old(rxRing.count) > 0 ==> rx.Some?
      ensures rx.Some? ==> rxRing.consumer == Moved(rxRing.config.ringSize, old(rxRing.consumer), 1)
      ensures rx.Some? && rxRing.config.hostBacked ==> raw == HostSlot(memory.View(), rxRing.config, old(rxRing.consumer))
    {
      hide CompletionQueue.Valid;
      raw := [];
      var slot := rxRing.PopDescriptor(rxRing.config.descriptorSize);
      match slot
      case None => rx := None;
      case Some(d) =>
        raw := d;
        rx := decodeRx(d);
    }

    /** The oldest transmit descriptor, taken off its ring and read. */
    method TakeTx() returns (tx: Option<TxDescriptor>)
      requires Valid() && txRing.count > 0
      modifies txRing
      ensures Valid()
      ensures tx.Some? ==> && tx == decodeTx(old(txRing.Contents())[0])
                           && txRing.popped == old(txRing.popped) + [old(txRing.Contents())[0]]
                           && txRing.count == old(txRing.count) - 1
                           && (!txRing.config.hostBacked ==> txRing.Stored() == old(txRing.Stored())[1..])
      ensures Dependable() ==> tx.Some?
      ensures |txRing.popped| == |old(txRing.popped)| + (if old(txRing.SlotAccessible(txRing.consumer)) then 1 else 0)
      ensures !old(txRing.SlotAccessible(txRing.consumer)) ==> txRing.popped == old(txRing.popped)
    {
      hide CompletionQueue.Valid;
      var slot := txRing.PopDescriptor(txRing.config.descriptorSize);
      match slot
      case None => tx := None;
      case Some(d) => tx := decodeTx(d);
    }

    /** What this call starts from. */
    ghost function Begun(): Call
      reads this, memory.buffer, rxRing, rxRing.storage, txCompletion, rxCompletion
    {
      Call(rxRing.config, decodeRx, queueId, rxRing.consumer, Now())
    }

    /** The segments into successive receive descriptors, up to the first failure. */
    method DeliverSegments(tx: TxDescriptor, segments: seq<seq<Byte>>, tso: bool, gso: bool)
      returns (worked: bool, all: bool, ghost raw: seq<seq<Byte>>, ghost rxs: seq<RxDescriptor>)
      requires Valid() && |segments| <= rxRing.count
      modifies this`stats, rxRing, txCompletion, rxCompletion, txCompletion.entries, rxCompletion.entries, memory.buffer
      ensures Valid()
      ensures worked && all ==> |rxs| == |segments| && Underway(old(Begun()), tx, segments, rxs, raw, Now(), rxRing.consumer)
      ensures worked && !all ==> Ended(old(Begun()), tx, segments, rxs, raw, Now(), rxRing.consumer, tso, gso)
      ensures !worked ==> Now().txOffered == old(Now()).txOffered
      ensures Dependable() ==> worked
    {
      assert |segments| > 0 ==> rxRing.consumer < rxRing.config.ringSize;
      hide Valid, Dependable, Underway, Ended, AfterSegment, OnWire, ReceiveSegment, HostSlot, Moved, Take, DescriptorRing.History, DescriptorRing.Valid;
      raw, rxs, all := [], [], true;
      ghost var c := Begun();
      UnderwayStart(c, tx, segments);
      for i := 0 to |segments|
        invariant Valid() && |rxs| == i && Underway(c, tx, segments, rxs, raw, Now(), rxRing.consumer)
      {
        UnderwayFields(c, tx, segments, rxs, raw, Now(), rxRing.consumer);
        ghost var d;
        var rx, ok;
        rx, ok, d := DeliverNext(tx, segments, i, tso, gso, c, raw, rxs);
        if rx.None? {
          return false, false, raw, rxs;
        }
        raw, rxs := raw + [d], rxs + [rx.value];
        if !ok {
          return true, false, raw, rxs;
        }
      }
      worked := true;
    }

    /** One more receive descriptor, and the next segment through it. */
    method DeliverNext(tx: TxDescriptor, segments: seq<seq<Byte>>, i: nat, tso: bool, gso: bool, ghost c: Call, ghost raw: seq<seq<Byte>>, ghost rxs: seq<RxDescriptor>)
      returns (rx: Option<RxDescriptor>, ok: bool, ghost d: seq<Byte>)
      requires Valid() && i == |rxs| < |segments| && c.cfg == rxRing.config && c.decode == decodeRx && c.queueId == queueId
      requires c.first < c.cfg.ringSize && Underway(c, tx, segments, rxs, raw, Now(), rxRing.consumer)
      modifies this`stats, rxRing, txCompletion, rxCompletion, txCompletion.entries, rxCompletion.entries, memory.buffer
      ensures Valid()
      ensures rx.None? ==> Now().txOffered == c.before.txOffered
      ensures rx.Some? && ok ==> Underway(c, tx, segments, rxs + [rx.value], raw + [d], Now(), rxRing.consumer)
      ensures rx.Some? && !ok ==> Ended(c, tx, segments, rxs + [rx.value], raw + [d], Now(), rxRing.consumer, tso, gso)
      ensures Dependable() && old(rxRing.count) > 0 ==> rx.Some?
    {
      hide Valid, Dependable, Underway, Ended, AfterSegment, OnWire, ReceiveSegment, HostSlot, Moved, Take, DescriptorRing.History;
      ghost var now, at := Now(), rxRing.consumer;
      UnderwayFields(c, tx, segments, rxs, raw, now, at);
      ok := false;
      rx, d := TakeRx();
      if rx.Some? {
        UnderwayStep(c, tx, segments, rxs, raw, now, at, rxRing.consumer, rx.value, d, tso, gso);
        ok := HandleRxSegment(OnWire(tx, segments[i]), tx, rx.value, |segments|, tso, gso);
      }
    }

    /** The packet through its limits and into the receive side. */
    method ProcessSegments(tx: TxDescriptor, packet: seq<Byte>) returns (worked: bool, ghost raw: seq<seq<Byte>>, ghost rxs: seq<RxDescriptor>)
      requires Valid()
      modifies this`stats, rxRing, txCompletion, rxCompletion, txCompletion.entries, rxCompletion.entries, memory.buffer
      ensures Valid()
      ensures worked ==> PacketSettled(old(Begun()), maxMtu, tx, packet, old(rxRing.count), rxs, raw, Now(), rxRing.consumer)
      ensures !worked ==> Now().txOffered == old(Now()).txOffered
      ensures Dependable() ==> worked
    {
      hide Valid, SegmentsOf, MakeTxCompletion, Dependable, After, Midway, Settled, Underway, Ended, Sent, Deliver;
      raw, rxs := [], [];
      ghost var c, available, wanted := Begun(), rxRing.count, PacketSegments(maxMtu, tx, packet);
      if |packet| > maxMtu {
        var entry := MakeTxCompletion(queueId, tx, MtuExceeded, 0, false, false);
        RefusalSettles(c, tx, wanted, available, entry);
        Refuse(entry);
        return true, [], [];
      }
      var cut := BuildSegments(tx, packet);
      if cut.Dropped? {
        var entry := MakeTxCompletion(queueId, tx, cut.code, 0, false, false);
        RefusalSettles(c, tx, wanted, available, entry);
        Refuse(entry);
        return true, [], [];
      }
      var total := |cut.list|;
      var tso, gso := tx.tsoEnabled && total > 1, tx.gsoEnabled && total > 1;
      if rxRing.count < total {
        var entry := MakeTxCompletion(queueId, tx, NoDescriptor, 0, tso, gso);
        RefusalSettles(c, tx, wanted, available, entry);
        Refuse(entry);
        return true, [], [];
      }
      hide PacketOutcome, PacketSegments;
      var all;
      worked, all, raw, rxs := DeliverSegments(tx, cut.list, tso, gso);
      if worked && all {
        ghost var p := Deliver(c.before.host, queueId, tx, rxs, cut.list);
        SentSettles(c, maxMtu, tx, packet, available, rxs, raw, Now(), rxRing.consumer);
        FinalizeTxSuccess(tx, total, |packet|, tso, gso, c.before, p, raw);
      } else if worked {
        StopSettles(c, maxMtu, tx, packet, available, rxs, raw, Now(), rxRing.consumer);
      }
    }

    /**
     * One transmit descriptor.  Work done means the oldest descriptor is off its ring, exactly
     * one transmit completion with its index is offered, one receive completion per receive
     * descriptor taken, and everything else is as the descriptor's outcome says; otherwise no
     * transmit completion is offered.  With dependable rings work is done iff there is any.
     */
    method ProcessOnce() returns (worked: bool, ghost raw: seq<seq<Byte>>)
      requires Valid()
      modifies this`stats, txRing, rxRing, txCompletion, rxCompletion, txCompletion.entries, rxCompletion.entries, memory.buffer
      ensures Valid()
      ensures worked ==> txRing.count == old(txRing.count) - 1 && txRing.popped == old(txRing.popped) + [old(txRing.Contents())[0]]
      ensures worked ==> decodeTx(old(txRing.Contents())[0]).Some? && DecodeAll(decodeRx, raw).Some?
      ensures worked ==>
                var tx, rxs := decodeTx(old(txRing.Contents())[0]).value, DecodeAll(decodeRx, raw).value;
                var o := DescriptorOutcome(old(memory.View()), queueId, maxMtu, tx, old(rxRing.count), rxs);
                && Now() == After(old(Now()), o, raw)
                && OneEach(o.rxEntries, rxs)
                && o.txEntry.descriptorIndex == tx.descriptorIndex
                && (o.txPackets > 0 ==> o.txPackets == |rxs|)
                && TakenFor(old(memory.View()), tx, rxs, Wanted(old(memory.View()), maxMtu, tx), old(rxRing.count))
      ensures worked && !txRing.config.hostBacked ==> txRing.Contents() == old(txRing.Contents())[1..]
      ensures worked && !rxRing.config.hostBacked ==>
                && |raw| <= |old(rxRing.Contents())|
                && raw == old(rxRing.Contents())[..|raw|] && rxRing.Contents() == old(rxRing.Contents())[|raw|..]
      ensures worked && rxRing.config.hostBacked && AllClear(rxRing.config, decodeRx, old(rxRing.Contents())) ==>
                && |raw| <= |old(rxRing.Contents())|
                && raw == old(rxRing.Contents())[..|raw|] && rxRing.Contents() == old(rxRing.Contents())[|raw|..]
      ensures !worked ==> Now().txOffered == old(Now()).txOffered
      ensures old(txRing.count) == 0 ==> !worked && Now() == old(Now())
      ensures Dependable() ==> (worked <==> old(txRing.count) > 0)
      ensures worked && old(Matched()) ==> Matched()
      ensures !worked && old(Matched()) ==> (Matched() <==> !old(txRing.count > 0 && txRing.SlotAccessible(txRing.consumer)))
    {
      RxQueueForm();
      ghost var before, popped, head := Begun(), txRing.popped, HeadOf(txRing.Contents());
      ghost var waiting, shown := rxRing.Contents(), txCompletion.offered;
      ghost var rxs;
      hide Valid, Dependable, DecodeAll, DescriptorOutcome, TakenFor, TxMatched, RxMatched, OneEach, Wanted, DescriptorRing.Stored,
        DescriptorRing.SlotAccessible, DescriptorRing.History, DescriptorRing.Contents, CameOff, HostQueue, AllClear, Queue;
      worked, raw, rxs := WorkOnce();
      TxMatchedSize(decodeTx, popped, shown);
      TxMatchedSize(decodeTx, txRing.popped, txCompletion.offered);
      if worked {
        RxQueueForm();
        ghost var tx := decodeTx(head).value;
        ghost var o := DescriptorOutcome(before.before.host, queueId, maxMtu, tx, old(rxRing.count), rxs);
        OutcomeIndex(before.before.host, queueId, maxMtu, tx, old(rxRing.count), rxs);
        RxRingMoves(before, maxMtu, tx, old(rxRing.count), rxs, raw, Now(), rxRing.consumer, waiting, rxRing.Contents());
        if old(Matched()) {
          TxMatchedOneMore(decodeTx, popped, shown, head, o.txEntry);
          RxMatchedMore(decodeRx, before.before.taken, before.before.rxOffered, raw, o.rxEntries);
        }
      }
    }

    /** The oldest transmit descriptor off its ring and through the packet path. */
    method WorkOnce() returns (worked: bool, ghost raw: seq<seq<Byte>>, ghost rxs: seq<RxDescriptor>)
      requires Valid()
      modifies this`stats, txRing, rxRing, txCompletion, rxCompletion, txCompletion.entries, rxCompletion.entries, memory.buffer
      ensures Valid()
      ensures worked ==>
                && old(txRing.count) > 0 && txRing.count == old(txRing.count) - 1
                && txRing.popped == old(txRing.popped) + [old(txRing.Contents())[0]] && decodeTx(old(txRing.Contents())[0]).Some?
                && (!txRing.config.hostBacked ==> txRing.Contents() == old(txRing.Contents())[1..])
                && DescriptorSettled(old(Begun()), maxMtu, decodeTx(old(txRing.Contents())[0]).value, old(rxRing.count), rxs, raw, Now(), rxRing.consumer)
      ensures |txRing.popped| == |old(txRing.popped)| + (if old(txRing.count > 0 && txRing.SlotAccessible(txRing.consumer)) then 1 else 0)
      ensures !old(txRing.count > 0 && txRing.SlotAccessible(txRing.consumer)) ==>
                !worked && txRing.popped == old(txRing.popped) && Now() == old(Now())
      ensures !worked ==> Now().txOffered == old(Now()).txOffered
      ensures Dependable() ==> (worked <==> old(txRing.count) > 0)
    {
      assert txRing != rxRing && txRing.Valid() && txRing.storage != memory.buffer;
      ghost var queued := txRing.Contents();
      hide Valid, Dependable, DescriptorSettled, DescriptorRing.Stored, DescriptorRing.SlotAccessible, DescriptorRing.History, DescriptorRing.Contents, Queue;
      raw, rxs := [], [];
      if txRing.count == 0 {
        return false, [], [];
      }
      var taken := TakeTx();
      if taken.None? {
        return false, [], [];
      }
      worked, raw, rxs := ProcessDescriptor(taken.value);
    }

    /** The receive ring's queue, told from its own history or from host memory. */
    lemma RxQueueForm()
      requires Valid()
      ensures rxRing.Valid() && rxRing.count <= rxRing.config.ringSize && (rxRing.count > 0 ==> rxRing.consumer < rxRing.config.ringSize)
      ensures !rxRing.config.hostBacked ==> rxRing.History() == rxRing.popped + rxRing.Contents()
      ensures rxRing.config.hostBacked ==> rxRing.Contents() == HostQueue(memory.View(), rxRing.config, rxRing.consumer, rxRing.count)
    {
      hide Queue;
    }

    method ProcessDescriptor(tx: TxDescriptor) returns (worked: bool, ghost raw: seq<seq<Byte>>, ghost rxs: seq<RxDescriptor>)
      requires Valid()
      modifies this`stats, rxRing, txCompletion, rxCompletion, txCompletion.entries, rxCompletion.entries, memory.buffer
      ensures Valid()
      ensures worked ==> DescriptorSettled(old(Begun()), maxMtu, tx, old(rxRing.count), rxs, raw, Now(), rxRing.consumer)
      ensures !worked ==> Now().txOffered == old(Now()).txOffered
      ensures Dependable() ==> worked
    {
      hide Valid, PacketOutcome, MakeTxCompletion, Dependable, After, Checksum.OnesSum, Checksum.WordSum, PacketSegments, Settled;
      raw, rxs := [], [];
      ghost var c, available, wanted := Begun(), rxRing.count, Wanted(memory.View(), maxMtu, tx);
      if rxRing.count == 0 {
        var entry := MakeTxCompletion(queueId, tx, NoDescriptor, 0, false, false);
        RefusalSettles(c, tx, wanted, available, entry);
        Refuse(entry);
        return true, [], [];
      }
      var packet := memory.Read(tx.bufferAddress, tx.length);
      if packet.None? {
        var entry := MakeTxCompletion(queueId, tx, Fault, 0, false, false);
        RefusalSettles(c, tx, wanted, available, entry);
        Refuse(entry);
        return true, [], [];
      }
      if !tx.checksumOffload && tx.checksum != NoChecksum {
        var computed := Checksum.ComputeChecksum(packet.value);
        if computed != tx.checksumValue {
          var entry := MakeTxCompletion(queueId, tx, ChecksumError, 0, false, false);
          RefusalSettles(c, tx, wanted, available, entry);
          Refuse(entry);
          return true, [], [];
        }
      }
      worked, raw, rxs := ProcessSegments(tx, packet.value);
      if worked {
        PacketSettles(c, maxMtu, tx, packet.value, available, rxs, raw, Now(), rxRing.consumer);
      }
    }
  }

  lemma NothingDecoded(decode: seq<Byte> -> Option<RxDescriptor>)
    ensures DecodeAll(decode, []) == Some([])
  {
  }

  lemma NothingDelivered(h: Host, queueId: U16, tx: TxDescriptor, segments: seq<seq<Byte>>)
    ensures Deliver(h, queueId, tx, [], segments) == Progress(h, [], None, 0, 0)
  {
  }

  /** A delivery that ends with its last descriptor has matched every descriptor all the same. */
  lemma EntriesMatch(h: Host, queueId: U16, tx: TxDescriptor, rxs: seq<RxDescriptor>, rx: RxDescriptor, segments: seq<seq<Byte>>)
    requires |rxs| < |segments| && Deliver(h, queueId, tx, rxs, segments).failure.None?
    ensures OneEach(Deliver(h, queueId, tx, rxs + [rx], segments).entries, rxs + [rx])
  {
    hide Deliver, Advance, AllTake, Takes;
    DeliversIff(h, queueId, tx, rxs, segments);
    DeliverOneMore(h, queueId, tx, rxs, rx, segments);
    AdvanceExact(Deliver(h, queueId, tx, rxs, segments), queueId, tx, rx, segments[|rxs|]);
  }
}
