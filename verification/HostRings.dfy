/**
 * A receive ring that lives in the same host memory the segments are written to: which
 * descriptors a delivery takes off it, and when they are the ones that were queued.
 */
module HostRings {
  import opened Common
  import Bits
  import opened HostMemory
  import opened Segmentation
  import opened Rings
  import opened DataPath

  /** n slots further on; no step at all for an empty ring. */
  function Moved(ringSize: nat, index: nat, n: nat): nat {
    if n == 0 || ringSize == 0 then index else Around(ringSize, index, n)
  }

  /** The slot a host-backed ring reads when its consumer index stands there. */
  function HostSlot(h: Host, cfg: RingConfig, slot: nat): seq<Byte> {
    Slot(h.bytes, cfg.baseAddress, cfg.descriptorSize, slot)
  }

  /**
   * raw was read off the ring from index first on, one slot before each segment, each from
   * memory as the segments before had left it.
   */
  ghost predicate ReadOff(cfg: RingConfig, first: nat, h: Host, queueId: U16, tx: TxDescriptor, rxs: seq<RxDescriptor>,
                          segments: seq<seq<Byte>>, raw: seq<seq<Byte>>) {
    && |raw| == |rxs| <= |segments|
    && forall i :: 0 <= i < |raw| ==>
         raw[i] == HostSlot(Deliver(h, queueId, tx, rxs[..i], segments).host, cfg, Moved(cfg.ringSize, first, i))
  }

  lemma ReadOffStep(cfg: RingConfig, first: nat, h: Host, queueId: U16, tx: TxDescriptor, rxs: seq<RxDescriptor>,
                    segments: seq<seq<Byte>>, raw: seq<seq<Byte>>, rx: RxDescriptor, d: seq<Byte>)
    requires ReadOff(cfg, first, h, queueId, tx, rxs, segments, raw) && |rxs| < |segments|
    requires d == HostSlot(Deliver(h, queueId, tx, rxs, segments).host, cfg, Moved(cfg.ringSize, first, |raw|))
    ensures ReadOff(cfg, first, h, queueId, tx, rxs + [rx], segments, raw + [d])
  {
    hide Deliver, HostSlot, Moved;
    var more := rxs + [rx];
    assert forall i :: 0 <= i <= |rxs| ==> more[..i] == rxs[..i];
    assert rxs[..|rxs|] == rxs;
  }

  /** raw came off the ring in ring order, moving its consumer index from first to consumer. */
  ghost predicate CameOff(cfg: RingConfig, queueId: U16, first: nat, consumer: nat, h: Host, tx: TxDescriptor, rxs: seq<RxDescriptor>,
                          segments: seq<seq<Byte>>, raw: seq<seq<Byte>>) {
    && consumer == Moved(cfg.ringSize, first, |raw|)
    && (cfg.hostBacked ==> ReadOff(cfg, first, h, queueId, tx, rxs, segments, raw))
  }

  lemma NothingOff(cfg: RingConfig, queueId: U16, first: nat, h: Host, tx: TxDescriptor, segments: seq<seq<Byte>>)
    ensures CameOff(cfg, queueId, first, first, h, tx, [], segments, [])
  {
  }

  lemma OneMoreOff(cfg: RingConfig, queueId: U16, first: nat, consumer: nat, consumer': nat, h: Host, tx: TxDescriptor, rxs: seq<RxDescriptor>,
                   segments: seq<seq<Byte>>, raw: seq<seq<Byte>>, rx: RxDescriptor, d: seq<Byte>)
    requires CameOff(cfg, queueId, first, consumer, h, tx, rxs, segments, raw) && |rxs| < |segments| && first < cfg.ringSize
    requires consumer' == Moved(cfg.ringSize, consumer, 1) && |raw| == |rxs|
    requires cfg.hostBacked ==> d == HostSlot(Deliver(h, queueId, tx, rxs, segments).host, cfg, consumer)
    ensures CameOff(cfg, queueId, first, consumer', h, tx, rxs + [rx], segments, raw + [d])
  {
    hide Deliver, HostSlot, ReadOff, Moved;
    MovedTwice(cfg.ringSize, first, |raw|, 1);
    if cfg.hostBacked {
      ReadOffStep(cfg, first, h, queueId, tx, rxs, segments, raw, rx, d);
    }
  }

  /** The receive buffer keeps clear of every slot of the ring. */
  predicate ClearOf(cfg: RingConfig, rx: RxDescriptor) {
    forall i :: 0 <= i < cfg.ringSize ==>
      var a := SlotAddress(cfg.baseAddress, cfg.descriptorSize, i);
      a + cfg.descriptorSize <= rx.bufferAddress || rx.bufferAddress + rx.bufferLength <= a
  }

  /** A segment changes at most the buffer of its descriptor. */
  lemma AdvanceWrites(p: Progress, queueId: U16, tx: TxDescriptor, rx: RxDescriptor, segment: seq<Byte>)
    ensures var q, data := Advance(p, queueId, tx, rx, segment), DataFor(tx, rx, segment);
            || q.host == p.host
            || (|data| <= rx.bufferLength && rx.bufferAddress + |data| <= |p.host.bytes|
                && q.host.bytes == Splice(p.host.bytes, rx.bufferAddress, data))
  {
    hide ChecksumOf, Splice;
  }

  lemma AdvanceKeepsSlot(p: Progress, queueId: U16, tx: TxDescriptor, rx: RxDescriptor, segment: seq<Byte>, cfg: RingConfig, slot: nat)
    requires slot < cfg.ringSize && ClearOf(cfg, rx)
    ensures HostSlot(Advance(p, queueId, tx, rx, segment).host, cfg, slot) == HostSlot(p.host, cfg, slot)
  {
    hide Advance, Slot, SlotAddress, Splice;
    AdvanceWrites(p, queueId, tx, rx, segment);
    var data := DataFor(tx, rx, segment);
    hide DataFor;
    var a := SlotAddress(cfg.baseAddress, cfg.descriptorSize, slot);
    assert a + cfg.descriptorSize <= rx.bufferAddress || rx.bufferAddress + rx.bufferLength <= a;
    if |data| <= rx.bufferLength && rx.bufferAddress + |data| <= |p.host.bytes| {
      SlotUntouched(p.host.bytes, cfg.baseAddress, cfg.descriptorSize, slot, rx.bufferAddress, data);
    }
  }

  /** Buffers clear of the ring: delivering into them leaves every slot as it was. */
  lemma {:induction false} SlotsKept(h: Host, queueId: U16, tx: TxDescriptor, rxs: seq<RxDescriptor>, segments: seq<seq<Byte>>, cfg: RingConfig, slot: nat)
    requires |rxs| <= |segments| && slot < cfg.ringSize && forall i :: 0 <= i < |rxs| ==> ClearOf(cfg, rxs[i])
    ensures HostSlot(Deliver(h, queueId, tx, rxs, segments).host, cfg, slot) == HostSlot(h, cfg, slot)
    decreases |rxs|
  {
    hide Advance, HostSlot, ClearOf;
    if rxs != [] {
      var n := |rxs| - 1;
      SlotsKept(h, queueId, tx, rxs[..n], segments, cfg, slot);
      AdvanceKeepsSlot(Deliver(h, queueId, tx, rxs[..n], segments), queueId, tx, rxs[n], segments[n], cfg, slot);
    }
  }

  /** Every descriptor queued in the ring points to a buffer clear of it. */
  ghost predicate AllClear(cfg: RingConfig, decode: seq<Byte> -> Option<RxDescriptor>, queued: seq<seq<Byte>>) {
    forall i :: 0 <= i < |queued| && decode(queued[i]).Some? ==> ClearOf(cfg, decode(queued[i]).value)
  }

  /** The queue a host-backed ring holds. */
  function HostQueue(h: Host, cfg: RingConfig, consumer: nat, count: nat): (q: seq<seq<Byte>>)
    requires count > 0 ==> cfg.ringSize > 0
    ensures |q| == count
  {
    Queue(h.bytes, cfg.baseAddress, cfg.descriptorSize, cfg.ringSize, consumer, count)
  }

  lemma HostQueueAt(h: Host, cfg: RingConfig, consumer: nat, count: nat, i: nat)
    requires consumer < cfg.ringSize && i < count
    ensures HostQueue(h, cfg, consumer, count)[i] == HostSlot(h, cfg, Moved(cfg.ringSize, consumer, i))
    ensures Moved(cfg.ringSize, consumer, i) < cfg.ringSize
  {
    hide Slot, Around;
    AroundStep(cfg.ringSize, consumer, 0);
  }

  /** With buffers clear of the ring, what was read off it is what was queued, from the front. */
  lemma {:induction false} ReadOffIsQueued(cfg: RingConfig, first: nat, count: nat, h: Host, queueId: U16, tx: TxDescriptor, rxs: seq<RxDescriptor>,
                                           segments: seq<seq<Byte>>, raw: seq<seq<Byte>>, decode: seq<Byte> -> Option<RxDescriptor>, n: nat)
    requires ReadOff(cfg, first, h, queueId, tx, rxs, segments, raw) && DecodeAll(decode, raw) == Some(rxs)
    requires first < cfg.ringSize && n <= |raw| <= count && AllClear(cfg, decode, HostQueue(h, cfg, first, count))
    ensures raw[..n] == HostQueue(h, cfg, first, count)[..n]
    ensures forall i :: 0 <= i < n ==> ClearOf(cfg, rxs[i])
    decreases n
  {
    hide Deliver, HostSlot, HostQueue, Moved, ClearOf, DecodeAll;
    if n > 0 {
      ReadOffIsQueued(cfg, first, count, h, queueId, tx, rxs, segments, raw, decode, n - 1);
      var i := n - 1;
      var queued := HostQueue(h, cfg, first, count);
      HostQueueAt(h, cfg, first, count, i);
      SlotsKept(h, queueId, tx, rxs[..i], segments, cfg, Moved(cfg.ringSize, first, i));
      assert raw[i] == queued[i];
      assert decode(raw[i]) == Some(rxs[i]);
      assert raw[..n] == raw[..i] + [raw[i]] && queued[..n] == queued[..i] + [queued[i]];
    }
  }

  /** And what is left is the rest of the queue. */
  lemma RestIsQueued(cfg: RingConfig, first: nat, count: nat, h: Host, queueId: U16, tx: TxDescriptor, rxs: seq<RxDescriptor>, segments: seq<seq<Byte>>)
    requires first < cfg.ringSize && |rxs| <= count && |rxs| <= |segments| && forall i :: 0 <= i < |rxs| ==> ClearOf(cfg, rxs[i])
    ensures var n := |rxs|;
            HostQueue(Deliver(h, queueId, tx, rxs, segments).host, cfg, Moved(cfg.ringSize, first, n), count - n)
            == HostQueue(h, cfg, first, count)[n..]
  {
    hide Deliver, HostSlot, HostQueue, Moved, ClearOf;
    var n := |rxs|;
    var h' := Deliver(h, queueId, tx, rxs, segments).host;
    var at := Moved(cfg.ringSize, first, n);
    MovedStays(cfg.ringSize, first, n);
    var left, rest := HostQueue(h', cfg, at, count - n), HostQueue(h, cfg, first, count)[n..];
    forall k | 0 <= k < |left| ensures left[k] == rest[k] {
      HostQueueAt(h', cfg, at, count - n, k);
      HostQueueAt(h, cfg, first, count, n + k);
      MovedTwice(cfg.ringSize, first, n, k);
      SlotsKept(h, queueId, tx, rxs, segments, cfg, Moved(cfg.ringSize, first, n + k));
    }
  }

  /** The memory a descriptor leaves behind is that of delivering into the receive descriptors it took. */
  lemma OutcomeHost(h: Host, queueId: U16, maxMtu: nat, tx: TxDescriptor, available: nat, rxs: seq<RxDescriptor>)
    requires TakenFor(h, tx, rxs, Wanted(h, maxMtu, tx), available) && |rxs| <= |Wanted(h, maxMtu, tx)|
    ensures DescriptorOutcome(h, queueId, maxMtu, tx, available, rxs).host == Deliver(h, queueId, tx, rxs, Wanted(h, maxMtu, tx)).host
  {
    var s := Wanted(h, maxMtu, tx);
    if s == [] {
      RefusedCases(h, queueId, maxMtu, tx, available, rxs);
    } else {
      OutcomeCases(h, queueId, maxMtu, tx, available, rxs);
    }
    hide DescriptorOutcome, Wanted, AllTake, Takes;
  }

  /**
   * A ring in host memory whose queued descriptors all point clear of it: the descriptors taken
   * are the oldest ones, and the ring holds exactly the rest.
   */
  lemma ClearRingAdvances(cfg: RingConfig, first: nat, count: nat, h: Host, queueId: U16, tx: TxDescriptor, rxs: seq<RxDescriptor>,
                          segments: seq<seq<Byte>>, raw: seq<seq<Byte>>, decode: seq<Byte> -> Option<RxDescriptor>)
    requires ReadOff(cfg, first, h, queueId, tx, rxs, segments, raw) && DecodeAll(decode, raw) == Some(rxs)
    requires first < cfg.ringSize && |raw| <= count && AllClear(cfg, decode, HostQueue(h, cfg, first, count))
    ensures var n, queued := |raw|, HostQueue(h, cfg, first, count);
            && raw == queued[..n]
            && HostQueue(Deliver(h, queueId, tx, rxs, segments).host, cfg, Moved(cfg.ringSize, first, n), count - n) == queued[n..]
  {
    ReadOffIsQueued(cfg, first, count, h, queueId, tx, rxs, segments, raw, decode, |raw|);
    assert raw[..|raw|] == raw;
    RestIsQueued(cfg, first, count, h, queueId, tx, rxs, segments);
  }

  /** The same for a whole transmit descriptor, down to the memory it leaves behind. */
  lemma HostRingMoves(cfg: RingConfig, first: nat, count: nat, consumer: nat, h: Host, queueId: U16, maxMtu: nat, tx: TxDescriptor,
                      raw: seq<seq<Byte>>, decode: seq<Byte> -> Option<RxDescriptor>)
    requires cfg.hostBacked && DecodeAll(decode, raw).Some? && count <= cfg.ringSize && (count > 0 ==> first < cfg.ringSize)
    requires var rxs := DecodeAll(decode, raw).value; var s := Wanted(h, maxMtu, tx);
             TakenFor(h, tx, rxs, s, count) && CameOff(cfg, queueId, first, consumer, h, tx, rxs, s, raw)
    ensures |raw| <= count
    ensures var h' := DescriptorOutcome(h, queueId, maxMtu, tx, count, DecodeAll(decode, raw).value).host;
            var queued := HostQueue(h, cfg, first, count);
            AllClear(cfg, decode, queued) ==> raw == queued[..|raw|] && HostQueue(h', cfg, consumer, count - |raw|) == queued[|raw|..]
  {
    var rxs, s := DecodeAll(decode, raw).value, Wanted(h, maxMtu, tx);
    assert |rxs| <= |s| && |rxs| <= count by { hide Wanted, AllTake, Takes, ReadOff; }
    hide Wanted, AllTake, Takes, ReadOff, TakenFor, DecodeAll, DescriptorOutcome, HostQueue, AllClear, Deliver;
    OutcomeHost(h, queueId, maxMtu, tx, count, rxs);
    if AllClear(cfg, decode, HostQueue(h, cfg, first, count)) {
      if raw == [] {
        NothingMoved(h, queueId, tx, s);
        assert rxs == [];
      } else {
        ClearRingAdvances(cfg, first, count, h, queueId, tx, rxs, s, raw, decode);
      }
    }
  }

  lemma NothingMoved(h: Host, queueId: U16, tx: TxDescriptor, segments: seq<seq<Byte>>)
    ensures Deliver(h, queueId, tx, [], segments).host == h
  {
  }

  lemma MovedStays(ringSize: nat, index: nat, n: nat)
    requires index < ringSize
    ensures Moved(ringSize, index, n) < ringSize
  {
  }

  lemma MovedTwice(ringSize: nat, index: nat, n: nat, k: nat)
    requires index < ringSize
    ensures Moved(ringSize, Moved(ringSize, index, n), k) == Moved(ringSize, index, n + k)
  {
    Bits.ModAdd(index + n, k, ringSize);
    assert (index + n) % ringSize + k == Around(ringSize, index, n) + k;
  }
}
