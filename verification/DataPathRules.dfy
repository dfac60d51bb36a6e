/** What the receiver finds and what the completions say, field by field and cause by cause. */
module DataPathRules {
  import opened Common
  import opened HostMemory
  import opened Segmentation
  import opened DataPath

  // ---------------------------------------------------------------------------
  // VLAN headers
  // ---------------------------------------------------------------------------

  /** A VLAN header inserted on the way out and stripped on the way in is never seen; otherwise it is four bytes, tag last. */
  lemma VlanBytes(tx: TxDescriptor, rx: RxDescriptor, segment: seq<Byte>)
    ensures var data := DataFor(tx, rx, segment);
            && (tx.vlanInsert == rx.vlanStrip && (tx.vlanInsert || !rx.vlanPresent) ==> data == segment)
            && (tx.vlanInsert && !rx.vlanStrip ==>
                  && |data| == |segment| + 4 && data[4..] == segment
                  && data[0] == 0x81 && data[1] == 0 && data[2] as int * 256 + data[3] == tx.vlanTag)
            && (!tx.vlanInsert && rx.vlanStrip ==>
                  data == if rx.vlanPresent && |segment| >= 4 then segment[4..] else segment)
            && (!tx.vlanInsert && !rx.vlanStrip ==> data == segment)
  {
  }

  // ---------------------------------------------------------------------------
  // The receive completion
  // ---------------------------------------------------------------------------

  /** The tag reported with a stripped header: the one sent, else the one in the receive descriptor. */
  function StrippedTag(tx: TxDescriptor, rx: RxDescriptor): U16 { if tx.vlanInsert then tx.vlanTag else rx.vlanTag }

  /** One receive completion, for every way a segment can fare, and what is in memory then. */
  lemma RxCompletion(h: Host, queueId: U16, tx: TxDescriptor, rx: RxDescriptor, segment: seq<Byte>)
    ensures var v, data := ReceiveSegment(h, queueId, tx, rx, OnWire(tx, segment)), DataFor(tx, rx, segment);
            var strips := rx.vlanStrip && (tx.vlanInsert || rx.vlanPresent);
            var checks := rx.checksumOffload && !rx.checksum.NoChecksum?;
            var tag := if strips then StrippedTag(tx, rx) else 0;
            var at := rx.descriptorIndex;
            if |data| > rx.bufferLength then
              v.host == h && v.entry == Entry(queueId, at, BufferTooSmall, false, false, false, false, false, strips, false, 1, tag)
            else if !Accessible(h, rx.bufferAddress, |data|) then
              v.host == h && v.entry == Entry(queueId, at, Fault, false, false, false, false, false, false, false, 1, 0)
            else
              && v.host == h.(bytes := Splice(h.bytes, rx.bufferAddress, data))
              && v.entry == if checks && ChecksumOf(data) != 0
                            then Entry(queueId, at, ChecksumError, false, true, false, false, false, false, rx.groEnabled, 1, 0)
                            else Entry(queueId, at, CompletionCode.Success, false, checks, false, false, false, strips, rx.groEnabled, 1, tag)
  {
    hide ChecksumOf, Splice, OnWire, Received;
  }

  // ---------------------------------------------------------------------------
  // The transmit completion
  // ---------------------------------------------------------------------------

  /** Everything about a transmit completion but its status. */
  predicate TxEntryFor(e: Entry, queueId: U16, tx: TxDescriptor, segments: nat, tso: bool, gso: bool) {
    e == Entry(queueId, tx.descriptorIndex, e.status, tx.checksumOffload, false, tso, gso, tx.vlanInsert, false, false,
               Min(segments, 65535), if tx.vlanInsert then tx.vlanTag else 0)
  }

  /** Which status a refused descriptor gets, in the order the causes are looked for. */
  function RefusalCode(h: Host, maxMtu: nat, tx: TxDescriptor, available: nat): Option<CompletionCode> {
    if available == 0 then Some(NoDescriptor)
    else if !Accessible(h, tx.bufferAddress, tx.length) then Some(Fault)
    else if BadTxChecksum(tx, HostRead(h, tx.bufferAddress, tx.length).value) then Some(ChecksumError)
    else if tx.length > maxMtu then Some(MtuExceeded)
    else if !((tx.tsoEnabled || tx.gsoEnabled) && 0 < tx.mss < tx.length) then None
    else if tx.mss > 9000 || tx.headerLength > tx.length then Some(InvalidMss)
    else if tx.length - tx.headerLength > 64 * tx.mss as int then Some(TooManySegments)
    else None
  }

  /** A descriptor is refused whole exactly for these causes, with this status and nothing delivered or counted. */
  lemma RefusalTable(h: Host, queueId: U16, maxMtu: nat, tx: TxDescriptor, available: nat, rxs: seq<RxDescriptor>)
    ensures var code, o := RefusalCode(h, maxMtu, tx, available), DescriptorOutcome(h, queueId, maxMtu, tx, available, rxs);
            && (code.None? <==> available > 0 && Wanted(h, maxMtu, tx) != [])
            && (code.Some? ==> o.txEntry.status == code.value && TxEntryFor(o.txEntry, queueId, tx, 0, false, false) && o == Drop(h, o.txEntry))
  {
    WantedExact(h, maxMtu, tx);
    if Accessible(h, tx.bufferAddress, tx.length) {
      DroppedIffLimitBroken(tx, HostRead(h, tx.bufferAddress, tx.length).value);
      DropCodes(tx, HostRead(h, tx.bufferAddress, tx.length).value);
    }
    hide Deliver, BadTxChecksum, SegmentsOf, TotalLength, Stopped, Sent;
  }

  lemma DropCodes(tx: TxDescriptor, packet: seq<Byte>)
    ensures SegmentsOf(tx, packet).Dropped? ==> SegmentsOf(tx, packet).code in {InvalidMss, TooManySegments}
  {
    hide Headed;
  }

  /** A descriptor that is not refused: what its completion says beside the status. */
  lemma TxCompletion(h: Host, queueId: U16, maxMtu: nat, tx: TxDescriptor, available: nat, rxs: seq<RxDescriptor>)
    requires Wanted(h, maxMtu, tx) != [] && available > 0 && |rxs| <= |Wanted(h, maxMtu, tx)|
    ensures var n, e := |Wanted(h, maxMtu, tx)|, DescriptorOutcome(h, queueId, maxMtu, tx, available, rxs).txEntry;
            TxEntryFor(e, queueId, tx, if available < n then 0 else n, tx.tsoEnabled && n > 1, tx.gsoEnabled && n > 1)
  {
    hide Deliver, BadTxChecksum, SegmentsOf;
  }

  // ---------------------------------------------------------------------------
  // Received bytes
  // ---------------------------------------------------------------------------

  /** The bytes the first n buffers are given. */
  function BytesFor(tx: TxDescriptor, rxs: seq<RxDescriptor>, segments: seq<seq<Byte>>, n: nat): nat
    requires n <= |rxs| <= |segments|
  {
    if n == 0 then 0 else BytesFor(tx, rxs, segments, n - 1) + |DataFor(tx, rxs[n - 1], segments[n - 1])|
  }

  /** However a delivery ends, the bytes counted as received are those in the buffers counted as delivered. */
  lemma {:induction false} BytesCounted(h: Host, queueId: U16, tx: TxDescriptor, rxs: seq<RxDescriptor>, segments: seq<seq<Byte>>)
    requires |rxs| <= |segments|
    ensures var p := Deliver(h, queueId, tx, rxs, segments);
            p.packets <= |rxs| && p.bytes == BytesFor(tx, rxs, segments, p.packets) && (p.failure.None? ==> p.packets == |rxs|)
    decreases |rxs|
  {
    if rxs != [] {
      hide Advance, DataFor;
      var n := |rxs| - 1;
      var p := Deliver(h, queueId, tx, rxs[..n], segments);
      BytesCounted(h, queueId, tx, rxs[..n], segments);
      BytesPrefix(tx, rxs, segments, p.packets);
      if p.failure.None? {
        StepCounts(p, queueId, tx, rxs[n], segments[n]);
      }
    }
  }

  lemma StepCounts(p: Progress, queueId: U16, tx: TxDescriptor, rx: RxDescriptor, segment: seq<Byte>)
    ensures var q := Advance(p, queueId, tx, rx, segment);
            if q.failure.None? then q.packets == p.packets + 1 && q.bytes == p.bytes + |DataFor(tx, rx, segment)|
            else q.packets == p.packets && q.bytes == p.bytes
  {
    hide ReceiveSegment, Received;
  }

  lemma {:induction false} BytesPrefix(tx: TxDescriptor, rxs: seq<RxDescriptor>, segments: seq<seq<Byte>>, n: nat)
    requires n < |rxs| <= |segments|
    ensures BytesFor(tx, rxs[..|rxs| - 1], segments, n) == BytesFor(tx, rxs, segments, n)
  {
    if n > 0 {
      BytesPrefix(tx, rxs, segments, n - 1);
    }
  }
}
