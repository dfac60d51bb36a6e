/** Cutting a transmit packet into segments that repeat its header. */
module Segmentation {
  import opened Common
  import opened RoceTypes
  import Bits

  datatype ChecksumMode = NoChecksum | Layer3 | Layer4

  datatype CompletionCode =
    | Success
    | BufferTooSmall
    | ChecksumError
    | NoDescriptor
    | Fault
    | MtuExceeded
    | InvalidMss
    | TooManySegments

  datatype TxDescriptor = TxDescriptor(bufferAddress: U64, length: U32, checksum: ChecksumMode, descriptorIndex: U16,
                                       checksumValue: U16, checksumOffload: bool, tsoEnabled: bool, gsoEnabled: bool,
                                       mss: U16, headerLength: U16, vlanInsert: bool, vlanTag: U16)

  const MAX_TSO_SEGMENTS: nat := 64
  const MIN_MSS: nat := 1
  const MAX_MSS: nat := 9000

  datatype Segmented = Segments(list: seq<seq<Byte>>) | Dropped(code: CompletionCode)

  predicate SegmentationEnabled(tx: TxDescriptor, length: nat) {
    (tx.tsoEnabled || tx.gsoEnabled) && tx.mss > 0 && length > tx.mss
  }

  /** How many chunks of at most mss bytes carry length bytes. */
  function ChunkCount(length: nat, mss: nat): nat
    requires mss > 0
  {
    (length + mss - 1) / mss
  }

  /** The header in front of each slice of the payload, for the first n slices. */
  function Headed(header: seq<Byte>, payload: seq<Byte>, mss: nat, n: nat): (r: seq<seq<Byte>>)
    ensures |r| == n && forall i :: 0 <= i < n ==> r[i] == header + Slice(payload, mss, i)
  {
    seq(n, i requires 0 <= i < n => header + Slice(payload, mss, i))
  }

  /** What a packet becomes: itself, its segments, or nothing at all. */
  function SegmentsOf(tx: TxDescriptor, packet: seq<Byte>): Segmented {
    if !SegmentationEnabled(tx, |packet|) then Segments([packet])
    else if tx.mss > MAX_MSS || tx.headerLength > |packet| then Dropped(InvalidMss)
    else if tx.headerLength == |packet| then Segments([packet])
    else
      var header, payload := packet[..tx.headerLength], packet[tx.headerLength..];
      var n := ChunkCount(|payload|, tx.mss);
      if n > MAX_TSO_SEGMENTS then Dropped(TooManySegments) else Segments(Headed(header, payload, tx.mss, n))
  }

  method BuildSegments(tx: TxDescriptor, packet: seq<Byte>) returns (r: Segmented)
    ensures r == SegmentsOf(tx, packet)
  {
    if !SegmentationEnabled(tx, |packet|) {
      return Segments([packet]);
    }
    if tx.mss < MIN_MSS || tx.mss > MAX_MSS {
      return Dropped(InvalidMss);
    }
    if tx.headerLength > |packet| {
      return Dropped(InvalidMss);
    }
    hide Headed, ChunkCount, Covers;
    var header := packet[..tx.headerLength];
    var segments: seq<seq<Byte>> := [];
    var payloadOffset: nat := tx.headerLength;
    ghost var payload, mss: nat := packet[tx.headerLength..], tx.mss;
    if payloadOffset >= |packet| {
      segments := [packet];
    } else {
      ghost var n := ChunkCount(|payload|, mss);
      CeilingCovers(|payload|, mss);
      while payloadOffset < |packet|
        invariant |segments| <= n
        invariant tx.headerLength <= payloadOffset <= |packet|
        invariant payloadOffset - tx.headerLength == Min(|segments| * mss, |payload|)
        invariant segments == Headed(header, payload, mss, |segments|)
      {
        ghost var k := |segments|;
        var chunk := Min(tx.mss, |packet| - payloadOffset);
        ChunkStep(n, |payload|, mss, k);
        HeadedOneMore(header, payload, mss, k);
        assert packet[payloadOffset..payloadOffset + chunk] == Slice(payload, mss, k);
        segments := segments + [header + packet[payloadOffset..payloadOffset + chunk]];
        payloadOffset := payloadOffset + chunk;
      }
      AllCut(n, |payload|, mss, |segments|);
    }
    if |segments| > MAX_TSO_SEGMENTS {
      return Dropped(TooManySegments);
    }
    r := Segments(segments);
  }

  lemma ChunkStep(n: nat, length: nat, mss: nat, k: nat)
    requires Covers(n, length, mss) && k <= n && Min(k * mss, length) < length
    ensures k < n && k * mss < length
    ensures Min((k + 1) * mss, length) == k * mss + Min(mss, length - k * mss)
  {
    if k < n {
      OffsetStep(n, length, mss, k);
    }
  }

  lemma AllCut(n: nat, length: nat, mss: nat, k: nat)
    requires Covers(n, length, mss) && k <= n && length > 0 && Min(k * mss, length) == length
    ensures k == n
  {
    if k < n {
      MulMonotone(k, n - 1, mss);
    }
  }

  // ---------------------------------------------------------------------------
  // What segmentation means
  // ---------------------------------------------------------------------------

  /** The segments' payloads in order, each without its header. */
  function Payloads(segments: seq<seq<Byte>>, headerLength: nat): seq<Byte> {
    if segments == [] then [] else
    var s := segments[|segments| - 1];
    Payloads(segments[..|segments| - 1], headerLength) + if headerLength <= |s| then s[headerLength..] else []
  }

  function TotalLength(segments: seq<seq<Byte>>): nat {
    if segments == [] then 0 else TotalLength(segments[..|segments| - 1]) + |segments[|segments| - 1]|
  }

  lemma JoinOneMore(segments: seq<seq<Byte>>, header: seq<Byte>, chunk: seq<Byte>)
    ensures Payloads(segments + [header + chunk], |header|) == Payloads(segments, |header|) + chunk
    ensures TotalLength(segments + [header + chunk]) == TotalLength(segments) + |header| + |chunk|
  {
    var all := segments + [header + chunk];
    assert all[..|all| - 1] == segments && all[|all| - 1] == header + chunk;
    assert (header + chunk)[|header|..] == chunk;
  }

  lemma HeadedOneMore(header: seq<Byte>, payload: seq<Byte>, mss: nat, k: nat)
    ensures Headed(header, payload, mss, k + 1) == Headed(header, payload, mss, k) + [header + Slice(payload, mss, k)]
  {
  }

  lemma SliceOneMore(payload: seq<Byte>, mss: nat, n: nat, k: nat)
    requires Covers(n, |payload|, mss) && k < n
    ensures payload[..Min(k * mss, |payload|)] + Slice(payload, mss, k) == payload[..Min((k + 1) * mss, |payload|)]
    ensures Min(k * mss, |payload|) + |Slice(payload, mss, k)| == Min((k + 1) * mss, |payload|)
  {
    OffsetStep(n, |payload|, mss, k);
  }

  lemma {:induction false} HeadedJoins(header: seq<Byte>, payload: seq<Byte>, mss: nat, n: nat, k: nat)
    requires Covers(n, |payload|, mss) && k <= n
    ensures Payloads(Headed(header, payload, mss, k), |header|) == payload[..Min(k * mss, |payload|)]
    ensures TotalLength(Headed(header, payload, mss, k)) == k * |header| + Min(k * mss, |payload|)
  {
    if k > 0 {
      hide Headed, Payloads, TotalLength, Slice, Covers;
      HeadedJoins(header, payload, mss, n, k - 1);
      HeadedOneMore(header, payload, mss, k - 1);
      SliceOneMore(payload, mss, n, k - 1);
      JoinOneMore(Headed(header, payload, mss, k - 1), header, Slice(payload, mss, k - 1));
      assert k * |header| == (k - 1) * |header| + |header|;
    }
  }

  /**
   * Each segment begins with the header, all but the last carry exactly mss payload bytes
   * and the last carries at least one, and the payloads join up to the whole payload.
   */
  ghost predicate CutUp(s: seq<seq<Byte>>, header: seq<Byte>, payload: seq<Byte>, mss: nat) {
    && (forall i :: 0 <= i < |s| ==> |header| < |s[i]| <= |header| + mss && s[i][..|header|] == header)
    && (forall i :: 0 <= i < |s| - 1 ==> |s[i]| == |header| + mss)
    && Payloads(s, |header|) == payload
  }

  lemma HeadedExact(header: seq<Byte>, payload: seq<Byte>, mss: nat)
    requires mss > 0 && |payload| > 0
    ensures var n := ChunkCount(|payload|, mss); var s := Headed(header, payload, mss, n);
            && n >= 1
            && CutUp(s, header, payload, mss)
            && TotalLength(s) == |header| + |payload| + (n - 1) * |header|
            && (n == 1 ==> s == [header + payload])
  {
    hide ChunkCount, Payloads, TotalLength;
    var n := ChunkCount(|payload|, mss);
    ChunkCountLeast(|payload|, mss, 1);
    HeadedJoins(header, payload, mss, n, n);
    assert payload[..|payload|] == payload;
    assert n * |header| == (n - 1) * |header| + |header|;
    var s := Headed(header, payload, mss, n);
    forall i | 0 <= i < n
      ensures |header| < |s[i]| <= |header| + mss && s[i][..|header|] == header && (i < n - 1 ==> |s[i]| == |header| + mss)
    {
      SegmentSize(header, payload, mss, n, i);
    }
    if n == 1 {
      assert Slice(payload, mss, 0) == payload;
    }
  }

  /** The condition under which an enabled segmentation drops the whole packet. */
  predicate BreaksALimit(tx: TxDescriptor, length: nat) {
    || tx.mss > MAX_MSS
    || tx.headerLength > length
    || length - tx.headerLength > MAX_TSO_SEGMENTS * tx.mss
  }

  /** n is the least number of mss-sized chunks that holds length bytes. */
  lemma ChunkCountLeast(length: nat, mss: nat, limit: nat)
    requires mss > 0 && length > 0
    ensures Covers(ChunkCount(length, mss), length, mss)
    ensures ChunkCount(length, mss) > limit <==> length > limit * mss
  {
    CeilingCovers(length, mss);
    var n := ChunkCount(length, mss);
    if n <= limit {
      MulMonotone(n, limit, mss);
    } else {
      MulMonotone(limit, n - 1, mss);
    }
  }

  /** A packet is dropped whole exactly when segmentation is asked for and a limit is broken. */
  lemma DroppedIffLimitBroken(tx: TxDescriptor, packet: seq<Byte>)
    ensures SegmentsOf(tx, packet).Dropped? <==> SegmentationEnabled(tx, |packet|) && BreaksALimit(tx, |packet|)
    ensures SegmentsOf(tx, packet).Dropped? ==>
              (SegmentsOf(tx, packet).code == InvalidMss <==> tx.mss > MAX_MSS || tx.headerLength > |packet|)
  {
    if SegmentationEnabled(tx, |packet|) && tx.mss <= MAX_MSS && tx.headerLength < |packet| {
      ChunkCountLeast(|packet| - tx.headerLength, tx.mss, MAX_TSO_SEGMENTS);
    }
  }

  /**
   * Segments that do come out: one is the packet itself, several cut up its payload behind
   * copies of its header, and the total grows by one header per extra segment.
   */
  lemma SegmentsRebuildPacket(tx: TxDescriptor, packet: seq<Byte>)
    requires SegmentsOf(tx, packet).Segments?
    ensures var s := SegmentsOf(tx, packet).list; var h := tx.headerLength;
            && 1 <= |s| <= MAX_TSO_SEGMENTS
            && (|s| == 1 ==> s == [packet])
            && (|s| > 1 ==> h < |packet| && CutUp(s, packet[..h], packet[h..], tx.mss))
            && TotalLength(s) == |packet| + (|s| - 1) * h
  {
    hide SegmentsOf, CutUp, Headed, Payloads, TotalLength, ChunkCount;
    SegmentsForm(tx, packet);
    var h := tx.headerLength;
    if SegmentationEnabled(tx, |packet|) && h < |packet| {
      HeadedExact(packet[..h], packet[h..], tx.mss);
      assert packet[..h] + packet[h..] == packet;
    } else {
      OneSegment(packet);
    }
  }

  lemma OneSegment(packet: seq<Byte>)
    ensures TotalLength([packet]) == |packet|
  {
    assert [packet][..0] == [];
  }

  /** Which of the two shapes the segments have. */
  lemma SegmentsForm(tx: TxDescriptor, packet: seq<Byte>)
    requires SegmentsOf(tx, packet).Segments?
    ensures var s := SegmentsOf(tx, packet).list; var h := tx.headerLength;
            && |s| <= MAX_TSO_SEGMENTS
            && s == if SegmentationEnabled(tx, |packet|) && h < |packet|
                    then Headed(packet[..h], packet[h..], tx.mss, ChunkCount(|packet| - h, tx.mss)) else [packet]
  {
    hide Headed, ChunkCount;
  }

  lemma SegmentSize(header: seq<Byte>, payload: seq<Byte>, mss: nat, n: nat, i: nat)
    requires Covers(n, |payload|, mss) && i < n && |payload| > 0
    ensures var s := header + Slice(payload, mss, i);
            |header| < |s| <= |header| + mss && s[..|header|] == header && (i < n - 1 ==> |s| == |header| + mss)
  {
    OffsetStep(n, |payload|, mss, i);
    assert (i + 1) * mss == i * mss + mss;
    if i == n - 1 && n > 1 {
      assert i * mss < |payload|;
    }
  }
}
