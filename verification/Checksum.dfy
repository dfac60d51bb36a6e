/** Internet checksums: two ways to fold the carries, and inserting a checksum so that it verifies. */
module Checksum {
  import opened Common
  import Bits

  const ONES: int := 0xFFFF

  /** The big-endian 16-bit word at i; a missing last byte counts as zero. */
  function WordAt(data: seq<Byte>, i: nat): U16
    requires i < |data|
  {
    data[i] as int * 256 + if i + 1 < |data| then data[i + 1] else 0
  }

  /** The true sum of all words, over the integers. */
  function WordSum(data: seq<Byte>): nat {
    if data == [] then 0
    else WordAt(data, 0) + if |data| <= 2 then 0 else WordSum(data[2..])
  }

  /** Reference: the one's complement sum, which is the residue modulo 2^16 - 1 with zero only for a zero total. */
  function OnesSum(total: nat): U16 { if total == 0 then 0 else 1 + (total - 1) % ONES }

  /** Adding a word and folding its carry at once keeps the one's complement sum. */
  lemma OnesAdd(total: nat, w: U16)
    ensures var s := OnesSum(total);
            OnesSum(total + w) == if s + w < TWO_16 then s + w else s + w - ONES
  {
  }

  /** Folding the high half onto the low half keeps the one's complement sum. */
  lemma OnesFold(x: nat)
    ensures x < TWO_16 ==> OnesSum(x) == x
    ensures x >= TWO_16 ==> x % TWO_16 + x / TWO_16 < x && OnesSum(x % TWO_16 + x / TWO_16) == OnesSum(x)
  {
    if x >= TWO_16 {
      var h, l := x / TWO_16, x % TWO_16;
      assert x == (h + l) + h * ONES;
      assert h + l >= 1;
      ResidueShift(h + l - 1, h);
    }
  }

  lemma ResidueShift(a: nat, h: nat)
    ensures (a + h * ONES) % ONES == a % ONES
  {
    Bits.DivUnique(a + h * ONES, ONES, a / ONES + h, a % ONES);
  }

  // ---------------------------------------------------------------------------
  // The two computations
  // ---------------------------------------------------------------------------

  /** Carries folded after every word. */
  method ComputeChecksum(buffer: seq<Byte>) returns (c: U16)
    ensures c == ONES - OnesSum(WordSum(buffer))
  {
    hide OnesSum;
    var sum, i := 0, 0;
    OnesFold(0);
    while i + 1 < |buffer|
      invariant 0 <= i <= |buffer| && i % 2 == 0 && 0 <= sum < TWO_16
      invariant exists t: nat :: sum == OnesSum(t) && t + WordSum(buffer[i..]) == WordSum(buffer)
    {
      ghost var t: nat :| sum == OnesSum(t) && t + WordSum(buffer[i..]) == WordSum(buffer);
      var word := buffer[i] as int * 256 + buffer[i + 1];
      WordSumStep(buffer, i);
      OnesAdd(t, word);
      sum := sum + word;
      if sum >= TWO_16 {
        sum := sum % TWO_16 + 1;
      }
      i := i + 2;
      assert sum == OnesSum(t + word) && t + word + WordSum(buffer[i..]) == WordSum(buffer);
    }
    ghost var t: nat :| sum == OnesSum(t) && t + WordSum(buffer[i..]) == WordSum(buffer);
    if |buffer| % 2 == 1 {
      var last := buffer[|buffer| - 1] as int * 256;
      assert buffer[i..] == [buffer[i]];
      OnesAdd(t, last);
      sum := sum + last;
      if sum >= TWO_16 {
        sum := sum % TWO_16 + 1;
      }
    } else {
      assert buffer[i..] == [];
    }
    c := ONES - sum;
  }

  lemma WordSumStep(buffer: seq<Byte>, i: nat)
    requires i < |buffer|
    ensures WordSum(buffer[i..]) == WordAt(buffer, i) + if i + 2 <= |buffer| then WordSum(buffer[i + 2..]) else 0
  {
    var tail := buffer[i..];
    assert WordAt(tail, 0) == WordAt(buffer, i);
    if |tail| > 2 {
      assert tail[2..] == buffer[i + 2..];
    } else if |tail| == 2 {
      assert buffer[i + 2..] == [];
    }
  }

  /** Carries collected in 32 bits, which wrap, and folded at the end. */
  method FoldSum(start: U32) returns (sum: U16)
    ensures sum == OnesSum(start)
  {
    hide OnesSum;
    var s := start;
    while s / TWO_16 != 0
      invariant 0 <= s < TWO_32 && OnesSum(s) == OnesSum(start)
      decreases s
    {
      OnesFold(s);
      s := s % TWO_16 + s / TWO_16;
    }
    OnesFold(s);
    sum := s;
  }

  method SumWords(start: U32, data: seq<Byte>) returns (sum: U32)
    ensures sum == (start + WordSum(data)) % TWO_32
  {
    hide WordSum;
    hide WordAt;
    sum := start;
    var i := 0;
    assert data[0..] == data;
    while i < |data|
      invariant 0 <= i <= |data| + 1
      invariant (sum + RestSum(data, i)) % TWO_32 == (start + WordSum(data)) % TWO_32
    {
      WordSumStep(data, i);
      var word := data[i] as int * 256;
      if i + 1 < |data| {
        word := word + data[i + 1];
      }
      WordIs(data, i, word);
      Bits.ModAdd(sum + word, RestSum(data, i + 2), TWO_32);
      sum := (sum + word) % TWO_32;
      i := i + 2;
    }
    NothingLeft(data, i);
  }

  /** The words from i on; a walk by twos may step one past the end. */
  function RestSum(data: seq<Byte>, i: nat): nat { if i <= |data| then WordSum(data[i..]) else 0 }

  lemma NothingLeft(data: seq<Byte>, i: nat)
    requires i >= |data|
    ensures RestSum(data, i) == 0
  {
  }

  lemma WordIs(data: seq<Byte>, i: nat, word: int)
    requires i < |data| && word == data[i] as int * 256 + if i + 1 < |data| then data[i + 1] else 0
    ensures word == WordAt(data, i)
  {
  }

  method InternetChecksum(data: seq<Byte>) returns (c: U16)
    ensures c == ONES - OnesSum(WordSum(data) % TWO_32)
  {
    var sum := SumWords(0, data);
    var folded := FoldSum(sum);
    c := ONES - folded;
  }

  // ---------------------------------------------------------------------------
  // Agreement
  // ---------------------------------------------------------------------------

  /** Both computations give the same checksum for this buffer. */
  predicate SameChecksum(data: seq<Byte>) { OnesSum(WordSum(data)) == OnesSum(WordSum(data) % TWO_32) }

  lemma {:induction false} WordSumBound(data: seq<Byte>)
    ensures WordSum(data) <= (|data| + 1) / 2 * ONES
  {
    if |data| > 2 {
      WordSumBound(data[2..]);
      assert (|data| + 1) / 2 == (|data[2..]| + 1) / 2 + 1;
    }
  }

  /** 131075 bytes of ones, and zeros behind them. */
  function Overlong(n: nat): seq<Byte> { seq(n, i => if i < 131075 then 255 else 0) }

  lemma {:induction false} ZeroTail(data: seq<Byte>)
    requires forall i :: 0 <= i < |data| ==> data[i] == 0
    ensures WordSum(data) == 0
  {
    if |data| > 2 {
      ZeroTail(data[2..]);
    }
  }

  lemma {:induction false} OnesPrefix(data: seq<Byte>, k: nat)
    requires 2 * k <= |data| && forall i :: 0 <= i < 2 * k ==> data[i] == 255
    ensures WordSum(data) == k * ONES + WordSum(data[2 * k..])
    decreases k
  {
    if k == 0 {
      assert data[0..] == data;
    } else {
      OnesPrefix(data[2..], k - 1);
      assert data[2..][2 * (k - 1)..] == data[2 * k..];
      if |data| == 2 {
        assert data[2..] == [];
      }
    }
  }

  lemma OverlongDisagrees(n: nat)
    requires n > 131074
    ensures !SameChecksum(Overlong(n))
  {
    var data := Overlong(n);
    OnesPrefix(data, 65537);
    var tail := data[131074..];
    assert tail[0] == 255;
    if |tail| > 2 {
      ZeroTail(tail[2..]);
    }
    assert WordSum(tail) == 0xFF00;
    assert WordSum(data) == 65537 * ONES + 0xFF00;
  }

  /** The two computations agree on all buffers of a given length exactly up to 131074 bytes. */
  lemma ChecksumsAgreeUpTo(n: nat)
    ensures (forall data: seq<Byte> :: |data| == n ==> SameChecksum(data)) <==> n <= 131074
  {
    if n <= 131074 {
      forall data: seq<Byte> | |data| == n ensures SameChecksum(data) {
        WordSumBound(data);
        assert WordSum(data) <= 65537 * ONES;
      }
    } else {
      OverlongDisagrees(n);
      assert |Overlong(n)| == n;
    }
  }

  // ---------------------------------------------------------------------------
  // Inserting a checksum
  // ---------------------------------------------------------------------------

  const TCP: Byte := 6
  const UDP: Byte := 17

  /** Source and destination address, zero, protocol, and the length cut to 16 bits. */
  function PseudoHeader(src: U32, dst: U32, protocol: Byte, length: nat): seq<Byte> {
    [src / 0x100_0000, (src / TWO_16) % 256, (src / 256) % 256, src % 256,
     dst / 0x100_0000, (dst / TWO_16) % 256, (dst / 256) % 256, dst % 256,
     0, protocol, (length / 256) % 256, length % 256]
  }

  /** The running 32-bit sum over pseudo-header and segment. */
  function TransportSum(src: U32, dst: U32, protocol: Byte, segment: seq<Byte>): U32 {
    (WordSum(PseudoHeader(src, dst, protocol, |segment|)) + WordSum(segment)) % TWO_32
  }

  /** UDP sends an all-ones checksum in place of zero. */
  function TransportChecksum(src: U32, dst: U32, protocol: Byte, segment: seq<Byte>): U16 {
    var c := ONES - OnesSum(TransportSum(src, dst, protocol, segment));
    if protocol == UDP && c == 0 then ONES else c
  }

  /** Each byte by its place: those at even offsets count 256-fold. */
  function ByteSum(data: seq<Byte>): nat {
    if data == [] then 0 else
    var n := |data| - 1;
    ByteSum(data[..n]) + data[n] as int * if n % 2 == 0 then 256 else 1
  }

  lemma {:induction false} WordSumByBytes(data: seq<Byte>)
    ensures WordSum(data) == ByteSum(data)
    decreases |data|
  {
    if |data| > 0 {
      WordSumByBytes(data[..|data| - 1]);
      WordSumAppend(data[..|data| - 1], data[|data| - 1]);
      assert data == data[..|data| - 1] + [data[|data| - 1]];
    }
  }

  lemma {:induction false} WordSumAppend(data: seq<Byte>, b: Byte)
    ensures WordSum(data + [b]) == WordSum(data) + b * if |data| % 2 == 0 then 256 else 1
    decreases |data|
  {
    if |data| >= 2 {
      WordSumAppend(data[2..], b);
      assert (data + [b])[2..] == data[2..] + [b];
    }
  }

  /** The halves of both addresses, the protocol number and the length cut to 16 bits. */
  function HeaderSum(src: U32, dst: U32, protocol: Byte, length: nat): nat {
    src / TWO_16 + src % TWO_16 + dst / TWO_16 + dst % TWO_16 + protocol + length % TWO_16
  }

  lemma PseudoHeaderSum(src: U32, dst: U32, protocol: Byte, length: nat)
    ensures WordSum(PseudoHeader(src, dst, protocol, length)) == HeaderSum(src, dst, protocol, length)
  {
    var h := PseudoHeader(src, dst, protocol, length);
    SixWords(h);
    AddressWords(src);
    AddressWords(dst);
    assert length % TWO_16 == (length / 256) % 256 * 256 + length % 256;
  }

  lemma SixWords(h: seq<Byte>)
    requires |h| == 12
    ensures WordSum(h) == WordAt(h, 0) + WordAt(h, 2) + WordAt(h, 4) + WordAt(h, 6) + WordAt(h, 8) + WordAt(h, 10)
  {
    WordSumStep(h, 0);
    WordSumStep(h, 2);
    WordSumStep(h, 4);
    WordSumStep(h, 6);
    WordSumStep(h, 8);
    WordSumStep(h, 10);
    assert h[0..] == h && h[12..] == [];
  }

  lemma AddressWords(a: U32)
    ensures a / 0x100_0000 * 256 + (a / TWO_16) % 256 == a / TWO_16
    ensures (a / 256) % 256 * 256 + a % 256 == a % TWO_16
  {
  }

  /**
   * The transport checksum in numbers: the complement of the one's complement sum of the 32-bit
   * total, except that UDP, protocol 17, sends 0xFFFF for zero and so never sends zero.
   */
  lemma TransportChecksumValue(src: U32, dst: U32, protocol: Byte, segment: seq<Byte>)
    ensures var total := HeaderSum(src, dst, protocol, |segment|) + ByteSum(segment);
            var plain, c := 0xFFFF - OnesSum(total % TWO_32), TransportChecksum(src, dst, protocol, segment);
            c == if protocol == 17 && plain == 0 then 0xFFFF else plain
  {
    hide WordSum, PseudoHeader, OnesSum, ByteSum, HeaderSum;
    PseudoHeaderSum(src, dst, protocol, |segment|);
    WordSumByBytes(segment);
    assert TransportSum(src, dst, protocol, segment) == (HeaderSum(src, dst, protocol, |segment|) + ByteSum(segment)) % TWO_32;
    hide TransportSum;
  }

  method ComputeTransportChecksum(src: U32, dst: U32, protocol: Byte, segment: seq<Byte>) returns (c: U16)
    ensures c == TransportChecksum(src, dst, protocol, segment)
  {
    hide WordSum;
    var sum := SumWords(0, PseudoHeader(src, dst, protocol, |segment|));
    ghost var p, q := WordSum(PseudoHeader(src, dst, protocol, |segment|)), WordSum(segment);
    sum := SumWords(sum, segment);
    Bits.ModAdd(p, q, TWO_32);
    var folded := FoldSum(sum);
    c := ONES - folded;
    if protocol == UDP && c == 0 {
      c := ONES;
    }
  }

  function Inserted(data: seq<Byte>, at: nat, c: U16): seq<Byte>
    requires at + 2 <= |data|
  {
    data[at := c / 256][at + 1 := c % 256]
  }

  /** A zero field at an even offset takes the checksum and adds it to the word sum. */
  lemma {:induction false} InsertAdds(data: seq<Byte>, at: nat, c: U16)
    requires at + 2 <= |data| && at % 2 == 0 && data[at] == data[at + 1] == 0
    ensures WordSum(Inserted(data, at, c)) == WordSum(data) + c
  {
    var r := Inserted(data, at, c);
    if at == 0 {
      if |data| > 2 {
        assert r[2..] == data[2..];
      }
    } else {
      InsertAdds(data[2..], at - 2, c);
      assert r[2..] == Inserted(data[2..], at - 2, c);
    }
  }

  /** Computes the checksum of a segment whose checksum field is zero and writes it there. */
  method InsertTransportChecksum(segment: array<Byte>, at: nat, src: U32, dst: U32, protocol: Byte)
    requires at + 2 <= segment.Length
    modifies segment
    ensures segment[..] == Inserted(old(segment[..]), at, TransportChecksum(src, dst, protocol, old(segment[..])))
  {
    hide TransportChecksum;
    var c := ComputeTransportChecksum(src, dst, protocol, segment[..]);
    segment[at] := c / 256;
    segment[at + 1] := c % 256;
  }

  method InsertIpv4Checksum(packet: array<Byte>)
    requires packet.Length >= 20
    modifies packet
    ensures packet[..20] == Inserted(old(packet[..20]), 10, ONES - OnesSum(WordSum(old(packet[..20])) % TWO_32))
    ensures packet[20..] == old(packet[20..])
  {
    var c := InternetChecksum(packet[..20]);
    packet[10] := c / 256;
    packet[11] := c % 256;
  }

  /** Adding the complement gives all ones, as long as the 32-bit sum has room for it. */
  lemma ComplementCloses(t: U32, c: U16)
    requires c == ONES - OnesSum(t) || (c == ONES && OnesSum(t) == ONES)
    ensures OnesSum((t + c) % TWO_32) == ONES <==> t + c < TWO_32
  {
    if t + c < TWO_32 {
    } else {
      var x := t + c - TWO_32;
      assert (t + c) % TWO_32 == x;
      assert TWO_32 == 65537 * ONES + 1;
      ComplementResidue(t, c);
    }
  }

  lemma ComplementResidue(t: U32, c: U16)
    requires c == ONES - OnesSum(t) || (c == ONES && OnesSum(t) == ONES)
    ensures (t + c) % ONES == 0
  {
  }

  /**
   * A TCP or UDP segment with its computed checksum inserted sums to all ones exactly when
   * the 32-bit running sum leaves room for the checksum.
   */
  lemma InsertedChecksumVerifies(src: U32, dst: U32, protocol: Byte, segment: seq<Byte>, at: nat)
    requires at + 2 <= |segment| && at % 2 == 0 && segment[at] == segment[at + 1] == 0
    ensures var c := TransportChecksum(src, dst, protocol, segment);
            var sent := Inserted(segment, at, c);
            OnesSum(TransportSum(src, dst, protocol, sent)) == ONES <==> TransportSum(src, dst, protocol, segment) + c < TWO_32
  {
    hide WordSum;
    var c := TransportChecksum(src, dst, protocol, segment);
    var t := TransportSum(src, dst, protocol, segment);
    InsertAdds(segment, at, c);
    var p, q := WordSum(PseudoHeader(src, dst, protocol, |segment|)), WordSum(segment);
    Bits.ModAdd(p + q, c, TWO_32);
    ComplementCloses(t, c);
  }

  /** There is always room for a segment of at most 131062 bytes, so every real TCP or UDP segment verifies. */
  lemma RealSegmentsVerify(src: U32, dst: U32, protocol: Byte, segment: seq<Byte>, at: nat)
    requires at + 2 <= |segment| <= 131062 && at % 2 == 0 && segment[at] == segment[at + 1] == 0
    ensures var c := TransportChecksum(src, dst, protocol, segment);
            OnesSum(TransportSum(src, dst, protocol, Inserted(segment, at, c))) == ONES
  {
    hide WordSum;
    hide OnesSum;
    var c := TransportChecksum(src, dst, protocol, segment);
    InsertedChecksumVerifies(src, dst, protocol, segment, at);
    InsertAdds(segment, at, c);
    var pseudo := PseudoHeader(src, dst, protocol, |segment|);
    WordSumBound(pseudo);
    WordSumBound(Inserted(segment, at, c));
    assert WordSum(pseudo) <= 6 * ONES;
    assert WordSum(segment) + c <= 65531 * ONES;
  }

  /** An IPv4 header with its computed checksum inserted sums to all ones. */
  lemma Ipv4HeaderVerifies(header: seq<Byte>)
    requires |header| == 20 && header[10] == header[11] == 0
    ensures OnesSum(WordSum(Inserted(header, 10, ONES - OnesSum(WordSum(header) % TWO_32))) % TWO_32) == ONES
  {
    hide WordSum;
    var t := WordSum(header) % TWO_32;
    var c := ONES - OnesSum(t);
    WordSumBound(header);
    InsertAdds(header, 10, c);
    ComplementCloses(t, c);
  }
}
