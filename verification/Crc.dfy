/**
 * The packet check value: the byte-at-a-time, table-driven CRC-32C of the packet
 * builder, against the bit-serial shift register it abbreviates.
 */
module Crc {
  import opened Common
  import opened Bits

  /** The Castagnoli polynomial, reflected. */
  const POLYNOMIAL: Word := ToBits(0x82F63B78, 32)

  const ONES: Word := Ones()

  function Ones(): Word { seq(32, _ => true) }

  // ---------------------------------------------------------------------------
  // The shift register
  // ---------------------------------------------------------------------------

  /** Reference definition: the register consumes one message bit. */
  function FeedBit(c: Word, bit: bool): Word {
    if c[0] != bit then Xor(Shr(c, 1), POLYNOMIAL) else Shr(c, 1)
  }

  /** One table-construction round: shift right, folding the bit that falls out. */
  function Round(c: Word): Word { FeedBit(c, false) }

  function FeedBits(c: Word, bits: seq<bool>): Word
    decreases |bits|
  {
    if bits == [] then c else FeedBits(FeedBit(c, bits[0]), bits[1..])
  }

  /** n rounds in a row: a round is a step that consumes a zero bit. */
  function Rounds(c: Word, n: nat): Word { FeedBits(c, Zeros(n)) }

  /** A byte string as the bit stream the register consumes. */
  function BitStream(data: seq<Byte>): (bits: seq<bool>)
    ensures |bits| == 8 * |data|
  {
    if data == [] then [] else ToBits(data[0], 8) + BitStream(data[1..])
  }

  /** The bit-serial CRC-32C of a byte string. */
  function SerialCrc(data: seq<Byte>): Word {
    Xor(FeedBits(ONES, BitStream(data)), ONES)
  }

  // ---------------------------------------------------------------------------
  // The table-driven computation
  // ---------------------------------------------------------------------------

  function TableEntry(i: Byte): Word { Rounds(ToBits(i, 32), 8) }

  predicate IsCrcTable(table: seq<Word>) {
    |table| == 256 && forall i :: 0 <= i < 256 ==> table[i] == TableEntry(i)
  }

  function LowByte(w: Word): Byte {
    assert Pow2(8) == 256;
    FromBits(w[..8])
  }

  /** The table step: look up the low byte of crc xor byte, shift the rest down. */
  function UpdateCrc(table: seq<Word>, crc: Word, b: Byte): Word
    requires |table| == 256
  {
    Xor(table[LowByte(Xor(crc, ToBits(b, 32)))], Shr(crc, 8))
  }

  /** Eight rounds from the index itself. */
  method TableRow(i: Byte) returns (crc: Word)
    ensures crc == TableEntry(i)
  {
    crc := ToBits(i, 32);
    for bit := 0 to 8
      invariant Rounds(crc, 8 - bit) == TableEntry(i)
    {
      RoundsStep(crc, 8 - bit);
      if crc[0] {
        crc := Xor(Shr(crc, 1), POLYNOMIAL);
      } else {
        crc := Shr(crc, 1);
      }
    }
  }

  /** Fills the table, one row for each byte value. */
  method BuildTable() returns (table: seq<Word>)
    ensures IsCrcTable(table)
  {
    hide TableEntry;
    table := [];
    for i := 0 to 256
      invariant |table| == i
      invariant forall k :: 0 <= k < i ==> table[k] == TableEntry(k)
    {
      var row := TableRow(i);
      table := table + [row];
    }
  }

  /** The byte loop computes the bit-serial CRC. */
  method Calculate(table: seq<Word>, data: seq<Byte>) returns (crc: Word)
    requires IsCrcTable(table)
    ensures crc == SerialCrc(data)
  {
    crc := ONES;
    for i := 0 to |data|
      invariant FeedBits(crc, BitStream(data[i..])) == FeedBits(ONES, BitStream(data))
    {
      UpdateIsSerial(table, crc, data[i]);
      assert data[i..][1..] == data[i + 1..];
      FeedConcat(crc, ToBits(data[i], 8), BitStream(data[i + 1..]));
      crc := UpdateCrc(table, crc, data[i]);
    }
    assert data[|data|..] == [];
    crc := Xor(crc, ONES);
  }

  // ---------------------------------------------------------------------------
  // Table step = eight register steps
  // ---------------------------------------------------------------------------

  lemma RoundXor(a: Word, b: Word)
    ensures Round(Xor(a, b)) == Xor(Round(a), Round(b))
  {
    var l, r := Round(Xor(a, b)), Xor(Round(a), Round(b));
    forall i | 0 <= i < 32 ensures l[i] == r[i] {}
  }

  /** The register is linear: rounds of a sum are the sum of the rounds. */
  lemma {:induction false} RoundsXor(a: Word, b: Word, n: nat)
    ensures Rounds(Xor(a, b), n) == Xor(Rounds(a, n), Rounds(b, n))
    decreases n
  {
    if n > 0 {
      RoundsStep(a, n);
      RoundsStep(b, n);
      RoundsStep(Xor(a, b), n);
      RoundXor(a, b);
      RoundsXor(Round(a), Round(b), n - 1);
    }
  }

  /** Rounds only shift while the bits falling out are zero. */
  lemma {:induction false} RoundsShift(w: Word, n: nat)
    requires n <= 32
    requires forall i :: 0 <= i < n ==> !w[i]
    ensures Rounds(w, n) == Shr(w, n)
    decreases n
  {
    if n > 0 {
      RoundsStep(w, n);
      assert forall i :: 0 <= i < n - 1 ==> !Round(w)[i];
      RoundsShift(Round(w), n - 1);
      assert Shr(Shr(w, 1), n - 1) == Shr(w, n);
    }
  }

  lemma RoundsStep(c: Word, n: nat)
    requires n > 0
    ensures Rounds(c, n) == Rounds(Round(c), n - 1)
  {
    assert Zeros(n)[1..] == Zeros(n - 1);
  }

  /** Widening a value that fits in n bits adds zero bits. */
  lemma PadBits(v: nat, n: nat, m: nat)
    requires v < Pow2(n)
    ensures ToBits(v, n + m) == ToBits(v, n) + Zeros(m)
  {
    forall i | n <= i < n + m ensures (v / Pow2(i)) % 2 == 0 {
      Pow2Monotone(n, i);
      DivUnique(v, Pow2(i), 0, v);
    }
  }

  function Pad(bits: seq<bool>): Word
    requires |bits| <= 32
  {
    bits + Zeros(32 - |bits|)
  }

  lemma FeedIsXorThenRound(c: Word, bits: seq<bool>)
    requires 0 < |bits| <= 32
    ensures Round(Xor(c, Pad(bits))) == Xor(FeedBit(c, bits[0]), Pad(bits[1..]))
  {
    var x: Word := Xor(c, Pad(bits));
    var y: Word := Xor(FeedBit(c, bits[0]), Pad(bits[1..]));
    assert x[0] == (c[0] != bits[0]);
    assert Shr(x, 1) == Xor(Shr(c, 1), Pad(bits[1..]));
    forall i | 0 <= i < 32 ensures Round(x)[i] == y[i] {}
  }

  /** Feeding up to 32 bits is xor-ing them in at once and running that many rounds. */
  lemma {:induction false} FeedIsXorThenRounds(c: Word, bits: seq<bool>)
    requires |bits| <= 32
    ensures FeedBits(c, bits) == Rounds(Xor(c, Pad(bits)), |bits|)
    decreases |bits|
  {
    hide FeedBit;
    hide Round;
    var n := |bits|;
    if n == 0 {
      assert Xor(c, Pad(bits)) == c;
    } else {
      FeedIsXorThenRounds(FeedBit(c, bits[0]), bits[1..]);
      RoundsStep(Xor(c, Pad(bits)), n);
      FeedIsXorThenRound(c, bits);
    }
  }

  lemma {:induction false} FeedConcat(c: Word, s: seq<bool>, t: seq<bool>)
    ensures FeedBits(c, s + t) == FeedBits(FeedBits(c, s), t)
    decreases |s|
  {
    hide FeedBit;
    if s == [] {
      assert s + t == t;
    } else {
      FeedConcat(FeedBit(c, s[0]), s[1..], t);
      assert (s + t)[1..] == s[1..] + t;
    }
  }

  /** Eight rounds act on the low byte through the table and shift the rest. */
  lemma RoundsByTable(x: Word)
    ensures Rounds(x, 8) == Xor(TableEntry(LowByte(x)), Shr(x, 8))
  {
    hide Rounds;
    ByteWidth();
    var low, high: Word := x[..8] + Zeros(24), Zeros(8) + x[8..];
    assert x == Xor(low, high);
    RoundsXor(low, high, 8);
    RoundsShift(high, 8);
    assert Shr(high, 8) == Shr(x, 8);
    ToFromBits(x[..8]);
    PadBits(LowByte(x), 8, 24);
  }

  /** One table step equals feeding the byte's eight bits, for every register and byte. */
  lemma UpdateIsSerial(table: seq<Word>, crc: Word, b: Byte)
    requires IsCrcTable(table)
    ensures UpdateCrc(table, crc, b) == FeedBits(crc, ToBits(b, 8))
  {
    hide FeedBits;
    hide Rounds;
    hide TableEntry;
    hide LowByte;
    hide ToBits;
    ByteWidth();
    PadBits(b, 8, 24);
    FeedIsXorThenRounds(crc, ToBits(b, 8));
    RoundsByTable(Xor(crc, ToBits(b, 32)));
    HighBitsKept(crc, ToBits(b, 8));
  }

  /** Xor-ing in a byte does not touch the other 24 bits. */
  lemma HighBitsKept(crc: Word, bits: seq<bool>)
    requires |bits| == 8
    ensures Shr(Xor(crc, Pad(bits)), 8) == Shr(crc, 8)
  {
    var x := Xor(crc, Pad(bits));
    assert forall i :: 8 <= i < 32 ==> x[i] == crc[i];
  }

  // ---------------------------------------------------------------------------
  // Error detection
  // ---------------------------------------------------------------------------

  /** The top bit of the polynomial is set, so a round loses nothing. */
  lemma RoundInjective(a: Word, b: Word)
    requires Round(a) == Round(b)
    ensures a == b
  {
    assert POLYNOMIAL[31] by { PolynomialTopBit(); }
    assert Round(a)[31] == a[0] && Round(b)[31] == b[0];
    assert Shr(a, 1) == Shr(b, 1) by {
      forall i | 0 <= i < 32 ensures Shr(a, 1)[i] == Shr(b, 1)[i] {
        assert Round(a)[i] == Round(b)[i];
      }
    }
    forall i | 0 <= i < 32 ensures a[i] == b[i] {
      if i > 0 {
        assert Shr(a, 1)[i - 1] == a[i] && Shr(b, 1)[i - 1] == b[i];
      }
    }
  }

  lemma PolynomialTopBit()
    ensures POLYNOMIAL[31]
  {
    assert Pow2(31) == 0x8000_0000 by {
      ByteWidth();
      assert Pow2(32) == 2 * Pow2(31);
    }
  }

  lemma {:induction false} RoundsInjective(a: Word, b: Word, n: nat)
    requires Rounds(a, n) == Rounds(b, n)
    ensures a == b
    decreases n
  {
    if n > 0 {
      RoundsStep(a, n);
      RoundsStep(b, n);
      RoundsInjective(Round(a), Round(b), n - 1);
      RoundInjective(a, b);
    }
  }

  lemma XorCancel(a: seq<bool>, b: seq<bool>, c: seq<bool>)
    requires |a| == |b| == |c|
    ensures Xor(a, c) == Xor(b, c) ==> a == b
    ensures Xor(c, a) == Xor(c, b) ==> a == b
  {
    if Xor(a, c) == Xor(b, c) {
      forall i | 0 <= i < |a| ensures a[i] == b[i] {
        assert Xor(a, c)[i] == Xor(b, c)[i];
      }
    }
    if Xor(c, a) == Xor(c, b) {
      forall i | 0 <= i < |a| ensures a[i] == b[i] {
        assert Xor(c, a)[i] == Xor(c, b)[i];
      }
    }
  }

  /** Distinct register contents stay distinct under any common continuation. */
  lemma {:induction false} FeedKeepsDistinct(c: Word, d: Word, bits: seq<bool>)
    requires c != d
    ensures FeedBits(c, bits) != FeedBits(d, bits)
    decreases |bits|
  {
    if bits != [] {
      if FeedBit(c, bits[0]) == FeedBit(d, bits[0]) {
        FeedIsXorThenRounds(c, bits[..1]);
        FeedIsXorThenRounds(d, bits[..1]);
        var z := Pad(bits[..1]);
        assert FeedBits(c, bits[..1]) == FeedBit(c, bits[0]);
        assert FeedBits(d, bits[..1]) == FeedBit(d, bits[0]);
        RoundsInjective(Xor(c, z), Xor(d, z), 1);
        XorCancel(c, d, z);
        assert false;
      }
      FeedKeepsDistinct(FeedBit(c, bits[0]), FeedBit(d, bits[0]), bits[1..]);
    }
  }

  lemma PadInjective(s: seq<bool>, t: seq<bool>)
    requires |s| == |t| <= 32 && Pad(s) == Pad(t)
    ensures s == t
  {
    assert Pad(s)[..|s|] == s;
    assert Pad(t)[..|s|] == t;
  }

  /** Two different runs of at most 32 bits leave different registers. */
  lemma BurstSeparates(c: Word, s: seq<bool>, t: seq<bool>)
    requires |s| == |t| <= 32 && s != t
    ensures FeedBits(c, s) != FeedBits(c, t)
  {
    hide FeedBits;
    hide Rounds;
    hide Pad;
    FeedIsXorThenRounds(c, s);
    FeedIsXorThenRounds(c, t);
    if FeedBits(c, s) == FeedBits(c, t) {
      RoundsInjective(Xor(c, Pad(s)), Xor(c, Pad(t)), |s|);
      XorCancel(Pad(s), Pad(t), c);
      PadInjective(s, t);
    }
  }

  /**
   * Every error burst of at most 32 bits is detected: two messages whose bit streams
   * agree outside a window of 32 bits, at any alignment, have different check values.
   */
  lemma BurstDetected(a: seq<Byte>, b: seq<Byte>, pre: seq<bool>, s: seq<bool>, t: seq<bool>, post: seq<bool>)
    requires BitStream(a) == pre + s + post
    requires BitStream(b) == pre + t + post
    requires |s| == |t| <= 32 && s != t
    ensures SerialCrc(a) != SerialCrc(b)
  {
    var c := FeedBits(ONES, pre);
    FeedConcat(ONES, pre + s, post);
    FeedConcat(ONES, pre, s);
    FeedConcat(ONES, pre + t, post);
    FeedConcat(ONES, pre, t);
    BurstSeparates(c, s, t);
    FeedKeepsDistinct(FeedBits(c, s), FeedBits(c, t), post);
    var x, y := FeedBits(ONES, BitStream(a)), FeedBits(ONES, BitStream(b));
    XorCancel(x, y, ONES);
  }

  lemma {:induction false} BitStreamConcat(a: seq<Byte>, b: seq<Byte>)
    ensures BitStream(a + b) == BitStream(a) + BitStream(b)
  {
    hide ToBits;
    if a == [] {
      assert a + b == b;
    } else {
      BitStreamConcat(a[1..], b);
      assert (a + b)[1..] == a[1..] + b;
      ConcatAssociative(ToBits(a[0], 8), BitStream(a[1..]), BitStream(b));
    }
  }

  lemma ConcatAssociative<T>(a: seq<T>, b: seq<T>, c: seq<T>)
    ensures a + (b + c) == (a + b) + c
  {
  }

  /** Changing one byte, at any position of a message of any length, changes the check value. */
  lemma ByteChangeDetected(a: seq<Byte>, k: nat, v: Byte)
    requires k < |a| && a[k] != v
    ensures SerialCrc(a[k := v]) != SerialCrc(a)
  {
    var b := a[k := v];
    ByteWidth();
    assert a == a[..k] + [a[k]] + a[k + 1..];
    assert b == a[..k] + [v] + a[k + 1..];
    BitStreamConcat(a[..k] + [a[k]], a[k + 1..]);
    BitStreamConcat(a[..k], [a[k]]);
    BitStreamConcat(a[..k] + [v], a[k + 1..]);
    BitStreamConcat(a[..k], [v]);
    assert BitStream([v]) == ToBits(v, 8) + BitStream([]) == ToBits(v, 8);
    assert BitStream([a[k]]) == ToBits(a[k], 8) + BitStream([]) == ToBits(a[k], 8);
    if ToBits(a[k], 8) == ToBits(v, 8) {
      ToBitsInjective(a[k], v, 8);
      assert false;
    }
    BurstDetected(a, b, BitStream(a[..k]), ToBits(a[k], 8), ToBits(v, 8), BitStream(a[k + 1..]));
  }
}
