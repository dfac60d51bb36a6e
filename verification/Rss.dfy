/** Receive-side scaling: the Toeplitz hash and its linearity. */
module Rss {
  import opened Common
  import opened Bits

  const ZERO: Word := ZeroWord()

  function ZeroWord(): Word { Zeros(32) }

  /** Bit i of a byte string, most significant bit of each byte first. */
  function BitAt(data: seq<Byte>, i: nat): bool
    requires i < 8 * |data|
  {
    ToBits(data[i / 8], 8)[7 - i % 8]
  }

  /** Reference: the 32 key bits from position i on, cyclically, the first one on top. */
  function Window(key: seq<Byte>, i: nat): Word
    requires key != []
  {
    seq(32, j requires 0 <= j < 32 => BitAt(key, (i + 31 - j) % (8 * |key|)))
  }

  /** Reference: the exclusive or of the key windows at the set bits among the first n. */
  function HashOf(key: seq<Byte>, data: seq<Byte>, n: nat): Word
    requires key != [] && n <= 8 * |data|
  {
    if n == 0 then ZERO
    else if BitAt(data, n - 1) then Xor(HashOf(key, data, n - 1), Window(key, n - 1))
    else HashOf(key, data, n - 1)
  }

  function Toeplitz(key: seq<Byte>, data: seq<Byte>): Word {
    if key == [] || data == [] then ZERO else HashOf(key, data, 8 * |data|)
  }

  /** Shift left by one and put a bit at the bottom. */
  function ShiftIn(w: Word, b: bool): Word { [b] + w[..31] }

  /** The inner loop collects a key window bit by bit. */
  method KeySegment(key: seq<Byte>, bit: nat) returns (segment: Word)
    requires key != []
    ensures segment == Window(key, bit)
  {
    hide BitAt;
    segment := ZERO;
    for k := 0 to 32
      invariant forall j :: 0 <= j < k ==> segment[j] == BitAt(key, (bit + k - 1 - j) % (8 * |key|))
    {
      segment := ShiftIn(segment, BitAt(key, (bit + k) % (8 * |key|)));
    }
  }

  /** The nested loops compute the exclusive or of the windows at the set bits. */
  method ToeplitzHash(key: seq<Byte>, data: seq<Byte>) returns (hash: Word)
    ensures hash == Toeplitz(key, data)
  {
    hide BitAt;
    hide Window;
    hash := ZERO;
    if key == [] || data == [] {
      return;
    }
    for bit := 0 to 8 * |data|
      invariant hash == HashOf(key, data, bit)
    {
      if BitAt(data, bit) {
        var segment := KeySegment(key, bit);
        hash := Xor(hash, segment);
      }
    }
  }

  // ---------------------------------------------------------------------------
  // Linearity
  // ---------------------------------------------------------------------------

  function XorByte(a: Byte, b: Byte): Byte {
    assert Pow2(8) == 256;
    FromBits(Xor(ToBits(a, 8), ToBits(b, 8)))
  }

  function XorBytes(a: seq<Byte>, b: seq<Byte>): (r: seq<Byte>)
    requires |a| == |b|
    ensures |r| == |a|
  {
    seq(|a|, i requires 0 <= i < |a| => XorByte(a[i], b[i]))
  }

  lemma BitOfXor(a: seq<Byte>, b: seq<Byte>, i: nat)
    requires |a| == |b| && i < 8 * |a|
    ensures BitAt(XorBytes(a, b), i) == (BitAt(a, i) != BitAt(b, i))
  {
    hide ToBits;
    ToFromBits(Xor(ToBits(a[i / 8], 8), ToBits(b[i / 8], 8)));
  }

  lemma {:induction false} HashOfXor(key: seq<Byte>, a: seq<Byte>, b: seq<Byte>, n: nat)
    requires key != [] && |a| == |b| && n <= 8 * |a|
    ensures HashOf(key, XorBytes(a, b), n) == Xor(HashOf(key, a, n), HashOf(key, b, n))
    decreases n
  {
    hide BitAt;
    hide Window;
    hide XorBytes;
    if n > 0 {
      HashOfXor(key, a, b, n - 1);
      BitOfXor(a, b, n - 1);
      XorWindows(HashOf(key, a, n - 1), HashOf(key, b, n - 1), Window(key, n - 1));
    } else {
      assert Xor(ZERO, ZERO) == ZERO;
    }
  }

  lemma XorWindows(x: Word, y: Word, w: Word)
    ensures Xor(Xor(x, y), w) == Xor(Xor(x, w), y) == Xor(x, Xor(y, w))
    ensures Xor(Xor(x, w), Xor(y, w)) == Xor(x, y)
  {
  }

  /** The hash is linear: for any key, the hash of a xor b is the xor of the hashes. */
  lemma ToeplitzIsLinear(key: seq<Byte>, a: seq<Byte>, b: seq<Byte>)
    requires |a| == |b|
    ensures Toeplitz(key, XorBytes(a, b)) == Xor(Toeplitz(key, a), Toeplitz(key, b))
  {
    if key != [] && a != [] {
      HashOfXor(key, a, b, 8 * |a|);
    } else {
      assert Xor(ZERO, ZERO) == ZERO;
    }
  }

  lemma ZeroByteBits(i: nat)
    requires i < 8
    ensures !ToBits(0, 8)[i]
  {
    DivUnique(0, Pow2(i), 0, 0);
  }

  lemma {:induction false} HashOfPrefix(key: seq<Byte>, data: seq<Byte>, more: seq<Byte>, n: nat)
    requires key != [] && n <= 8 * |data|
    ensures HashOf(key, data + more, n) == HashOf(key, data, n)
    decreases n
  {
    hide Window;
    if n > 0 {
      HashOfPrefix(key, data, more, n - 1);
      assert (data + more)[(n - 1) / 8] == data[(n - 1) / 8];
    }
  }

  lemma {:induction false} ZerosAddNothing(key: seq<Byte>, data: seq<Byte>, zeros: seq<Byte>, n: nat)
    requires key != [] && forall i :: 0 <= i < |zeros| ==> zeros[i] == 0
    requires 8 * |data| <= n <= 8 * |data + zeros|
    ensures HashOf(key, data + zeros, n) == HashOf(key, data, 8 * |data|)
    decreases n
  {
    hide Window;
    if n == 8 * |data| {
      HashOfPrefix(key, data, zeros, n);
    } else {
      ZerosAddNothing(key, data, zeros, n - 1);
      assert (data + zeros)[(n - 1) / 8] == 0;
      ZeroByteBits(7 - (n - 1) % 8);
      hide ToBits;
    }
  }

  /** Appending zero bytes does not change the hash. */
  lemma ZeroPaddingIsFree(key: seq<Byte>, data: seq<Byte>, zeros: seq<Byte>)
    requires forall i :: 0 <= i < |zeros| ==> zeros[i] == 0
    ensures Toeplitz(key, data + zeros) == Toeplitz(key, data)
  {
    if key != [] {
      ZerosAddNothing(key, data, zeros, 8 * |data + zeros|);
    }
  }

  // ---------------------------------------------------------------------------
  // The hash in numbers
  // ---------------------------------------------------------------------------

  /** Bits are numbered from the most significant of the first byte. */
  lemma BitNumber(data: seq<Byte>, k: nat, j: nat)
    requires k < |data| && j < 8
    ensures BitAt(data, 8 * k + j) <==> (data[k] / [128, 64, 32, 16, 8, 4, 2, 1][j]) % 2 == 1
  {
    assert Pow2(0) == 1 && Pow2(1) == 2 && Pow2(2) == 4 && Pow2(3) == 8;
    assert Pow2(4) == 16 && Pow2(5) == 32 && Pow2(6) == 64 && Pow2(7) == 128;
  }

  lemma {:induction false} NoBitsNoHash(key: seq<Byte>, data: seq<Byte>, n: nat)
    requires key != [] && n <= 8 * |data| && forall m :: 0 <= m < n ==> !BitAt(data, m)
    ensures HashOf(key, data, n) == ZERO
    decreases n
  {
    hide BitAt, Window;
    if n > 0 {
      NoBitsNoHash(key, data, n - 1);
    }
  }

  lemma {:induction false} OneBitHash(key: seq<Byte>, data: seq<Byte>, i: nat, n: nat)
    requires key != [] && i < n <= 8 * |data| && forall m :: 0 <= m < n ==> (BitAt(data, m) <==> m == i)
    ensures HashOf(key, data, n) == Window(key, i)
    decreases n
  {
    hide BitAt, Window;
    if n == i + 1 {
      NoBitsNoHash(key, data, i);
      assert Xor(ZERO, Window(key, i)) == Window(key, i);
    } else {
      OneBitHash(key, data, i, n - 1);
    }
  }

  /** Input with a single bit set hashes to the key window at that bit; with linearity this fixes the hash of every input. */
  lemma UnitHash(key: seq<Byte>, data: seq<Byte>, i: nat)
    requires key != [] && i < 8 * |data| && forall m :: 0 <= m < 8 * |data| ==> (BitAt(data, m) <==> m == i)
    ensures Toeplitz(key, data) == Window(key, i)
  {
    OneBitHash(key, data, i, 8 * |data|);
  }

  lemma {:induction false} FromBitsConcat(a: seq<bool>, b: seq<bool>)
    ensures FromBits(a + b) == FromBits(a) + Pow2(|a|) * FromBits(b)
  {
    if a == [] {
      assert a + b == b;
    } else {
      FromBitsConcat(a[1..], b);
      assert (a + b)[1..] == a[1..] + b;
      Doubled(Pow2(|a| - 1), FromBits(b));
    }
  }

  lemma Doubled(p: nat, x: nat)
    ensures 2 * (p * x) == (2 * p) * x
  {
  }

  /** At a byte boundary the window is the big-endian number in the next four key bytes. */
  lemma WindowNumber(key: seq<Byte>, k: nat)
    requires k + 4 <= |key|
    ensures FromBits(Window(key, 8 * k)) == key[k] as int * 0x100_0000 + key[k + 1] as int * 0x1_0000 + key[k + 2] as int * 0x100 + key[k + 3]
  {
    WindowBytes(key, k);
    Pow2Eight();
    FromToBits(key[k], 8);
    FromToBits(key[k + 1], 8);
    FromToBits(key[k + 2], 8);
    FromToBits(key[k + 3], 8);
    hide ToBits, FromBits, Window, Pow2;
    FourBytes(ToBits(key[k + 3], 8), ToBits(key[k + 2], 8), ToBits(key[k + 1], 8), ToBits(key[k], 8));
  }

  lemma FourBytes(a: seq<bool>, b: seq<bool>, c: seq<bool>, d: seq<bool>)
    requires |a| == |b| == |c| == |d| == 8
    ensures FromBits(a + b + (c + d)) == FromBits(a) + 0x100 * FromBits(b) + 0x1_0000 * FromBits(c) + 0x100_0000 * FromBits(d)
  {
    hide FromBits, Pow2;
    ByteWidth();
    FromBitsConcat(a + b, c + d);
    FromBitsConcat(a, b);
    FromBitsConcat(c, d);
  }

  lemma WindowBytes(key: seq<Byte>, k: nat)
    requires k + 4 <= |key|
    ensures Window(key, 8 * k) == ToBits(key[k + 3], 8) + ToBits(key[k + 2], 8) + (ToBits(key[k + 1], 8) + ToBits(key[k], 8))
  {
    hide ToBits;
    var w := Window(key, 8 * k);
    forall j | 0 <= j < 32 ensures w[j] == ToBits(key[k + 3 - j / 8], 8)[j % 8] {
      WindowBit(key, k, j);
    }
    hide Window;
  }

  lemma WindowBit(key: seq<Byte>, k: nat, j: nat)
    requires k + 4 <= |key| && j < 32
    ensures Window(key, 8 * k)[j] == ToBits(key[k + 3 - j / 8], 8)[j % 8]
  {
    var at := 8 * k + 31 - j;
    DivUnique(at, 8 * |key|, 0, at);
    assert Window(key, 8 * k)[j] == BitAt(key, at) by { hide BitAt; }
    hide Window, ToBits;
    assert at / 8 == k + 3 - j / 8 && at % 8 == 7 - j % 8;
  }

  /** From one bit to the next the window slides by one. */
  lemma WindowSlides(key: seq<Byte>, i: nat)
    requires key != []
    ensures Window(key, i + 1)[1..] == Window(key, i)[..31] && Window(key, i + 1)[0] == BitAt(key, (i + 32) % (8 * |key|))
  {
    hide BitAt;
  }
}
