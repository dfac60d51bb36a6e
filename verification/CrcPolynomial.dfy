/**
 * The check value as polynomial division over GF(2): the register holds the remainder of the
 * message polynomial by the Castagnoli polynomial, whose exponents are written out here.
 */
module CrcPolynomial {
  import opened Common
  import opened Bits
  import opened Crc

  /** The exponents of x^32+x^28+x^27+x^26+x^25+x^23+x^22+x^20+x^19+x^18+x^14+x^13+x^11+x^10+x^9+x^8+x^6+1. */
  const EXPONENTS: set<nat> := {32, 28, 27, 26, 25, 23, 22, 20, 19, 18, 14, 13, 11, 10, 9, 8, 6, 0}

  // A polynomial is the sequence of its coefficients, that of x^i at index i.

  /** The generator with n coefficients, or zero, by a factor t. */
  function Generator(t: bool, n: nat): (g: seq<bool>)
    ensures |g| == n
  {
    seq(n, i requires 0 <= i < n => t && i in EXPONENTS)
  }

  /** q times the generator. */
  function Times(q: seq<bool>): (p: seq<bool>)
    ensures |p| == |q| + 32
  {
    if q == [] then Zeros(32) else Xor(Generator(q[0], |q| + 32), [false] + Times(q[1..]))
  }

  /**
   * The polynomial to divide: the message, its first bit the highest coefficient, times x^32,
   * with its 32 highest coefficients complemented.
   */
  function Dividend(bits: seq<bool>): (p: seq<bool>)
    ensures |p| == |bits| + 32
  {
    var n := |bits|;
    seq(n + 32, i requires 0 <= i < n + 32 => (i >= n) != (i >= 32 && bits[n + 31 - i]))
  }

  /** A register as a polynomial of degree below 32, its lowest bit the highest coefficient. */
  function Reflected(c: Word): (p: seq<bool>)
    ensures |p| == 32
  {
    seq(32, i requires 0 <= i < 32 => c[31 - i])
  }

  /** r with higher coefficients zero. */
  function Extended(r: seq<bool>, n: nat): (p: seq<bool>)
    requires |r| <= n
    ensures |p| == n
  {
    r + Zeros(n - |r|)
  }

  // ---------------------------------------------------------------------------
  // The constant
  // ---------------------------------------------------------------------------

  lemma Nibble(v: nat, n: nat)
    ensures ToBits(v, n + 4) == [v % 2 == 1, v / 2 % 2 == 1, v / 4 % 2 == 1, v / 8 % 2 == 1] + ToBits(v / 16, n)
  {
    hide ToBits;
    ToBitsStep(v, n + 4);
    ToBitsStep(v / 2, n + 3);
    ToBitsStep(v / 4, n + 2);
    ToBitsStep(v / 8, n + 1);
    assert v / 2 / 2 == v / 4 && v / 4 / 2 == v / 8 && v / 8 / 2 == v / 16;
  }

  /** One hexadecimal digit: its four bits, and where the others are. */
  lemma DigitBits(v: nat, n: nat, i: nat)
    requires 4 <= n && i < n
    ensures i == 0 ==> ToBits(v, n)[i] == (v % 2 == 1)
    ensures i == 1 ==> ToBits(v, n)[i] == (v / 2 % 2 == 1)
    ensures i == 2 ==> ToBits(v, n)[i] == (v / 4 % 2 == 1)
    ensures i == 3 ==> ToBits(v, n)[i] == (v / 8 % 2 == 1)
    ensures i >= 4 ==> ToBits(v, n)[i] == ToBits(v / 16, n - 4)[i - 4]
  {
    hide ToBits;
    Nibble(v, n - 4);
  }

  /** The constant of the table is the generator without its highest term, reflected. */
  lemma PolynomialExponents(i: nat)
    requires i < 32
    ensures POLYNOMIAL[i] <==> 31 - i in EXPONENTS
  {
    hide ToBits;
    DigitBits(0x82F63B78, 32, i);
    if i >= 4 {
      DigitBits(0x82F63B7, 28, i - 4);
      if i >= 8 {
        DigitBits(0x82F63B, 24, i - 8);
        if i >= 12 {
          DigitBits(0x82F63, 20, i - 12);
          if i >= 16 {
            DigitBits(0x82F6, 16, i - 16);
            if i >= 20 {
              DigitBits(0x82F, 12, i - 20);
              if i >= 24 {
                DigitBits(0x82, 8, i - 24);
                if i >= 28 {
                  DigitBits(0x8, 4, i - 28);
                }
              }
            }
          }
        }
      }
    }
  }

  // ---------------------------------------------------------------------------
  // The register holds the remainder
  // ---------------------------------------------------------------------------

  /** One more message bit moves every coefficient of the dividend up by one and enters at x^32. */
  lemma DividendStep(bits: seq<bool>, b: bool, i: nat)
    requires i < |bits| + 33
    ensures Dividend(bits + [b])[i] == ((i > 0 && Dividend(bits)[i - 1]) != (i == 32 && b))
  {
  }

  lemma TimesStep(q: seq<bool>, t: bool, i: nat)
    requires i < |q| + 33
    ensures Times([t] + q)[i] == ((t && i in EXPONENTS) != (i > 0 && Times(q)[i - 1]))
  {
    assert ([t] + q)[1..] == q;
  }

  /** The register shifts and subtracts the generator when its highest coefficient comes out. */
  lemma RegisterStep(c: Word, b: bool, i: nat)
    requires i < 32
    ensures Reflected(FeedBit(c, b))[i] == ((i > 0 && Reflected(c)[i - 1]) != ((c[0] != b) && i in EXPONENTS))
  {
    PolynomialExponents(31 - i);
    hide POLYNOMIAL, EXPONENTS;
  }

  lemma DivisionStep(bits: seq<bool>, b: bool, q: seq<bool>, c: Word)
    requires |q| == |bits| && Dividend(bits) == Xor(Times(q), Extended(Reflected(c), |bits| + 32))
    ensures Dividend(bits + [b]) == Xor(Times([c[0] != b] + q), Extended(Reflected(FeedBit(c, b)), |bits| + 33))
  {
    var n, t := |bits|, c[0] != b;
    var left, right := Dividend(bits + [b]), Xor(Times([t] + q), Extended(Reflected(FeedBit(c, b)), n + 33));
    forall i | 0 <= i < n + 33 ensures left[i] == right[i] {
      CoefficientStep(bits, b, q, c, i);
    }
  }

  lemma CoefficientStep(bits: seq<bool>, b: bool, q: seq<bool>, c: Word, i: nat)
    requires |q| == |bits| && Dividend(bits) == Xor(Times(q), Extended(Reflected(c), |bits| + 32)) && i < |bits| + 33
    ensures Dividend(bits + [b])[i] == (Times([c[0] != b] + q)[i] != Extended(Reflected(FeedBit(c, b)), |bits| + 33)[i])
  {
    hide Dividend, Times, FeedBit, Xor, Reflected, EXPONENTS;
    DividendStep(bits, b, i);
    TimesStep(q, c[0] != b, i);
    if i < 32 {
      RegisterStep(c, b, i);
    } else {
      TopExponent(i);
    }
    if i > 0 {
      assert Dividend(bits)[i - 1] == (Times(q)[i - 1] != Extended(Reflected(c), |bits| + 32)[i - 1]);
    }
    assert Reflected(c)[31] == c[0] by { ReflectedTop(c); }
  }

  lemma TopExponent(i: nat)
    requires i >= 32
    ensures i in EXPONENTS <==> i == 32
  {
  }

  lemma ReflectedTop(c: Word)
    ensures Reflected(c)[31] == c[0]
  {
  }

  lemma FeedLast(c: Word, bits: seq<bool>, b: bool)
    ensures FeedBits(c, bits + [b]) == FeedBit(FeedBits(c, bits), b)
  {
    FeedConcat(c, bits, [b]);
    assert FeedBits(FeedBit(FeedBits(c, bits), b), [b][1..]) == FeedBit(FeedBits(c, bits), b);
  }

  /** The register after a message is what the division leaves over. */
  lemma {:induction false} RegisterDivides(bits: seq<bool>) returns (q: seq<bool>)
    ensures |q| == |bits| && Dividend(bits) == Xor(Times(q), Extended(Reflected(FeedBits(ONES, bits)), |bits| + 32))
    decreases |bits|
  {
    if bits == [] {
      q := [];
      assert FeedBits(ONES, []) == ONES;
      assert Dividend([]) == Xor(Zeros(32), Extended(Reflected(ONES), 32));
    } else {
      var n := |bits| - 1;
      var q0 := RegisterDivides(bits[..n]);
      assert bits == bits[..n] + [bits[n]];
      var c := FeedBits(ONES, bits[..n]);
      FeedLast(ONES, bits[..n], bits[n]);
      DivisionStep(bits[..n], bits[n], q0, c);
      q := [c[0] != bits[n]] + q0;
    }
  }

  /** The complement of the check value, as a polynomial of degree below 32. */
  function RemainderOf(data: seq<Byte>): (r: seq<bool>)
    ensures |r| == 32
  {
    Reflected(Xor(SerialCrc(data), ONES))
  }

  lemma ComplementTwice(w: Word)
    ensures Xor(Xor(w, ONES), ONES) == w
  {
  }

  /**
   * The check value, complemented, is the remainder of the message polynomial by the Castagnoli
   * polynomial: the dividend is a multiple of the generator plus a polynomial of degree below 32.
   */
  lemma CrcIsRemainder(data: seq<Byte>)
    ensures exists q: seq<bool> :: |q| == 8 * |data| && Dividend(BitStream(data)) == Xor(Times(q), Extended(RemainderOf(data), |q| + 32))
  {
    hide FeedBits, Times, Dividend, Reflected, Xor;
    var q := RegisterDivides(BitStream(data));
    ComplementTwice(FeedBits(ONES, BitStream(data)));
    assert |q| == 8 * |data|;
  }

  // ---------------------------------------------------------------------------
  // There is only one remainder
  // ---------------------------------------------------------------------------

  lemma {:induction false} TimesZeros(n: nat)
    ensures Times(Zeros(n)) == Zeros(n + 32)
  {
    if n > 0 {
      TimesZeros(n - 1);
      assert Zeros(n)[1..] == Zeros(n - 1);
    }
  }

  lemma {:induction false} TimesXor(q: seq<bool>, r: seq<bool>)
    requires |q| == |r|
    ensures Times(Xor(q, r)) == Xor(Times(q), Times(r))
    decreases |q|
  {
    if q != [] {
      TimesXor(q[1..], r[1..]);
      assert Xor(q, r)[1..] == Xor(q[1..], r[1..]);
    }
  }

  /** The highest term of a multiple comes from the highest term of its factor. */
  lemma {:induction false} TimesTop(d: seq<bool>, j: nat)
    requires j < |d| && d[j] && forall k :: j < k < |d| ==> !d[k]
    ensures Times(d)[j + 32]
    decreases |d|
  {
    var rest := d[1..];
    if j > 0 {
      TimesTop(rest, j - 1);
    } else {
      assert rest == Zeros(|rest|);
      TimesZeros(|rest|);
    }
  }

  lemma {:induction false} TopTerm(d: seq<bool>) returns (j: nat)
    requires exists k :: 0 <= k < |d| && d[k]
    ensures j < |d| && d[j] && forall k :: j < k < |d| ==> !d[k]
  {
    j := |d| - 1;
    while !d[j]
      invariant j < |d| && forall k :: j < k < |d| ==> !d[k]
      decreases j
    {
      var w :| 0 <= w < |d| && d[w];
      j := j - 1;
    }
  }

  /** A remainder of degree below 32 is determined by the dividend. */
  lemma RemainderUnique(q: seq<bool>, r: seq<bool>, q': seq<bool>, r': seq<bool>)
    requires |q| == |q'| && |r| == |r'| == 32
    requires Xor(Times(q), Extended(r, |q| + 32)) == Xor(Times(q'), Extended(r', |q| + 32))
    ensures r == r'
  {
    hide Times, Extended, Xor;
    var d := Xor(q, q');
    forall i | 32 <= i < |d| + 32 ensures !Times(d)[i] {
      DifferenceAt(q, r, q', r', i);
      ExtendedAt(r, |q| + 32, i);
      ExtendedAt(r', |q| + 32, i);
    }
    MultipleBelow(d);
    TimesZeros(|d|);
    forall i | 0 <= i < 32 ensures r[i] == r'[i] {
      DifferenceAt(q, r, q', r', i);
      ExtendedAt(r, |q| + 32, i);
      ExtendedAt(r', |q| + 32, i);
    }
  }

  /** The only multiple of degree below 32 is zero. */
  lemma MultipleBelow(d: seq<bool>)
    requires forall i :: 32 <= i < |d| + 32 ==> !Times(d)[i]
    ensures d == Zeros(|d|)
  {
    hide Times;
    if exists k :: 0 <= k < |d| && d[k] {
      var j := TopTerm(d);
      TimesTop(d, j);
      assert false;
    }
  }

  lemma DifferenceAt(q: seq<bool>, r: seq<bool>, q': seq<bool>, r': seq<bool>, i: nat)
    requires |q| == |q'| && |r| == |r'| == 32 && i < |q| + 32
    requires Xor(Times(q), Extended(r, |q| + 32)) == Xor(Times(q'), Extended(r', |q| + 32))
    ensures Times(Xor(q, q'))[i] == (Extended(r, |q| + 32)[i] != Extended(r', |q| + 32)[i])
  {
    hide Times, Extended;
    TimesXor(q, q');
    assert Xor(Times(q), Extended(r, |q| + 32))[i] == Xor(Times(q'), Extended(r', |q| + 32))[i];
  }

  lemma ExtendedAt(r: seq<bool>, n: nat, i: nat)
    requires |r| <= n && i < n
    ensures Extended(r, n)[i] == (i < |r| && r[i])
  {
  }

  /** Bit 8 i + j of the message is bit j of byte i, the lowest first. */
  lemma {:induction false} BitStreamAt(data: seq<Byte>, i: nat, j: nat)
    requires i < |data| && j < 8
    ensures BitStream(data)[8 * i + j] <==> (data[i] / Pow2(j)) % 2 == 1
    decreases |data|
  {
    if i > 0 {
      BitStreamAt(data[1..], i - 1, j);
    }
  }
}
