/** Fixed-width machine words as bit sequences, least significant bit first. */
module Bits {

  type Word = w: seq<bool> | |w| == 32 witness seq(32, _ => false)

  /** The low n bits of v. */
  function ToBits(v: nat, n: nat): (s: seq<bool>)
    ensures |s| == n
  {
    seq(n, i requires 0 <= i < n => (v / Pow2(i)) % 2 == 1)
  }

  function FromBits(s: seq<bool>): (v: nat)
    ensures v < Pow2(|s|)
  {
    if s == [] then 0 else (if s[0] then 1 else 0) + 2 * FromBits(s[1..])
  }

  function Pow2(n: nat): (p: nat)
    ensures p >= 1
  {
    if n == 0 then 1 else 2 * Pow2(n - 1)
  }

  /** Exclusive or, position by position. */
  function Xor(a: seq<bool>, b: seq<bool>): (r: seq<bool>)
    requires |a| == |b|
    ensures |r| == |a|
    ensures forall i :: 0 <= i < |a| ==> r[i] == (a[i] != b[i])
  {
    seq(|a|, i requires 0 <= i < |a| => a[i] != b[i])
  }

  function Zeros(n: nat): (r: seq<bool>)
    ensures |r| == n
    ensures forall i :: 0 <= i < n ==> !r[i]
  {
    seq(n, _ => false)
  }

  /** Logical shift right of a word. */
  function Shr(w: seq<bool>, n: nat): (r: seq<bool>)
    requires n <= |w|
    ensures |r| == |w|
    ensures forall i :: 0 <= i < |w| ==> r[i] == (i + n < |w| && w[i + n])
  {
    w[n..] + Zeros(n)
  }

  /** x divided by p is the only q that leaves a remainder below p. */
  lemma DivUnique(x: int, p: int, q: int, r: int)
    requires p > 0 && 0 <= r < p && x == q * p + r
    ensures x / p == q && x % p == r
  {
    var k, m := x / p, x % p;
    assert x == k * p + m;
    assert (k - q) * p == r - m;
    if k > q {
      MulAtLeast(k - q, p);
      assert false;
    } else if k < q {
      MulAtLeast(q - k, p);
      assert false;
    }
  }

  lemma ModAdd(a: nat, b: nat, m: nat)
    requires m > 0
    ensures (a % m + b) % m == (a + b) % m
  {
    var q, r := (a % m + b) / m, (a % m + b) % m;
    assert a + b == m * (a / m + q) + r;
    DivUnique(a + b, m, a / m + q, r);
  }

  lemma MulAtLeast(a: int, p: int)
    requires a >= 1 && p > 0
    ensures a * p >= p
  {
    assert a * p == (a - 1) * p + p;
  }

  /** Dividing by a and then by p is dividing by their product. */
  lemma DivDiv(v: nat, a: nat, p: nat)
    requires a >= 1 && p >= 1
    ensures a * p >= 1
    ensures (v / a) / p == v / (a * p)
  {
    MulAtLeast(a, p);
    var x, y := v / a, v % a;
    var q, r := x / p, x % p;
    assert v == x * a + y && x == q * p + r;
    assert v == q * (a * p) + (r * a + y) by {
      assert x * a == (q * p) * a + r * a;
      assert (q * p) * a == q * (a * p);
    }
    assert r * a + y < a * p by {
      assert (r + 1) * a <= p * a by {
        if r + 1 < p { MulAtLeast(p - r - 1, a); }
      }
    }
    DivUnique(v, a * p, q, r * a + y);
  }

  lemma ToBitsStep(v: nat, n: nat)
    requires n > 0
    ensures ToBits(v, n) == [v % 2 == 1] + ToBits(v / 2, n - 1)
  {
    var r := [v % 2 == 1] + ToBits(v / 2, n - 1);
    forall i | 0 <= i < n ensures ToBits(v, n)[i] == r[i] {
      if i > 0 {
        DivDiv(v, 2, Pow2(i - 1));
      }
    }
  }

  lemma {:induction false} FromToBits(v: nat, n: nat)
    requires v < Pow2(n)
    ensures FromBits(ToBits(v, n)) == v
    decreases n
  {
    if n > 0 {
      ToBitsStep(v, n);
      FromToBits(v / 2, n - 1);
      assert ToBits(v, n)[1..] == ToBits(v / 2, n - 1);
    }
  }

  lemma {:induction false} ToFromBits(s: seq<bool>)
    ensures ToBits(FromBits(s), |s|) == s
  {
    if s != [] {
      ToFromBits(s[1..]);
      ToBitsStep(FromBits(s), |s|);
      assert FromBits(s) / 2 == FromBits(s[1..]);
      assert FromBits(s) % 2 == 1 <==> s[0];
      assert s == [s[0]] + s[1..];
    }
  }

  lemma ToBitsInjective(v: nat, w: nat, n: nat)
    requires v < Pow2(n) && w < Pow2(n)
    requires ToBits(v, n) == ToBits(w, n)
    ensures v == w
  {
    FromToBits(v, n);
    FromToBits(w, n);
  }

  lemma ByteWidth()
    ensures Pow2(8) == 256
    ensures Pow2(16) == 0x1_0000
    ensures Pow2(24) == 0x100_0000
    ensures Pow2(32) == 0x1_0000_0000
    ensures Pow2(64) == 0x1_0000_0000_0000_0000
  {
    hide Pow2;
    Pow2Eight();
    Pow2Add(8, 8);
    Pow2Add(8, 16);
    Pow2Add(16, 16);
    Pow2Add(32, 32);
  }

  lemma Pow2Eight()
    ensures Pow2(8) == 256
  {
  }

  lemma {:induction false} Pow2Add(m: nat, n: nat)
    ensures Pow2(m + n) == Pow2(m) * Pow2(n)
  {
    if m > 0 {
      Pow2Add(m - 1, n);
      assert Pow2(m + n) == 2 * Pow2(m - 1 + n);
    }
  }

  lemma {:induction false} Pow2Monotone(m: nat, n: nat)
    requires m <= n
    ensures Pow2(m) <= Pow2(n)
    decreases n
  {
    if m < n {
      Pow2Monotone(m, n - 1);
    }
  }
}
