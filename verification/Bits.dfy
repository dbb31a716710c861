/** Bit strings: the deflate stream seen as a sequence of bits, least
    significant bit of each byte first (section 3.1.1 of RFC 1951). */
module Bits {

  type Byte = b: int | 0 <= b < 256
  type Bit = b: int | 0 <= b < 2

  function Pow2(n: nat): (p: nat)
    ensures p >= 1
  {
    if n == 0 then 1 else 2 * Pow2(n - 1)
  }

  lemma {:induction false} Pow2Add(m: nat, n: nat)
    ensures Pow2(m + n) == Pow2(m) * Pow2(n)
  {
    if m > 0 {
      Pow2Add(m - 1, n);
      assert Pow2(m) * Pow2(n) == 2 * (Pow2(m - 1) * Pow2(n));
    }
  }

  /** The powers of two the decoder's constants come from. */
  lemma {:induction false} Pow2Values()
    ensures Pow2(0) == 1 && Pow2(1) == 2 && Pow2(2) == 4 && Pow2(3) == 8 && Pow2(4) == 16 && Pow2(5) == 32
    ensures Pow2(6) == 64 && Pow2(7) == 128 && Pow2(8) == 256 && Pow2(9) == 512 && Pow2(10) == 1024
    ensures Pow2(11) == 2048 && Pow2(12) == 4096 && Pow2(13) == 8192 && Pow2(14) == 16384
    ensures Pow2(15) == 32768 && Pow2(16) == 65536
  {
    assert Pow2(4) == 16;
    assert Pow2(8) == 256;
    assert Pow2(12) == 4096;
  }

  /** Value of a bit string packed starting with its least significant bit. */
  function LsbVal(b: seq<Bit>): (v: nat)
  {
    if |b| == 0 then 0 else b[0] + 2 * LsbVal(b[1..])
  }

  /** Value of a bit string packed starting with its most significant bit, as Huffman codes are. */
  function MsbVal(b: seq<Bit>): (v: nat)
  {
    if |b| == 0 then 0 else 2 * MsbVal(b[..|b| - 1]) + b[|b| - 1]
  }

  lemma {:induction false} LsbBound(b: seq<Bit>)
    ensures LsbVal(b) < Pow2(|b|)
  {
    if |b| > 0 { LsbBound(b[1..]); }
  }

  lemma {:induction false} MsbBound(b: seq<Bit>)
    ensures MsbVal(b) < Pow2(|b|)
  {
    if |b| > 0 { MsbBound(b[..|b| - 1]); }
  }

  lemma {:induction false} Doubled(x: int, y: int)
    ensures 2 * x * y == 2 * (x * y)
  {
  }

  lemma {:induction false} LsbConcat(a: seq<Bit>, b: seq<Bit>)
    ensures LsbVal(a + b) == LsbVal(a) + Pow2(|a|) * LsbVal(b)
  {
    if |a| == 0 {
      assert a + b == b;
    } else {
      assert (a + b)[1..] == a[1..] + b;
      LsbConcat(a[1..], b);
      Doubled(Pow2(|a| - 1), LsbVal(b));
    }
  }

  /** Dropping and keeping the low bits of a value is splitting its bit string. */
  lemma {:induction false} LsbSplit(b: seq<Bit>, n: nat)
    requires n <= |b|
    ensures LsbVal(b) / Pow2(n) == LsbVal(b[n..])
    ensures LsbVal(b) % Pow2(n) == LsbVal(b[..n])
  {
    assert b[..n] + b[n..] == b;
    LsbConcat(b[..n], b[n..]);
    LsbBound(b[..n]);
    DivModUnique(LsbVal(b), Pow2(n), LsbVal(b[n..]), LsbVal(b[..n]));
  }

  lemma {:induction false} DivModUnique(x: int, d: int, q: int, r: int)
    requires 0 <= r < d && x == r + d * q
    ensures x / d == q && x % d == r
  {
    var k := x / d - q;
    assert d * k == d * (x / d) - d * q == r - x % d;
    assert k >= 1 ==> d * k >= d;
    assert k <= -1 ==> d * k <= -d;
  }

  function BitOf(b: int, k: nat): Bit
  {
    (b / Pow2(k)) % 2
  }

  /** The input bytes as one bit string. */
  function ToBits(s: seq<Byte>): (b: seq<Bit>)
    ensures |b| == 8 * |s|
  {
    seq(8 * |s|, i requires 0 <= i < 8 * |s| => BitOf(s[i / 8], i % 8))
  }

  /** The low n bits of v, least significant first. */
  function LsbBits(v: nat, n: nat): (b: seq<Bit>)
    ensures |b| == n
  {
    if n == 0 then [] else [v % 2] + LsbBits(v / 2, n - 1)
  }

  /** The low n bits of v, most significant first. */
  function MsbBits(v: nat, n: nat): (b: seq<Bit>)
    ensures |b| == n
  {
    if n == 0 then [] else MsbBits(v / 2, n - 1) + [v % 2]
  }

  lemma {:induction false} LsbRoundTrip(v: nat, n: nat)
    requires v < Pow2(n)
    ensures LsbVal(LsbBits(v, n)) == v
  {
    if n > 0 {
      LsbRoundTrip(v / 2, n - 1);
      assert LsbBits(v, n)[1..] == LsbBits(v / 2, n - 1);
    }
  }

  lemma {:induction false} MsbRoundTrip(v: nat, n: nat)
    requires v < Pow2(n)
    ensures MsbVal(MsbBits(v, n)) == v
  {
    if n > 0 {
      MsbRoundTrip(v / 2, n - 1);
      assert MsbBits(v, n)[..n - 1] == MsbBits(v / 2, n - 1);
    }
  }

  /** Byte k of the input is the value of its eight bits. */
  lemma {:induction false} ByteBits(s: seq<Byte>, k: nat)
    requires k < |s|
    ensures LsbVal(ToBits(s)[8 * k..8 * k + 8]) == s[k]
  {
    var t := ToBits(s)[8 * k..8 * k + 8];
    forall i | 0 <= i < 8
      ensures t[i] == BitOf(s[k], i)
    {
      assert (8 * k + i) / 8 == k && (8 * k + i) % 8 == i;
    }
    var u := LsbBits(s[k], 8);
    Pow2Values();
    LsbRoundTrip(s[k], 8);
    forall i | 0 <= i < 8
      ensures u[i] == t[i]
    {
      DigitOf(u, i);
    }
    assert t == u;
  }

  lemma {:induction false} ConcatAt(b: seq<Bit>, p: nat, q: nat, r: nat)
    requires p <= q <= r <= |b|
    ensures LsbVal(b[p..r]) == LsbVal(b[p..q]) + LsbVal(b[q..r]) * Pow2(q - p)
  {
    hide LsbVal, Pow2;
    assert b[p..r] == b[p..q] + b[q..r];
    LsbConcat(b[p..q], b[q..r]);
  }

  /** Appending byte k to the bits from p up to it. */
  lemma {:induction false} LoadByte(s: seq<Byte>, p: nat, k: nat)
    requires k < |s| && p <= 8 * k
    ensures LsbVal(ToBits(s)[p..8 * k + 8]) == LsbVal(ToBits(s)[p..8 * k]) + s[k] * Pow2(8 * k - p)
  {
    ByteBits(s, k);
    ConcatAt(ToBits(s), p, 8 * k, 8 * k + 8);
  }

  /** Taking n bits from the front of the bits p..q. */
  lemma {:induction false} TakeBits(b: seq<Bit>, p: nat, q: nat, n: nat)
    requires p + n <= q <= |b|
    ensures LsbVal(b[p..q]) / Pow2(n) == LsbVal(b[p + n..q])
    ensures LsbVal(b[p..q]) % Pow2(n) == LsbVal(b[p..p + n])
  {
    LsbSplit(b[p..q], n);
    assert b[p..q][..n] == b[p..p + n] && b[p..q][n..] == b[p + n..q];
  }

  /** Packs bits into bytes, filling the last byte with zero bits. */
  function Pack(b: seq<Bit>): (s: seq<Byte>)
    decreases |b|
  {
    if |b| == 0 then []
    else if |b| < 8 then LsbBound(b); Pow2Values(); assert Pow2(|b|) <= 256 by { Pow2Mono(|b|, 8); } [LsbVal(b)]
    else LsbBound(b[..8]); Pow2Values(); [LsbVal(b[..8])] + Pack(b[8..])
  }

  lemma {:induction false} Pow2Mono(m: nat, n: nat)
    requires m <= n
    ensures Pow2(m) <= Pow2(n)
  {
    if m < n { Pow2Mono(m, n - 1); }
  }

  /** Packing loses nothing: the packed bytes start with the given bits. */
  lemma {:induction false} PackPrefix(b: seq<Bit>)
    ensures |b| <= |ToBits(Pack(b))| < |b| + 8
    ensures ToBits(Pack(b))[..|b|] == b
    decreases |b|
  {
    hide LsbVal, BitOf, Pow2;
    if |b| >= 8 {
      PackPrefix(b[8..]);
    }
    forall i | 0 <= i < |b|
      ensures ToBits(Pack(b))[i] == b[i]
    {
      if i < 8 {
        PackFirst(b, i);
      } else {
        var rest := Pack(b[8..]);
        assert Pack(b)[1..] == rest && Pack(b)[i / 8] == rest[(i - 8) / 8] && i % 8 == (i - 8) % 8;
        assert ToBits(rest)[..|b| - 8][i - 8] == b[8..][i - 8];
      }
    }
  }

  lemma {:induction false} PackFirst(b: seq<Bit>, i: nat)
    requires i < |b| && i < 8
    ensures |Pack(b)| > 0 && BitOf(Pack(b)[0], i) == b[i]
  {
    DigitOf(if |b| < 8 then b else b[..8], i);
  }

  lemma {:induction false} DigitOf(b: seq<Bit>, i: nat)
    requires i < |b|
    ensures BitOf(LsbVal(b), i) == b[i]
  {
    LsbSplit(b, i);
    assert b[i..][0] == b[i];
  }

  // ----- Numbers as sets of bits -----

  predicate IsSet(w: nat, k: nat) {
    if k == 0 then w % 2 == 1 else IsSet(w / 2, k - 1)
  }

  lemma {:induction false} ZeroBits(k: nat)
    ensures !IsSet(0, k)
  {
    if k > 0 {
      ZeroBits(k - 1);
    }
  }

  /** Numbers with the same bits are the same. */
  lemma {:induction false} SameBits(a: nat, b: nat)
    requires forall k: nat :: IsSet(a, k) == IsSet(b, k)
    ensures a == b
    decreases a + b
  {
    if a + b > 0 {
      assert IsSet(a, 0) == IsSet(b, 0);
      forall k: nat
        ensures IsSet(a / 2, k) == IsSet(b / 2, k)
      {
        assert IsSet(a, k + 1) == IsSet(b, k + 1);
      }
      SameBits(a / 2, b / 2);
    }
  }

  /** The bitwise or. */
  function Or(a: nat, b: nat): nat
    decreases a + b
  {
    if a == 0 then b else if b == 0 then a
    else 2 * Or(a / 2, b / 2) + if a % 2 == 1 || b % 2 == 1 then 1 else 0
  }

  lemma {:induction false} OrBit(a: nat, b: nat, k: nat)
    ensures IsSet(Or(a, b), k) <==> IsSet(a, k) || IsSet(b, k)
    decreases k
  {
    ZeroBits(k);
    if a != 0 && b != 0 && k > 0 {
      OrBit(a / 2, b / 2, k - 1);
    }
  }

  lemma {:induction false} ShiftBit(w: nat, off: nat, k: nat)
    ensures IsSet(w * Pow2(off), k) <==> k >= off && IsSet(w, k - off)
  {
    if off > 0 {
      var v := w * Pow2(off - 1);
      assert w * Pow2(off) == 2 * v;
      if k > 0 {
        ShiftBit(w, off - 1, k - 1);
      }
    }
  }

  lemma {:induction false} Pow2Half(n: nat)
    ensures Pow2(n) == if n == 0 then 1 else 2 * Pow2(n - 1)
  {
  }

  lemma {:induction false} HalfMod(w: nat, p: nat)
    requires p > 0
    ensures w % (2 * p) == 2 * (w / 2 % p) + w % 2
  {
    var h, q := w / 2, w / 2 / p;
    assert h == q * p + h % p;
    assert q * (2 * p) == 2 * (q * p);
    DivModUnique(w, 2 * p, q, 2 * (h % p) + w % 2);
  }

  lemma {:induction false} LowBit(w: nat, len: nat, k: nat)
    ensures IsSet(w % Pow2(len), k) <==> k < len && IsSet(w, k)
  {
    hide Pow2;
    Pow2Half(len);
    if len == 0 {
      ZeroBits(k);
    } else {
      HalfMod(w, Pow2(len - 1));
      if k > 0 {
        LowBit(w / 2, len - 1, k - 1);
      }
    }
  }

  /** Bits only below n make a number below 2^n. */
  lemma {:induction false} BitsBelow(w: nat, n: nat)
    requires forall k: nat :: IsSet(w, k) ==> k < n
    ensures w < Pow2(n)
  {
    if n == 0 {
      forall k: nat
        ensures IsSet(w, k) == IsSet(0, k)
      {
        ZeroBits(k);
      }
      SameBits(w, 0);
    } else {
      forall k: nat | IsSet(w / 2, k)
        ensures k < n - 1
      {
        assert IsSet(w, k + 1);
      }
      BitsBelow(w / 2, n - 1);
    }
  }
}
