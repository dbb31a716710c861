/** The internet checksum (sections 1 and 2 of RFC 1071) as the executor computes it over chunks, with a
    32-bit accumulator on a little-endian host. */
module Checksum {
  import opened Bits

  const WRAP := 0x1_0000_0000

  /** The sum of the 16-bit words, a last odd byte counting as its word's low half. */
  function Sum16(d: seq<Byte>): nat {
    if |d| == 0 then 0 else if |d| == 1 then d[0] else d[0] as int + 256 * d[1] as int + Sum16(d[2..])
  }

  lemma {:induction false} SumConcat(a: seq<Byte>, b: seq<Byte>)
    requires |a| % 2 == 0
    ensures Sum16(a + b) == Sum16(a) + Sum16(b)
  {
    if |a| == 0 {
      assert a + b == b;
    } else {
      assert (a + b)[2..] == a[2..] + b;
      SumConcat(a[2..], b);
    }
  }

  lemma {:induction false} SumBound(d: seq<Byte>)
    ensures Sum16(d) <= (|d| + 1) / 2 * 0xffff
  {
    if |d| >= 2 {
      SumBound(d[2..]);
    }
  }

  /** The one's-complement sum of 16-bit words, given their plain sum: 0 only for nothing but zeros. */
  function Canon(x: nat): (r: nat)
    ensures r <= 0xffff && (x <= 0xffff ==> r == x)
  {
    if x == 0 then 0 else (x - 1) % 0xffff + 1
  }

  lemma {:induction false} CanonUnique(x: nat, q: nat, r: nat)
    requires x == q * 0xffff + r && 1 <= r <= 0xffff
    ensures Canon(x) == r
  {
    DivModUnique(x - 1, 0xffff, q, r - 1);
  }

  /** Adding the upper half to the lower keeps the one's-complement sum. */
  lemma {:induction false} CanonFold(x: nat)
    ensures Canon(x % 0x10000 + x / 0x10000) == Canon(x)
  {
    var y := x % 0x10000 + x / 0x10000;
    if x > 0 {
      var q, r := (y - 1) / 0xffff, (y - 1) % 0xffff + 1;
      assert y == q * 0xffff + r;
      CanonUnique(y, q, r);
      CanonUnique(x, q + x / 0x10000, r);
    }
  }

  lemma {:induction false} CanonAdd(x: nat, y: nat)
    ensures Canon(Canon(x) + y) == Canon(x + y)
  {
    if x > 0 {
      var q := (x - 1) / 0xffff;
      assert x == q * 0xffff + Canon(x);
      var z := Canon(x) + y;
      var p, r := (z - 1) / 0xffff, (z - 1) % 0xffff + 1;
      assert z == p * 0xffff + r;
      CanonUnique(z, p, r);
      CanonUnique(x + y, p + q, r);
    }
  }

  /** The complement that is stored. */
  function Digest(sum: nat): (d: nat)
    ensures d <= 0xffff
  {
    0xffff - Canon(sum)
  }

  /** With its own digest added, a sum comes out as all ones. */
  lemma {:induction false} DigestCancels(sum: nat)
    ensures Canon(sum + Digest(sum)) == 0xffff
  {
    if sum > 0 {
      CanonUnique(sum + Digest(sum), (sum - 1) / 0xffff, 0xffff);
    }
  }

  // ----- The accumulator -----

  class Csum {
    var acc: nat

    constructor ()
      ensures acc == 0
    {
      acc := 0;
    }

    /** The plain sum wraps at 32 bits; it is folded before it is kept. */
    method Update(data: seq<Byte>)
      requires acc <= 0xffff
      modifies this
      ensures acc <= 0xffff && acc == Canon(Mod32(old(acc) + Sum16(data)))
    {
      hide Mod32, Canon;
      if |data| == 0 {
        return;
      }
      var i := 0;
      while i < |data| - 1
        invariant 0 <= i <= |data| && i % 2 == 0 && acc < WRAP
        invariant Mod32(acc + Sum16(data[i..])) == Mod32(old(acc) + Sum16(data))
      {
        var word := data[i] as int + 256 * data[i + 1] as int;
        assert data[i..][2..] == data[i + 2..];
        WrapAdd(acc + word, Sum16(data[i + 2..]));
        acc := Mod32(acc + word);
        i := i + 2;
      }
      if |data| % 2 == 1 {
        assert data[i..] == [data[|data| - 1]];
        acc := Mod32(acc + data[|data| - 1]);
      } else {
        assert data[i..] == [];
      }
      Fold();
    }

    method Fold()
      requires acc < WRAP
      modifies this
      ensures acc == Canon(old(acc))
    {
      while acc > 0xffff
        invariant acc < WRAP && Canon(acc) == Canon(old(acc))
      {
        CanonFold(acc);
        acc := acc % 0x10000 + acc / 0x10000;
      }
    }

    method Result() returns (d: nat)
      requires acc <= 0xffff
      ensures d == 0xffff - acc
    {
      d := 0xffff - acc;
    }
  }

  /** A value in a 32-bit unsigned variable. */
  function Mod32(x: nat): (r: nat)
    ensures r < WRAP && (x < WRAP ==> r == x)
  {
    x % WRAP
  }

  lemma {:induction false} WrapAdd(x: nat, y: nat)
    ensures Mod32(Mod32(x) + y) == Mod32(x + y)
  {
    var q := x / WRAP;
    var z := x % WRAP + y;
    DivModUnique(x + y, WRAP, z / WRAP + q, z % WRAP);
  }

  /** Up to 131072 bytes the accumulator does not wrap, and one word more can make it. */
  lemma {:induction false} NoOverflow(acc: nat, data: seq<Byte>)
    requires acc <= 0xffff && |data| <= 131072
    ensures acc + Sum16(data) < WRAP
  {
    SumBound(data);
  }

  lemma {:induction false} OverflowBeyond()
    ensures 0xffff + Sum16(seq(131074, i => 255)) >= WRAP
  {
    AllOnes(65537);
  }

  lemma {:induction false} AllOnes(n: nat)
    ensures Sum16(seq(2 * n, i => 255)) == n * 0xffff
  {
    if n > 0 {
      assert seq(2 * n, i => 255)[2..] == seq(2 * (n - 1), i => 255);
      AllOnes(n - 1);
    }
  }

  // ----- Chunks -----

  function Flatten(chunks: seq<seq<Byte>>): seq<Byte> {
    if |chunks| == 0 then [] else Flatten(chunks[..|chunks| - 1]) + chunks[|chunks| - 1]
  }

  /** All chunks but the last are of even length, and none is too long for the accumulator. */
  predicate Regular(chunks: seq<seq<Byte>>) {
    && (forall i :: 0 <= i < |chunks| ==> |chunks[i]| <= 131072)
    && (forall i :: 0 <= i < |chunks| - 1 ==> |chunks[i]| % 2 == 0)
  }

  lemma {:induction false} FlattenMore(chunks: seq<seq<Byte>>, n: nat)
    requires Regular(chunks) && n < |chunks|
    ensures Flatten(chunks[..n + 1]) == Flatten(chunks[..n]) + chunks[n]
    ensures |Flatten(chunks[..n])| % 2 == 0
    ensures Sum16(Flatten(chunks[..n + 1])) == Sum16(Flatten(chunks[..n])) + Sum16(chunks[n])
  {
    assert chunks[..n + 1][..n] == chunks[..n];
    if n > 0 {
      FlattenMore(chunks, n - 1);
    }
    SumConcat(Flatten(chunks[..n]), chunks[n]);
  }

  lemma {:induction false} ChunkAdds(chunks: seq<seq<Byte>>, n: nat)
    requires Regular(chunks) && n < |chunks|
    ensures Canon(Mod32(Canon(Sum16(Flatten(chunks[..n]))) + Sum16(chunks[n])))
            == Canon(Sum16(Flatten(chunks[..n + 1])))
  {
    hide Canon, Sum16, Flatten;
    FlattenMore(chunks, n);
    NoOverflow(Canon(Sum16(Flatten(chunks[..n]))), chunks[n]);
    CanonAdd(Sum16(Flatten(chunks[..n])), Sum16(chunks[n]));
  }

  lemma {:induction false} NoChunks()
    ensures Canon(Sum16(Flatten([]))) == 0
  {
  }

  /** Fed chunk by chunk, the digest is that of all the bytes in one piece. */
  method DigestChunks(chunks: seq<seq<Byte>>) returns (d: nat)
    ensures Regular(chunks) ==> d == Digest(Sum16(Flatten(chunks)))
  {
    hide Regular, Sum16, Flatten, Canon;
    var csum := new Csum();
    var i := 0;
    assert chunks[..0] == [];
    NoChunks();
    while i < |chunks|
      invariant 0 <= i <= |chunks| && csum.acc <= 0xffff
      invariant Regular(chunks) ==> csum.acc == Canon(Sum16(Flatten(chunks[..i])))
    {
      if Regular(chunks) {
        ChunkAdds(chunks, i);
      }
      csum.Update(chunks[i]);
      i := i + 1;
    }
    assert chunks[..i] == chunks;
    d := csum.Result();
  }

  // ----- Storing the digest -----

  /** The bytes with a 16-bit word stored at p. */
  function Stored(d: seq<Byte>, p: nat, v: nat): seq<Byte>
    requires p + 1 < |d| && v <= 0xffff
  {
    d[p := v % 256][p + 1 := v / 256]
  }

  lemma {:induction false} SumStored(d: seq<Byte>, p: nat, v: nat)
    requires p + 1 < |d| && p % 2 == 0 && v <= 0xffff
    ensures Sum16(Stored(d, p, v)) == Sum16(Stored(d, p, 0)) + v
  {
    var a, b := d[..p], d[p + 2..];
    assert Stored(d, p, v) == a + ([v % 256, v / 256] + b);
    assert Stored(d, p, 0) == a + ([0, 0] + b);
    SumConcat(a, [v % 256, v / 256] + b);
    SumConcat(a, [0, 0] + b);
    SumConcat([v % 256, v / 256], b);
    SumConcat([0, 0], b);
  }

  /** Data whose checksum field, at an even place and zero before, holds the digest sums to all ones. */
  lemma {:induction false} StoredSums(d: seq<Byte>, p: nat, before: nat)
    requires p + 1 < |d| && p % 2 == 0 && d[p] == d[p + 1] == 0
    ensures Canon(before + Sum16(Stored(d, p, Digest(before + Sum16(d))))) == 0xffff
  {
    assert Stored(d, p, 0) == d;
    SumStored(d, p, Digest(before + Sum16(d)));
    DigestCancels(before + Sum16(d));
  }

  // ----- Pseudo-headers -----

  function Swap16(v: nat): nat {
    v % 256 * 256 + v / 256 % 256
  }

  function Swap32(v: nat): nat {
    Swap16(v % 0x10000) * 0x10000 + Swap16(v / 0x10000 % 0x10000)
  }

  /** A constant chunk's bytes as they lie in memory. */
  function Const16(v: nat): seq<Byte> {
    [v % 256, v / 256 % 256]
  }

  function Const32(v: nat): seq<Byte> {
    Const16(v % 0x10000) + Const16(v / 0x10000)
  }

  /** Most significant byte first. */
  function Big16(v: nat): seq<Byte> {
    [v / 256 % 256, v % 256]
  }

  function Big32(v: nat): seq<Byte> {
    Big16(v / 0x10000 % 0x10000) + Big16(v % 0x10000)
  }

  lemma {:induction false} Swapped16(v: nat)
    ensures Const16(Swap16(v)) == Big16(v) && Swap16(v) < 0x10000
  {
    DivModUnique(Swap16(v), 256, v % 256, v / 256 % 256);
  }

  lemma {:induction false} Swapped32(v: nat)
    ensures Const32(Swap32(v)) == Big32(v)
  {
    hide Swap16, Const16, Big16;
    var lo, hi := v % 0x10000, v / 0x10000 % 0x10000;
    Swapped16(lo);
    Swapped16(hi);
    DivModUnique(Swap32(v), 0x10000, Swap16(lo), Swap16(hi));
  }

  function PseudoV4(src: seq<Byte>, dst: seq<Byte>, protocol: Byte, packet: seq<Byte>): seq<seq<Byte>> {
    [src, dst, Const16(Swap16(protocol)), Const16(Swap16(|packet|)), packet]
  }

  function PseudoV6(src: seq<Byte>, dst: seq<Byte>, protocol: Byte, packet: seq<Byte>): seq<seq<Byte>> {
    [src, dst, Const32(Swap32(|packet|)), Const32(Swap32(protocol)), packet]
  }

  /** A transport packet with its checksum at an even place, stored as computed over the pseudo-header and
      the packet with that field zero, passes the receiver's check. */
  lemma {:induction false} PseudoChecks(header: seq<Byte>, packet: seq<Byte>, p: nat)
    requires |header| % 2 == 0 && p + 1 < |packet| && p % 2 == 0 && packet[p] == packet[p + 1] == 0
    ensures Canon(Sum16(header + Stored(packet, p, Digest(Sum16(header + packet))))) == 0xffff
  {
    SumConcat(header, packet);
    SumConcat(header, Stored(packet, p, Digest(Sum16(header + packet))));
    StoredSums(packet, p, Sum16(header));
  }

  /** The chunks are the pseudo-header (section 3.1 of RFC 9293) and the packet. */
  lemma {:induction false} PseudoV4Bytes(src: seq<Byte>, dst: seq<Byte>, protocol: Byte, packet: seq<Byte>)
    requires |src| == |dst| == 4 && |packet| <= 131072
    ensures Regular(PseudoV4(src, dst, protocol, packet))
    ensures Flatten(PseudoV4(src, dst, protocol, packet)) == src + dst + [0, protocol] + Big16(|packet|) + packet
  {
    hide Swap16, Flatten;
    FlattenFive(PseudoV4(src, dst, protocol, packet));
    Swapped16(protocol);
    Swapped16(|packet|);
  }

  /** The same over IPv6 (section 8.1 of RFC 8200). */
  lemma {:induction false} PseudoV6Bytes(src: seq<Byte>, dst: seq<Byte>, protocol: Byte, packet: seq<Byte>)
    requires |src| == |dst| == 16 && |packet| <= 131072
    ensures Regular(PseudoV6(src, dst, protocol, packet))
    ensures Flatten(PseudoV6(src, dst, protocol, packet)) == src + dst + Big32(|packet|) + [0, 0, 0, protocol] + packet
  {
    hide Swap32, Flatten;
    FlattenFive(PseudoV6(src, dst, protocol, packet));
    Swapped32(protocol);
    Swapped32(|packet|);
  }

  lemma {:induction false} FlattenFive(c: seq<seq<Byte>>)
    requires |c| == 5
    ensures Flatten(c) == c[0] + c[1] + c[2] + c[3] + c[4]
  {
    assert c[..4][..3] == c[..3] && c[..3][..2] == c[..2] && c[..2][..1] == c[..1] && c[..1][..0] == [];
    assert Flatten(c[..1]) == c[0];
    assert Flatten(c[..2]) == c[0] + c[1];
    assert Flatten(c[..3]) == c[0] + c[1] + c[2];
    assert Flatten(c[..4]) == c[0] + c[1] + c[2] + c[3];
  }
}
