/** The inflate decoder itself: it writes into a fixed buffer, never stores a
    zero byte, and is proved to produce what DeflateSpec says the input means. */
module Puff {
  import opened Bits
  import opened Huffman
  import opened PuffState
  import Spec = DeflateSpec

  /** The decoder has produced exactly o, and the rest of the buffer is still zero. */
  ghost predicate Produced(s: State, o: seq<Byte>)
    reads s`outcnt, s.out
  {
    && s.outcnt == |o| <= s.out.Length
    && s.out[..s.outcnt] == o
    && forall i :: s.outcnt <= i < s.out.Length ==> s.out[i] == 0
  }

  /** err, the reader's position and the buffer are those of outcome o. */
  ghost predicate Reached(s: State, err: int, o: Spec.Outcome)
    reads s, s.out
  {
    match o
    case Done(out, pos) => err == 0 && s.Valid() && s.Pos() == pos && Produced(s, out)
    case Fail(e, out) => err == e && Produced(s, out)
  }

  /** Appends byte b: zero is what the buffer holds already. */
  method Put(s: State, b: Byte, ghost o: seq<Byte>)
    requires Produced(s, o) && s.outcnt < s.out.Length
    modifies s`outcnt, s.out
    ensures Produced(s, o + [b])
  {
    if b != 0 {
      s.out[s.outcnt] := b;
    }
    s.outcnt := s.outcnt + 1;
  }

  /** Copies length bytes from distance bytes back. */
  method CopyBack(s: State, dist: nat, length: nat, ghost o: seq<Byte>)
    requires Produced(s, o) && 1 <= dist <= s.outcnt && s.outcnt + length <= s.out.Length
    modifies s`outcnt, s.out
    ensures Produced(s, Spec.Copy(o, dist, length))
  {
    var len := length;
    ghost var cur := o;
    while len > 0
      invariant Produced(s, cur) && dist <= |cur| && |cur| + len == |o| + length
      invariant Spec.Copy(cur, dist, len) == Spec.Copy(o, dist, length)
    {
      var b := s.out[s.outcnt - dist];
      assert b == cur[|cur| - dist];
      if dist <= s.outcnt && b != 0 {
        s.out[s.outcnt] := b;
      }
      s.outcnt := s.outcnt + 1;
      cur := cur + [b];
      len := len - 1;
    }
  }

  method Stored(s: State, ghost o: seq<Byte>) returns (err: int)
    requires s.Valid() && Produced(s, o)
    modifies s, s.out
    ensures Reached(s, err, Spec.Stored(s.Stream(), old(s.Pos()), o, s.out.Length))
  {
    hide LsbVal, ToBits, Spec.BytesAt;
    ghost var bits, pos := s.Stream(), s.Pos();
    // the rest of the current byte is dropped
    s.bitbuf := 0;
    s.bitcnt := 0;
    ghost var p := s.Pos();
    assert p == Spec.Align(pos);
    LsbEmptyAll(bits);
    if s.incnt + 4 > |s.input| {
      return 2;
    }
    var len: int := s.input[s.incnt];
    len := len + 256 * (s.input[s.incnt + 1] as int);
    var c0, c1 := s.input[s.incnt + 2], s.input[s.incnt + 3];
    StoredHeader(s.input, s.incnt);
    s.incnt := s.incnt + 4;
    if c0 != 255 - len % 256 || c1 != 255 - len / 256 {
      return -2;
    }
    if s.incnt + len > |s.input| {
      return 2;
    }
    if s.outcnt + len > s.out.Length {
      return 1;
    }
    CopyIn(s, len, o);
    return 0;
  }

  /** Copies the next n input bytes to the output. */
  method CopyIn(s: State, n: nat, ghost o: seq<Byte>)
    requires s.Valid() && s.bitcnt == 0 && Produced(s, o)
    requires s.incnt + n <= |s.input| && s.outcnt + n <= s.out.Length
    modifies s`incnt, s`outcnt, s.out
    ensures s.Valid() && s.Pos() == old(s.Pos()) + 8 * n
    ensures Produced(s, o + Spec.BytesAt(s.Stream(), old(s.Pos()), n))
  {
    hide LsbVal, ToBits, Pow2;
    ghost var bits, p := s.Stream(), s.Pos();
    LsbEmptyAll(bits);
    var len := n;
    ghost var cur := o;
    while len > 0
      invariant Produced(s, cur) && s.incnt + len == old(s.incnt) + n && 0 <= len
      invariant |cur| + len == |o| + n
      invariant s.bitbuf == old(s.bitbuf) && s.bitcnt == 0
      invariant 8 * s.incnt + 8 * len <= |bits|
      invariant cur + Spec.BytesAt(bits, 8 * s.incnt, len) == o + Spec.BytesAt(bits, p, n)
    {
      var b := s.input[s.incnt];
      ByteBits(s.input, s.incnt);
      assert cur + Spec.BytesAt(bits, 8 * s.incnt, len) == cur + [b] + Spec.BytesAt(bits, 8 * s.incnt + 8, len - 1);
      Put(s, b, cur);
      cur := cur + [b];
      s.incnt := s.incnt + 1;
      len := len - 1;
    }
  }

  lemma {:induction false} StoredHeader(input: seq<Byte>, k: nat)
    requires k + 4 <= |input|
    ensures var bits := ToBits(input);
            && Spec.Field(bits, 8 * k, 16) == input[k] + 256 * (input[k + 1] as int)
            && Spec.Field(bits, 8 * k + 16, 16) == input[k + 2] + 256 * (input[k + 3] as int)
  {
    TwoBytes(input, k);
    TwoBytes(input, k + 2);
  }

  lemma {:induction false} TwoBytes(input: seq<Byte>, k: nat)
    requires k + 2 <= |input|
    ensures LsbVal(ToBits(input)[8 * k..8 * k + 16]) == input[k] + 256 * (input[k + 1] as int)
  {
    ByteBits(input, k);
    LoadByte(input, 8 * k, k + 1);
    Pow2Values();
  }

  lemma {:induction false} LsbEmptyAll(bits: seq<Bit>)
    ensures forall k :: 0 <= k <= |bits| ==> LsbVal(bits[k..k]) == 0
  {
  }

  /** Decodes literals and length/distance pairs until the end of the block. */
  method Codes(s: State, lencode: Table, distcode: Table, ghost ll: seq<nat>, ghost dl: seq<nat>, ghost o: seq<Byte>)
    returns (err: int)
    requires s.Valid() && Produced(s, o)
    requires ValidLengths(ll) && ValidLengths(dl) && |dl| <= Spec.MAXDCODES
    requires lencode.TableFor(ll) && distcode.TableFor(dl) && Apart(s, lencode) && Apart(s, distcode)
    modifies s, s.out
    ensures Reached(s, err, Spec.Codes(ll, dl, s.Stream(), old(s.Pos()), o, s.out.Length))
  {
    hide LsbVal, ToBits, DecodeSymbol, Spec.ReadMatch, Spec.Copy;
    ghost var bits, cap, cur: seq<Byte> := s.Stream(), s.out.Length, o;
    ghost var want := Spec.Codes(ll, dl, bits, s.Pos(), o, cap);
    while true
      invariant s.Valid() && Produced(s, cur)
      invariant lencode.TableFor(ll) && distcode.TableFor(dl)
      invariant Spec.Codes(ll, dl, bits, s.Pos(), cur, cap) == want
      decreases |bits| - s.Pos()
    {
      var r := s.Decode(lencode, ll);
      if r.Underrun? {
        return 2;
      }
      var symbol := r.v;
      if symbol < 0 {
        return symbol;
      }
      if symbol < 256 {
        if s.outcnt == s.out.Length {
          return 1;
        }
        Put(s, symbol, cur);
        cur := cur + [symbol];
      } else if symbol == 256 {
        return 0;
      } else {
        var m := ReadMatch(s, distcode, dl, symbol - 257);
        if m.Bad? {
          return m.err;
        }
        if m.dist > s.outcnt {
          return -11;
        }
        if s.outcnt + m.len > s.out.Length {
          return 1;
        }
        CopyBack(s, m.dist, m.len, cur);
        cur := Spec.Copy(cur, m.dist, m.len);
      }
    }
  }

  /** The decoder's buffer is not one of the table's arrays. */
  ghost predicate Apart(s: State, h: Table) {
    s.out as object != h.count && s.out as object != h.symbol
  }

  /** Reads the extra bits of the length and the whole distance of a match. */
  method ReadMatch(s: State, distcode: Table, ghost dl: seq<nat>, k: nat) returns (m: Spec.MatchRead)
    requires s.Valid() && ValidLengths(dl) && |dl| <= Spec.MAXDCODES && distcode.TableFor(dl)
    modifies s`incnt, s`bitbuf, s`bitcnt
    ensures m == Spec.ReadMatch(dl, s.Stream(), old(s.Pos()), k)
    ensures m.Pair? ==> s.Valid() && s.Pos() == m.pos
  {
    hide LsbVal, ToBits, DecodeSymbol, Spec.LenBase, Spec.LenExtra, Spec.DistBase, Spec.DistExtra;
    if k >= 29 {
      return Spec.Bad(-10);
    }
    var extra := s.Bits(Spec.LenExtra()[k]);
    if extra.Underrun? {
      return Spec.Bad(2);
    }
    var len := Spec.LenBase()[k] + extra.v;
    var r := s.Decode(distcode, dl);
    if r.Underrun? {
      return Spec.Bad(2);
    }
    if r.v < 0 {
      return Spec.Bad(r.v);
    }
    var symbol := r.v;
    extra := s.Bits(Spec.DistExtra()[symbol]);
    if extra.Underrun? {
      return Spec.Bad(2);
    }
    var pos := 8 * s.incnt - s.bitcnt;
    return Spec.Pair(len, Spec.DistBase()[symbol] + extra.v, pos);
  }

  // ----- Fixed codes -----

  /** Decodes a block in the fixed codes. */
  method Fixed(s: State, ghost o: seq<Byte>) returns (err: int)
    requires s.Valid() && Produced(s, o)
    modifies s, s.out
    ensures Reached(s, err, Spec.Codes(Spec.FixedLit(), Spec.FixedDist(), s.Stream(), old(s.Pos()), o, s.out.Length))
  {
    var lencode, distcode := FixedTables();
    err := Codes(s, lencode, distcode, Spec.FixedLit(), Spec.FixedDist(), o);
  }

  method FixedTables() returns (lencode: Table, distcode: Table)
    ensures fresh(lencode.count) && fresh(lencode.symbol) && fresh(distcode.count) && fresh(distcode.symbol)
    ensures lencode.TableFor(Spec.FixedLit()) && distcode.TableFor(Spec.FixedDist())
    ensures ValidLengths(Spec.FixedLit()) && ValidLengths(Spec.FixedDist())
  {
    hide Count, Left;
    FixedCodesFit();
    lencode := new Table(288);
    distcode := new Table(Spec.MAXDCODES);
    var lengths := new nat[288];
    for symbol := 0 to 144
      invariant forall i :: 0 <= i < symbol ==> lengths[i] == 8
    {
      lengths[symbol] := 8;
    }
    for symbol := 144 to 256
      invariant forall i :: 0 <= i < symbol ==> lengths[i] == Spec.FixedLit()[i]
    {
      lengths[symbol] := 9;
    }
    for symbol := 256 to 280
      invariant forall i :: 0 <= i < symbol ==> lengths[i] == Spec.FixedLit()[i]
    {
      lengths[symbol] := 7;
    }
    for symbol := 280 to 288
      invariant forall i :: 0 <= i < symbol ==> lengths[i] == Spec.FixedLit()[i]
    {
      lengths[symbol] := 8;
    }
    assert lengths[..] == Spec.FixedLit();
    var left := lencode.Construct(lengths[..]);
    for symbol := 0 to Spec.MAXDCODES
      invariant forall i :: 0 <= i < symbol ==> lengths[i] == 5
      invariant lencode.TableFor(Spec.FixedLit())
    {
      lengths[symbol] := 5;
    }
    assert lengths[..Spec.MAXDCODES] == Spec.FixedDist();
    left := distcode.Construct(lengths[..Spec.MAXDCODES]);
  }

  lemma {:induction false} CountRun(ls: seq<nat>, x: nat, n: nat, l: nat)
    ensures Count(ls + Spec.Repeat(x, n), l) == Count(ls, l) + if x == l then n else 0
  {
    if n == 0 {
      assert ls + Spec.Repeat(x, n) == ls;
    } else {
      assert (ls + Spec.Repeat(x, n))[..|ls| + n - 1] == ls + Spec.Repeat(x, n - 1);
      CountRun(ls, x, n - 1, l);
    }
  }

  lemma {:induction false} FixedLitCount(l: nat)
    ensures Count(Spec.FixedLit(), l) == if l == 7 then 24 else if l == 8 then 152 else if l == 9 then 112 else 0
  {
    hide Count;
    var a := Spec.Repeat(8, 144);
    var b := a + Spec.Repeat(9, 112);
    var c := b + Spec.Repeat(7, 24);
    assert Spec.FixedLit() == c + Spec.Repeat(8, 8) && a == [] + a;
    CountNone(l);
    CountRun([], 8, 144, l);
    CountRun(a, 9, 112, l);
    CountRun(b, 7, 24, l);
    CountRun(c, 8, 8, l);
  }

  lemma {:induction false} FixedDistCount(l: nat)
    ensures Count(Spec.FixedDist(), l) == if l == 5 then 30 else 0
  {
    hide Count;
    assert Spec.FixedDist() == [] + Spec.Repeat(5, 30);
    CountNone(l);
    CountRun([], 5, 30, l);
  }

  lemma {:induction false} CountNone(l: nat)
    ensures Count([], l) == 0
  {
  }

  /** Where a code has no more symbols, what is left doubles with each bit. */
  lemma {:induction false} LeftDoubles(ls: seq<nat>, l: nat, m: nat)
    requires l <= m && forall k :: l < k <= m ==> Count(ls, k) == 0
    ensures Left(ls, m) == Left(ls, l) * Pow2(m - l)
  {
    hide Count;
    if l < m { LeftDoubles(ls, l, m - 1); }
  }

  lemma {:induction false} LeftStep(ls: seq<nat>, l: nat)
    requires l > 0
    ensures Left(ls, l) == 2 * Left(ls, l - 1) - Count(ls, l)
  {
  }

  /** The fixed literal code is complete; two of the 32 distance codes are left over. */
  lemma {:induction false} FixedCodesFit()
    ensures ValidLengths(Spec.FixedLit()) && Left(Spec.FixedLit(), MAXBITS) == 0
    ensures ValidLengths(Spec.FixedDist()) && Left(Spec.FixedDist(), MAXBITS) == 2048
    ensures Count(Spec.FixedLit(), 0) == Count(Spec.FixedDist(), 0) == 0
  {
    hide Count, Left;
    FixedLitLeft();
    FixedDistLeft();
    FixedLitCount(0);
    FixedDistCount(0);
  }

  lemma {:induction false} FixedLitLeft()
    ensures Left(Spec.FixedLit(), MAXBITS) == 0
  {
    hide Count, Left, Spec.FixedLit, Pow2;
    var ls := Spec.FixedLit();
    forall l: nat
      ensures Count(ls, l) == if l == 7 then 24 else if l == 8 then 152 else if l == 9 then 112 else 0
    {
      FixedLitCount(l);
    }
    LeftStart(ls);
    Pow2Values();
    LeftDoubles(ls, 0, 6);
    LeftStep(ls, 7);
    LeftStep(ls, 8);
    LeftStep(ls, 9);
    LeftDoubles(ls, 9, MAXBITS);
  }

  lemma {:induction false} FixedDistLeft()
    ensures Left(Spec.FixedDist(), MAXBITS) == 2048
  {
    hide Count, Left, Spec.FixedDist, Pow2;
    var ls := Spec.FixedDist();
    forall l: nat
      ensures Count(ls, l) == if l == 5 then 30 else 0
    {
      FixedDistCount(l);
    }
    LeftStart(ls);
    Pow2Values();
    LeftDoubles(ls, 0, 4);
    LeftStep(ls, 5);
    LeftDoubles(ls, 5, MAXBITS);
  }

  lemma {:induction false} LeftStart(ls: seq<nat>)
    ensures Left(ls, 0) == 1
  {
  }

  // ----- Dynamic codes -----

  /** The order in which the lengths of the code length codes are sent. */
  function Order(i: nat): nat
    requires i < Spec.CODECODES
  {
    match i
    case 0 => 16 case 1 => 17 case 2 => 18 case 3 => 0 case 4 => 8 case 5 => 7 case 6 => 9
    case 7 => 6 case 8 => 10 case 9 => 5 case 10 => 11 case 11 => 4 case 12 => 12 case 13 => 3
    case 14 => 13 case 15 => 2 case 16 => 14 case 17 => 1 case _ => 15
  }

  lemma {:induction false} OrderSlot()
    ensures forall i: nat :: i < Spec.CODECODES ==> Order(i) < Spec.CODECODES && Spec.Slot(Order(i)) == i
    ensures forall s: nat :: s < Spec.CODECODES ==> Spec.Slot(s) < Spec.CODECODES && Order(Spec.Slot(s)) == s
  {
  }

  /** Reads ncode lengths of three bits; the missing ones are zero. */
  method ReadCodeLengths(s: State, lengths: array<nat>, ncode: nat) returns (ok: bool)
    requires s.Valid() && lengths.Length >= Spec.CODECODES && ncode <= Spec.CODECODES
    modifies s`incnt, s`bitbuf, s`bitcnt, lengths
    ensures ok <==> old(s.Pos()) + 3 * ncode <= |s.Stream()|
    ensures ok ==> s.Valid() && s.Pos() == old(s.Pos()) + 3 * ncode
    ensures ok ==> lengths[..Spec.CODECODES] == Spec.CodeLengths(s.Stream(), old(s.Pos()), ncode)
  {
    hide LsbVal, ToBits, Order, Spec.Slot;
    OrderSlot();
    ghost var bits, pos := s.Stream(), s.Pos();
    for index := 0 to ncode
      invariant s.Valid() && s.Pos() == pos + 3 * index
      invariant forall i :: 0 <= i < index ==> lengths[Order(i)] == Spec.Field(bits, pos + 3 * i, 3)
    {
      var r := s.Bits(3);
      if r.Underrun? {
        return false;
      }
      lengths[Order(index)] := r.v;
    }
    for index := ncode to Spec.CODECODES
      invariant s.Valid() && s.Pos() == pos + 3 * ncode
      invariant forall i :: 0 <= i < ncode ==> lengths[Order(i)] == Spec.Field(bits, pos + 3 * i, 3)
      invariant forall i :: ncode <= i < index ==> lengths[Order(i)] == 0
    {
      lengths[Order(index)] := 0;
    }
    assert lengths[..Spec.CODECODES] == Spec.CodeLengths(bits, pos, ncode);
    return true;
  }

  /** Reads the run-length coded lengths of both codes. */
  method ReadLengths(s: State, lencode: Table, lengths: array<nat>, total: nat, ghost cl: seq<nat>) returns (err: int)
    requires s.Valid() && total <= lengths.Length
    requires |cl| == Spec.CODECODES && ValidLengths(cl) && lencode.TableFor(cl)
    requires lengths as object != lencode.count && lengths as object != lencode.symbol
    modifies s`incnt, s`bitbuf, s`bitcnt, lengths
    ensures match Spec.ReadLengths(cl, s.Stream(), old(s.Pos()), [], total)
            case Lengths(ls, p) => err == 0 && s.Valid() && s.Pos() == p && lengths[..total] == ls
            case BadLengths(e) => err == e
  {
    hide LsbVal, ToBits, DecodeSymbol;
    ghost var bits := s.Stream();
    ghost var want := Spec.ReadLengths(cl, bits, s.Pos(), [], total);
    var index := 0;
    assert lengths[..0] == [];
    while index < total
      invariant index <= total && s.Valid() && lencode.TableFor(cl)
      invariant ValidLengths(lengths[..index])
      invariant Spec.ReadLengths(cl, bits, s.Pos(), lengths[..index], total) == want
      decreases |bits| - s.Pos()
    {
      ghost var ls := lengths[..index];
      var r := s.Decode(lencode, cl);
      if r.Underrun? {
        return 2;
      }
      var symbol := r.v;
      if symbol < 0 {
        return symbol;
      }
      if symbol < 16 {
        lengths[index] := symbol;
        index := index + 1;
        assert lengths[..index] == ls + [symbol];
      } else {
        if symbol == 16 && index == 0 {
          return -5;
        }
        var len := if symbol == 16 then lengths[index - 1] else 0;
        r := s.Bits(Spec.RepeatBits(symbol));
        if r.Underrun? {
          return 2;
        }
        var times := Spec.RepeatBase(symbol) + r.v;
        if index + times > total {
          return -6;
        }
        Fill(lengths, index, times, len);
        index := index + times;
        assert lengths[..index] == ls + Spec.Repeat(len, times);
      }
    }
    return 0;
  }

  method Fill(lengths: array<nat>, from: nat, times: nat, len: nat)
    requires from + times <= lengths.Length
    modifies lengths
    ensures lengths[..from] == old(lengths[..from])
    ensures lengths[from..from + times] == Spec.Repeat(len, times)
  {
    for i := 0 to times
      invariant lengths[..from] == old(lengths[..from])
      invariant forall j :: from <= j < from + i ==> lengths[j] == len
    {
      lengths[from + i] := len;
    }
  }

  /** Reads how many lengths of each kind a dynamic block carries. */
  method ReadCounts(s: State) returns (ok: bool, nlen: nat, ndist: nat, ncode: nat)
    requires s.Valid()
    modifies s`incnt, s`bitbuf, s`bitcnt
    ensures var bits, pos := s.Stream(), old(s.Pos());
            && (ok <==> pos + 14 <= |bits|)
            && (ok ==> s.Valid() && s.Pos() == pos + 14 && ncode <= Spec.CODECODES
                       && nlen == Spec.Field(bits, pos, 5) + 257 && ndist == Spec.Field(bits, pos + 5, 5) + 1
                       && ncode == Spec.Field(bits, pos + 10, 4) + 4)
  {
    hide LsbVal, ToBits;
    ghost var bits, pos := s.Stream(), s.Pos();
    ok, nlen, ndist, ncode := false, 0, 0, 0;
    var r := s.Bits(5);
    if r.Underrun? { return; }
    nlen := r.v + 257;
    r := s.Bits(5);
    if r.Underrun? { return; }
    ndist := r.v + 1;
    r := s.Bits(4);
    if r.Underrun? { return; }
    FieldBound(bits, pos + 10, 4);
    ncode := r.v + 4;
    ok := true;
  }

  /** Decodes a block that carries its own codes. */
  method Dynamic(s: State, ghost o: seq<Byte>) returns (err: int)
    requires s.Valid() && Produced(s, o)
    modifies s, s.out
    ensures Reached(s, err, Spec.Dynamic(s.Stream(), old(s.Pos()), o, s.out.Length))
  {
    hide LsbVal, ToBits, DecodeSymbol, Count, Left, Spec.ReadLengths, Spec.OwnCodes, Spec.CodeLengths;
    ghost var bits, pos := s.Stream(), s.Pos();
    var ok, nlen, ndist, ncode := ReadCounts(s);
    if !ok { return 2; }
    if nlen > Spec.MAXLCODES || ndist > Spec.MAXDCODES {
      return -3;
    }
    var lengths := new nat[Spec.MAXLCODES + Spec.MAXDCODES];
    ok := ReadCodeLengths(s, lengths, ncode);
    if !ok { return 2; }
    ghost var cl := Spec.CodeLengths(bits, pos + 14, ncode);
    CodeLengthsValid(bits, pos + 14, ncode);
    var lencode := new Table(Spec.MAXLCODES);
    var left := lencode.Construct(lengths[..Spec.CODECODES]);
    if left != 0 {
      return -4;
    }
    err := ReadLengths(s, lencode, lengths, nlen + ndist, cl);
    if err != 0 {
      return;
    }
    err := OwnCodes(s, lencode, lengths[..nlen + ndist], nlen, o);
  }

  /** Builds the two codes of a dynamic block and decodes its data. */
  method OwnCodes(s: State, lencode: Table, lengths: seq<nat>, nlen: nat, ghost o: seq<Byte>) returns (err: int)
    requires s.Valid() && Produced(s, o) && ValidLengths(lengths)
    requires 256 < nlen <= Spec.MAXLCODES && nlen <= |lengths| <= nlen + Spec.MAXDCODES
    requires lencode.symbol.Length == Spec.MAXLCODES && lencode.count.Length == MAXBITS + 1
    requires lencode.count != lencode.symbol && Apart(s, lencode)
    modifies s, s.out, lencode.count, lencode.symbol
    ensures Reached(s, err, Spec.OwnCodes(lengths, nlen, s.Stream(), old(s.Pos()), o, s.out.Length))
  {
    hide LsbVal, ToBits, Count, Left, Spec.Codes;
    if lengths[256] == 0 {
      return -9;
    }
    var left := lencode.Construct(lengths[..nlen]);
    if left != 0 && (left < 0 || nlen != lencode.count[0] + lencode.count[1]) {
      return -7;
    }
    var distcode := new Table(Spec.MAXDCODES);
    left := distcode.Construct(lengths[nlen..]);
    if left != 0 && (left < 0 || |lengths| - nlen != distcode.count[0] + distcode.count[1]) {
      return -8;
    }
    err := Codes(s, lencode, distcode, lengths[..nlen], lengths[nlen..], o);
  }

  lemma {:induction false} FieldBound(bits: seq<Bit>, pos: nat, n: nat)
    requires pos + n <= |bits|
    ensures Spec.Field(bits, pos, n) < Pow2(n)
    ensures n == 3 ==> Spec.Field(bits, pos, n) < 8
    ensures n == 4 ==> Spec.Field(bits, pos, n) < 16
  {
    LsbBound(bits[pos..pos + n]);
    Pow2Values();
  }

  lemma {:induction false} CodeLengthsValid(bits: seq<Bit>, pos: nat, n: nat)
    requires pos + 3 * n <= |bits|
    ensures ValidLengths(Spec.CodeLengths(bits, pos, n))
  {
    forall s | 0 <= s < Spec.CODECODES
      ensures Spec.CodeLengths(bits, pos, n)[s] <= MAXBITS
    {
      if Spec.Slot(s) < n {
        FieldBound(bits, pos + 3 * Spec.Slot(s), 3);
      }
    }
  }

  // ----- The stream -----

  /** Inflates source into dest; the number of bytes produced comes back even when an error ends it. */
  method Puff(dest: array<Byte>, source: seq<Byte>) returns (err: int, destlen: nat)
    requires forall i :: 0 <= i < dest.Length ==> dest[i] == 0
    modifies dest
    ensures var o := Spec.Inflate(ToBits(source), 0, [], dest.Length);
            && err == (if o.Done? then 0 else o.err)
            && destlen <= dest.Length && dest[..destlen] == o.out
            && forall i :: destlen <= i < dest.Length ==> dest[i] == 0
  {
    hide LsbVal, ToBits, Spec.Block;
    var s := new State(dest, source);
    ghost var bits, cap, cur: seq<Byte> := s.Stream(), dest.Length, [];
    ghost var want := Spec.Inflate(bits, 0, [], cap);
    while true
      invariant s.out == dest && s.Stream() == bits && fresh(s)
      invariant s.Valid() && Produced(s, cur)
      invariant Spec.Inflate(bits, s.Pos(), cur, cap) == want
      decreases |bits| - s.Pos()
    {
      ghost var pos := s.Pos();
      var last := s.Bits(1);
      if last.Underrun? {
        return 2, s.outcnt;
      }
      var kind := s.Bits(2);
      if kind.Underrun? {
        return 2, s.outcnt;
      }
      ghost var o := Spec.Block(kind.v, bits, pos + 3, cur, cap);
      err := Block(s, kind.v, cur);
      if err != 0 {
        return err, s.outcnt;
      }
      if last.v == 1 {
        return 0, s.outcnt;
      }
      cur := o.out;
    }
  }

  method Block(s: State, kind: nat, ghost o: seq<Byte>) returns (err: int)
    requires s.Valid() && Produced(s, o)
    modifies s, s.out
    ensures Reached(s, err, Spec.Block(kind, s.Stream(), old(s.Pos()), o, s.out.Length))
  {
    hide Spec.Stored, Spec.Codes, Spec.Dynamic;
    if kind == 0 {
      err := Stored(s, o);
    } else if kind == 1 {
      err := Fixed(s, o);
    } else if kind == 2 {
      err := Dynamic(s, o);
    } else {
      err := -1;
    }
  }
}
