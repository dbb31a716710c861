/** How much output a stream that fails has produced: the decoder's comment says that an error for want of
    input or of space leaves the length alone, and this is when it does. */
module DeflateLength {
  import opened Bits
  import opened Common
  import opened Huffman
  import opened DeflateSpec

  /** A place between two pieces of a stream: the bits read and the bytes produced by then. */
  datatype Mark = Mark(pos: nat, len: nat)

  // ----- Decoding with no limit on the output, as far as lengths go -----

  /** The data passes through k bytes of output on its way from n. */
  ghost predicate CodesPass(ll: seq<nat>, dl: seq<nat>, bits: seq<Bit>, pos: nat, n: nat, k: nat)
    requires |dl| <= MAXDCODES && pos <= |bits|
    decreases |bits| - pos
  {
    || n == k
    || match DecodeSymbol(ll, bits, pos)
       case Symbol(s, p) =>
         if s < END_OF_BLOCK then CodesPass(ll, dl, bits, p, n + 1, k)
         else if s == END_OF_BLOCK then false
         else
           var m := ReadMatch(dl, bits, p, s - 257);
           m.Pair? && m.dist <= n && CodesPass(ll, dl, bits, m.pos, n + m.len, k)
       case _ => false
  }

  /** Where the data ends, if it does. */
  ghost function CodesEnd(ll: seq<nat>, dl: seq<nat>, bits: seq<Bit>, pos: nat, n: nat): (r: Option<Mark>)
    requires |dl| <= MAXDCODES && pos <= |bits|
    ensures r.Some? ==> pos < r.value.pos <= |bits| && n <= r.value.len
    decreases |bits| - pos
  {
    match DecodeSymbol(ll, bits, pos)
    case Symbol(s, p) =>
      if s < END_OF_BLOCK then CodesEnd(ll, dl, bits, p, n + 1)
      else if s == END_OF_BLOCK then Some(Mark(p, n))
      else
        var m := ReadMatch(dl, bits, p, s - 257);
        if m.Pair? && m.dist <= n then CodesEnd(ll, dl, bits, m.pos, n + m.len) else None
    case _ => None
  }

  ghost function StoredEnd(bits: seq<Bit>, pos: nat, n: nat): (r: Option<Mark>)
    requires pos <= |bits|
    ensures r.Some? ==> pos < r.value.pos <= |bits| && n <= r.value.len
  {
    var p := Align(pos);
    if p + 32 > |bits| then None
    else
      var len := Field(bits, p, 16);
      if Field(bits, p + 16, 16) != 65535 - len || p + 32 + 8 * len > |bits| then None
      else Some(Mark(p + 32 + 8 * len, n + len))
  }

  /** The codes of a dynamic block and where its data starts. */
  datatype Header = Header(ll: seq<nat>, dl: seq<nat>, pos: nat)

  ghost function ReadHeader(bits: seq<Bit>, pos: nat): (r: Option<Header>)
    requires pos <= |bits|
    ensures r.Some? ==> pos <= r.value.pos <= |bits| && |r.value.dl| <= MAXDCODES
  {
    if pos + 14 > |bits| then None
    else
      var nlen := Field(bits, pos, 5) + 257;
      var ndist := Field(bits, pos + 5, 5) + 1;
      var ncode := Field(bits, pos + 10, 4) + 4;
      if nlen > MAXLCODES || ndist > MAXDCODES || pos + 14 + 3 * ncode > |bits| then None
      else
        var cl := CodeLengths(bits, pos + 14, ncode);
        if !Complete(cl) then None
        else
          match ReadLengths(cl, bits, pos + 14 + 3 * ncode, [], nlen + ndist)
          case BadLengths(_) => None
          case Lengths(ls, p) =>
            if ls[END_OF_BLOCK] == 0 || !Usable(ls[..nlen]) || !Usable(ls[nlen..]) then None
            else Some(Header(ls[..nlen], ls[nlen..], p))
  }

  ghost function BlockEnd(kind: nat, bits: seq<Bit>, pos: nat, n: nat): (r: Option<Mark>)
    requires pos <= |bits|
    ensures r.Some? ==> pos < r.value.pos <= |bits| && n <= r.value.len
  {
    if kind == 0 then StoredEnd(bits, pos, n)
    else if kind == 1 then CodesEnd(FixedLit(), FixedDist(), bits, pos, n)
    else if kind == 2 && ReadHeader(bits, pos).Some? then
      var h := ReadHeader(bits, pos).value;
      CodesEnd(h.ll, h.dl, bits, h.pos, n)
    else None
  }

  ghost predicate BlockPass(kind: nat, bits: seq<Bit>, pos: nat, n: nat, k: nat)
    requires pos <= |bits|
  {
    || n == k
    || (kind == 0 && StoredEnd(bits, pos, n).Some? && StoredEnd(bits, pos, n).value.len == k)
    || (kind == 1 && CodesPass(FixedLit(), FixedDist(), bits, pos, n, k))
    || (kind == 2 && ReadHeader(bits, pos).Some? &&
        var h := ReadHeader(bits, pos).value;
        CodesPass(h.ll, h.dl, bits, h.pos, n, k))
  }

  /** The stream from pos on passes through exactly k bytes of output between two of its pieces, a piece
      being a literal, a match or a stored block. */
  ghost predicate Pass(bits: seq<Bit>, pos: nat, n: nat, k: nat)
    requires pos <= |bits|
    decreases |bits| - pos
  {
    || n == k
    || (pos + 3 <= |bits| &&
        var kind := Field(bits, pos + 1, 2);
        var end := BlockEnd(kind, bits, pos + 3, n);
        || BlockPass(kind, bits, pos + 3, n, k)
        || (Field(bits, pos, 1) != 1 && end.Some? && Pass(bits, end.value.pos, end.value.len, k)))
  }

  // ----- With the limit -----

  /** What an outcome within cap bytes has to do with the walk without a limit. */
  ghost predicate Agrees(o: Outcome, end: Option<Mark>, pass: bool, cap: nat) {
    && (|o.out| == cap <==> pass)
    && (if o.Done? then end == Some(Mark(o.pos, |o.out|)) else end.None? || end.value.len > cap)
  }

  lemma {:induction false} CodesForward(ll: seq<nat>, dl: seq<nat>, bits: seq<Bit>, pos: nat, n: nat, k: nat)
    requires |dl| <= MAXDCODES && pos <= |bits| && k < n
    ensures !CodesPass(ll, dl, bits, pos, n, k)
    decreases |bits| - pos
  {
    hide DecodeSymbol, ReadMatch;
    match DecodeSymbol(ll, bits, pos)
    case Symbol(s, p) =>
      if s < END_OF_BLOCK {
        CodesForward(ll, dl, bits, p, n + 1, k);
      } else if s > END_OF_BLOCK {
        var m := ReadMatch(dl, bits, p, s - 257);
        if m.Pair? { CodesForward(ll, dl, bits, m.pos, n + m.len, k); }
      }
    case _ =>
  }

  lemma {:induction false} CodesAgree(ll: seq<nat>, dl: seq<nat>, bits: seq<Bit>, pos: nat, out: seq<Byte>, cap: nat)
    requires |dl| <= MAXDCODES && pos <= |bits| && |out| <= cap
    ensures Agrees(Codes(ll, dl, bits, pos, out, cap), CodesEnd(ll, dl, bits, pos, |out|),
                   CodesPass(ll, dl, bits, pos, |out|, cap), cap)
    decreases |bits| - pos
  {
    hide DecodeSymbol, ReadMatch, Copy;
    match DecodeSymbol(ll, bits, pos)
    case Symbol(s, p) =>
      if s < END_OF_BLOCK {
        if |out| < cap { CodesAgree(ll, dl, bits, p, out + [s], cap); }
      } else if s > END_OF_BLOCK {
        var m := ReadMatch(dl, bits, p, s - 257);
        if m.Pair? && m.dist <= |out| {
          if |out| + m.len <= cap {
            CodesAgree(ll, dl, bits, m.pos, Copy(out, m.dist, m.len), cap);
          } else {
            CodesForward(ll, dl, bits, m.pos, |out| + m.len, cap);
          }
        }
      }
    case _ =>
  }

  lemma {:induction false} DynamicIs(bits: seq<Bit>, pos: nat, out: seq<Byte>, cap: nat)
    requires pos <= |bits| && |out| <= cap
    ensures var h, o := ReadHeader(bits, pos), Dynamic(bits, pos, out, cap);
            if h.Some? then o == Codes(h.value.ll, h.value.dl, bits, h.value.pos, out, cap) else o.Fail? && o.out == out
  {
    hide Codes, ReadLengths, CodeLengths, Complete, Usable, Field;
  }

  lemma {:induction false} BlockAgrees(kind: nat, bits: seq<Bit>, pos: nat, out: seq<Byte>, cap: nat)
    requires pos <= |bits| && |out| <= cap
    ensures Agrees(Block(kind, bits, pos, out, cap), BlockEnd(kind, bits, pos, |out|),
                   BlockPass(kind, bits, pos, |out|, cap), cap)
  {
    hide Codes, CodesEnd, CodesPass, Dynamic, ReadHeader, Field, BytesAt;
    if kind == 1 {
      CodesAgree(FixedLit(), FixedDist(), bits, pos, out, cap);
      CodesStart(FixedLit(), FixedDist(), bits, pos, |out|);
    } else if kind == 2 {
      DynamicIs(bits, pos, out, cap);
      var h := ReadHeader(bits, pos);
      if h.Some? {
        CodesAgree(h.value.ll, h.value.dl, bits, h.value.pos, out, cap);
        CodesStart(h.value.ll, h.value.dl, bits, h.value.pos, |out|);
      }
    }
  }

  lemma {:induction false} CodesStart(ll: seq<nat>, dl: seq<nat>, bits: seq<Bit>, pos: nat, n: nat)
    requires |dl| <= MAXDCODES && pos <= |bits|
    ensures CodesPass(ll, dl, bits, pos, n, n)
  {
  }

  lemma {:induction false} PassForward(bits: seq<Bit>, pos: nat, n: nat, k: nat)
    requires pos <= |bits| && k < n
    ensures !Pass(bits, pos, n, k)
    decreases |bits| - pos
  {
    hide BlockEnd, BlockPass, Field;
    if pos + 3 <= |bits| {
      var kind := Field(bits, pos + 1, 2);
      var end := BlockEnd(kind, bits, pos + 3, n);
      BlockForward(kind, bits, pos + 3, n, k);
      if end.Some? { PassForward(bits, end.value.pos, end.value.len, k); }
    }
  }

  lemma {:induction false} BlockForward(kind: nat, bits: seq<Bit>, pos: nat, n: nat, k: nat)
    requires pos <= |bits| && k < n
    ensures !BlockPass(kind, bits, pos, n, k)
  {
    hide CodesPass, ReadHeader, StoredEnd;
    if kind == 1 {
      CodesForward(FixedLit(), FixedDist(), bits, pos, n, k);
    } else if kind == 2 && ReadHeader(bits, pos).Some? {
      var h := ReadHeader(bits, pos).value;
      CodesForward(h.ll, h.dl, bits, h.pos, n, k);
    }
  }

  /** Whatever the outcome, the length reported is the space given exactly when decoding without a limit
      passes through exactly that many bytes. So an error for want of input or space, 2 or 1, leaves the
      length as it was exactly then. */
  lemma {:induction false} LengthKept(bits: seq<Bit>, pos: nat, out: seq<Byte>, cap: nat)
    requires pos <= |bits| && |out| <= cap
    ensures |Inflate(bits, pos, out, cap).out| == cap <==> Pass(bits, pos, |out|, cap)
    decreases |bits| - pos
  {
    hide Block, BlockEnd, CodesPass, ReadHeader, StoredEnd, Field;
    if pos + 3 <= |bits| {
      var kind := Field(bits, pos + 1, 2);
      var o, end := Block(kind, bits, pos + 3, out, cap), BlockEnd(kind, bits, pos + 3, |out|);
      BlockAgrees(kind, bits, pos + 3, out, cap);
      if o.Done? {
        LengthKept(bits, o.pos, o.out, cap);
      } else if end.Some? {
        PassForward(bits, end.value.pos, end.value.len, cap);
      }
    }
  }

  /** Without any input the length is set to zero, along with the positive error. */
  lemma {:induction false} NothingToRead(cap: nat)
    requires cap > 0
    ensures Inflate(ToBits([]), 0, [], cap) == Fail(2, [])
    ensures !Pass(ToBits([]), 0, 0, cap)
  {
  }
}
