/** What a deflate stream means (RFC 1951), over bit strings and byte strings:
    no buffers, no tables, output only ever appended. */
module DeflateSpec {
  import opened Bits
  import opened Huffman

  // Base values and extra bits of the length codes 257..285 and of the distance codes.
  function LenBase(): (r: seq<nat>)
    ensures |r| == 29 && r[0] == 3 && forall k :: 0 <= k < 29 ==> r[k] >= 3
  {
    [3, 4, 5, 6, 7, 8, 9, 10, 11, 13, 15, 17, 19, 23, 27, 31,
     35, 43, 51, 59, 67, 83, 99, 115, 131, 163, 195, 227, 258]
  }

  function LenExtra(): (r: seq<nat>)
    ensures |r| == 29
  {
    [0, 0, 0, 0, 0, 0, 0, 0, 1, 1, 1, 1, 2, 2, 2, 2,
     3, 3, 3, 3, 4, 4, 4, 4, 5, 5, 5, 5, 0]
  }

  function DistBase(): (r: seq<nat>)
    ensures |r| == 30 && r[0] == 1 && forall k :: 0 <= k < 30 ==> r[k] >= 1
  {
    [1, 2, 3, 4, 5, 7, 9, 13, 17, 25, 33, 49, 65, 97, 129, 193,
     257, 385, 513, 769, 1025, 1537, 2049, 3073, 4097, 6145,
     8193, 12289, 16385, 24577]
  }

  function DistExtra(): (r: seq<nat>)
    ensures |r| == 30
  {
    [0, 0, 0, 0, 1, 1, 2, 2, 3, 3, 4, 4, 5, 5, 6, 6,
     7, 7, 8, 8, 9, 9, 10, 10, 11, 11,
     12, 12, 13, 13]
  }

  const MAXLCODES := 286
  const MAXDCODES := 30
  const CODECODES := 19
  const END_OF_BLOCK := 256

  /** A block, or the whole stream, was read; or reading it stopped with an error
      after some output. */
  datatype Outcome = Done(out: seq<Byte>, pos: nat) | Fail(err: int, out: seq<Byte>)

  /** Appends len bytes, each the one dist before it: the copy may overlap its own output. */
  function Copy(out: seq<Byte>, dist: nat, len: nat): (r: seq<Byte>)
    requires 1 <= dist <= |out|
    ensures |r| == |out| + len && out <= r
    decreases len
  {
    if len == 0 then out else Copy(out + [out[|out| - dist]], dist, len - 1)
  }

  /** Bits pos..pos+n as a number. */
  function Field(bits: seq<Bit>, pos: nat, n: nat): nat
    requires pos + n <= |bits|
  {
    LsbVal(bits[pos..pos + n])
  }

  // ----- Compressed data -----

  datatype MatchRead = Pair(len: nat, dist: nat, pos: nat) | Bad(err: int)

  /** Reads the rest of a length/distance pair whose length symbol was 257 + k. */
  ghost function ReadMatch(dl: seq<nat>, bits: seq<Bit>, pos: nat, k: nat): (m: MatchRead)
    requires |dl| <= MAXDCODES && pos <= |bits|
    ensures if m.Pair? then pos < m.pos <= |bits| && m.dist >= 1 && m.len >= 3 else m.err != 0
  {
    if k >= |LenBase()| then Bad(-10)
    else if pos + LenExtra()[k] > |bits| then Bad(2)
    else
      var len := LenBase()[k] + Field(bits, pos, LenExtra()[k]);
      match DecodeSymbol(dl, bits, pos + LenExtra()[k])
      case OutOfInput => Bad(2)
      case NoCode => Bad(-10)
      case Symbol(d, p) =>
        if p + DistExtra()[d] > |bits| then Bad(2)
        else Pair(len, DistBase()[d] + Field(bits, p, DistExtra()[d]), p + DistExtra()[d])
  }

  /** Literals and matches up to the end of the block. */
  ghost function Codes(ll: seq<nat>, dl: seq<nat>, bits: seq<Bit>, pos: nat, out: seq<Byte>, cap: nat): (o: Outcome)
    requires |dl| <= MAXDCODES && pos <= |bits| && |out| <= cap
    ensures |o.out| <= cap && if o.Done? then pos < o.pos <= |bits| else o.err != 0
    decreases |bits| - pos
  {
    match DecodeSymbol(ll, bits, pos)
    case OutOfInput => Fail(2, out)
    case NoCode => Fail(-10, out)
    case Symbol(s, p) =>
      if s < END_OF_BLOCK then
        if |out| == cap then Fail(1, out) else Codes(ll, dl, bits, p, out + [s], cap)
      else if s == END_OF_BLOCK then Done(out, p)
      else
        match ReadMatch(dl, bits, p, s - 257)
        case Bad(e) => Fail(e, out)
        case Pair(len, dist, p') =>
          if dist > |out| then Fail(-11, out)
          else if |out| + len > cap then Fail(1, out)
          else Codes(ll, dl, bits, p', Copy(out, dist, len), cap)
  }

  // ----- Stored blocks -----

  /** The next byte boundary at or after pos. */
  function Align(pos: nat): (p: nat)
    ensures pos <= p < pos + 8 && p % 8 == 0
  {
    (pos + 7) / 8 * 8
  }

  function BytesAt(bits: seq<Bit>, pos: nat, n: nat): (r: seq<Byte>)
    requires pos + 8 * n <= |bits|
    ensures |r| == n
    decreases n
  {
    if n == 0 then []
    else
      LsbBound(bits[pos..pos + 8]); Pow2Values();
      [Field(bits, pos, 8)] + BytesAt(bits, pos + 8, n - 1)
  }

  function Stored(bits: seq<Bit>, pos: nat, out: seq<Byte>, cap: nat): (o: Outcome)
    requires pos <= |bits| && |out| <= cap
    ensures |o.out| <= cap && if o.Done? then pos < o.pos <= |bits| else o.err != 0
  {
    var p := Align(pos);
    if p + 32 > |bits| then Fail(2, out)
    else
      var len := Field(bits, p, 16);
      if Field(bits, p + 16, 16) != 65535 - len then Fail(-2, out)
      else if p + 32 + 8 * len > |bits| then Fail(2, out)
      else if |out| + len > cap then Fail(1, out)
      else Done(out + BytesAt(bits, p + 32, len), p + 32 + 8 * len)
  }

  // ----- Fixed and dynamic Huffman blocks -----

  function FixedLit(): (r: seq<nat>)
    ensures |r| == 288
  {
    seq(288, i => if i < 144 then 8 else if i < 256 then 9 else if i < 280 then 7 else 8)
  }

  function FixedDist(): (r: seq<nat>)
    ensures |r| == MAXDCODES
  {
    seq(MAXDCODES, i => 5)
  }

  /** Where the length of each code length code stands in the header. */
  function Slot(s: nat): nat
    requires s < CODECODES
  {
    match s
    case 0 => 3 case 1 => 17 case 2 => 15 case 3 => 13 case 4 => 11 case 5 => 9 case 6 => 7
    case 7 => 5 case 8 => 4 case 9 => 6 case 10 => 8 case 11 => 10 case 12 => 12 case 13 => 14
    case 14 => 16 case 15 => 18 case 16 => 0 case 17 => 1 case _ => 2
  }

  /** The lengths of the code length codes; those the header leaves out are zero. */
  function CodeLengths(bits: seq<Bit>, pos: nat, n: nat): (r: seq<nat>)
    requires pos + 3 * n <= |bits|
    ensures |r| == CODECODES
  {
    seq(CODECODES, s requires 0 <= s < CODECODES => if Slot(s) < n then Field(bits, pos + 3 * Slot(s), 3) else 0)
  }

  /** A code that may be left incomplete only as a single code of one bit, or as no code at all. */
  predicate Usable(ls: seq<nat>) {
    || Count(ls, 0) == |ls|
    || Left(ls, MAXBITS) == 0
    || (Left(ls, MAXBITS) > 0 && |ls| == Count(ls, 0) + Count(ls, 1))
  }

  /** A code that leaves nothing over, or no code at all. */
  predicate Complete(ls: seq<nat>) {
    Count(ls, 0) == |ls| || Left(ls, MAXBITS) == 0
  }

  datatype LengthsRead = Lengths(ls: seq<nat>, pos: nat) | BadLengths(err: int)

  function Repeat(x: nat, n: nat): (r: seq<nat>)
    ensures |r| == n
  {
    seq(n, i => x)
  }

  /** Extra bits, smallest count and repeated length of the repeat codes 16, 17 and 18. */
  function RepeatBits(s: nat): nat { if s == 16 then 2 else if s == 17 then 3 else 7 }
  function RepeatBase(s: nat): nat { if s == 18 then 11 else 3 }
  function RepeatValue(s: nat, ls: seq<nat>): nat {
    if s == 16 && |ls| > 0 then ls[|ls| - 1] else 0
  }

  /** The run-length coded lengths of the literal/length and distance codes together. */
  ghost function ReadLengths(cl: seq<nat>, bits: seq<Bit>, pos: nat, ls: seq<nat>, total: nat): (r: LengthsRead)
    requires |cl| == CODECODES && pos <= |bits| && |ls| <= total && ValidLengths(ls)
    ensures if r.Lengths? then |r.ls| == total && pos <= r.pos <= |bits| && ValidLengths(r.ls) else r.err != 0
    decreases |bits| - pos
  {
    if |ls| == total then Lengths(ls, pos)
    else
      match DecodeSymbol(cl, bits, pos)
      case OutOfInput => BadLengths(2)
      case NoCode => BadLengths(-10)
      case Symbol(s, p) =>
        if s < 16 then ReadLengths(cl, bits, p, ls + [s], total)
        else if s == 16 && |ls| == 0 then BadLengths(-5)
        else if p + RepeatBits(s) > |bits| then BadLengths(2)
        else
          var n := RepeatBase(s) + Field(bits, p, RepeatBits(s));
          if |ls| + n > total then BadLengths(-6)
          else ReadLengths(cl, bits, p + RepeatBits(s), ls + Repeat(RepeatValue(s, ls), n), total)
  }

  /** Data in the codes of ls: nlen lengths of the literal/length code, then those of the distance code. */
  ghost function OwnCodes(ls: seq<nat>, nlen: nat, bits: seq<Bit>, pos: nat, out: seq<Byte>, cap: nat): (o: Outcome)
    requires END_OF_BLOCK < nlen <= |ls| <= nlen + MAXDCODES && pos <= |bits| && |out| <= cap
    ensures |o.out| <= cap && if o.Done? then pos < o.pos <= |bits| else o.err != 0
  {
    if ls[END_OF_BLOCK] == 0 then Fail(-9, out)
    else if !Usable(ls[..nlen]) then Fail(-7, out)
    else if !Usable(ls[nlen..]) then Fail(-8, out)
    else Codes(ls[..nlen], ls[nlen..], bits, pos, out, cap)
  }

  ghost function Dynamic(bits: seq<Bit>, pos: nat, out: seq<Byte>, cap: nat): (o: Outcome)
    requires pos <= |bits| && |out| <= cap
    ensures |o.out| <= cap && if o.Done? then pos < o.pos <= |bits| else o.err != 0
  {
    if pos + 14 > |bits| then Fail(2, out)
    else
      var nlen := Field(bits, pos, 5) + 257;
      var ndist := Field(bits, pos + 5, 5) + 1;
      var ncode := Field(bits, pos + 10, 4) + 4;
      if nlen > MAXLCODES || ndist > MAXDCODES then Fail(-3, out)
      else if pos + 14 + 3 * ncode > |bits| then Fail(2, out)
      else
        var cl := CodeLengths(bits, pos + 14, ncode);
        if !Complete(cl) then Fail(-4, out)
        else
          match ReadLengths(cl, bits, pos + 14 + 3 * ncode, [], nlen + ndist)
          case BadLengths(e) => Fail(e, out)
          case Lengths(ls, p) =>
            OwnCodes(ls, nlen, bits, p, out, cap)
  }

  // ----- The stream -----

  ghost function Block(kind: nat, bits: seq<Bit>, pos: nat, out: seq<Byte>, cap: nat): (o: Outcome)
    requires pos <= |bits| && |out| <= cap
    ensures |o.out| <= cap && if o.Done? then pos < o.pos <= |bits| else o.err != 0
  {
    if kind == 0 then Stored(bits, pos, out, cap)
    else if kind == 1 then Codes(FixedLit(), FixedDist(), bits, pos, out, cap)
    else if kind == 2 then Dynamic(bits, pos, out, cap)
    else Fail(-1, out)
  }

  /** Blocks up to and including the one marked last, into at most cap bytes. */
  ghost function Inflate(bits: seq<Bit>, pos: nat, out: seq<Byte>, cap: nat): (o: Outcome)
    requires pos <= |bits| && |out| <= cap
    ensures |o.out| <= cap
    decreases |bits| - pos
  {
    if pos + 3 > |bits| then Fail(2, out)
    else
      var o := Block(Field(bits, pos + 1, 2), bits, pos + 3, out, cap);
      if o.Fail? || Field(bits, pos, 1) == 1 then o
      else Inflate(bits, o.pos, o.out, cap)
  }
}
