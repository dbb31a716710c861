/** The inflate decoder's working state: the bit reader, and the Huffman
    tables that puff_construct fills in place and puff_decode walks. */
module PuffState {
  import opened Bits
  import opened Huffman

  /** A read either gets a value or jumps out with "out of input". */
  datatype Read = Got(v: int) | Underrun

  class Table {
    const count: array<int>
    const symbol: array<int>

    constructor (capacity: nat)
      ensures count.Length == MAXBITS + 1 && symbol.Length == capacity
      ensures fresh(count) && fresh(symbol) && count != symbol
    {
      count := new int[MAXBITS + 1];
      symbol := new int[capacity];
    }

    ghost predicate Counts(ls: seq<nat>)
      reads count
    {
      && count.Length == MAXBITS + 1
      && forall l :: 0 <= l <= MAXBITS ==> count[l] == Count(ls, l)
    }

    /** The symbols of length l seen so far stand in the table where the whole of ls puts them. */
    static ghost predicate PlacedLength(table: seq<int>, seen: seq<nat>, ls: seq<nat>, l: nat) {
      && Offset(ls, l) + Count(seen, l) <= |table|
      && table[Offset(ls, l)..Offset(ls, l) + Count(seen, l)] == SymbolsOfLength(seen, l)
    }

    static ghost predicate Placed(table: seq<int>, seen: seq<nat>, ls: seq<nat>) {
      forall l: nat :: 1 <= l <= MAXBITS ==> PlacedLength(table, seen, ls, l)
    }

    /** The tables decode the canonical code of ls. */
    ghost predicate TableFor(ls: seq<nat>)
      reads count, symbol
    {
      Counts(ls) && Placed(symbol[..], ls, ls)
    }

    /** Builds the tables. The result has the sign of the code space left
        over, except that a table without any code counts as complete. */
    method Construct(ls: seq<nat>) returns (left: int)
      requires ValidLengths(ls) && |ls| <= symbol.Length
      requires count.Length == MAXBITS + 1 && count != symbol
      modifies count, symbol
      ensures Counts(ls)
      ensures left >= 0 ==> TableFor(ls)
      ensures if Count(ls, 0) == |ls| then left == 0
              else (left < 0 <==> Left(ls, MAXBITS) < 0) && (left >= 0 ==> left == Left(ls, MAXBITS))
    {
      CountLengths(ls);
      if count[0] == |ls| {
        NoCodes(ls, symbol[..]);
        return 0;
      }
      left := 1;
      for len := 1 to MAXBITS + 1
        invariant left == Left(ls, len - 1) >= 0
      {
        left := 2 * left - count[len];
        if left < 0 {
          LeftShrinks(ls, len, MAXBITS);
          return;
        }
      }
      Sort(ls);
    }

    method CountLengths(ls: seq<nat>)
      requires ValidLengths(ls) && count.Length == MAXBITS + 1
      modifies count
      ensures Counts(ls)
    {
      for len := 0 to MAXBITS + 1
        invariant forall l :: 0 <= l < len ==> count[l] == 0
      {
        count[len] := 0;
      }
      for s := 0 to |ls|
        invariant Counts(ls[..s])
      {
        assert ls[..s + 1][..s] == ls[..s];
        count[ls[s]] := count[ls[s]] + 1;
      }
      assert ls[..|ls|] == ls;
    }

    method Offsets(ls: seq<nat>) returns (offs: array<int>)
      requires Counts(ls)
      ensures fresh(offs) && offs.Length == MAXBITS + 1
      ensures forall l :: 1 <= l <= MAXBITS ==> offs[l] == Offset(ls, l)
    {
      offs := new int[MAXBITS + 1];
      offs[1] := 0;
      for len := 1 to MAXBITS
        invariant forall l :: 1 <= l <= len ==> offs[l] == Offset(ls, l)
      {
        offs[len + 1] := offs[len] + count[len];
      }
    }

    /** Fills the symbol table: shorter codes first, and of two equally long the one of the smaller symbol. */
    method Sort(ls: seq<nat>)
      requires ValidLengths(ls) && |ls| <= symbol.Length
      requires count != symbol && Counts(ls)
      modifies symbol
      ensures TableFor(ls)
    {
      var offs := Offsets(ls);
      PlaceNone(ls, symbol[..]);
      for s := 0 to |ls|
        invariant forall l :: 1 <= l <= MAXBITS ==> offs[l] == Offset(ls, l) + Count(ls[..s], l)
        invariant Placed(symbol[..], ls[..s], ls)
      {
        var len := ls[s];
        forall l: nat
          ensures Count(ls[..s + 1], l) == Count(ls[..s], l) + if len == l then 1 else 0
        {
          SeenStep(ls, s, l);
        }
        ghost var was := symbol[..];
        if len != 0 {
          SlotInBounds(ls, s);
          symbol[offs[len]] := s;
          assert symbol[..] == was[Slot(ls, s) := s];
          offs[len] := offs[len] + 1;
        }
        PlaceStep(ls, s, was);
      }
      assert ls[..|ls|] == ls;
    }

    static lemma {:induction false} PlaceNone(ls: seq<nat>, table: seq<int>)
      requires |ls| <= |table|
      ensures Placed(table, ls[..0], ls)
      ensures forall l: nat :: Count(ls[..0], l) == 0
    {
      forall l: nat | 1 <= l <= MAXBITS
        ensures PlacedLength(table, ls[..0], ls, l)
      {
        OffsetBound(ls, l);
      }
    }

    static lemma {:induction false} SeenStep(ls: seq<nat>, s: nat, l: nat)
      requires s < |ls|
      ensures SymbolsOfLength(ls[..s + 1], l) == SymbolsOfLength(ls[..s], l) + if ls[s] == l then [s] else []
      ensures Count(ls[..s + 1], l) == Count(ls[..s], l) + if ls[s] == l then 1 else 0
    {
      assert ls[..s + 1][..s] == ls[..s];
    }

    /** Where symbol s goes. */
    static ghost function Slot(ls: seq<nat>, s: nat): nat
      requires s < |ls|
    {
      Offset(ls, ls[s]) + Rank(ls, s)
    }

    static lemma {:induction false} SlotInBounds(ls: seq<nat>, s: nat)
      requires s < |ls| && ls[s] > 0
      ensures Slot(ls, s) < |ls|
    {
      OffsetBound(ls, ls[s] + 1);
      CountPrefix(ls, ls[s], s);
    }

    /** The slot of s is outside what is placed already for any length. */
    static lemma {:induction false} SlotFree(ls: seq<nat>, s: nat, l: nat)
      requires s < |ls| && ls[s] > 0 && l > 0
      ensures !(Offset(ls, l) <= Slot(ls, s) < Offset(ls, l) + Count(ls[..s], l))
    {
      CountPrefix(ls, l, s);
      CountPrefix(ls, ls[s], s);
      if l < ls[s] {
        OffsetMono(ls, l, ls[s]);
      } else if ls[s] < l {
        OffsetMono(ls, ls[s], l);
      }
    }

    static lemma {:induction false} PlaceOne(ls: seq<nat>, s: nat, table: seq<int>, l: nat)
      requires s < |ls| && ls[s] > 0 && Slot(ls, s) < |table| && l > 0
      requires PlacedLength(table, ls[..s], ls, l)
      ensures PlacedLength(table[Slot(ls, s) := s], ls[..s + 1], ls, l)
    {
      SeenStep(ls, s, l);
      SlotFree(ls, s, l);
    }

    /** Storing symbol s at its place leaves the symbols placed before it alone. */
    static lemma {:induction false} PlaceStep(ls: seq<nat>, s: nat, table: seq<int>)
      requires s < |ls| && (ls[s] > 0 ==> Slot(ls, s) < |table|)
      requires Placed(table, ls[..s], ls)
      ensures Placed(if ls[s] == 0 then table else table[Slot(ls, s) := s], ls[..s + 1], ls)
    {
      var table' := if ls[s] == 0 then table else table[Slot(ls, s) := s];
      var seen := ls[..s + 1];
      forall l: nat | 1 <= l <= MAXBITS
        ensures PlacedLength(table', seen, ls, l)
      {
        assert PlacedLength(table, ls[..s], ls, l);
        if ls[s] == 0 {
          SeenStep(ls, s, l);
        } else {
          PlaceOne(ls, s, table, l);
        }
      }
    }

    static lemma {:induction false} NoCodes(ls: seq<nat>, table: seq<int>)
      requires Count(ls, 0) == |ls|
      ensures Placed(table, ls, ls)
    {
      OffsetBound(ls, MAXBITS + 1);
      forall l: nat | 1 <= l <= MAXBITS
        ensures PlacedLength(table, ls, ls, l)
      {
        OffsetMono(ls, l, MAXBITS + 1);
      }
    }
  }

  class State {
    // output state
    const out: array<Byte>
    var outcnt: nat
    // input state
    const input: seq<Byte>
    var incnt: nat
    var bitbuf: int
    var bitcnt: int

    constructor (dest: array<Byte>, source: seq<Byte>)
      ensures Valid() && Pos() == 0 && outcnt == 0 && out == dest && input == source
    {
      out := dest;
      outcnt := 0;
      input := source;
      incnt := 0;
      bitbuf := 0;
      bitcnt := 0;
    }

    ghost function Stream(): seq<Bit> {
      ToBits(input)
    }

    /** The first bit of the input not yet consumed. */
    ghost function Pos(): int
      reads this`incnt, this`bitcnt
    {
      8 * incnt - bitcnt
    }

    /** Fewer than eight bits are buffered, and they are the bits at Pos(). */
    ghost predicate Valid()
      reads this`incnt, this`bitbuf, this`bitcnt
    {
      && incnt <= |input|
      && 0 <= bitcnt < 8 && 0 <= Pos()
      && bitbuf == LsbVal(Stream()[Pos()..8 * incnt])
    }

    /** Takes need bits off the stream. */
    method Bits(need: nat) returns (r: Read)
      requires Valid()
      modifies this`incnt, this`bitbuf, this`bitcnt
      ensures var p := old(Pos());
              if p + need <= |Stream()|
              then Valid() && Pos() == p + need && r == Got(LsbVal(Stream()[p..p + need]))
              else r == Underrun
    {
      hide LsbVal, ToBits, Pow2;
      ghost var p := Pos();
      var val := bitbuf;
      while bitcnt < need
        invariant Pos() == p && 0 <= bitcnt < need + 8 && incnt <= |input|
        invariant val == LsbVal(Stream()[p..8 * incnt])
      {
        if incnt == |input| {
          return Underrun;
        }
        // the bits of val are below bit bitcnt, so or-ing the byte in is adding it
        val := val + input[incnt] * Pow2(bitcnt);
        LoadByte(input, p, incnt);
        incnt := incnt + 1;
        bitcnt := bitcnt + 8;
      }
      TakeBits(Stream(), p, 8 * incnt, need);
      bitbuf := val / Pow2(need);
      bitcnt := bitcnt - need;
      r := Got(val % Pow2(need));
    }

    /** Leaves in the buffer what is left of the last byte loaded, after len bits from p on. */
    method Keep(buf: int, len: int, ghost p: nat, ghost loaded: nat)
      requires incnt <= |input| && 0 <= 8 * incnt - (p + len) < 8 && 8 * incnt - (p + len) == bitcnt - len + 8 * loaded
      requires 0 <= p + len && buf == LsbVal(Stream()[p + len..8 * incnt])
      modifies this`bitbuf, this`bitcnt
      ensures Valid() && Pos() == p + len
    {
      hide LsbVal, ToBits;
      bitbuf := buf;
      BitsKept(loaded, bitcnt - len, 8 * incnt - (p + len));
      bitcnt := (bitcnt - len) % 8;
    }

    /** Reads one symbol, by stepping through the code lengths. */
    method Decode(h: Table, ghost ls: seq<nat>) returns (r: Read)
      requires Valid() && ValidLengths(ls) && h.TableFor(ls)
      modifies this`incnt, this`bitbuf, this`bitcnt
      ensures match DecodeSymbol(ls, Stream(), old(Pos()))
              case Symbol(s, p) => Valid() && Pos() == p && r == Got(s)
              case NoCode => r == Got(-10)
              case OutOfInput => r == Underrun
    {
      hide ValidLengths, Walking, Buffered, LsbVal, ToBits, Offset, Count, SymbolsOfLength, DecodeSymbol, Table.Placed;
      ghost var bits, p := Stream(), Pos();
      var buf, left := bitbuf, bitcnt;
      var code, first, index, len := 0, 0, 0, 1;
      WalkStart(ls, bits, p);
      BufferStart(bits, p, buf, left, incnt);
      while true
        invariant Walking(ls, bits, p, len, code, first, index)
        invariant left >= 0 && Buffered(bits, p, len, buf, left, incnt)
        invariant old(incnt) <= incnt <= |input| && bitcnt == old(bitcnt)
        decreases 2 * (MAXBITS + 1 - len) + if left == 0 then 1 else 0
      {
        ghost var end := len + left;
        while left > 0
          invariant len + left == end
          invariant Walking(ls, bits, p, len, code, first, index)
          invariant left >= 0 && Buffered(bits, p, len, buf, left, incnt)
          invariant old(incnt) <= incnt <= |input| && bitcnt == old(bitcnt)
          decreases left
        {
          BufferStep(bits, p, len, buf, left, incnt);
          left := left - 1;
          WalkStep(ls, bits, p, len, code, first, index);
          code := code + buf % 2;
          buf := buf / 2;
          var cnt := h.count[len];
          if code - cnt < first {
            Keep(buf, len, p, incnt - old(incnt));
            SymbolStored(ls, h.symbol[..], len, code - first);
            return Got(h.symbol[index + (code - first)]);
          }
          index := index + cnt;
          first := 2 * (first + cnt);
          code := 2 * code;
          len := len + 1;
        }
        BufferEnd(bits, p, len, buf, incnt);
        left := MAXBITS + 1 - len;
        WalkEnd(ls, bits, p, len, code, first, index);
        if left == 0 {
          break;
        }
        if incnt == |input| {
          return Underrun;
        }
        buf := input[incnt];
        BufferLoad(input, p, len, incnt);
        incnt := incnt + 1;
        if left > 8 {
          left := 8;
        }
      }
      r := Got(-10);
    }
  }

  /** No code shorter than len comes next; code holds the bits read so far, shifted to make room for one more. */
  ghost predicate Walking(ls: seq<nat>, bits: seq<Bit>, p: nat, len: int, code: int, first: int, index: int) {
    && 1 <= len <= MAXBITS + 1 && p + len - 1 <= |bits|
    && code == 2 * MsbVal(bits[p..p + len - 1]) && first == NextCode(ls, len) && index == Offset(ls, len)
    && first <= code
    && forall s: nat :: Matches(ls, s, bits, p) ==> ls[s] >= len
  }

  /** buf holds the rest of the last byte loaded; left of those bits are to be looked at. */
  ghost predicate Buffered(bits: seq<Bit>, p: nat, len: int, buf: int, left: int, incnt: nat) {
    && 1 <= len && p + len - 1 <= 8 * incnt <= |bits|
    && 0 <= left <= 8 * incnt - (p + len - 1) <= 8
    && len + left <= MAXBITS + 1 && (left == 8 * incnt - (p + len - 1) || len + left == MAXBITS + 1)
    && buf == LsbVal(bits[p + len - 1..8 * incnt])
  }

  lemma {:induction false} BufferStart(bits: seq<Bit>, p: nat, buf: int, left: int, incnt: nat)
    requires 8 * incnt <= |bits| && 0 <= left < 8 && p == 8 * incnt - left && buf == LsbVal(bits[p..8 * incnt])
    ensures Buffered(bits, p, 1, buf, left, incnt)
  {
  }

  lemma {:induction false} BufferStep(bits: seq<Bit>, p: nat, len: int, buf: int, left: int, incnt: nat)
    requires Buffered(bits, p, len, buf, left, incnt) && left > 0
    ensures 1 <= len <= MAXBITS && p + len <= 8 * incnt <= |bits| && 8 * incnt - (p + len) < 8
    ensures buf % 2 == bits[p + len - 1] && buf / 2 == LsbVal(bits[p + len..8 * incnt])
    ensures Buffered(bits, p, len + 1, buf / 2, left - 1, incnt)
  {
    NextBit(bits, p + len - 1, 8 * incnt);
  }

  lemma {:induction false} BufferEnd(bits: seq<Bit>, p: nat, len: int, buf: int, incnt: nat)
    requires Buffered(bits, p, len, buf, 0, incnt)
    ensures 1 <= len <= MAXBITS + 1 && (len <= MAXBITS ==> p + len - 1 == 8 * incnt)
  {
  }

  lemma {:induction false} BufferLoad(input: seq<Byte>, p: nat, len: int, incnt: nat)
    requires incnt < |input| && 1 <= len <= MAXBITS && p + len - 1 == 8 * incnt
    ensures var left := if MAXBITS + 1 - len > 8 then 8 else MAXBITS + 1 - len;
            Buffered(ToBits(input), p, len, input[incnt], left, incnt + 1)
  {
    ByteBits(input, incnt);
  }

  lemma {:induction false} WalkStart(ls: seq<nat>, bits: seq<Bit>, p: nat)
    requires p <= |bits|
    ensures Walking(ls, bits, p, 1, 0, 0, 0)
  {
  }

  /** Past the last length no code comes next; with the input used up before that, no code can be read. */
  lemma {:induction false} WalkEnd(ls: seq<nat>, bits: seq<Bit>, p: nat, len: int, code: int, first: int, index: int)
    requires ValidLengths(ls) && Walking(ls, bits, p, len, code, first, index)
    ensures len == MAXBITS + 1 ==> DecodeSymbol(ls, bits, p) == NoCode
    ensures len <= MAXBITS && p + len - 1 == |bits| ==> DecodeSymbol(ls, bits, p) == OutOfInput
  {
  }

  lemma {:induction false} WalkStep(ls: seq<nat>, bits: seq<Bit>, p: nat, len: int, code: int, first: int, index: int)
    requires ValidLengths(ls) && Walking(ls, bits, p, len, code, first, index) && len <= MAXBITS && p + len <= |bits|
    ensures index == Offset(ls, len)
    ensures var v := code + bits[p + len - 1];
            var cnt := Count(ls, len);
            if v - cnt < first
            then 0 <= v - first < cnt
              && DecodeSymbol(ls, bits, p) == Symbol(SymbolsOfLength(ls, len)[v - first], p + len)
            else Walking(ls, bits, p, len + 1, 2 * v, 2 * (first + cnt), index + cnt)
  {
    hide Count, SymbolsOfLength, DecodeSymbol, Matches;
    var v := code + bits[p + len - 1];
    assert bits[p..p + len][..len - 1] == bits[p..p + len - 1];
    assert v == MsbVal(bits[p..p + len]);
    AtLength(ls, bits, p, len);
    if v - Count(ls, len) < first {
      DecodesOwnCode(ls, SymbolsOfLength(ls, len)[v - first], bits, p);
    }
  }

  /** What is kept of the last byte is the old count less the code's length, modulo eight. */
  lemma {:induction false} BitsKept(loaded: nat, c: int, kept: int)
    requires 0 <= kept < 8 && kept == c + 8 * loaded
    ensures c % 8 == kept
  {
  }

  lemma {:induction false} NextBit(bits: seq<Bit>, k: nat, e: nat)
    requires k < e <= |bits|
    ensures LsbVal(bits[k..e]) % 2 == bits[k] && LsbVal(bits[k..e]) / 2 == LsbVal(bits[k + 1..e])
  {
    assert bits[k..e][1..] == bits[k + 1..e];
  }

  lemma {:induction false} SymbolStored(ls: seq<nat>, table: seq<int>, l: nat, r: nat)
    requires Table.Placed(table, ls, ls) && 1 <= l <= MAXBITS && r < Count(ls, l)
    ensures Offset(ls, l) + r < |table| && table[Offset(ls, l) + r] == SymbolsOfLength(ls, l)[r]
  {
    assert Table.PlacedLength(table, ls, ls, l);
    assert table[Offset(ls, l)..Offset(ls, l) + Count(ls, l)][r] == table[Offset(ls, l) + r];
  }
}
