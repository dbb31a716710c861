/** Canonical Huffman codes (section 3.2.2 of RFC 1951): the code a table of
    lengths stands for, when it is complete, and what decoding one symbol means. */
module Huffman {
  import opened Bits

  const MAXBITS := 15

  ghost predicate ValidLengths(ls: seq<nat>) {
    forall i :: 0 <= i < |ls| ==> ls[i] <= MAXBITS
  }

  /** Number of symbols whose code has length l. */
  function Count(ls: seq<nat>, l: nat): (n: nat)
    ensures n <= |ls|
  {
    if |ls| == 0 then 0
    else Count(ls[..|ls| - 1], l) + if ls[|ls| - 1] == l then 1 else 0
  }

  /** The symbols whose code has length l, in symbol order. */
  function SymbolsOfLength(ls: seq<nat>, l: nat): (r: seq<nat>)
    ensures |r| == Count(ls, l)
    ensures forall k :: 0 <= k < |r| ==> r[k] < |ls| && ls[r[k]] == l
  {
    if |ls| == 0 then []
    else
      var r := SymbolsOfLength(ls[..|ls| - 1], l);
      if ls[|ls| - 1] == l then r + [|ls| - 1] else r
  }

  /** How many earlier symbols have a code as long as that of s. */
  function Rank(ls: seq<nat>, s: nat): nat
    requires s < |ls|
  {
    Count(ls[..s], ls[s])
  }

  /** The numerically first code of length l. */
  function NextCode(ls: seq<nat>, l: nat): nat
  {
    if l <= 1 then 0 else 2 * (NextCode(ls, l - 1) + Count(ls, l - 1))
  }

  /** The code of symbol s, to be sent most significant bit first in ls[s] bits. */
  function CodeOf(ls: seq<nat>, s: nat): nat
    requires s < |ls|
  {
    NextCode(ls, ls[s]) + Rank(ls, s)
  }

  /** The bits at pos begin with the code of s. */
  ghost predicate Matches(ls: seq<nat>, s: nat, bits: seq<Bit>, pos: nat) {
    && s < |ls| && ls[s] > 0 && pos + ls[s] <= |bits|
    && MsbVal(bits[pos..pos + ls[s]]) == CodeOf(ls, s)
  }

  datatype Decoded = Symbol(s: nat, pos: nat) | NoCode | OutOfInput

  /** Reading one symbol: the one whose code comes next; with no such symbol,
      an invalid code once MAXBITS bits are there and an underrun before that. */
  ghost function DecodeSymbol(ls: seq<nat>, bits: seq<Bit>, pos: nat): (d: Decoded)
    ensures d.Symbol? ==> d.s < |ls| && pos < d.pos <= |bits| && d.pos == pos + ls[d.s]
  {
    if exists s: nat :: Matches(ls, s, bits, pos) then
      var s: nat :| Matches(ls, s, bits, pos);
      Symbol(s, pos + ls[s])
    else if pos + MAXBITS <= |bits| then NoCode
    else OutOfInput
  }

  // ----- Counting -----

  lemma {:induction false} CountPrefix(ls: seq<nat>, l: nat, k: nat)
    requires k <= |ls|
    ensures Count(ls[..k], l) <= Count(ls, l)
    ensures k < |ls| && ls[k] == l ==> Count(ls[..k], l) < Count(ls, l)
  {
    if k == |ls| {
      assert ls[..k] == ls;
    } else {
      var init := ls[..|ls| - 1];
      assert init[..k] == ls[..k];
      CountPrefix(init, l, k);
    }
  }

  /** A symbol sits in the list of its length at its rank, and only there. */
  lemma {:induction false} SymbolAtRank(ls: seq<nat>, s: nat)
    requires s < |ls|
    ensures Rank(ls, s) < Count(ls, ls[s])
    ensures SymbolsOfLength(ls, ls[s])[Rank(ls, s)] == s
  {
    CountPrefix(ls, ls[s], s);
    var init := ls[..|ls| - 1];
    if s < |ls| - 1 {
      assert init[..s] == ls[..s];
      SymbolAtRank(init, s);
    }
  }

  lemma {:induction false} RankOfSymbol(ls: seq<nat>, l: nat, r: nat)
    requires r < Count(ls, l)
    ensures var s := SymbolsOfLength(ls, l)[r]; Rank(ls, s) == r
  {
    var init := ls[..|ls| - 1];
    var s := SymbolsOfLength(ls, l)[r];
    if r < Count(init, l) {
      RankOfSymbol(init, l, r);
      assert init[..s] == ls[..s];
    }
  }

  // ----- Prefix freedom and the walk down the lengths -----

  /** Once a prefix of the input is below the end of the codes of its length,
      every longer prefix is below the first code of its own length. */
  lemma {:induction false} StaysBelow(ls: seq<nat>, bits: seq<Bit>, pos: nat, l: nat, m: nat)
    requires 1 <= l < m && pos + m <= |bits|
    requires MsbVal(bits[pos..pos + l]) < NextCode(ls, l) + Count(ls, l)
    ensures MsbVal(bits[pos..pos + m]) < NextCode(ls, m)
  {
    if l < m - 1 { StaysBelow(ls, bits, pos, l, m - 1); }
    assert bits[pos..pos + m][..m - 1] == bits[pos..pos + m - 1];
  }

  /** No code is a prefix of another: at most one symbol can come next. */
  lemma {:induction false} PrefixFree(ls: seq<nat>, s: nat, t: nat, bits: seq<Bit>, pos: nat)
    requires Matches(ls, s, bits, pos) && Matches(ls, t, bits, pos)
    ensures s == t
  {
    if ls[s] < ls[t] {
      ShorterExcludes(ls, s, t, bits, pos);
    } else if ls[t] < ls[s] {
      ShorterExcludes(ls, t, s, bits, pos);
    } else {
      SymbolAtRank(ls, s);
      SymbolAtRank(ls, t);
    }
  }

  lemma {:induction false} ShorterExcludes(ls: seq<nat>, s: nat, t: nat, bits: seq<Bit>, pos: nat)
    requires Matches(ls, s, bits, pos) && t < |ls| && ls[s] < ls[t]
    ensures !Matches(ls, t, bits, pos)
  {
    SymbolAtRank(ls, s);
    if pos + ls[t] <= |bits| {
      StaysBelow(ls, bits, pos, ls[s], ls[t]);
    }
  }

  /** The canonical code of s read from the stream decodes to s and consumes
      exactly ls[s] bits, whatever follows. */
  lemma {:induction false} DecodesOwnCode(ls: seq<nat>, s: nat, bits: seq<Bit>, pos: nat)
    requires Matches(ls, s, bits, pos)
    ensures DecodeSymbol(ls, bits, pos) == Symbol(s, pos + ls[s])
  {
    forall t: nat | Matches(ls, t, bits, pos)
      ensures t == s
    {
      PrefixFree(ls, s, t, bits, pos);
    }
  }

  /** Whether a code of length l comes next is one comparison, and then the
      symbol is found by its position among the codes of that length. */
  lemma {:induction false} AtLength(ls: seq<nat>, bits: seq<Bit>, pos: nat, l: nat)
    requires l >= 1 && pos + l <= |bits|
    requires NextCode(ls, l) <= MsbVal(bits[pos..pos + l])
    ensures var v := MsbVal(bits[pos..pos + l]);
            if v < NextCode(ls, l) + Count(ls, l)
            then var s := SymbolsOfLength(ls, l)[v - NextCode(ls, l)]; ls[s] == l && Matches(ls, s, bits, pos)
            else forall s: nat :: Matches(ls, s, bits, pos) ==> ls[s] != l
  {
    var v := MsbVal(bits[pos..pos + l]);
    if v < NextCode(ls, l) + Count(ls, l) {
      RankOfSymbol(ls, l, v - NextCode(ls, l));
    } else {
      forall s: nat | Matches(ls, s, bits, pos)
        ensures ls[s] != l
      {
        SymbolAtRank(ls, s);
      }
    }
  }

  // ----- Kraft's inequality -----

  /** Codes of length l still free after all codes of length at most l are taken. */
  function Left(ls: seq<nat>, l: nat): int
  {
    if l == 0 then 1 else 2 * Left(ls, l - 1) - Count(ls, l)
  }

  /** The Kraft sum of the lengths, scaled by 2^l. */
  function KraftSum(ls: seq<nat>, l: nat): nat
  {
    if |ls| == 0 then 0
    else
      var x := ls[|ls| - 1];
      KraftSum(ls[..|ls| - 1], l) + if 1 <= x <= l then Pow2(l - x) else 0
  }

  lemma {:induction false} KraftSumStep(ls: seq<nat>, l: nat)
    requires l >= 1
    ensures KraftSum(ls, l) == 2 * KraftSum(ls, l - 1) + Count(ls, l)
  {
    if |ls| > 0 { KraftSumStep(ls[..|ls| - 1], l); }
  }

  /** What is left over is exactly the slack in Kraft's inequality. */
  lemma {:induction false} LeftIsKraft(ls: seq<nat>, l: nat)
    ensures Left(ls, l) == Pow2(l) - KraftSum(ls, l)
  {
    if l == 0 {
      KraftZero(ls);
    } else {
      LeftIsKraft(ls, l - 1);
      KraftSumStep(ls, l);
    }
  }

  lemma {:induction false} KraftZero(ls: seq<nat>)
    ensures KraftSum(ls, 0) == 0
  {
    if |ls| > 0 { KraftZero(ls[..|ls| - 1]); }
  }

  lemma {:induction false} CodesTaken(ls: seq<nat>, l: nat)
    requires l >= 1
    ensures NextCode(ls, l) + Count(ls, l) == Pow2(l) - Left(ls, l)
  {
    if l > 1 { CodesTaken(ls, l - 1); }
  }

  lemma {:induction false} LeftShrinks(ls: seq<nat>, l: nat, m: nat)
    requires l <= m
    ensures Left(ls, l) <= 0 ==> Left(ls, m) <= 0
    ensures Left(ls, l) < 0 ==> Left(ls, m) < 0
  {
    if l < m { LeftShrinks(ls, l, m - 1); }
  }

  /** In a table that is not over-subscribed every code fits in its length. */
  lemma {:induction false} CodeFits(ls: seq<nat>, s: nat)
    requires s < |ls| && 1 <= ls[s] <= MAXBITS && Left(ls, MAXBITS) >= 0
    ensures CodeOf(ls, s) < Pow2(ls[s])
  {
    SymbolAtRank(ls, s);
    CodesTaken(ls, ls[s]);
    LeftShrinks(ls, ls[s], MAXBITS);
  }

  /** Sending the code of s makes it come next. */
  lemma {:induction false} SentCodeMatches(ls: seq<nat>, s: nat, bits: seq<Bit>, pos: nat)
    requires s < |ls| && 1 <= ls[s] <= MAXBITS && Left(ls, MAXBITS) >= 0
    requires pos + ls[s] <= |bits| && bits[pos..pos + ls[s]] == MsbBits(CodeOf(ls, s), ls[s])
    ensures Matches(ls, s, bits, pos)
  {
    CodeFits(ls, s);
    MsbRoundTrip(CodeOf(ls, s), ls[s]);
  }

  /** If nothing shorter than l matches, the next l bits are not below the codes of length l. */
  lemma {:induction false} NoShorter(ls: seq<nat>, bits: seq<Bit>, pos: nat, l: nat)
    requires l >= 1 && pos + l <= |bits|
    requires forall s: nat :: Matches(ls, s, bits, pos) ==> ls[s] >= l
    ensures NextCode(ls, l) <= MsbVal(bits[pos..pos + l])
  {
    if l > 1 {
      NoShorter(ls, bits, pos, l - 1);
      AtLength(ls, bits, pos, l - 1);
      assert bits[pos..pos + l][..l - 1] == bits[pos..pos + l - 1];
    }
  }

  /** A code with nothing left over resolves every string of MAXBITS bits. */
  lemma {:induction false} CompleteResolves(ls: seq<nat>, bits: seq<Bit>, pos: nat)
    requires Left(ls, MAXBITS) <= 0 && pos + MAXBITS <= |bits|
    ensures DecodeSymbol(ls, bits, pos).Symbol?
  {
    if forall s: nat :: !Matches(ls, s, bits, pos) {
      NoShorter(ls, bits, pos, MAXBITS);
      CodesTaken(ls, MAXBITS);
      MsbBound(bits[pos..pos + MAXBITS]);
      AtLength(ls, bits, pos, MAXBITS);
    }
  }

  function Ones(n: nat): (b: seq<Bit>)
    ensures |b| == n
  {
    seq(n, i => 1)
  }

  lemma {:induction false} OnesValue(n: nat)
    ensures MsbVal(Ones(n)) == Pow2(n) - 1
  {
    if n > 0 {
      OnesValue(n - 1);
      assert Ones(n)[..n - 1] == Ones(n - 1);
    }
  }

  /** A code with something left over does not decode a run of ones. */
  lemma {:induction false} IncompleteFails(ls: seq<nat>)
    requires ValidLengths(ls) && Left(ls, MAXBITS) > 0
    ensures DecodeSymbol(ls, Ones(MAXBITS), 0) == NoCode
  {
    forall s: nat | Matches(ls, s, Ones(MAXBITS), 0)
      ensures false
    {
      var l := ls[s];
      assert Ones(MAXBITS)[0..l] == Ones(l);
      OnesValue(l);
      SymbolAtRank(ls, s);
      CodesTaken(ls, l);
      LeftShrinks(ls, l, MAXBITS);
    }
  }

  /** A table resolves every long enough input exactly when its Kraft sum reaches one. */
  lemma {:induction false} CompleteIff(ls: seq<nat>)
    requires ValidLengths(ls)
    ensures (forall bits: seq<Bit>, pos: nat :: pos + MAXBITS <= |bits| ==> DecodeSymbol(ls, bits, pos) != NoCode)
            <==> KraftSum(ls, MAXBITS) >= Pow2(MAXBITS)
  {
    LeftIsKraft(ls, MAXBITS);
    if Left(ls, MAXBITS) <= 0 {
      forall bits: seq<Bit>, pos: nat | pos + MAXBITS <= |bits|
        ensures DecodeSymbol(ls, bits, pos) != NoCode
      {
        CompleteResolves(ls, bits, pos);
      }
    } else {
      IncompleteFails(ls);
      assert |Ones(MAXBITS)| == MAXBITS;
    }
  }

  // ----- The order of the symbol table -----

  /** Where the symbols of length l start in the table. */
  function Offset(ls: seq<nat>, l: nat): nat
  {
    if l <= 1 then 0 else Offset(ls, l - 1) + Count(ls, l - 1)
  }

  /** The table is laid out by length, then by symbol: symbols longer than l come after those of length l. */
  lemma {:induction false} OffsetMono(ls: seq<nat>, l: nat, m: nat)
    requires 1 <= l < m
    ensures Offset(ls, l) + Count(ls, l) <= Offset(ls, m)
  {
    if l < m - 1 { OffsetMono(ls, l, m - 1); }
  }

  /** All the symbols that have a code fit in the table. */
  lemma {:induction false} OffsetBound(ls: seq<nat>, l: nat)
    requires l >= 1
    ensures Offset(ls, l) + Count(ls, 0) <= |ls|
    decreases |ls|
  {
    if |ls| == 0 {
      OffsetEmpty(l);
    } else {
      OffsetBound(ls[..|ls| - 1], l);
      OffsetAppend(ls, l);
    }
  }

  lemma {:induction false} OffsetEmpty(l: nat)
    ensures Offset([], l) == 0
  {
    if l > 1 { OffsetEmpty(l - 1); }
  }

  lemma {:induction false} OffsetAppend(ls: seq<nat>, l: nat)
    requires |ls| > 0 && l >= 1
    ensures var x := ls[|ls| - 1];
            Offset(ls, l) == Offset(ls[..|ls| - 1], l) + if 1 <= x < l then 1 else 0
  {
    if l > 1 { OffsetAppend(ls, l - 1); }
  }
}
