/** An encoder for every kind of deflate block, and the proof that inflating
    what it sends gives back what went in. */
module Deflate {
  import opened Bits
  import opened Huffman
  import opened DeflateSpec
  import Puff

  /** A literal byte, or a copy of len bytes from dist bytes back. */
  datatype Token = Lit(b: Byte) | Match(len: nat, dist: nat)

  datatype Chunk =
    | StoredChunk(data: seq<Byte>)
    | FixedChunk(tokens: seq<Token>)
    | DynamicChunk(ll: seq<nat>, dl: seq<nat>, head: Head, tokens: seq<Token>)

  /** How the lengths of a dynamic block's codes are sent: the code for code lengths, how many of its own
      lengths are sent, and the lengths one by one or repeated. */
  datatype Head = Head(cl: seq<nat>, ncode: nat, ops: seq<LenOp>)

  /** One length; or with symbol 16, 17 or 18 the previous length, or zero, n times. */
  datatype LenOp = One(l: nat) | Rep(s: nat, n: nat)

  // ----- What tokens and chunks stand for -----

  predicate ValidToken(t: Token, n: nat) {
    t.Match? ==> 3 <= t.len <= 258 && 1 <= t.dist <= 32768 && t.dist <= n
  }

  function Apply(out: seq<Byte>, t: Token): (r: seq<Byte>)
    requires ValidToken(t, |out|)
    ensures out <= r && |out| < |r|
  {
    match t
    case Lit(b) => out + [b]
    case Match(len, dist) => Copy(out, dist, len)
  }

  predicate ValidTokens(out: seq<Byte>, ts: seq<Token>)
    decreases |ts|
  {
    |ts| > 0 ==> ValidToken(ts[0], |out|) && ValidTokens(Apply(out, ts[0]), ts[1..])
  }

  /** The LZ77 expansion of the tokens after out. */
  function Expand(out: seq<Byte>, ts: seq<Token>): (r: seq<Byte>)
    requires ValidTokens(out, ts)
    ensures out <= r
    decreases |ts|
  {
    if |ts| == 0 then out else Expand(Apply(out, ts[0]), ts[1..])
  }

  // ----- Sending symbols and tokens -----

  /** A code that is not over-subscribed. */
  predicate Good(ls: seq<nat>) {
    (forall i :: 0 <= i < |ls| ==> ls[i] <= MAXBITS) && Left(ls, MAXBITS) >= 0
  }

  predicate HasCode(ls: seq<nat>, s: nat) {
    s < |ls| && ls[s] > 0
  }

  function Send(ls: seq<nat>, s: nat): (r: seq<Bit>)
    requires HasCode(ls, s)
    ensures |r| == ls[s]
  {
    MsbBits(CodeOf(ls, s), ls[s])
  }

  /** The last entry of a base table that is not above v. */
  function Find(base: seq<nat>, v: nat, k: nat): (r: nat)
    requires k < |base| && base[0] <= v
    ensures r <= k && base[r] <= v && (r < k ==> v < base[r + 1])
  {
    if base[k] <= v then k else Find(base, v, k - 1)
  }

  function LenIndex(len: nat): (k: nat)
    requires 3 <= len
    ensures k < |LenBase()| && LenBase()[k] <= len
  {
    Find(LenBase(), len, |LenBase()| - 1)
  }

  function DistIndex(dist: nat): (d: nat)
    requires 1 <= dist
    ensures d < |DistBase()| && DistBase()[d] <= dist
  {
    Find(DistBase(), dist, |DistBase()| - 1)
  }

  predicate Sendable(ll: seq<nat>, dl: seq<nat>, t: Token) {
    match t
    case Lit(b) => HasCode(ll, b)
    case Match(len, dist) =>
      3 <= len <= 258 && 1 <= dist <= 32768 && HasCode(ll, 257 + LenIndex(len)) && HasCode(dl, DistIndex(dist))
  }

  function SendToken(ll: seq<nat>, dl: seq<nat>, t: Token): (r: seq<Bit>)
    requires Sendable(ll, dl, t)
  {
    match t
    case Lit(b) => Send(ll, b)
    case Match(len, dist) =>
      var k, d := LenIndex(len), DistIndex(dist);
      Send(ll, 257 + k) + (LsbBits(len - LenBase()[k], LenExtra()[k])
        + (Send(dl, d) + LsbBits(dist - DistBase()[d], DistExtra()[d])))
  }

  /** The tokens, then the end of the block. */
  function SendTokens(ll: seq<nat>, dl: seq<nat>, ts: seq<Token>): (r: seq<Bit>)
    requires HasCode(ll, END_OF_BLOCK) && forall i :: 0 <= i < |ts| ==> Sendable(ll, dl, ts[i])
  {
    if |ts| == 0 then Send(ll, END_OF_BLOCK)
    else SendToken(ll, dl, ts[0]) + SendTokens(ll, dl, ts[1..])
  }

  /** The stream holds e at pos. */
  ghost predicate At(bits: seq<Bit>, pos: nat, e: seq<Bit>) {
    pos + |e| <= |bits| && bits[pos..pos + |e|] == e
  }

  lemma {:induction false} AtSplit(bits: seq<Bit>, pos: nat, a: seq<Bit>, b: seq<Bit>)
    requires At(bits, pos, a + b)
    ensures At(bits, pos, a) && At(bits, pos + |a|, b)
  {
    assert bits[pos..pos + |a|] == (a + b)[..|a|] == a;
    assert bits[pos + |a|..pos + |a + b|] == (a + b)[|a|..] == b;
  }

  lemma {:induction false} SentSymbol(ls: seq<nat>, s: nat, bits: seq<Bit>, pos: nat)
    requires Good(ls) && HasCode(ls, s) && At(bits, pos, Send(ls, s))
    ensures DecodeSymbol(ls, bits, pos) == Symbol(s, pos + ls[s])
  {
    SentCodeMatches(ls, s, bits, pos);
    DecodesOwnCode(ls, s, bits, pos);
  }

  lemma {:induction false} SentField(bits: seq<Bit>, pos: nat, v: nat, n: nat)
    requires At(bits, pos, LsbBits(v, n)) && v < Pow2(n)
    ensures Field(bits, pos, n) == v
  {
    LsbRoundTrip(v, n);
  }

  /** Each length fits in the extra bits of its symbol. */
  lemma {:induction false} LenFits(len: nat)
    requires 3 <= len <= 258
    ensures len - LenBase()[LenIndex(len)] < Pow2(LenExtra()[LenIndex(len)])
  {
    var k := LenIndex(len);
    Pow2Values();
    if k < 28 { LensStep(k); }
  }

  lemma {:induction false} LensStep(k: nat)
    requires k < 28
    ensures LenBase()[k + 1] <= LenBase()[k] + Pow2(LenExtra()[k])
  {
    if k < 14 { LensStepLow(k); } else { LensStepHigh(k); }
  }

  lemma {:induction false} LensStepLow(k: nat)
    requires k < 14
    ensures LenBase()[k + 1] <= LenBase()[k] + Pow2(LenExtra()[k])
  {
    hide Pow2;
    Pow2Values();
    match k
    case 0 => case 1 => case 2 => case 3 => case 4 => case 5 => case 6 => case 7 => case 8 => case 9 =>
    case 10 => case 11 => case 12 => case 13 =>
  }

  lemma {:induction false} LensStepHigh(k: nat)
    requires 14 <= k < 28
    ensures LenBase()[k + 1] <= LenBase()[k] + Pow2(LenExtra()[k])
  {
    hide Pow2;
    Pow2Values();
    match k
    case 14 => case 15 => case 16 => case 17 => case 18 => case 19 => case 20 => case 21 => case 22 => case 23 =>
    case 24 => case 25 => case 26 => case 27 =>
  }

  lemma {:induction false} DistFits(dist: nat)
    requires 1 <= dist <= 32768
    ensures dist - DistBase()[DistIndex(dist)] < Pow2(DistExtra()[DistIndex(dist)])
  {
    var k := DistIndex(dist);
    Pow2Values();
    if k < 29 { DistsStep(k); }
  }

  lemma {:induction false} DistsStep(k: nat)
    requires k < 29
    ensures DistBase()[k + 1] <= DistBase()[k] + Pow2(DistExtra()[k])
  {
    if k < 14 { DistsStepLow(k); } else { DistsStepHigh(k); }
  }

  lemma {:induction false} DistsStepLow(k: nat)
    requires k < 14
    ensures DistBase()[k + 1] <= DistBase()[k] + Pow2(DistExtra()[k])
  {
    hide Pow2;
    Pow2Values();
    match k
    case 0 => case 1 => case 2 => case 3 => case 4 => case 5 => case 6 => case 7 => case 8 => case 9 =>
    case 10 => case 11 => case 12 => case 13 =>
  }

  lemma {:induction false} DistsStepHigh(k: nat)
    requires 14 <= k < 29
    ensures DistBase()[k + 1] <= DistBase()[k] + Pow2(DistExtra()[k])
  {
    hide Pow2;
    Pow2Values();
    match k
    case 14 => case 15 => case 16 => case 17 => case 18 => case 19 => case 20 => case 21 => case 22 => case 23 =>
    case 24 => case 25 => case 26 => case 27 => case 28 =>
  }

  /** The rest of a match reads back as it was sent. */
  lemma {:induction false} SentMatch(dl: seq<nat>, k: nat, x: nat, d: nat, y: nat, bits: seq<Bit>, pos: nat)
    requires Good(dl) && |dl| <= MAXDCODES && HasCode(dl, d) && k < |LenBase()|
    requires x < Pow2(LenExtra()[k]) && y < Pow2(DistExtra()[d])
    requires At(bits, pos, LsbBits(x, LenExtra()[k]) + (Send(dl, d) + LsbBits(y, DistExtra()[d])))
    ensures ReadMatch(dl, bits, pos, k)
            == Pair(LenBase()[k] + x, DistBase()[d] + y, pos + LenExtra()[k] + dl[d] + DistExtra()[d])
  {
    hide Good, At, Send, DecodeSymbol, LsbBits, Field, Pow2, LenBase, LenExtra, DistBase, DistExtra;
    var a, b, c := LsbBits(x, LenExtra()[k]), Send(dl, d), LsbBits(y, DistExtra()[d]);
    AtSplit(bits, pos, a, b + c);
    AtSplit(bits, pos + |a|, b, c);
    AtInside(bits, pos + |a| + |b|, c);
    SentField(bits, pos, x, LenExtra()[k]);
    SentSymbol(dl, d, bits, pos + |a|);
    SentField(bits, pos + |a| + |b|, y, DistExtra()[d]);
  }

  lemma {:induction false} AtInside(bits: seq<Bit>, pos: nat, e: seq<Bit>)
    requires At(bits, pos, e)
    ensures pos + |e| <= |bits|
  {
  }

  lemma {:induction false} SentLiteral(ll: seq<nat>, dl: seq<nat>, b: Byte, bits: seq<Bit>, pos: nat, out: seq<Byte>,
                                       cap: nat)
    requires Good(ll) && |dl| <= MAXDCODES && |out| < cap
    requires HasCode(ll, b) && At(bits, pos, Send(ll, b))
    ensures pos + ll[b] <= |bits|
    ensures Codes(ll, dl, bits, pos, out, cap) == Codes(ll, dl, bits, pos + ll[b], out + [b], cap)
  {
    hide Good, Send, DecodeSymbol, ReadMatch;
    SentSymbol(ll, b, bits, pos);
  }

  /** What Codes does with a match. */
  lemma {:induction false} MatchStep(ll: seq<nat>, dl: seq<nat>, k: nat, bits: seq<Bit>, pos: nat, out: seq<Byte>,
                                     cap: nat)
    requires |dl| <= MAXDCODES && pos <= |bits| && |out| <= cap
    requires DecodeSymbol(ll, bits, pos).Symbol? && DecodeSymbol(ll, bits, pos).s == 257 + k
    requires var m := ReadMatch(dl, bits, DecodeSymbol(ll, bits, pos).pos, k);
             m.Pair? && m.dist <= |out| && |out| + m.len <= cap
    ensures var m := ReadMatch(dl, bits, DecodeSymbol(ll, bits, pos).pos, k);
            Codes(ll, dl, bits, pos, out, cap) == Codes(ll, dl, bits, m.pos, Copy(out, m.dist, m.len), cap)
  {
    hide DecodeSymbol, ReadMatch;
  }

  /** A match in its symbols and extra bits is read as that match. */
  lemma {:induction false} SentCopy(ll: seq<nat>, dl: seq<nat>, k: nat, x: nat, d: nat, y: nat,
                                    bits: seq<Bit>, pos: nat, out: seq<Byte>, cap: nat)
    requires Good(ll) && Good(dl) && |dl| <= MAXDCODES && HasCode(ll, 257 + k) && HasCode(dl, d) && k < |LenBase()|
    requires x < Pow2(LenExtra()[k]) && y < Pow2(DistExtra()[d])
    requires 1 <= DistBase()[d] + y <= |out| && |out| + LenBase()[k] + x <= cap
    requires At(bits, pos, Send(ll, 257 + k) + (LsbBits(x, LenExtra()[k]) + (Send(dl, d) + LsbBits(y, DistExtra()[d]))))
    ensures var p := pos + ll[257 + k] + LenExtra()[k] + dl[d] + DistExtra()[d];
            && p <= |bits|
            && Codes(ll, dl, bits, pos, out, cap)
              == Codes(ll, dl, bits, p, Copy(out, DistBase()[d] + y, LenBase()[k] + x), cap)
  {
    hide Good, Send, DecodeSymbol, LsbBits, Pow2, ReadMatch, Codes, Copy, LenBase, LenExtra, DistBase, DistExtra;
    var rest := LsbBits(x, LenExtra()[k]) + (Send(dl, d) + LsbBits(y, DistExtra()[d]));
    AtSplit(bits, pos, Send(ll, 257 + k), rest);
    SentSymbol(ll, 257 + k, bits, pos);
    SentMatch(dl, k, x, d, y, bits, pos + ll[257 + k]);
    MatchStep(ll, dl, k, bits, pos, out, cap);
  }

  /** One token sent is one token read. */
  lemma {:induction false} SentToken(ll: seq<nat>, dl: seq<nat>, t: Token, bits: seq<Bit>, pos: nat, out: seq<Byte>,
                                     cap: nat)
    requires Good(ll) && Good(dl) && |dl| <= MAXDCODES
    requires ValidToken(t, |out|) && Sendable(ll, dl, t) && |Apply(out, t)| <= cap
    requires At(bits, pos, SendToken(ll, dl, t))
    ensures pos + |SendToken(ll, dl, t)| <= |bits|
    ensures Codes(ll, dl, bits, pos, out, cap)
            == Codes(ll, dl, bits, pos + |SendToken(ll, dl, t)|, Apply(out, t), cap)
  {
    hide Good, Send, LsbBits, Pow2, Copy, Codes, LenIndex, DistIndex, At, LenBase, LenExtra, DistBase, DistExtra;
    match t
    case Lit(b) =>
      SentLiteral(ll, dl, b, bits, pos, out, cap);
    case Match(len, dist) =>
      LenFits(len);
      DistFits(dist);
      SentCopy(ll, dl, LenIndex(len), len - LenBase()[LenIndex(len)], DistIndex(dist),
        dist - DistBase()[DistIndex(dist)],
               bits, pos, out, cap);
  }

  /** Every token sequence, sent in any code that has symbols for it, inflates to its LZ77 expansion. */
  lemma {:induction false} SentTokens(ll: seq<nat>, dl: seq<nat>, ts: seq<Token>, bits: seq<Bit>, pos: nat,
                                      out: seq<Byte>, cap: nat)
    requires Good(ll) && Good(dl) && |dl| <= MAXDCODES && HasCode(ll, END_OF_BLOCK)
    requires ValidTokens(out, ts) && forall i :: 0 <= i < |ts| ==> Sendable(ll, dl, ts[i])
    requires |Expand(out, ts)| <= cap
    requires At(bits, pos, SendTokens(ll, dl, ts))
    ensures pos <= |bits| && Codes(ll, dl, bits, pos, out, cap) == Done(Expand(out, ts), pos + |SendTokens(ll, dl, ts)|)
    decreases |ts|
  {
    hide Good, HasCode, Send, SendToken, Sendable, Codes, Apply, ValidToken, At;
    if |ts| == 0 {
      SentEnd(ll, dl, bits, pos, out, cap);
    } else {
      var e := SendToken(ll, dl, ts[0]);
      AtSplit(bits, pos, e, SendTokens(ll, dl, ts[1..]));
      SentToken(ll, dl, ts[0], bits, pos, out, cap);
      SentTokens(ll, dl, ts[1..], bits, pos + |e|, Apply(out, ts[0]), cap);
    }
  }

  lemma {:induction false} SentEnd(ll: seq<nat>, dl: seq<nat>, bits: seq<Bit>, pos: nat, out: seq<Byte>, cap: nat)
    requires Good(ll) && |dl| <= MAXDCODES && HasCode(ll, END_OF_BLOCK) && |out| <= cap
    requires At(bits, pos, Send(ll, END_OF_BLOCK))
    ensures Codes(ll, dl, bits, pos, out, cap) == Done(out, pos + ll[END_OF_BLOCK])
  {
    hide Good, Send, DecodeSymbol, ReadMatch;
    SentSymbol(ll, END_OF_BLOCK, bits, pos);
  }

  // ----- Stored chunks -----

  /** Up to the next byte boundary, then the length, its complement, and the bytes. */
  function SendStored(data: seq<Byte>, pos: nat): seq<Bit>
    requires |data| <= 65535
  {
    LsbBits(0, Align(pos) - pos) + (LsbBits(|data|, 16) + (LsbBits(65535 - |data|, 16) + ToBits(data)))
  }

  lemma {:induction false} SentBytes(data: seq<Byte>, bits: seq<Bit>, pos: nat)
    requires At(bits, pos, ToBits(data))
    ensures BytesAt(bits, pos, |data|) == data
  {
    hide LsbVal;
    if |data| > 0 {
      var rest := data[1..];
      ByteBits(data, 0);
      assert bits[pos..pos + 8] == ToBits(data)[0..8];
      forall i | 0 <= i < 8 * |rest|
        ensures bits[pos + 8 + i] == ToBits(rest)[i]
      {
        assert (8 + i) / 8 == 1 + i / 8 && (8 + i) % 8 == i % 8;
        assert bits[pos..pos + 8 * |data|][8 + i] == ToBits(data)[8 + i];
      }
      assert bits[pos + 8..pos + 8 + 8 * |rest|] == ToBits(rest);
      SentBytes(rest, bits, pos + 8);
    }
  }

  lemma {:induction false} SentStored(data: seq<Byte>, bits: seq<Bit>, pos: nat, out: seq<Byte>, cap: nat)
    requires |data| <= 65535 && |out| + |data| <= cap && At(bits, pos, SendStored(data, pos))
    ensures Stored(bits, pos, out, cap) == Done(out + data, pos + |SendStored(data, pos)|)
  {
    hide LsbBits, Field, BytesAt, ToBits, Pow2;
    var p := Align(pos);
    var len, nlen := LsbBits(|data|, 16), LsbBits(65535 - |data|, 16);
    Pow2Values();
    AtSplit(bits, pos, LsbBits(0, p - pos), len + (nlen + ToBits(data)));
    AtSplit(bits, p, len, nlen + ToBits(data));
    AtSplit(bits, p + 16, nlen, ToBits(data));
    SentField(bits, p, |data|, 16);
    SentField(bits, p + 16, 65535 - |data|, 16);
    SentBytes(data, bits, p + 32);
  }

  // ----- Fixed chunks -----

  lemma {:induction false} FixedSends(t: Token, n: nat)
    requires ValidToken(t, n)
    ensures Sendable(FixedLit(), FixedDist(), t)
  {
    hide Find, LenBase, DistBase;
  }

  function SendFixed(ts: seq<Token>): seq<Bit>
    requires forall i :: 0 <= i < |ts| ==> Sendable(FixedLit(), FixedDist(), ts[i])
  {
    SendTokens(FixedLit(), FixedDist(), ts)
  }

  lemma {:induction false} ValidAreSendable(out: seq<Byte>, ts: seq<Token>)
    requires ValidTokens(out, ts)
    ensures forall i :: 0 <= i < |ts| ==> Sendable(FixedLit(), FixedDist(), ts[i])
    decreases |ts|
  {
    hide Sendable, Apply;
    if |ts| > 0 {
      FixedSends(ts[0], |out|);
      ValidAreSendable(Apply(out, ts[0]), ts[1..]);
      assert forall i :: 1 <= i < |ts| ==> ts[i] == ts[1..][i - 1];
    }
  }

  // ----- Dynamic chunks -----

  /** What an op adds to the lengths before it. */
  function ApplyOp(before: seq<nat>, op: LenOp): seq<nat> {
    match op
    case One(l) => before + [l]
    case Rep(s, n) => before + Repeat(RepeatValue(s, before), n)
  }

  predicate CodedOp(cl: seq<nat>, op: LenOp) {
    match op
    case One(l) => l <= MAXBITS && HasCode(cl, l)
    case Rep(s, n) => 16 <= s <= 18 && HasCode(cl, s) && RepeatBase(s) <= n < RepeatBase(s) + Pow2(RepeatBits(s))
  }

  predicate ValidOp(cl: seq<nat>, before: seq<nat>, op: LenOp) {
    CodedOp(cl, op) && (op.Rep? && op.s == 16 ==> |before| > 0)
  }

  predicate ValidOps(cl: seq<nat>, before: seq<nat>, ops: seq<LenOp>)
    decreases |ops|
  {
    |ops| > 0 ==> ValidOp(cl, before, ops[0]) && ValidOps(cl, ApplyOp(before, ops[0]), ops[1..])
  }

  /** The lengths that the ops stand for, after those before. */
  function ApplyOps(before: seq<nat>, ops: seq<LenOp>): seq<nat>
    decreases |ops|
  {
    if |ops| == 0 then before else ApplyOps(ApplyOp(before, ops[0]), ops[1..])
  }

  function SendOp(cl: seq<nat>, op: LenOp): seq<Bit>
    requires CodedOp(cl, op)
  {
    match op
    case One(l) => Send(cl, l)
    case Rep(s, n) => Send(cl, s) + LsbBits(n - RepeatBase(s), RepeatBits(s))
  }

  function SendOps(cl: seq<nat>, before: seq<nat>, ops: seq<LenOp>): seq<Bit>
    requires ValidOps(cl, before, ops)
    decreases |ops|
  {
    if |ops| == 0 then [] else SendOp(cl, ops[0]) + SendOps(cl, ApplyOp(before, ops[0]), ops[1..])
  }

  /** A code for code lengths that leaves nothing over, with the lengths of all its symbols in the header. */
  predicate CodeForLengths(cl: seq<nat>, ncode: nat) {
    && |cl| == CODECODES && 4 <= ncode <= CODECODES && Left(cl, MAXBITS) == 0
    && forall s :: 0 <= s < CODECODES ==> cl[s] <= 7 && (Slot(s) >= ncode ==> cl[s] == 0)
  }

  /** The lengths of the code for code lengths in header order, from entry i on. */
  function SendCode(cl: seq<nat>, i: nat, ncode: nat): (r: seq<Bit>)
    requires |cl| == CODECODES && i <= ncode <= CODECODES
    ensures |r| == 3 * (ncode - i)
    decreases ncode - i
  {
    if i == ncode then []
    else
      Puff.OrderSlot();
      LsbBits(cl[Puff.Order(i)], 3) + SendCode(cl, i + 1, ncode)
  }

  lemma {:induction false} SentCodeField(cl: seq<nat>, ncode: nat, bits: seq<Bit>, pos: nat, i: nat, j: nat)
    requires CodeForLengths(cl, ncode) && i <= j < ncode && At(bits, pos, SendCode(cl, i, ncode))
    ensures pos + 3 * (j - i) + 3 <= |bits| && Puff.Order(j) < CODECODES
    ensures Field(bits, pos + 3 * (j - i), 3) == cl[Puff.Order(j)]
    decreases j - i
  {
    hide Field, Pow2, Puff.Order, Left, Slot;
    Pow2Values();
    Puff.OrderSlot();
    var v := cl[Puff.Order(i)];
    AtSplit(bits, pos, LsbBits(v, 3), SendCode(cl, i + 1, ncode));
    if i == j {
      SentField(bits, pos, v, 3);
    } else {
      SentCodeField(cl, ncode, bits, pos + 3, i + 1, j);
    }
  }

  lemma {:induction false} SentCode(cl: seq<nat>, ncode: nat, bits: seq<Bit>, pos: nat)
    requires CodeForLengths(cl, ncode) && pos + 3 * ncode <= |bits| && At(bits, pos, SendCode(cl, 0, ncode))
    ensures CodeLengths(bits, pos, ncode) == cl
  {
    hide Field, SendCode, Puff.Order, Slot, Left;
    Puff.OrderSlot();
    forall s: nat | s < CODECODES
      ensures CodeLengths(bits, pos, ncode)[s] == cl[s]
    {
      if Slot(s) < ncode { SentCodeField(cl, ncode, bits, pos, 0, Slot(s)); }
    }
  }

  lemma {:induction false} OpsGrow(before: seq<nat>, ops: seq<LenOp>)
    ensures |before| <= |ApplyOps(before, ops)|
    decreases |ops|
  {
    if |ops| > 0 { OpsGrow(ApplyOp(before, ops[0]), ops[1..]); }
  }

  lemma {:induction false} OpValid(cl: seq<nat>, before: seq<nat>, op: LenOp)
    requires ValidOp(cl, before, op) && ValidLengths(before)
    ensures ValidLengths(ApplyOp(before, op)) && |before| < |ApplyOp(before, op)|
  {
  }

  /** Reading one op adds what it stands for. */
  lemma {:induction false} SentOp(cl: seq<nat>, op: LenOp, bits: seq<Bit>, pos: nat, before: seq<nat>, total: nat)
    requires |cl| == CODECODES && Good(cl) && ValidLengths(before) && ValidOp(cl, before, op)
    requires At(bits, pos, SendOp(cl, op)) && |ApplyOp(before, op)| <= total
    ensures pos + |SendOp(cl, op)| <= |bits| && |before| < total && ValidLengths(ApplyOp(before, op))
    ensures ReadLengths(cl, bits, pos, before, total)
            == ReadLengths(cl, bits, pos + |SendOp(cl, op)|, ApplyOp(before, op), total)
  {
    hide Send, DecodeSymbol, At, Good, LsbBits, Field, Pow2;
    OpValid(cl, before, op);
    match op
    case One(l) =>
      SentSymbol(cl, l, bits, pos);
      AtInside(bits, pos, Send(cl, l));
    case Rep(s, n) =>
      var e, x := Send(cl, s), LsbBits(n - RepeatBase(s), RepeatBits(s));
      AtSplit(bits, pos, e, x);
      SentSymbol(cl, s, bits, pos);
      SentField(bits, pos + |e|, n - RepeatBase(s), RepeatBits(s));
      AtInside(bits, pos + |e|, x);
  }

  lemma {:induction false} SentOps(cl: seq<nat>, ops: seq<LenOp>, bits: seq<Bit>, pos: nat, before: seq<nat>)
    requires |cl| == CODECODES && Good(cl) && ValidLengths(before) && ValidOps(cl, before, ops)
    requires pos <= |bits| && At(bits, pos, SendOps(cl, before, ops))
    ensures |before| <= |ApplyOps(before, ops)|
    ensures ReadLengths(cl, bits, pos, before, |ApplyOps(before, ops)|)
            == Lengths(ApplyOps(before, ops), pos + |SendOps(cl, before, ops)|)
    decreases |ops|
  {
    hide SendOp, ApplyOp, CodedOp, At, Good;
    OpsGrow(before, ops);
    if |ops| == 0 {
      NoMoreLengths(cl, bits, pos, before);
    } else {
      hide ReadLengths;
      var mid, total := ApplyOp(before, ops[0]), |ApplyOps(before, ops)|;
      OpsGrow(mid, ops[1..]);
      AtSplit(bits, pos, SendOp(cl, ops[0]), SendOps(cl, mid, ops[1..]));
      SentOp(cl, ops[0], bits, pos, before, total);
      SentOps(cl, ops[1..], bits, pos + |SendOp(cl, ops[0])|, mid);
    }
  }

  lemma {:induction false} NoMoreLengths(cl: seq<nat>, bits: seq<Bit>, pos: nat, ls: seq<nat>)
    requires |cl| == CODECODES && pos <= |bits| && ValidLengths(ls)
    ensures ReadLengths(cl, bits, pos, ls, |ls|) == Lengths(ls, pos)
  {
  }

  /** The head says what the lengths of the two codes are. */
  predicate ValidHead(h: Head, ll: seq<nat>, dl: seq<nat>) {
    CodeForLengths(h.cl, h.ncode) && ValidOps(h.cl, [], h.ops) && ApplyOps([], h.ops) == ll + dl
  }

  // ----- A head that repeats where it can -----

  /** A code with all nineteen symbols: thirteen of four bits and six of five. */
  function AllCode(): (r: seq<nat>)
    ensures |r| == CODECODES
  {
    seq(CODECODES, s => if s < 13 then 4 else 5)
  }

  lemma {:induction false} AllCodeComplete()
    ensures CodeForLengths(AllCode(), CODECODES)
  {
    hide Count, Left, Pow2;
    var ls := AllCode();
    forall l: nat
      ensures Count(ls, l) == if l == 4 then 13 else if l == 5 then 6 else 0
    {
      assert ls == [] + Repeat(4, 13) + Repeat(5, 6);
      Puff.CountNone(l);
      Puff.CountRun([], 4, 13, l);
      Puff.CountRun([] + Repeat(4, 13), 5, 6, l);
    }
    Pow2Values();
    Puff.LeftStart(ls);
    Puff.LeftDoubles(ls, 0, 3);
    Puff.LeftStep(ls, 4);
    Puff.LeftStep(ls, 5);
    Puff.LeftDoubles(ls, 5, MAXBITS);
  }

  /** How often the first length is repeated at the front. */
  function RunOf(ls: seq<nat>): (r: nat)
    requires |ls| > 0
    ensures 1 <= r <= |ls| && forall i :: 0 <= i < r ==> ls[i] == ls[0]
  {
    if |ls| == 1 || ls[1] != ls[0] then 1
    else
      assert forall i :: 1 <= i < |ls| ==> ls[i] == ls[1..][i - 1];
      1 + RunOf(ls[1..])
  }

  function Min(a: nat, b: nat): nat { if a < b then a else b }

  function NextOp(before: seq<nat>, ls: seq<nat>): LenOp
    requires |ls| > 0
  {
    var r := RunOf(ls);
    if ls[0] == 0 && r >= 11 then Rep(18, Min(r, 138))
    else if ls[0] == 0 && r >= 3 then Rep(17, Min(r, 10))
    else if |before| > 0 && before[|before| - 1] == ls[0] && r >= 3 then Rep(16, Min(r, 6))
    else One(ls[0])
  }

  function OpLength(op: LenOp): nat {
    if op.One? then 1 else op.n
  }

  /** An op that stands for the next lengths. */
  lemma {:induction false} NextStands(before: seq<nat>, ls: seq<nat>)
    requires |ls| > 0 && ls[0] <= MAXBITS
    ensures var op := NextOp(before, ls);
            && ValidOp(AllCode(), before, op) && 1 <= OpLength(op) <= |ls|
            && ApplyOp(before, op) == before + ls[..OpLength(op)]
  {
    Pow2Values();
    var op := NextOp(before, ls);
    if op.Rep? {
      assert Repeat(RepeatValue(op.s, before), op.n) == ls[..op.n];
    } else {
      assert ls[..1] == [ls[0]];
    }
  }

  function RunOps(before: seq<nat>, ls: seq<nat>): seq<LenOp>
    requires forall i :: 0 <= i < |ls| ==> ls[i] <= MAXBITS
    decreases |ls|
  {
    if |ls| == 0 then []
    else
      var op := NextOp(before, ls);
      NextStands(before, ls);
      [op] + RunOps(ApplyOp(before, op), ls[OpLength(op)..])
  }

  lemma {:induction false} RunOpsStand(before: seq<nat>, ls: seq<nat>)
    requires forall i :: 0 <= i < |ls| ==> ls[i] <= MAXBITS
    ensures ValidOps(AllCode(), before, RunOps(before, ls)) && ApplyOps(before, RunOps(before, ls)) == before + ls
    decreases |ls|
  {
    hide NextOp, ApplyOp, ValidOp, OpLength, AllCode;
    if |ls| == 0 {
      assert before + ls == before;
    } else {
      var op := NextOp(before, ls);
      NextStands(before, ls);
      var n := OpLength(op);
      RunOpsStand(ApplyOp(before, op), ls[n..]);
      assert before + ls[..n] + ls[n..] == before + ls;
      assert RunOps(before, ls)[1..] == RunOps(ApplyOp(before, op), ls[n..]);
    }
  }

  /** The lengths of any two codes have a head that sends them with repeat codes wherever there is a run. */
  lemma {:induction false} RunHeadStands(ll: seq<nat>, dl: seq<nat>)
    requires OwnCode(ll, dl)
    ensures forall i :: 0 <= i < |ll + dl| ==> (ll + dl)[i] <= MAXBITS
    ensures ValidHead(Head(AllCode(), CODECODES, RunOps([], ll + dl)), ll, dl)
  {
    hide AllCode, RunOps, ValidOps, ApplyOps, CodeForLengths;
    AllCodeComplete();
    RunOpsStand([], ll + dl);
    assert [] + (ll + dl) == ll + dl;
  }

  predicate OwnCode(ll: seq<nat>, dl: seq<nat>) {
    && 257 <= |ll| <= MAXLCODES && 1 <= |dl| <= MAXDCODES
    && (forall i :: 0 <= i < |ll| ==> ll[i] <= MAXBITS) && (forall i :: 0 <= i < |dl| ==> dl[i] <= MAXBITS)
    && Usable(ll) && Usable(dl) && ll[END_OF_BLOCK] > 0
  }

  function SendDynamic(ll: seq<nat>, dl: seq<nat>, h: Head, ts: seq<Token>): seq<Bit>
    requires OwnCode(ll, dl) && ValidHead(h, ll, dl) && forall i :: 0 <= i < |ts| ==> Sendable(ll, dl, ts[i])
  {
    LsbBits(|ll| - 257, 5) + (LsbBits(|dl| - 1, 5) + (LsbBits(h.ncode - 4, 4)
    + (SendCode(h.cl, 0, h.ncode) + (SendOps(h.cl, [], h.ops) + SendTokens(ll, dl, ts)))))
  }

  /** A code without symbols leaves everything over. */
  lemma {:induction false} UsableIsGood(ls: seq<nat>)
    requires ValidLengths(ls) && Usable(ls)
    ensures Good(ls)
  {
    if Count(ls, 0) == |ls| {
      NothingTaken(ls, MAXBITS);
    }
  }

  lemma {:induction false} NothingTaken(ls: seq<nat>, l: nat)
    requires Count(ls, 0) == |ls|
    ensures Left(ls, l) > 0
  {
    if l > 0 {
      NothingTaken(ls, l - 1);
      OffsetBound(ls, l + 1);
      OffsetMono(ls, l, l + 1);
    }
  }

  lemma {:induction false} SentHeader(n: nat, m: nat, k: nat, rest: seq<Bit>, bits: seq<Bit>, pos: nat)
    requires n <= 29 && m <= 29 && k <= 15
    requires At(bits, pos, LsbBits(n, 5) + (LsbBits(m, 5) + (LsbBits(k, 4) + rest)))
    ensures pos + 14 + |rest| <= |bits| && At(bits, pos + 14, rest)
    ensures Field(bits, pos, 5) == n && Field(bits, pos + 5, 5) == m && Field(bits, pos + 10, 4) == k
  {
    hide LsbBits, Field, Pow2;
    Pow2Values();
    AtSplit(bits, pos, LsbBits(n, 5), LsbBits(m, 5) + (LsbBits(k, 4) + rest));
    AtSplit(bits, pos + 5, LsbBits(m, 5), LsbBits(k, 4) + rest);
    AtSplit(bits, pos + 10, LsbBits(k, 4), rest);
    SentField(bits, pos, n, 5);
    SentField(bits, pos + 5, m, 5);
    SentField(bits, pos + 10, k, 4);
  }

  /** A dynamic block is read back however its head sends the lengths, repeat codes included. */
  lemma {:induction false} SentDynamic(ll: seq<nat>, dl: seq<nat>, h: Head, ts: seq<Token>,
                                       bits: seq<Bit>, pos: nat, out: seq<Byte>, cap: nat)
    requires OwnCode(ll, dl) && ValidHead(h, ll, dl)
    requires ValidTokens(out, ts) && forall i :: 0 <= i < |ts| ==> Sendable(ll, dl, ts[i])
    requires |Expand(out, ts)| <= cap && At(bits, pos, SendDynamic(ll, dl, h, ts))
    ensures Dynamic(bits, pos, out, cap) == Done(Expand(out, ts), pos + |SendDynamic(ll, dl, h, ts)|)
  {
    hide LsbBits, Field, Expand, ValidTokens, SendTokens, SendOps, ValidOps, ApplyOps, SendCode, ReadLengths, Codes;
    hide CodeLengths;
    hide Usable, Good, At, Sendable, Slot, Left;
    var data, lens, code := SendTokens(ll, dl, ts), SendOps(h.cl, [], h.ops), SendCode(h.cl, 0, h.ncode);
    SentHeader(|ll| - 257, |dl| - 1, h.ncode - 4, code + (lens + data), bits, pos);
    var p := pos + 14;
    var q := p + 3 * h.ncode;
    AtSplit(bits, p, code, lens + data);
    AtSplit(bits, q, lens, data);
    SentCode(h.cl, h.ncode, bits, p);
    LengthsGood(h.cl, h.ncode);
    SentOps(h.cl, h.ops, bits, q, []);
    assert (ll + dl)[..|ll|] == ll && (ll + dl)[|ll|..] == dl;
    UsableIsGood(ll);
    UsableIsGood(dl);
    SentTokens(ll, dl, ts, bits, q + |lens|, out, cap);
  }

  lemma {:induction false} LengthsGood(cl: seq<nat>, ncode: nat)
    requires CodeForLengths(cl, ncode)
    ensures Good(cl) && Complete(cl)
  {
    hide Left, Count, Slot;
  }

  // ----- The stream -----

  predicate ValidChunk(c: Chunk, out: seq<Byte>) {
    match c
    case StoredChunk(data) => |data| <= 65535
    case FixedChunk(ts) =>
      ValidTokens(out, ts) && forall i :: 0 <= i < |ts| ==> Sendable(FixedLit(), FixedDist(), ts[i])
    case DynamicChunk(ll, dl, head, ts) =>
      && OwnCode(ll, dl) && ValidHead(head, ll, dl)
      && ValidTokens(out, ts) && forall i :: 0 <= i < |ts| ==> Sendable(ll, dl, ts[i])
  }

  function ChunkOut(c: Chunk, out: seq<Byte>): (r: seq<Byte>)
    requires ValidChunk(c, out)
    ensures out <= r
  {
    match c
    case StoredChunk(data) => out + data
    case FixedChunk(ts) => Expand(out, ts)
    case DynamicChunk(_, _, _, ts) => Expand(out, ts)
  }

  function Kind(c: Chunk): nat {
    match c
    case StoredChunk(_) => 0
    case FixedChunk(_) => 1
    case DynamicChunk(_, _, _, _) => 2
  }

  function SendChunk(c: Chunk, out: seq<Byte>, pos: nat): seq<Bit>
    requires ValidChunk(c, out)
  {
    match c
    case StoredChunk(data) => SendStored(data, pos)
    case FixedChunk(ts) => SendFixed(ts)
    case DynamicChunk(ll, dl, head, ts) => SendDynamic(ll, dl, head, ts)
  }

  lemma {:induction false} SentChunk(c: Chunk, bits: seq<Bit>, pos: nat, out: seq<Byte>, cap: nat)
    requires ValidChunk(c, out) && |ChunkOut(c, out)| <= cap && pos <= |bits|
    requires At(bits, pos, SendChunk(c, out, pos))
    ensures Block(Kind(c), bits, pos, out, cap) == Done(ChunkOut(c, out), pos + |SendChunk(c, out, pos)|)
  {
    hide OwnCode, ValidHead, ValidTokens, Sendable, SendStored, SendDynamic, SendTokens, Expand, At, Stored, Dynamic;
    hide Codes, Left, Good;
    match c
    case StoredChunk(data) =>
      SentStored(data, bits, pos, out, cap);
    case FixedChunk(ts) =>
      Puff.FixedCodesFit();
      FixedIsGood();
      SentTokens(FixedLit(), FixedDist(), ts, bits, pos, out, cap);
    case DynamicChunk(ll, dl, head, ts) =>
      SentDynamic(ll, dl, head, ts, bits, pos, out, cap);
  }

  lemma {:induction false} FixedIsGood()
    ensures Good(FixedLit()) && Good(FixedDist())
  {
    hide Left;
    Puff.FixedCodesFit();
  }

  predicate ValidStream(cs: seq<Chunk>, out: seq<Byte>)
    decreases |cs|
  {
    |cs| > 0 && ValidChunk(cs[0], out) && (|cs| > 1 ==> ValidStream(cs[1..], ChunkOut(cs[0], out)))
  }

  /** What all the chunks stand for together. */
  function StreamOut(cs: seq<Chunk>, out: seq<Byte>): (r: seq<Byte>)
    requires ValidStream(cs, out)
    ensures out <= r
    decreases |cs|
  {
    var o := ChunkOut(cs[0], out);
    if |cs| == 1 then o else StreamOut(cs[1..], o)
  }

  /** The deflate stream of the chunks, starting at bit pos after out has been sent. */
  function SendStream(cs: seq<Chunk>, out: seq<Byte>, pos: nat): seq<Bit>
    requires ValidStream(cs, out)
    decreases |cs|
  {
    var head := LsbBits(if |cs| == 1 then 1 else 0, 1) + LsbBits(Kind(cs[0]), 2);
    var body := SendChunk(cs[0], out, pos + 3);
    if |cs| == 1 then head + body
    else head + (body + SendStream(cs[1..], ChunkOut(cs[0], out), pos + 3 + |body|))
  }

  lemma {:induction false} SentHead(last: nat, kind: nat, bits: seq<Bit>, pos: nat)
    requires last < 2 && kind < 4 && At(bits, pos, LsbBits(last, 1) + LsbBits(kind, 2))
    ensures pos + 3 <= |bits| && Field(bits, pos, 1) == last && Field(bits, pos + 1, 2) == kind
  {
    hide LsbBits, Field, Pow2;
    Pow2Values();
    AtSplit(bits, pos, LsbBits(last, 1), LsbBits(kind, 2));
    SentField(bits, pos, last, 1);
    SentField(bits, pos + 1, kind, 2);
  }

  /** Inflating a stream of any chunks, wherever it starts and whatever follows it, gives back what was sent. */
  lemma {:induction false} RoundTrip(cs: seq<Chunk>, bits: seq<Bit>, pos: nat, out: seq<Byte>, cap: nat)
    requires ValidStream(cs, out) && |StreamOut(cs, out)| <= cap
    requires At(bits, pos, SendStream(cs, out, pos))
    ensures pos <= |bits| && Inflate(bits, pos, out, cap) == Done(StreamOut(cs, out), pos + |SendStream(cs, out, pos)|)
    decreases |cs|
  {
    hide LsbBits, Field, At, ValidChunk, ChunkOut, SendChunk, Block, Kind;
    var last := if |cs| == 1 then 1 else 0;
    KindInRange(cs[0]);
    var head := LsbBits(last, 1) + LsbBits(Kind(cs[0]), 2);
    var body := SendChunk(cs[0], out, pos + 3);
    var mid := ChunkOut(cs[0], out);
    var rest := if |cs| == 1 then [] else SendStream(cs[1..], mid, pos + 3 + |body|);
    assert SendStream(cs, out, pos) == head + (body + rest);
    AtSplit(bits, pos, head, body + rest);
    AtSplit(bits, pos + 3, body, rest);
    SentHead(last, Kind(cs[0]), bits, pos);
    SentChunk(cs[0], bits, pos + 3, out, cap);
    AtInside(bits, pos + 3, body);
    if |cs| > 1 {
      RoundTrip(cs[1..], bits, pos + 3 + |body|, mid, cap);
    }
  }

  lemma {:induction false} KindInRange(c: Chunk)
    ensures Kind(c) < 3
  {
  }

  /** The deflated chunks as bytes. */
  function Encode(cs: seq<Chunk>): seq<Byte>
    requires ValidStream(cs, [])
  {
    Pack(SendStream(cs, [], 0))
  }

  /** Bytes appended to a bit string leave its bits where they were. */
  lemma {:induction false} EncodedBits(cs: seq<Chunk>, tail: seq<Byte>)
    requires ValidStream(cs, [])
    ensures At(ToBits(Encode(cs) + tail), 0, SendStream(cs, [], 0))
  {
    hide SendStream, Pack;
    var e := SendStream(cs, [], 0);
    PackPrefix(e);
    var b, b' := ToBits(Encode(cs)), ToBits(Encode(cs) + tail);
    forall i | 0 <= i < |e|
      ensures b'[i] == e[i]
    {
      assert b'[i] == b[i] == b[..|e|][i];
    }
    assert b'[0..0 + |e|] == e;
  }

  /** The decoder gives back every deflated stream, byte for byte, whatever follows it. */
  method InflateEncoded(cs: seq<Chunk>, tail: seq<Byte>, dest: array<Byte>) returns (err: int, destlen: nat)
    requires ValidStream(cs, []) && |StreamOut(cs, [])| <= dest.Length
    requires forall i :: 0 <= i < dest.Length ==> dest[i] == 0
    modifies dest
    ensures err == 0 && destlen == |StreamOut(cs, [])| && dest[..destlen] == StreamOut(cs, [])
  {
    hide SendStream, ToBits, At;
    EncodedBits(cs, tail);
    RoundTrip(cs, ToBits(Encode(cs) + tail), 0, [], dest.Length);
    err, destlen := Puff.Puff(dest, Encode(cs) + tail);
  }

  /** Cuts data into stored chunks of at most n bytes. */
  function Split(data: seq<Byte>, n: nat): (cs: seq<Chunk>)
    requires 1 <= n <= 65535
    ensures |cs| > 0
    decreases |data|
  {
    if |data| <= n then [StoredChunk(data)] else [StoredChunk(data[..n])] + Split(data[n..], n)
  }

  /** Any byte string, cut into stored chunks of any size, is a stream for that byte string. */
  lemma {:induction false} SplitStands(data: seq<Byte>, n: nat, out: seq<Byte>)
    requires 1 <= n <= 65535
    ensures ValidStream(Split(data, n), out) && StreamOut(Split(data, n), out) == out + data
    decreases |data|
  {
    var cs := Split(data, n);
    if |data| > n {
      SplitStands(data[n..], n, out + data[..n]);
      assert cs[1..] == Split(data[n..], n);
      assert ChunkOut(cs[0], out) == out + data[..n];
      assert out + data[..n] + data[n..] == out + data;
    }
  }
}
