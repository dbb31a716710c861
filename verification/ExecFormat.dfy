/** The exec wire format: the instructions a program is sent as, the bytes
    they are printed to, and the reading of those bytes back. */
module ExecFormat {
  import opened Bits
  import opened Common

  const READABLE := 0x8000_0000_0000_0000

  const INSTR_EOF := W64 - 1
  const INSTR_COPYIN := W64 - 2
  const INSTR_COPYOUT := W64 - 3
  const INSTR_SETPROPS := W64 - 4
  const NO_COPYOUT := W64 - 1

  const ARG_CONST := 0
  const ARG_RESULT := 1
  const ARG_DATA := 2
  const ARG_CSUM := 3
  const CSUM_INET := 0

  // ----- Words -----

  /** The n low bytes of v, lowest first. */
  function Le(v: nat, n: nat): (b: seq<Byte>)
    ensures |b| == n
  {
    if n == 0 then [] else [v % 256] + Le(v / 256, n - 1)
  }

  function FromLe(b: seq<Byte>): nat
  {
    if |b| == 0 then 0 else b[0] + 256 * FromLe(b[1..])
  }

  function Reverse(b: seq<Byte>): (r: seq<Byte>)
    ensures |r| == |b|
  {
    if |b| == 0 then [] else Reverse(b[1..]) + [b[0]]
  }

  /** The low size bytes of v in the other order. */
  function SwapBytes(v: nat, size: nat): nat {
    FromLe(Reverse(Le(v, size)))
  }

  function Pow256(n: nat): nat {
    if n == 0 then 1 else 256 * Pow256(n - 1)
  }

  lemma {:induction false} LeRoundTrip(v: nat, n: nat)
    requires v < Pow256(n)
    ensures FromLe(Le(v, n)) == v
  {
    if n > 0 {
      LeRoundTrip(v / 256, n - 1);
      assert Le(v, n)[1..] == Le(v / 256, n - 1);
    }
  }

  lemma {:induction false} WordRange()
    ensures Pow256(8) == W64
  {
    assert Pow256(4) == 0x1_0000_0000;
    assert Pow256(6) == 0x1_0000_0000_0000;
  }

  /** One 64-bit word in front of tail. */
  function Put(v: nat, tail: seq<Byte>): (r: seq<Byte>)
    ensures |r| == 8 + |tail|
  {
    Le(v, 8) + tail
  }

  // ----- Instructions -----

  datatype Chunk = Chunk(kind: nat, value: nat, size: nat)

  datatype ExecArg =
    | ExecConst(size: nat, format: nat, value: nat, bfOff: nat, bfLen: nat, pidStride: nat)
    | ExecResult(size: nat, format: nat, index: nat, divOp: nat, addOp: nat, dflt: nat)
    | ExecData(data: seq<Byte>, readable: bool)
    | ExecCsum(size: nat, chunks: seq<Chunk>)

  datatype Instr =
    | Copyin(addr: nat, arg: ExecArg)
    | Copyout(index: nat, addr: nat, size: nat)
    | SetProps(props: Props)
    | Call(id: nat, ret: nat, args: seq<ExecArg>)

  // ----- Printing -----

  /** Padding to a whole number of words. */
  function Pad(n: nat): (p: nat)
    ensures p < 8 && (n + p) % 8 == 0
  {
    (8 - n % 8) % 8
  }

  function ZeroBytes(n: nat): (b: seq<Byte>)
    ensures |b| == n
  {
    seq(n, i => 0)
  }

  function PackMeta(size: nat, format: nat, bfOff: nat, bfLen: nat, pidStride: nat): nat {
    size + 0x100 * format + 0x1_0000 * bfOff + 0x100_0000 * bfLen + 0x1_0000_0000 * pidStride
  }

  function PutChunks(cs: seq<Chunk>, tail: seq<Byte>): seq<Byte> {
    if |cs| == 0 then tail
    else Put(cs[0].kind, Put(cs[0].value, Put(cs[0].size, PutChunks(cs[1..], tail))))
  }

  function PutArg(a: ExecArg, tail: seq<Byte>): seq<Byte> {
    match a
    case ExecConst(size, format, value, bfOff, bfLen, pidStride) =>
      Put(ARG_CONST, Put(PackMeta(size, format, bfOff, bfLen, pidStride), Put(value, tail)))
    case ExecResult(size, format, index, divOp, addOp, dflt) =>
      Put(ARG_RESULT, Put(PackMeta(size, format, 0, 0, 0), Put(index, Put(divOp, Put(addOp, Put(dflt, tail))))))
    case ExecData(data, readable) =>
      Put(ARG_DATA, Put(|data| + (if readable then READABLE else 0), data + (ZeroBytes(Pad(|data|)) + tail)))
    case ExecCsum(size, chunks) =>
      Put(ARG_CSUM, Put(size, Put(CSUM_INET, Put(|chunks|, PutChunks(chunks, tail)))))
  }

  function PutArgs(args: seq<ExecArg>, tail: seq<Byte>): seq<Byte> {
    if |args| == 0 then tail else PutArg(args[0], PutArgs(args[1..], tail))
  }

  function PutInstr(i: Instr, tail: seq<Byte>): seq<Byte> {
    match i
    case Copyin(addr, arg) => Put(INSTR_COPYIN, Put(addr, PutArg(arg, tail)))
    case Copyout(index, addr, size) => Put(INSTR_COPYOUT, Put(index, Put(addr, Put(size, tail))))
    case SetProps(p) => Put(INSTR_SETPROPS, Put(p.failNth, Put(if p.async then 1 else 0, Put(p.rerun, tail))))
    case Call(id, ret, args) => Put(id, Put(ret, Put(|args|, PutArgs(args, tail))))
  }

  /** A whole stream: the instructions and the end marker. */
  function Print(code: seq<Instr>, tail: seq<Byte>): seq<Byte> {
    if |code| == 0 then Put(INSTR_EOF, tail) else PutInstr(code[0], Print(code[1..], tail))
  }

  // ----- What fits the format -----

  predicate ArgFits(a: ExecArg) {
    match a
    case ExecConst(size, format, value, bfOff, bfLen, pidStride) =>
      size < 256 && format < 256 && bfOff < 256 && bfLen < 256 && pidStride < 0x1_0000_0000 && value < W64
    case ExecResult(size, format, index, divOp, addOp, dflt) =>
      size < 256 && format < 256 && index < W64 && divOp < W64 && addOp < W64 && dflt < W64
    case ExecData(data, _) => |data| < READABLE
    case ExecCsum(size, chunks) =>
      && size < W64 && |chunks| < W64
      && forall i :: 0 <= i < |chunks| ==> chunks[i].kind < W64 && chunks[i].value < W64 && chunks[i].size < W64
  }

  predicate Scalar(a: ExecArg) {
    a.ExecConst? || a.ExecResult?
  }

  /** The fields fit their words, the call is one of the n known ones, and it takes scalars only. */
  predicate Fits(i: Instr, n: nat) {
    match i
    case Copyin(addr, arg) => addr < W64 && ArgFits(arg)
    case Copyout(index, addr, size) => index < W64 && addr < W64 && size < W64
    case SetProps(p) => p.failNth < W64 && p.rerun < W64
    case Call(id, ret, args) =>
      && id < n && ret < W64 && |args| < W64
      && forall k :: 0 <= k < |args| ==> ArgFits(args[k]) && Scalar(args[k])
  }

  // ----- Parsing -----

  /** A value and the data after it, or an error. */
  datatype Parsed<T> = Got(value: T, rest: seq<Byte>) | Bad {
    predicate IsFailure() { Bad? }
    function PropagateFailure<U>(): Parsed<U>
      requires Bad?
    { Bad }
    function Extract(): (T, seq<Byte>)
      requires Got?
    { (value, rest) }
  }

  function TakeWord(d: seq<Byte>): (r: Parsed<nat>)
    ensures r.Got? ==> |r.rest| == |d| - 8
  {
    if |d| < 8 then Bad else Got(FromLe(d[..8]), d[8..])
  }

  function TakeBlob(d: seq<Byte>, size: nat): (r: Parsed<seq<Byte>>)
    ensures r.Got? ==> |r.rest| <= |d|
  {
    var padded := (size + 7) / 8 * 8;
    if |d| < padded then Bad else Got(d[..size], d[padded..])
  }

  function TakeChunks(d: seq<Byte>, n: nat): (r: Parsed<seq<Chunk>>)
    ensures r.Got? ==> |r.rest| <= |d|
    decreases n
  {
    if n == 0 then Got([], d)
    else
      var (kind, d1) :- TakeWord(d);
      var (value, d2) :- TakeWord(d1);
      var (size, d3) :- TakeWord(d2);
      var (cs, d4) :- TakeChunks(d3, n - 1);
      Got([Chunk(kind, value, size)] + cs, d4)
  }

  function TakeConst(d: seq<Byte>): (r: Parsed<ExecArg>)
    ensures r.Got? ==> |r.rest| < |d|
  {
    var (meta, d1) :- TakeWord(d);
    var (value, d2) :- TakeWord(d1);
    Got(ExecConst(meta % 0x100, meta / 0x100 % 0x100, value, meta / 0x1_0000 % 0x100,
                  meta / 0x100_0000 % 0x100, meta / 0x1_0000_0000), d2)
  }

  function TakeResult(d: seq<Byte>): (r: Parsed<ExecArg>)
    ensures r.Got? ==> |r.rest| < |d|
  {
    var (meta, d1) :- TakeWord(d);
    var (index, d2) :- TakeWord(d1);
    var (divOp, d3) :- TakeWord(d2);
    var (addOp, d4) :- TakeWord(d3);
    var (dflt, d5) :- TakeWord(d4);
    Got(ExecResult(meta % 0x100, meta / 0x100 % 0x100, index, divOp, addOp, dflt), d5)
  }

  function TakeData(d: seq<Byte>): (r: Parsed<ExecArg>)
    ensures r.Got? ==> |r.rest| < |d|
  {
    var (flags, d1) :- TakeWord(d);
    var (data, d2) :- TakeBlob(d1, flags % READABLE);
    Got(ExecData(data, flags >= READABLE), d2)
  }

  function TakeCsum(d: seq<Byte>): (r: Parsed<ExecArg>)
    ensures r.Got? ==> |r.rest| < |d|
  {
    var (size, d1) :- TakeWord(d);
    var (kind, d2) :- TakeWord(d1);
    if kind != CSUM_INET then Bad
    else
      var (n, d3) :- TakeWord(d2);
      var (chunks, d4) :- TakeChunks(d3, n);
      Got(ExecCsum(size, chunks), d4)
  }

  function TakeArg(d: seq<Byte>): (r: Parsed<ExecArg>)
    ensures r.Got? ==> |r.rest| < |d|
  {
    var (typ, d1) :- TakeWord(d);
    if typ == ARG_CONST then TakeConst(d1)
    else if typ == ARG_RESULT then TakeResult(d1)
    else if typ == ARG_DATA then TakeData(d1)
    else if typ == ARG_CSUM then TakeCsum(d1)
    else Bad
  }

  /** n call arguments, which must be scalars. */
  function TakeArgs(d: seq<Byte>, n: nat): (r: Parsed<seq<ExecArg>>)
    ensures r.Got? ==> |r.rest| <= |d| && |r.value| == n
    decreases n
  {
    if n == 0 then Got([], d)
    else
      var (a, d1) :- TakeArg(d);
      if !Scalar(a) then Bad
      else
        var (rest, d2) :- TakeArgs(d1, n - 1);
        Got([a] + rest, d2)
  }

  function TakeCopyin(d: seq<Byte>): (r: Parsed<Instr>)
    ensures r.Got? ==> |r.rest| <= |d|
  {
    var (addr, d1) :- TakeWord(d);
    var (arg, d2) :- TakeArg(d1);
    Got(Copyin(addr, arg), d2)
  }

  function TakeCopyout(d: seq<Byte>): (r: Parsed<Instr>)
    ensures r.Got? ==> |r.rest| <= |d|
  {
    var (index, d1) :- TakeWord(d);
    var (addr, d2) :- TakeWord(d1);
    var (size, d3) :- TakeWord(d2);
    Got(Copyout(index, addr, size), d3)
  }

  function TakeProps(d: seq<Byte>): (r: Parsed<Instr>)
    ensures r.Got? ==> |r.rest| <= |d|
  {
    var (failNth, d1) :- TakeWord(d);
    var (async, d2) :- TakeWord(d1);
    var (rerun, d3) :- TakeWord(d2);
    Got(SetProps(Props(failNth, async == 1, rerun)), d3)
  }

  function TakeCall(id: nat, d: seq<Byte>, n: nat): (r: Parsed<Instr>)
    ensures r.Got? ==> |r.rest| <= |d|
  {
    if id >= n then Bad
    else
      var (ret, d1) :- TakeWord(d);
      var (count, d2) :- TakeWord(d1);
      var (args, d3) :- TakeArgs(d2, count);
      Got(Call(id, ret, args), d3)
  }

  /** The instruction that starts with the word op. */
  function TakeInstr(op: nat, d: seq<Byte>, n: nat): (r: Parsed<Instr>)
    ensures r.Got? ==> |r.rest| <= |d|
  {
    if op == INSTR_COPYIN then TakeCopyin(d)
    else if op == INSTR_COPYOUT then TakeCopyout(d)
    else if op == INSTR_SETPROPS then TakeProps(d)
    else TakeCall(op, d, n)
  }

  /** All instructions up to the end marker. */
  function Parse(d: seq<Byte>, n: nat): (r: Parsed<seq<Instr>>)
    decreases |d|
  {
    var (op, d1) :- TakeWord(d);
    if op == INSTR_EOF then Got([], d1)
    else
      var (i, d2) :- TakeInstr(op, d1, n);
      var (code, d3) :- Parse(d2, n);
      Got([i] + code, d3)
  }

  // ----- Parsing undoes printing -----

  lemma {:induction false} WordBack(v: nat, tail: seq<Byte>)
    requires v < W64
    ensures TakeWord(Put(v, tail)) == Got(v, tail)
  {
    hide Le, FromLe, Pow256;
    WordRange();
    LeRoundTrip(v, 8);
    assert Put(v, tail)[..8] == Le(v, 8) && Put(v, tail)[8..] == tail;
  }

  lemma {:induction false} MetaBack(size: nat, format: nat, bfOff: nat, bfLen: nat, pidStride: nat)
    requires size < 256 && format < 256 && bfOff < 256 && bfLen < 256 && pidStride < 0x1_0000_0000
    ensures var m := PackMeta(size, format, bfOff, bfLen, pidStride);
            && m < W64 && m % 0x100 == size && m / 0x100 % 0x100 == format && m / 0x1_0000 % 0x100 == bfOff
            && m / 0x100_0000 % 0x100 == bfLen && m / 0x1_0000_0000 == pidStride
  {
    var m := PackMeta(size, format, bfOff, bfLen, pidStride);
    assert m / 0x100 == format + 0x100 * bfOff + 0x1_0000 * bfLen + 0x100_0000 * pidStride;
    assert m / 0x1_0000 == bfOff + 0x100 * bfLen + 0x1_0000 * pidStride;
    assert m / 0x100_0000 == bfLen + 0x100 * pidStride;
  }

  lemma {:induction false} ChunksBack(cs: seq<Chunk>, tail: seq<Byte>)
    requires forall i :: 0 <= i < |cs| ==> cs[i].kind < W64 && cs[i].value < W64 && cs[i].size < W64
    ensures TakeChunks(PutChunks(cs, tail), |cs|) == Got(cs, tail)
  {
    hide Put, TakeWord;
    if |cs| > 0 {
      var t3 := PutChunks(cs[1..], tail);
      var t2 := Put(cs[0].size, t3);
      var t1 := Put(cs[0].value, t2);
      WordBack(cs[0].kind, t1);
      WordBack(cs[0].value, t2);
      WordBack(cs[0].size, t3);
      ChunksBack(cs[1..], tail);
      assert [cs[0]] + cs[1..] == cs && cs[0] == Chunk(cs[0].kind, cs[0].value, cs[0].size);
    }
  }

  lemma {:induction false} BlobBack(data: seq<Byte>, tail: seq<Byte>)
    ensures TakeBlob(data + (ZeroBytes(Pad(|data|)) + tail), |data|) == Got(data, tail)
  {
    var d := data + (ZeroBytes(Pad(|data|)) + tail);
    assert (|data| + 7) / 8 * 8 == |data| + Pad(|data|);
    assert d[|data| + Pad(|data|)..] == tail;
  }

  lemma {:induction false} ConstBack(a: ExecArg, tail: seq<Byte>)
    requires a.ExecConst? && ArgFits(a)
    ensures TakeArg(PutArg(a, tail)) == Got(a, tail)
  {
    hide Put, TakeWord, PackMeta;
    var m := PackMeta(a.size, a.format, a.bfOff, a.bfLen, a.pidStride);
    MetaBack(a.size, a.format, a.bfOff, a.bfLen, a.pidStride);
    WordBack(ARG_CONST, Put(m, Put(a.value, tail)));
    WordBack(m, Put(a.value, tail));
    WordBack(a.value, tail);
  }

  lemma {:induction false} ResultBack(a: ExecArg, tail: seq<Byte>)
    requires a.ExecResult? && ArgFits(a)
    ensures TakeArg(PutArg(a, tail)) == Got(a, tail)
  {
    hide Put, TakeWord, PackMeta;
    var m := PackMeta(a.size, a.format, 0, 0, 0);
    MetaBack(a.size, a.format, 0, 0, 0);
    var t4 := Put(a.dflt, tail);
    var t3 := Put(a.addOp, t4);
    var t2 := Put(a.divOp, t3);
    var t1 := Put(a.index, t2);
    WordBack(ARG_RESULT, Put(m, t1));
    WordBack(m, t1);
    WordBack(a.index, t2);
    WordBack(a.divOp, t3);
    WordBack(a.addOp, t4);
    WordBack(a.dflt, tail);
  }

  lemma {:induction false} DataBack(a: ExecArg, tail: seq<Byte>)
    requires a.ExecData? && ArgFits(a)
    ensures TakeArg(PutArg(a, tail)) == Got(a, tail)
  {
    hide Put, TakeWord, TakeBlob;
    var flags := |a.data| + (if a.readable then READABLE else 0);
    var t := a.data + (ZeroBytes(Pad(|a.data|)) + tail);
    WordBack(ARG_DATA, Put(flags, t));
    WordBack(flags, t);
    BlobBack(a.data, tail);
  }

  lemma {:induction false} CsumBack(a: ExecArg, tail: seq<Byte>)
    requires a.ExecCsum? && ArgFits(a)
    ensures TakeArg(PutArg(a, tail)) == Got(a, tail)
  {
    hide Put, TakeWord, TakeChunks, PutChunks;
    var t3 := PutChunks(a.chunks, tail);
    var t2 := Put(|a.chunks|, t3);
    var t1 := Put(CSUM_INET, t2);
    WordBack(ARG_CSUM, Put(a.size, t1));
    WordBack(a.size, t1);
    WordBack(CSUM_INET, t2);
    WordBack(|a.chunks|, t3);
    ChunksBack(a.chunks, tail);
  }

  lemma {:induction false} ArgBack(a: ExecArg, tail: seq<Byte>)
    requires ArgFits(a)
    ensures TakeArg(PutArg(a, tail)) == Got(a, tail)
  {
    hide TakeArg, PutArg;
    match a
    case ExecConst(_, _, _, _, _, _) => ConstBack(a, tail);
    case ExecResult(_, _, _, _, _, _) => ResultBack(a, tail);
    case ExecData(_, _) => DataBack(a, tail);
    case ExecCsum(_, _) => CsumBack(a, tail);
  }

  lemma {:induction false} ArgsBack(args: seq<ExecArg>, tail: seq<Byte>)
    requires forall k :: 0 <= k < |args| ==> ArgFits(args[k]) && Scalar(args[k])
    ensures TakeArgs(PutArgs(args, tail), |args|) == Got(args, tail)
  {
    hide TakeArg, PutArg, ArgFits, Scalar;
    if |args| > 0 {
      ArgBack(args[0], PutArgs(args[1..], tail));
      ArgsBack(args[1..], tail);
      assert [args[0]] + args[1..] == args;
    }
  }

  /** The word an instruction starts with. */
  function Opcode(i: Instr): nat {
    match i
    case Copyin(_, _) => INSTR_COPYIN
    case Copyout(_, _, _) => INSTR_COPYOUT
    case SetProps(_) => INSTR_SETPROPS
    case Call(id, _, _) => id
  }

  lemma {:induction false} InstrBack(i: Instr, tail: seq<Byte>, n: nat)
    requires Fits(i, n) && n <= INSTR_SETPROPS
    ensures TakeWord(PutInstr(i, tail)).Got?
    ensures Opcode(i) < INSTR_EOF && TakeWord(PutInstr(i, tail)).value == Opcode(i)
    ensures TakeInstr(Opcode(i), TakeWord(PutInstr(i, tail)).rest, n) == Got(i, tail)
  {
    hide Put, TakeWord, TakeArg, PutArg, TakeArgs, PutArgs, ArgFits;
    match i
    case Copyin(addr, arg) =>
      var t := PutArg(arg, tail);
      WordBack(INSTR_COPYIN, Put(addr, t));
      WordBack(addr, t);
      ArgBack(arg, tail);
    case Copyout(index, addr, size) =>
      var t2 := Put(size, tail);
      var t1 := Put(addr, t2);
      WordBack(INSTR_COPYOUT, Put(index, t1));
      WordBack(index, t1);
      WordBack(addr, t2);
      WordBack(size, tail);
    case SetProps(p) =>
      var t2 := Put(p.rerun, tail);
      var t1 := Put(if p.async then 1 else 0, t2);
      WordBack(INSTR_SETPROPS, Put(p.failNth, t1));
      WordBack(p.failNth, t1);
      WordBack(if p.async then 1 else 0, t2);
      WordBack(p.rerun, tail);
    case Call(id, ret, args) =>
      var t2 := PutArgs(args, tail);
      var t1 := Put(|args|, t2);
      WordBack(id, Put(ret, t1));
      WordBack(ret, t1);
      WordBack(|args|, t2);
      ArgsBack(args, tail);
  }

  /** Every instruction sequence that fits the format is read back exactly, whatever follows it. */
  lemma {:induction false} ParsePrint(code: seq<Instr>, tail: seq<Byte>, n: nat)
    requires n <= INSTR_SETPROPS && forall k :: 0 <= k < |code| ==> Fits(code[k], n)
    ensures Parse(Print(code, tail), n) == Got(code, tail)
  {
    hide Put, TakeWord, PutInstr, TakeInstr, Fits, Opcode;
    if |code| == 0 {
      WordBack(INSTR_EOF, tail);
    } else {
      InstrBack(code[0], Print(code[1..], tail), n);
      ParsePrint(code[1..], tail, n);
      assert [code[0]] + code[1..] == code;
    }
  }

  // ----- Printing piece by piece -----

  /** Instructions without the end marker. */
  function PutInstrs(code: seq<Instr>, tail: seq<Byte>): seq<Byte> {
    if |code| == 0 then tail else PutInstr(code[0], PutInstrs(code[1..], tail))
  }

  lemma {:induction false} PrintEnds(code: seq<Instr>, tail: seq<Byte>)
    ensures Print(code, tail) == PutInstrs(code, Put(INSTR_EOF, tail))
  {
    hide PutInstr, Put;
    if |code| > 0 { PrintEnds(code[1..], tail); }
  }

  lemma {:induction false} PutsConcat(a: seq<Instr>, b: seq<Instr>, tail: seq<Byte>)
    ensures PutInstrs(a + b, tail) == PutInstrs(a, PutInstrs(b, tail))
  {
    hide PutInstr;
    if |a| == 0 {
      assert a + b == b;
    } else {
      assert (a + b)[1..] == a[1..] + b;
      PutsConcat(a[1..], b, tail);
    }
  }

  lemma {:induction false} PutApp(v: nat, a: seq<Byte>, tail: seq<Byte>)
    ensures Put(v, a + tail) == Put(v, a) + tail
  {
    hide Le;
    assert Le(v, 8) + (a + tail) == Le(v, 8) + a + tail;
  }

  lemma {:induction false} ChunksApp(cs: seq<Chunk>, tail: seq<Byte>)
    ensures PutChunks(cs, tail) == PutChunks(cs, []) + tail
  {
    hide Put;
    if |cs| == 0 {
      assert [] + tail == tail;
    } else {
      ChunksApp(cs[1..], tail);
      var r := PutChunks(cs[1..], []);
      PutApp(cs[0].size, r, tail);
      PutApp(cs[0].value, Put(cs[0].size, r), tail);
      PutApp(cs[0].kind, Put(cs[0].value, Put(cs[0].size, r)), tail);
    }
  }

  lemma {:induction false} ArgApp(a: ExecArg, tail: seq<Byte>)
    ensures PutArg(a, tail) == PutArg(a, []) + tail
  {
    hide Put, PutChunks, PackMeta;
    match a
    case ExecConst(size, format, value, bfOff, bfLen, pidStride) =>
      var m := PackMeta(size, format, bfOff, bfLen, pidStride);
      assert [] + tail == tail;
      PutApp(value, [], tail);
      PutApp(m, Put(value, []), tail);
      PutApp(ARG_CONST, Put(m, Put(value, [])), tail);
    case ExecResult(size, format, index, divOp, addOp, dflt) =>
      var m := PackMeta(size, format, 0, 0, 0);
      assert [] + tail == tail;
      var t1 := Put(dflt, []);
      var t2 := Put(addOp, t1);
      var t3 := Put(divOp, t2);
      var t4 := Put(index, t3);
      PutApp(dflt, [], tail);
      PutApp(addOp, t1, tail);
      PutApp(divOp, t2, tail);
      PutApp(index, t3, tail);
      PutApp(m, t4, tail);
      PutApp(ARG_RESULT, Put(m, t4), tail);
    case ExecData(data, readable) =>
      var flags := |data| + (if readable then READABLE else 0);
      var z := ZeroBytes(Pad(|data|));
      var t := data + (z + []);
      assert data + (z + tail) == t + tail;
      PutApp(flags, t, tail);
      PutApp(ARG_DATA, Put(flags, t), tail);
    case ExecCsum(size, chunks) =>
      var t := PutChunks(chunks, []);
      ChunksApp(chunks, tail);
      var t1 := Put(|chunks|, t);
      var t2 := Put(CSUM_INET, t1);
      PutApp(|chunks|, t, tail);
      PutApp(CSUM_INET, t1, tail);
      PutApp(size, t2, tail);
      PutApp(ARG_CSUM, Put(size, t2), tail);
  }

  lemma {:induction false} ArgsApp(args: seq<ExecArg>, tail: seq<Byte>)
    ensures PutArgs(args, tail) == PutArgs(args, []) + tail
  {
    hide PutArg;
    if |args| == 0 {
      assert [] + tail == tail;
    } else {
      var r := PutArgs(args[1..], []);
      ArgsApp(args[1..], tail);
      ArgApp(args[0], r + tail);
      ArgApp(args[0], r);
      assert PutArg(args[0], []) + (r + tail) == PutArg(args[0], []) + r + tail;
    }
  }

  lemma {:induction false} InstrApp(i: Instr, tail: seq<Byte>)
    ensures PutInstr(i, tail) == PutInstr(i, []) + tail
  {
    hide Put, PutArg, PutArgs;
    assert [] + tail == tail;
    match i
    case Copyin(addr, arg) =>
      ArgApp(arg, tail);
      PutApp(addr, PutArg(arg, []), tail);
      PutApp(INSTR_COPYIN, Put(addr, PutArg(arg, [])), tail);
    case Copyout(index, addr, size) =>
      PutApp(size, [], tail);
      PutApp(addr, Put(size, []), tail);
      PutApp(index, Put(addr, Put(size, [])), tail);
      PutApp(INSTR_COPYOUT, Put(index, Put(addr, Put(size, []))), tail);
    case SetProps(p) =>
      var b := if p.async then 1 else 0;
      PutApp(p.rerun, [], tail);
      PutApp(b, Put(p.rerun, []), tail);
      PutApp(p.failNth, Put(b, Put(p.rerun, [])), tail);
      PutApp(INSTR_SETPROPS, Put(p.failNth, Put(b, Put(p.rerun, []))), tail);
    case Call(id, ret, args) =>
      var t := PutArgs(args, []);
      ArgsApp(args, tail);
      PutApp(|args|, t, tail);
      PutApp(ret, Put(|args|, t), tail);
      PutApp(id, Put(ret, Put(|args|, t)), tail);
  }

  lemma {:induction false} InstrsApp(code: seq<Instr>, tail: seq<Byte>)
    ensures PutInstrs(code, tail) == PutInstrs(code, []) + tail
  {
    hide PutInstr;
    if |code| == 0 {
      assert [] + tail == tail;
    } else {
      var r := PutInstrs(code[1..], []);
      InstrsApp(code[1..], tail);
      InstrApp(code[0], r + tail);
      InstrApp(code[0], r);
      assert PutInstr(code[0], []) + (r + tail) == PutInstr(code[0], []) + r + tail;
    }
  }

  /** The bytes of some instructions. */
  function Bytes(code: seq<Instr>): seq<Byte> {
    PutInstrs(code, [])
  }

  lemma {:induction false} BytesConcat(a: seq<Instr>, b: seq<Instr>)
    ensures Bytes(a + b) == Bytes(a) + Bytes(b)
  {
    PutsConcat(a, b, []);
    InstrsApp(a, Bytes(b));
  }
}
