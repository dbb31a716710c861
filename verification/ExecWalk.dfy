/** The executor's own reader of the exec stream: it walks the words once, and goes
    back for the copyouts of a call when that call completes. */
module ExecWalk {
  import opened Bits
  import opened Common
  import opened ExecFormat
  import D = ExecDecode

  const MAX_ARGS := 9
  const NATIVE := 0
  const BIGENDIAN := 1

  datatype Res = Res(executed: bool, val: nat)

  type Results = r: seq<Res> | |r| == MAX_COMMANDS witness seq(MAX_COMMANDS, i => Res(false, 0))

  // ----- What the executor does with an argument -----

  /** The value of a result argument given the results known now. */
  function ResultValue(rs: Results, a: ExecArg): nat
    requires a.ExecResult? && a.index < MAX_COMMANDS
  {
    var r := rs[a.index];
    if !r.executed then a.dflt
    else ((if a.divOp != 0 then r.val / a.divOp else r.val) + a.addOp) % W64
  }

  function ConstValue(a: ExecArg, procid: nat): nat
    requires a.ExecConst?
  {
    (a.value + a.pidStride * procid) % W64
  }

  /** The value as it is stored, for the sizes that have a big-endian form. */
  function Swap(v: nat, size: nat, format: nat): Option<nat> {
    if format == NATIVE then Some(v)
    else if format == BIGENDIAN && (size == 2 || size == 4 || size == 8) then Some(SwapBytes(v, size))
    else None
  }

  /** Whether a call argument is one the executor passes; that does not depend on what the results are. */
  predicate CallArgOk(a: ExecArg) {
    match a
    case ExecConst(size, format, _, bfOff, bfLen, _) =>
      bfOff == 0 && bfLen == 0 && (format == NATIVE || (format == BIGENDIAN && size in {2, 4, 8}))
    case ExecResult(_, format, index, _, _, _) => format == NATIVE && index < MAX_COMMANDS
    case _ => false
  }

  /** The value a call argument is passed with, if the executor takes it. */
  function CallArg(rs: Results, a: ExecArg, procid: nat): (r: Option<nat>)
    ensures r.Some? <==> CallArgOk(a)
  {
    match a
    case ExecConst(size, format, _, bfOff, bfLen, _) =>
      if bfOff != 0 || bfLen != 0 || (format != NATIVE && format != BIGENDIAN) then None
      else Swap(ConstValue(a, procid), size, format)
    case ExecResult(_, format, index, _, _, _) =>
      if format == NATIVE && index < MAX_COMMANDS then Some(ResultValue(rs, a)) else None
    case _ => None
  }

  predicate ChunkOk(c: Chunk) {
    c.kind == 0 || (c.kind == 1 && c.size in {2, 4, 8})
  }

  /** Whether a value can be stored in the given size and format. */
  predicate StoreOk(size: nat, format: nat, bfOff: nat, bfLen: nat) {
    if format == NATIVE then size in {1, 2, 4, 8}
    else if format == BIGENDIAN then size in {2, 4, 8}
    else bfOff == 0 && bfLen == 0
         && ((format == 2 && size == 20) || (format == 3 && size == 18) || (format == 4 && size == 23))
  }

  /** Whether the executor goes on after a copyin of the argument. */
  predicate CopyinOk(a: ExecArg) {
    match a
    case ExecConst(size, format, _, bfOff, bfLen, _) => StoreOk(size, format, bfOff, bfLen)
    case ExecResult(size, format, index, _, _, _) => index < MAX_COMMANDS && StoreOk(size, format, 0, 0)
    case ExecData(_, _) => true
    case ExecCsum(size, chunks) => size == 2 && forall i :: 0 <= i < |chunks| ==> ChunkOk(chunks[i])
  }

  /** The values a call is made with. */
  function CallValues(rs: Results, args: seq<ExecArg>, procid: nat): (r: seq<nat>)
    requires forall k :: 0 <= k < |args| ==> CallArgOk(args[k])
    ensures |r| == |args|
  {
    seq(|args|, k requires 0 <= k < |args| => CallArg(rs, args[k], procid).value)
  }

  /** A store into memory: a number in some size and format, bytes, or a checksum over chunks. */
  datatype Write =
    | WriteInt(addr: nat, val: nat, size: nat, format: nat, bfOff: nat, bfLen: nat)
    | WriteData(addr: nat, data: seq<Byte>)
    | WriteCsum(addr: nat, chunks: seq<Chunk>)

  /** What a copyin stores, given the results known now. */
  function Written(rs: Results, addr: nat, a: ExecArg, procid: nat): Write
    requires CopyinOk(a)
  {
    match a
    case ExecConst(size, format, _, bfOff, bfLen, _) =>
      WriteInt(addr, ConstValue(a, procid), size, format, bfOff, bfLen)
    case ExecResult(size, format, _, _, _, _) => WriteInt(addr, ResultValue(rs, a), size, format, 0, 0)
    case ExecData(data, _) => WriteData(addr, data)
    case ExecCsum(_, chunks) => WriteCsum(addr, chunks)
  }

  /** The instructions the executor carries out without stopping. */
  predicate Accepts(i: Instr) {
    match i
    case Copyin(_, arg) => CopyinOk(arg)
    case Copyout(_, _, _) => true
    case SetProps(_) => true
    case Call(_, _, args) => |args| <= MAX_ARGS && forall k :: 0 <= k < |args| ==> CallArgOk(args[k])
  }

  // ----- What completing a call does to the results -----

  /** What memory holds at an address, unless reading it faults. */
  type Memory = (nat, nat) -> Option<nat>

  function ApplyCopyouts(rs: Results, cs: seq<D.CopyoutRec>, mem: Memory): Results
    requires forall i :: 0 <= i < |cs| ==> CopyoutOk(cs[i])
    decreases |cs|
  {
    if |cs| == 0 then rs
    else
      assert CopyoutOk(cs[0]);
      var v := mem(cs[0].addr, cs[0].size);
      ApplyCopyouts(if v.Some? then rs[cs[0].index := Res(true, v.value)] else rs, cs[1..], mem)
  }

  function ApplyReturn(rs: Results, index: nat, res: nat): Results
    requires index == NO_COPYOUT || index < MAX_COMMANDS
  {
    if index == NO_COPYOUT then rs else rs[index := Res(true, res)]
  }

  predicate CopyoutOk(c: D.CopyoutRec) {
    c.index < MAX_COMMANDS && c.size in {1, 2, 4, 8}
  }

  /** A call in flight: the index of its return value and the bytes that follow it in the stream. */
  datatype CallEnd = CallEnd(ret: nat, after: seq<Byte>)

  /** A call comes back: which one, with what value, and what memory holds then. */
  datatype Completion = Completion(call: nat, res: nat, mem: Memory)

  ghost predicate CanComplete(e: CallEnd) {
    (e.ret == NO_COPYOUT || e.ret < MAX_COMMANDS) && AllReadable(CopyoutsAt(e.after))
  }

  ghost function Complete(rs: Results, e: CallEnd, res: nat, mem: Memory): Option<Results> {
    if CanComplete(e) then Some(ApplyCopyouts(ApplyReturn(rs, e.ret, res), CopyoutsAt(e.after).value, mem)) else None
  }

  ghost function CompleteAll(rs: Results, calls: seq<CallEnd>, evs: seq<Completion>): Option<Results>
    requires forall i :: 0 <= i < |evs| ==> evs[i].call < |calls|
    decreases |evs|
  {
    if |evs| == 0 then Some(rs)
    else
      match Complete(rs, calls[evs[0].call], evs[0].res, evs[0].mem)
      case None => None
      case Some(rs') => CompleteAll(rs', calls, evs[1..])
  }

  // ----- What the executor makes of a stream -----

  /** A call handed to a thread: where its copyouts start is remembered with it. */
  datatype Scheduled = Scheduled(num: nat, copyoutIndex: nat, args: seq<nat>, props: Props, copyoutPos: nat)

  /** What the executor does, in order. */
  datatype Effect = Stores(w: Write) | Calls(s: Scheduled)

  /** The properties as the executor keeps them: integers of 32 bits, and any word but zero is true. */
  function ReadAs(failNth: nat, async: nat, rerun: nat): Props {
    Props(failNth % 0x1_0000_0000, async != 0, rerun % 0x1_0000_0000)
  }

  function PropsAt(d: seq<Byte>): Parsed<Props> {
    var (failNth, d1) :- TakeWord(d);
    var (async, d2) :- TakeWord(d1);
    var (rerun, d3) :- TakeWord(d2);
    Got(ReadAs(failNth, async, rerun), d3)
  }

  /** The next instruction the executor carries out, or none at the end marker. */
  ghost function Next(d: seq<Byte>, n: nat): (r: Parsed<Option<Instr>>)
    ensures r.Got? ==> |r.rest| < |d| && (r.value.Some? ==> Accepts(r.value.value))
  {
    var (op, d1) :- TakeWord(d);
    if op == INSTR_EOF then Got(None, d1)
    else
      var (i, d2) :- TakeInstr(op, d1, n);
      if Accepts(i) && PlainInstr(op, d1) then Got(Some(i), d2) else Bad
  }

  function EffectsOf(i: Instr, rs: Results, props: Props, procid: nat, pos: nat): seq<Effect>
    requires Accepts(i)
  {
    match i
    case Copyin(addr, arg) => [Stores(Written(rs, addr, arg, procid))]
    case Call(id, ret, args) => [Calls(Scheduled(id, ret, CallValues(rs, args, procid), props, pos))]
    case _ => []
  }

  /** Properties hold for the next call and are then forgotten. */
  ghost function NextProps(i: Instr, props: Props, d: seq<Byte>): Props {
    if i.Call? then NO_PROPS
    else if i.SetProps? && TakeWord(d).Got? && PropsAt(TakeWord(d).rest).Got? then PropsAt(TakeWord(d).rest).value
    else props
  }

  datatype Machine = Machine(rs: Results, props: Props, calls: seq<CallEnd>)

  datatype Outcome = Stopped | Finished(effects: seq<Effect>, rs: Results, rest: seq<Byte>)

  function Then(es: seq<Effect>, o: Outcome): Outcome {
    if o.Stopped? then Stopped else Finished(es + o.effects, o.rs, o.rest)
  }

  /** The completions handled once call k has been handed out are of calls handed out by then. */
  ghost predicate Orderly(sched: nat -> seq<Completion>) {
    forall k: nat, i: nat :: i < |sched(k)| ==> sched(k)[i].call <= k
  }

  /** The machine after one instruction; handing out a call is when calls in flight may come back. */
  ghost function Advance(m: Machine, i: Instr, d: seq<Byte>, rest: seq<Byte>,
                         sched: nat -> seq<Completion>): Option<Machine>
    requires Orderly(sched)
  {
    var props := NextProps(i, m.props, d);
    if i.Call? then
      var calls := m.calls + [CallEnd(i.ret, rest)];
      match CompleteAll(m.rs, calls, sched(|m.calls|))
      case None => None
      case Some(rs) => Some(Machine(rs, props, calls))
    else Some(m.(props := props))
  }

  /** What a run depends on besides its stream: the length of the input, the number of system calls,
      the process, and which calls come back once call number k has been handed out. */
  datatype Host = Host(total: nat, numCalls: nat, procid: nat, sched: nat -> seq<Completion>)

  /** The run over the data d at the end of the input. */
  ghost function Execute(d: seq<Byte>, m: Machine, h: Host): Outcome
    requires |d| <= h.total && Orderly(h.sched)
    decreases |d|
  {
    match Next(d, h.numCalls)
    case Bad => Stopped
    case Got(None, rest) => Finished([], m.rs, rest)
    case Got(Some(i), rest) =>
      match Advance(m, i, d, rest, h.sched)
      case None => Stopped
      case Some(m') => Then(EffectsOf(i, m.rs, m.props, h.procid, h.total - |rest|), Execute(rest, m', h))
  }

  function NoResults(): Results {
    seq(MAX_COMMANDS, i => Res(false, 0))
  }

  function AtStart(): Machine {
    Machine(NoResults(), NO_PROPS, [])
  }

  // ----- The executor -----

  class Executor {
    const input: seq<Byte>
    const numCalls: nat
    const procid: nat
    var pos: nat
    var results: Results
    var props: Props

    constructor (data: seq<Byte>, n: nat, id: nat)
      ensures input == data && numCalls == n && procid == id
      ensures pos == 0 && results == NoResults() && props == NO_PROPS
    {
      input, numCalls, procid := data, n, id;
      pos, results, props := 0, NoResults(), NO_PROPS;
    }

    ghost function HostWith(sched: nat -> seq<Completion>): Host {
      Host(|input|, numCalls, procid, sched)
    }

    ghost function Rest(): seq<Byte>
      reads this`pos
      requires pos <= |input|
    {
      input[pos..]
    }

    /** One word at the cursor; reading past the end of the input stops the executor. */
    method ReadInput() returns (ok: bool, w: nat)
      requires pos <= |input|
      modifies this`pos
      ensures pos <= |input|
      ensures if ok then TakeWord(old(Rest())) == Got(w, Rest()) else TakeWord(old(Rest())).Bad?
    {
      if pos + 8 > |input| {
        return false, 0;
      }
      assert input[pos..][..8] == input[pos..pos + 8] && input[pos..][8..] == input[pos + 8..];
      w := FromLe(input[pos..pos + 8]);
      pos := pos + 8;
      ok := true;
    }

    method ReadConstArg() returns (ok: bool, val: nat, ghost a: ExecArg, size: nat, bf: nat, bfOff: nat, bfLen: nat)
      requires pos <= |input|
      modifies this`pos
      ensures pos <= |input|
      ensures if ok then TakeConst(old(Rest())) == Got(a, Rest()) else TakeConst(old(Rest())).Bad?
      ensures ok ==> a.ExecConst? && val == ConstValue(a, procid)
      ensures ok ==> size == a.size && bf == a.format && bfOff == a.bfOff && bfLen == a.bfLen
    {
      hide TakeWord;
      var meta, value;
      val, size, bf, bfOff, bfLen, a := 0, 0, 0, 0, 0, ExecConst(0, 0, 0, 0, 0, 0);
      ok, meta := ReadInput();
      if !ok { return; }
      ok, value := ReadInput();
      if !ok { return; }
      size := meta % 0x100;
      bf := meta / 0x100 % 0x100;
      bfOff := meta / 0x1_0000 % 0x100;
      bfLen := meta / 0x100_0000 % 0x100;
      var stride := meta / 0x1_0000_0000;
      a := ExecConst(size, bf, value, bfOff, bfLen, stride);
      val := (value + stride * procid) % W64;
    }

    /** Reads the index and operations of a result argument and looks the result up. */
    method ReadResult(ghost meta: nat) returns (ok: bool, val: nat, ghost a: Parsed<ExecArg>)
      requires pos <= |input|
      modifies this`pos
      ensures pos <= |input|
      ensures a == TakeResultAfter(meta, old(Rest()))
      ensures ok <==> a.Got? && a.value.index < MAX_COMMANDS
      ensures ok ==> a.rest == Rest() && val == ResultValue(results, a.value)
    {
      hide TakeWord;
      a := TakeResultAfter(meta, Rest());
      val := 0;
      var idx, opDiv, opAdd, arg;
      ok, idx := ReadInput();
      if !ok { return; }
      ok, opDiv := ReadInput();
      if !ok { return; }
      ok, opAdd := ReadInput();
      if !ok { return; }
      ok, arg := ReadInput();
      if !ok { return; }
      if idx >= MAX_COMMANDS {
        return false, 0, a;
      }
      if results[idx].executed {
        arg := results[idx].val;
        if opDiv != 0 {
          arg := arg / opDiv;
        }
        arg := (arg + opAdd) % W64;
      }
      val := arg;
    }

    /** Reads one argument of a call. */
    method ReadArg() returns (ok: bool, val: nat)
      requires pos <= |input|
      modifies this`pos
      ensures pos <= |input|
      ensures ok <==> TakeArg(old(Rest())).Got? && PlainMeta(old(Rest())) && CallArgOk(TakeArg(old(Rest())).value)
      ensures ok ==> TakeArg(old(Rest())).rest == Rest()
      ensures ok ==> CallArg(results, TakeArg(old(Rest())).value, procid) == Some(val)
    {
      hide TakeWord, TakeConst, ConstValue, SwapBytes, TakeData, TakeCsum, ResultValue;
      D.NeverResult(if TakeWord(Rest()).Got? then TakeWord(Rest()).rest else []);
      var typ, v, meta;
      val := 0;
      ok, typ := ReadInput();
      if !ok { return; }
      if typ == ARG_CONST {
        var size, bf, bfOff, bfLen;
        ghost var a;
        ok, v, a, size, bf, bfOff, bfLen := ReadConstArg();
        if !ok { return; }
        if bf != NATIVE && bf != BIGENDIAN {
          return false, 0;
        }
        if bfOff != 0 || bfLen != 0 {
          return false, 0;
        }
        if bf == NATIVE {
          val := v;
        } else if size == 2 || size == 4 || size == 8 {
          val := SwapBytes(v, size);
        } else {
          return false, 0;
        }
      } else if typ == ARG_RESULT {
        ghost var d := Rest();
        ok, meta := ReadInput();
        if !ok { return; }
        ghost var a;
        ResultSplit(d);
        if meta / 0x100 != NATIVE {
          ok := false;
        } else {
          ok, val, a := ReadResult(meta);
        }
      } else {
        ok := false;
      }
    }

    /** Handles a copyin: what it stores, and where. */
    method Copyin() returns (ok: bool, w: Write)
      requires pos <= |input|
      modifies this`pos
      ensures pos <= |input|
      ensures var r := TakeCopyin(old(Rest()));
              && (ok <==> r.Got? && CopyinOk(r.value.arg) && PlainMeta(TakeWord(old(Rest())).rest))
              && (ok ==> r.rest == Rest() && w == Written(results, r.value.addr, r.value.arg, procid))
    {
      hide TakeWord, TakeConst, TakeData, TakeCsum, TakeResult, ResultValue, ConstValue, StoreOk;
      var addr, typ, v;
      w := WriteData(0, []);
      ok, addr := ReadInput();
      if !ok { return; }
      ok, typ := ReadInput();
      if !ok { return; }
      D.NeverResult(Rest());
      ghost var d := Rest();
      if typ == ARG_CONST {
        var size, bf, bfOff, bfLen;
        ghost var a;
        ok, v, a, size, bf, bfOff, bfLen := ReadConstArg();
        ok := ok && StoreOk(size, bf, bfOff, bfLen);
        w := WriteInt(addr, v, size, bf, bfOff, bfLen);
      } else if typ == ARG_RESULT {
        var size, bf;
        ResultSplit(d);
        ok, v, size, bf := CopyinResult();
        w := WriteInt(addr, v, size, bf, 0, 0);
      } else if typ == ARG_DATA {
        var data;
        ok, data := SkipData();
        w := WriteData(addr, data);
      } else if typ == ARG_CSUM {
        var chunks;
        ok, chunks := WalkCsum();
        w := WriteCsum(addr, chunks);
      } else {
        ok := false;
      }
    }

    method CopyinResult() returns (ok: bool, val: nat, size: nat, bf: nat)
      requires pos <= |input|
      modifies this`pos
      ensures pos <= |input|
      ensures var r := TakeResult(old(Rest()));
              && (ok <==> r.Got? && CopyinOk(r.value) && TakeWord(old(Rest())).value < 0x1_0000)
              && (ok ==> r.value.ExecResult? && r.rest == Rest() && val == ResultValue(results, r.value)
                         && size == r.value.size && bf == r.value.format)
    {
      hide TakeWord, ResultValue;
      ghost var d := Rest();
      var meta;
      val, size, bf := 0, 0, 0;
      ok, meta := ReadInput();
      if !ok { return; }
      ghost var a;
      ResultSplit(d);
      size, bf := meta % 0x100, meta / 0x100;
      ok, val, a := ReadResult(meta);
      ok := ok && StoreOk(size, bf, 0, 0);
    }

    /** Copies a data argument out of the input and skips its words. */
    method SkipData() returns (ok: bool, data: seq<Byte>)
      requires pos <= |input|
      modifies this`pos
      ensures pos <= |input|
      ensures var r := TakeData(old(Rest()));
              && (ok <==> r.Got?)
              && (ok ==> r.value.ExecData? && r.value.data == data && r.rest == Rest())
    {
      hide FromLe;
      var size;
      data := [];
      ok, size := ReadInput();
      if !ok { return; }
      size := size % READABLE;
      var start := pos;
      for i := 0 to (size + 7) / 8
        invariant pos == start + 8 * i <= |input|
      {
        var w;
        ok, w := ReadInput();
        if !ok { return; }
      }
      assert (size + 7) / 8 * 8 == pos - start;
      assert input[start..][pos - start..] == input[pos..];
      data := input[start..start + size];
      assert input[start..][..size] == data;
      ok := true;
    }

    /** Walks the chunks a checksum is computed over. */
    method WalkCsum() returns (ok: bool, chunks: seq<Chunk>)
      requires pos <= |input|
      modifies this`pos
      ensures pos <= |input|
      ensures var r := TakeCsum(old(Rest()));
              && (ok <==> r.Got? && CopyinOk(r.value))
              && (ok ==> r.value.ExecCsum? && r.value.chunks == chunks && r.rest == Rest())
    {
      hide TakeWord;
      var size, kind, n;
      chunks := [];
      ok, size := ReadInput();
      if !ok { return; }
      ok, kind := ReadInput();
      if !ok { return; }
      if kind != CSUM_INET || size != 2 {
        ok := false;
        return;
      }
      ok, n := ReadInput();
      if !ok { return; }
      ghost var d0 := Rest();
      D.PrependNone(TakeChunks(d0, n));
      for i := 0 to n
        invariant pos <= |input| && forall k :: 0 <= k < |chunks| ==> ChunkOk(chunks[k])
        invariant TakeChunks(d0, n) == D.Prepend(chunks, TakeChunks(Rest(), n - i))
      {
        var ck, value, csize;
        ok, ck := ReadInput();
        if !ok { return; }
        ok, value := ReadInput();
        if !ok { return; }
        ok, csize := ReadInput();
        if !ok { return; }
        var c := Chunk(ck, value, csize);
        D.PrependOne(chunks, c, TakeChunks(Rest(), n - i - 1));
        if ck != 0 && (ck != 1 || csize !in {2, 4, 8}) {
          ok := false;
          ghost var r := TakeChunks(d0, n);
          if r.Got? { assert r.value[|chunks|] == c; }
          return;
        }
        chunks := chunks + [c];
      }
      assert chunks + [] == chunks;
      ok := true;
    }

    /** Reads a call after its number and hands it to a thread. */
    method ReadCall(num: nat) returns (ok: bool, s: Scheduled)
      requires pos <= |input|
      modifies this`pos, this`props
      ensures pos <= |input|
      ensures var r := TakeCall(num, old(Rest()), numCalls);
              && (ok <==> r.Got? && Accepts(r.value) && PlainCall(old(Rest())))
              && (ok ==> r.rest == Rest() && props == NO_PROPS
                         && EffectsOf(r.value, results, old(props), procid, pos) == [Calls(s)])
    {
      hide TakeWord, TakeArgs, CallArg, CallArgOk, PlainArgs;
      s := Scheduled(0, 0, [], NO_PROPS, 0);
      if num >= numCalls {
        return false, s;
      }
      var index, n;
      ok, index := ReadInput();
      if !ok { return; }
      ok, n := ReadInput();
      if !ok { return; }
      if n > MAX_ARGS {
        return false, s;
      }
      var args;
      ok, args := ReadCallArgs(n);
      s := Scheduled(num, index, args, props, pos);
      props := NO_PROPS;
    }

    method ReadCallArgs(n: nat) returns (ok: bool, args: seq<nat>)
      requires pos <= |input|
      modifies this`pos
      ensures pos <= |input|
      ensures var r := TakeArgs(old(Rest()), n);
              && (ok <==> r.Got? && (forall k :: 0 <= k < n ==> CallArgOk(r.value[k])) && PlainArgs(old(Rest()), n))
              && (ok ==> r.rest == Rest() && args == CallValues(results, r.value, procid))
    {
      hide TakeWord, TakeArg, CallArg, CallArgOk, PlainMeta;
      ghost var d0 := Rest();
      args := [];
      ghost var got: seq<ExecArg> := [];
      D.PrependNone(TakeArgs(d0, n));
      for i := 0 to n
        invariant pos <= |input| && |args| == |got| == i
        invariant TakeArgs(d0, n) == D.Prepend(got, TakeArgs(Rest(), n - i))
        invariant PlainArgs(d0, n) <==> PlainArgs(Rest(), n - i)
        invariant forall k :: 0 <= k < i ==> CallArgOk(got[k]) && CallArg(results, got[k], procid) == Some(args[k])
      {
        ghost var d := Rest();
        ghost var a := TakeArg(d);
        var v;
        ok, v := ReadArg();
        if a.Got? {
          OkIsScalar(a.value);
          D.PrependOne(got, a.value, TakeArgs(a.rest, n - i - 1));
        }
        if !ok {
          ghost var r := TakeArgs(d0, n);
          if r.Got? { assert r.value[i] == a.value; }
          return;
        }
        args := args + [v];
        got := got + [a.value];
      }
      assert got + [] == got;
      assert args == CallValues(results, got, procid);
      ok := true;
    }

    /** Skips a copyout: it happens when the call completes. */
    method SkipCopyout() returns (ok: bool)
      requires pos <= |input|
      modifies this`pos
      ensures pos <= |input|
      ensures ok <==> TakeCopyout(old(Rest())).Got?
      ensures ok ==> TakeCopyout(old(Rest())).rest == Rest()
    {
      hide TakeWord;
      var w;
      ok, w := ReadInput();
      if !ok { return; }
      ok, w := ReadInput();
      if !ok { return; }
      ok, w := ReadInput();
    }

    method ReadProps() returns (ok: bool)
      requires pos <= |input|
      modifies this`pos, this`props
      ensures pos <= |input|
      ensures ok <==> TakeProps(old(Rest())).Got?
      ensures ok ==> TakeProps(old(Rest())).rest == Rest() && PropsAt(old(Rest())) == Got(props, Rest())
    {
      hide TakeWord;
      var failNth, async, rerun;
      ok, failNth := ReadInput();
      if !ok { return; }
      ok, async := ReadInput();
      if !ok { return; }
      ok, rerun := ReadInput();
      if !ok { return; }
      props := Props(failNth % 0x1_0000_0000, async != 0, rerun % 0x1_0000_0000);
    }

    /** Carries out one instruction, or finds the end of the program. */
    method Step() returns (ok: bool, eof: bool, es: seq<Effect>)
      requires pos <= |input|
      modifies this`pos, this`props
      ensures pos <= |input|
      ensures var r := Next(old(Rest()), numCalls);
              && (ok <==> r.Got?)
              && (ok ==> r.rest == Rest() && (eof <==> r.value.None?))
              && (ok && !eof ==> es == EffectsOf(r.value.value, results, old(props), procid, pos)
                                 && props == NextProps(r.value.value, old(props), old(Rest())))
    {
      hide TakeWord, TakeArg, TakeArgs, CopyinOk, PlainMeta, PlainArgs, CallArgOk, Written, PropsAt;
      eof, es := false, [];
      var op;
      ok, op := ReadInput();
      if !ok { return; }
      if op == INSTR_EOF {
        eof := true;
      } else if op == INSTR_COPYIN {
        var w;
        ok, w := Copyin();
        es := [Stores(w)];
      } else if op == INSTR_COPYOUT {
        ok := SkipCopyout();
      } else if op == INSTR_SETPROPS {
        ok := ReadProps();
      } else {
        var s;
        ok, s := ReadCall(op);
        es := [Calls(s)];
      }
    }

    /** Stores the results of a finished call: its return value, then the copyouts that follow it in the stream. */
    method CopyoutCallResults(th: Scheduled, res: nat, mem: Memory) returns (ok: bool)
      requires th.copyoutPos <= |input|
      modifies this`results
      ensures var r := Complete(old(results), CallEnd(th.copyoutIndex, input[th.copyoutPos..]), res, mem);
              if ok then r == Some(results) else r.None?
    {
      hide CopyoutsAt, ApplyCopyouts;
      if th.copyoutIndex != NO_COPYOUT {
        if th.copyoutIndex >= MAX_COMMANDS {
          return false;
        }
        results := results[th.copyoutIndex := Res(true, res)];
      }
      ok := CopyoutRun(th.copyoutPos, mem);
    }

    /** Carries out the copyouts from the given place on. */
    method CopyoutRun(start: nat, mem: Memory) returns (ok: bool)
      requires start <= |input|
      modifies this`results
      ensures var r := CopyoutsAt(input[start..]);
              && (ok <==> AllReadable(r))
              && (ok ==> results == ApplyCopyouts(old(results), r.value, mem))
    {
      hide TakeWord, CopyoutsFrom, ApplyCopyouts;
      ghost var all := CopyoutsAt(input[start..]);
      ghost var got: seq<D.CopyoutRec> := [];
      D.PrependNone(all);
      NoCopyouts(results, mem);
      var at := new Executor(input, numCalls, procid);
      at.pos := start;
      while true
        invariant at.pos <= |input| && at.input == input && fresh(at)
        invariant all == D.Prepend(got, CopyoutsAt(at.Rest()))
        invariant forall i :: 0 <= i < |got| ==> CopyoutOk(got[i])
        invariant results == ApplyCopyouts(old(results), got, mem)
        decreases |input| - at.pos
      {
        var instr, index, addr, size;
        ok, instr := at.ReadInput();
        if !ok { return; }
        if instr != INSTR_COPYOUT {
          assert got + [] == got;
          return true;
        }
        ok, index := at.ReadInput();
        if !ok { return; }
        ghost var d := at.Rest();
        CopyoutSplit(got, index, d);
        if index >= MAX_COMMANDS {
          return false;
        }
        ok, addr := at.ReadInput();
        if !ok { return; }
        ok, size := at.ReadInput();
        if !ok { return; }
        if size !in {1, 2, 4, 8} {
          return false;
        }
        ghost var c := D.CopyoutRec(index, addr, size);
        var v := mem(addr, size);
        ApplySnoc(old(results), got, c, mem);
        if v.Some? {
          results := results[index := Res(true, v.value)];
        }
        got := got + [c];
      }
    }
  }

  /** The copyout instructions at the front of the data, up to an instruction of another kind. */
  function CopyoutsAt(d: seq<Byte>): Parsed<seq<D.CopyoutRec>>
    decreases |d|
  {
    var (op, d1) :- TakeWord(d);
    if op != INSTR_COPYOUT then Got([], d1)
    else
      var (index, d2) :- TakeWord(d1);
      CopyoutsFrom(index, d2)
  }

  /** The same, in the middle of a copyout whose index has been read. */
  function CopyoutsFrom(index: nat, d: seq<Byte>): Parsed<seq<D.CopyoutRec>>
    decreases |d|
  {
    var (addr, d1) :- TakeWord(d);
    var (size, d2) :- TakeWord(d1);
    var (rest, d3) :- CopyoutsAt(d2);
    Got([D.CopyoutRec(index, addr, size)] + rest, d3)
  }

  ghost predicate AllReadable(r: Parsed<seq<D.CopyoutRec>>) {
    r.Got? && forall i :: 0 <= i < |r.value| ==> CopyoutOk(r.value[i])
  }

  /** One copyout after those read so far: a bad index or size spoils them all. */
  lemma {:induction false} CopyoutSplit(got: seq<D.CopyoutRec>, index: nat, d: seq<Byte>)
    ensures var all := D.Prepend(got, CopyoutsFrom(index, d));
            && (index >= MAX_COMMANDS ==> !AllReadable(all))
            && (TakeWord(d).Bad? || TakeWord(TakeWord(d).rest).Bad? ==> all.Bad?)
            && (TakeWord(d).Got? && TakeWord(TakeWord(d).rest).Got? ==>
                var c := D.CopyoutRec(index, TakeWord(d).value, TakeWord(TakeWord(d).rest).value);
                && (!CopyoutOk(c) ==> !AllReadable(all))
                && all == D.Prepend(got + [c], CopyoutsAt(TakeWord(TakeWord(d).rest).rest)))
  {
    hide TakeWord, CopyoutsAt;
    var all := D.Prepend(got, CopyoutsFrom(index, d));
    if TakeWord(d).Got? && TakeWord(TakeWord(d).rest).Got? {
      var c := D.CopyoutRec(index, TakeWord(d).value, TakeWord(TakeWord(d).rest).value);
      D.PrependOne(got, c, CopyoutsAt(TakeWord(TakeWord(d).rest).rest));
      if all.Got? { assert all.value[|got|] == c; }
    }
  }

  lemma {:induction false} NoCopyouts(rs: Results, mem: Memory)
    ensures ApplyCopyouts(rs, [], mem) == rs
  {
  }

  lemma {:induction false} ApplySnoc(rs: Results, cs: seq<D.CopyoutRec>, c: D.CopyoutRec, mem: Memory)
    requires CopyoutOk(c) && forall i :: 0 <= i < |cs| ==> CopyoutOk(cs[i])
    ensures ApplyCopyouts(rs, cs + [c], mem) == ApplyCopyouts(ApplyCopyouts(rs, cs, mem), [c], mem)
    ensures var r := ApplyCopyouts(rs, cs, mem);
            var v := mem(c.addr, c.size);
            ApplyCopyouts(r, [c], mem) == if v.Some? then r[c.index := Res(true, v.value)] else r
    decreases |cs|
  {
    assert [c][1..] == [];
    if |cs| == 0 {
      assert cs + [c] == [c];
    } else {
      assert (cs + [c])[1..] == cs[1..] + [c];
      var v := mem(cs[0].addr, cs[0].size);
      ApplySnoc(if v.Some? then rs[cs[0].index := Res(true, v.value)] else rs, cs[1..], c, mem);
    }
  }

  lemma {:induction false} OkIsScalar(a: ExecArg)
    ensures CallArgOk(a) ==> Scalar(a)
  {
  }

  /** No word of the arguments has bits that only one of the two readers looks at. */
  ghost predicate PlainArgs(d: seq<Byte>, n: nat)
    decreases n
  {
    n > 0 && TakeArg(d).Got? ==> PlainMeta(d) && PlainArgs(TakeArg(d).rest, n - 1)
  }

  ghost predicate PlainCall(d: seq<Byte>) {
    TakeWord(d).Got? && TakeWord(TakeWord(d).rest).Got? ==>
      var n := TakeWord(TakeWord(d).rest);
      PlainArgs(n.rest, n.value)
  }

  ghost predicate PlainInstr(op: nat, d: seq<Byte>) {
    if op == INSTR_COPYIN then TakeWord(d).Got? ==> PlainMeta(TakeWord(d).rest)
    else if op == INSTR_COPYOUT || op == INSTR_SETPROPS then true
    else PlainCall(d)
  }

  /** A result argument's second word holds its size and format and nothing above: the decoder masks
      what is above, the executor does not. */
  ghost predicate PlainMeta(d: seq<Byte>) {
    TakeWord(d).Got? && TakeWord(d).value == ARG_RESULT && TakeWord(TakeWord(d).rest).Got?
    ==> TakeWord(TakeWord(d).rest).value < 0x1_0000
  }

  /** A result argument whose first word has been read. */
  function TakeResultAfter(meta: nat, d: seq<Byte>): Parsed<ExecArg> {
    var (index, d2) :- TakeWord(d);
    var (divOp, d3) :- TakeWord(d2);
    var (addOp, d4) :- TakeWord(d3);
    var (dflt, d5) :- TakeWord(d4);
    Got(ExecResult(meta % 0x100, meta / 0x100 % 0x100, index, divOp, addOp, dflt), d5)
  }

  lemma {:induction false} ResultSplit(d: seq<Byte>)
    ensures TakeResult(d) == (if TakeWord(d).Got? then TakeResultAfter(TakeWord(d).value, TakeWord(d).rest) else Bad)
  {
    hide TakeWord;
  }

  // ----- The whole stream -----

  /** Runs a whole stream. After call k is handed out the calls of sched(k) come back. */
  method ExecuteOne(x: Executor, sched: nat -> seq<Completion>) returns (ok: bool, effects: seq<Effect>)
    requires x.pos == 0 && x.results == NoResults() && x.props == NO_PROPS && Orderly(sched)
    modifies x
    ensures x.pos <= |x.input|
    ensures var r := Execute(x.input, AtStart(), x.HostWith(sched));
            if ok then r == Finished(effects, x.results, x.Rest()) else r.Stopped?
  {
    hide Next, EffectsOf, NextProps, CompleteAll;
    effects := [];
    var calls: seq<Scheduled> := [];
    ghost var h := x.HostWith(sched);
    ghost var all := Execute(x.input, AtStart(), h);
    ghost var ends: seq<CallEnd> := [];
    assert x.input[0..] == x.input;
    ThenNothing(all);
    while true
      invariant x.pos <= |x.input|
      invariant AllEnd(x.input, calls, ends)
      invariant all == Then(effects, Execute(x.Rest(), Machine(x.results, x.props, ends), h))
      decreases |x.input| - x.pos
    {
      ghost var m, d := Machine(x.results, x.props, ends), x.Rest();
      ghost var next := Next(d, x.numCalls);
      var eof, es;
      ok, eof, es := x.Step();
      if !ok { return; }
      if eof {
        assert effects + [] == effects;
        return;
      }
      ghost var i := next.value.value;
      OneEffect(i, m.rs, m.props, x.procid, x.pos);
      if es != [] && es[0].Calls? {
        calls, ends := calls + [es[0].s], ends + [CallEnd(i.ret, x.Rest())];
        ok := CompleteCalls(x, calls, sched(|calls| - 1), ends);
        if !ok { return; }
      }
      ghost var m' := Machine(x.results, x.props, ends);
      assert Advance(m, i, d, x.Rest(), sched) == Some(m');
      ThenTwice(effects, es, Execute(x.Rest(), m', h));
      effects := effects + es;
    }
  }

  lemma {:induction false} OneEffect(i: Instr, rs: Results, props: Props, procid: nat, pos: nat)
    requires Accepts(i)
    ensures var es := EffectsOf(i, rs, props, procid, pos);
            && (i.Call? <==> es != [] && es[0].Calls?)
            && (i.Call? ==> es[0].s.copyoutIndex == i.ret && es[0].s.copyoutPos == pos)
  {
  }

  ghost predicate AllEnd(input: seq<Byte>, calls: seq<Scheduled>, ends: seq<CallEnd>) {
    && |calls| == |ends|
    && forall k :: 0 <= k < |calls| ==>
         calls[k].copyoutPos <= |input| && ends[k] == CallEnd(calls[k].copyoutIndex, input[calls[k].copyoutPos..])
  }

  /** Calls come back, one after the other. */
  method CompleteCalls(x: Executor, calls: seq<Scheduled>, evs: seq<Completion>, ghost ends: seq<CallEnd>)
    returns (ok: bool)
    requires AllEnd(x.input, calls, ends) && forall i :: 0 <= i < |evs| ==> evs[i].call < |calls|
    modifies x`results
    ensures var r := CompleteAll(old(x.results), ends, evs);
            if ok then r == Some(x.results) else r.None?
  {
    hide Complete;
    assert evs[0..] == evs;
    for i := 0 to |evs|
      invariant CompleteAll(old(x.results), ends, evs) == CompleteAll(x.results, ends, evs[i..])
    {
      assert evs[i..][1..] == evs[i + 1..];
      ok := x.CopyoutCallResults(calls[evs[i].call], evs[i].res, evs[i].mem);
      if !ok { return; }
    }
    ok := true;
  }

  lemma {:induction false} ThenNothing(o: Outcome)
    ensures Then([], o) == o
  {
    if o.Finished? { assert [] + o.effects == o.effects; }
  }

  lemma {:induction false} ThenTwice(a: seq<Effect>, b: seq<Effect>, o: Outcome)
    ensures Then(a, Then(b, o)) == Then(a + b, o)
  {
    if o.Finished? { assert a + (b + o.effects) == a + b + o.effects; }
  }

  // ----- When the executor gets to the end of a stream -----

  /** No word of the stream has bits that only one of the two readers looks at. */
  ghost predicate PlainCode(d: seq<Byte>, n: nat)
    decreases |d|
  {
    var op := TakeWord(d);
    op.Got? && op.value != INSTR_EOF ==>
      && PlainInstr(op.value, op.rest)
      && (TakeInstr(op.value, op.rest, n).Got? ==> PlainCode(TakeInstr(op.value, op.rest, n).rest, n))
  }

  /** The calls of the stream, each with the bytes that follow it. */
  function CallEnds(d: seq<Byte>, n: nat): seq<CallEnd>
    decreases |d|
  {
    var op := TakeWord(d);
    if op.Bad? || op.value == INSTR_EOF then []
    else
      var i := TakeInstr(op.value, op.rest, n);
      if i.Bad? then []
      else (if i.value.Call? then [CallEnd(i.value.ret, i.rest)] else []) + CallEnds(i.rest, n)
  }

  /** The completions from call number first on are ones that can be carried out. */
  ghost predicate CompletionsOk(ends: seq<CallEnd>, first: nat, sched: nat -> seq<Completion>)
    requires Orderly(sched)
  {
    forall k: nat, i: nat :: first <= k < |ends| && i < |sched(k)| ==> CanComplete(ends[sched(k)[i].call])
  }

  /** The decoder reads the stream, every instruction is one the executor carries out, and both read it alike. */
  ghost predicate Walkable(d: seq<Byte>, n: nat) {
    Parse(d, n).Got? && AllAccepted(Parse(d, n).value) && PlainCode(d, n)
  }

  ghost predicate AllAccepted(code: seq<Instr>) {
    forall k :: 0 <= k < |code| ==> Accepts(code[k])
  }

  /** An effect is that of the instruction, whatever the results were. */
  predicate Does(e: Effect, i: Instr) {
    match e
    case Stores(w) => i.Copyin? && w.addr == i.addr
    case Calls(s) => i.Call? && s.num == i.id && s.copyoutIndex == i.ret && |s.args| == |i.args|
  }

  /** The instructions with an effect of their own. */
  function Acting(code: seq<Instr>): seq<Instr> {
    if |code| == 0 then []
    else (if code[0].Copyin? || code[0].Call? then [code[0]] else []) + Acting(code[1..])
  }

  predicate DoesAll(es: seq<Effect>, code: seq<Instr>) {
    |es| == |Acting(code)| && forall k :: 0 <= k < |es| ==> Does(es[k], Acting(code)[k])
  }

  /** For any bytes at all: the executor gets to the end exactly when the decoder reads the stream, the
      instructions are ones it carries out, both read it alike, and no call that comes back has a bad
      copyout. Then it has gone through the decoder's instructions, one effect for each copyin and call,
      and stands where the decoder does. */
  lemma {:induction false} ExecuteIff(d: seq<Byte>, m: Machine, h: Host)
    requires |d| <= h.total && Orderly(h.sched)
    ensures var r, n := Execute(d, m, h), h.numCalls;
            && (r.Finished? <==> Walkable(d, n) && CompletionsOk(m.calls + CallEnds(d, n), |m.calls|, h.sched))
            && (r.Finished? ==> r.rest == Parse(d, n).rest && DoesAll(r.effects, Parse(d, n).value))
    decreases |d|
  {
    hide TakeWord, TakeInstr, Accepts, PlainInstr, EffectsOf, NextProps, CompleteAll, CanComplete, Does;
    var op, n := TakeWord(d), h.numCalls;
    if op.Got? && op.value != INSTR_EOF && TakeInstr(op.value, op.rest, n).Got? {
      var i, rest := TakeInstr(op.value, op.rest, n).value, TakeInstr(op.value, op.rest, n).rest;
      WalkableStep(d, n);
      if Accepts(i) && PlainInstr(op.value, op.rest) {
        var more := CallEnds(rest, n);
        if i.Call? {
          var calls := m.calls + [CallEnd(i.ret, rest)];
          assert m.calls + CallEnds(d, n) == calls + more;
          CompleteAllIff(m.rs, calls, h.sched(|m.calls|));
          CompletionsStep(calls, more, |m.calls|, h.sched);
        } else {
          assert m.calls + CallEnds(d, n) == m.calls + more;
        }
        var m' := Advance(m, i, d, rest, h.sched);
        if m'.Some? {
          ExecuteIff(rest, m'.value, h);
          var r := Execute(rest, m'.value, h);
          if r.Finished? {
            DoesOne(i, m.rs, m.props, h.procid, h.total - |rest|, r.effects, Parse(rest, n).value);
          }
        }
      }
    } else {
      assert m.calls + [] == m.calls;
    }
  }

  lemma {:induction false} WalkableStep(d: seq<Byte>, n: nat)
    requires TakeWord(d).Got? && TakeWord(d).value != INSTR_EOF
    requires TakeInstr(TakeWord(d).value, TakeWord(d).rest, n).Got?
    ensures var i := TakeInstr(TakeWord(d).value, TakeWord(d).rest, n);
            && (Walkable(d, n) <==>
              Accepts(i.value) && PlainInstr(TakeWord(d).value, TakeWord(d).rest) && Walkable(i.rest, n))
            && (Parse(i.rest, n).Got? ==> Parse(d, n) == Got([i.value] + Parse(i.rest, n).value, Parse(i.rest, n).rest))
  {
    hide TakeWord, TakeInstr, Accepts, PlainInstr;
    var i := TakeInstr(TakeWord(d).value, TakeWord(d).rest, n);
    if Parse(i.rest, n).Got? {
      var code, rest := Parse(d, n).value, Parse(i.rest, n).value;
      assert code[0] == i.value && code[1..] == rest;
      if AllAccepted(code) {
        forall k | 0 <= k < |rest| ensures Accepts(rest[k]) { assert rest[k] == code[k + 1]; }
      }
    }
  }

  lemma {:induction false} CompleteAllIff(rs: Results, calls: seq<CallEnd>, evs: seq<Completion>)
    requires forall i :: 0 <= i < |evs| ==> evs[i].call < |calls|
    ensures CompleteAll(rs, calls, evs).Some? <==> forall i :: 0 <= i < |evs| ==> CanComplete(calls[evs[i].call])
    decreases |evs|
  {
    hide CanComplete;
    if |evs| > 0 && CanComplete(calls[evs[0].call]) {
      var rs' := Complete(rs, calls[evs[0].call], evs[0].res, evs[0].mem).value;
      CompleteAllIff(rs', calls, evs[1..]);
      if forall i :: 0 <= i < |evs[1..]| ==> CanComplete(calls[evs[1..][i].call]) {
        forall i | 0 <= i < |evs| ensures CanComplete(calls[evs[i].call]) {
          if i > 0 { assert evs[1..][i - 1] == evs[i]; }
        }
      }
    }
  }

  lemma {:induction false} CompletionsStep(calls: seq<CallEnd>, more: seq<CallEnd>, k: nat,
                                           sched: nat -> seq<Completion>)
    requires Orderly(sched) && |calls| == k + 1
    ensures CompletionsOk(calls + more, k, sched) <==>
            && (forall i :: 0 <= i < |sched(k)| ==> CanComplete(calls[sched(k)[i].call]))
            && CompletionsOk(calls + more, k + 1, sched)
  {
    hide CanComplete;
    assert forall i: nat :: i < |sched(k)| ==> (calls + more)[sched(k)[i].call] == calls[sched(k)[i].call];
  }

  lemma {:induction false} DoesOne(i: Instr, rs: Results, props: Props, procid: nat, pos: nat, es: seq<Effect>,
                                   code: seq<Instr>)
    requires Accepts(i) && DoesAll(es, code)
    ensures DoesAll(EffectsOf(i, rs, props, procid, pos) + es, [i] + code)
  {
    assert ([i] + code)[1..] == code;
  }

  // ----- A stream the decoder takes and the executor does not -----

  /** One call that is passed its own result, with a bit set above the format in the argument's second word. */
  function HighBit(): seq<Byte> {
    var arg := Put(ARG_RESULT, Put(0x1_0000, Put(0, Put(0, Put(0, Put(0, Put(INSTR_EOF, [])))))));
    Put(0, Put(0, Put(1, arg)))
  }

  lemma {:induction false} HighBitRead()
    ensures Parse(HighBit(), 1) == Got([Call(0, 0, [ExecResult(0, 0, 0, 0, 0, 0)])], [])
    ensures !PlainCode(HighBit(), 1)
  {
    hide Put, TakeWord;
    var eof := Put(INSTR_EOF, []);
    var t3 := Put(0, eof);
    var t2 := Put(0, t3);
    var t1 := Put(0, t2);
    var t0 := Put(0, t1);
    var meta := Put(0x1_0000, t0);
    var arg := Put(ARG_RESULT, meta);
    var count := Put(1, arg);
    WordBack(INSTR_EOF, []);
    WordBack(0, eof);
    WordBack(0, t3);
    WordBack(0, t2);
    WordBack(0, t1);
    WordBack(0x1_0000, t0);
    WordBack(ARG_RESULT, meta);
    WordBack(1, arg);
    WordBack(0, count);
    WordBack(0, Put(0, count));
    var a := ExecResult(0, 0, 0, 0, 0, 0);
    assert TakeArg(arg) == Got(a, eof);
    assert TakeArgs(arg, 1) == Got([a], eof) by { assert TakeArgs(eof, 0) == Got([], eof) && [a] + [] == [a]; }
    assert TakeInstr(0, Put(0, count), 1) == Got(Call(0, 0, [a]), eof);
    assert Parse(eof, 1) == Got([], []) && [Call(0, 0, [a])] + [] == [Call(0, 0, [a])];
    assert !PlainMeta(arg);
    assert !PlainArgs(arg, 1);
  }

  /** The decoder takes the stream, and the executor stops at it. */
  lemma {:induction false} HighBitStops(h: Host)
    requires h.total == |HighBit()| && h.numCalls == 1 && Orderly(h.sched)
    ensures D.Decode(HighBit(), 1).Ok? && Execute(HighBit(), AtStart(), h).Stopped?
  {
    hide HighBit, Parse, PlainCode, Execute;
    HighBitRead();
    ExecuteIff(HighBit(), AtStart(), h);
    var a := ExecResult(0, 0, 0, 0, 0, 0);
    var code := [Call(0, 0, [a])];
    assert code[1..] == [] && [a][1..] == [];
    var st := D.Step(D.START, code[0]);
    assert D.Run(D.START, code) == D.Run(st, []) == st;
    assert st.vars == D.NoteVars([0], []) == [0];
    assert D.CallVars(0, st.call) == D.RaiseAll(1, []) == 1;
  }
}
