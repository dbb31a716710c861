/** Serialization of programs into the exec format. */
module ExecEncode {
  import opened Bits
  import opened Common
  import opened Prog
  import F = ExecFormat
  import D = ExecDecode

  datatype CsumChunk = ArgChunk(arg: nat, size: nat) | ConstChunk(value: nat, size: nat)

  /** A checksum field of a call and what it is computed over. */
  datatype CsumField = CsumField(arg: nat, size: nat, chunks: seq<CsumChunk>)

  datatype Call = Call(meta: nat, props: Props, ret: Option<Arg>, args: seq<Arg>,
                       csums: seq<CsumField>, csumUses: set<nat>)

  // ----- What a call is sent as -----

  datatype ArgInfo = ArgInfo(addr: nat, idx: nat, ret: bool)

  /** What is known of the arguments so far, and the next result index. */
  datatype Env = Env(args: map<nat, ArgInfo>, next: nat)

  function Lookup(env: Env, id: nat): ArgInfo {
    if id in env.args then env.args[id] else ArgInfo(0, 0, false)
  }

  /** An argument that takes a value: groups do not. */
  predicate Writable(a: Arg) {
    match a
    case GroupArg(_, _, _, _, _) => false
    case UnionArg(_, _, _, option) => Writable(option)
    case _ => true
  }

  function ConstOf(size: nat, val: nat, bfOff: nat, bfLen: nat, stride: nat, format: nat): F.ExecArg {
    F.ExecConst(size, format, val, bfOff, bfLen, stride)
  }

  function ToExec(env: Env, a: Arg): F.ExecArg
    requires Writable(a)
  {
    match a
    case ConstArg(_, _, _, format, bfOff, bfLen, _, _, _, _) =>
      var (val, stride) := Value(a);
      ConstOf(UnitSize(a), val, bfOff, bfLen, stride, format)
    case ResultArg(_, _, size, format, dflt, res, opDiv, opAdd, val, _) =>
      if res.None? then ConstOf(size, val, 0, 0, 0, format)
      else F.ExecResult(size, format, Lookup(env, res.value).idx, opDiv, opAdd, dflt)
    case PointerArg(_, _, size, phys, _) => ConstOf(size, phys, 0, 0, 0, 0)
    case DataArg(_, _, data, _, readable) => F.ExecData(data, readable)
    case UnionArg(_, _, _, option) => ToExec(env, option)
  }

  predicate CsumArg(c: Call, id: nat) {
    exists k :: 0 <= k < |c.csums| && c.csums[k].arg == id
  }

  predicate WillBeUsed(c: Call, a: Arg) {
    IsUsed(a) || CsumArg(c, a.id) || a.id in c.csumUses
  }

  function AddrOf(v: Visit): nat
    requires v.base.Some?
  {
    (v.base.value + v.offset - UnitOffset(v.arg)) % W64
  }

  /** Whether a value is stored for an argument that lies in memory. */
  predicate Stored(a: Arg) {
    && !a.GroupArg? && !a.UnionArg? && a.dir != DirOut && !(a.ConstArg? && a.kind == Padding)
    && (Size(a) != 0 || (a.ConstArg? && a.bfLen != 0))
  }

  function NoteVisit(env: Env, c: Call, v: Visit): Env {
    if v.base.Some? && WillBeUsed(c, v.arg) then env.(args := env.args[v.arg.id := ArgInfo(AddrOf(v), 0, false)])
    else env
  }

  function VisitCopyin(env: Env, v: Visit): seq<D.CopyinRec> {
    if v.base.Some? && Stored(v.arg) then [D.CopyinRec(AddrOf(v), ToExec(env, v.arg))] else []
  }

  function NoteVisits(env: Env, c: Call, vs: seq<Visit>): Env
    decreases |vs|
  {
    if |vs| == 0 then env else NoteVisits(NoteVisit(env, c, vs[0]), c, vs[1..])
  }

  function VisitCopyins(env: Env, c: Call, vs: seq<Visit>): seq<D.CopyinRec>
    decreases |vs|
  {
    if |vs| == 0 then []
    else
      var env := NoteVisit(env, c, vs[0]);
      VisitCopyin(env, vs[0]) + VisitCopyins(env, c, vs[1..])
  }

  function CallVisits(c: Call): seq<Visit> {
    (if c.ret.Some? then [Visit(c.ret.value, None, 0)] else []) + ArgVisits(c.args)
  }

  // Checksums are computed from the highest address down, since each may cover a lower one.

  function Insert(env: Env, f: CsumField, fs: seq<CsumField>): (r: seq<CsumField>)
    ensures multiset(r) == multiset(fs) + multiset{f}
  {
    if |fs| == 0 || Lookup(env, f.arg).addr <= Lookup(env, fs[0].arg).addr then [f] + fs
    else
      assert fs == [fs[0]] + fs[1..];
      [fs[0]] + Insert(env, f, fs[1..])
  }

  function SortByAddr(env: Env, fs: seq<CsumField>): (r: seq<CsumField>)
    ensures multiset(r) == multiset(fs)
  {
    if |fs| == 0 then []
    else
      assert fs == [fs[0]] + fs[1..];
      Insert(env, fs[0], SortByAddr(env, fs[1..]))
  }

  function Chunks(env: Env, cs: seq<CsumChunk>): (r: seq<F.Chunk>)
    ensures |r| == |cs|
  {
    seq(|cs|, i requires 0 <= i < |cs| =>
      match cs[i]
      case ArgChunk(arg, size) => F.Chunk(0, Lookup(env, arg).addr, size)
      case ConstChunk(value, size) => F.Chunk(1, value, size))
  }

  function CsumCopyin(env: Env, f: CsumField): D.CopyinRec {
    D.CopyinRec(Lookup(env, f.arg).addr, F.ExecCsum(f.size, Chunks(env, f.chunks)))
  }

  /** The copyins of the fields, last first. */
  function CsumCopyins(env: Env, fs: seq<CsumField>): (r: seq<D.CopyinRec>)
    ensures |r| == |fs|
  {
    if |fs| == 0 then [] else [CsumCopyin(env, fs[|fs| - 1])] + CsumCopyins(env, fs[..|fs| - 1])
  }

  predicate RetUsed(c: Call) {
    c.ret.Some? && IsUsed(c.ret.value)
  }

  /** The return value takes a result index when something uses it. */
  function NoteRet(env: Env, c: Call): Env {
    if RetUsed(c) then Env(env.args[c.ret.value.id := ArgInfo(0, env.next, true)], env.next + 1) else env
  }

  function RetIndex(env: Env, c: Call): nat {
    if RetUsed(c) then env.next else F.NO_COPYOUT
  }

  function ToExecs(env: Env, args: seq<Arg>): (r: seq<F.ExecArg>)
    requires forall i :: 0 <= i < |args| ==> Writable(args[i])
    ensures |r| == |args|
  {
    if |args| == 0 then [] else [ToExec(env, args[0])] + ToExecs(env, args[1..])
  }

  function CopyoutStep(env: Env, v: Visit): (Env, seq<D.CopyoutRec>) {
    var info := Lookup(env, v.arg.id);
    if IsUsed(v.arg) && !info.ret then
      (Env(env.args[v.arg.id := info.(idx := env.next)], env.next + 1),
       [D.CopyoutRec(env.next, info.addr, Size(v.arg))])
    else (env, [])
  }

  function CopyoutSteps(env: Env, vs: seq<Visit>): (Env, seq<D.CopyoutRec>)
    decreases |vs|
  {
    if |vs| == 0 then (env, [])
    else
      var (env1, r1) := CopyoutStep(env, vs[0]);
      var (env2, r2) := CopyoutSteps(env1, vs[1..]);
      (env2, r1 + r2)
  }

  predicate CallOk(c: Call) {
    forall i :: 0 <= i < |c.args| ==> Writable(c.args[i])
  }

  predicate Sendable(p: seq<Call>) {
    forall i :: 0 <= i < |p| ==> CallOk(p[i])
  }

  /** A call as it is sent, and what is known after it. */
  function Lower(env: Env, c: Call): (r: (Env, D.ExecCall))
    requires CallOk(c)
    ensures r.1.meta.Some?
  {
    var vs := CallVisits(c);
    var env1 := NoteVisits(env, c, vs);
    var ins := VisitCopyins(env, c, vs) + CsumCopyins(env1, SortByAddr(env1, c.csums));
    var env2 := NoteRet(env1, c);
    var args := ToExecs(env2, c.args);
    var (env3, outs) := CopyoutSteps(env2, vs);
    (env3, D.ExecCall(Some(c.meta), c.props, RetIndex(env1, c), args, ins, outs))
  }

  function LowerAll(env: Env, cs: seq<Call>): (r: (Env, seq<D.ExecCall>))
    requires Sendable(cs)
    ensures |r.1| == |cs| && forall i :: 0 <= i < |cs| ==> r.1[i].meta.Some?
    decreases |cs|
  {
    if |cs| == 0 then (env, [])
    else
      var (env1, c) := Lower(env, cs[0]);
      var (env2, rest) := LowerAll(env1, cs[1..]);
      (env2, [c] + rest)
  }

  const NO_ENV := Env(map[], 0)

  function Sent(p: seq<Call>): (r: seq<D.ExecCall>)
    requires Sendable(p)
    ensures |r| == |p| && forall i :: 0 <= i < |p| ==> r[i].meta.Some?
  {
    LowerAll(NO_ENV, p).1
  }

  function Results(p: seq<Call>): nat
    requires Sendable(p)
  {
    LowerAll(NO_ENV, p).0.next
  }

  // ----- The serializer -----

  class ExecContext {
    const buf: array<Byte>
    var pos: nat
    var eof: bool
    var args: map<nat, ArgInfo>
    var copyoutSeq: nat
    /** Everything written so far, whether or not there was room for it. */
    ghost var emitted: seq<Byte>

    constructor (buffer: array<Byte>)
      ensures Valid() && buf == buffer && emitted == [] && State() == NO_ENV
    {
      buf := buffer;
      pos, eof, args, copyoutSeq := 0, false, map[], 0;
      emitted := [];
    }

    /** What was written is in the buffer unless it does not fit. */
    ghost predicate Valid()
      reads this`pos, this`eof, this`emitted, buf
    {
      && pos <= buf.Length && pos <= |emitted|
      && if eof then |emitted| > buf.Length else pos == |emitted| && buf[..pos] == emitted
    }

    ghost function State(): Env
      reads this`args, this`copyoutSeq
    {
      Env(args, copyoutSeq)
    }

    method Write(v: nat)
      requires Valid()
      modifies this`pos, this`eof, this`emitted, buf
      ensures Valid() && emitted == old(emitted) + F.Le(v, 8)
    {
      hide F.Le;
      emitted := emitted + F.Le(v, 8);
      if buf.Length - pos < 8 {
        eof := true;
        return;
      }
      CopyBytes(F.Le(v, 8), pos);
      pos := pos + 8;
    }

    method CopyBytes(b: seq<Byte>, at: nat)
      requires at + |b| <= buf.Length
      modifies buf
      ensures buf[..at + |b|] == old(buf[..at]) + b
    {
      for i := 0 to |b|
        invariant buf[..at + i] == old(buf[..at]) + b[..i]
      {
        buf[at + i] := b[i];
      }
    }

    method WriteConstArg(size: nat, val: nat, bfOff: nat, bfLen: nat, stride: nat, format: nat)
      requires Valid()
      modifies this`pos, this`eof, this`emitted, buf
      ensures Valid() && emitted == old(emitted) + F.PutArg(ConstOf(size, val, bfOff, bfLen, stride, format), [])
    {
      hide F.Le, F.PackMeta;
      ghost var a, b, c := F.Le(F.ARG_CONST, 8), F.Le(F.PackMeta(size, format, bfOff, bfLen, stride), 8), F.Le(val, 8);
      Write(F.ARG_CONST);
      Write(F.PackMeta(size, format, bfOff, bfLen, stride));
      Write(val);
      assert old(emitted) + a + b + c == old(emitted) + (a + (b + (c + [])));
    }

    method WriteData(data: seq<Byte>, readable: bool)
      requires Valid()
      modifies this`pos, this`eof, this`emitted, buf
      ensures Valid() && emitted == old(emitted) + F.PutArg(F.ExecData(data, readable), [])
    {
      hide F.Le, F.Pad, F.ZeroBytes, Valid;
      var flags := |data| + if readable then F.READABLE else 0;
      ghost var a, b, z := F.Le(F.ARG_DATA, 8), F.Le(flags, 8), F.ZeroBytes(F.Pad(|data|));
      Write(F.ARG_DATA);
      Write(flags);
      WriteBlob(data);
      assert old(emitted) + a + b + (data + z) == old(emitted) + (a + (b + (data + (z + []))));
    }

    /** The data and its padding. */
    method WriteBlob(data: seq<Byte>)
      requires Valid()
      modifies this`pos, this`eof, this`emitted, buf
      ensures Valid() && emitted == old(emitted) + (data + F.ZeroBytes(F.Pad(|data|)))
    {
      hide F.Pad;
      var padded := |data| + F.Pad(|data|);
      ghost var z := F.ZeroBytes(F.Pad(|data|));
      emitted := emitted + (data + z);
      if buf.Length - pos < padded {
        eof := true;
        return;
      }
      CopyBytes(data, pos);
      // eight zero bytes after the data, as far as the buffer goes
      var n := if buf.Length - pos - |data| < 8 then buf.Length - pos - |data| else 8;
      ghost var mid := buf[..pos + |data|];
      CopyBytes(F.ZeroBytes(n), pos + |data|);
      FirstZeros(buf[..pos + |data| + n], mid, n, F.Pad(|data|));
      assert buf[..pos + |data| + n][..pos + padded] == buf[..pos + padded];
      assert !eof ==> mid == old(emitted) + data;
      assert old(emitted) + data + z == old(emitted) + (data + z);
      pos := pos + padded;
    }

    method WriteArg(a: Arg)
      requires Valid() && Writable(a) && !EmptyData(a)
      modifies this`pos, this`eof, this`emitted, buf
      ensures Valid() && emitted == old(emitted) + F.PutArg(ToExec(State(), a), [])
    {
      hide F.PutArg, Valid;
      match a
      case ConstArg(_, _, _, format, bfOff, bfLen, _, _, _, _) =>
        var (val, stride) := Value(a);
        WriteConstArg(UnitSize(a), val, bfOff, bfLen, stride, format);
      case ResultArg(_, _, size, format, dflt, res, opDiv, opAdd, val, _) =>
        if res.None? {
          WriteConstArg(size, val, 0, 0, 0, format);
        } else {
          var info := if res.value in args then args[res.value] else ArgInfo(0, 0, false);
          WriteResult(size, format, info.idx, opDiv, opAdd, dflt);
        }
      case PointerArg(_, _, size, phys, _) =>
        WriteConstArg(size, phys, 0, 0, 0, 0);
      case DataArg(_, _, data, _, readable) =>
        WriteData(data, readable);
      case UnionArg(_, _, _, option) =>
        WriteArg(option);
    }

    method WriteResult(size: nat, format: nat, index: nat, opDiv: nat, opAdd: nat, dflt: nat)
      requires Valid()
      modifies this`pos, this`eof, this`emitted, buf
      ensures Valid() && emitted == old(emitted) + F.PutArg(F.ExecResult(size, format, index, opDiv, opAdd, dflt), [])
    {
      hide F.Le, F.PackMeta, Valid;
      ghost var m := F.PackMeta(size, format, 0, 0, 0);
      ghost var a, b, c, d, e, f :=
        F.Le(F.ARG_RESULT, 8), F.Le(m, 8), F.Le(index, 8), F.Le(opDiv, 8), F.Le(opAdd, 8), F.Le(dflt, 8);
      Write(F.ARG_RESULT);
      Write(F.PackMeta(size, format, 0, 0, 0));
      Write(index);
      Write(opDiv);
      Write(opAdd);
      Write(dflt);
      assert old(emitted) + a + b + c + d + e + f == old(emitted) + (a + (b + (c + (d + (e + (f + []))))));
    }

    /** Notes where an argument in memory lies and stores its value there. */
    method CopyinOne(c: Call, v: Visit)
      requires Valid() && DataSound(v.arg)
      modifies this`pos, this`eof, this`emitted, this`args, buf
      ensures Valid() && State() == NoteVisit(old(State()), c, v)
      ensures emitted == old(emitted) + F.Bytes(D.Copyins(VisitCopyin(State(), v)))
    {
      hide F.Le, F.PutArg, Valid, ToExec, AddrOf;
      if v.base.None? {
        assert old(emitted) + [] == old(emitted);
        return;
      }
      var addr := AddrOf(v);
      if WillBeUsed(c, v.arg) {
        args := args[v.arg.id := ArgInfo(addr, 0, false)];
      }
      if !Stored(v.arg) {
        assert old(emitted) + [] == old(emitted);
        return;
      }
      ghost var e := F.PutArg(ToExec(State(), v.arg), []);
      Write(F.INSTR_COPYIN);
      Write(addr);
      WriteArg(v.arg);
      ghost var r := D.CopyinRec(addr, ToExec(State(), v.arg));
      OneCopyin(r);
      assert old(emitted) + F.Le(F.INSTR_COPYIN, 8) + F.Le(addr, 8) + e
          == old(emitted) + (F.Le(F.INSTR_COPYIN, 8) + (F.Le(addr, 8) + e));
    }

    /** Copyins for an argument and everything below it. */
    method CopyinTree(c: Call, a: Arg, base: Option<nat>, offset: nat)
      requires Valid() && Sound(a)
      modifies this`pos, this`eof, this`emitted, this`args, buf
      ensures Valid() && State() == NoteVisits(old(State()), c, Visits(a, base, offset))
      ensures emitted == old(emitted) + CopyinBytes(old(State()), c, Visits(a, base, offset))
      decreases a, if a.GroupArg? then |a.inner| + 1 else 0
    {
      hide F.PutInstrs, NoteVisit, VisitCopyin, Valid;
      var v := Visit(a, base, offset);
      CopyinOne(c, v);
      ghost var rest := Visits(a, base, offset)[1..];
      CopyinConcat(old(State()), c, [v], rest);
      CopyinSingle(old(State()), c, v);
      ghost var e := emitted;
      assert [v] + rest == Visits(a, base, offset);
      match a
      case GroupArg(_, _, _, _, _) => CopyinInner(c, a, base, offset);
      case PointerArg(_, _, _, phys, Some(p)) => CopyinTree(c, p, Some(phys), 0);
      case UnionArg(_, _, _, option) => CopyinTree(c, option, base, offset);
      case _ => assert e + [] == e;
      assert old(emitted) + (CopyinBytes(old(State()), c, [v]) + CopyinBytes(NoteVisits(old(State()), c, [v]), c, rest))
          == e + CopyinBytes(NoteVisits(old(State()), c, [v]), c, rest);
    }

    method CopyinInner(c: Call, g: Arg, base: Option<nat>, start: nat)
      requires Valid() && g.GroupArg? && Sound(g)
      modifies this`pos, this`eof, this`emitted, this`args, buf
      ensures Valid() && State() == NoteVisits(old(State()), c, InnerVisits(g, 0, base, start, start))
      ensures emitted == old(emitted) + CopyinBytes(old(State()), c, InnerVisits(g, 0, base, start, start))
      decreases g, |g.inner|
    {
      hide F.PutInstrs, Valid, NoteVisit, VisitCopyin, Visits, CopyinBytes, NoteVisits;
      ghost var all := InnerVisits(g, 0, base, start, start);
      var offset: nat := start;
      for i := 0 to |g.inner|
        invariant Valid()
        invariant NoteVisits(State(), c, InnerVisits(g, i, base, start, offset)) == NoteVisits(old(State()), c, all)
        invariant emitted + CopyinBytes(State(), c, InnerVisits(g, i, base, start, offset))
               == old(emitted) + CopyinBytes(old(State()), c, all)
      {
        ghost var env, e := State(), emitted;
        if i == g.overlay {
          offset := start;
        }
        ghost var here := Visits(g.inner[i], base, offset);
        ghost var rest := InnerVisits(g, i + 1, base, start, offset + Size(g.inner[i]));
        CopyinConcat(env, c, here, rest);
        CopyinTree(c, g.inner[i], base, offset);
        offset := offset + Size(g.inner[i]);
        assert e + (CopyinBytes(env, c, here) + CopyinBytes(State(), c, rest))
               == e + CopyinBytes(env, c, here) + CopyinBytes(State(), c, rest);
      }
      NoCopyins(State(), c);
      assert emitted + [] == emitted;
    }

    /** Copyins for all the arguments of a call; its return value is not in memory. */
    method WriteCopyin(c: Call)
      requires Valid() && CallSound(c)
      modifies this`pos, this`eof, this`emitted, this`args, buf
      ensures Valid() && State() == NoteVisits(old(State()), c, CallVisits(c))
      ensures emitted == old(emitted) + CopyinBytes(old(State()), c, CallVisits(c))
    {
      hide F.PutInstrs, Valid, NoteVisit, VisitCopyin, Visits;
      RetNotCopiedIn(State(), c);
      ghost var all := ArgVisits(c.args);
      for i := 0 to |c.args|
        invariant Valid()
        invariant NoteVisits(State(), c, ArgVisits(c.args[i..])) == NoteVisits(old(State()), c, all)
        invariant emitted + CopyinBytes(State(), c, ArgVisits(c.args[i..]))
                  == old(emitted) + CopyinBytes(old(State()), c, all)
      {
        ghost var env, e := State(), emitted;
        ghost var here, rest := Visits(c.args[i], None, 0), ArgVisits(c.args[i + 1..]);
        assert c.args[i..][1..] == c.args[i + 1..];
        CopyinConcat(env, c, here, rest);
        CopyinTree(c, c.args[i], None, 0);
        assert e + (CopyinBytes(env, c, here) + CopyinBytes(State(), c, rest))
               == e + CopyinBytes(env, c, here) + CopyinBytes(State(), c, rest);
      }
      NoCopyins(State(), c);
      assert emitted + [] == emitted;
    }

    method WriteChunks(cs: seq<CsumChunk>)
      requires Valid()
      modifies this`pos, this`eof, this`emitted, buf
      ensures Valid() && emitted == old(emitted) + F.PutChunks(Chunks(State(), cs), [])
    {
      hide F.Le, Valid;
      ghost var all := Chunks(State(), cs);
      assert all[0..] == all;
      for i := 0 to |cs|
        invariant Valid() && emitted + F.PutChunks(all[i..], []) == old(emitted) + F.PutChunks(all, [])
      {
        ghost var e := emitted;
        ghost var r := F.PutChunks(all[i + 1..], []);
        assert all[i..][1..] == all[i + 1..];
        ghost var k := all[i];
        match cs[i]
        case ArgChunk(arg, size) =>
          Write(0);
          Write(if arg in args then args[arg].addr else 0);
          Write(size);
        case ConstChunk(value, size) =>
          Write(1);
          Write(value);
          Write(size);
        assert e + (F.Le(k.kind, 8) + (F.Le(k.value, 8) + (F.Le(k.size, 8) + r)))
            == e + F.Le(k.kind, 8) + F.Le(k.value, 8) + F.Le(k.size, 8) + r;
      }
      assert emitted + [] == emitted;
    }

    method WriteCsumArg(f: CsumField)
      requires Valid()
      modifies this`pos, this`eof, this`emitted, buf
      ensures Valid() && emitted == old(emitted) + F.PutArg(CsumCopyin(State(), f).arg, [])
    {
      hide F.Le, Valid, F.PutChunks, F.PutInstrs;
      ghost var r := F.PutChunks(Chunks(State(), f.chunks), []);
      Write(F.ARG_CSUM);
      Write(f.size);
      Write(F.CSUM_INET);
      Write(|f.chunks|);
      WriteChunks(f.chunks);
      ghost var c, d, e, g := F.Le(F.ARG_CSUM, 8), F.Le(f.size, 8), F.Le(F.CSUM_INET, 8), F.Le(|f.chunks|, 8);
      assert old(emitted) + c + d + e + g + r == old(emitted) + (c + (d + (e + (g + r))));
    }

    method WriteCsum(f: CsumField)
      requires Valid()
      modifies this`pos, this`eof, this`emitted, buf
      ensures Valid() && emitted == old(emitted) + F.Bytes(D.Copyins([CsumCopyin(State(), f)]))
    {
      hide F.Le, Valid, F.PutArg, F.PutInstrs;
      var addr := if f.arg in args then args[f.arg].addr else 0;
      ghost var r := F.PutArg(CsumCopyin(State(), f).arg, []);
      OneCopyin(CsumCopyin(State(), f));
      Write(F.INSTR_COPYIN);
      Write(addr);
      WriteCsumArg(f);
      ghost var a, b := F.Le(F.INSTR_COPYIN, 8), F.Le(addr, 8);
      assert old(emitted) + a + b + r == old(emitted) + (a + (b + r));
    }

    /** Checksum instructions, from the highest address down. */
    method WriteChecksums(c: Call)
      requires Valid()
      modifies this`pos, this`eof, this`emitted, buf
      ensures Valid()
      ensures emitted == old(emitted) + F.Bytes(D.Copyins(CsumCopyins(State(), SortByAddr(State(), c.csums))))
    {
      hide F.PutInstrs, Valid, CsumCopyin;
      var fs := SortByAddr(Env(args, copyoutSeq), c.csums);
      ghost var all := F.Bytes(D.Copyins(CsumCopyins(State(), fs)));
      assert fs[..|fs|] == fs;
      var i := |fs|;
      while i > 0
        invariant 0 <= i <= |fs| && Valid()
        invariant emitted + F.Bytes(D.Copyins(CsumCopyins(State(), fs[..i]))) == old(emitted) + all
      {
        i := i - 1;
        ghost var e := emitted;
        ghost var one, rest := [CsumCopyin(State(), fs[i])], CsumCopyins(State(), fs[..i]);
        assert fs[..i + 1][..i] == fs[..i];
        CopyinsConcat(one, rest);
        WriteCsum(fs[i]);
        assert e + (F.Bytes(D.Copyins(one)) + F.Bytes(D.Copyins(rest))) == emitted + F.Bytes(D.Copyins(rest));
      }
      NoBytes();
      assert emitted + [] == emitted;
    }

    method WriteCallProps(p: Props)
      requires Valid()
      modifies this`pos, this`eof, this`emitted, buf
      ensures Valid() && emitted == old(emitted) + F.Bytes([F.SetProps(p)])
    {
      hide F.Le, Valid, F.PutInstrs;
      BytesOne(F.SetProps(p));
      var b := if p.async then 1 else 0;
      Write(F.INSTR_SETPROPS);
      Write(p.failNth);
      Write(b);
      Write(p.rerun);
      ghost var w, x, y, z := F.Le(F.INSTR_SETPROPS, 8), F.Le(p.failNth, 8), F.Le(b, 8), F.Le(p.rerun, 8);
      assert old(emitted) + w + x + y + z == old(emitted) + (w + (x + (y + (z + []))));
    }

    /** The call itself, giving its return value a result index if something uses it. */
    method WriteCall(c: Call)
      requires Valid() && CallSound(c)
      modifies this`pos, this`eof, this`emitted, this`args, this`copyoutSeq, buf
      ensures Valid() && State() == NoteRet(old(State()), c)
      ensures emitted == old(emitted) + F.Bytes([F.Call(c.meta, RetIndex(old(State()), c), ToExecs(State(), c.args))])
    {
      hide F.Le, Valid, F.PutInstrs, F.PutArgs;
      var ret := F.NO_COPYOUT;
      Write(c.meta);
      if c.ret.Some? && IsUsed(c.ret.value) {
        ret := copyoutSeq;
        args := args[c.ret.value.id := ArgInfo(0, copyoutSeq, true)];
        Write(copyoutSeq);
        copyoutSeq := copyoutSeq + 1;
      } else {
        Write(F.NO_COPYOUT);
      }
      Write(|c.args|);
      WriteArgs(c.args);
      BytesOne(F.Call(c.meta, ret, ToExecs(State(), c.args)));
      ghost var a, b, d, r := F.Le(c.meta, 8), F.Le(ret, 8), F.Le(|c.args|, 8), F.PutArgs(ToExecs(State(), c.args), []);
      assert old(emitted) + a + b + d + r == old(emitted) + (a + (b + (d + r)));
    }

    method WriteArgs(xs: seq<Arg>)
      requires Valid() && forall i :: 0 <= i < |xs| ==> Writable(xs[i]) && !EmptyData(xs[i])
      modifies this`pos, this`eof, this`emitted, buf
      ensures Valid() && emitted == old(emitted) + F.PutArgs(ToExecs(State(), xs), [])
    {
      hide F.PutArg, Valid, ToExec, Writable;
      assert xs[0..] == xs;
      for i := 0 to |xs|
        invariant Valid() && emitted + F.PutArgs(ToExecs(State(), xs[i..]), [])
                  == old(emitted) + F.PutArgs(ToExecs(State(), xs), [])
      {
        ghost var e := emitted;
        ghost var r := F.PutArgs(ToExecs(State(), xs[i + 1..]), []);
        assert xs[i..][1..] == xs[i + 1..];
        ghost var x := ToExec(State(), xs[i]);
        assert ToExecs(State(), xs[i..])[1..] == ToExecs(State(), xs[i + 1..]);
        F.ArgApp(x, r);
        WriteArg(xs[i]);
        assert e + (F.PutArg(x, []) + r) == e + F.PutArg(x, []) + r;
      }
      assert emitted + [] == emitted;
    }

    /** A used result gets an index and an instruction that reads it back, unless it is the return value. */
    method CopyoutOne(v: Visit)
      requires Valid()
      modifies this`pos, this`eof, this`emitted, this`args, this`copyoutSeq, buf
      ensures Valid() && State() == CopyoutStep(old(State()), v).0
      ensures emitted == old(emitted) + F.Bytes(D.Copyouts(CopyoutStep(old(State()), v).1))
    {
      hide F.Le, Valid, F.PutInstrs;
      NoBytesOut();
      var info := if v.arg.id in args then args[v.arg.id] else ArgInfo(0, 0, false);
      if !IsUsed(v.arg) || info.ret {
        assert emitted + [] == emitted;
        return;
      }
      var index := copyoutSeq;
      copyoutSeq := copyoutSeq + 1;
      args := args[v.arg.id := info.(idx := index)];
      Write(F.INSTR_COPYOUT);
      Write(index);
      Write(info.addr);
      Write(Size(v.arg));
      OneCopyout(D.CopyoutRec(index, info.addr, Size(v.arg)));
      ghost var w, x, y, z := F.Le(F.INSTR_COPYOUT, 8), F.Le(index, 8), F.Le(info.addr, 8), F.Le(Size(v.arg), 8);
      assert old(emitted) + w + x + y + z == old(emitted) + (w + (x + (y + (z + []))));
    }

    /** Copyouts for an argument and everything below it. */
    method CopyoutTree(a: Arg, base: Option<nat>, offset: nat)
      requires Valid()
      modifies this`pos, this`eof, this`emitted, this`args, this`copyoutSeq, buf
      ensures Valid() && State() == CopyoutSteps(old(State()), Visits(a, base, offset)).0
      ensures emitted == old(emitted) + CopyoutBytes(old(State()), Visits(a, base, offset))
      decreases a, if a.GroupArg? then |a.inner| + 1 else 0
    {
      hide F.PutInstrs, CopyoutStep, Valid;
      var v := Visit(a, base, offset);
      CopyoutOne(v);
      ghost var env := State();
      ghost var rest := Visits(a, base, offset)[1..];
      CopyoutConcat(old(State()), [v], rest);
      CopyoutSingle(old(State()), v);
      ghost var e := emitted;
      assert [v] + rest == Visits(a, base, offset);
      NoBytesOut();
      match a
      case GroupArg(_, _, _, _, _) => CopyoutInner(a, base, offset);
      case PointerArg(_, _, _, phys, Some(p)) => CopyoutTree(p, Some(phys), 0);
      case UnionArg(_, _, _, option) => CopyoutTree(option, base, offset);
      case _ => assert e + [] == e;
      assert old(emitted) + (CopyoutBytes(old(State()), [v]) + CopyoutBytes(env, rest)) == e + CopyoutBytes(env, rest);
    }

    method CopyoutInner(g: Arg, base: Option<nat>, start: nat)
      requires Valid() && g.GroupArg?
      modifies this`pos, this`eof, this`emitted, this`args, this`copyoutSeq, buf
      ensures Valid() && State() == CopyoutSteps(old(State()), InnerVisits(g, 0, base, start, start)).0
      ensures emitted == old(emitted) + CopyoutBytes(old(State()), InnerVisits(g, 0, base, start, start))
      decreases g, |g.inner|
    {
      hide F.PutInstrs, Valid, CopyoutStep;
      ghost var all := InnerVisits(g, 0, base, start, start);
      var offset: nat := start;
      for i := 0 to |g.inner|
        invariant Valid()
        invariant CopyoutSteps(State(), InnerVisits(g, i, base, start, offset)).0 == CopyoutSteps(old(State()), all).0
        invariant emitted + CopyoutBytes(State(), InnerVisits(g, i, base, start, offset))
                  == old(emitted) + CopyoutBytes(old(State()), all)
      {
        ghost var env, e := State(), emitted;
        if i == g.overlay {
          offset := start;
        }
        ghost var here := Visits(g.inner[i], base, offset);
        ghost var rest := InnerVisits(g, i + 1, base, start, offset + Size(g.inner[i]));
        CopyoutConcat(env, here, rest);
        CopyoutTree(g.inner[i], base, offset);
        offset := offset + Size(g.inner[i]);
        assert e + (CopyoutBytes(env, here) + CopyoutBytes(State(), rest)) == emitted + CopyoutBytes(State(), rest);
      }
      NoBytesOut();
      assert emitted + [] == emitted;
    }

    method WriteCopyout(c: Call)
      requires Valid()
      modifies this`pos, this`eof, this`emitted, this`args, this`copyoutSeq, buf
      ensures Valid() && State() == CopyoutSteps(old(State()), CallVisits(c)).0
      ensures emitted == old(emitted) + CopyoutBytes(old(State()), CallVisits(c))
    {
      hide F.PutInstrs, Valid, CopyoutStep, Visits;
      ghost var head := CallVisits(c)[..|CallVisits(c)| - |ArgVisits(c.args)|];
      ghost var all := ArgVisits(c.args);
      assert CallVisits(c) == head + all;
      CopyoutConcat(State(), head, all);
      NoBytesOut();
      if c.ret.Some? {
        CopyoutSingle(State(), Visit(c.ret.value, None, 0));
        CopyoutOne(Visit(c.ret.value, None, 0));
      } else {
        assert emitted + [] == emitted;
      }
      ghost var env0, e0 := State(), emitted;
      for i := 0 to |c.args|
        invariant Valid()
        invariant CopyoutSteps(State(), ArgVisits(c.args[i..])).0 == CopyoutSteps(env0, all).0
        invariant emitted + CopyoutBytes(State(), ArgVisits(c.args[i..])) == e0 + CopyoutBytes(env0, all)
      {
        ghost var env, e := State(), emitted;
        ghost var here, rest := Visits(c.args[i], None, 0), ArgVisits(c.args[i + 1..]);
        assert c.args[i..][1..] == c.args[i + 1..];
        CopyoutConcat(env, here, rest);
        CopyoutTree(c.args[i], None, 0);
        assert e + (CopyoutBytes(env, here) + CopyoutBytes(State(), rest)) == emitted + CopyoutBytes(State(), rest);
      }
      assert emitted + [] == emitted;
      assert old(emitted) + (CopyoutBytes(old(State()), head) + CopyoutBytes(env0, all))
             == e0 + CopyoutBytes(env0, all);
    }

    method SerializeCall(c: Call)
      requires Valid() && CallSound(c)
      modifies this`pos, this`eof, this`emitted, this`args, this`copyoutSeq, buf
      ensures Valid() && State() == Lower(old(State()), c).0
      ensures emitted == old(emitted) + F.Bytes(D.Instrs(Lower(old(State()), c).1))
    {
      hide F.PutInstrs, Valid, NoteVisits, VisitCopyins, CsumCopyins, SortByAddr, NoteRet, RetIndex, ToExecs;
      hide CopyoutSteps;
      ghost var env := State();
      WriteCopyin(c);
      ghost var a := CopyinBytes(env, c, CallVisits(c));
      ghost var env1 := State();
      WriteChecksums(c);
      ghost var csums := CsumCopyins(env1, SortByAddr(env1, c.csums));
      ghost var b := F.Bytes(D.Copyins(csums));
      ghost var d := [];
      if c.props != NO_PROPS {
        WriteCallProps(c.props);
        d := F.Bytes([F.SetProps(c.props)]);
      } else {
        NoBytes();
        assert emitted + [] == emitted;
      }
      WriteCall(c);
      ghost var env2 := State();
      ghost var e := F.Bytes([F.Call(c.meta, RetIndex(env1, c), ToExecs(env2, c.args))]);
      WriteCopyout(c);
      ghost var f := CopyoutBytes(env2, CallVisits(c));
      CopyinsConcat(VisitCopyins(env, c, CallVisits(c)), csums);
      CallBytes(Lower(env, c).1);
      assert old(emitted) + a + b + d + e + f == old(emitted) + ((a + b) + (d + (e + f)));
    }
  }

  function CopyoutBytes(env: Env, vs: seq<Visit>): seq<Byte> {
    F.Bytes(D.Copyouts(CopyoutSteps(env, vs).1))
  }

  lemma {:induction false} NoBytesOut()
    ensures F.Bytes(D.Copyouts([])) == [] && forall env :: CopyoutBytes(env, []) == []
  {
  }

  lemma {:induction false} OneCopyout(r: D.CopyoutRec)
    ensures F.Bytes(D.Copyouts([r]))
            == F.Le(F.INSTR_COPYOUT, 8) + (F.Le(r.index, 8) + (F.Le(r.addr, 8) + (F.Le(r.size, 8) + [])))
  {
    hide F.Le;
    assert D.Copyouts([r]) == [F.Copyout(r.index, r.addr, r.size)];
    BytesOne(F.Copyout(r.index, r.addr, r.size));
  }

  lemma {:induction false} CopyoutSingle(env: Env, v: Visit)
    ensures CopyoutSteps(env, [v]) == CopyoutStep(env, v)
  {
    hide CopyoutStep;
    assert [v][1..] == [];
    assert CopyoutStep(env, v).1 + [] == CopyoutStep(env, v).1;
  }

  lemma {:induction false} StepsConcat(env: Env, a: seq<Visit>, b: seq<Visit>)
    ensures CopyoutSteps(env, a + b).0 == CopyoutSteps(CopyoutSteps(env, a).0, b).0
    ensures CopyoutSteps(env, a + b).1 == CopyoutSteps(env, a).1 + CopyoutSteps(CopyoutSteps(env, a).0, b).1
    decreases |a|
  {
    hide CopyoutStep;
    if |a| == 0 {
      assert a + b == b;
    } else {
      assert (a + b)[1..] == a[1..] + b;
      StepsConcat(CopyoutStep(env, a[0]).0, a[1..], b);
    }
  }

  lemma {:induction false} CopyoutsConcat(x: seq<D.CopyoutRec>, y: seq<D.CopyoutRec>)
    ensures F.Bytes(D.Copyouts(x + y)) == F.Bytes(D.Copyouts(x)) + F.Bytes(D.Copyouts(y))
  {
    hide F.Bytes;
    assert D.Copyouts(x + y) == D.Copyouts(x) + D.Copyouts(y);
    F.BytesConcat(D.Copyouts(x), D.Copyouts(y));
  }

  lemma {:induction false} CopyoutConcat(env: Env, a: seq<Visit>, b: seq<Visit>)
    ensures CopyoutSteps(env, a + b).0 == CopyoutSteps(CopyoutSteps(env, a).0, b).0
    ensures CopyoutBytes(env, a + b) == CopyoutBytes(env, a) + CopyoutBytes(CopyoutSteps(env, a).0, b)
  {
    hide CopyoutSteps, F.Bytes, D.Copyouts;
    StepsConcat(env, a, b);
    CopyoutsConcat(CopyoutSteps(env, a).1, CopyoutSteps(CopyoutSteps(env, a).0, b).1);
  }

  lemma {:induction false} CallBytes(c: D.ExecCall)
    requires c.meta.Some?
    ensures F.Bytes(D.Instrs(c)) == F.Bytes(D.Copyins(c.copyin))
            + ((if c.props == NO_PROPS then [] else F.Bytes([F.SetProps(c.props)]))
               + (F.Bytes([F.Call(c.meta.value, c.index, c.args)]) + F.Bytes(D.Copyouts(c.copyout))))
  {
    hide F.Bytes, D.Copyins, D.Copyouts;
    var props := if c.props == NO_PROPS then [] else [F.SetProps(c.props)];
    var call := [F.Call(c.meta.value, c.index, c.args)];
    var outs := D.Copyouts(c.copyout);
    F.BytesConcat(D.Copyins(c.copyin), props + (call + outs));
    F.BytesConcat(props, call + outs);
    F.BytesConcat(call, outs);
    NoBytes();
  }

  /** The arguments of a call take values, and input data is what its bytes are. */
  predicate CallSound(c: Call) {
    && (forall i :: 0 <= i < |c.args| ==> Writable(c.args[i]) && !EmptyData(c.args[i]))
    && (forall i :: 0 <= i < |c.args| ==> Sound(c.args[i]))
  }

  lemma {:induction false} NoBytes()
    ensures F.Bytes(D.Copyins([])) == [] && F.Bytes([]) == []
  {
  }

  lemma {:induction false} RetNotCopiedIn(env: Env, c: Call)
    ensures NoteVisits(env, c, CallVisits(c)) == NoteVisits(env, c, ArgVisits(c.args))
    ensures VisitCopyins(env, c, CallVisits(c)) == VisitCopyins(env, c, ArgVisits(c.args))
  {
    var vs := ArgVisits(c.args);
    if c.ret.Some? {
      var v := Visit(c.ret.value, None, 0);
      assert CallVisits(c)[1..] == vs;
      assert NoteVisit(env, c, v) == env && VisitCopyin(env, v) == [];
    } else {
      assert CallVisits(c) == vs;
    }
  }

  function CopyinBytes(env: Env, c: Call, vs: seq<Visit>): seq<Byte> {
    F.Bytes(D.Copyins(VisitCopyins(env, c, vs)))
  }

  lemma {:induction false} OneCopyin(r: D.CopyinRec)
    ensures F.Bytes(D.Copyins([r])) == F.Le(F.INSTR_COPYIN, 8) + (F.Le(r.addr, 8) + F.PutArg(r.arg, []))
  {
    hide F.Le, F.PutArg;
    assert D.Copyins([r]) == [F.Copyin(r.addr, r.arg)];
    BytesOne(F.Copyin(r.addr, r.arg));
  }

  lemma {:induction false} BytesOne(i: F.Instr)
    ensures F.Bytes([i]) == F.PutInstr(i, [])
  {
    hide F.PutInstr;
    assert F.PutInstrs([i][1..], []) == [];
  }

  lemma {:induction false} NoCopyins(env: Env, c: Call)
    ensures CopyinBytes(env, c, []) == []
    ensures NoteVisits(env, c, []) == env
  {
  }

  lemma {:induction false} CopyinsConcat(a: seq<D.CopyinRec>, b: seq<D.CopyinRec>)
    ensures F.Bytes(D.Copyins(a + b)) == F.Bytes(D.Copyins(a)) + F.Bytes(D.Copyins(b))
  {
    hide F.Bytes;
    assert D.Copyins(a + b) == D.Copyins(a) + D.Copyins(b);
    F.BytesConcat(D.Copyins(a), D.Copyins(b));
  }

  lemma {:induction false} CopyinSingle(env: Env, c: Call, v: Visit)
    ensures NoteVisits(env, c, [v]) == NoteVisit(env, c, v)
    ensures VisitCopyins(env, c, [v]) == VisitCopyin(NoteVisit(env, c, v), v)
  {
    hide NoteVisit, VisitCopyin;
    assert [v][1..] == [];
  }

  lemma {:induction false} VisitsConcat(env: Env, c: Call, a: seq<Visit>, b: seq<Visit>)
    ensures NoteVisits(env, c, a + b) == NoteVisits(NoteVisits(env, c, a), c, b)
    ensures VisitCopyins(env, c, a + b) == VisitCopyins(env, c, a) + VisitCopyins(NoteVisits(env, c, a), c, b)
    decreases |a|
  {
    hide NoteVisit, VisitCopyin;
    if |a| == 0 {
      assert a + b == b;
    } else {
      assert (a + b)[1..] == a[1..] + b;
      VisitsConcat(NoteVisit(env, c, a[0]), c, a[1..], b);
    }
  }

  lemma {:induction false} CopyinConcat(env: Env, c: Call, a: seq<Visit>, b: seq<Visit>)
    ensures NoteVisits(env, c, a + b) == NoteVisits(NoteVisits(env, c, a), c, b)
    ensures CopyinBytes(env, c, a + b) == CopyinBytes(env, c, a) + CopyinBytes(NoteVisits(env, c, a), c, b)
  {
    VisitsConcat(env, c, a, b);
    CopyinsConcat(VisitCopyins(env, c, a), VisitCopyins(NoteVisits(env, c, a), c, b));
  }

  /** Input data has no length beyond its bytes. */
  predicate DataSound(a: Arg) {
    a.DataArg? && a.dir != DirOut ==> a.outSize == 0
  }

  predicate Sound(a: Arg) {
    && DataSound(a)
    && match a
       case GroupArg(_, _, _, inner, _) => forall i :: 0 <= i < |inner| ==> Sound(inner[i])
       case PointerArg(_, _, _, _, Some(p)) => Sound(p)
       case UnionArg(_, _, _, option) => Sound(option)
       case _ => true
  }

  lemma {:induction false} FirstZeros(b: seq<Byte>, mid: seq<Byte>, n: nat, k: nat)
    requires b == mid + F.ZeroBytes(n) && k <= n
    ensures b[..|mid| + k] == mid + F.ZeroBytes(k)
  {
  }

  /** Data that writes nothing at all. */
  predicate EmptyData(a: Arg) {
    match a
    case DataArg(_, _, data, _, _) => |data| == 0
    case UnionArg(_, _, _, option) => EmptyData(option)
    case _ => false
  }

  lemma {:induction false} AllBytesStep(cs: seq<D.ExecCall>)
    requires |cs| > 0 && forall i :: 0 <= i < |cs| ==> cs[i].meta.Some?
    ensures F.Bytes(D.AllInstrs(cs)) == F.Bytes(D.Instrs(cs[0])) + F.Bytes(D.AllInstrs(cs[1..]))
  {
    hide F.Bytes, D.Instrs;
    F.BytesConcat(D.Instrs(cs[0]), D.AllInstrs(cs[1..]));
  }

  lemma {:induction false} EncodeIsBytes(cs: seq<D.ExecCall>)
    requires forall i :: 0 <= i < |cs| ==> cs[i].meta.Some?
    ensures D.Encode(cs) == F.Bytes(D.AllInstrs(cs)) + F.Le(F.INSTR_EOF, 8)
  {
    hide F.Le, D.AllInstrs;
    var code := D.AllInstrs(cs);
    F.PrintEnds(code, []);
    F.InstrsApp(code, F.Put(F.INSTR_EOF, []));
    assert F.Put(F.INSTR_EOF, []) == F.Le(F.INSTR_EOF, 8);
  }

  /** Serializes a program: it succeeds exactly when the encoding fits the buffer and
      the results fit the executor's table, and then the buffer starts with the encoding. */
  method SerializeForExec(p: seq<Call>, buffer: array<Byte>) returns (ok: bool, n: nat)
    requires Sendable(p) && forall i :: 0 <= i < |p| ==> CallSound(p[i])
    modifies buffer
    ensures ok <==> |D.Encode(Sent(p))| <= buffer.Length && Results(p) <= MAX_COMMANDS
    ensures ok ==> n == |D.Encode(Sent(p))| && buffer[..n] == D.Encode(Sent(p))
  {
    hide F.PutInstrs, F.Le, Lower, CallSound, CallOk, D.Instrs, D.Encode;
    var w := new ExecContext(buffer);
    ghost var all := F.Bytes(D.AllInstrs(Sent(p)));
    assert p[0..] == p;
    for i := 0 to |p|
      invariant w.Valid() && w.buf == buffer && fresh(w)
      invariant LowerAll(w.State(), p[i..]).0 == LowerAll(NO_ENV, p).0
      invariant w.emitted + F.Bytes(D.AllInstrs(LowerAll(w.State(), p[i..]).1)) == all
    {
      ghost var e, rest := w.emitted, LowerAll(w.State(), p[i..]).1;
      assert p[i..][1..] == p[i + 1..];
      AllBytesStep(rest);
      assert rest[1..] == LowerAll(Lower(w.State(), p[i]).0, p[i + 1..]).1;
      w.SerializeCall(p[i]);
      assert e + (F.Bytes(D.Instrs(rest[0])) + F.Bytes(D.AllInstrs(rest[1..])))
             == w.emitted + F.Bytes(D.AllInstrs(rest[1..]));
    }
    NoBytes();
    assert w.emitted + [] == w.emitted;
    EncodeIsBytes(Sent(p));
    w.Write(F.INSTR_EOF);
    if w.eof || w.copyoutSeq > MAX_COMMANDS {
      return false, 0;
    }
    return true, w.pos;
  }
}
