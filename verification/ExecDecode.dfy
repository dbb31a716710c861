/** The decoder of the exec format: it groups the instructions it reads into
    calls and collects the result variables they use. */
module ExecDecode {
  import opened Bits
  import opened ExecFormat
  import opened Common

  datatype CopyinRec = CopyinRec(addr: nat, arg: ExecArg)
  datatype CopyoutRec = CopyoutRec(index: nat, addr: nat, size: nat)

  datatype ExecCall = ExecCall(meta: Option<nat>, props: Props, index: nat, args: seq<ExecArg>,
                               copyin: seq<CopyinRec>, copyout: seq<CopyoutRec>)

  const EMPTY_CALL := ExecCall(None, NO_PROPS, 0, [], [], [])

  // ----- What decoding an instruction sequence means -----

  datatype Dec = Dec(call: ExecCall, calls: seq<ExecCall>, numVars: nat, vars: seq<nat>)

  const START := Dec(EMPTY_CALL, [], 0, [])

  /** Reading a result argument makes room for its variable and stores its default. */
  function NoteVar(vars: seq<nat>, a: ExecArg): (r: seq<nat>)
    ensures |r| >= |vars|
  {
    if a.ExecResult? then
      var grown := if |vars| <= a.index then vars + seq(a.index + 1 - |vars|, i => 0) else vars;
      grown[a.index := a.dflt]
    else vars
  }

  function NoteVars(vars: seq<nat>, args: seq<ExecArg>): (r: seq<nat>)
    ensures |r| >= |vars|
    decreases |args|
  {
    if |args| == 0 then vars else NoteVars(NoteVar(vars, args[0]), args[1..])
  }

  /** The number of variables once index is one of them. */
  function Raise(n: nat, index: nat): nat {
    if n < (index + 1) % W64 then (index + 1) % W64 else n
  }

  function RaiseAll(n: nat, cs: seq<CopyoutRec>): nat
    decreases |cs|
  {
    if |cs| == 0 then n else RaiseAll(Raise(n, cs[0].index), cs[1..])
  }

  function CallVars(n: nat, c: ExecCall): nat {
    RaiseAll(if c.index != NO_COPYOUT then Raise(n, c.index) else n, c.copyout)
  }

  function Commit(st: Dec): Dec {
    if st.call.meta.None? then st
    else Dec(EMPTY_CALL, st.calls + [st.call], CallVars(st.numVars, st.call), st.vars)
  }

  function Step(st: Dec, i: Instr): Dec {
    match i
    case Copyin(addr, arg) =>
      var st := Commit(st);
      st.(call := st.call.(copyin := st.call.copyin + [CopyinRec(addr, arg)]), vars := NoteVar(st.vars, arg))
    case Copyout(index, addr, size) =>
      st.(call := st.call.(copyout := st.call.copyout + [CopyoutRec(index, addr, size)]))
    case SetProps(p) =>
      var st := Commit(st);
      st.(call := st.call.(props := Props(p.failNth, st.call.props.async || p.async, p.rerun)))
    case Call(id, ret, args) =>
      var st := Commit(st);
      st.(call := st.call.(meta := Some(id), index := ret, args := st.call.args + args),
          vars := NoteVars(st.vars, args))
  }

  function Run(st: Dec, code: seq<Instr>): Dec
    decreases |code|
  {
    if |code| == 0 then st else Run(Step(st, code[0]), code[1..])
  }

  datatype Decoded = Ok(calls: seq<ExecCall>, vars: seq<nat>) | BadStream | BadVars

  function Finish(st: Dec): Decoded {
    var st := Commit(st);
    if |st.vars| != st.numVars then BadVars else Ok(st.calls, st.vars)
  }

  /** Decoding for a target with n system calls. */
  function Decode(d: seq<Byte>, n: nat): Decoded {
    match Parse(d, n)
    case Bad => BadStream
    case Got(code, _) => Finish(Run(START, code))
  }

  // ----- The calls a program is sent as -----

  function Copyins(cs: seq<CopyinRec>): (r: seq<Instr>)
    ensures |r| == |cs|
  {
    seq(|cs|, i requires 0 <= i < |cs| => Copyin(cs[i].addr, cs[i].arg))
  }

  function Copyouts(cs: seq<CopyoutRec>): (r: seq<Instr>)
    ensures |r| == |cs|
  {
    seq(|cs|, i requires 0 <= i < |cs| => Copyout(cs[i].index, cs[i].addr, cs[i].size))
  }

  /** Copyins, then non-default properties, then the call, then its copyouts. */
  function Instrs(c: ExecCall): seq<Instr>
    requires c.meta.Some?
  {
    Copyins(c.copyin) + ((if c.props == NO_PROPS then [] else [SetProps(c.props)])
                         + ([Call(c.meta.value, c.index, c.args)] + Copyouts(c.copyout)))
  }

  function AllInstrs(cs: seq<ExecCall>): seq<Instr>
    requires forall i :: 0 <= i < |cs| ==> cs[i].meta.Some?
  {
    if |cs| == 0 then [] else Instrs(cs[0]) + AllInstrs(cs[1..])
  }

  /** The arguments of a call in the order they are read. */
  function ArgsOf(c: ExecCall): seq<ExecArg> {
    CopyinArgs(c.copyin) + c.args
  }

  function CopyinArgs(cs: seq<CopyinRec>): seq<ExecArg> {
    seq(|cs|, i requires 0 <= i < |cs| => cs[i].arg)
  }

  function VarsOf(vars: seq<nat>, cs: seq<ExecCall>): seq<nat>
    decreases |cs|
  {
    if |cs| == 0 then vars else VarsOf(NoteVars(vars, ArgsOf(cs[0])), cs[1..])
  }

  function NumVarsOf(n: nat, cs: seq<ExecCall>): nat
    decreases |cs|
  {
    if |cs| == 0 then n else NumVarsOf(CallVars(n, cs[0]), cs[1..])
  }

  // ----- Running the instructions of a call builds the call -----

  lemma {:induction false} RunConcat(st: Dec, a: seq<Instr>, b: seq<Instr>)
    ensures Run(st, a + b) == Run(Run(st, a), b)
    decreases |a|
  {
    hide Step;
    if |a| == 0 {
      assert a + b == b;
    } else {
      assert (a + b)[1..] == a[1..] + b;
      RunConcat(Step(st, a[0]), a[1..], b);
    }
  }

  lemma {:induction false} NoteVarsConcat(vars: seq<nat>, a: seq<ExecArg>, b: seq<ExecArg>)
    ensures NoteVars(vars, a + b) == NoteVars(NoteVars(vars, a), b)
    decreases |a|
  {
    hide NoteVar;
    if |a| == 0 {
      assert a + b == b;
    } else {
      assert (a + b)[1..] == a[1..] + b;
      NoteVarsConcat(NoteVar(vars, a[0]), a[1..], b);
    }
  }

  lemma {:induction false} RunCopyins(st: Dec, cs: seq<CopyinRec>)
    requires st.call.meta.None?
    ensures Run(st, Copyins(cs))
            == st.(call := st.call.(copyin := st.call.copyin + cs), vars := NoteVars(st.vars, CopyinArgs(cs)))
    decreases |cs|
  {
    hide NoteVar;
    if |cs| == 0 {
      assert st.call.copyin + cs == st.call.copyin;
    } else {
      var st' := Step(st, Copyin(cs[0].addr, cs[0].arg));
      RunCopyins(st', cs[1..]);
      assert Copyins(cs)[1..] == Copyins(cs[1..]);
      assert CopyinArgs(cs)[1..] == CopyinArgs(cs[1..]);
      assert cs[0] == CopyinRec(cs[0].addr, cs[0].arg);
      assert st.call.copyin + [cs[0]] + cs[1..] == st.call.copyin + cs;
    }
  }

  lemma {:induction false} RunCopyouts(st: Dec, cs: seq<CopyoutRec>)
    ensures Run(st, Copyouts(cs)) == st.(call := st.call.(copyout := st.call.copyout + cs))
    decreases |cs|
  {
    if |cs| == 0 {
      assert st.call.copyout + cs == st.call.copyout;
    } else {
      var st' := Step(st, Copyout(cs[0].index, cs[0].addr, cs[0].size));
      RunCopyouts(st', cs[1..]);
      assert Copyouts(cs)[1..] == Copyouts(cs[1..]);
      assert cs[0] == CopyoutRec(cs[0].index, cs[0].addr, cs[0].size);
      assert st.call.copyout + [cs[0]] + cs[1..] == st.call.copyout + cs;
    }
  }

  /** The instructions of c commit what was pending and leave c pending. */
  lemma {:induction false} RunCall(st: Dec, c: ExecCall)
    requires c.meta.Some? && (st.call.meta.Some? || st.call == EMPTY_CALL)
    ensures Run(st, Instrs(c)) == Commit(st).(call := c, vars := NoteVars(st.vars, ArgsOf(c)))
  {
    RunFresh(Commit(st), c);
    RunCommitted(st, Instrs(c));
  }

  /** Instructions of a call begin with one that commits. */
  lemma {:induction false} RunCommitted(st: Dec, code: seq<Instr>)
    requires |code| > 0 && !code[0].Copyout?
    ensures Run(st, code) == Run(Commit(st), code)
  {
    assert Commit(Commit(st)) == Commit(st);
  }

  lemma {:induction false} RunFresh(st: Dec, c: ExecCall)
    requires c.meta.Some? && st.call == EMPTY_CALL
    ensures Run(st, Instrs(c)) == st.(call := c, vars := NoteVars(st.vars, ArgsOf(c)))
  {
    hide NoteVar, NoteVars, Copyins, Copyouts;
    assert c.meta == Some(c.meta.value);
    var props := if c.props == NO_PROPS then [] else [SetProps(c.props)];
    var call := [Call(c.meta.value, c.index, c.args)];
    var outs := Copyouts(c.copyout);
    RunConcat(st, Copyins(c.copyin), props + (call + outs));
    RunCopyins(st, c.copyin);
    var st1 := Run(st, Copyins(c.copyin));
    assert st1.call == EMPTY_CALL.(copyin := c.copyin) by { assert [] + c.copyin == c.copyin; }
    RunConcat(st1, props, call + outs);
    var st2 := Run(st1, props);
    assert st2 == st1.(call := st1.call.(props := c.props)) by { RunOne(st1, c.props); }
    RunConcat(st2, call, outs);
    var st3 := Run(st2, call);
    assert [] + c.args == c.args;
    assert st3 == Step(st2, call[0]) by { assert call[1..] == []; }
    RunCopyouts(st3, c.copyout);
    assert [] + c.copyout == c.copyout;
    NoteVarsConcat(st.vars, CopyinArgs(c.copyin), c.args);
  }

  lemma {:induction false} RunOne(st: Dec, p: Props)
    requires st.call.meta.None? && st.call.props == NO_PROPS
    ensures Run(st, if p == NO_PROPS then [] else [SetProps(p)]) == st.(call := st.call.(props := p))
  {
    if p != NO_PROPS {
      assert [SetProps(p)][1..] == [];
    }
  }

  /** Decoding the instructions of a list of calls gives the list back, with the
      variables its arguments use and the number its results take up. */
  lemma {:induction false} RunCalls(st: Dec, cs: seq<ExecCall>)
    requires forall i :: 0 <= i < |cs| ==> cs[i].meta.Some?
    requires st.call.meta.Some? || st.call == EMPTY_CALL
    ensures Commit(Run(st, AllInstrs(cs)))
            == Commit(st).(calls := Commit(st).calls + cs, numVars := NumVarsOf(Commit(st).numVars, cs),
                          vars := VarsOf(st.vars, cs))
    decreases |cs|
  {
    hide Instrs, CallVars, NoteVars, ArgsOf;
    if |cs| == 0 {
      assert Commit(st).calls + cs == Commit(st).calls;
    } else {
      var st' := Run(st, Instrs(cs[0]));
      RunConcat(st, Instrs(cs[0]), AllInstrs(cs[1..]));
      RunCall(st, cs[0]);
      RunCalls(st', cs[1..]);
      assert Commit(st).calls + [cs[0]] + cs[1..] == Commit(st).calls + cs;
    }
  }

  predicate CallFits(c: ExecCall, n: nat)
    requires c.meta.Some?
  {
    && Fits(Call(c.meta.value, c.index, c.args), n) && Fits(SetProps(c.props), n)
    && (forall i :: 0 <= i < |c.copyin| ==> Fits(Copyin(c.copyin[i].addr, c.copyin[i].arg), n))
    && (forall i :: 0 <= i < |c.copyout| ==> Fits(Copyout(c.copyout[i].index, c.copyout[i].addr, c.copyout[i].size), n))
  }

  /** The bytes a list of calls is sent as. */
  function Encode(cs: seq<ExecCall>): seq<Byte>
    requires forall i :: 0 <= i < |cs| ==> cs[i].meta.Some?
  {
    Print(AllInstrs(cs), [])
  }

  lemma {:induction false} AllFit(cs: seq<ExecCall>, n: nat)
    requires forall i :: 0 <= i < |cs| ==> cs[i].meta.Some? && CallFits(cs[i], n)
    ensures forall k :: 0 <= k < |AllInstrs(cs)| ==> Fits(AllInstrs(cs)[k], n)
  {
    hide Fits;
    if |cs| > 0 {
      assert CallFits(cs[0], n);
      assert forall k :: 0 <= k < |Instrs(cs[0])| ==> Fits(Instrs(cs[0])[k], n);
      AllFit(cs[1..], n);
    }
  }

  /** Calls that fit the format come back as they were sent, in order, with the same
      properties, arguments, copyins and copyouts, exactly when the variables used reach
      as far as the results assigned; the only other outcome is the variable mismatch. */
  lemma {:induction false} DecodeEncode(cs: seq<ExecCall>, n: nat)
    requires n <= INSTR_SETPROPS && forall i :: 0 <= i < |cs| ==> cs[i].meta.Some? && CallFits(cs[i], n)
    ensures Decode(Encode(cs), n)
            == if |VarsOf([], cs)| == NumVarsOf(0, cs) then Ok(cs, VarsOf([], cs)) else BadVars
  {
    hide CallFits, Print, Parse, AllInstrs, VarsOf, NumVarsOf, Run;
    AllFit(cs, n);
    ParsePrint(AllInstrs(cs), [], n);
    RunCalls(START, cs);
    assert [] + cs == cs;
  }

  // ----- The decoder -----

  class Decoder {
    const numCalls: nat
    var data: seq<Byte>
    var err: bool
    var numVars: nat
    var vars: seq<nat>
    var call: ExecCall
    var calls: seq<ExecCall>

    constructor (exec: seq<Byte>, n: nat)
      ensures data == exec && !err && State() == START && numCalls == n
    {
      numCalls := n;
      data := exec;
      err := false;
      numVars, vars, call, calls := 0, [], EMPTY_CALL, [];
    }

    ghost function State(): Dec
      reads this
    {
      Dec(call, calls, numVars, vars)
    }

    /** Reads one word; after an error every read gives 0 and consumes nothing. */
    method ReadWord() returns (v: nat)
      modifies this`data, this`err
      ensures !err ==> !old(err) && TakeWord(old(data)) == Got(v, data)
      ensures err ==> old(err) || TakeWord(old(data)).Bad?
    {
      if |data| < 8 {
        err := true;
      }
      if err {
        return 0;
      }
      v := FromLe(data[..8]);
      data := data[8..];
    }

    method ReadBlob(size: nat) returns (b: seq<Byte>)
      modifies this`data, this`err
      ensures !err ==> !old(err) && TakeBlob(old(data), size) == Got(b, data)
      ensures err ==> old(err) || TakeBlob(old(data), size).Bad?
    {
      var padded := (size + 7) / 8 * 8;
      if |data| < padded {
        err := true;
      }
      if err {
        return [];
      }
      b := data[..size];
      data := data[padded..];
    }

    method ReadConst() returns (a: ExecArg)
      modifies this`data, this`err
      ensures !err ==> !old(err) && TakeConst(old(data)) == Got(a, data)
      ensures err ==> old(err) || TakeConst(old(data)).Bad?
    {
      hide TakeWord;
      var meta := ReadWord();
      var value := ReadWord();
      a := ExecConst(meta % 0x100, meta / 0x100 % 0x100, value, meta / 0x1_0000 % 0x100,
                     meta / 0x100_0000 % 0x100, meta / 0x1_0000_0000);
    }

    method ReadResult() returns (a: ExecArg)
      modifies this`data, this`err, this`vars
      ensures !err ==> !old(err) && TakeResult(old(data)) == Got(a, data) && vars == NoteVar(old(vars), a)
      ensures err ==> old(err) || TakeResult(old(data)).Bad?
    {
      hide TakeWord;
      var meta := ReadWord();
      var index := ReadWord();
      var divOp := ReadWord();
      var addOp := ReadWord();
      var dflt := ReadWord();
      a := ExecResult(meta % 0x100, meta / 0x100 % 0x100, index, divOp, addOp, dflt);
      KeepVar(index, dflt);
    }

    method KeepVar(index: nat, dflt: nat)
      modifies this`vars
      ensures forall a: ExecArg :: a.ExecResult? && a.index == index && a.dflt == dflt ==> vars == NoteVar(old(vars), a)
    {
      while |vars| <= index
        invariant |old(vars)| <= |vars| && vars[..|old(vars)|] == old(vars)
        invariant |vars| > |old(vars)| ==> |vars| <= index + 1
        invariant forall i :: |old(vars)| <= i < |vars| ==> vars[i] == 0
      {
        vars := vars + [0];
      }
      vars := vars[index := dflt];
    }

    method ReadData() returns (a: ExecArg)
      modifies this`data, this`err
      ensures !err ==> !old(err) && TakeData(old(data)) == Got(a, data)
      ensures err ==> old(err) || TakeData(old(data)).Bad?
    {
      hide TakeWord, TakeBlob;
      var flags := ReadWord();
      var b := ReadBlob(flags % READABLE);
      a := ExecData(b, flags >= READABLE);
    }

    method ReadChunks(n: nat) returns (cs: seq<Chunk>)
      modifies this`data, this`err
      ensures old(err) ==> err
      ensures !old(err) ==> if err then TakeChunks(old(data), n).Bad? else TakeChunks(old(data), n) == Got(cs, data)
    {
      hide TakeWord;
      cs := [];
      ghost var d0 := data;
      PrependNone(TakeChunks(d0, n));
      for i := 0 to n
        invariant old(err) ==> err
        invariant !old(err) && err ==> TakeChunks(d0, n).Bad?
        invariant !err ==> TakeChunks(d0, n) == Prepend(cs, TakeChunks(data, n - i))
      {
        var kind := ReadWord();
        var value := ReadWord();
        var size := ReadWord();
        PrependOne(cs, Chunk(kind, value, size), TakeChunks(data, n - i - 1));
        cs := cs + [Chunk(kind, value, size)];
      }
      assert cs + [] == cs;
    }

    method ReadCsum() returns (a: Option<ExecArg>)
      modifies this`data, this`err
      ensures old(err) ==> err
      ensures !err ==> a.Some? && TakeCsum(old(data)) == Got(a.value, data)
      ensures err ==> old(err) || TakeCsum(old(data)).Bad?
    {
      hide TakeWord, TakeChunks;
      var size := ReadWord();
      var kind := ReadWord();
      if kind != CSUM_INET {
        err := true;
        return None;
      }
      var n := ReadWord();
      var cs := ReadChunks(n);
      a := Some(ExecCsum(size, cs));
    }

    method ReadArg() returns (a: Option<ExecArg>)
      modifies this`data, this`err, this`vars
      ensures old(err) ==> err
      ensures !err ==> a.Some? && TakeArg(old(data)) == Got(a.value, data) && vars == NoteVar(old(vars), a.value)
      ensures err ==> old(err) || TakeArg(old(data)).Bad?
    {
      hide TakeWord, TakeConst, TakeResult, TakeData, TakeCsum, NoteVar;
      var typ := ReadWord();
      ghost var d1 := data;
      if typ == ARG_CONST {
        var c := ReadConst();
        NoVar(vars, c);
        NeverResult(d1);
        a := Some(c);
      } else if typ == ARG_RESULT {
        var c := ReadResult();
        a := Some(c);
      } else if typ == ARG_DATA {
        var c := ReadData();
        NoVar(vars, c);
        NeverResult(d1);
        a := Some(c);
      } else if typ == ARG_CSUM {
        a := ReadCsum();
        NeverResult(d1);
        if a.Some? { NoVar(vars, a.value); }
      } else {
        err := true;
        a := None;
      }
    }

    /** Reads the arguments of a call, which must be scalars; false after any other argument. */
    method ReadArgs(n: nat) returns (ok: bool)
      modifies this`data, this`err, this`vars, this`call
      ensures old(err) ==> err
      ensures !ok ==> err
      ensures err ==> old(err) || TakeArgs(old(data), n).Bad?
      ensures !err ==> var r := TakeArgs(old(data), n);
                       && r.Got? && data == r.rest && vars == NoteVars(old(vars), r.value)
                       && call == old(call).(args := old(call).args + r.value)
    {
      hide TakeArg, NoteVar;
      ghost var d0, v0 := data, vars;
      ghost var got: seq<ExecArg> := [];
      PrependNone(TakeArgs(d0, n));
      assert call.args == old(call.args) + got;
      for i := 0 to n
        invariant old(err) ==> err
        invariant !old(err) && err ==> TakeArgs(d0, n).Bad?
        invariant !err ==> TakeArgs(d0, n) == Prepend(got, TakeArgs(data, n - i))
        invariant !err ==> vars == NoteVars(v0, got)
        invariant call == old(call).(args := old(call.args) + got)
      {
        var a := ReadArg();
        if a.Some? && Scalar(a.value) {
          PrependOne(got, a.value, TakeArgs(data, n - i - 1));
          NoteVarsConcat(v0, got, [a.value]);
          assert old(call.args) + got + [a.value] == old(call.args) + (got + [a.value]);
          call := call.(args := call.args + [a.value]);
          got := got + [a.value];
        } else {
          err := true;
          return false;
        }
      }
      assert got + [] == got;
      return true;
    }

    method CommitCall()
      modifies this`call, this`calls, this`numVars
      ensures State() == Commit(old(State()))
    {
      if call.meta.None? {
        return;
      }
      if call.index != NO_COPYOUT && numVars < (call.index + 1) % W64 {
        numVars := (call.index + 1) % W64;
      }
      ghost var n := numVars;
      assert call.copyout[0..] == call.copyout;
      for i := 0 to |call.copyout|
        invariant call == old(call) && calls == old(calls)
        invariant RaiseAll(numVars, call.copyout[i..]) == RaiseAll(n, call.copyout)
      {
        assert call.copyout[i..][1..] == call.copyout[i + 1..];
        var copyout := call.copyout[i];
        if numVars < (copyout.index + 1) % W64 {
          numVars := (copyout.index + 1) % W64;
        }
      }
      calls := calls + [call];
      call := EMPTY_CALL;
    }

    /** Reads the rest of the instruction that starts with op; false once reading has to stop. */
    method ParseInstr(op: nat) returns (ok: bool)
      modifies this
      ensures (!ok ==> err) && (old(err) ==> err)
      ensures err ==> old(err) || TakeInstr(op, old(data), numCalls).Bad?
      ensures !err ==> var r := TakeInstr(op, old(data), numCalls);
                       r.Got? && data == r.rest && State() == Step(old(State()), r.value)
    {
      hide TakeWord, TakeArg, TakeArgs, NoteVar, NoteVars, CallVars;
      ok := true;
      if op == INSTR_COPYIN {
        CommitCall();
        var addr := ReadWord();
        var arg := ReadArg();
        if arg.Some? {
          call := call.(copyin := call.copyin + [CopyinRec(addr, arg.value)]);
        }
      } else if op == INSTR_COPYOUT {
        var index := ReadWord();
        var addr := ReadWord();
        var size := ReadWord();
        call := call.(copyout := call.copyout + [CopyoutRec(index, addr, size)]);
      } else if op == INSTR_SETPROPS {
        CommitCall();
        var failNth := ReadWord();
        var async := ReadWord();
        var rerun := ReadWord();
        call := call.(props := Props(failNth, call.props.async || async == 1, rerun));
      } else {
        CommitCall();
        if op >= numCalls {
          err := true;
          return false;
        }
        call := call.(meta := Some(op));
        var index := ReadWord();
        call := call.(index := index);
        var n := ReadWord();
        ok := ReadArgs(n);
      }
    }

    method ParseAll()
      requires !err
      modifies this
      ensures err <==> Parse(old(data), numCalls).Bad?
      ensures !err ==> State() == Commit(Run(old(State()), Parse(old(data), numCalls).value))
    {
      hide TakeWord, TakeInstr, Step, Commit;
      ghost var d0, st0 := data, State();
      ghost var code: seq<Instr> := [];
      PrependNone(Parse(d0, numCalls));
      while !err
        invariant err ==> Parse(d0, numCalls).Bad?
        invariant !err ==> Parse(d0, numCalls) == Prepend(code, Parse(data, numCalls)) && State() == Run(st0, code)
        decreases if err then 0 else |data| + 1
      {
        var op := ReadWord();
        if !err && op == INSTR_EOF {
          CommitCall();
          assert code + [] == code;
          return;
        }
        ghost var d1, st1 := data, State();
        var ok := ParseInstr(op);
        if !err {
          ghost var i := TakeInstr(op, d1, numCalls).value;
          PrependOne(code, i, Parse(data, numCalls));
          RunConcat(st0, code, [i]);
          assert [i][1..] == [];
          code := code + [i];
        }
        if !ok {
          return;
        }
      }
    }
  }

  /** Decodes a stream, checking that as many variables are used as results are assigned. */
  method DeserializeExec(exec: seq<Byte>, n: nat) returns (r: Decoded)
    ensures r == Decode(exec, n)
  {
    var dec := new Decoder(exec, n);
    dec.ParseAll();
    if dec.err {
      return BadStream;
    }
    if |dec.vars| != dec.numVars {
      return BadVars;
    }
    return Ok(dec.calls, dec.vars);
  }

  function Prepend<T>(a: seq<T>, r: Parsed<seq<T>>): Parsed<seq<T>> {
    match r
    case Bad => Bad
    case Got(b, d) => Got(a + b, d)
  }

  lemma {:induction false} PrependNone<T>(r: Parsed<seq<T>>)
    ensures Prepend([], r) == r
  {
    if r.Got? { assert [] + r.value == r.value; }
  }

  lemma {:induction false} PrependOne<T>(a: seq<T>, x: T, r: Parsed<seq<T>>)
    ensures Prepend(a + [x], r) == Prepend(a, Prepend([x], r))
  {
    if r.Got? { assert a + [x] + r.value == a + ([x] + r.value); }
  }

  lemma {:induction false} NoVar(vars: seq<nat>, a: ExecArg)
    ensures !a.ExecResult? ==> NoteVar(vars, a) == vars
  {
  }

  lemma {:induction false} NeverResult(d: seq<Byte>)
    ensures TakeConst(d).Got? ==> TakeConst(d).value.ExecConst?
    ensures TakeData(d).Got? ==> TakeData(d).value.ExecData?
    ensures TakeCsum(d).Got? ==> TakeCsum(d).value.ExecCsum?
  {
  }
}
