/** What the executor does with the stream of a list of calls. */
module ExecPrinted {
  import opened Bits
  import opened Common
  import opened ExecFormat
  import opened ExecWalk
  import D = ExecDecode

  // ----- A printed stream has no stray bits -----

  lemma {:induction false} PrintedPlain(a: ExecArg, tail: seq<Byte>)
    requires ArgFits(a)
    ensures PlainMeta(PutArg(a, tail))
  {
    hide Put, TakeWord;
    match a
    case ExecConst(size, format, value, bfOff, bfLen, pidStride) =>
      WordBack(ARG_CONST, Put(PackMeta(size, format, bfOff, bfLen, pidStride), Put(value, tail)));
    case ExecResult(size, format, index, divOp, addOp, dflt) =>
      var t := Put(index, Put(divOp, Put(addOp, Put(dflt, tail))));
      var m := PackMeta(size, format, 0, 0, 0);
      WordBack(ARG_RESULT, Put(m, t));
      WordBack(m, t);
    case ExecData(data, readable) =>
      WordBack(ARG_DATA, Put(|data| + (if readable then READABLE else 0), data + (ZeroBytes(Pad(|data|)) + tail)));
    case ExecCsum(size, chunks) =>
      WordBack(ARG_CSUM, Put(size, Put(CSUM_INET, Put(|chunks|, PutChunks(chunks, tail)))));
  }

  lemma {:induction false} PrintedArgsPlain(args: seq<ExecArg>, tail: seq<Byte>)
    requires forall k :: 0 <= k < |args| ==> ArgFits(args[k])
    ensures PlainArgs(PutArgs(args, tail), |args|)
  {
    hide PutArg, TakeArg, PlainMeta, ArgFits;
    if |args| > 0 {
      var t := PutArgs(args[1..], tail);
      PrintedPlain(args[0], t);
      ArgBack(args[0], t);
      PrintedArgsPlain(args[1..], tail);
    }
  }

  lemma {:induction false} PrintedInstrPlain(i: Instr, tail: seq<Byte>, n: nat)
    requires Fits(i, n) && n <= INSTR_SETPROPS
    ensures TakeWord(PutInstr(i, tail)).Got? && PlainInstr(Opcode(i), TakeWord(PutInstr(i, tail)).rest)
  {
    hide Put, TakeWord, PutArg, PutArgs, PlainArgs, PlainMeta, ArgFits;
    match i
    case Copyin(addr, arg) =>
      var t := PutArg(arg, tail);
      WordBack(INSTR_COPYIN, Put(addr, t));
      WordBack(addr, t);
      PrintedPlain(arg, tail);
    case Copyout(index, addr, size) =>
      WordBack(INSTR_COPYOUT, Put(index, Put(addr, Put(size, tail))));
    case SetProps(p) =>
      WordBack(INSTR_SETPROPS, Put(p.failNth, Put(if p.async then 1 else 0, Put(p.rerun, tail))));
    case Call(id, ret, args) =>
      var t2 := PutArgs(args, tail);
      var t1 := Put(|args|, t2);
      WordBack(id, Put(ret, t1));
      WordBack(ret, t1);
      WordBack(|args|, t2);
      PrintedArgsPlain(args, tail);
  }

  // ----- Reading one printed instruction -----

  predicate CodeFits(code: seq<Instr>, n: nat) {
    n <= INSTR_SETPROPS && forall k :: 0 <= k < |code| ==> Fits(code[k], n)
  }

  lemma {:induction false} NextPrinted(code: seq<Instr>, tail: seq<Byte>, n: nat)
    requires CodeFits(code, n)
    ensures Next(Print(code, tail), n)
            == if |code| == 0 then Got(None, tail)
               else if Accepts(code[0]) then Got(Some(code[0]), Print(code[1..], tail)) else Bad
  {
    hide Put, TakeWord, TakeInstr, PutInstr, Accepts, PlainInstr, Opcode, Fits;
    if |code| == 0 {
      WordBack(INSTR_EOF, tail);
    } else {
      InstrBack(code[0], Print(code[1..], tail), n);
      PrintedInstrPlain(code[0], Print(code[1..], tail), n);
    }
  }

  /** A printed stream can be walked exactly when each instruction is one the executor carries out. */
  lemma {:induction false} WalkablePrinted(code: seq<Instr>, tail: seq<Byte>, n: nat)
    requires CodeFits(code, n)
    ensures Walkable(Print(code, tail), n) <==> AllAccepted(code)
  {
    hide Parse, PlainCode, Print, Fits, Accepts;
    ParsePrint(code, tail, n);
    PrintedCodePlain(code, tail, n);
  }

  lemma {:induction false} PrintedCodePlain(code: seq<Instr>, tail: seq<Byte>, n: nat)
    requires CodeFits(code, n)
    ensures PlainCode(Print(code, tail), n)
  {
    hide Put, TakeWord, TakeInstr, PutInstr, PlainInstr, Opcode, Fits;
    if |code| == 0 {
      WordBack(INSTR_EOF, tail);
    } else {
      InstrBack(code[0], Print(code[1..], tail), n);
      PrintedInstrPlain(code[0], Print(code[1..], tail), n);
      PrintedCodePlain(code[1..], tail, n);
    }
  }

  lemma {:induction false} PrintLonger(a: seq<Instr>, b: seq<Instr>, tail: seq<Byte>)
    ensures |Print(b, tail)| <= |Print(a + b, tail)|
  {
    hide PutInstr;
    if |a| == 0 {
      assert a + b == b;
    } else {
      assert (a + b)[1..] == a[1..] + b;
      PrintLonger(a[1..], b, tail);
      InstrApp(a[0], Print(a[1..] + b, tail));
    }
  }

  // ----- The copyouts of a call are the ones right after it -----

  /** The end of the program or the start of another call ends a run of copyouts. */
  lemma {:induction false} EndsCopyouts(code: seq<Instr>, tail: seq<Byte>, n: nat)
    requires n <= INSTR_SETPROPS && forall k :: 0 <= k < |code| ==> Fits(code[k], n)
    requires |code| > 0 ==> !code[0].Copyout?
    ensures TakeWord(Print(code, tail)).Got? && TakeWord(Print(code, tail)).value != INSTR_COPYOUT
  {
    hide TakeWord, TakeInstr, PutInstr, Put;
    if |code| == 0 {
      WordBack(INSTR_EOF, tail);
    } else {
      InstrBack(code[0], Print(code[1..], tail), n);
    }
  }

  lemma {:induction false} CopyoutsBack(cs: seq<D.CopyoutRec>, code: seq<Instr>, tail: seq<Byte>, n: nat)
    requires n <= INSTR_SETPROPS && forall k :: 0 <= k < |code| ==> Fits(code[k], n)
    requires |code| > 0 ==> !code[0].Copyout?
    requires forall k :: 0 <= k < |cs| ==> cs[k].index < W64 && cs[k].addr < W64 && cs[k].size < W64
    ensures CopyoutsAt(Print(D.Copyouts(cs) + code, tail)).Got?
    ensures CopyoutsAt(Print(D.Copyouts(cs) + code, tail)).value == cs
  {
    hide TakeWord, Put, Fits;
    if |cs| == 0 {
      assert D.Copyouts(cs) + code == code;
      EndsCopyouts(code, tail, n);
    } else {
      var c, rest := cs[0], D.Copyouts(cs[1..]) + code;
      var all := D.Copyouts(cs) + code;
      assert all[0] == Copyout(c.index, c.addr, c.size) && all[1..] == rest;
      var t := Print(rest, tail);
      WordBack(INSTR_COPYOUT, Put(c.index, Put(c.addr, Put(c.size, t))));
      WordBack(c.index, Put(c.addr, Put(c.size, t)));
      WordBack(c.addr, Put(c.size, t));
      WordBack(c.size, t);
      CopyoutsBack(cs[1..], code, tail, n);
      assert [c] + cs[1..] == cs && c == D.CopyoutRec(c.index, c.addr, c.size);
    }
  }

  lemma {:induction false} StartsAnew(cs: seq<D.ExecCall>)
    requires forall i :: 0 <= i < |cs| ==> cs[i].meta.Some?
    ensures |D.AllInstrs(cs)| > 0 ==> !D.AllInstrs(cs)[0].Copyout?
  {
    if |cs| > 0 {
      assert |D.Instrs(cs[0])| > 0;
      assert D.AllInstrs(cs)[0] == D.Instrs(cs[0])[0];
    }
  }

  lemma {:induction false} OutsFit(c: D.ExecCall, n: nat)
    requires c.meta.Some? && D.CallFits(c, n)
    ensures forall k :: 0 <= k < |c.copyout| ==>
            c.copyout[k].index < W64 && c.copyout[k].addr < W64 && c.copyout[k].size < W64
  {
    forall k | 0 <= k < |c.copyout|
      ensures c.copyout[k].index < W64 && c.copyout[k].addr < W64 && c.copyout[k].size < W64
    {
      assert Fits(Copyout(c.copyout[k].index, c.copyout[k].addr, c.copyout[k].size), n);
    }
  }

  /** Where call k ends in the stream of the calls. */
  ghost function EndAt(cs: seq<D.ExecCall>, k: nat, tail: seq<Byte>): CallEnd
    requires k < |cs| && AllMeta(cs)
  {
    CallEnd(cs[k].index, Print(D.Copyouts(cs[k].copyout) + D.AllInstrs(cs[k + 1..]), tail))
  }

  ghost function EndsOf(cs: seq<D.ExecCall>, tail: seq<Byte>): (r: seq<CallEnd>)
    requires AllMeta(cs)
    ensures |r| == |cs|
  {
    seq(|cs|, k requires 0 <= k < |cs| => EndAt(cs, k, tail))
  }

  predicate AllMeta(cs: seq<D.ExecCall>) {
    forall i :: 0 <= i < |cs| ==> cs[i].meta.Some?
  }

  predicate CallsFit(cs: seq<D.ExecCall>, n: nat) {
    n <= INSTR_SETPROPS && forall i :: 0 <= i < |cs| ==> cs[i].meta.Some? && D.CallFits(cs[i], n)
  }

  lemma {:induction false} EndsStep(code: seq<Instr>, tail: seq<Byte>, n: nat)
    requires CodeFits(code, n) && |code| > 0
    ensures CallEnds(Print(code, tail), n)
            == (if code[0].Call? then [CallEnd(code[0].ret, Print(code[1..], tail))] else [])
               + CallEnds(Print(code[1..], tail), n)
  {
    hide Put, TakeWord, TakeInstr, PutInstr, Fits, Opcode;
    InstrBack(code[0], Print(code[1..], tail), n);
  }

  lemma {:induction false} SkipsOthers(pre: seq<Instr>, code: seq<Instr>, tail: seq<Byte>, n: nat)
    requires CodeFits(pre + code, n) && forall k :: 0 <= k < |pre| ==> !pre[k].Call?
    ensures CallEnds(Print(pre + code, tail), n) == CallEnds(Print(code, tail), n)
  {
    hide Print, CallEnds, Fits;
    if |pre| == 0 {
      assert pre + code == code;
    } else {
      assert (pre + code)[1..] == pre[1..] + code;
      EndsStep(pre + code, tail, n);
      SkipsOthers(pre[1..], code, tail, n);
      assert [] + CallEnds(Print(code, tail), n) == CallEnds(Print(code, tail), n);
    }
  }

  lemma {:induction false} EndsOne(c: D.ExecCall, code: seq<Instr>, tail: seq<Byte>, n: nat)
    requires c.meta.Some? && CodeFits(D.Instrs(c) + code, n)
    ensures CallEnds(Print(D.Instrs(c) + code, tail), n)
            == [CallEnd(c.index, Print(D.Copyouts(c.copyout) + code, tail))] + CallEnds(Print(code, tail), n)
  {
    hide Print, CallEnds, Fits;
    var props := if c.props == NO_PROPS then [] else [SetProps(c.props)];
    var pre := D.Copyins(c.copyin) + props;
    var call, outs := Call(c.meta.value, c.index, c.args), D.Copyouts(c.copyout);
    var rest := [call] + (outs + code);
    assert D.Instrs(c) + code == pre + rest;
    Suffix(pre, rest, n);
    SkipsOthers(pre, rest, tail, n);
    assert rest[1..] == outs + code;
    EndsStep(rest, tail, n);
    Suffix([call], outs + code, n);
    SkipsOthers(outs, code, tail, n);
  }

  lemma {:induction false} Suffix(a: seq<Instr>, b: seq<Instr>, n: nat)
    requires CodeFits(a + b, n)
    ensures CodeFits(b, n)
  {
    hide Fits;
    forall k | 0 <= k < |b| ensures Fits(b[k], n) { assert (a + b)[|a| + k] == b[k]; }
  }

  lemma {:induction false} FitFrom(cs: seq<D.ExecCall>, k: nat, n: nat)
    requires CallsFit(cs, n) && k <= |cs|
    ensures CodeFits(D.AllInstrs(cs[k..]), n) && CallsFit(cs[k..], n)
  {
    hide Fits, D.CallFits;
    D.AllFit(cs[k..], n);
  }

  lemma {:induction false} EndsFrom(cs: seq<D.ExecCall>, k: nat, tail: seq<Byte>, n: nat)
    requires CallsFit(cs, n) && k <= |cs|
    ensures CallEnds(Print(D.AllInstrs(cs[k..]), tail), n) == EndsOf(cs, tail)[k..]
    decreases |cs| - k
  {
    hide Print, Fits, D.CallFits, D.AllInstrs, D.Instrs, CodeFits, CallEnds;
    FitFrom(cs, k, n);
    if k == |cs| {
      NoInstrs(cs[k..]);
      NoEnds(tail, n);
    } else {
      AllStep(cs, k);
      EndsOne(cs[k], D.AllInstrs(cs[k + 1..]), tail, n);
      EndsFrom(cs, k + 1, tail, n);
      assert EndsOf(cs, tail)[k..] == [EndAt(cs, k, tail)] + EndsOf(cs, tail)[k + 1..];
    }
  }

  lemma {:induction false} AllStep(cs: seq<D.ExecCall>, k: nat)
    requires AllMeta(cs) && k < |cs|
    ensures D.AllInstrs(cs[k..]) == D.Instrs(cs[k]) + D.AllInstrs(cs[k + 1..])
  {
    assert cs[k..][1..] == cs[k + 1..];
  }

  lemma {:induction false} NoInstrs(cs: seq<D.ExecCall>)
    requires |cs| == 0
    ensures D.AllInstrs(cs) == []
  {
  }

  lemma {:induction false} NoEnds(tail: seq<Byte>, n: nat)
    ensures CallEnds(Print([], tail), n) == []
  {
    hide Put, TakeWord;
    WordBack(INSTR_EOF, tail);
  }

  /** In the stream of any calls that fit the format, the calls come in order, and reading copyouts
      from where a call ends gives that call's copyouts and no others. */
  lemma {:induction false} DelayedCopyouts(cs: seq<D.ExecCall>, tail: seq<Byte>, n: nat)
    requires CallsFit(cs, n)
    ensures var ends := CallEnds(Print(D.AllInstrs(cs), tail), n);
            && ends == EndsOf(cs, tail)
            && forall k :: 0 <= k < |cs| ==>
                 && ends[k].ret == cs[k].index
                 && CopyoutsAt(ends[k].after).Got? && CopyoutsAt(ends[k].after).value == cs[k].copyout
  {
    hide Print, CopyoutsAt, Fits, D.CallFits, D.AllInstrs, EndAt;
    assert cs[0..] == cs;
    EndsFrom(cs, 0, tail, n);
    var ends := EndsOf(cs, tail);
    forall k | 0 <= k < |cs|
      ensures ends[k].ret == cs[k].index
      ensures CopyoutsAt(ends[k].after).Got? && CopyoutsAt(ends[k].after).value == cs[k].copyout
    {
      EndReads(cs, k, tail, n);
    }
  }

  lemma {:induction false} EndReads(cs: seq<D.ExecCall>, k: nat, tail: seq<Byte>, n: nat)
    requires CallsFit(cs, n) && k < |cs|
    ensures var r := CopyoutsAt(EndAt(cs, k, tail).after);
            r.Got? && r.value == cs[k].copyout && EndAt(cs, k, tail).ret == cs[k].index
  {
    hide Print, CopyoutsAt, Fits, D.CallFits, D.AllInstrs;
    FitFrom(cs, k + 1, n);
    StartsAnew(cs[k + 1..]);
    OutsFit(cs[k], n);
    CopyoutsBack(cs[k].copyout, D.AllInstrs(cs[k + 1..]), tail, n);
  }

  // ----- What a run of the calls does -----

  predicate Performs(c: D.ExecCall) {
    && |c.args| <= MAX_ARGS && (forall i :: 0 <= i < |c.args| ==> CallArgOk(c.args[i]))
    && forall i :: 0 <= i < |c.copyin| ==> CopyinOk(c.copyin[i].arg)
  }

  ghost predicate AllPerform(cs: seq<D.ExecCall>) {
    forall i :: 0 <= i < |cs| ==> Performs(cs[i])
  }

  predicate ReadsBack(c: D.ExecCall) {
    (c.index == NO_COPYOUT || c.index < MAX_COMMANDS) && forall i :: 0 <= i < |c.copyout| ==> CopyoutOk(c.copyout[i])
  }

  /** The stores of a call's copyins, in order, with the results known when the call starts. */
  function StoresOf(rs: Results, ins: seq<D.CopyinRec>, procid: nat): (r: seq<Effect>)
    requires forall i :: 0 <= i < |ins| ==> CopyinOk(ins[i].arg)
  {
    if |ins| == 0 then []
    else [Stores(Written(rs, ins[0].addr, ins[0].arg, procid))] + StoresOf(rs, ins[1..], procid)
  }

  /** The properties a call is executed with. */
  function KeptProps(p: Props): Props {
    ReadAs(p.failNth, if p.async then 1 else 0, p.rerun)
  }

  /** The copyins of a call, then the call with the values its arguments have now. */
  function CallEffects(rs: Results, c: D.ExecCall, procid: nat, pos: nat): seq<Effect>
    requires c.meta.Some? && Performs(c)
  {
    StoresOf(rs, c.copyin, procid)
    + [Calls(Scheduled(c.meta.value, c.index, CallValues(rs, c.args, procid), KeptProps(c.props), pos))]
  }

  /** The results once a call has come back: its return value, then its own copyouts. */
  function Returned(rs: Results, c: D.ExecCall, res: nat, mem: Memory): Results
    requires ReadsBack(c)
  {
    ApplyCopyouts(ApplyReturn(rs, c.index, res), c.copyout, mem)
  }

  function ReturnedAll(rs: Results, cs: seq<D.ExecCall>, evs: seq<Completion>): Results
    requires forall i :: 0 <= i < |evs| ==> evs[i].call < |cs| && ReadsBack(cs[evs[i].call])
    decreases |evs|
  {
    if |evs| == 0 then rs
    else ReturnedAll(Returned(rs, cs[evs[0].call], evs[0].res, evs[0].mem), cs, evs[1..])
  }

  /** Every call that comes back has copyouts that can be carried out. */
  ghost predicate Handles(cs: seq<D.ExecCall>, sched: nat -> seq<Completion>) {
    Orderly(sched)
    && forall k: nat, i: nat :: k < |cs| && i < |sched(k)| ==> ReadsBack(cs[sched(k)[i].call])
  }

  /** The results when call k starts: each call that came back before has stored its own. */
  ghost function ResultsAt(cs: seq<D.ExecCall>, sched: nat -> seq<Completion>, k: nat): Results
    requires Handles(cs, sched) && k <= |cs|
  {
    if k == 0 then NoResults() else ReturnedAll(ResultsAt(cs, sched, k - 1), cs, sched(k - 1))
  }

  ghost predicate Room(cs: seq<D.ExecCall>, tail: seq<Byte>, total: nat)
    requires AllMeta(cs)
  {
    forall k :: 0 <= k < |cs| ==> |EndAt(cs, k, tail).after| <= total
  }

  /** Everything done from call k on. */
  ghost function EffectsFrom(cs: seq<D.ExecCall>, k: nat, tail: seq<Byte>, h: Host): seq<Effect>
    requires AllMeta(cs) && AllPerform(cs)
    requires Handles(cs, h.sched) && Room(cs, tail, h.total)
    decreases |cs| - k
  {
    if k >= |cs| then []
    else
      CallEffects(ResultsAt(cs, h.sched, k), cs[k], h.procid, h.total - |EndAt(cs, k, tail).after|)
      + EffectsFrom(cs, k + 1, tail, h)
  }

  // ----- The run, one piece of the stream at a time -----

  lemma {:induction false} StepPrinted(code: seq<Instr>, tail: seq<Byte>, m: Machine, h: Host)
    requires |code| > 0 && CodeFits(code, h.numCalls) && Accepts(code[0])
    requires |Print(code, tail)| <= h.total && Orderly(h.sched)
    ensures var d, rest := Print(code, tail), Print(code[1..], tail);
            var m' := Advance(m, code[0], d, rest, h.sched);
            && |rest| <= h.total
            && Execute(d, m, h)
               == if m'.None? then Stopped
                  else Then(EffectsOf(code[0], m.rs, m.props, h.procid, h.total - |rest|), Execute(rest, m'.value, h))
  {
    hide Next, Print, Accepts, Fits, EffectsOf, Advance;
    NextPrinted(code, tail, h.numCalls);
    assert code == [code[0]] + code[1..];
    PrintLonger([code[0]], code[1..], tail);
  }

  lemma {:induction false} RunCopyins(ins: seq<D.CopyinRec>, code: seq<Instr>, tail: seq<Byte>, m: Machine, h: Host)
    requires CodeFits(D.Copyins(ins) + code, h.numCalls) && forall i :: 0 <= i < |ins| ==> CopyinOk(ins[i].arg)
    requires |Print(D.Copyins(ins) + code, tail)| <= h.total && Orderly(h.sched)
    ensures |Print(code, tail)| <= h.total
    ensures Execute(Print(D.Copyins(ins) + code, tail), m, h)
            == Then(StoresOf(m.rs, ins, h.procid), Execute(Print(code, tail), m, h))
  {
    hide Print, Execute, CopyinOk, Fits, Written;
    PrintLonger(D.Copyins(ins), code, tail);
    if |ins| == 0 {
      assert D.Copyins(ins) + code == code;
      ThenNothing(Execute(Print(code, tail), m, h));
    } else {
      var all := D.Copyins(ins) + code;
      assert all[0] == Copyin(ins[0].addr, ins[0].arg) && all[1..] == D.Copyins(ins[1..]) + code;
      StepPrinted(all, tail, m, h);
      RunCopyins(ins[1..], code, tail, m, h);
      ThenTwice([Stores(Written(m.rs, ins[0].addr, ins[0].arg, h.procid))], StoresOf(m.rs, ins[1..], h.procid),
                Execute(Print(code, tail), m, h));
    }
  }

  lemma {:induction false} RunCopyouts(outs: seq<D.CopyoutRec>, code: seq<Instr>, tail: seq<Byte>, m: Machine, h: Host)
    requires CodeFits(D.Copyouts(outs) + code, h.numCalls)
    requires |Print(D.Copyouts(outs) + code, tail)| <= h.total && Orderly(h.sched)
    ensures |Print(code, tail)| <= h.total
    ensures Execute(Print(D.Copyouts(outs) + code, tail), m, h) == Execute(Print(code, tail), m, h)
  {
    hide Print, Execute, Fits;
    PrintLonger(D.Copyouts(outs), code, tail);
    if |outs| == 0 {
      assert D.Copyouts(outs) + code == code;
    } else {
      var all := D.Copyouts(outs) + code;
      assert all[0].Copyout? && all[1..] == D.Copyouts(outs[1..]) + code;
      StepPrinted(all, tail, m, h);
      RunCopyouts(outs[1..], code, tail, m, h);
      ThenNothing(Execute(Print(code, tail), m, h));
    }
  }

  lemma {:induction false} PropsBack(p: Props, rest: seq<Byte>, props: Props)
    requires p.failNth < W64 && p.rerun < W64
    ensures NextProps(SetProps(p), props, PutInstr(SetProps(p), rest)) == KeptProps(p)
  {
    hide Put, TakeWord;
    var t2 := Put(p.rerun, rest);
    var t1 := Put(if p.async then 1 else 0, t2);
    WordBack(INSTR_SETPROPS, Put(p.failNth, t1));
    WordBack(p.failNth, t1);
    WordBack(if p.async then 1 else 0, t2);
    WordBack(p.rerun, rest);
  }

  lemma {:induction false} NothingKept()
    ensures KeptProps(NO_PROPS) == NO_PROPS
  {
  }

  lemma {:induction false} RunProps(p: Props, code: seq<Instr>, tail: seq<Byte>, m: Machine, h: Host)
    requires CodeFits((if p == NO_PROPS then [] else [SetProps(p)]) + code, h.numCalls) && m.props == NO_PROPS
    requires |Print((if p == NO_PROPS then [] else [SetProps(p)]) + code, tail)| <= h.total && Orderly(h.sched)
    ensures |Print(code, tail)| <= h.total
    ensures Execute(Print((if p == NO_PROPS then [] else [SetProps(p)]) + code, tail), m, h)
            == Execute(Print(code, tail), m.(props := KeptProps(p)), h)
  {
    hide Execute, PutInstr, NextProps, KeptProps;
    var pre := if p == NO_PROPS then [] else [SetProps(p)];
    PrintLonger(pre, code, tail);
    if p == NO_PROPS {
      NothingKept();
      assert pre + code == code && m == m.(props := KeptProps(p));
    } else {
      var all := pre + code;
      assert all[0] == SetProps(p) && all[1..] == code;
      StepPrinted(all, tail, m, h);
      assert Fits(all[0], h.numCalls);
      PropsBack(p, Print(code, tail), m.props);
      ThenNothing(Execute(Print(code, tail), m.(props := KeptProps(p)), h));
    }
  }

  /** A call's part of the stream: its stores, the call, and then the calls that come back. */
  lemma {:induction false} RunCall(c: D.ExecCall, code: seq<Instr>, tail: seq<Byte>, m: Machine, h: Host)
    requires c.meta.Some? && Performs(c) && CodeFits(D.Instrs(c) + code, h.numCalls) && m.props == NO_PROPS
    requires |Print(D.Instrs(c) + code, tail)| <= h.total && Orderly(h.sched)
    ensures var after := Print(D.Copyouts(c.copyout) + code, tail);
            var calls := m.calls + [CallEnd(c.index, after)];
            var rs := CompleteAll(m.rs, calls, h.sched(|m.calls|));
            && |Print(code, tail)| <= h.total && |after| <= h.total
            && Execute(Print(D.Instrs(c) + code, tail), m, h)
               == if rs.None? then Stopped
                  else Then(CallEffects(m.rs, c, h.procid, h.total - |after|),
                            Execute(Print(code, tail), Machine(rs.value, NO_PROPS, calls), h))
  {
    hide Print, Execute, Fits, CompleteAll, CallArgOk, CopyinOk, StoresOf, CallValues, KeptProps;
    var props := if c.props == NO_PROPS then [] else [SetProps(c.props)];
    var call, outs := Call(c.meta.value, c.index, c.args), D.Copyouts(c.copyout);
    var rest := [call] + (outs + code);
    assert D.Instrs(c) + code == D.Copyins(c.copyin) + (props + rest);
    RunCopyins(c.copyin, props + rest, tail, m, h);
    Suffix(D.Copyins(c.copyin), props + rest, h.numCalls);
    RunProps(c.props, rest, tail, m, h);
    Suffix(props, rest, h.numCalls);
    assert rest[0] == call && rest[1..] == outs + code;
    var m1 := m.(props := KeptProps(c.props));
    StepPrinted(rest, tail, m1, h);
    Suffix([call], outs + code, h.numCalls);
    var calls := m.calls + [CallEnd(c.index, Print(outs + code, tail))];
    var rs := CompleteAll(m.rs, calls, h.sched(|m.calls|));
    if rs.Some? {
      var m2 := Machine(rs.value, NO_PROPS, calls);
      RunCopyouts(c.copyout, code, tail, m2, h);
      ThenTwice(StoresOf(m.rs, c.copyin, h.procid),
                EffectsOf(call, m.rs, m1.props, h.procid, h.total - |Print(outs + code, tail)|),
                Execute(Print(code, tail), m2, h));
    } else {
      PrintLonger(outs, code, tail);
    }
  }

  /** Calls that come back store their own results, read from where they end in the stream. */
  lemma {:induction false} CompleteEnds(rs: Results, cs: seq<D.ExecCall>, k: nat, tail: seq<Byte>,
                                        evs: seq<Completion>, n: nat)
    requires CallsFit(cs, n) && k < |cs|
    requires forall i :: 0 <= i < |evs| ==> evs[i].call <= k && ReadsBack(cs[evs[i].call])
    ensures CompleteAll(rs, EndsOf(cs, tail)[..k + 1], evs) == Some(ReturnedAll(rs, cs, evs))
    decreases |evs|
  {
    hide CopyoutsAt, Print, D.CallFits, EndAt, ApplyCopyouts, CopyoutOk, D.AllInstrs;
    if |evs| > 0 {
      var j := evs[0].call;
      DelayedCopyouts(cs, tail, n);
      assert EndsOf(cs, tail)[..k + 1][j] == EndAt(cs, j, tail);
      CompleteEnds(Returned(rs, cs[j], evs[0].res, evs[0].mem), cs, k, tail, evs[1..], n);
    }
  }

  ghost function MachineAt(cs: seq<D.ExecCall>, k: nat, tail: seq<Byte>, h: Host): Machine
    requires AllMeta(cs) && Handles(cs, h.sched) && k <= |cs|
  {
    Machine(ResultsAt(cs, h.sched, k), NO_PROPS, EndsOf(cs, tail)[..k])
  }

  lemma {:induction false} RunFrom(cs: seq<D.ExecCall>, k: nat, tail: seq<Byte>, h: Host)
    requires CallsFit(cs, h.numCalls) && AllPerform(cs) && Handles(cs, h.sched)
    requires Room(cs, tail, h.total) && k <= |cs| && |Print(D.AllInstrs(cs[k..]), tail)| <= h.total
    ensures Execute(Print(D.AllInstrs(cs[k..]), tail), MachineAt(cs, k, tail, h), h)
            == Finished(EffectsFrom(cs, k, tail, h), ResultsAt(cs, h.sched, |cs|), tail)
    decreases |cs| - k
  {
    hide Print, Fits, D.CallFits, D.AllInstrs, D.Instrs, Performs, CompleteAll, ReturnedAll, EndAt, EndsOf, CallEffects;
    hide ReadsBack, CodeFits, Room, Next;
    var n, m := h.numCalls, MachineAt(cs, k, tail, h);
    FitFrom(cs, k, n);
    if k == |cs| {
      NoInstrs(cs[k..]);
      NextPrinted([], tail, n);
    } else {
      hide Execute;
      var code := D.AllInstrs(cs[k + 1..]);
      AllStep(cs, k);
      RunCall(cs[k], code, tail, m, h);
      EndsMore(cs, k, tail);
      CompleteEnds(m.rs, cs, k, tail, h.sched(k), n);
      RunFrom(cs, k + 1, tail, h);
    }
  }

  lemma {:induction false} EndsMore(cs: seq<D.ExecCall>, k: nat, tail: seq<Byte>)
    requires k < |cs| && AllMeta(cs)
    ensures EndAt(cs, k, tail)
            == CallEnd(cs[k].index, Print(D.Copyouts(cs[k].copyout) + D.AllInstrs(cs[k + 1..]), tail))
    ensures EndsOf(cs, tail)[..k + 1] == EndsOf(cs, tail)[..k] + [EndAt(cs, k, tail)]
  {
  }

  lemma {:induction false} EnoughRoom(cs: seq<D.ExecCall>, k: nat, tail: seq<Byte>)
    requires k < |cs| && AllMeta(cs)
    ensures |EndAt(cs, k, tail).after| <= |Print(D.AllInstrs(cs), tail)|
    decreases k
  {
    hide Print;
    var c, rest := cs[0], D.AllInstrs(cs[1..]);
    if k == 0 {
      var outs := D.Copyouts(c.copyout);
      var pre := D.Copyins(c.copyin) + ((if c.props == NO_PROPS then [] else [SetProps(c.props)])
                                        + [Call(c.meta.value, c.index, c.args)]);
      assert D.AllInstrs(cs) == pre + (outs + rest);
      PrintLonger(pre, outs + rest, tail);
    } else {
      EnoughRoom(cs[1..], k - 1, tail);
      assert cs[1..][k..] == cs[k + 1..];
      PrintLonger(D.Instrs(c), rest, tail);
    }
  }

  /** A run over the stream of calls that fit the format and that the executor performs does just what
      the calls say: for each call in turn it makes the stores of the call's copyins and hands out the
      call, with the values that the results have at that moment, and each call that comes back later
      stores its return value and its own copyouts. */
  lemma {:induction false} RunsPrinted(cs: seq<D.ExecCall>, tail: seq<Byte>, h: Host)
    requires CallsFit(cs, h.numCalls) && AllPerform(cs) && Handles(cs, h.sched)
    requires |Print(D.AllInstrs(cs), tail)| <= h.total
    ensures Room(cs, tail, h.total)
    ensures Execute(Print(D.AllInstrs(cs), tail), AtStart(), h)
            == Finished(EffectsFrom(cs, 0, tail, h), ResultsAt(cs, h.sched, |cs|), tail)
  {
    hide Print, Execute, EffectsFrom, D.AllInstrs, D.CallFits, Performs, EndAt, ReturnedAll, ReadsBack;
    forall k | 0 <= k < |cs| ensures |EndAt(cs, k, tail).after| <= h.total {
      EnoughRoom(cs, k, tail);
    }
    assert cs[0..] == cs;
    RunFrom(cs, 0, tail, h);
  }

  // ----- When a run gets to the end -----

  lemma {:induction false} AcceptedBoth(a: seq<Instr>, b: seq<Instr>)
    ensures AllAccepted(a + b) <==> AllAccepted(a) && AllAccepted(b)
  {
    hide Accepts;
    if AllAccepted(a + b) {
      forall k | 0 <= k < |a| ensures Accepts(a[k]) { assert (a + b)[k] == a[k]; }
      forall k | 0 <= k < |b| ensures Accepts(b[k]) { assert (a + b)[|a| + k] == b[k]; }
    }
  }

  lemma {:induction false} AcceptedOne(c: D.ExecCall)
    requires c.meta.Some?
    ensures AllAccepted(D.Instrs(c)) <==> Performs(c)
  {
    hide AllAccepted, CopyinOk, CallArgOk;
    var props := if c.props == NO_PROPS then [] else [SetProps(c.props)];
    var call, outs := [Call(c.meta.value, c.index, c.args)], D.Copyouts(c.copyout);
    AcceptedBoth(D.Copyins(c.copyin), props + (call + outs));
    AcceptedBoth(props, call + outs);
    AcceptedBoth(call, outs);
    AcceptedParts(c);
  }

  lemma {:induction false} AcceptedParts(c: D.ExecCall)
    requires c.meta.Some?
    ensures AllAccepted(if c.props == NO_PROPS then [] else [SetProps(c.props)]) && AllAccepted(D.Copyouts(c.copyout))
    ensures AllAccepted([Call(c.meta.value, c.index, c.args)])
            <==> |c.args| <= MAX_ARGS && forall i :: 0 <= i < |c.args| ==> CallArgOk(c.args[i])
    ensures AllAccepted(D.Copyins(c.copyin)) <==> forall i :: 0 <= i < |c.copyin| ==> CopyinOk(c.copyin[i].arg)
  {
    hide CopyinOk, CallArgOk;
    assert Accepts([Call(c.meta.value, c.index, c.args)][0])
           <==> |c.args| <= MAX_ARGS && forall i :: 0 <= i < |c.args| ==> CallArgOk(c.args[i]);
    var ins := D.Copyins(c.copyin);
    assert forall i :: 0 <= i < |ins| ==> (Accepts(ins[i]) <==> CopyinOk(c.copyin[i].arg));
  }

  lemma {:induction false} AcceptedAll(cs: seq<D.ExecCall>)
    requires AllMeta(cs)
    ensures AllAccepted(D.AllInstrs(cs)) <==> AllPerform(cs)
  {
    hide AllAccepted, Performs, D.Instrs;
    if |cs| == 0 {
      NoneRefused();
    } else {
      AcceptedBoth(D.Instrs(cs[0]), D.AllInstrs(cs[1..]));
      AcceptedOne(cs[0]);
      AcceptedAll(cs[1..]);
      assert cs == [cs[0]] + cs[1..];
    }
  }

  lemma {:induction false} NoneRefused()
    ensures AllAccepted([])
  {
  }

  /** The run gets to the end exactly when the executor performs every call and every call that
      comes back has copyouts that can be carried out. */
  lemma {:induction false} PrintedIff(cs: seq<D.ExecCall>, tail: seq<Byte>, h: Host)
    requires CallsFit(cs, h.numCalls) && Orderly(h.sched) && |Print(D.AllInstrs(cs), tail)| <= h.total
    ensures Execute(Print(D.AllInstrs(cs), tail), AtStart(), h).Finished? <==> AllPerform(cs) && Handles(cs, h.sched)
  {
    hide Print, Execute, D.AllInstrs, D.CallFits, Walkable, CallEnds, AllAccepted, AllPerform, CanComplete;
    hide ReadsBack, EndsOf;
    var d, n := Print(D.AllInstrs(cs), tail), h.numCalls;
    ExecuteIff(d, AtStart(), h);
    assert cs[0..] == cs;
    FitFrom(cs, 0, n);
    WalkablePrinted(D.AllInstrs(cs), tail, n);
    AcceptedAll(cs);
    DelayedCopyouts(cs, tail, n);
    assert [] + EndsOf(cs, tail) == EndsOf(cs, tail);
    forall k | 0 <= k < |cs| ensures CanComplete(EndsOf(cs, tail)[k]) <==> ReadsBack(cs[k]) {
      CompletesIff(EndsOf(cs, tail)[k], cs[k]);
    }
  }

  lemma {:induction false} CompletesIff(e: CallEnd, c: D.ExecCall)
    requires e.ret == c.index && CopyoutsAt(e.after).Got? && CopyoutsAt(e.after).value == c.copyout
    ensures CanComplete(e) <==> ReadsBack(c)
  {
    hide CopyoutsAt, CopyoutOk;
  }

  lemma {:induction false} PrintApp(code: seq<Instr>, tail: seq<Byte>)
    ensures Print(code, tail) == Print(code, []) + tail
  {
    hide PutInstr, Put;
    if |code| == 0 {
      PutApp(INSTR_EOF, [], tail);
      assert [] + tail == tail;
    } else {
      var r := Print(code[1..], []);
      PrintApp(code[1..], tail);
      InstrApp(code[0], r + tail);
      InstrApp(code[0], r);
      assert PutInstr(code[0], []) + (r + tail) == PutInstr(code[0], []) + r + tail;
    }
  }

  /** The input starts with the calls' encoding, and the run over it is the one the calls call for. */
  ghost predicate RunsAsSent(cs: seq<D.ExecCall>, input: seq<Byte>, h: Host)
    requires AllMeta(cs) && D.Encode(cs) <= input && h.total == |input| && Orderly(h.sched)
  {
    var tail := input[|D.Encode(cs)|..];
    && AllPerform(cs) && Handles(cs, h.sched) && Room(cs, tail, h.total)
    && Execute(input, AtStart(), h) == Finished(EffectsFrom(cs, 0, tail, h), ResultsAt(cs, h.sched, |cs|), tail)
  }

  lemma {:induction false} RunsEncoded(cs: seq<D.ExecCall>, input: seq<Byte>, h: Host)
    requires CallsFit(cs, h.numCalls) && D.Encode(cs) <= input && h.total == |input| && Orderly(h.sched)
    ensures if AllPerform(cs) && Handles(cs, h.sched) then RunsAsSent(cs, input, h)
            else Execute(input, AtStart(), h).Stopped?
  {
    hide Print, Execute, EffectsFrom, ResultsAt, D.AllInstrs, D.CallFits, AllPerform, Handles, Room;
    var tail := input[|D.Encode(cs)|..];
    PrintApp(D.AllInstrs(cs), tail);
    assert input == Print(D.AllInstrs(cs), tail);
    PrintedIff(cs, tail, h);
    if AllPerform(cs) && Handles(cs, h.sched) {
      RunsPrinted(cs, tail, h);
    }
  }
}
