/** What the executor does with a serialized program. */
module ExecSerialized {
  import opened Bits
  import opened Common
  import opened Prog
  import opened ExecEncode
  import opened ExecRoundTrip
  import F = ExecFormat
  import D = ExecDecode
  import W = ExecWalk
  import P = ExecPrinted

  // ----- Programs whose every value has a size and format the executor knows -----

  /** An argument in memory has a form the executor can store. */
  predicate StorableArg(a: Arg) {
    match a
    case ConstArg(_, _, _, format, bfOff, bfLen, _, _, _, _) => W.StoreOk(UnitSize(a), format, bfOff, bfLen)
    case ResultArg(_, _, size, format, _, _, _, _, _, _) => W.StoreOk(size, format, 0, 0)
    case PointerArg(_, _, size, _, _) => W.StoreOk(size, W.NATIVE, 0, 0)
    case _ => true
  }

  predicate Passable(size: nat, format: nat) {
    format == W.NATIVE || (format == W.BIGENDIAN && size in {2, 4, 8})
  }

  /** An argument has a form the executor can pass to a call. */
  predicate PassableArg(a: Arg) {
    match a
    case ConstArg(_, _, _, format, bfOff, bfLen, _, _, _, _) =>
      bfOff == 0 && bfLen == 0 && Passable(UnitSize(a), format)
    case ResultArg(_, _, size, format, _, res, _, _, _, _) =>
      if res.None? then Passable(size, format) else format == W.NATIVE
    case PointerArg(_, _, _, _, _) => true
    case _ => false
  }

  predicate StorableCsum(f: CsumField) {
    && f.size == 2
    && forall i :: 0 <= i < |f.chunks| && f.chunks[i].ConstChunk? ==> f.chunks[i].size in {2, 4, 8}
  }

  predicate StorableVisit(v: Visit) {
    v.base.Some? && Stored(v.arg) ==> StorableArg(v.arg)
  }

  predicate StorableCall(c: Call) {
    && (forall i :: 0 <= i < |CallVisits(c)| ==> StorableVisit(CallVisits(c)[i]))
    && (forall i :: 0 <= i < |c.args| ==> PassableArg(Chosen(c.args[i])))
    && (forall i :: 0 <= i < |c.csums| ==> StorableCsum(c.csums[i]))
  }

  predicate Storable(p: seq<Call>) {
    forall k :: 0 <= k < |p| ==> StorableCall(p[k])
  }

  predicate ReadableVisit(v: Visit) {
    IsUsed(v.arg) ==> v.arg.size in {1, 2, 4, 8}
  }

  /** The results of a call that are read from memory have sizes that can be read. */
  predicate ReadableCall(c: Call) {
    forall i :: 0 <= i < |ArgVisits(c.args)| ==> ReadableVisit(ArgVisits(c.args)[i])
  }

  /** Every call that comes back has results that can be read. */
  ghost predicate ReadableBack(p: seq<Call>, sched: nat -> seq<W.Completion>)
    requires W.Orderly(sched)
  {
    forall k: nat, i: nat :: k < |p| && i < |sched(k)| ==> ReadableCall(p[sched(k)[i].call])
  }

  // ----- Arguments -----

  /** The indices in the arguments are in the executor's table. */
  predicate Below(args: seq<F.ExecArg>) {
    forall i :: 0 <= i < |args| && args[i].ExecResult? ==> args[i].index < MAX_COMMANDS
  }

  lemma {:induction false} IndicesBelow(args: seq<F.ExecArg>)
    requires forall i :: 0 <= i < |Indices(args)| ==> Indices(args)[i] < MAX_COMMANDS
    ensures Below(args)
  {
    if |args| > 0 {
      var first := if args[0].ExecResult? then [args[0].index] else [];
      assert Indices(args) == first + Indices(args[1..]);
      assert forall i :: 0 <= i < |Indices(args[1..])| ==> Indices(args)[|first| + i] == Indices(args[1..])[i];
      if args[0].ExecResult? { assert Indices(args)[0] == args[0].index; }
      IndicesBelow(args[1..]);
      assert args == [args[0]] + args[1..];
    }
  }

  lemma {:induction false} StoreIff(env: Env, a: Arg)
    requires Stored(a) && Below([ToExec(env, a)])
    ensures W.CopyinOk(ToExec(env, a)) <==> StorableArg(a)
  {
    hide W.StoreOk, Size;
    assert [ToExec(env, a)][0] == ToExec(env, a);
  }

  lemma {:induction false} PassIff(env: Env, a: Arg)
    requires Writable(a) && Below([ToExec(env, a)])
    ensures W.CallArgOk(ToExec(env, a)) <==> PassableArg(Chosen(a))
  {
    if a.UnionArg? {
      PassIff(env, a.option);
    } else {
      assert [ToExec(env, a)][0] == ToExec(env, a);
    }
  }

  ghost predicate CopyinsOk(ins: seq<D.CopyinRec>) {
    forall i :: 0 <= i < |ins| ==> W.CopyinOk(ins[i].arg)
  }

  lemma {:induction false} CopyinsBoth(a: seq<D.CopyinRec>, b: seq<D.CopyinRec>)
    ensures CopyinsOk(a + b) <==> CopyinsOk(a) && CopyinsOk(b)
    ensures Below(D.CopyinArgs(a + b)) <==> Below(D.CopyinArgs(a)) && Below(D.CopyinArgs(b))
  {
    hide W.CopyinOk;
    var all, x, y := D.CopyinArgs(a + b), D.CopyinArgs(a), D.CopyinArgs(b);
    assert forall i :: 0 <= i < |a| ==> (a + b)[i] == a[i] && all[i] == x[i];
    assert forall i :: 0 <= i < |b| ==> (a + b)[|a| + i] == b[i] && all[|a| + i] == y[i];
  }

  ghost predicate VisitsStorable(vs: seq<Visit>) {
    forall i :: 0 <= i < |vs| ==> StorableVisit(vs[i])
  }

  lemma {:induction false} VisitsIff(env: Env, c: Call, vs: seq<Visit>)
    requires Below(D.CopyinArgs(VisitCopyins(env, c, vs)))
    ensures CopyinsOk(VisitCopyins(env, c, vs)) <==> VisitsStorable(vs)
    decreases |vs|
  {
    hide NoteVisit, Below, CopyinsOk, StorableArg, Stored, ToExec;
    if |vs| == 0 {
      NoCopyinsRefused();
    } else {
      var env1 := NoteVisit(env, c, vs[0]);
      var one, rest := VisitCopyin(env1, vs[0]), VisitCopyins(env1, c, vs[1..]);
      CopyinsBoth(one, rest);
      VisitIff(env1, vs[0]);
      VisitsIff(env1, c, vs[1..]);
      assert vs == [vs[0]] + vs[1..];
    }
  }

  lemma {:induction false} NoCopyinsRefused()
    ensures CopyinsOk([])
  {
  }

  lemma {:induction false} VisitIff(env: Env, v: Visit)
    requires Below(D.CopyinArgs(VisitCopyin(env, v)))
    ensures CopyinsOk(VisitCopyin(env, v)) <==> StorableVisit(v)
  {
    hide StorableArg, W.CopyinOk, ToExec;
    if v.base.Some? && Stored(v.arg) {
      assert D.CopyinArgs(VisitCopyin(env, v)) == [VisitCopyin(env, v)[0].arg];
      StoreIff(env, v.arg);
      assert VisitCopyin(env, v)[0].arg == ToExec(env, v.arg);
    }
  }

  ghost predicate CsumsStorable(fs: seq<CsumField>) {
    forall i :: 0 <= i < |fs| ==> StorableCsum(fs[i])
  }

  lemma {:induction false} CsumIff(env: Env, f: CsumField)
    ensures W.CopyinOk(CsumCopyin(env, f).arg) <==> StorableCsum(f)
  {
    var cs := Chunks(env, f.chunks);
    assert forall i :: 0 <= i < |cs| ==>
           (W.ChunkOk(cs[i]) <==> f.chunks[i].ConstChunk? ==> f.chunks[i].size in {2, 4, 8});
  }

  lemma {:induction false} CsumsIff(env: Env, fs: seq<CsumField>)
    ensures CopyinsOk(CsumCopyins(env, fs)) <==> CsumsStorable(fs)
  {
    hide W.CopyinOk, StorableCsum, CsumCopyin;
    if |fs| > 0 {
      var last, rest := fs[|fs| - 1], fs[..|fs| - 1];
      CsumsIff(env, rest);
      CsumIff(env, last);
      CopyinsBoth([CsumCopyin(env, last)], CsumCopyins(env, rest));
      assert CopyinsOk([CsumCopyin(env, last)]) <==> W.CopyinOk([CsumCopyin(env, last)][0].arg);
      assert fs == rest + [last];
    }
  }

  lemma {:induction false} SortedStorable(env: Env, fs: seq<CsumField>)
    ensures CsumsStorable(SortByAddr(env, fs)) <==> CsumsStorable(fs)
  {
    hide StorableCsum, SortByAddr;
    var r := SortByAddr(env, fs);
    if CsumsStorable(fs) { SameStorable(r, fs); }
    if CsumsStorable(r) { SameStorable(fs, r); }
  }

  lemma {:induction false} SameStorable(a: seq<CsumField>, b: seq<CsumField>)
    requires multiset(a) == multiset(b) && CsumsStorable(b)
    ensures CsumsStorable(a)
  {
    hide StorableCsum;
    forall i | 0 <= i < |a| ensures StorableCsum(a[i]) {
      assert a[i] in multiset(a);
      assert a[i] in multiset(b);
      assert a[i] in b;
    }
  }

  lemma {:induction false} ArgsIff(env: Env, args: seq<Arg>)
    requires (forall i :: 0 <= i < |args| ==> Writable(args[i])) && Below(ToExecs(env, args))
    ensures (forall i :: 0 <= i < |args| ==> W.CallArgOk(ToExecs(env, args)[i]))
            <==> forall i :: 0 <= i < |args| ==> PassableArg(Chosen(args[i]))
  {
    hide W.CallArgOk, PassableArg, ToExec, Chosen, Writable;
    if |args| > 0 {
      var all, rest := ToExecs(env, args), ToExecs(env, args[1..]);
      assert all == [ToExec(env, args[0])] + rest;
      assert all[0] == ToExec(env, args[0]) && forall i :: 0 <= i < |rest| ==> all[i + 1] == rest[i];
      PassIff(env, args[0]);
      ArgsIff(env, args[1..]);
      assert args == [args[0]] + args[1..];
    }
  }

  // ----- Calls -----

  ghost predicate VisitsReadable(vs: seq<Visit>) {
    forall i :: 0 <= i < |vs| ==> ReadableVisit(vs[i])
  }

  predicate SizesOk(cs: seq<D.CopyoutRec>) {
    forall i :: 0 <= i < |cs| ==> cs[i].size in {1, 2, 4, 8}
  }

  lemma {:induction false} SizesIff(env: Env, vs: seq<Visit>)
    requires Distinct(vs) && forall id :: id in IdsOf(vs) ==> !Lookup(env, id).ret
    ensures SizesOk(CopyoutSteps(env, vs).1) <==> VisitsReadable(vs)
    decreases |vs|
  {
    hide IdsOf, Distinct, CopyoutStep;
    if |vs| > 0 {
      DistinctStep(vs);
      IdsStep(vs);
      StepFrame(env, vs[0]);
      var (e1, r1) := CopyoutStep(env, vs[0]);
      SizesIff(e1, vs[1..]);
      SizesBoth(r1, CopyoutSteps(e1, vs[1..]).1);
      if IsUsed(vs[0].arg) { assert r1[0].size == vs[0].arg.size; }
      assert vs == [vs[0]] + vs[1..];
    }
  }

  lemma {:induction false} SizesBoth(a: seq<D.CopyoutRec>, b: seq<D.CopyoutRec>)
    ensures SizesOk(a + b) <==> SizesOk(a) && SizesOk(b)
  {
    if SizesOk(a + b) {
      forall i | 0 <= i < |a| ensures a[i].size in {1, 2, 4, 8} { assert (a + b)[i] == a[i]; }
      forall i | 0 <= i < |b| ensures b[i].size in {1, 2, 4, 8} { assert (a + b)[|a| + i] == b[i]; }
    }
  }

  lemma {:induction false} PerformsIff(env: Env, c: Call)
    requires CallOk(c) && |c.args| <= W.MAX_ARGS && Below(D.ArgsOf(Lower(env, c).1))
    ensures P.Performs(Lower(env, c).1) <==> StorableCall(c)
  {
    hide NoteVisits, VisitCopyins, CsumCopyins, SortByAddr, ToExecs, CopyoutSteps, CallVisits, Chosen, Writable;
    hide PassableArg;
    hide W.CopyinOk, W.CallArgOk, StorableVisit, StorableCsum, NoteRet, RetIndex;
    var vs := CallVisits(c);
    var env1 := NoteVisits(env, c, vs);
    var env2 := NoteRet(env1, c);
    var ins, sums := VisitCopyins(env, c, vs), CsumCopyins(env1, SortByAddr(env1, c.csums));
    var args, all := ToExecs(env2, c.args), D.ArgsOf(Lower(env, c).1);
    var n := |ins + sums|;
    assert forall i :: 0 <= i < n ==> D.CopyinArgs(ins + sums)[i] == all[i];
    assert forall i :: 0 <= i < |args| ==> args[i] == all[n + i];
    CopyinsBoth(ins, sums);
    VisitsIff(env, c, vs);
    CsumsIff(env1, SortByAddr(env1, c.csums));
    SortedStorable(env1, c.csums);
    ArgsIff(env2, c.args);
  }

  lemma {:induction false} SentAt(p: seq<Call>, k: nat)
    requires Sendable(p) && k < |p|
    ensures Sent(p)[k] == Lower(EnvOf(p[..k]), p[k]).1
    decreases |p|
  {
    hide Lower, LowerAll, CallOk;
    LowerSnoc(NO_ENV, p);
    if k < |p| - 1 {
      var q := p[..|p| - 1];
      SentAt(q, k);
      assert q[..k] == p[..k];
    }
  }

  lemma {:induction false} UsedGrows(p: seq<Call>, k: nat)
    requires k <= |p|
    ensures |UsedResults(p[..k])| <= |UsedResults(p)|
    decreases |p|
  {
    hide Used, CallVisits;
    if k == |p| {
      assert p[..k] == p;
    } else {
      UsedGrows(p[..|p| - 1], k);
      assert p[..|p| - 1][..k] == p[..k];
    }
  }

  /** A well-formed program uses only indices in the executor's table, so what decides whether a call
      is performed, and whether it can come back, is the sizes and formats of its own arguments. */
  lemma {:induction false} SentReady(p: seq<Call>, k: nat, n: nat)
    requires WellFormed(p, n) && k < |p| && Results(p) <= MAX_COMMANDS
    ensures Below(D.ArgsOf(Sent(p)[k]))
    ensures P.Performs(Sent(p)[k]) <==> StorableCall(p[k])
    ensures P.ReadsBack(Sent(p)[k]) <==> ReadableCall(p[k])
  {
    assert Sendable(p) && WellFormedAt(p, k, n);
    hide WellFormed, WellFormedAt, LowerAll, Lower, UsedResults, SeenIds, Sendable, StorableCall, ReadableCall;
    hide P.Performs, P.ReadsBack;
    hide Indices, Below, D.ArgsOf, SentRefs, CallOk;
    SentAt(p, k);
    ReadsEarlierResults(p, k, n);
    CountIsResults(p, n);
    UsedGrows(p, k);
    IndicesBelow(D.ArgsOf(Sent(p)[k]));
    TakesFew(p, k, n);
    PerformsIff(EnvOf(p[..k]), p[k]);
    BackIff(p, k, n);
  }

  lemma {:induction false} TakesFew(p: seq<Call>, k: nat, n: nat)
    requires WellFormed(p, n) && k < |p|
    ensures CallOk(p[k]) && |p[k].args| <= W.MAX_ARGS
  {
    assert WellFormedAt(p, k, n);
  }

  lemma {:induction false} BackIff(p: seq<Call>, k: nat, n: nat)
    requires WellFormed(p, n) && k < |p| && Results(p) <= MAX_COMMANDS
    ensures P.ReadsBack(Sent(p)[k]) <==> ReadableCall(p[k])
  {
    assert Sendable(p) && WellFormedAt(p, k, n);
    assert CallOk(p[k]) && (p[k].ret.Some? ==> p[k].ret.value.ResultArg?);
    hide LowerAll, Lower, UsedResults, SeenIds, CallVisits, Distinct, IdsOf, Used, SentRefs, WellFormed, Sendable;
    hide CallWellFormed, CallOk, Numbered, P.ReadsBack, ReadableCall;
    SentAt(p, k);
    FrontWellFormed(p, k, n);
    CountIsResults(p[..k], n);
    CountIsResults(p, n);
    UsedGrows(p, k + 1);
    FrontUsed(p, k);
    CallBackIff(EnvOf(p[..k]), p[k], UsedResults(p[..k]), SeenIds(p[..k]));
  }

  lemma {:induction false} CallBackIff(env: Env, c: Call, used: seq<nat>, seen: set<nat>)
    requires CallOk(c) && Numbered(env, used, seen) && (c.ret.Some? ==> c.ret.value.ResultArg?)
    requires Distinct(CallVisits(c)) && IdsOf(CallVisits(c)) !! seen
    requires forall k :: 0 <= k < |used| ==> used[k] in seen
    requires |used| + |Used(CallVisits(c))| <= MAX_COMMANDS
    ensures P.ReadsBack(Lower(env, c).1) <==> ReadableCall(c)
  {
    hide NoteVisits, VisitCopyins, CopyoutSteps, SortByAddr, CsumCopyins, ToExecs, ArgVisits, CallVisits, Used;
    hide Distinct;
    hide IdsOf, Numbered, NoteRet, ReadableVisit, P.ReadsBack, SizesOk;
    LowerNumbers(env, c, used, seen);
    NotedNumbers(env, c, used, seen);
    SizesIff(NoteRet(NoteVisits(env, c, CallVisits(c)), c), ArgVisits(c.args));
    UsedCount(c);
    OutsOk(Lower(env, c).1, |used|, RetUsed(c));
  }

  lemma {:induction false} FrontUsed(p: seq<Call>, k: nat)
    requires k < |p|
    ensures UsedResults(p[..k + 1]) == UsedResults(p[..k]) + Used(CallVisits(p[k]))
  {
    hide Used, CallVisits;
    assert p[..k + 1][..k] == p[..k];
  }

  lemma {:induction false} OutsOk(c: D.ExecCall, n: nat, ret: bool)
    requires n + (if ret then 1 else 0) + |c.copyout| <= MAX_COMMANDS
    requires c.index == if ret then n else F.NO_COPYOUT
    requires forall k :: 0 <= k < |c.copyout| ==> c.copyout[k].index == n + (if ret then 1 else 0) + k
    ensures P.ReadsBack(c) <==> SizesOk(c.copyout)
  {
  }

  // ----- Programs -----

  lemma {:induction false} SentFits(p: seq<Call>, n: nat)
    requires WellFormed(p, n) && Results(p) <= MAX_COMMANDS && n <= F.INSTR_SETPROPS
    ensures P.CallsFit(Sent(p), n) && P.AllMeta(Sent(p))
  {
    hide WellFormedAt, D.CallFits, LowerAll, CallOk;
    AllFit(p, n);
  }

  /** The executor performs every call that is sent exactly when the program is storable, and carries
      out every completion exactly when the results of the calls that come back are readable. */
  lemma {:induction false} SerializedReady(p: seq<Call>, n: nat, sched: nat -> seq<W.Completion>)
    requires WellFormed(p, n) && Results(p) <= MAX_COMMANDS && W.Orderly(sched)
    ensures P.AllPerform(Sent(p)) <==> Storable(p)
    ensures P.Handles(Sent(p), sched) <==> ReadableBack(p, sched)
    ensures forall k :: 0 <= k < |p| ==> Below(D.ArgsOf(Sent(p)[k]))
  {
    assert Sendable(p);
    hide WellFormed, LowerAll, P.Performs, P.ReadsBack, StorableCall, ReadableCall, Sendable, Below, D.ArgsOf;
    forall k | 0 <= k < |p|
      ensures P.Performs(Sent(p)[k]) <==> StorableCall(p[k])
      ensures P.ReadsBack(Sent(p)[k]) <==> ReadableCall(p[k])
      ensures Below(D.ArgsOf(Sent(p)[k]))
    {
      SentReady(p, k, n);
    }
  }

  /** For every well-formed program with at most MAX_COMMANDS results, and an input that starts with its
      encoding: the executor gets to the end exactly when the program is storable and the calls that come
      back are readable. It has then made, for each call in turn, the stores of the call's copyins and the
      call itself, with the values that the results have at that moment; and each call that came back, at
      whatever later time, has stored its return value and its own copyouts. */
  lemma {:induction false} RunOfSerialized(p: seq<Call>, input: seq<Byte>, h: W.Host)
    requires WellFormed(p, h.numCalls) && h.numCalls <= F.INSTR_SETPROPS && Results(p) <= MAX_COMMANDS
    requires D.Encode(Sent(p)) <= input && h.total == |input| && W.Orderly(h.sched)
    ensures P.AllMeta(Sent(p))
    ensures if Storable(p) && ReadableBack(p, h.sched) then P.RunsAsSent(Sent(p), input, h)
            else W.Execute(input, W.AtStart(), h).Stopped?
  {
    hide P.RunsAsSent, W.Execute, Storable, ReadableBack, P.AllPerform, P.Handles, D.Encode, P.CallsFit;
    SentFits(p, h.numCalls);
    SerializedReady(p, h.numCalls, h.sched);
    P.RunsEncoded(Sent(p), input, h);
  }
}
