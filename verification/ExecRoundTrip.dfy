/** Decoding undoes serialization, for every well-formed program. */
module ExecRoundTrip {
  import opened Common
  import opened Prog
  import opened ExecEncode
  import F = ExecFormat
  import D = ExecDecode

  // ----- Well-formed programs -----

  ghost function IdsOf(vs: seq<Visit>): set<nat> {
    set i | 0 <= i < |vs| :: vs[i].arg.id
  }

  ghost predicate Distinct(vs: seq<Visit>) {
    forall i, j :: 0 <= i < j < |vs| ==> vs[i].arg.id != vs[j].arg.id
  }

  /** The results something refers to, in the order they are met. */
  function Used(vs: seq<Visit>): (r: seq<nat>)
  {
    if |vs| == 0 then []
    else (if IsUsed(vs[0].arg) then [vs[0].arg.id] else []) + Used(vs[1..])
  }

  function UsedResults(p: seq<Call>): seq<nat>
    decreases |p|
  {
    if |p| == 0 then [] else UsedResults(p[..|p| - 1]) + Used(CallVisits(p[|p| - 1]))
  }

  /** The argument a call passes, below any unions. */
  function Chosen(a: Arg): Arg {
    if a.UnionArg? then Chosen(a.option) else a
  }

  function StoredArgs(vs: seq<Visit>): seq<Arg> {
    if |vs| == 0 then []
    else (if vs[0].base.Some? && Stored(vs[0].arg) then [vs[0].arg] else []) + StoredArgs(vs[1..])
  }

  function ChosenArgs(args: seq<Arg>): seq<Arg> {
    if |args| == 0 then [] else [Chosen(args[0])] + ChosenArgs(args[1..])
  }

  /** The results that arguments refer to. */
  function Refs(ws: seq<Arg>): seq<nat> {
    if |ws| == 0 then []
    else (if ws[0].ResultArg? && ws[0].res.Some? then [ws[0].res.value] else []) + Refs(ws[1..])
  }

  /** The results that the arguments a call actually sends refer to. */
  function SentRefs(c: Call): seq<nat> {
    Refs(StoredArgs(CallVisits(c))) + Refs(ChosenArgs(c.args))
  }

  function AllSentRefs(p: seq<Call>): seq<nat>
    decreases |p|
  {
    if |p| == 0 then [] else AllSentRefs(p[..|p| - 1]) + SentRefs(p[|p| - 1])
  }

  /** The fields of an argument fit the words they are packed into. */
  predicate NodeFits(a: Arg) {
    match a
    case ConstArg(_, _, size, format, bfOff, bfLen, _, _, kind, val) =>
      && UnitSize(a) < 256 && format < 256 && bfOff < 256 && bfLen < 256 && val < W64
      && (kind.Proc? ==> kind.perProc < 0x1_0000_0000)
    case ResultArg(_, _, size, format, dflt, _, opDiv, opAdd, val, _) =>
      size < 256 && format < 256 && dflt < W64 && opDiv < W64 && opAdd < W64 && val < W64
    case PointerArg(_, _, size, phys, _) => size < 256 && phys < W64
    case DataArg(_, _, data, _, _) => |data| < F.READABLE
    case _ => true
  }

  predicate CsumFits(f: CsumField) {
    && f.size < W64 && |f.chunks| < W64
    && forall i :: 0 <= i < |f.chunks| ==>
      f.chunks[i].size < W64 && (f.chunks[i].ConstChunk? ==> f.chunks[i].value < W64)
  }

  /** A call of a target with n system calls. */
  predicate CallWellFormed(c: Call, n: nat) {
    && CallOk(c) && CallSound(c)
    && c.meta < n && c.props.failNth < W64 && c.props.rerun < W64 && |c.args| <= 9
    && (c.ret.Some? ==> c.ret.value.ResultArg?)
    && (forall i :: 0 <= i < |c.args| ==>
      Chosen(c.args[i]).ConstArg? || Chosen(c.args[i]).ResultArg? || Chosen(c.args[i]).PointerArg?)
    && (forall i :: 0 <= i < |c.args| ==> NodeFits(Chosen(c.args[i])))
    && (forall i :: 0 <= i < |CallVisits(c)| ==> NodeFits(CallVisits(c)[i].arg))
    && (forall i :: 0 <= i < |c.csums| ==> CsumFits(c.csums[i]))
  }

  ghost function SeenIds(p: seq<Call>): set<nat>
    decreases |p|
  {
    if |p| == 0 then {} else SeenIds(p[..|p| - 1]) + IdsOf(CallVisits(p[|p| - 1]))
  }

  /** Call k is well-formed, its arguments are new, and what it sends refers to results of earlier calls. */
  ghost predicate WellFormedAt(p: seq<Call>, k: nat, n: nat)
    requires k < |p|
  {
    && CallWellFormed(p[k], n)
    && Distinct(CallVisits(p[k])) && IdsOf(CallVisits(p[k])) !! SeenIds(p[..k])
    && forall i :: 0 <= i < |SentRefs(p[k])| ==> SentRefs(p[k])[i] in UsedResults(p[..k])
  }

  ghost predicate WellFormed(p: seq<Call>, n: nat) {
    Sendable(p) && forall k :: 0 <= k < |p| ==> WellFormedAt(p, k, n)
  }

  // ----- Result indices -----

  /** The used results met so far have the indices 0, 1, 2, ... in order. */
  ghost predicate Numbered(env: Env, used: seq<nat>, seen: set<nat>) {
    && env.next == |used| && env.args.Keys <= seen
    && forall k :: 0 <= k < |used| ==> used[k] in env.args && env.args[used[k]].idx == k
  }

  lemma {:induction false} NoteFrame(env: Env, c: Call, vs: seq<Visit>)
    ensures var e := NoteVisits(env, c, vs);
            && e.next == env.next && e.args.Keys <= env.args.Keys + IdsOf(vs)
            && (forall id :: id in env.args && id !in IdsOf(vs) ==> id in e.args && e.args[id] == env.args[id])
            && (forall id :: !Lookup(env, id).ret ==> !Lookup(e, id).ret)
    decreases |vs|
  {
    hide WillBeUsed, AddrOf;
    if |vs| > 0 {
      NoteFrame(NoteVisit(env, c, vs[0]), c, vs[1..]);
      IdsStep(vs);
    }
  }

  lemma {:induction false} IdsStep(vs: seq<Visit>)
    requires |vs| > 0
    ensures IdsOf(vs) == {vs[0].arg.id} + IdsOf(vs[1..])
  {
    forall id | id in IdsOf(vs)
      ensures id in {vs[0].arg.id} + IdsOf(vs[1..])
    {
      var i :| 0 <= i < |vs| && vs[i].arg.id == id;
      if i > 0 { assert vs[1..][i - 1].arg.id == id; }
    }
    forall id | id in IdsOf(vs[1..])
      ensures id in IdsOf(vs)
    {
      var i :| 0 <= i < |vs[1..]| && vs[1..][i].arg.id == id;
      assert vs[i + 1].arg.id == id;
    }
  }

  lemma {:induction false} DistinctStep(vs: seq<Visit>)
    requires |vs| > 0 && Distinct(vs)
    ensures Distinct(vs[1..]) && vs[0].arg.id !in IdsOf(vs[1..])
  {
    forall i, j | 0 <= i < j < |vs[1..]|
      ensures vs[1..][i].arg.id != vs[1..][j].arg.id
    {
      assert vs[i + 1].arg.id != vs[j + 1].arg.id;
    }
  }

  lemma {:induction false} UsedAreIds(vs: seq<Visit>)
    ensures forall k :: 0 <= k < |Used(vs)| ==> Used(vs)[k] in IdsOf(vs)
  {
    if |vs| > 0 {
      UsedAreIds(vs[1..]);
      IdsStep(vs);
    }
  }

  lemma {:induction false} StepFrame(env: Env, v: Visit)
    requires !Lookup(env, v.arg.id).ret
    ensures var (e, recs) := CopyoutStep(env, v);
            && e.next == env.next + |recs| && |recs| == (if IsUsed(v.arg) then 1 else 0)
            && e.args.Keys <= env.args.Keys + {v.arg.id}
            && (forall id :: id in env.args && id != v.arg.id ==> id in e.args && e.args[id] == env.args[id])
            && (forall id :: Lookup(e, id).ret == Lookup(env, id).ret)
            && (IsUsed(v.arg) ==> v.arg.id in e.args && e.args[v.arg.id].idx == env.next && recs[0].index == env.next)
            && (IsUsed(v.arg) ==> recs[0].size == Size(v.arg))
  {
  }

  /** Copyouts number the used results consecutively and leave all other arguments alone. */
  lemma {:induction false} StepsFrame(env: Env, vs: seq<Visit>)
    requires Distinct(vs) && forall id :: id in IdsOf(vs) ==> !Lookup(env, id).ret
    ensures var (e, recs) := CopyoutSteps(env, vs);
            && e.next == env.next + |Used(vs)| && |recs| == |Used(vs)|
            && e.args.Keys <= env.args.Keys + IdsOf(vs)
            && (forall id :: id in env.args && id !in IdsOf(vs) ==> id in e.args && e.args[id] == env.args[id])
            && (forall k :: 0 <= k < |Used(vs)| ==> Used(vs)[k] in e.args && e.args[Used(vs)[k]].idx == env.next + k)
            && (forall k :: 0 <= k < |recs| ==> recs[k].index == env.next + k)
    decreases |vs|
  {
    hide IdsOf, Distinct, CopyoutStep;
    if |vs| > 0 {
      DistinctStep(vs);
      IdsStep(vs);
      StepFrame(env, vs[0]);
      StepsFrame(CopyoutStep(env, vs[0]).0, vs[1..]);
      UsedAreIds(vs[1..]);
    }
  }

  /** How the parts of a call's index assignment fit together. */
  lemma {:induction false} LowerNumbers(env: Env, c: Call, used: seq<nat>, seen: set<nat>)
    requires CallOk(c) && Numbered(env, used, seen) && (c.ret.Some? ==> c.ret.value.ResultArg?)
    requires Distinct(CallVisits(c)) && IdsOf(CallVisits(c)) !! seen
    requires forall k :: 0 <= k < |used| ==> used[k] in seen
    ensures var (e, c') := Lower(env, c);
            && Numbered(e, used + Used(CallVisits(c)), seen + IdsOf(CallVisits(c)))
            && c'.index == (if RetUsed(c) then |used| else F.NO_COPYOUT)
            && |c'.copyout| == |Used(ArgVisits(c.args))|
            && (forall k :: 0 <= k < |c'.copyout| ==> c'.copyout[k].index == |used| + (if RetUsed(c) then 1 else 0) + k)
  {
    hide NoteVisits, VisitCopyins, CopyoutSteps, SortByAddr, CsumCopyins, ToExecs, ArgVisits, CallVisits, Used;
    hide Distinct;
    hide IdsOf, Numbered;
    var vs := CallVisits(c);
    var env1 := NoteVisits(env, c, vs);
    var env2 := NoteRet(env1, c);
    var rest := ArgVisits(c.args);
    NotedNumbers(env, c, used, seen);
    StepsFrame(env2, rest);
    var used2 := used + if RetUsed(c) then [c.ret.value.id] else [];
    MoreNumbered(env2, CopyoutSteps(env2, rest).0, used2, rest, seen + IdsOf(vs));
    assert used2 + Used(rest) == used + Used(vs);
  }

  /** The first half: after the copyins and the return value, before the copyouts. */
  lemma {:induction false} NotedNumbers(env: Env, c: Call, used: seq<nat>, seen: set<nat>)
    requires Numbered(env, used, seen) && (c.ret.Some? ==> c.ret.value.ResultArg?)
    requires Distinct(CallVisits(c)) && IdsOf(CallVisits(c)) !! seen
    requires forall k :: 0 <= k < |used| ==> used[k] in seen
    ensures var vs, rest := CallVisits(c), ArgVisits(c.args);
            var env2 := NoteRet(NoteVisits(env, c, vs), c);
            var used2 := used + if RetUsed(c) then [c.ret.value.id] else [];
            && NoteVisits(env, c, vs).next == env.next == |used| && Numbered(env2, used2, seen + IdsOf(vs))
            && (forall id :: id in IdsOf(rest) ==> !Lookup(env2, id).ret)
            && IdsOf(rest) <= seen + IdsOf(vs) && Distinct(rest)
            && (forall k :: 0 <= k < |used2| ==> used2[k] !in IdsOf(rest))
            && CopyoutSteps(env2, vs) == CopyoutSteps(env2, rest)
            && Used(vs) == (if RetUsed(c) then [c.ret.value.id] else []) + Used(rest)
  {
    hide NoteVisits, CopyoutSteps, ArgVisits, CallVisits, Used, Distinct, IdsOf;
    var vs, rest := CallVisits(c), ArgVisits(c.args);
    var env1 := NoteVisits(env, c, vs);
    var env2 := NoteRet(env1, c);
    NoteFrame(env, c, vs);
    RetFirst(c, env2);
    forall id | id in IdsOf(rest)
      ensures !Lookup(env2, id).ret
    {
      assert id in IdsOf(vs) && id !in seen && id !in env.args;
      assert !Lookup(env, id).ret;
    }
    RetNumbered(env1, c, used, seen + IdsOf(vs));
  }

  lemma {:induction false} RetNumbered(env: Env, c: Call, used: seq<nat>, seen: set<nat>)
    requires Numbered(env, used, seen) && (RetUsed(c) ==> c.ret.value.id in seen && c.ret.value.id !in used)
    ensures Numbered(NoteRet(env, c), used + (if RetUsed(c) then [c.ret.value.id] else []), seen)
  {
  }

  lemma {:induction false} MoreNumbered(env: Env, e: Env, used: seq<nat>, vs: seq<Visit>, seen: set<nat>)
    requires Numbered(env, used, seen) && IdsOf(vs) <= seen && e.args.Keys <= env.args.Keys + IdsOf(vs)
    requires forall k :: 0 <= k < |used| ==> used[k] !in IdsOf(vs)
    requires e.next == env.next + |Used(vs)|
    requires forall id :: id in env.args && id !in IdsOf(vs) ==> id in e.args && e.args[id] == env.args[id]
    requires forall k :: 0 <= k < |Used(vs)| ==> Used(vs)[k] in e.args && e.args[Used(vs)[k]].idx == env.next + k
    ensures Numbered(e, used + Used(vs), seen)
  {
    hide Used;
  }

  /** The return value comes first, apart from everything else, and is never copied out. */
  lemma {:induction false} RetFirst(c: Call, env2: Env)
    requires Distinct(CallVisits(c)) && (c.ret.Some? ==> c.ret.value.ResultArg?)
    requires RetUsed(c) ==> Lookup(env2, c.ret.value.id).ret
    ensures CopyoutSteps(env2, CallVisits(c)) == CopyoutSteps(env2, ArgVisits(c.args))
    ensures Used(CallVisits(c)) == (if RetUsed(c) then [c.ret.value.id] else []) + Used(ArgVisits(c.args))
    ensures Distinct(ArgVisits(c.args))
    ensures IdsOf(CallVisits(c)) == (if c.ret.Some? then {c.ret.value.id} else {}) + IdsOf(ArgVisits(c.args))
    ensures c.ret.Some? ==> c.ret.value.id !in IdsOf(ArgVisits(c.args))
  {
    hide ArgVisits;
    var vs, rest := CallVisits(c), ArgVisits(c.args);
    if c.ret.Some? {
      assert vs[1..] == rest;
      DistinctStep(vs);
      IdsStep(vs);
      var (e, r) := CopyoutSteps(env2, rest);
      assert [] + r == r;
    } else {
      assert vs == rest;
    }
  }

  // ----- References -----

  /** The result indices that sent arguments carry. */
  function Indices(args: seq<F.ExecArg>): seq<nat> {
    if |args| == 0 then []
    else (if args[0].ExecResult? then [args[0].index] else []) + Indices(args[1..])
  }

  ghost function IdxOf(env: Env, rs: seq<nat>): (r: seq<nat>)
    ensures |r| == |rs|
  {
    seq(|rs|, i requires 0 <= i < |rs| => Lookup(env, rs[i]).idx)
  }

  lemma {:induction false} IndicesConcat(a: seq<F.ExecArg>, b: seq<F.ExecArg>)
    ensures Indices(a + b) == Indices(a) + Indices(b)
  {
    if |a| == 0 {
      assert a + b == b;
    } else {
      assert (a + b)[1..] == a[1..] + b;
      IndicesConcat(a[1..], b);
      var first := if a[0].ExecResult? then [a[0].index] else [];
      assert first + (Indices(a[1..]) + Indices(b)) == first + Indices(a[1..]) + Indices(b);
    }
  }

  /** The two environments give each of the results the same index. */
  ghost predicate Agree(a: Env, b: Env, rs: seq<nat>) {
    forall i :: 0 <= i < |rs| ==> Lookup(a, rs[i]).idx == Lookup(b, rs[i]).idx
  }

  lemma {:induction false} IdxConcat(env: Env, a: seq<nat>, b: seq<nat>)
    ensures IdxOf(env, a + b) == IdxOf(env, a) + IdxOf(env, b)
  {
  }

  lemma {:induction false} ToExecIndex(env: Env, a: Arg)
    requires Writable(a)
    ensures Indices([ToExec(env, a)]) == IdxOf(env, Refs([Chosen(a)]))
  {
    if a.UnionArg? {
      ToExecIndex(env, a.option);
    } else {
      assert [ToExec(env, a)][1..] == [] && [a][1..] == [];
      assert Refs([a]) == if a.ResultArg? && a.res.Some? then [a.res.value] else [];
    }
  }

  lemma {:induction false} ToExecsIndex(env: Env, args: seq<Arg>)
    requires forall i :: 0 <= i < |args| ==> Writable(args[i])
    ensures Indices(ToExecs(env, args)) == IdxOf(env, Refs(ChosenArgs(args)))
  {
    hide ToExec, Writable, Chosen;
    if |args| > 0 {
      ToExecIndex(env, args[0]);
      ToExecsIndex(env, args[1..]);
      IndicesConcat([ToExec(env, args[0])], ToExecs(env, args[1..]));
      RefsStep(ChosenArgs(args));
      assert ChosenArgs(args)[1..] == ChosenArgs(args[1..]);
      IdxConcat(env, Refs([Chosen(args[0])]), Refs(ChosenArgs(args[1..])));
    }
  }

  lemma {:induction false} RefsStep(ws: seq<Arg>)
    requires |ws| > 0
    ensures Refs(ws) == Refs([ws[0]]) + Refs(ws[1..])
  {
    assert [ws[0]][1..] == [];
    assert Refs([ws[0]]) == if ws[0].ResultArg? && ws[0].res.Some? then [ws[0].res.value] else [];
  }

  ghost predicate Misses(rs: seq<nat>, ids: set<nat>) {
    forall i :: 0 <= i < |rs| ==> rs[i] !in ids
  }

  lemma {:induction false} MissBoth(a: seq<nat>, b: seq<nat>, ids: set<nat>, less: set<nat>)
    requires Misses(a + b, ids) && less <= ids
    ensures Misses(a, less) && Misses(b, less)
  {
    forall i | 0 <= i < |a| ensures a[i] !in ids { assert (a + b)[i] == a[i]; }
    forall i | 0 <= i < |b| ensures b[i] !in ids { assert (a + b)[|a| + i] == b[i]; }
  }

  lemma {:induction false} IdxAgree(a: Env, b: Env, rs: seq<nat>)
    requires Agree(a, b, rs)
    ensures IdxOf(a, rs) == IdxOf(b, rs)
  {
  }

  lemma {:induction false} NoteAgreesOne(env: Env, c: Call, v: Visit, rs: seq<nat>)
    requires Misses(rs, {v.arg.id})
    ensures Agree(NoteVisit(env, c, v), env, rs)
  {
    hide WillBeUsed, AddrOf;
  }

  lemma {:induction false} CopyinIndices(a: seq<D.CopyinRec>, b: seq<D.CopyinRec>)
    ensures Indices(D.CopyinArgs(a + b)) == Indices(D.CopyinArgs(a)) + Indices(D.CopyinArgs(b))
  {
    assert D.CopyinArgs(a + b) == D.CopyinArgs(a) + D.CopyinArgs(b);
    IndicesConcat(D.CopyinArgs(a), D.CopyinArgs(b));
  }

  lemma {:induction false} VisitIndices(env: Env, c: Call, vs: seq<Visit>)
    requires Misses(Refs(StoredArgs(vs)), IdsOf(vs))
    ensures Indices(D.CopyinArgs(VisitCopyins(env, c, vs))) == IdxOf(env, Refs(StoredArgs(vs)))
    decreases |vs|
  {
    if |vs| > 0 {
      hide Refs, StoredArgs, Misses, IdxOf, Agree, IdsOf, NoteVisit, VisitCopyin, Indices, D.CopyinArgs, Stored;
      var v, rest := vs[0], vs[1..];
      var env1 := NoteVisit(env, c, v);
      var mine := Refs(if v.base.Some? && Stored(v.arg) then [v.arg] else []);
      var others := Refs(StoredArgs(rest));
      IdsStep(vs);
      StoredRefsStep(vs);
      MissBoth(mine, others, IdsOf(vs), {v.arg.id});
      MissBoth(mine, others, IdsOf(vs), IdsOf(rest));
      VisitIndices(env1, c, rest);
      NoteAgreesOne(env, c, v, others);
      IdxAgree(env1, env, others);
      VisitIndex(env, c, v);
      CopyinIndices(VisitCopyin(env1, v), VisitCopyins(env1, c, rest));
      IdxConcat(env, mine, others);
    } else {
      assert IdxOf(env, []) == [];
    }
  }

  lemma {:induction false} StoredRefsStep(vs: seq<Visit>)
    requires |vs| > 0
    ensures Refs(StoredArgs(vs))
            == Refs(if vs[0].base.Some? && Stored(vs[0].arg) then [vs[0].arg] else []) + Refs(StoredArgs(vs[1..]))
  {
    hide Stored;
    if vs[0].base.Some? && Stored(vs[0].arg) {
      RefsStep(StoredArgs(vs));
      assert StoredArgs(vs)[1..] == StoredArgs(vs[1..]);
    } else {
      assert StoredArgs(vs) == StoredArgs(vs[1..]);
    }
  }

  /** Noting an argument does not change the index of the result it refers to. */
  lemma {:induction false} VisitIndex(env: Env, c: Call, v: Visit)
    requires Misses(Refs(if v.base.Some? && Stored(v.arg) then [v.arg] else []), {v.arg.id})
    ensures Indices(D.CopyinArgs(VisitCopyin(NoteVisit(env, c, v), v)))
            == IdxOf(env, Refs(if v.base.Some? && Stored(v.arg) then [v.arg] else []))
  {
    hide NoteVisit, AddrOf, Refs;
    if v.base.Some? && Stored(v.arg) {
      var env1 := NoteVisit(env, c, v);
      ToExecIndex(env1, v.arg);
      assert D.CopyinArgs(VisitCopyin(env1, v)) == [ToExec(env1, v.arg)];
      assert Chosen(v.arg) == v.arg;
      NoteAgreesOne(env, c, v, Refs([v.arg]));
      IdxAgree(env1, env, Refs([v.arg]));
    } else {
      NoRefs(env);
    }
  }

  lemma {:induction false} NoRefs(env: Env)
    ensures IdxOf(env, Refs([])) == [] && Refs([]) == []
  {
  }

  lemma {:induction false} CsumIndices(env: Env, fs: seq<CsumField>)
    ensures Indices(D.CopyinArgs(CsumCopyins(env, fs))) == []
  {
    if |fs| > 0 {
      var r := CsumCopyins(env, fs);
      CsumIndices(env, fs[..|fs| - 1]);
      assert D.CopyinArgs(r)[1..] == D.CopyinArgs(r[1..]);
      assert r[1..] == CsumCopyins(env, fs[..|fs| - 1]);
    }
  }

  /** What a call sends refers to the indices of the results it refers to. */
  lemma {:induction false} CallIndices(env: Env, c: Call)
    requires CallOk(c) && Misses(SentRefs(c), IdsOf(CallVisits(c)))
    ensures Indices(D.ArgsOf(Lower(env, c).1)) == IdxOf(env, SentRefs(c))
  {
    hide NoteVisits, VisitCopyins, CsumCopyins, SortByAddr, ToExecs, CopyoutSteps, CallVisits, IdsOf, NoteRet;
    hide Refs, StoredArgs, ChosenArgs, Misses, IdxOf, Agree, Indices, D.CopyinArgs;
    var vs := CallVisits(c);
    var a, b := Refs(StoredArgs(vs)), Refs(ChosenArgs(c.args));
    MissBoth(a, b, IdsOf(vs), IdsOf(vs));
    var env1 := NoteVisits(env, c, vs);
    var env2 := NoteRet(env1, c);
    var x, y, z := VisitCopyins(env, c, vs), CsumCopyins(env1, SortByAddr(env1, c.csums)), ToExecs(env2, c.args);
    VisitIndices(env, c, vs);
    CsumIndices(env1, SortByAddr(env1, c.csums));
    ToExecsIndex(env2, c.args);
    NoteAgrees(env, c, b);
    IdxAgree(env2, env, b);
    CopyinIndices(x, y);
    IndicesConcat(D.CopyinArgs(x + y), z);
    IdxConcat(env, a, b);
    assert Indices(D.CopyinArgs(x)) + [] == Indices(D.CopyinArgs(x));
  }

  lemma {:induction false} NoteAgrees(env: Env, c: Call, rs: seq<nat>)
    requires Misses(rs, IdsOf(CallVisits(c)))
    ensures Agree(NoteRet(NoteVisits(env, c, CallVisits(c)), c), env, rs)
  {
    hide NoteVisits;
    var vs := CallVisits(c);
    NoteMisses(env, c, vs, rs);
    if c.ret.Some? {
      assert vs[0].arg == c.ret.value;
      assert c.ret.value.id in IdsOf(vs);
    }
  }

  lemma {:induction false} NoteMisses(env: Env, c: Call, vs: seq<Visit>, rs: seq<nat>)
    requires Misses(rs, IdsOf(vs))
    ensures Agree(NoteVisits(env, c, vs), env, rs)
    decreases |vs|
  {
    hide WillBeUsed, AddrOf;
    if |vs| > 0 {
      IdsStep(vs);
      NoteMisses(NoteVisit(env, c, vs[0]), c, vs[1..], rs);
    }
  }

  // ----- Variables -----

  /** How far variables reach once those of the given indices are noted. */
  function Reach(n: nat, xs: seq<nat>): (r: nat)
    ensures r >= n
    decreases |xs|
  {
    if |xs| == 0 then n else Reach(if n <= xs[0] then xs[0] + 1 else n, xs[1..])
  }

  lemma {:induction false} ReachConcat(n: nat, a: seq<nat>, b: seq<nat>)
    ensures Reach(n, a + b) == Reach(Reach(n, a), b)
    decreases |a|
  {
    if |a| == 0 {
      assert a + b == b;
    } else {
      assert (a + b)[1..] == a[1..] + b;
      ReachConcat(if n <= a[0] then a[0] + 1 else n, a[1..], b);
    }
  }

  /** With all indices below m, the reach is m exactly when it was before or the last index is among them. */
  lemma {:induction false} ReachesEnd(n: nat, xs: seq<nat>, m: nat)
    requires n <= m && forall i :: 0 <= i < |xs| ==> xs[i] < m
    ensures Reach(n, xs) <= m
    ensures Reach(n, xs) == m <==> n == m || exists i :: 0 <= i < |xs| && xs[i] == m - 1
    decreases |xs|
  {
    if |xs| > 0 {
      var n' := if n <= xs[0] then xs[0] + 1 else n;
      ReachesEnd(n', xs[1..], m);
      if n' == m {
        assert n == m || xs[0] == m - 1;
      }
      if i :| 0 <= i < |xs[1..]| && xs[1..][i] == m - 1 {
        assert xs[i + 1] == m - 1;
      }
    }
  }

  lemma {:induction false} VarsReach(vars: seq<nat>, args: seq<F.ExecArg>)
    ensures |D.NoteVars(vars, args)| == Reach(|vars|, Indices(args))
    decreases |args|
  {
    if |args| > 0 {
      VarsReach(D.NoteVar(vars, args[0]), args[1..]);
      if args[0].ExecResult? {
        assert Indices(args)[1..] == Indices(args[1..]);
      } else {
        assert Indices(args) == Indices(args[1..]);
      }
    }
  }

  lemma {:induction false} VarsSnoc(vars: seq<nat>, cs: seq<D.ExecCall>, c: D.ExecCall)
    ensures D.VarsOf(vars, cs + [c]) == D.NoteVars(D.VarsOf(vars, cs), D.ArgsOf(c))
    decreases |cs|
  {
    hide D.NoteVars, D.ArgsOf;
    if |cs| == 0 {
      assert cs + [c] == [c] && [c][1..] == [];
    } else {
      assert (cs + [c])[1..] == cs[1..] + [c];
      VarsSnoc(D.NoteVars(vars, D.ArgsOf(cs[0])), cs[1..], c);
    }
  }

  lemma {:induction false} NumSnoc(n: nat, cs: seq<D.ExecCall>, c: D.ExecCall)
    ensures D.NumVarsOf(n, cs + [c]) == D.CallVars(D.NumVarsOf(n, cs), c)
    decreases |cs|
  {
    hide D.CallVars;
    if |cs| == 0 {
      assert cs + [c] == [c] && [c][1..] == [];
    } else {
      assert (cs + [c])[1..] == cs[1..] + [c];
      NumSnoc(D.CallVars(n, cs[0]), cs[1..], c);
    }
  }

  lemma {:induction false} RaisesByOne(n: nat, cs: seq<D.CopyoutRec>)
    requires n + |cs| < W64 && forall k :: 0 <= k < |cs| ==> cs[k].index == n + k
    ensures D.RaiseAll(n, cs) == n + |cs|
    decreases |cs|
  {
    if |cs| > 0 { RaisesByOne(n + 1, cs[1..]); }
  }

  lemma {:induction false} LowerSnoc(env: Env, p: seq<Call>)
    requires |p| > 0 && Sendable(p)
    ensures var q, c := p[..|p| - 1], p[|p| - 1];
            && LowerAll(env, p).0 == Lower(LowerAll(env, q).0, c).0
            && LowerAll(env, p).1 == LowerAll(env, q).1 + [Lower(LowerAll(env, q).0, c).1]
    decreases |p|
  {
    hide Lower, CallOk;
    if |p| == 1 {
      assert p[1..] == [] && p[..0] == [];
    } else {
      LowerSnoc(Lower(env, p[0]).0, p[1..]);
      assert p[1..][..|p| - 2] == p[..|p| - 1][1..];
    }
  }

  // ----- The whole program -----

  ghost function EnvOf(p: seq<Call>): Env
    requires Sendable(p)
  {
    LowerAll(NO_ENV, p).0
  }

  lemma {:induction false} PrefixWellFormed(p: seq<Call>, n: nat)
    requires |p| > 0 && WellFormed(p, n)
    ensures WellFormed(p[..|p| - 1], n) && WellFormedAt(p, |p| - 1, n)
  {
    hide CallWellFormed, Distinct, IdsOf, SentRefs, CallVisits;
    var q := p[..|p| - 1];
    forall k | 0 <= k < |q|
      ensures WellFormedAt(q, k, n)
    {
      assert WellFormedAt(p, k, n);
      assert q[..k] == p[..k];
    }
    AllOk(p, n);
  }

  lemma {:induction false} AllOk(p: seq<Call>, n: nat)
    requires WellFormed(p, n)
    ensures forall i :: 0 <= i < |p| ==> CallOk(p[i]) && CallSound(p[i]) && CallWellFormed(p[i], n)
  {
    hide CallOk, CallSound;
    forall i | 0 <= i < |p|
      ensures CallOk(p[i]) && CallSound(p[i]) && CallWellFormed(p[i], n)
    {
      assert WellFormedAt(p, i, n);
    }
  }

  /** The state of the serializer after a well-formed program. */
  ghost predicate Tracked(p: seq<Call>)
    requires Sendable(p)
  {
    && Numbered(EnvOf(p), UsedResults(p), SeenIds(p))
    && (forall k :: 0 <= k < |UsedResults(p)| ==> UsedResults(p)[k] in SeenIds(p))
    && (forall i :: 0 <= i < |AllSentRefs(p)| ==> AllSentRefs(p)[i] in UsedResults(p))
    && D.NumVarsOf(0, Sent(p)) == |UsedResults(p)|
    && |D.VarsOf([], Sent(p))| == Reach(0, IdxOf(EnvOf(p), AllSentRefs(p)))
  }

  lemma {:induction false} RefsMiss(used: seq<nat>, seen: set<nat>, rs: seq<nat>, ids: set<nat>)
    requires (forall k :: 0 <= k < |used| ==> used[k] in seen) && ids !! seen
    requires forall i :: 0 <= i < |rs| ==> rs[i] in used
    ensures Misses(rs, ids)
  {
  }

  /** Later calls leave the indices of earlier results as they are. */
  lemma {:induction false} IndicesStay(a: Env, b: Env, used: seq<nat>, more: seq<nat>, s: set<nat>, t: set<nat>,
                                       rs: seq<nat>)
    requires Numbered(a, used, s) && Numbered(b, used + more, t)
    requires forall i :: 0 <= i < |rs| ==> rs[i] in used
    ensures IdxOf(a, rs) == IdxOf(b, rs)
  {
    forall i | 0 <= i < |rs|
      ensures Lookup(a, rs[i]).idx == Lookup(b, rs[i]).idx
    {
      var k :| 0 <= k < |used| && used[k] == rs[i];
      assert (used + more)[k] == rs[i];
    }
  }

  lemma {:induction false} CallCounts(c: D.ExecCall, n: nat, ret: bool)
    requires n + (if ret then 1 else 0) + |c.copyout| < F.NO_COPYOUT
    requires c.index == if ret then n else F.NO_COPYOUT
    requires forall k :: 0 <= k < |c.copyout| ==> c.copyout[k].index == n + (if ret then 1 else 0) + k
    ensures D.CallVars(n, c) == n + (if ret then 1 else 0) + |c.copyout|
  {
    RaisesByOne(n + if ret then 1 else 0, c.copyout);
  }

  lemma {:induction false} TrackStep(p: seq<Call>, n: nat)
    requires |p| > 0 && WellFormed(p, n) && |UsedResults(p)| < F.NO_COPYOUT
    requires Tracked(p[..|p| - 1])
    ensures Tracked(p)
  {
    hide Lower, CallVisits, SentRefs, Used, IdsOf, Distinct, CallWellFormed, IdxOf, Indices, D.ArgsOf, D.NoteVars;
    hide D.CallVars;
    hide LowerAll, D.VarsOf, D.NumVarsOf, Numbered, Misses, CallOk;
    var q, c := p[..|p| - 1], p[|p| - 1];
    PrefixWellFormed(p, n);
    var env := EnvOf(q);
    var used, seen := UsedResults(q), SeenIds(q);
    RetIsResult(c, n);
    LowerNumbers(env, c, used, seen);
    LowerSnoc(NO_ENV, p);
    var (e, c') := Lower(env, c);
    UsedAreIds(CallVisits(c));
    RefsMiss(used, seen, SentRefs(c), IdsOf(CallVisits(c)));
    CallIndices(env, c);
    IndicesStay(env, e, used, Used(CallVisits(c)), seen, seen + IdsOf(CallVisits(c)), AllSentRefs(q));
    IndicesStay(env, e, used, Used(CallVisits(c)), seen, seen + IdsOf(CallVisits(c)), SentRefs(c));
    IdxConcat(e, AllSentRefs(q), SentRefs(c));
    VarsSnoc([], Sent(q), c');
    VarsReach(D.VarsOf([], Sent(q)), D.ArgsOf(c'));
    ReachConcat(0, IdxOf(e, AllSentRefs(q)), IdxOf(e, SentRefs(c)));
    NumSnoc(0, Sent(q), c');
    UsedCount(c);
    CallCounts(c', |used|, RetUsed(c));
  }

  lemma {:induction false} RetIsResult(c: Call, n: nat)
    requires CallWellFormed(c, n)
    ensures CallOk(c) && (c.ret.Some? ==> c.ret.value.ResultArg?)
  {
  }

  lemma {:induction false} UsedCount(c: Call)
    requires Distinct(CallVisits(c)) && (c.ret.Some? ==> c.ret.value.ResultArg?)
    ensures |Used(CallVisits(c))| == (if RetUsed(c) then 1 else 0) + |Used(ArgVisits(c.args))|
  {
    RetFirst(c, if c.ret.Some? then Env(map[c.ret.value.id := ArgInfo(0, 0, true)], 0) else NO_ENV);
  }

  lemma {:induction false} Track(p: seq<Call>, n: nat)
    requires WellFormed(p, n) && |UsedResults(p)| < F.NO_COPYOUT
    ensures Tracked(p)
    decreases |p|
  {
    if |p| > 0 {
      hide WellFormed, Tracked, CallOk;
      PrefixWellFormed(p, n);
      assert |UsedResults(p[..|p| - 1])| <= |UsedResults(p)|;
      Track(p[..|p| - 1], n);
      TrackStep(p, n);
    }
  }

  /** Decoding finds as many variables as there are results exactly when there are no
      results or the last one is referred to by an argument that is actually sent. */
  ghost predicate LastResultSent(p: seq<Call>) {
    var used := UsedResults(p);
    |used| == 0 || used[|used| - 1] in AllSentRefs(p)
  }

  lemma {:induction false} VarsMatch(p: seq<Call>, n: nat)
    requires WellFormed(p, n) && |UsedResults(p)| < F.NO_COPYOUT
    ensures |D.VarsOf([], Sent(p))| == D.NumVarsOf(0, Sent(p)) <==> LastResultSent(p)
    ensures Results(p) == |UsedResults(p)|
  {
    assert Sendable(p);
    hide WellFormed, D.VarsOf, D.NumVarsOf, LowerAll, UsedResults, AllSentRefs, SeenIds, Sendable;
    Track(p, n);
    hide Numbered, IdxOf, Reach;
    var env, used, refs := EnvOf(p), UsedResults(p), AllSentRefs(p);
    NumbersRefs(env, used, SeenIds(p), refs);
    ReachesEnd(0, IdxOf(env, refs), |used|);
  }

  /** The index of a reference is the place of the result it refers to. */
  lemma {:induction false} NumbersRefs(env: Env, used: seq<nat>, seen: set<nat>, refs: seq<nat>)
    requires Numbered(env, used, seen) && forall i :: 0 <= i < |refs| ==> refs[i] in used
    ensures env.next == |used|
    ensures var xs := IdxOf(env, refs);
            && (forall i :: 0 <= i < |xs| ==> xs[i] < |used| && used[xs[i]] == refs[i])
            && (|used| > 0 ==> ((exists i :: 0 <= i < |xs| && xs[i] == |used| - 1) <==> used[|used| - 1] in refs))
  {
    var xs := IdxOf(env, refs);
    forall i | 0 <= i < |xs|
      ensures xs[i] < |used| && used[xs[i]] == refs[i]
    {
      assert refs[i] in used;
      var k :| 0 <= k < |used| && used[k] == refs[i];
      assert env.args[used[k]].idx == k;
    }
    if |used| > 0 && used[|used| - 1] in refs {
      var i :| 0 <= i < |refs| && refs[i] == used[|used| - 1];
      assert env.args[used[|used| - 1]].idx == |used| - 1;
      assert xs[i] == |used| - 1;
    }
  }

  // ----- Everything sent fits the format -----

  ghost predicate EnvFits(env: Env) {
    forall id :: id in env.args ==> env.args[id].addr < W64 && env.args[id].idx < W64
  }

  lemma {:induction false} ArgFitsFormat(env: Env, a: Arg)
    requires EnvFits(env) && Writable(a) && NodeFits(Chosen(a))
    ensures F.ArgFits(ToExec(env, a))
    ensures Chosen(a).ConstArg? || Chosen(a).ResultArg? || Chosen(a).PointerArg? ==> F.Scalar(ToExec(env, a))
  {
    if a.UnionArg? { ArgFitsFormat(env, a.option); }
  }

  lemma {:induction false} ArgsFitFormat(env: Env, args: seq<Arg>)
    requires EnvFits(env) && forall i :: 0 <= i < |args| ==> Writable(args[i]) && NodeFits(Chosen(args[i]))
    requires forall i :: 0 <= i < |args| ==>
             Chosen(args[i]).ConstArg? || Chosen(args[i]).ResultArg? || Chosen(args[i]).PointerArg?
    ensures forall i :: 0 <= i < |args| ==> F.ArgFits(ToExecs(env, args)[i]) && F.Scalar(ToExecs(env, args)[i])
  {
    hide F.ArgFits, F.Scalar, NodeFits, ToExec, Writable, Chosen, EnvFits;
    if |args| > 0 {
      ArgFitsFormat(env, args[0]);
      ArgsFitFormat(env, args[1..]);
    }
  }

  ghost predicate CopyinsFit(cs: seq<D.CopyinRec>) {
    forall i :: 0 <= i < |cs| ==> cs[i].addr < W64 && F.ArgFits(cs[i].arg)
  }

  lemma {:induction false} VisitsFit(env: Env, c: Call, vs: seq<Visit>)
    requires EnvFits(env) && forall i :: 0 <= i < |vs| ==> NodeFits(vs[i].arg)
    ensures EnvFits(NoteVisits(env, c, vs)) && CopyinsFit(VisitCopyins(env, c, vs))
    decreases |vs|
  {
    hide F.ArgFits, NodeFits, ToExec, WillBeUsed;
    if |vs| > 0 {
      var env1 := NoteVisit(env, c, vs[0]);
      if vs[0].base.Some? && Stored(vs[0].arg) {
        assert Chosen(vs[0].arg) == vs[0].arg;
        ArgFitsFormat(env1, vs[0].arg);
      }
      VisitsFit(env1, c, vs[1..]);
    }
  }

  lemma {:induction false} CsumsFit(env: Env, fs: seq<CsumField>)
    requires EnvFits(env) && forall i :: 0 <= i < |fs| ==> CsumFits(fs[i])
    ensures CopyinsFit(CsumCopyins(env, fs))
  {
    if |fs| > 0 {
      CsumsFit(env, fs[..|fs| - 1]);
      var f := fs[|fs| - 1];
      assert CsumFits(f);
      assert F.ArgFits(CsumCopyin(env, f).arg);
    }
  }

  lemma {:induction false} SortKeeps(env: Env, fs: seq<CsumField>)
    requires forall i :: 0 <= i < |fs| ==> CsumFits(fs[i])
    ensures forall i :: 0 <= i < |SortByAddr(env, fs)| ==> CsumFits(SortByAddr(env, fs)[i])
  {
    hide CsumFits, SortByAddr;
    var r := SortByAddr(env, fs);
    forall i | 0 <= i < |r|
      ensures CsumFits(r[i])
    {
      assert r[i] in multiset(r);
      assert r[i] in multiset(fs);
      assert r[i] in fs;
    }
  }

  lemma {:induction false} StepsFit(env: Env, vs: seq<Visit>)
    requires EnvFits(env) && (forall i :: 0 <= i < |vs| ==> NodeFits(vs[i].arg)) && CopyoutSteps(env, vs).0.next < W64
    ensures var (e, recs) := CopyoutSteps(env, vs);
            && env.next <= e.next && EnvFits(e)
            && (forall k :: 0 <= k < |recs| ==> recs[k].index < W64 && recs[k].addr < W64 && recs[k].size < W64)
    decreases |vs|
  {
    if |vs| > 0 {
      var (e1, r1) := CopyoutStep(env, vs[0]);
      StepsGrow(e1, vs[1..]);
      assert NodeFits(vs[0].arg);
      StepsFit(e1, vs[1..]);
    }
  }

  lemma {:induction false} StepsGrow(env: Env, vs: seq<Visit>)
    ensures env.next <= CopyoutSteps(env, vs).0.next
    decreases |vs|
  {
    if |vs| > 0 { StepsGrow(CopyoutStep(env, vs[0]).0, vs[1..]); }
  }

  lemma {:induction false} LowerFits(env: Env, c: Call, n: nat)
    requires EnvFits(env) && CallWellFormed(c, n) && CallOk(c) && Lower(env, c).0.next < F.NO_COPYOUT
    ensures env.next <= Lower(env, c).0.next
    ensures EnvFits(Lower(env, c).0) && D.CallFits(Lower(env, c).1, n)
  {
    hide NoteVisits, VisitCopyins, CsumCopyins, SortByAddr, ToExecs, CopyoutSteps, CallVisits, F.ArgFits, NodeFits;
    hide CsumFits;
    hide F.Scalar, Chosen, Writable;
    var vs := CallVisits(c);
    var env1 := NoteVisits(env, c, vs);
    var env2 := NoteRet(env1, c);
    NoteFrame(env, c, vs);
    VisitsFit(env, c, vs);
    SortKeeps(env1, c.csums);
    CsumsFit(env1, SortByAddr(env1, c.csums));
    StepsGrow(env2, vs);
    StepsFit(env2, vs);
    ArgsFitFormat(env2, c.args);
  }

  lemma {:induction false} AllFit(p: seq<Call>, n: nat)
    requires WellFormed(p, n)
    requires EnvOf(p).next < F.NO_COPYOUT
    ensures EnvFits(EnvOf(p)) && forall i :: 0 <= i < |p| ==> D.CallFits(Sent(p)[i], n)
    decreases |p|
  {
    hide Lower, LowerAll, WellFormed, WellFormedAt, CallWellFormed, D.CallFits, CallOk, CallSound, EnvFits;
    if |p| == 0 {
      NothingKnown();
    } else {
      var q, c := p[..|p| - 1], p[|p| - 1];
      AllOk(p, n);
      PrefixWellFormed(p, n);
      LowerSnoc(NO_ENV, p);
      LowerGrows(EnvOf(q), c);
      AllFit(q, n);
      LowerFits(EnvOf(q), c, n);
      forall i | 0 <= i < |p|
        ensures D.CallFits(Sent(p)[i], n)
      {
        if i < |q| { assert Sent(p)[i] == Sent(q)[i]; }
      }
    }
  }

  lemma {:induction false} NothingKnown()
    ensures EnvOf([]) == NO_ENV && EnvFits(NO_ENV)
  {
  }

  lemma {:induction false} LowerGrows(env: Env, c: Call)
    requires CallOk(c)
    ensures env.next <= Lower(env, c).0.next
  {
    hide NoteVisits, VisitCopyins, CsumCopyins, SortByAddr, ToExecs, CopyoutSteps, CallVisits;
    NoteFrame(env, c, CallVisits(c));
    StepsGrow(NoteRet(NoteVisits(env, c, CallVisits(c)), c), CallVisits(c));
  }

  /** Decoding a serialized program gives back its calls, in order, with the same properties,
      arguments, copyins and copyouts, exactly when the last result that anything uses is
      referred to by an argument that is sent; otherwise it reports mismatching variables. */
  lemma {:induction false} DeserializeSerialized(p: seq<Call>, n: nat)
    requires WellFormed(p, n) && n <= F.INSTR_SETPROPS
    requires Results(p) <= MAX_COMMANDS
    ensures D.Decode(D.Encode(Sent(p)), n)
            == if LastResultSent(p) then D.Ok(Sent(p), D.VarsOf([], Sent(p))) else D.BadVars
  {
    assert Sendable(p);
    hide D.Decode, D.Encode, WellFormed, LastResultSent, D.VarsOf, D.NumVarsOf, LowerAll, Sendable;
    AllFit(p, n);
    CountIsResults(p, n);
    VarsMatch(p, n);
    D.DecodeEncode(Sent(p), n);
  }

  /** One index is given out for each result that something uses. */
  lemma {:induction false} CountIsResults(p: seq<Call>, n: nat)
    requires WellFormed(p, n)
    ensures Results(p) == |UsedResults(p)|
    ensures Numbered(EnvOf(p), UsedResults(p), SeenIds(p))
    ensures forall k :: 0 <= k < |UsedResults(p)| ==> UsedResults(p)[k] in SeenIds(p)
    decreases |p|
  {
    if |p| > 0 {
      hide Lower, CallWellFormed, CallVisits, IdsOf, Distinct, Used, SentRefs, CallOk;
      var q, c := p[..|p| - 1], p[|p| - 1];
      PrefixWellFormed(p, n);
      LowerSnoc(NO_ENV, p);
      CountIsResults(q, n);
      RetIsResult(c, n);
      LowerNumbers(EnvOf(q), c, UsedResults(q), SeenIds(q));
      UsedAreIds(CallVisits(c));
    }
  }

  lemma {:induction false} FrontWellFormed(p: seq<Call>, k: nat, n: nat)
    requires WellFormed(p, n) && k <= |p|
    ensures WellFormed(p[..k], n)
  {
    hide CallWellFormed, CallVisits, IdsOf, Distinct, SentRefs, CallOk;
    var q := p[..k];
    forall j | 0 <= j < |q| ensures WellFormedAt(q, j, n) {
      assert WellFormedAt(p, j, n);
      assert q[..j] == p[..j];
    }
  }

  /** Every result index a call reads was given out to an earlier call, and to the result meant. */
  lemma {:induction false} ReadsEarlierResults(p: seq<Call>, k: nat, n: nat)
    requires WellFormed(p, n) && k < |p|
    ensures var used, xs := UsedResults(p[..k]), Indices(D.ArgsOf(Lower(EnvOf(p[..k]), p[k]).1));
            && |xs| == |SentRefs(p[k])|
            && forall i :: 0 <= i < |xs| ==> xs[i] < |used| && used[xs[i]] == SentRefs(p[k])[i]
  {
    hide Lower, CallWellFormed, CallVisits, IdsOf, Distinct, Used, SentRefs, CallOk, Indices, UsedResults, SeenIds;
    hide LowerAll;
    var q := p[..k];
    assert WellFormedAt(p, k, n);
    FrontWellFormed(p, k, n);
    CountIsResults(q, n);
    var env, used, rs := EnvOf(q), UsedResults(q), SentRefs(p[k]);
    RefsMiss(used, SeenIds(q), rs, IdsOf(CallVisits(p[k])));
    CallIndices(env, p[k]);
    NumbersRefs(env, used, SeenIds(q), rs);
  }

  // ----- A program whose stream the decoder rejects -----

  /** The second call only receives into an argument that refers to the first call's result;
      nothing is stored there beforehand, so the reference is not sent. */
  function UnsentUse(): seq<Call> {
    var ret := ResultArg(1, DirOut, 4, 0, 0, None, 0, 0, 0, {3});
    var out := ResultArg(3, DirOut, 4, 0, 0, Some(1), 0, 0, 0, {});
    [Call(0, NO_PROPS, Some(ret), [], [], {}),
     Call(0, NO_PROPS, None, [PointerArg(2, DirIn, 8, 0x2000_0000, Some(out))], [], {})]
  }

  lemma {:induction false} UnsentVisits()
    ensures var p := UnsentUse();
            && CallVisits(p[0]) == [Visit(p[0].ret.value, None, 0)]
            && CallVisits(p[1])
              == [Visit(p[1].args[0], None, 0), Visit(p[1].args[0].pointee.value, Some(0x2000_0000), 0)]
  {
    var p := UnsentUse();
    var a := p[1].args[0];
    var o := a.pointee.value;
    assert Visits(o, Some(0x2000_0000), 0) == [Visit(o, Some(0x2000_0000), 0)];
    assert Visits(a, None, 0) == [Visit(a, None, 0)] + Visits(o, Some(0x2000_0000), 0);
    assert p[1].args[1..] == [];
  }

  lemma {:induction false} UnsentRefs()
    ensures var p := UnsentUse();
            && SentRefs(p[0]) == [] && SentRefs(p[1]) == []
            && Used(CallVisits(p[0])) == [1] && Used(CallVisits(p[1])) == []
  {
    hide CallVisits;
    var p := UnsentUse();
    UnsentVisits();
    var vs0, vs1 := CallVisits(p[0]), CallVisits(p[1]);
    assert vs0[1..] == [] && vs1[1..] == [vs1[1]] && vs1[1..][1..] == [];
    assert StoredArgs(vs0) == [];
    assert StoredArgs(vs1[1..]) == [] && StoredArgs(vs1) == [];
    assert p[0].args == [] && p[1].args[1..] == [];
    assert ChosenArgs(p[1].args) == [p[1].args[0]];
    assert [p[1].args[0]][1..] == [];
    assert Refs([p[1].args[0]]) == [];
    assert Used(vs1[1..]) == [];
  }

  /** Well-formed, serialized without error, and yet rejected for mismatching variables. */
  lemma {:induction false} UnsentUseRejected()
    ensures var p := UnsentUse();
            && WellFormed(p, 1)
            && D.Decode(D.Encode(Sent(p)), 1) == D.BadVars
  {
    hide CallVisits, SentRefs, D.Decode, D.Encode, LowerAll;
    var p := UnsentUse();
    UnsentVisits();
    UnsentRefs();
    var q := p[..1];
    assert p[..0] == [] && p[..|p| - 1] == q && q[..0] == [] && q[0] == p[0];
    UnsentWellFormed();
    assert AllSentRefs(q) == AllSentRefs(q[..|q| - 1]) + SentRefs(q[0]);
    assert UsedResults(q) == [1] && AllSentRefs(q) == [];
    assert UsedResults(p) == [1] && AllSentRefs(p) == [];
    CountIsResults(p, 1);
    DeserializeSerialized(p, 1);
  }

  lemma {:induction false} UnsentWellFormed()
    ensures WellFormed(UnsentUse(), 1)
  {
    hide CallVisits, SentRefs, IdsOf, CallWellFormed;
    var p := UnsentUse();
    UnsentVisits();
    UnsentRefs();
    UnsentCalls();
    UnsentIds();
    assert p[..0] == [] && p[..1] == [p[0]] && [p[0]][..0] == [];
    assert SeenIds(p[..0]) == {} && SeenIds(p[..1]) == {1};
    assert WellFormedAt(p, 0, 1);
    assert WellFormedAt(p, 1, 1);
  }

  lemma {:induction false} UnsentCalls()
    ensures CallWellFormed(UnsentUse()[0], 1) && CallWellFormed(UnsentUse()[1], 1)
  {
    hide CallVisits;
    UnsentVisits();
  }

  lemma {:induction false} UnsentIds()
    ensures IdsOf(CallVisits(UnsentUse()[0])) == {1} && IdsOf(CallVisits(UnsentUse()[1])) == {2, 3}
  {
    hide CallVisits;
    UnsentVisits();
    var vs0, vs1 := CallVisits(UnsentUse()[0]), CallVisits(UnsentUse()[1]);
    assert vs0[0].arg.id == 1 && vs1[0].arg.id == 2 && vs1[1].arg.id == 3;
  }
}
