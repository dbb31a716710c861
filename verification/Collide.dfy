/** Transformations that run parts of a program twice, or calls of it asynchronously, to provoke races. */
module Collide {
  import opened Graph
  import opened Clone
  import opened Programs

  const MAX_CALLS := 40
  const MAX_ASYNC := 24

  /** d repeats the call c with references to the very results that c refers to. */
  predicate Repeats(c: CallTree, d: CallTree) {
    && CallSame(c, d)
    && |CellsAll(c.trees)| == |CellsAll(d.trees)|
    && forall k :: 0 <= k < |CellsAll(c.trees)| ==>
      Like(CellsAll(c.trees)[k], CellsAll(d.trees)[k], CellsAll(c.trees)[k].ref)
  }

  lemma {:induction false} CopiedRepeats(src: seq<CallTree>, dups: seq<CallTree>, m: map<Arg, Arg>, i: nat)
    requires CallsSame(src, dups) && i < |src| && Copied(false, m, CallCells(src), CallCells(dups))
    ensures Repeats(src[i], dups[i])
  {
    hide CallCells, CellsAll, CallSame, Like;
    SameCallCells(src, dups, i);
    SameLengths(src, dups, i);
    CallCellsMore(src, i);
    CallCellsMore(dups, i);
    var n, b, b1 := |CallCells(src[..i])|, CellsAll(src[i].trees), CellsAll(dups[i].trees);
    forall k | 0 <= k < |b|
      ensures Like(b[k], b1[k], b[k].ref)
    {
      assert b[k] == CallCells(src)[n + k] && b1[k] == CallCells(dups)[n + k];
    }
  }

  /** Exact uses stay exact when nodes are added and each is noted at what it refers to. */
  lemma {:induction false} ExactMore(cs: seq<Cell>, ds: seq<Cell>, pool: map<Arg, set<Arg>>)
    requires pool.Keys == Objs(cs) && (forall o :: o in pool ==> pool[o] == Users(cs, o)) && Used(ds, pool)
    requires RefsIn(cs, Objs(cs)) && Objs(cs) !! Objs(ds)
    ensures Exact(cs + ds)
  {
    hide Users;
    UsedConcat(cs, ds, map[], pool);
  }

  lemma {:induction false} LayeredRefs(cts: seq<CallTree>)
    requires Layered(cts)
    ensures RefsIn(CallCells(cts), Objs(CallCells(cts))) && Ready(false, map[], CallCells(cts), Objs(CallCells(cts)))
  {
    hide CallCells;
    LayeredOrdered(cts);
    var cs := CallCells(cts);
    forall k | 0 <= k < |cs| && cs[k].ref != null
      ensures cs[k].ref.kind == Result && cs[k].ref in Objs(cs)
    {
      assert cs[k].ref in Objs(cs[..k]);
    }
  }

  /** Repeats all calls of pc. */
  method RepeatAll(calls: seq<Call>, ghost pc: seq<CallTree>) returns (dupCalls: seq<Call>, ghost dups: seq<CallTree>)
    requires calls == Calls(pc) && CallsHeld(pc) && Layered(pc) && Exact(CallCells(pc))
    modifies Objs(CallCells(pc))`uses
    ensures dupCalls == Calls(dups) && CallsHeld(pc) && CallsHeld(dups) && fresh(CallObjs(dups))
            && fresh(Objs(CallCells(dups))) && Apart(dupCalls)
    ensures |dups| == |pc| && (forall i :: 0 <= i < |pc| ==>
            Repeats(pc[i], dups[i]) && dupCalls[i].props == calls[i].props)
    ensures Distinct(CallCells(dups)) && Exact(CallCells(pc) + CallCells(dups))
            && Objs(CallCells(pc)) !! Objs(CallCells(dups))
  {
    hide CallCells, CallsHeld, Layered, Users, Ready, Extend, CellsAll, RefsIn, Repeats, Copied;
    LayeredRefs(pc);
    AllThere(pc);
    var k := new Cloner(false);
    ghost var pool := map o: Arg | o in Objs(CallCells(pc)) :: o.uses;
    assert pool.Keys == Objs(CallCells(pc));
    dupCalls, dups := CloneCalls(k, calls, pc, pool);
    forall i | 0 <= i < |pc|
      ensures Repeats(pc[i], dups[i])
    {
      CopiedRepeats(pc, dups, Extend(false, map[], CallCells(pc), CallCells(dups)), i);
    }
    ExactMore(CallCells(pc), CallCells(dups), pool);
  }

  lemma {:induction false} RepeatsRefs(c: CallTree, d: CallTree, objs: set<Arg>)
    requires Repeats(c, d) && RefsIn(CellsAll(c.trees), objs)
    ensures RefsIn(CellsAll(d.trees), objs)
  {
    hide CellsAll, CallSame;
    var a, b := CellsAll(c.trees), CellsAll(d.trees);
    forall x | x in b && x.ref != null
      ensures x.ref.kind == Result && x.ref in objs
    {
      var k :| 0 <= k < |b| && b[k] == x;
      assert Like(a[k], b[k], a[k].ref) && a[k] in a;
    }
  }

  /** Calls of a layered program refer to results in it. */
  lemma {:induction false} CallRefs(pc: seq<CallTree>, i: nat)
    requires Layered(pc) && i < |pc|
    ensures RefsIn(CellsAll(pc[i].trees), Objs(CallCells(pc)))
  {
    hide CallCells, CellsAll, RefsIn;
    LayeredPart(pc, i);
    ObjsPrefix(CallCells(pc[..i]), CallCells(pc));
    RefsWider(CellsAll(pc[i].trees), Objs(CallCells(pc[..i])), Objs(CallCells(pc)));
  }

  lemma {:induction false} AppendedLayered(pc: seq<CallTree>, dups: seq<CallTree>, n: nat)
    requires Layered(pc) && |dups| == |pc| && n <= |pc| && (forall i :: 0 <= i < |pc| ==> Repeats(pc[i], dups[i]))
    requires Distinct(CallCells(pc) + CallCells(dups))
    ensures Layered(pc + dups[..n])
  {
    hide CallCells, CellsAll, RefsIn, Repeats, Layered, Distinct;
    if n == 0 {
      assert pc + dups[..0] == pc;
    } else {
      AppendedLayered(pc, dups, n - 1);
      var before := pc + dups[..n - 1];
      assert pc + dups[..n] == before + [dups[n - 1]];
      CallRefs(pc, n - 1);
      RepeatsRefs(pc[n - 1], dups[n - 1], Objs(CallCells(pc)));
      CallsConcat(pc, dups[..n - 1]);
      ObjsConcat(CallCells(pc), CallCells(dups[..n - 1]));
      RefsWider(CellsAll(dups[n - 1].trees), Objs(CallCells(pc)), Objs(CallCells(before)));
      CallCellsMore(dups, n - 1);
      DistinctPart(CallCells(pc), CallCells(dups[..n]), CallCells(dups));
      assert CallCells(before) + CellsAll(dups[n - 1].trees) == CallCells(pc) + CallCells(dups[..n]);
      LayeredSnoc(before, dups[n - 1]);
    }
  }

  lemma {:induction false} DistinctPart(a: seq<Cell>, b: seq<Cell>, b': seq<Cell>)
    requires Distinct(a + b') && b <= b'
    ensures Distinct(a + b)
  {
    assert forall i :: 0 <= i < |a + b| ==> (a + b)[i] == (a + b')[i];
  }

  lemma {:induction false} DistinctBoth(a: seq<Cell>, b: seq<Cell>)
    requires Distinct(a) && Distinct(b) && Objs(a) !! Objs(b)
    ensures Distinct(a + b)
  {
    assert forall i :: 0 <= i < |a| ==> a[i].node in Objs(a);
    assert forall i :: 0 <= i < |b| ==> b[i].node in Objs(b);
  }

  /** The first limit of the calls. */
  method MarkAsync(calls: seq<Call>, limit: nat)
    requires Apart(calls)
    modifies calls`props
    ensures forall i :: 0 <= i < |calls| ==>
            calls[i].props == old(calls[i].props).(async := i < limit || old(calls[i].props).async)
  {
    var left, i := limit, 0;
    while i < |calls| && left > 0
      invariant 0 <= i <= |calls| && left >= 0 && left + i == limit
      invariant forall j :: 0 <= j < |calls| ==>
                calls[j].props == old(calls[j].props).(async := j < i || old(calls[j].props).async)
    {
      calls[i].props := calls[i].props.(async := true);
      left, i := left - 1, i + 1;
    }
  }

  /** A program in memory whose references go to earlier calls and whose uses are exact. */
  ghost predicate Sound(p: Prog, cts: seq<CallTree>)
    reads p, CallObjs(cts)`ret, CallObjs(cts)`args
    reads Objs(CallCells(cts))`info, Objs(CallCells(cts))`kids, Objs(CallCells(cts))`ref, Objs(CallCells(cts))`uses
  {
    ProgHeld(p, cts) && Layered(cts) && Exact(CallCells(cts))
  }

  /** Repeats all calls of pc, the first of them asynchronously. */
  method RepeatAsync(calls: seq<Call>, ghost pc: seq<CallTree>) returns (dupCalls: seq<Call>, ghost dups: seq<CallTree>)
    requires calls == Calls(pc) && CallsHeld(pc) && Layered(pc) && Exact(CallCells(pc))
    modifies Objs(CallCells(pc))`uses
    ensures dupCalls == Calls(dups) && |dups| == |pc| && CallsHeld(pc + dups) && Layered(pc + dups)
            && Exact(CallCells(pc + dups))
    ensures Calls(pc + dups) == calls + dupCalls && fresh(CallObjs(dups)) && fresh(Objs(CallCells(dups)))
    ensures forall i :: 0 <= i < |pc| ==> Repeats(pc[i], dups[i])
    ensures RefsIn(CallCells(pc + dups), Objs(CallCells(pc))) && Objs(CallCells(pc)) !! Objs(CallCells(dups))
    ensures forall i :: 0 <= i < |pc| ==>
            dupCalls[i].props == calls[i].props.(async := i < MAX_ASYNC || calls[i].props.async)
  {
    hide CallCells, CallsHeld, Layered, Users, CellsAll, RefsIn, Repeats, Distinct, Exact, Objs;
    dupCalls, dups := RepeatAll(calls, pc);
    assert forall i :: 0 <= i < |dupCalls| ==> dupCalls[i] in CallObjs(dups);
    AllThere(pc);
    AllThere(dups);
    CallsConcat(pc, dups);
    ObjsConcat(CallCells(pc), CallCells(dups));
    MarkAsync(dupCalls, MAX_ASYNC);
    CallsConcat(pc, dups);
    AppendedAll(pc, dups);
  }

  /** The copy pc of the program, then all its calls again, the first of them asynchronous. */
  method DoubleExecCollide(p: Prog, ghost cts: seq<CallTree>)
    returns (p1: Prog?, ghost pc: seq<CallTree>, ghost dups: seq<CallTree>)
    requires ProgHeld(p, cts) && Layered(cts)
    ensures p1 == null <==> 2 * |p.calls| > MAX_CALLS
    ensures p1 != null ==> fresh(p1) && Sound(p1, pc + dups)
    ensures p1 != null ==> |p1.calls| == 2 * |p.calls| && |pc| == |dups| == |p.calls|
    ensures p1 != null ==> CallsSame(cts, pc) && Isomorphic(CallCells(cts), CallCells(pc))
    ensures p1 != null ==> forall i :: 0 <= i < |pc| ==> Repeats(pc[i], dups[i])
    ensures p1 != null ==> RefsIn(CallCells(pc + dups), Objs(CallCells(pc)))
    ensures p1 != null ==> Objs(CallCells(pc)) !! Objs(CallCells(dups))
    ensures p1 != null ==> forall i :: 0 <= i < |p.calls| ==>
      && p1.calls[i].props == p.calls[i].props
      && p1.calls[|p.calls| + i].props == p.calls[i].props.(async := i < MAX_ASYNC || p.calls[i].props.async)
  {
    hide CallCells, CallsHeld, Layered, Users, CellsAll, RefsIn, Repeats, Distinct, Isomorphic, Ordered, CallSame;
    hide Exact, Objs;
    if |p.calls| * 2 > MAX_CALLS {
      return null, [], [];
    }
    LayeredOrdered(cts);
    p1, pc := CloneProg(p, cts);
    IsomorphicLayered(cts, pc);
    var dupCalls;
    dupCalls, dups := RepeatAsync(p1.calls, pc);
    p1.calls := p1.calls + dupCalls;
  }

  lemma {:induction false} AppendedAll(pc: seq<CallTree>, dups: seq<CallTree>)
    requires Layered(pc) && |dups| == |pc| && (forall i :: 0 <= i < |pc| ==> Repeats(pc[i], dups[i]))
    requires Distinct(CallCells(dups)) && Objs(CallCells(pc)) !! Objs(CallCells(dups))
    ensures Layered(pc + dups) && RefsIn(CallCells(pc + dups), Objs(CallCells(pc)))
  {
    hide CallCells, CellsAll, Repeats, CallSame;
    DistinctBoth(CallCells(pc), CallCells(dups));
    AppendedLayered(pc, dups, |pc|);
    assert dups[..|pc|] == dups;
    CallsConcat(pc, dups);
    LayeredRefs(pc);
    forall c | c in CallCells(dups) && c.ref != null
      ensures c.ref.kind == Result && c.ref in Objs(CallCells(pc))
    {
      var i := CallOf(dups, c);
      CallRefs(pc, i);
      RepeatsRefs(pc[i], dups[i], Objs(CallCells(pc)));
    }
  }

  lemma {:induction false} CallOf(cts: seq<CallTree>, c: Cell) returns (i: nat)
    requires c in CallCells(cts)
    ensures i < |cts| && c in CellsAll(cts[i].trees)
  {
    var n := |cts| - 1;
    if c in CellsAll(cts[n].trees) {
      i := n;
    } else {
      i := CallOf(cts[..n], c);
    }
  }

  // ----- Repeating some calls in place -----

  /** The first n calls of pc that are to be repeated. */
  function Chosen(pc: seq<CallTree>, d: set<nat>, n: nat): seq<CallTree>
    requires n <= |pc|
  {
    if n == 0 then [] else Chosen(pc, d, n - 1) + if n - 1 in d then [pc[n - 1]] else []
  }

  /** The first n calls of pc, each of those to be repeated preceded by its repetition. */
  function Weave(pc: seq<CallTree>, dups: seq<CallTree>, d: set<nat>, n: nat): seq<CallTree>
    requires n <= |pc| && |Chosen(pc, d, n)| <= |dups|
  {
    if n == 0 then []
    else
      Weave(pc, dups, d, n - 1) + (if n - 1 in d then [dups[|Chosen(pc, d, n - 1)|]] else []) + [pc[n - 1]]
  }

  lemma {:induction false} ChosenPrefix(pc: seq<CallTree>, d: set<nat>, i: nat, n: nat)
    requires i <= n <= |pc|
    ensures Chosen(pc, d, i) <= Chosen(pc, d, n)
  {
    if i < n {
      ChosenPrefix(pc, d, i, n - 1);
    }
  }

  lemma {:induction false} WeavePrefix(pc: seq<CallTree>, dups: seq<CallTree>, dups': seq<CallTree>, d: set<nat>,
                                       n: nat)
    requires n <= |pc| && |Chosen(pc, d, n)| <= |dups| && dups <= dups'
    ensures Weave(pc, dups, d, n) == Weave(pc, dups', d, n)
  {
    if n > 0 {
      WeavePrefix(pc, dups, dups', d, n - 1);
    }
  }

  lemma {:induction false} ChosenCount(pc: seq<CallTree>, d: set<nat>, n: nat)
    requires n <= |pc|
    ensures |Chosen(pc, d, n)| == |set i | i in d && i < n|
  {
    if n > 0 {
      ChosenCount(pc, d, n - 1);
      var a, b := set i | i in d && i < n - 1, set i | i in d && i < n;
      assert b == a + if n - 1 in d then {n - 1} else {};
    } else {
      assert (set i | i in d && i < n) == {};
    }
  }

  lemma {:induction false} WeaveLength(pc: seq<CallTree>, dups: seq<CallTree>, d: set<nat>, n: nat)
    requires n <= |pc| && |Chosen(pc, d, n)| <= |dups|
    ensures |Weave(pc, dups, d, n)| == n + |Chosen(pc, d, n)|
  {
    if n > 0 {
      WeaveLength(pc, dups, d, n - 1);
    }
  }

  /** The chosen calls are in memory and can be repeated. */
  lemma {:induction false} ChosenReady(pc: seq<CallTree>, d: set<nat>, n: nat)
    requires Layered(pc) && CallsHeld(pc) && n <= |pc|
    ensures CallsHeld(Chosen(pc, d, n)) && Distinct(CallCells(Chosen(pc, d, n)))
    ensures Objs(CallCells(Chosen(pc, d, n))) <= Objs(CallCells(pc[..n]))
    ensures RefsIn(CallCells(Chosen(pc, d, n)), Objs(CallCells(pc)))
  {
    hide CellsAll, CallHeld, Distinct, Layered, RefsIn, CallsHeld, CallCells, Objs;
    if n == 0 {
      NoCells(Objs(CallCells(pc)));
    } else {
      ChosenReady(pc, d, n - 1);
      var a, b := Chosen(pc, d, n - 1), CellsAll(pc[n - 1].trees);
      CallCellsMore(pc, n - 1);
      ObjsConcat(CallCells(pc[..n - 1]), b);
      if n - 1 in d {
        CallHeldAt(pc, n - 1);
        CallsSnoc(a, pc[n - 1]);
        PartsApart(pc, n - 1);
        DistinctBoth(CallCells(a), b);
        CallRefs(pc, n - 1);
        RefsBoth(CallCells(a), b, Objs(CallCells(pc)));
      } else {
        assert Chosen(pc, d, n) == a;
      }
    }
  }

  lemma {:induction false} NoCells(objs: set<Arg>)
    ensures CallsHeld([]) && CallCells([]) == [] && Distinct([]) && Objs([]) == {} && RefsIn([], objs)
  {
  }

  lemma {:induction false} RefsBoth(a: seq<Cell>, b: seq<Cell>, objs: set<Arg>)
    requires RefsIn(a, objs) && RefsIn(b, objs)
    ensures RefsIn(a + b, objs)
  {
  }

  lemma {:induction false} PartsApart(pc: seq<CallTree>, i: nat)
    requires i < |pc| && Layered(pc)
    ensures Objs(CallCells(pc[..i])) !! Objs(CellsAll(pc[i].trees)) && Distinct(CellsAll(pc[i].trees))
  {
    hide CellsAll, CallCells, RefsIn;
    CallCellsMore(pc, i);
    var cs, a, b := CallCells(pc), CallCells(pc[..i]), CellsAll(pc[i].trees);
    assert forall k :: 0 <= k < |a| ==> cs[k] == a[k];
    assert forall k :: 0 <= k < |b| ==> cs[|a| + k] == b[k];
  }

  /** What the repetitions need: a copy each, of their own nodes. */
  predicate Repeated(pc: seq<CallTree>, dups: seq<CallTree>, d: set<nat>) {
    && |dups| == |Chosen(pc, d, |pc|)|
    && (forall i :: 0 <= i < |dups| ==> Repeats(Chosen(pc, d, |pc|)[i], dups[i]))
    && Distinct(CallCells(dups)) && Objs(CallCells(pc)) !! Objs(CallCells(dups))
  }

  /** Weaving in repetitions keeps references going to earlier calls, and adds no node but theirs. */
  lemma {:induction false} WeaveLayered(pc: seq<CallTree>, dups: seq<CallTree>, d: set<nat>, n: nat)
    requires n <= |pc| && Layered(pc) && Repeated(pc, dups, d) && |Chosen(pc, d, n)| <= |dups|
    ensures Layered(Weave(pc, dups, d, n))
    ensures Objs(CallCells(Weave(pc, dups, d, n)))
            == Objs(CallCells(pc[..n])) + Objs(CallCells(dups[..|Chosen(pc, d, n)|]))
  {
    hide CellsAll, CallCells, Layered, RefsIn, Repeats, Repeated;
    if n == 0 {
      NoCells({});
      NoLayers();
    } else {
      var r := |Chosen(pc, d, n - 1)|;
      WeaveLayered(pc, dups, d, n - 1);
      var w := Weave(pc, dups, d, n - 1);
      CallCellsMore(pc, n - 1);
      ObjsConcat(CallCells(pc[..n - 1]), CellsAll(pc[n - 1].trees));
      if n - 1 in d {
        WeaveRepetition(pc, dups, d, n, w);
        WeaveOriginal(pc, dups, d, n - 1, w + [dups[r]], r + 1);
        assert Weave(pc, dups, d, n) == w + [dups[r]] + [pc[n - 1]];
      } else {
        WeaveOriginal(pc, dups, d, n - 1, w, r);
        assert Weave(pc, dups, d, n) == w + [pc[n - 1]];
      }
    }
  }

  lemma {:induction false} NoLayers()
    ensures Layered([])
  {
  }

  lemma {:induction false} WeaveRepetition(pc: seq<CallTree>, dups: seq<CallTree>, d: set<nat>, n: nat,
                                           w: seq<CallTree>)
    requires 0 < n <= |pc| && Layered(pc) && Repeated(pc, dups, d) && n - 1 in d && Layered(w)
    requires var r := |Chosen(pc, d, n - 1)|;
             r < |dups| && Objs(CallCells(w)) == Objs(CallCells(pc[..n - 1])) + Objs(CallCells(dups[..r]))
    ensures var r := |Chosen(pc, d, n - 1)|;
      && Layered(w + [dups[r]])
      && Objs(CallCells(w + [dups[r]])) == Objs(CallCells(pc[..n - 1])) + Objs(CallCells(dups[..r + 1]))
  {
    hide CellsAll, CallCells, RefsIn, Repeats, Distinct;
    var r := |Chosen(pc, d, n - 1)|;
    ChosenPrefix(pc, d, n, |pc|);
    assert Chosen(pc, d, |pc|)[r] == pc[n - 1];
    assert RefsIn(CellsAll(pc[n - 1].trees), Objs(CallCells(pc[..n - 1])));
    RepeatsRefs(pc[n - 1], dups[r], Objs(CallCells(pc[..n - 1])));
    RefsWider(CellsAll(dups[r].trees), Objs(CallCells(pc[..n - 1])), Objs(CallCells(w)));
    PartApart(CallCells(pc), CallCells(dups), pc, dups, n - 1, r);
    DistinctBoth(CallCells(w), CellsAll(dups[r].trees));
    LayeredSnoc(w, dups[r]);
    CallsSnoc(w, dups[r]);
    CallCellsMore(dups, r);
    ObjsConcat(CallCells(dups[..r]), CellsAll(dups[r].trees));
  }

  lemma {:induction false} WeaveOriginal(pc: seq<CallTree>, dups: seq<CallTree>, d: set<nat>, i: nat,
                                         w: seq<CallTree>, r: nat)
    requires i < |pc| && Layered(pc) && Repeated(pc, dups, d) && r <= |dups| && Layered(w)
    requires Objs(CallCells(w)) == Objs(CallCells(pc[..i])) + Objs(CallCells(dups[..r]))
    ensures Layered(w + [pc[i]])
    ensures Objs(CallCells(w + [pc[i]]))
            == Objs(CallCells(pc[..i])) + Objs(CellsAll(pc[i].trees)) + Objs(CallCells(dups[..r]))
  {
    hide CellsAll, CallCells, RefsIn, Repeats, Distinct;
    assert RefsIn(CellsAll(pc[i].trees), Objs(CallCells(pc[..i])));
    RefsWider(CellsAll(pc[i].trees), Objs(CallCells(pc[..i])), Objs(CallCells(w)));
    PartsApart(pc, i);
    CallCellsMore(pc, i);
    ObjsConcat(CallCells(pc[..i]), CellsAll(pc[i].trees));
    ObjsPrefix(CallCells(pc[..i + 1]), CallCells(pc));
    CallsPrefix(dups, r);
    ObjsPrefix(CallCells(dups[..r]), CallCells(dups));
    DistinctBoth(CallCells(w), CellsAll(pc[i].trees));
    LayeredSnoc(w, pc[i]);
    CallsSnoc(w, pc[i]);
  }

  lemma {:induction false} CallsPrefix(cts: seq<CallTree>, n: nat)
    requires n <= |cts|
    ensures CallCells(cts[..n]) <= CallCells(cts)
  {
    if n < |cts| {
      CallCellsMore(cts, n);
    } else {
      assert cts[..n] == cts;
    }
  }

  lemma {:induction false} PartApart(cs: seq<Cell>, ds: seq<Cell>, pc: seq<CallTree>, dups: seq<CallTree>, i: nat,
                                     r: nat)
    requires cs == CallCells(pc) && ds == CallCells(dups) && Objs(cs) !! Objs(ds) && Distinct(ds) && i <= |pc|
             && r < |dups|
    ensures Objs(CallCells(pc[..i])) + Objs(CallCells(dups[..r])) !! Objs(CellsAll(dups[r].trees))
            && Distinct(CellsAll(dups[r].trees))
  {
    hide CellsAll, CallCells;
    CallsPrefix(pc, i);
    ObjsPrefix(CallCells(pc[..i]), cs);
    CallCellsMore(dups, r);
    var a, b := CallCells(dups[..r]), CellsAll(dups[r].trees);
    assert forall k :: 0 <= k < |a| ==> ds[k] == a[k];
    assert forall k :: 0 <= k < |b| ==> ds[|a| + k] == b[k];
    ObjsConcat(a, b);
    ObjsPrefix(a + b, ds);
  }

  /** The woven program has the nodes of both, and memory holds it. */
  lemma {:induction false} WeaveCells(pc: seq<CallTree>, dups: seq<CallTree>, d: set<nat>, n: nat)
    requires n <= |pc| && |Chosen(pc, d, n)| <= |dups| && CallsHeld(pc) && CallsHeld(dups)
    ensures CallsHeld(Weave(pc, dups, d, n))
    ensures Members(CallCells(Weave(pc, dups, d, n)))
            == Members(CallCells(pc[..n])) + Members(CallCells(dups[..|Chosen(pc, d, n)|]))
  {
    hide CellsAll, CallCells, CallsHeld, CallHeld, Members, Objs, Calls, CallObjs;
    if n == 0 {
      NoCells({});
      NoMembers();
    } else {
      var r, w := |Chosen(pc, d, n - 1)|, Weave(pc, dups, d, n - 1);
      WeaveCells(pc, dups, d, n - 1);
      CallCellsMore(pc, n - 1);
      CallHeldAt(pc, n - 1);
      var here := CellsAll(pc[n - 1].trees);
      MembersConcat(CallCells(pc[..n - 1]), here);
      if n - 1 in d {
        CallCellsMore(dups, r);
        CallHeldAt(dups, r);
        CallsSnoc(w, dups[r]);
        CallsSnoc(w + [dups[r]], pc[n - 1]);
        MembersConcat(CallCells(dups[..r]), CellsAll(dups[r].trees));
        MembersConcat(CallCells(w), CellsAll(dups[r].trees));
        MembersConcat(CallCells(w + [dups[r]]), here);
        assert Weave(pc, dups, d, n) == w + [dups[r]] + [pc[n - 1]];
      } else {
        CallsSnoc(w, pc[n - 1]);
        MembersConcat(CallCells(w), here);
        assert Weave(pc, dups, d, n) == w + [pc[n - 1]];
      }
    }
  }

  function Members(cs: seq<Cell>): set<Cell> {
    set c | c in cs
  }

  lemma {:induction false} MembersConcat(a: seq<Cell>, b: seq<Cell>)
    ensures Members(a + b) == Members(a) + Members(b)
  {
  }

  lemma {:induction false} NoMembers()
    ensures Members([]) == {}
  {
  }

  lemma {:induction false} ExactSame(a: seq<Cell>, b: seq<Cell>)
    requires Exact(a) && Members(a) == Members(b)
    ensures Exact(b) && Objs(a) == Objs(b)
  {
    assert forall c :: c in a <==> c in Members(a);
    assert forall c :: c in b <==> c in Members(b);
    forall o: Arg
      ensures Users(a, o) == Users(b, o)
    {
    }
    assert Objs(a) == Objs(b);
  }

  lemma {:induction false} WeaveSound(pc: seq<CallTree>, dups: seq<CallTree>, d: set<nat>)
    requires Layered(pc) && Repeated(pc, dups, d) && CallsHeld(pc) && CallsHeld(dups)
             && Exact(CallCells(pc) + CallCells(dups))
    ensures var w := Weave(pc, dups, d, |pc|);
      && CallsHeld(w) && Layered(w) && Exact(CallCells(w)) && RefsIn(CallCells(w), Objs(CallCells(pc)))
      && |w| == |pc| + |dups|
  {
    hide CellsAll, CallCells, CallsHeld, CallHeld, Layered, Repeats, Exact;
    var n, w := |pc|, Weave(pc, dups, d, |pc|);
    assert pc[..n] == pc && dups[..|Chosen(pc, d, n)|] == dups;
    WeaveLayered(pc, dups, d, n);
    WeaveCells(pc, dups, d, n);
    WeaveLength(pc, dups, d, n);
    MembersConcat(CallCells(pc), CallCells(dups));
    ExactSame(CallCells(pc) + CallCells(dups), CallCells(w));
    LayeredRefs(pc);
    forall c | c in CallCells(w) && c.ref != null
      ensures c.ref.kind == Result && c.ref in Objs(CallCells(pc))
    {
      assert c in Members(CallCells(w));
      if c !in CallCells(pc) {
        var i := CallOf(dups, c);
        var j := ChosenAt(pc, d, n, i);
        CallRefs(pc, j);
        RepeatsRefs(pc[j], dups[i], Objs(CallCells(pc)));
      }
    }
  }

  lemma {:induction false} ChosenAt(pc: seq<CallTree>, d: set<nat>, n: nat, i: nat) returns (j: nat)
    requires n <= |pc| && i < |Chosen(pc, d, n)|
    ensures j < n && j in d && Chosen(pc, d, n)[i] == pc[j]
  {
    if i < |Chosen(pc, d, n - 1)| {
      j := ChosenAt(pc, d, n - 1, i);
    } else {
      j := n - 1;
    }
  }

  lemma {:induction false} ChosenCanRepeat(pc: seq<CallTree>, d: set<nat>)
    requires Layered(pc) && CallsHeld(pc)
    ensures CallsHeld(Chosen(pc, d, |pc|)) && Ready(false, map[], CallCells(Chosen(pc, d, |pc|)), Objs(CallCells(pc)))
  {
    hide CallCells, CallsHeld, Layered, Chosen;
    ChosenReady(pc, d, |pc|);
    var cs := CallCells(Chosen(pc, d, |pc|));
    assert forall k :: 0 <= k < |cs| ==> cs[k] in cs;
  }

  lemma {:induction false} ChosenNext(pc: seq<CallTree>, d: set<nat>, i: nat)
    requires i < |pc|
    ensures |Chosen(pc, d, i + 1)| == |Chosen(pc, d, i)| + (if i in d then 1 else 0) <= |Chosen(pc, d, |pc|)|
    ensures |Calls(pc)| == |pc| && (i in d ==> Chosen(pc, d, |pc|)[|Chosen(pc, d, i)|].call == Calls(pc)[i])
  {
    ChosenPrefix(pc, d, i + 1, |pc|);
  }

  lemma {:induction false} WeaveNext(pc: seq<CallTree>, dups: seq<CallTree>, more: seq<CallTree>, d: set<nat>, i: nat)
    requires i < |pc| && |Chosen(pc, d, i)| == |dups| && |more| == if i in d then 1 else 0
    ensures |Chosen(pc, d, i + 1)| == |dups + more| && |Calls(pc)| == |pc|
    ensures Calls(Weave(pc, dups + more, d, i + 1)) ==
      Calls(Weave(pc, dups, d, i)) + (if i in d then [more[0].call] else []) + [Calls(pc)[i]]
  {
    WeavePrefix(pc, dups, dups + more, d, i);
  }

  lemma {:induction false} NoneChosen(pc: seq<CallTree>, d: set<nat>)
    ensures |Calls(pc)| == |pc| && Chosen(pc, d, 0) == [] && Calls(Weave(pc, [], d, 0)) == [] && CallObjs([]) == {}
  {
  }

  /** The repetitions differ from what they repeat in being asynchronous. */
  ghost predicate AsyncOf(src: seq<CallTree>, dups: seq<CallTree>)
    reads CallObjs(src)`props, CallObjs(dups)`props
  {
    |dups| <= |src| && forall j :: 0 <= j < |dups| ==>
      var s, d := src[j].call, dups[j].call;
      s in CallObjs(src) && d in CallObjs(dups) && d.props == s.props.(async := true)
  }

  /** The next of the calls src, repeated asynchronously. */
  method RepeatNext(k: Cloner, c: Call, ghost pc: seq<CallTree>, ghost src: seq<CallTree>, ghost dups: seq<CallTree>,
                    ghost pool: map<Arg, set<Arg>>)
    returns (dup: Call, ghost ct: CallTree)
    requires |dups| < |src| && c == src[|dups|].call && CallsHeld(pc) && CallsHeld(src)
             && Ready(k.remap, map[], CallCells(src), pool.Keys)
    requires Copies(k, map[], src[..|dups|], dups, pool) && AsyncOf(src, dups)
    modifies k`newargs, pool.Keys`uses, Objs(CallCells(dups))`uses
    ensures CallsHeld(pc) && CallsHeld(src) && Copies(k, map[], src[..|dups| + 1], dups + [ct], pool)
            && AsyncOf(src, dups + [ct])
    ensures ct.call == dup && fresh(dup) && fresh(Objs(CellsAll(ct.trees)))
  {
    hide CallCells, CallsHeld, Ready, CellsAll, Copies, Objs, AsyncOf, CallObjs;
    AllThere(pc);
    AllThere(src);
    AllThere(dups);
    dup, ct := CloneNextCall(k, c, map[], src, dups, pool);
    dup.props := dup.props.(async := true);
    AsyncSnoc(src, dups, ct);
  }

  lemma {:induction false} AsyncSnoc(src: seq<CallTree>, dups: seq<CallTree>, ct: CallTree)
    requires AsyncOf(src, dups) && |dups| < |src| && ct.call.props == src[|dups|].call.props.(async := true)
    ensures AsyncOf(src, dups + [ct])
  {
    assert forall j :: 0 <= j < |dups| + 1 ==> (dups + [ct])[j].call in CallObjs(dups + [ct]);
    assert src[|dups|].call in CallObjs(src);
  }

  /** Goes through the calls of pc, putting before each of those in d a repetition that is asynchronous. */
  method Interleave(calls: seq<Call>, d: set<nat>, ghost pc: seq<CallTree>, ghost pool: map<Arg, set<Arg>>, k: Cloner)
    returns (out: seq<Call>, ghost dups: seq<CallTree>)
    requires calls == Calls(pc) && CallsHeld(pc) && Layered(pc) && pool.Keys == Objs(CallCells(pc)) && Current(pool)
    requires !k.remap && k.newargs == map[]
    modifies k`newargs, pool.Keys`uses
    ensures |dups| == |Chosen(pc, d, |pc|)| && out == Calls(Weave(pc, dups, d, |pc|)) && CallsHeld(pc)
    ensures Copies(k, map[], Chosen(pc, d, |pc|), dups, pool) && fresh(CallObjs(dups)) && fresh(Objs(CallCells(dups)))
    ensures AsyncOf(Chosen(pc, d, |pc|), dups)
  {
    hide CallCells, CallsHeld, Layered, Ready, CellsAll, Copies, Objs, Weave, Chosen, Current, Calls, CallObjs, AsyncOf;
    ghost var src := Chosen(pc, d, |pc|);
    ChosenCanRepeat(pc, d);
    NoCalls(k, pool);
    NoneChosen(pc, d);
    NoneAsync(src);
    out, dups := [], [];
    var i := 0;
    assert src[..0] == [];
    while i < |calls|
      invariant 0 <= i <= |calls| && CallsHeld(pc) && CallsHeld(src) && AsyncOf(src, dups)
      invariant |dups| == |Chosen(pc, d, i)| <= |src| && Copies(k, map[], src[..|dups|], dups, pool)
      invariant out == Calls(Weave(pc, dups, d, i))
      invariant fresh(CallObjs(dups)) && fresh(Objs(CallCells(dups)))
    {
      ChosenNext(pc, d, i);
      if i in d {
        var dup, ct := RepeatNext(k, calls[i], pc, src, dups, pool);
        CallsSnoc(dups, ct);
        out := out + [dup];
        WeaveNext(pc, dups, [ct], d, i);
        dups := dups + [ct];
      } else {
        WeaveNext(pc, dups, [], d, i);
        assert dups + [] == dups && out + [] == out;
      }
      out := out + [calls[i]];
      i := i + 1;
    }
    assert src[..|dups|] == src;
  }

  lemma {:induction false} NoneAsync(src: seq<CallTree>)
    ensures AsyncOf(src, [])
  {
  }

  /** Repeats the calls of pc in d, each before the call itself. */
  method RepeatSome(calls: seq<Call>, d: set<nat>, ghost pc: seq<CallTree>)
    returns (out: seq<Call>, ghost dups: seq<CallTree>)
    requires calls == Calls(pc) && CallsHeld(pc) && Layered(pc) && Exact(CallCells(pc))
    modifies Objs(CallCells(pc))`uses
    ensures Repeated(pc, dups, d) && fresh(CallObjs(dups)) && fresh(Objs(CallCells(dups)))
            && AsyncOf(Chosen(pc, d, |pc|), dups)
    ensures var w := Weave(pc, dups, d, |pc|);
      out == Calls(w) && CallsHeld(w) && Layered(w) && Exact(CallCells(w)) && RefsIn(CallCells(w), Objs(CallCells(pc)))
  {
    hide CallCells, CallsHeld, Layered, Users, Extend, CellsAll, RefsIn, Repeats, Copied, Weave, Chosen, AsyncOf, Calls;
    AllThere(pc);
    LayeredRefs(pc);
    var k := new Cloner(false);
    ghost var pool := map o: Arg | o in Objs(CallCells(pc)) :: o.uses;
    assert pool.Keys == Objs(CallCells(pc));
    out, dups := Interleave(calls, d, pc, pool, k);
    ghost var src := Chosen(pc, d, |pc|);
    forall i | 0 <= i < |dups|
      ensures Repeats(src[i], dups[i])
    {
      CopiedRepeats(src, dups, Extend(false, map[], CallCells(src), CallCells(dups)), i);
    }
    ExactMore(CallCells(pc), CallCells(dups), pool);
    WeaveSound(pc, dups, d);
  }

  predicate Permutation(perm: seq<nat>, n: nat) {
    && |perm| == n
    && (forall i :: 0 <= i < n ==> perm[i] < n)
    && (forall i, j :: 0 <= i < j < n ==> perm[i] != perm[j])
  }

  /** A third of the calls, at least one, and no more than may be asynchronous or than there is room for. */
  function InsertCount(n: nat): int {
    var third := if n / 3 == 0 then 1 else n / 3;
    var capped := if third > MAX_ASYNC then MAX_ASYNC else third;
    if capped + n > MAX_CALLS then MAX_CALLS - n else capped
  }

  method Pick(perm: seq<nat>, count: nat) returns (d: set<nat>)
    requires Permutation(perm, |perm|) && count <= |perm|
    ensures |d| == count && (forall i :: i in d <==> i in perm[..count])
  {
    d := {};
    var j := 0;
    while j < count
      invariant 0 <= j <= count && |d| == j && (forall i :: i in d <==> i in perm[..j])
    {
      assert perm[..j + 1] == perm[..j] + [perm[j]];
      d := d + {perm[j]};
      j := j + 1;
    }
  }

  /** The calls repeated are the first of the permutation, as many as are to be inserted. */
  ghost predicate Picked(d: set<nat>, perm: seq<nat>) {
    && 1 <= |d| == InsertCount(|perm|) <= MAX_ASYNC && |d| <= |perm|
    && forall i :: i in d <==> i in perm[..|d|]
  }

  /** pc is a copy of cts, dups repeat the calls of d, and all references go to the nodes of pc. */
  ghost predicate Woven(cts: seq<CallTree>, pc: seq<CallTree>, dups: seq<CallTree>, d: set<nat>) {
    && CallsSame(cts, pc) && Isomorphic(CallCells(cts), CallCells(pc))
    && |dups| == |d| == |Chosen(pc, d, |pc|)| && Repeated(pc, dups, d)
    && RefsIn(CallCells(Weave(pc, dups, d, |pc|)), Objs(CallCells(pc)))
  }

  ghost predicate PropsKept(a: seq<Call>, b: seq<Call>)
    reads a`props, b`props
  {
    |a| == |b| && forall i :: 0 <= i < |a| ==> a[i].props == b[i].props
  }

  /** The copy pc of the program with some of its calls repeated in place, asynchronously. */
  method DupCallCollide(p: Prog, perm: seq<nat>, ghost cts: seq<CallTree>)
    returns (p1: Prog?, ghost pc: seq<CallTree>, ghost dups: seq<CallTree>, ghost d: set<nat>)
    requires ProgHeld(p, cts) && Layered(cts) && |p.calls| <= MAX_CALLS && Permutation(perm, |p.calls|)
    ensures p1 == null <==> |p.calls| < 2 || |p.calls| == MAX_CALLS
    ensures p1 != null ==> |pc| == |p.calls| && Picked(d, perm) && Woven(cts, pc, dups, d)
    ensures p1 != null ==> fresh(p1) && Sound(p1, Weave(pc, dups, d, |pc|))
    ensures p1 != null ==> |p1.calls| == |p.calls| + |d| <= MAX_CALLS
    ensures p1 != null ==> AsyncOf(Chosen(pc, d, |pc|), dups) && PropsKept(Calls(pc), p.calls)
  {
    hide CallCells, CallsHeld, Layered, Users, CellsAll, RefsIn, Repeats, Distinct, Isomorphic, Ordered, CallSame;
    hide Exact, Objs;
    hide Weave, Chosen, AsyncOf;
    if |p.calls| < 2 {
      return null, [], [], {};
    }
    var insert := |p.calls| / 3;
    if insert == 0 {
      insert := 1;
    }
    if insert > MAX_ASYNC {
      insert := MAX_ASYNC;
    }
    if insert + |p.calls| > MAX_CALLS {
      insert := MAX_CALLS - |p.calls|;
    }
    if insert == 0 {
      return null, [], [], {};
    }
    AllThere(cts);
    var duplicate := Pick(perm, insert);
    d := duplicate;
    LayeredOrdered(cts);
    p1, pc := CloneProg(p, cts);
    IsomorphicLayered(cts, pc);
    var calls;
    calls, dups := RepeatSome(p1.calls, duplicate, pc);
    p1.calls := calls;
    ChosenAll(pc, dups, d);
  }

  lemma {:induction false} ChosenAll(pc: seq<CallTree>, dups: seq<CallTree>, d: set<nat>)
    requires Repeated(pc, dups, d) && forall i :: i in d ==> i < |pc|
    ensures |dups| == |d| && |Weave(pc, dups, d, |pc|)| == |pc| + |d|
  {
    ChosenCount(pc, d, |pc|);
    assert (set i | i in d && i < |pc|) == d;
    WeaveLength(pc, dups, d, |pc|);
  }
}
