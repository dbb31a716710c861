/** Calls and programs over the argument graph, and the copy of a whole program. */
module Programs {
  import opened Common
  import opened Graph
  import opened Clone

  class Call {
    const meta: nat
    var ret: Arg?
    var args: seq<Arg>
    var props: Props

    constructor (meta: nat, props: Props)
      ensures this.meta == meta && ret == null && args == [] && this.props == props
    {
      this.meta, ret, args, this.props := meta, null, [], props;
    }
  }

  /** A call with the trees of its result, if it has one, and its arguments. */
  datatype CallTree = CallTree(call: Call, trees: seq<Tree>)

  function CallCells(cs: seq<CallTree>): seq<Cell> {
    if |cs| == 0 then [] else CallCells(cs[..|cs| - 1]) + CellsAll(cs[|cs| - 1].trees)
  }

  /** A call's result, if any, and its arguments are the roots of these trees. */
  predicate Heads(ret: Arg?, args: seq<Arg>, trees: seq<Tree>) {
    if ret == null then args == Roots(trees)
    else |trees| > 0 && ret == trees[0].cell.node && ret.kind == Result && args == Roots(trees[1..])
  }

  /** What memory holds of one call. */
  ghost predicate CallHeld(c: CallTree)
    reads c.call`ret, c.call`args, Objs(CellsAll(c.trees))`info, Objs(CellsAll(c.trees))`kids,
      Objs(CellsAll(c.trees))`ref
  {
    AllHeld(c.trees) && Heads(c.call.ret, c.call.args, c.trees)
  }

  /** The same call over trees of the same shape. */
  predicate CallSame(c: CallTree, c1: CallTree) {
    c1.call.meta == c.call.meta && AllSame(c.trees, c1.trees)
  }

  /** The result first, then the arguments. */
  method CloneHeads(k: Cloner, ret: Arg, args: seq<Arg>, ghost trees: seq<Tree>, ghost m: map<Arg, Arg>,
                    ghost cs: seq<Cell>,
                    ghost cs1: seq<Cell>, ghost pool: map<Arg, set<Arg>>)
    returns (ret1: Arg, args1: seq<Arg>, ghost trees1: seq<Tree>)
    requires Heads(ret, args, trees) && AllHeld(trees) && |cs| == |cs1|
             && Ready(k.remap, m, cs + CellsAll(trees), pool.Keys)
    requires k.newargs == Extend(k.remap, m, cs, cs1) && Effect(k.remap, m, cs, cs1, pool)
    modifies k`newargs, pool.Keys`uses, Objs(cs1)`uses
    ensures Heads(ret1, args1, trees1) && AllHeld(trees1) && AllSame(trees, trees1)
    ensures fresh(Objs(CellsAll(trees1))) && |CellsAll(trees)| == |CellsAll(trees1)|
    ensures k.newargs == Extend(k.remap, m, cs + CellsAll(trees), cs1 + CellsAll(trees1))
    ensures Effect(k.remap, m, cs + CellsAll(trees), cs1 + CellsAll(trees1), pool)
  {
    hide Ready, Copied, Used, Users, Extend, Held, AllHeld, Cells, CellsAll, Effect, Distinct, Between, AllSame;
    ghost var orig, t, ts := Objs(CellsAll(trees)), trees[0], trees[1..];
    assert forall x :: x in orig ==> allocated(x);
    HeldFirst(trees);
    CellsFirst(trees);
    ObjsConcat(Cells(t), CellsAll(ts));
    assert cs + CellsAll(trees) == cs + Cells(t) + CellsAll(ts);
    ReadyFirst(k.remap, m, cs + Cells(t), CellsAll(ts), pool.Keys);
    ghost var t1, ts1;
    ret1, t1 := k.CloneNext(ret, t, m, cs, cs1, pool);
    ghost var mine := Objs(Cells(t1));
    assert forall x :: x in mine ==> allocated(x);
    ObjsConcat(cs1, Cells(t1));
    args1, ts1 := k.CloneMore(args, ts, m, cs + Cells(t), cs1 + Cells(t1), pool);
    trees1 := [t1] + ts1;
    assert trees1[1..] == ts1;
    HeldFirst(trees1);
    CellsFirst(trees1);
    ObjsConcat(Cells(t1), CellsAll(ts1));
    SameFirst(trees, trees1);
    assert cs1 + CellsAll(trees1) == cs1 + Cells(t1) + CellsAll(ts1);
  }

  method CloneCall(k: Cloner, c: Call, ghost ct: CallTree, ghost m: map<Arg, Arg>, ghost cs: seq<Cell>,
                   ghost cs1: seq<Cell>,
                   ghost pool: map<Arg, set<Arg>>)
    returns (c1: Call, ghost ct1: CallTree)
    requires ct.call == c && CallHeld(ct) && |cs| == |cs1| && Ready(k.remap, m, cs + CellsAll(ct.trees), pool.Keys)
    requires k.newargs == Extend(k.remap, m, cs, cs1) && Effect(k.remap, m, cs, cs1, pool)
    modifies k`newargs, pool.Keys`uses, Objs(cs1)`uses
    ensures ct1.call == c1 && fresh(c1) && CallHeld(ct1) && CallSame(ct, ct1) && c1.props == c.props
    ensures c1.ret == null <==> c.ret == null
    ensures fresh(Objs(CellsAll(ct1.trees))) && |CellsAll(ct.trees)| == |CellsAll(ct1.trees)|
    ensures k.newargs == Extend(k.remap, m, cs + CellsAll(ct.trees), cs1 + CellsAll(ct1.trees))
    ensures Effect(k.remap, m, cs + CellsAll(ct.trees), cs1 + CellsAll(ct1.trees), pool)
  {
    hide Ready, Copied, Used, Users, Extend, AllHeld, CellsAll, Effect, Distinct, Between, AllSame;
    ghost var orig := Objs(CellsAll(ct.trees));
    assert forall x :: x in orig ==> allocated(x);
    c1 := new Call(c.meta, c.props);
    ghost var trees1;
    if c.ret != null {
      c1.ret, c1.args, trees1 := CloneHeads(k, c.ret, c.args, ct.trees, m, cs, cs1, pool);
    } else {
      c1.args, trees1 := k.CloneMore(c.args, ct.trees, m, cs, cs1, pool);
    }
    ct1 := CallTree(c1, trees1);
  }

  // ----- Lists of calls -----

  function CallObjs(cts: seq<CallTree>): set<Call> {
    set c | c in cts :: c.call
  }

  function Calls(cts: seq<CallTree>): seq<Call> {
    seq(|cts|, i requires 0 <= i < |cts| => cts[i].call)
  }

  ghost predicate CallsHeld(cts: seq<CallTree>)
    reads CallObjs(cts)`ret, CallObjs(cts)`args
    reads Objs(CallCells(cts))`info, Objs(CallCells(cts))`kids, Objs(CallCells(cts))`ref
  {
    if |cts| == 0 then true
    else
      var n := |cts| - 1;
      assert CallObjs(cts[..n]) <= CallObjs(cts) && cts[n].call in CallObjs(cts);
      assert Objs(CallCells(cts[..n])) <= Objs(CallCells(cts)) && Objs(CellsAll(cts[n].trees)) <= Objs(CallCells(cts));
      CallsHeld(cts[..n]) && CallHeld(cts[n])
  }

  predicate CallsSame(cts: seq<CallTree>, cts1: seq<CallTree>) {
    |cts| == |cts1| && forall i :: 0 <= i < |cts| ==> CallSame(cts[i], cts1[i])
  }

  predicate Apart(calls: seq<Call>) {
    forall i, j :: 0 <= i < j < |calls| ==> calls[i] != calls[j]
  }

  lemma {:induction false} CallCellsMore(cts: seq<CallTree>, i: nat)
    requires i < |cts|
    ensures CallCells(cts[..i + 1]) == CallCells(cts[..i]) + CellsAll(cts[i].trees)
    ensures CallCells(cts[..i + 1]) <= CallCells(cts)
    decreases |cts| - i
  {
    assert cts[..i + 1][..i] == cts[..i];
    if i + 1 < |cts| {
      CallCellsMore(cts, i + 1);
    } else {
      assert cts[..i + 1] == cts;
    }
  }

  lemma {:induction false} CallHeldAt(cts: seq<CallTree>, i: nat)
    requires i < |cts| && CallsHeld(cts)
    ensures CallHeld(cts[i])
  {
    if i < |cts| - 1 {
      CallHeldAt(cts[..|cts| - 1], i);
    }
  }

  lemma {:induction false} CallsSnoc(cts: seq<CallTree>, c: CallTree)
    ensures CallsHeld(cts + [c]) <==> CallsHeld(cts) && CallHeld(c)
    ensures CallCells(cts + [c]) == CallCells(cts) + CellsAll(c.trees)
    ensures Objs(CallCells(cts + [c])) == Objs(CallCells(cts)) + Objs(CellsAll(c.trees))
    ensures Calls(cts + [c]) == Calls(cts) + [c.call] && CallObjs(cts + [c]) == CallObjs(cts) + {c.call}
  {
    assert (cts + [c])[..|cts|] == cts;
    assert Calls(cts + [c]) == Calls(cts) + [c.call];
  }

  lemma {:induction false} NoCalls(k: Cloner, pool: map<Arg, set<Arg>>)
    requires Current(pool)
    ensures Copies(k, k.newargs, [], [], pool) && CallCells([]) == [] && Objs([]) == {}
  {
    Nothing(k.remap, k.newargs, pool);
  }

  lemma {:induction false} ReadyPart(remap: bool, m: map<Arg, Arg>, cts: seq<CallTree>, i: nat, pool: set<Arg>)
    requires i < |cts| && Ready(remap, m, CallCells(cts), pool)
    ensures Ready(remap, m, CallCells(cts[..i]) + CellsAll(cts[i].trees), pool)
    ensures CallCells(cts[..i + 1]) == CallCells(cts[..i]) + CellsAll(cts[i].trees)
  {
    CallCellsMore(cts, i);
    var part := CallCells(cts[..i + 1]);
    assert CallCells(cts) == part + CallCells(cts)[|part|..];
    ReadyFirst(remap, m, part, CallCells(cts)[|part|..], pool);
  }

  /** Starting from map m and uses as in pool, the calls cts have been copied to cts1. */
  ghost predicate Copies(k: Cloner, m: map<Arg, Arg>, cts: seq<CallTree>, cts1: seq<CallTree>, pool: map<Arg, set<Arg>>)
    reads k, CallObjs(cts1)`ret, CallObjs(cts1)`args, pool.Keys`uses
    reads Objs(CallCells(cts1))`info, Objs(CallCells(cts1))`kids, Objs(CallCells(cts1))`ref, Objs(CallCells(cts1))`uses
  {
    && CallsHeld(cts1) && CallsSame(cts, cts1) && Apart(Calls(cts1))
    && |CallCells(cts)| == |CallCells(cts1)|
    && k.newargs == Extend(k.remap, m, CallCells(cts), CallCells(cts1))
    && Effect(k.remap, m, CallCells(cts), CallCells(cts1), pool)
  }

  /** The next call of cts, when those before it have been copied to cts1. */
  method CloneNextCall(k: Cloner, c: Call, ghost m: map<Arg, Arg>, ghost cts: seq<CallTree>,
                       ghost cts1: seq<CallTree>, ghost pool: map<Arg, set<Arg>>)
    returns (c1: Call, ghost ct1: CallTree)
    requires |cts1| < |cts| && c == cts[|cts1|].call && CallsHeld(cts) && Ready(k.remap, m, CallCells(cts), pool.Keys)
    requires Copies(k, m, cts[..|cts1|], cts1, pool)
    modifies k`newargs, pool.Keys`uses, Objs(CallCells(cts1))`uses
    ensures Copies(k, m, cts[..|cts1| + 1], cts1 + [ct1], pool)
    ensures ct1.call == c1 && fresh(c1) && c1.props == c.props && fresh(Objs(CellsAll(ct1.trees)))
  {
    hide Ready, Copied, Used, Users, Extend, CallCells, CellsAll, Effect, Distinct, Between, CallHeld, CallsHeld;
    hide CallSame;
    ghost var i := |cts1|;
    ReadyPart(k.remap, m, cts, i, pool.Keys);
    CallHeldAt(cts, i);
    ghost var mine, mineCalls := Objs(CallCells(cts1)), CallObjs(cts1);
    assert (forall o :: o in mine ==> allocated(o)) && (forall o :: o in mineCalls ==> allocated(o));
    assert forall j :: 0 <= j < i ==> cts1[j].call in mineCalls;
    c1, ct1 := CloneCall(k, c, cts[i], m, CallCells(cts[..i]), CallCells(cts1), pool);
    CallsSnoc(cts1, ct1);
    assert Apart(Calls(cts1 + [ct1]));
  }

  lemma {:induction false} AllThere(cts: seq<CallTree>)
    ensures forall x :: x in Objs(CallCells(cts)) ==> allocated(x)
    ensures forall x :: x in CallObjs(cts) ==> allocated(x)
  {
    var cells := CallCells(cts);
    var objs := Objs(cells);
    assert forall x :: x in objs ==> allocated(x);
  }

  method CloneCalls(k: Cloner, calls: seq<Call>, ghost cts: seq<CallTree>, ghost pool: map<Arg, set<Arg>>)
    returns (calls1: seq<Call>, ghost cts1: seq<CallTree>)
    requires Calls(cts) == calls && CallsHeld(cts) && Ready(k.remap, k.newargs, CallCells(cts), pool.Keys)
             && Current(pool)
    modifies k`newargs, pool.Keys`uses
    ensures Calls(cts1) == calls1 && Copies(k, old(k.newargs), cts, cts1, pool)
    ensures fresh(CallObjs(cts1)) && fresh(Objs(CallCells(cts1)))
    ensures |calls1| == |calls| && forall i :: 0 <= i < |calls| ==> calls1[i].props == calls[i].props
  {
    hide Copies, Ready, CallCells, CallsHeld, CellsAll, Current, Objs;
    calls1, cts1 := [], [];
    var i := 0;
    ghost var m := k.newargs;
    NoCalls(k, pool);
    assert cts[..0] == [];
    AllThere(cts);
    while i < |calls|
      invariant 0 <= i <= |calls| && CallsHeld(cts) && |cts1| == i && Calls(cts1) == calls1
                && Copies(k, m, cts[..i], cts1, pool)
      invariant fresh(CallObjs(cts1)) && fresh(Objs(CallCells(cts1)))
      invariant forall j :: 0 <= j < i ==> calls1[j] in CallObjs(cts1) && calls1[j].props == calls[j].props
    {
      var c1, ct1 := CloneNextCall(k, calls[i], m, cts, cts1, pool);
      CallsSnoc(cts1, ct1);
      calls1, cts1, i := calls1 + [c1], cts1 + [ct1], i + 1;
    }
    assert cts[..i] == cts;
  }

  // ----- Whole programs -----

  class Prog {
    var calls: seq<Call>

    constructor (calls: seq<Call>)
      ensures this.calls == calls
    {
      this.calls := calls;
    }
  }

  ghost predicate ProgHeld(p: Prog, cts: seq<CallTree>)
    reads p, CallObjs(cts)`ret, CallObjs(cts)`args
    reads Objs(CallCells(cts))`info, Objs(CallCells(cts))`kids, Objs(CallCells(cts))`ref
  {
    p.calls == Calls(cts) && CallsHeld(cts)
  }

  /** Nodes are distinct and every reference is to an earlier result. */
  predicate Ordered(cs: seq<Cell>) {
    && Distinct(cs)
    && (forall k :: 0 <= k < |cs| && cs[k].ref != null ==> cs[k].ref.kind == Result && cs[k].ref in Objs(cs[..k]))
  }

  /** At every node, uses is exactly the set of nodes that refer to it. */
  ghost predicate Exact(cs: seq<Cell>)
    reads Objs(cs)`uses
  {
    forall o :: o in Objs(cs) ==> o.uses == Users(cs, o)
  }

  /** Node by node the same kind and data, and the same references between them. */
  predicate Isomorphic(a: seq<Cell>, b: seq<Cell>) {
    && |a| == |b|
    && (forall k :: 0 <= k < |a| ==>
      a[k].node.kind == b[k].node.kind && a[k].info == b[k].info && (a[k].ref == null <==> b[k].ref == null))
    && (forall j, k :: 0 <= j < |a| && 0 <= k < |a| ==> (a[k].ref == a[j].node <==> b[k].ref == b[j].node))
  }

  lemma {:induction false} CopiedTarget(cs: seq<Cell>, cs1: seq<Cell>, k: nat) returns (j: nat)
    requires |cs| == |cs1| && Ordered(cs) && Copied(true, Extend(true, map[], cs, cs1), cs, cs1)
    requires k < |cs| && cs[k].ref != null
    ensures j < k && cs[j].node == cs[k].ref && cs1[k].ref == cs1[j].node && cs1[j].node.kind == Result
  {
    ExtendAt(map[], cs, cs1);
    assert cs[k].ref in Objs(cs[..k]);
    var c :| c in cs[..k] && c.node == cs[k].ref;
    j :| 0 <= j < k && cs[j] == c;
    assert Like(cs[j], cs1[j], Target(true, Extend(true, map[], cs, cs1), cs[j].ref));
    assert Like(cs[k], cs1[k], Target(true, Extend(true, map[], cs, cs1), cs[k].ref));
  }

  lemma {:induction false} CopiedIsomorphic(cs: seq<Cell>, cs1: seq<Cell>)
    requires |cs| == |cs1| && Ordered(cs) && Distinct(cs1) && Copied(true, Extend(true, map[], cs, cs1), cs, cs1)
    ensures Isomorphic(cs, cs1) && Ordered(cs1)
  {
    hide Extend;
    var m := Extend(true, map[], cs, cs1);
    forall k | 0 <= k < |cs|
      ensures Like(cs[k], cs1[k], Target(true, m, cs[k].ref)) && (cs[k].ref == null <==> cs1[k].ref == null)
    {
      if cs[k].ref != null {
        var j := CopiedTarget(cs, cs1, k);
      }
    }
    forall j, k | 0 <= j < |cs| && 0 <= k < |cs|
      ensures cs[k].ref == cs[j].node <==> cs1[k].ref == cs1[j].node
    {
      if cs[k].ref != null {
        var i := CopiedTarget(cs, cs1, k);
      }
    }
    forall k | 0 <= k < |cs1| && cs1[k].ref != null
      ensures cs1[k].ref.kind == Result && cs1[k].ref in Objs(cs1[..k])
    {
      var j := CopiedTarget(cs, cs1, k);
      assert cs1[j] in cs1[..k];
    }
  }

  lemma {:induction false} OrderedReady(cs: seq<Cell>)
    requires Ordered(cs)
    ensures Ready(true, map[], cs, {})
  {
  }

  /** The copy is made of fresh calls and nodes, is isomorphic to the original, refers only to itself, and
      its uses are exact. Nothing that existed before is changed. */
  method CloneProg(p: Prog, ghost cts: seq<CallTree>) returns (p1: Prog, ghost cts1: seq<CallTree>)
    requires ProgHeld(p, cts) && Ordered(CallCells(cts))
    ensures fresh(p1) && fresh(CallObjs(cts1)) && fresh(Objs(CallCells(cts1)))
    ensures ProgHeld(p1, cts1) && Apart(p1.calls) && CallsSame(cts, cts1)
    ensures Isomorphic(CallCells(cts), CallCells(cts1)) && Ordered(CallCells(cts1)) && Exact(CallCells(cts1))
    ensures |p1.calls| == |p.calls| && forall i :: 0 <= i < |p.calls| ==> p1.calls[i].props == p.calls[i].props
  {
    hide Ordered, CallCells, CallsHeld, Isomorphic, Extend, Copied;
    OrderedReady(CallCells(cts));
    AllThere(cts);
    var k := new Cloner(true);
    var calls, cts' := CloneCalls(k, p.calls, cts, map[]);
    cts1 := cts';
    CopiedIsomorphic(CallCells(cts), CallCells(cts1));
    AllThere(cts1);
    p1 := new Prog(calls);
  }

  // ----- References between calls -----

  predicate RefsIn(cs: seq<Cell>, objs: set<Arg>) {
    forall c :: c in cs && c.ref != null ==> c.ref.kind == Result && c.ref in objs
  }

  /** Nodes are distinct and every reference is to a result of a strictly earlier call. */
  predicate Layered(cts: seq<CallTree>) {
    && Distinct(CallCells(cts))
    && forall i :: 0 <= i < |cts| ==> RefsIn(CellsAll(cts[i].trees), Objs(CallCells(cts[..i])))
  }

  lemma {:induction false} LayeredPart(cts: seq<CallTree>, n: nat)
    requires Layered(cts) && n <= |cts|
    ensures Layered(cts[..n]) && CallCells(cts[..n]) <= CallCells(cts)
  {
    hide RefsIn;
    if n < |cts| {
      CallCellsMore(cts, n);
    } else {
      assert cts[..n] == cts;
    }
    var part := CallCells(cts[..n]);
    assert forall i :: 0 <= i < |part| ==> part[i] == CallCells(cts)[i];
    forall i | 0 <= i < n
      ensures cts[..n][..i] == cts[..i]
    {
    }
  }

  lemma {:induction false} LayeredSnoc(cts: seq<CallTree>, c: CallTree)
    requires Layered(cts) && RefsIn(CellsAll(c.trees), Objs(CallCells(cts)))
    requires Distinct(CallCells(cts) + CellsAll(c.trees))
    ensures Layered(cts + [c])
  {
    hide RefsIn;
    CallsSnoc(cts, c);
    forall i | 0 <= i < |cts|
      ensures (cts + [c])[..i] == cts[..i]
    {
    }
    assert (cts + [c])[..|cts|] == cts;
  }

  lemma {:induction false} LayeredOrdered(cts: seq<CallTree>)
    requires Layered(cts)
    ensures Ordered(CallCells(cts))
  {
    if |cts| > 0 {
      var n := |cts| - 1;
      LayeredPart(cts, n);
      LayeredOrdered(cts[..n]);
      var a, b := CallCells(cts[..n]), CellsAll(cts[n].trees);
      var cs: seq<Cell> := a + b;
      forall k | 0 <= k < |cs| && cs[k].ref != null
        ensures cs[k].ref.kind == Result && cs[k].ref in Objs(cs[..k])
      {
        if k < |a| {
          assert cs[..k] == a[..k];
        } else {
          assert cs[..k] == a + b[..k - |a|];
          assert b[k - |a|] in b;
          ObjsConcat(a, b[..k - |a|]);
        }
      }
    }
  }

  lemma {:induction false} SameCallCells(cts: seq<CallTree>, cts1: seq<CallTree>, n: nat)
    requires CallsSame(cts, cts1) && n <= |cts|
    ensures |CallCells(cts[..n])| == |CallCells(cts1[..n])|
  {
    if n > 0 {
      SameCallCells(cts, cts1, n - 1);
      CallCellsMore(cts, n - 1);
      CallCellsMore(cts1, n - 1);
      assert CallSame(cts[n - 1], cts1[n - 1]);
      AllSameCells(cts[n - 1].trees, cts1[n - 1].trees);
    }
  }

  /** Where the cells of call i are among all. */
  lemma {:induction false} CellAt(cts: seq<CallTree>, i: nat, c: Cell) returns (k: nat)
    requires i < |cts| && c in CellsAll(cts[i].trees)
    ensures |CallCells(cts[..i])| <= k < |CallCells(cts[..i + 1])| <= |CallCells(cts)| && CallCells(cts)[k] == c
    ensures CallCells(cts[..i]) <= CallCells(cts)
    ensures k - |CallCells(cts[..i])| < |CellsAll(cts[i].trees)|
    ensures CellsAll(cts[i].trees)[k - |CallCells(cts[..i])|] == c
  {
    CallCellsMore(cts, i);
    var a, b := CallCells(cts[..i]), CellsAll(cts[i].trees);
    var j :| 0 <= j < |b| && b[j] == c;
    k := |a| + j;
    assert (a + b)[k] == c;
  }

  /** Copying keeps every reference going to an earlier call. */
  lemma {:induction false} IsomorphicLayered(cts: seq<CallTree>, cts1: seq<CallTree>)
    requires Layered(cts) && CallsSame(cts, cts1) && Isomorphic(CallCells(cts), CallCells(cts1))
             && Ordered(CallCells(cts1))
    ensures Layered(cts1)
  {
    forall i, c1 | 0 <= i < |cts1| && c1 in CellsAll(cts1[i].trees) && c1.ref != null
      ensures c1.ref.kind == Result && c1.ref in Objs(CallCells(cts1[..i]))
    {
      EarlierCopy(cts, cts1, i, c1);
    }
  }

  lemma {:induction false} EarlierCopy(cts: seq<CallTree>, cts1: seq<CallTree>, i: nat, c1: Cell)
    requires Layered(cts) && CallsSame(cts, cts1) && Isomorphic(CallCells(cts), CallCells(cts1))
             && Ordered(CallCells(cts1))
    requires i < |cts1| && c1 in CellsAll(cts1[i].trees) && c1.ref != null
    ensures c1.ref.kind == Result && c1.ref in Objs(CallCells(cts1[..i]))
  {
    hide CallCells, CellsAll, CallSame;
    var cs, cs1 := CallCells(cts), CallCells(cts1);
    var k := CellAt(cts1, i, c1);
    SameCallCells(cts, cts1, i);
    SameLengths(cts, cts1, i);
    CallCellsMore(cts, i);
    var n := |CallCells(cts[..i])|;
    assert cs[k] == CellsAll(cts[i].trees)[k - n];
    assert RefsIn(CellsAll(cts[i].trees), Objs(CallCells(cts[..i])));
    var c :| c in CallCells(cts[..i]) && c.node == cs[k].ref;
    var j :| 0 <= j < n && CallCells(cts[..i])[j] == c;
    assert cs[j] == c && cs1[k].ref == cs1[j].node;
    assert CallCells(cts1[..i])[j] == cs1[j];
    assert cs1[j] in CallCells(cts1[..i]);
  }

  lemma {:induction false} SameLengths(cts: seq<CallTree>, cts1: seq<CallTree>, i: nat)
    requires CallsSame(cts, cts1) && i < |cts|
    ensures |cts| == |cts1| && |CellsAll(cts[i].trees)| == |CellsAll(cts1[i].trees)|
  {
    assert CallSame(cts[i], cts1[i]);
    AllSameCells(cts[i].trees, cts1[i].trees);
  }

  lemma {:induction false} CallsConcat(a: seq<CallTree>, b: seq<CallTree>)
    ensures CallCells(a + b) == CallCells(a) + CallCells(b) && Calls(a + b) == Calls(a) + Calls(b)
    ensures CallsHeld(a + b) <==> CallsHeld(a) && CallsHeld(b)
  {
    hide CallHeld, CellsAll;
    if |b| == 0 {
      assert a + b == a;
    } else {
      var n := |b| - 1;
      assert (a + b)[..|a| + n] == a + b[..n];
      CallsConcat(a, b[..n]);
    }
  }

  lemma {:induction false} RefsWider(cs: seq<Cell>, objs: set<Arg>, objs': set<Arg>)
    requires RefsIn(cs, objs) && objs <= objs'
    ensures RefsIn(cs, objs')
  {
  }

  lemma {:induction false} ObjsPrefix(a: seq<Cell>, b: seq<Cell>)
    requires a <= b
    ensures Objs(a) <= Objs(b)
  {
    assert b == a + b[|a|..];
    ObjsConcat(a, b[|a|..]);
  }
}
