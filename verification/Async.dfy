/** Choosing calls at random to run asynchronously, while keeping the results they produce at a distance
    from the calls that consume them. */
module Async {
  import opened Common
  import opened Graph
  import opened Programs
  import Collide

  predicate Producer(c: Cell) {
    c.node.kind == Result && c.info.dir != DirIn
  }

  predicate Consumer(c: Cell) {
    c.node.kind == Result && c.info.dir != DirOut
  }

  /** The results that these nodes produce, and those that they refer to (null where they hold a value). */
  function Produces(cs: seq<Cell>): set<Arg> {
    set c | c in cs && Producer(c) :: c.node
  }

  function Consumes(cs: seq<Cell>): set<Arg?> {
    set c | c in cs && Consumer(c) :: c.ref
  }

  lemma {:induction false} ProducesConcat(a: seq<Cell>, b: seq<Cell>)
    ensures Produces(a + b) == Produces(a) + Produces(b) && Consumes(a + b) == Consumes(a) + Consumes(b)
  {
  }

  /** What visiting nodes cs finds: whether they produce something in unassigned, and all they consume. */
  predicate Found(cs: seq<Cell>, unassigned: set<Arg?>, produces: bool, consumes: set<Arg?>) {
    && (produces <==> exists r :: r in Produces(cs) && r in unassigned)
    && consumes == Consumes(cs)
  }

  lemma {:induction false} FoundConcat(a: seq<Cell>, b: seq<Cell>, unassigned: set<Arg?>, p: bool, s: set<Arg?>,
                                       p': bool, s': set<Arg?>)
    requires Found(a, unassigned, p, s) && Found(b, unassigned, p', s')
    ensures Found(a + b, unassigned, p || p', s + s')
  {
    ProducesConcat(a, b);
    if p {
      var r :| r in Produces(a) && r in unassigned;
      assert r in Produces(a + b);
    }
    if p' {
      var r :| r in Produces(b) && r in unassigned;
      assert r in Produces(a + b);
    }
  }

  method VisitArg(a: Arg, unassigned: set<Arg?>, ghost t: Tree) returns (produces: bool, consumes: set<Arg?>)
    requires t.cell.node == a && Held(t)
    ensures Found(Cells(t), unassigned, produces, consumes)
    decreases t
  {
    hide Found, Held, AllHeld, Cells, CellsAll;
    HeldNode(t);
    CellsThere(CellsAll(t.kids));
    produces, consumes := VisitNode(a, unassigned, t.cell);
    var p, c := VisitAll(a.kids, unassigned, t.kids);
    FoundConcat([t.cell], CellsAll(t.kids), unassigned, produces, consumes, p, c);
    produces, consumes := produces || p, consumes + c;
  }

  method VisitNode(a: Arg, unassigned: set<Arg?>, ghost c: Cell) returns (produces: bool, consumes: set<Arg?>)
    requires c == Cell(a, a.info, a.ref)
    ensures Found([c], unassigned, produces, consumes)
  {
    produces, consumes := false, {};
    assert c in [c];
    if a.kind == Result {
      if a.info.dir != DirIn && a in unassigned {
        produces := true;
        assert a in Produces([c]);
      }
      if a.info.dir != DirOut {
        consumes := consumes + {a.ref};
      }
    }
  }

  method VisitAll(args: seq<Arg>, unassigned: set<Arg?>, ghost ts: seq<Tree>)
    returns (produces: bool, consumes: set<Arg?>)
    requires Roots(ts) == args && AllHeld(ts)
    ensures Found(CellsAll(ts), unassigned, produces, consumes)
    decreases ts
  {
    hide Found, Held, AllHeld, Cells, CellsAll;
    produces, consumes := false, {};
    var i := 0;
    NothingFound(unassigned);
    assert ts[..0] == [];
    CellsThere(CellsAll(ts));
    while i < |args|
      invariant 0 <= i <= |args| && AllHeld(ts)
      invariant Found(CellsAll(ts[..i]), unassigned, produces, consumes)
    {
      HeldAt(ts, i);
      CellsMore(ts, i);
      var p, c := VisitArg(args[i], unassigned, ts[i]);
      FoundConcat(CellsAll(ts[..i]), Cells(ts[i]), unassigned, produces, consumes, p, c);
      produces, consumes, i := produces || p, consumes + c, i + 1;
    }
    assert ts[..i] == ts;
  }

  lemma {:induction false} NothingFound(unassigned: set<Arg?>)
    ensures CellsAll([]) == [] && Found([], unassigned, false, {})
  {
  }

  method VisitCall(c: Call, unassigned: set<Arg?>, ghost ct: CallTree) returns (produces: bool, consumes: set<Arg?>)
    requires ct.call == c && CallHeld(ct)
    ensures Found(CellsAll(ct.trees), unassigned, produces, consumes)
  {
    hide Found, AllHeld, CellsAll, Held, Cells;
    if c.ret != null {
      HeldFirst(ct.trees);
      CellsFirst(ct.trees);
      CellsThere(CellsAll(ct.trees[1..]));
      produces, consumes := VisitArg(c.ret, unassigned, ct.trees[0]);
      var p, s := VisitAll(c.args, unassigned, ct.trees[1..]);
      FoundConcat(Cells(ct.trees[0]), CellsAll(ct.trees[1..]), unassigned, produces, consumes, p, s);
      produces, consumes := produces || p, consumes + s;
    } else {
      produces, consumes := VisitAll(c.args, unassigned, ct.trees);
    }
  }

  // ----- Distance between producer and consumer -----

  function Cs(ct: CallTree): seq<Cell> {
    CellsAll(ct.trees)
  }

  /** What the calls from i on refer to, up to and with the first that is not asynchronous. */
  function Pending(pc: seq<CallTree>, a: seq<bool>, i: nat): set<Arg?>
    requires |a| == |pc|
    decreases |pc| - i
  {
    if i >= |pc| then {} else Consumes(Cs(pc[i])) + if a[i] then Pending(pc, a, i + 1) else {}
  }

  lemma {:induction false} PendingReaches(pc: seq<CallTree>, a: seq<bool>, i: nat, j: nat, r: Arg?)
    requires |a| == |pc| && i <= j < |pc| && r in Consumes(Cs(pc[j])) && forall k :: i <= k < j ==> a[k]
    ensures r in Pending(pc, a, i)
    decreases j - i
  {
    if i < j {
      PendingReaches(pc, a, i + 1, j, r);
    }
  }

  /** Call i produces a result that is pending right after it. */
  predicate Blocked(pc: seq<CallTree>, a: seq<bool>, i: nat)
    requires |a| == |pc| && i < |pc|
  {
    exists r :: r in Produces(Cs(pc[i])) && r in Pending(pc, a, i + 1)
  }

  /** From n on, a call is asynchronous exactly when chance has it so, it is not the last, it is not blocked,
      and not too many later ones are. */
  predicate Greedy(pc: seq<CallTree>, a: seq<bool>, coins: seq<bool>, n: nat)
    requires |a| == |coins| == |pc|
  {
    forall i :: n <= i < |pc| ==>
      (a[i] <==> coins[i] && i + 1 < |pc| && !Blocked(pc, a, i) && Count(a[i + 1..]) < Collide.MAX_ASYNC)
  }

  /** A result that an asynchronous call produces is consumed only after some later call that is not asynchronous. */
  lemma {:induction false} GreedyApart(pc: seq<CallTree>, a: seq<bool>, coins: seq<bool>, i: nat, j: nat, r: Arg)
    requires |a| == |coins| == |pc| && Greedy(pc, a, coins, 0) && i < j < |pc| && a[i]
    requires r in Produces(Cs(pc[i])) && r in Consumes(Cs(pc[j]))
    ensures exists k :: i < k < j && !a[k]
  {
    if forall k :: i < k < j ==> a[k] {
      PendingReaches(pc, a, i + 1, j, r);
    }
  }

  function Count(a: seq<bool>): nat {
    if |a| == 0 then 0 else Count(a[1..]) + if a[0] then 1 else 0
  }

  lemma {:induction false} GreedyCount(pc: seq<CallTree>, a: seq<bool>, coins: seq<bool>, n: nat)
    requires |a| == |coins| == |pc| && Greedy(pc, a, coins, n) && n <= |pc|
    ensures Count(a[n..]) <= Collide.MAX_ASYNC
    decreases |pc| - n
  {
    if n < |pc| {
      GreedyCount(pc, a, coins, n + 1);
      assert a[n..][1..] == a[n + 1..];
    }
  }

  /** What is pending from i on depends only on the choices from i on. */
  lemma {:induction false} PendingSame(pc: seq<CallTree>, a: seq<bool>, b: seq<bool>, i: nat)
    requires |a| == |b| == |pc| && forall k :: i <= k < |pc| ==> a[k] == b[k]
    ensures Pending(pc, a, i) == Pending(pc, b, i)
    decreases |pc| - i
  {
    if i < |pc| {
      PendingSame(pc, a, b, i + 1);
    }
  }

  /** Call i is decided, the later ones having been. */
  lemma {:induction false} GreedyNext(pc: seq<CallTree>, a: seq<bool>, b: seq<bool>, coins: seq<bool>, i: nat)
    requires |a| == |b| == |coins| == |pc| && i < |pc| && Greedy(pc, a, coins, i + 1) && b == a[i := b[i]]
    requires b[i] <==> coins[i] && i + 1 < |pc| && !Blocked(pc, a, i) && Count(a[i + 1..]) < Collide.MAX_ASYNC
    ensures Greedy(pc, b, coins, i)
    ensures Pending(pc, b, i) == Consumes(Cs(pc[i])) + if b[i] then Pending(pc, a, i + 1) else {}
    ensures Count(b[i..]) == Count(a[i + 1..]) + if b[i] then 1 else 0
  {
    hide Pending, Cs;
    forall k | i <= k < |pc|
      ensures Blocked(pc, a, k) == Blocked(pc, b, k) && a[k + 1..] == b[k + 1..]
    {
      PendingSame(pc, a, b, k + 1);
    }
    PendingSame(pc, a, b, i + 1);
    PendingStep(pc, b, i);
    assert b[i..][1..] == b[i + 1..];
  }

  /** Once enough are asynchronous the earlier calls are left as they are. */
  lemma {:induction false} GreedyRest(pc: seq<CallTree>, a: seq<bool>, coins: seq<bool>, n: nat)
    requires |a| == |coins| == |pc| && n <= |pc| && Greedy(pc, a, coins, n) && Count(a[n..]) == Collide.MAX_ASYNC
    requires forall i :: 0 <= i < n ==> !a[i]
    ensures Greedy(pc, a, coins, 0)
  {
    if n > 0 {
      assert a[n - 1..][1..] == a[n..];
      GreedyRest(pc, a, coins, n - 1);
    }
  }

  lemma {:induction false} PendingStep(pc: seq<CallTree>, a: seq<bool>, i: nat)
    requires |a| == |pc| && i < |pc|
    ensures Pending(pc, a, i) == Consumes(Cs(pc[i])) + if a[i] then Pending(pc, a, i + 1) else {}
  {
  }

  /** The calls' properties are those given, but for being asynchronous as in a. */
  ghost predicate PropsAre(calls: seq<Call>, props: seq<Props>, a: seq<bool>)
    reads calls`props
  {
    |props| == |a| == |calls| && forall i :: 0 <= i < |calls| ==> calls[i].props == props[i].(async := a[i])
  }

  method SetAsync(calls: seq<Call>, i: nat, async: bool, ghost props: seq<Props>, ghost a: seq<bool>)
    requires Apart(calls) && i < |calls| && PropsAre(calls, props, a)
    modifies calls`props
    ensures PropsAre(calls, props, a[i := async])
  {
    calls[i].props := calls[i].props.(async := async);
  }

  lemma {:induction false} PropsLength(calls: seq<Call>, props: seq<Props>, a: seq<bool>)
    requires PropsAre(calls, props, a)
    ensures |props| == |a| == |calls|
  {
  }

  /** The properties as they are. */
  lemma {:induction false} Observe(calls: seq<Call>) returns (props: seq<Props>, a: seq<bool>)
    ensures PropsAre(calls, props, a)
    ensures forall i :: 0 <= i < |calls| ==> props[i] == calls[i].props && a[i] == calls[i].props.async
  {
    props, a := [], [];
    while |a| < |calls|
      invariant |props| == |a| <= |calls|
      invariant forall i :: 0 <= i < |a| ==> props[i] == calls[i].props && a[i] == calls[i].props.async
    {
      var p := calls[|a|].props;
      props, a := props + [p], a + [p.async];
    }
  }

  /** From the last call to the first. unassigned is none at first, standing for the map that may not be written. */
  method Decide(calls: seq<Call>, coins: seq<bool>, ghost pc: seq<CallTree>, ghost props: seq<Props>,
                ghost a0: seq<bool>)
    returns (ghost a: seq<bool>)
    requires calls == Calls(pc) && CallsHeld(pc) && Apart(calls) && |coins| == |calls| && PropsAre(calls, props, a0)
    modifies calls`props
    ensures CallsHeld(pc) && |a| == |calls|
    ensures PropsAre(calls, props, a)
    ensures |a| > 0 ==> !a[|a| - 1]
    ensures (forall i :: 0 <= i < |a0| ==> !a0[i]) ==> Greedy(pc, a, coins, 0)
  {
    hide Pending, CallsHeld, CellsAll, Blocked, Greedy, Produces, Consumes, CallHeld, Found, Cs, Count, PropsAre, Apart;
    assert |a0| == |calls| by {
      PropsLength(calls, props, a0);
    }
    a := a0;
    var unassigned: Option<set<Arg?>> := None;
    var left, i := Collide.MAX_ASYNC, |calls|;
    AllThere(pc);
    NoneDecided(pc, a, coins);
    while i > 0 && left > 0
      invariant 0 <= i <= |calls| == |a| && 0 <= left && CallsHeld(pc)
      invariant PropsAre(calls, props, a)
      invariant forall j :: 0 <= j < i ==> a[j] == a0[j]
      invariant Greedy(pc, a, coins, i) && Count(a[i..]) == Collide.MAX_ASYNC - left
      invariant i < |calls| ==> unassigned == Some(Pending(pc, a, i)) && !a[|a| - 1]
      invariant i == |calls| ==> unassigned == None && left > 0
    {
      i := i - 1;
      CallHeldAt(pc, i);
      var seen := if unassigned.Some? then unassigned.value else {};
      var produces, consumes := VisitCall(calls[i], seen, pc[i]);
      FoundBlocked(pc, a, i, seen, produces, consumes);
      ghost var b;
      if !produces && i + 1 != |calls| && coins[i] {
        b := a[i := true];
        SetAsync(calls, i, true, props, a);
        assert unassigned.Some?;
        unassigned := Some(consumes + unassigned.value);
        left := left - 1;
      } else {
        b := a[i := false];
        SetAsync(calls, i, false, props, a);
        unassigned := Some(consumes);
        assert consumes + {} == consumes;
      }
      GreedyNext(pc, a, b, coins, i);
      a := b;
    }
    if left == 0 && forall j :: 0 <= j < |a0| ==> !a0[j] {
      GreedyRest(pc, a, coins, i);
    }
  }

  lemma {:induction false} FoundBlocked(pc: seq<CallTree>, a: seq<bool>, i: nat, seen: set<Arg?>, produces: bool,
                                        consumes: set<Arg?>)
    requires |a| == |pc| && i < |pc| && Found(CellsAll(pc[i].trees), seen, produces, consumes)
    requires seen == if i + 1 < |pc| then Pending(pc, a, i + 1) else {}
    ensures produces <==> Blocked(pc, a, i)
    ensures consumes == Consumes(Cs(pc[i]))
  {
    assert seen == Pending(pc, a, i + 1);
    if produces {
      var r :| r in Produces(Cs(pc[i])) && r in seen;
      assert r in Pending(pc, a, i + 1);
    }
    if Blocked(pc, a, i) {
      var r :| r in Produces(Cs(pc[i])) && r in Pending(pc, a, i + 1);
      assert r in seen;
    }
  }

  lemma {:induction false} NoneDecided(pc: seq<CallTree>, a: seq<bool>, coins: seq<bool>)
    requires |a| == |coins| == |pc|
    ensures Greedy(pc, a, coins, |pc|) && Count(a[|pc|..]) == 0
  {
  }

  /** Decides for the calls of a program which are asynchronous. */
  method AssignAsync(calls: seq<Call>, coins: seq<bool>, ghost pc: seq<CallTree>) returns (ghost a: seq<bool>)
    requires calls == Calls(pc) && CallsHeld(pc) && Apart(calls) && |coins| == |calls|
    modifies calls`props
    ensures CallsHeld(pc) && |a| == |calls|
    ensures forall i :: 0 <= i < |a| ==> calls[i].props == old(calls[i].props).(async := a[i])
    ensures |a| > 0 ==> !a[|a| - 1]
    ensures (forall i :: 0 <= i < |calls| ==> !old(calls[i].props).async) ==>
              Greedy(pc, a, coins, 0) && Count(a) <= Collide.MAX_ASYNC
  {
    hide CallsHeld, Greedy, Count, Apart;
    ghost var props, a0 := Observe(calls);
    a := Decide(calls, coins, pc, props, a0);
    if forall i :: 0 <= i < |calls| ==> !old(calls[i].props).async {
      GreedyCount(pc, a, coins, 0);
      assert a[0..] == a;
    }
  }

  /** A copy of the program in which calls are asynchronous as chance has it, but never the last. If none were
      before, then a result that an asynchronous call produces is consumed only after some later call that is
      not asynchronous, and there are no more than the limit. */
  method AssignRandomAsync(p: Prog, coins: seq<bool>, ghost cts: seq<CallTree>)
    returns (p1: Prog, ghost pc: seq<CallTree>, ghost a: seq<bool>)
    requires ProgHeld(p, cts) && Ordered(CallCells(cts)) && |coins| == |p.calls|
    ensures fresh(p1) && ProgHeld(p1, pc) && CallsSame(cts, pc)
    ensures Isomorphic(CallCells(cts), CallCells(pc)) && Exact(CallCells(pc))
    ensures |a| == |p.calls| == |p1.calls|
    ensures forall i :: 0 <= i < |a| ==> p1.calls[i].props == p.calls[i].props.(async := a[i])
    ensures |a| > 0 ==> !a[|a| - 1]
    ensures (forall i :: 0 <= i < |p.calls| ==> !p.calls[i].props.async) ==>
              Greedy(pc, a, coins, 0) && Count(a) <= Collide.MAX_ASYNC
  {
    hide Ordered, CallCells, CallsHeld, Isomorphic, Exact, CallSame, Greedy, Count, Objs;
    p1, pc := CloneProg(p, cts);
    AllThere(pc);
    assert forall i :: 0 <= i < |p1.calls| ==> p1.calls[i] in CallObjs(pc);
    a := AssignAsync(p1.calls, coins, pc);
  }
}
