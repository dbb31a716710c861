/** Programs as the mutable graph they are: argument nodes that hold other nodes, refer to earlier
    results, and record at each result which arguments refer to it. */
module Graph {
  import opened Common

  datatype Kind = Const | Pointer | Data | Group | Union | Result

  /** The part of a node that is plain data: its type, direction, scalar fields and bytes. */
  datatype Info = Info(typ: nat, dir: Dir, fields: seq<int>, bytes: seq<int>)

  class Arg {
    const kind: Kind
    var info: Info
    /** The pointee, the elements or the option. */
    var kids: seq<Arg>
    /** For results only: the result referred to, and the arguments that refer to this one. */
    var ref: Arg?
    var uses: set<Arg>

    constructor Copy(a: Arg)
      ensures kind == a.kind && info == a.info && kids == a.kids && ref == a.ref && uses == a.uses
    {
      kind, info, kids, ref, uses := a.kind, a.info, a.kids, a.ref, a.uses;
    }
  }

  /** What a node holds besides its children and its uses. */
  datatype Cell = Cell(node: Arg, info: Info, ref: Arg?)

  /** The tree of nodes below an argument, with what they hold. */
  datatype Tree = Tree(cell: Cell, kids: seq<Tree>)

  /** The nodes of a tree, in the order in which they are visited. */
  function Cells(t: Tree): seq<Cell> {
    [t.cell] + CellsAll(t.kids)
  }

  function CellsAll(ts: seq<Tree>): seq<Cell> {
    if |ts| == 0 then [] else CellsAll(ts[..|ts| - 1]) + Cells(ts[|ts| - 1])
  }

  function Objs(cs: seq<Cell>): set<Arg> {
    set c | c in cs :: c.node
  }

  function Roots(ts: seq<Tree>): seq<Arg> {
    seq(|ts|, i requires 0 <= i < |ts| => ts[i].cell.node)
  }

  predicate Arity(kind: Kind, n: nat) {
    match kind
    case Pointer => n <= 1
    case Group => true
    case Union => n == 1
    case _ => n == 0
  }

  /** t is what memory holds below its root. */
  ghost predicate Held(t: Tree)
    reads Objs(Cells(t))`info, Objs(Cells(t))`kids, Objs(Cells(t))`ref
  {
    assert t.cell in Cells(t) && Objs(CellsAll(t.kids)) <= Objs(Cells(t));
    var c := t.cell;
    && c.node.info == c.info && c.node.ref == c.ref && c.node.kids == Roots(t.kids)
    && Arity(c.node.kind, |t.kids|)
    && (c.node.kind != Result ==> c.ref == null)
    && AllHeld(t.kids)
  }

  ghost predicate AllHeld(ts: seq<Tree>)
    reads Objs(CellsAll(ts))`info, Objs(CellsAll(ts))`kids, Objs(CellsAll(ts))`ref
  {
    if |ts| == 0 then true
    else
      var n := |ts| - 1;
      assert Objs(CellsAll(ts[..n])) <= Objs(CellsAll(ts)) && Objs(Cells(ts[n])) <= Objs(CellsAll(ts));
      AllHeld(ts[..n]) && Held(ts[n])
  }

  /** Trees of the same shape and kinds. */
  predicate Same(t: Tree, t1: Tree)
    decreases t
  {
    t.cell.node.kind == t1.cell.node.kind && AllSame(t.kids, t1.kids)
  }

  predicate AllSame(ts: seq<Tree>, ts1: seq<Tree>)
    decreases ts
  {
    && |ts| == |ts1|
    && (|ts| == 0 || (AllSame(ts[..|ts| - 1], ts1[..|ts| - 1]) && Same(ts[|ts| - 1], ts1[|ts| - 1])))
  }

  predicate Distinct(cs: seq<Cell>) {
    forall i, j :: 0 <= i < j < |cs| ==> cs[i].node != cs[j].node
  }

  /** The nodes among cs that refer to o. */
  function Users(cs: seq<Cell>, o: Arg): set<Arg> {
    set c | c in cs && c.ref == o :: c.node
  }

  // ----- Parts of trees -----

  lemma {:induction false} ObjsConcat(a: seq<Cell>, b: seq<Cell>)
    ensures Objs(a + b) == Objs(a) + Objs(b)
  {
  }

  lemma {:induction false} CellsMore(ts: seq<Tree>, i: nat)
    requires i < |ts|
    ensures CellsAll(ts[..i + 1]) == CellsAll(ts[..i]) + Cells(ts[i])
    ensures CellsAll(ts[..i + 1]) <= CellsAll(ts)
    decreases |ts| - i
  {
    assert ts[..i + 1][..i] == ts[..i];
    if i + 1 < |ts| {
      CellsMore(ts, i + 1);
    } else {
      assert ts[..i + 1] == ts;
    }
  }

  lemma {:induction false} HeldAt(ts: seq<Tree>, i: nat)
    requires i < |ts| && AllHeld(ts)
    ensures Held(ts[i])
  {
    if i < |ts| - 1 {
      HeldAt(ts[..|ts| - 1], i);
    }
  }

  lemma {:induction false} HeldSnoc(ts: seq<Tree>, t: Tree)
    ensures AllHeld(ts + [t]) <==> AllHeld(ts) && Held(t)
    ensures CellsAll(ts + [t]) == CellsAll(ts) + Cells(t)
            && Objs(CellsAll(ts + [t])) == Objs(CellsAll(ts)) + Objs(Cells(t))
    ensures Roots(ts + [t]) == Roots(ts) + [t.cell.node]
  {
    assert (ts + [t])[..|ts|] == ts;
  }

  lemma {:induction false} HeldNode(t: Tree)
    ensures Held(t) <==>
      var c := t.cell;
      && c.node.info == c.info && c.node.ref == c.ref && c.node.kids == Roots(t.kids)
      && Arity(c.node.kind, |t.kids|) && (c.node.kind != Result ==> c.ref == null) && AllHeld(t.kids)
    ensures Cells(t) == [t.cell] + CellsAll(t.kids) && Objs(Cells(t)) == {t.cell.node} + Objs(CellsAll(t.kids))
  {
  }

  lemma {:induction false} SameSnoc(ts: seq<Tree>, ts1: seq<Tree>, t1: Tree)
    requires |ts1| < |ts| && AllSame(ts[..|ts1|], ts1) && Same(ts[|ts1|], t1)
    ensures AllSame(ts[..|ts1| + 1], ts1 + [t1])
  {
    assert ts[..|ts1| + 1][..|ts1|] == ts[..|ts1|] && (ts1 + [t1])[..|ts1|] == ts1;
  }

  lemma {:induction false} SameLength(ts: seq<Tree>, ts1: seq<Tree>)
    requires AllSame(ts, ts1)
    ensures |ts| == |ts1|
  {
  }

  lemma {:induction false} CellsFirst(ts: seq<Tree>)
    requires |ts| > 0
    ensures CellsAll(ts) == Cells(ts[0]) + CellsAll(ts[1..])
  {
    var n := |ts| - 1;
    if n > 0 {
      CellsFirst(ts[..n]);
      assert ts[1..][..n - 1] == ts[..n][1..];
    } else {
      assert ts[..0] == ts[1..] == [];
    }
  }

  lemma {:induction false} HeldFirst(ts: seq<Tree>)
    requires |ts| > 0
    ensures AllHeld(ts) <==> Held(ts[0]) && AllHeld(ts[1..])
  {
    var n := |ts| - 1;
    if n > 0 {
      HeldFirst(ts[..n]);
      assert ts[1..][..n - 1] == ts[..n][1..];
    } else {
      assert ts[..0] == ts[1..] == [];
    }
  }

  lemma {:induction false} SameFirst(ts: seq<Tree>, ts1: seq<Tree>)
    requires |ts| > 0 && |ts1| > 0 && Same(ts[0], ts1[0]) && AllSame(ts[1..], ts1[1..])
    ensures AllSame(ts, ts1)
  {
    SameLength(ts[1..], ts1[1..]);
    var n := |ts| - 1;
    if n > 0 {
      assert ts[1..][..n - 1] == ts[..n][1..] && ts1[1..][..n - 1] == ts1[..n][1..];
      SameFirst(ts[..n], ts1[..n]);
    } else {
      assert ts[..0] == ts1[..0] == [];
    }
  }

  lemma {:induction false} SameCells(t: Tree, t1: Tree)
    requires Same(t, t1)
    ensures |Cells(t)| == |Cells(t1)|
    decreases t
  {
    AllSameCells(t.kids, t1.kids);
  }

  lemma {:induction false} AllSameCells(ts: seq<Tree>, ts1: seq<Tree>)
    requires AllSame(ts, ts1)
    ensures |CellsAll(ts)| == |CellsAll(ts1)|
    decreases ts
  {
    if |ts| > 0 {
      AllSameCells(ts[..|ts| - 1], ts1[..|ts| - 1]);
      SameCells(ts[|ts| - 1], ts1[|ts| - 1]);
    }
  }

  /** Nodes that can be named are allocated, so what memory holds of them survives later allocation. */
  lemma {:induction false} CellsThere(cs: seq<Cell>)
    ensures forall x :: x in Objs(cs) ==> allocated(x)
  {
    var objs := Objs(cs);
    assert forall x :: x in objs ==> allocated(x);
  }
}
