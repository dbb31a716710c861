/** Copying programs: fresh nodes throughout, references carried over to the copies (or, for duplicated
    calls, left at the original results), and every result's uses kept exact. */
module Clone {
  import opened Graph

  /** The map from originals to copies, once cs have been copied to cs1. */
  function Extend(remap: bool, m: map<Arg, Arg>, cs: seq<Cell>, cs1: seq<Cell>): map<Arg, Arg>
    requires |cs| == |cs1|
  {
    if |cs| == 0 || !remap then m
    else
      var n := |cs| - 1;
      var m' := Extend(remap, m, cs[..n], cs1[..n]);
      if cs[n].node.kind == Result then m'[cs[n].node := cs1[n].node] else m'
  }

  lemma {:induction false} ExtendConcat(remap: bool, m: map<Arg, Arg>, a: seq<Cell>, a1: seq<Cell>, b: seq<Cell>,
                                        b1: seq<Cell>)
    requires |a| == |a1| && |b| == |b1|
    ensures Extend(remap, m, a + b, a1 + b1) == Extend(remap, Extend(remap, m, a, a1), b, b1)
  {
    if |b| == 0 {
      assert a + b == a && a1 + b1 == a1;
    } else {
      var n := |b| - 1;
      assert (a + b)[..|a| + n] == a + b[..n] && (a1 + b1)[..|a| + n] == a1 + b1[..n];
      ExtendConcat(remap, m, a, a1, b[..n], b1[..n]);
    }
  }

  /** A result among cs is mapped to its copy, and older entries stay. */
  lemma {:induction false} ExtendAt(m: map<Arg, Arg>, cs: seq<Cell>, cs1: seq<Cell>)
    requires |cs| == |cs1| && Distinct(cs) && (forall k :: 0 <= k < |cs| ==> cs[k].node !in m)
    ensures var m' := Extend(true, m, cs, cs1);
      && (forall k :: 0 <= k < |cs| && cs[k].node.kind == Result ==> cs[k].node in m' && m'[cs[k].node] == cs1[k].node)
      && (forall x :: x in m ==> x in m' && m'[x] == m[x])
      && (forall x :: x in m' ==> x in m || x in Objs(cs))
  {
    if |cs| > 0 {
      var n := |cs| - 1;
      ExtendAt(m, cs[..n], cs1[..n]);
      assert cs[n].node in Objs(cs) && Objs(cs[..n]) <= Objs(cs);
    }
  }

  lemma {:induction false} ExtendValues(m: map<Arg, Arg>, cs: seq<Cell>, cs1: seq<Cell>)
    requires |cs| == |cs1|
    ensures Extend(true, m, cs, cs1).Values <= m.Values + Objs(cs1)
  {
    if |cs| > 0 {
      var n := |cs| - 1;
      ExtendValues(m, cs[..n], cs1[..n]);
      var m', m'' := Extend(true, m, cs[..n], cs1[..n]), Extend(true, m, cs, cs1);
      assert cs1[n].node in Objs(cs1) && Objs(cs1[..n]) <= Objs(cs1);
      forall v | v in m''.Values
        ensures v in m.Values + Objs(cs1)
      {
        var x :| x in m'' && m''[x] == v;
        assert v == cs1[n].node || (x in m' && m'[x] == v);
      }
    }
  }

  /** What a reference of an original becomes in its copy. */
  function Target(remap: bool, m: map<Arg, Arg>, r: Arg?): Arg? {
    if r == null || !remap then r else if r in m then m[r] else null
  }

  /** References are to results copied before, or to earlier ones among cs; with no map, to nodes of pool. */
  predicate Ready(remap: bool, m: map<Arg, Arg>, cs: seq<Cell>, pool: set<Arg>) {
    && Distinct(cs)
    && (remap ==> m.Values <= pool && (forall k :: 0 <= k < |cs| ==> cs[k].node !in m))
    && (forall k :: 0 <= k < |cs| && cs[k].ref != null ==> cs[k].ref.kind == Result && Known(remap, m, cs, k, pool))
  }

  predicate Known(remap: bool, m: map<Arg, Arg>, cs: seq<Cell>, k: nat, pool: set<Arg>)
    requires k < |cs|
  {
    if remap then cs[k].ref in m || cs[k].ref in Objs(cs[..k]) else cs[k].ref in pool
  }

  predicate Like(c: Cell, c1: Cell, r: Arg?) {
    c1.node.kind == c.node.kind && c1.info == c.info && c1.ref == r
  }

  /** Each cell of cs1 is that of cs with its reference carried over. */
  predicate Copied(remap: bool, m: map<Arg, Arg>, cs: seq<Cell>, cs1: seq<Cell>) {
    |cs1| == |cs| && forall k :: 0 <= k < |cs| ==> Like(cs[k], cs1[k], Target(remap, m, cs[k].ref))
  }

  /** Where pool gives the uses of older nodes before cs1 came into being, these are the uses now. */
  ghost predicate Used(cs1: seq<Cell>, pool: map<Arg, set<Arg>>)
    reads Objs(cs1)`uses, pool.Keys`uses
  {
    && (forall o :: o in pool ==> o.uses == pool[o] + Users(cs1, o))
    && (forall o :: o in Objs(cs1) ==> o.uses == Users(cs1, o))
  }

  /** pool gives the uses of its nodes as they are. */
  ghost predicate Current(pool: map<Arg, set<Arg>>)
    reads pool.Keys`uses
  {
    forall o :: o in pool ==> o.uses == pool[o]
  }

  // ----- Copying one part after another -----

  lemma {:induction false} ReadyFirst(remap: bool, m: map<Arg, Arg>, a: seq<Cell>, b: seq<Cell>, pool: set<Arg>)
    requires Ready(remap, m, a + b, pool)
    ensures Ready(remap, m, a, pool)
  {
    forall k | 0 <= k < |a|
      ensures (a + b)[k] == a[k] && (a + b)[..k] == a[..k]
    {
    }
  }

  lemma {:induction false} ReadyNext(remap: bool, m: map<Arg, Arg>, a: seq<Cell>, a1: seq<Cell>, b: seq<Cell>,
                                     pool: set<Arg>)
    requires Ready(remap, m, a + b, pool) && |a| == |a1|
    ensures Ready(remap, Extend(remap, m, a, a1), b, pool + Objs(a1))
  {
    var m' := Extend(remap, m, a, a1);
    forall k | 0 <= k < |b|
      ensures b[k] == (a + b)[|a| + k] && Objs((a + b)[..|a| + k]) == Objs(a) + Objs(b[..k])
    {
      assert (a + b)[..|a| + k] == a + b[..k];
    }
    ReadyFirst(remap, m, a, b, pool);
    if remap {
      ExtendAt(m, a, a1);
      ExtendValues(m, a, a1);
      forall k | 0 <= k < |b|
        ensures b[k].node !in m'
      {
        assert forall j :: 0 <= j < |a| ==> a[j] == (a + b)[j];
      }
    }
  }

  /** References of nodes copied before lead to the same copies after more nodes are. */
  lemma {:induction false} StillCopied(remap: bool, m: map<Arg, Arg>, a: seq<Cell>, a1: seq<Cell>, b: seq<Cell>,
                                       b1: seq<Cell>, pool: set<Arg>)
    requires Ready(remap, m, a + b, pool) && |a| == |a1| && |b| == |b1| && Copied(remap, Extend(remap, m, a, a1), a, a1)
    ensures Copied(remap, Extend(remap, Extend(remap, m, a, a1), b, b1), a, a1)
  {
    if remap {
      var m' := Extend(remap, m, a, a1);
      ReadyFirst(remap, m, a, b, pool);
      ReadyNext(remap, m, a, a1, b, pool);
      ExtendAt(m, a, a1);
      ExtendAt(m', b, b1);
      forall k | 0 <= k < |a|
        ensures a[k].ref != null ==> a[k].ref in m'
      {
      }
    }
  }

  lemma {:induction false} UsedConcat(a1: seq<Cell>, b1: seq<Cell>, pool: map<Arg, set<Arg>>, pool': map<Arg, set<Arg>>)
    requires pool'.Keys == pool.Keys + Objs(a1)
    requires forall o :: o in pool ==> pool'[o] == pool[o] + Users(a1, o)
    requires forall o :: o in Objs(a1) ==> pool'[o] == Users(a1, o)
    requires forall c :: c in a1 && c.ref != null ==> c.ref !in Objs(b1)
    requires Used(b1, pool')
    ensures Used(a1 + b1, pool)
  {
    forall o: Arg
      ensures Users(a1 + b1, o) == Users(a1, o) + Users(b1, o)
    {
    }
    assert Objs(a1 + b1) == Objs(a1) + Objs(b1);
  }

  /** Starting from map m and uses as in pool, cs have been copied to cs1. */
  ghost predicate Effect(remap: bool, m: map<Arg, Arg>, cs: seq<Cell>, cs1: seq<Cell>, pool: map<Arg, set<Arg>>)
    reads Objs(cs1)`uses, pool.Keys`uses
  {
    && |cs| == |cs1| && Distinct(cs1)
    && Copied(remap, Extend(remap, m, cs, cs1), cs, cs1)
    && Used(cs1, pool)
  }

  /** The uses of older nodes once a1 are copied: where the next part starts from. */
  predicate Between(a1: seq<Cell>, pool: map<Arg, set<Arg>>, pool': map<Arg, set<Arg>>) {
    && pool'.Keys == pool.Keys + Objs(a1)
    && (forall o :: o in pool ==> pool'[o] == pool[o] + Users(a1, o))
    && (forall o :: o in Objs(a1) ==> pool'[o] == Users(a1, o))
  }

  /** What is to be remembered of a copied part while the next one is copied. */
  lemma {:induction false} Settle(remap: bool, m: map<Arg, Arg>, a: seq<Cell>, a1: seq<Cell>,
                                  pool: map<Arg, set<Arg>>, pool': map<Arg, set<Arg>>)
    requires Effect(remap, m, a, a1, pool) && pool'.Keys == pool.Keys + Objs(a1) && Current(pool')
    ensures |a| == |a1| && Distinct(a1) && Copied(remap, Extend(remap, m, a, a1), a, a1) && Between(a1, pool, pool')
  {
  }

  lemma {:induction false} Join(remap: bool, m: map<Arg, Arg>, a: seq<Cell>, a1: seq<Cell>, b: seq<Cell>, b1: seq<Cell>,
                                pool: map<Arg, set<Arg>>, pool': map<Arg, set<Arg>>)
    requires Ready(remap, m, a + b, pool.Keys) && |a| == |a1| && Distinct(a1)
    requires Copied(remap, Extend(remap, m, a, a1), a, a1) && Between(a1, pool, pool')
    requires Effect(remap, Extend(remap, m, a, a1), b, b1, pool')
    requires forall c :: c in a1 ==> c.node !in Objs(b1) && (c.ref != null ==> c.ref !in Objs(b1))
    ensures Effect(remap, m, a + b, a1 + b1, pool)
    ensures Extend(remap, m, a + b, a1 + b1) == Extend(remap, Extend(remap, m, a, a1), b, b1)
  {
    hide Ready, Users, Used, Extend, Like, Target;
    ExtendConcat(remap, m, a, a1, b, b1);
    StillCopied(remap, m, a, a1, b, b1, pool.Keys);
    UsedConcat(a1, b1, pool, pool');
    assert forall i :: 0 <= i < |b1| ==> b1[i].node in Objs(b1);
  }

  lemma {:induction false} Nothing(remap: bool, m: map<Arg, Arg>, pool: map<Arg, set<Arg>>)
    requires Current(pool)
    ensures AllHeld([]) && CellsAll([]) == [] && AllSame([], []) && Effect(remap, m, [], [], pool)
            && Extend(remap, m, [], []) == m
  {
  }

  // ----- The copying itself -----

  class Cloner {
    var newargs: map<Arg, Arg>
    /** False when references are to stay at the original results. */
    const remap: bool

    constructor (remap: bool)
      ensures newargs == map[] && this.remap == remap
    {
      newargs, this.remap := map[], remap;
    }

    /** The node alone; what hangs below it is still the original's. */
    method CopyNode(a: Arg, ghost c: Cell, ghost pool: map<Arg, set<Arg>>) returns (a1: Arg, ghost c1: Cell)
      requires c.node == a && c.info == a.info && c.ref == a.ref && (a.kind != Result ==> a.ref == null)
      requires Ready(remap, newargs, [c], pool.Keys) && Current(pool)
      modifies this`newargs, pool.Keys`uses
      ensures fresh(a1) && a1.kind == a.kind && a1.kids == a.kids && (a.ref == null ==> a1.ref == null)
              && c1 == Cell(a1, a1.info, a1.ref)
      ensures newargs == Extend(remap, old(newargs), [c], [c1])
      ensures Effect(remap, old(newargs), [c], [c1], pool)
    {
      assert [c][0] == c;
      a1 := new Arg.Copy(a);
      if a.kind == Result {
        if a1.ref != null {
          var r := a1.ref;
          if remap {
            r := newargs[a1.ref];
            a1.ref := r;
          }
          r.uses := r.uses + {a1};
        }
        if remap {
          newargs := newargs[a := a1];
        }
      }
      a1.uses := {};
      c1 := Cell(a1, a1.info, a1.ref);
      assert [c][..0] == [] && [c1][..0] == [] && [c1][0] == c1;
    }

    /** The root of t, and all that copying its children relies on. */
    method CloneRoot(a: Arg, ghost t: Tree, ghost pool: map<Arg, set<Arg>>)
      returns (a1: Arg, ghost c1: Cell, ghost pool': map<Arg, set<Arg>>)
      requires t.cell.node == a && Held(t) && Ready(remap, newargs, Cells(t), pool.Keys) && Current(pool)
      modifies this`newargs, pool.Keys`uses
      ensures fresh(a1) && a1.kind == a.kind && (a.kind != Result ==> a1.ref == null) && c1 == Cell(a1, a1.info, a1.ref)
      ensures newargs == Extend(remap, old(newargs), [t.cell], [c1])
      ensures pool'.Keys == pool.Keys + {a1} && Current(pool') && Between([c1], pool, pool')
      ensures Distinct([c1]) && Copied(remap, newargs, [t.cell], [c1])
      ensures AllHeld(t.kids) && Ready(remap, newargs, CellsAll(t.kids), pool'.Keys)
    {
      hide Ready, Copied, Used, Users, Extend, Held, AllHeld, Cells, CellsAll, Effect, Distinct, Between, Arity;
      ghost var m, orig, cs := newargs, Objs(Cells(t)), CellsAll(t.kids);
      assert forall x :: x in orig ==> allocated(x);
      HeldNode(t);
      ReadyFirst(remap, m, [t.cell], cs, pool.Keys);
      a1, c1 := CopyNode(a, t.cell, pool);
      assert a1 !in orig && Objs([c1]) == {a1};
      pool' := map o: Arg | o in pool.Keys + {a1} :: o.uses;
      assert pool'.Keys == pool.Keys + Objs([c1]);
      Settle(remap, m, [t.cell], [c1], pool, pool');
      ReadyNext(remap, m, [t.cell], [c1], cs, pool.Keys);
    }

    method CloneArg(a: Arg, ghost t: Tree, ghost pool: map<Arg, set<Arg>>) returns (a1: Arg, ghost t1: Tree)
      requires t.cell.node == a && Held(t) && Ready(remap, newargs, Cells(t), pool.Keys) && Current(pool)
      modifies this`newargs, pool.Keys`uses
      ensures t1.cell.node == a1 && Same(t, t1) && Held(t1) && fresh(Objs(Cells(t1)))
      ensures Effect(remap, old(newargs), Cells(t), Cells(t1), pool)
      ensures |Cells(t)| == |Cells(t1)| && newargs == Extend(remap, old(newargs), Cells(t), Cells(t1))
      decreases t, 0
    {
      hide Ready, Copied, Used, Users, Extend, Held, AllHeld, Cells, CellsAll, Effect, Distinct, Between, AllSame;
      hide Arity;
      HeldNode(t);
      ghost var c1, pool';
      a1, c1, pool' := CloneRoot(a, t, pool);
      var kids1, ts1 := CloneAll(a.kids, t.kids, pool');
      assert a1 !in Objs(CellsAll(ts1));
      a1.kids := kids1;
      t1 := Tree(c1, ts1);
      SameLength(t.kids, ts1);
      HeldNode(t1);
      Join(remap, old(newargs), [t.cell], [c1], CellsAll(t.kids), CellsAll(ts1), pool, pool');
    }

    /** One argument more, after cs have been copied to cs1. */
    method CloneNext(a: Arg, ghost t: Tree, ghost m: map<Arg, Arg>, ghost cs: seq<Cell>, ghost cs1: seq<Cell>,
                     ghost pool: map<Arg, set<Arg>>)
      returns (a1: Arg, ghost t1: Tree)
      requires t.cell.node == a && Held(t) && |cs| == |cs1| && Ready(remap, m, cs + Cells(t), pool.Keys)
      requires newargs == Extend(remap, m, cs, cs1) && Effect(remap, m, cs, cs1, pool)
      modifies this`newargs, pool.Keys`uses, Objs(cs1)`uses
      ensures t1.cell.node == a1 && Same(t, t1) && Held(t1) && fresh(Objs(Cells(t1))) && |Cells(t)| == |Cells(t1)|
      ensures newargs == Extend(remap, m, cs + Cells(t), cs1 + Cells(t1))
              && Effect(remap, m, cs + Cells(t), cs1 + Cells(t1), pool)
      decreases t, 1
    {
      hide Ready, Copied, Used, Users, Extend, Held, Cells, Effect, Distinct, Between, Same;
      ghost var pool' := map o: Arg | o in pool.Keys + Objs(cs1) :: o.uses;
      assert pool'.Keys == pool.Keys + Objs(cs1);
      ghost var olds := Objs(cs1) + set c | c in cs1 && c.ref != null :: c.ref;
      assert forall c :: c in cs1 ==> c.node in olds && (c.ref != null ==> c.ref in olds);
      Settle(remap, m, cs, cs1, pool, pool');
      ReadyNext(remap, m, cs, cs1, Cells(t), pool.Keys);
      a1, t1 := CloneArg(a, t, pool');
      assert olds !! Objs(Cells(t1));
      Join(remap, m, cs, cs1, Cells(t), Cells(t1), pool, pool');
    }

    method CloneAll(args: seq<Arg>, ghost ts: seq<Tree>, ghost pool: map<Arg, set<Arg>>)
      returns (args1: seq<Arg>, ghost ts1: seq<Tree>)
      requires Roots(ts) == args && AllHeld(ts) && Ready(remap, newargs, CellsAll(ts), pool.Keys) && Current(pool)
      modifies this`newargs, pool.Keys`uses
      ensures Roots(ts1) == args1 && AllSame(ts, ts1) && AllHeld(ts1) && fresh(Objs(CellsAll(ts1)))
      ensures Effect(remap, old(newargs), CellsAll(ts), CellsAll(ts1), pool)
      ensures |CellsAll(ts)| == |CellsAll(ts1)| && newargs == Extend(remap, old(newargs), CellsAll(ts), CellsAll(ts1))
      decreases ts
    {
      hide Ready, Copied, Used, Users, Extend, Held, AllHeld, Cells, CellsAll, Effect, Distinct, Between, Same, AllSame;
      args1, ts1 := [], [];
      var i := 0;
      Nothing(remap, newargs, pool);
      assert ts[..0] == [];
      ghost var orig := Objs(CellsAll(ts));
      assert forall x :: x in orig ==> allocated(x);
      while i < |args|
        invariant 0 <= i <= |args| && |ts1| == i && AllHeld(ts)
        invariant Roots(ts1) == args1 && AllSame(ts[..i], ts1) && AllHeld(ts1) && fresh(Objs(CellsAll(ts1)))
        invariant Effect(remap, old(newargs), CellsAll(ts[..i]), CellsAll(ts1), pool)
        invariant |CellsAll(ts[..i])| == |CellsAll(ts1)|
                  && newargs == Extend(remap, old(newargs), CellsAll(ts[..i]), CellsAll(ts1))
      {
        ghost var cs, cs1 := CellsAll(ts[..i]), CellsAll(ts1);
        CellsMore(ts, i);
        HeldAt(ts, i);
        ghost var rest := CellsAll(ts)[|cs + Cells(ts[i])|..];
        assert CellsAll(ts) == cs + Cells(ts[i]) + rest;
        ReadyFirst(remap, old(newargs), cs + Cells(ts[i]), rest, pool.Keys);
        ghost var mine := Objs(cs1);
        assert forall o :: o in mine ==> allocated(o);
        var x, t := CloneNext(args[i], ts[i], old(newargs), cs, cs1, pool);
        HeldSnoc(ts1, t);
        SameSnoc(ts, ts1, t);
        args1, ts1, i := args1 + [x], ts1 + [t], i + 1;
      }
      assert ts[..i] == ts;
    }

    /** Several arguments more, after cs have been copied to cs1. */
    method CloneMore(args: seq<Arg>, ghost ts: seq<Tree>, ghost m: map<Arg, Arg>, ghost cs: seq<Cell>,
                     ghost cs1: seq<Cell>, ghost pool: map<Arg, set<Arg>>)
      returns (args1: seq<Arg>, ghost ts1: seq<Tree>)
      requires Roots(ts) == args && AllHeld(ts) && |cs| == |cs1| && Ready(remap, m, cs + CellsAll(ts), pool.Keys)
      requires newargs == Extend(remap, m, cs, cs1) && Effect(remap, m, cs, cs1, pool)
      modifies this`newargs, pool.Keys`uses, Objs(cs1)`uses
      ensures Roots(ts1) == args1 && AllSame(ts, ts1) && AllHeld(ts1) && fresh(Objs(CellsAll(ts1)))
              && |CellsAll(ts)| == |CellsAll(ts1)|
      ensures newargs == Extend(remap, m, cs + CellsAll(ts), cs1 + CellsAll(ts1))
              && Effect(remap, m, cs + CellsAll(ts), cs1 + CellsAll(ts1), pool)
    {
      hide Ready, Copied, Used, Users, Extend, AllHeld, CellsAll, Effect, Distinct, Between, AllSame;
      ghost var pool' := map o: Arg | o in pool.Keys + Objs(cs1) :: o.uses;
      assert pool'.Keys == pool.Keys + Objs(cs1);
      ghost var olds := Objs(cs1) + set c | c in cs1 && c.ref != null :: c.ref;
      assert forall c :: c in cs1 ==> c.node in olds && (c.ref != null ==> c.ref in olds);
      Settle(remap, m, cs, cs1, pool, pool');
      ReadyNext(remap, m, cs, cs1, CellsAll(ts), pool.Keys);
      args1, ts1 := CloneAll(args, ts, pool');
      assert olds !! Objs(CellsAll(ts1));
      Join(remap, m, cs, cs1, CellsAll(ts), CellsAll(ts1), pool, pool');
    }
  }
}
