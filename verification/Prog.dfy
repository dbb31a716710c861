/** Programs: calls whose arguments form trees, with results named so that later
    arguments can refer to them. Every argument has its own id, the value it would
    have as a pointer. */
module Prog {
  import opened Bits
  import opened Common

  /** What the type of an integer argument makes of its value. */
  datatype ConstKind = Plain | Padding | Csum | Proc(start: nat, perProc: nat)

  datatype Arg =
    | ConstArg(id: nat, dir: Dir, size: nat, format: nat, bfOff: nat, bfLen: nat, bfUnit: nat, unitOff: nat,
               kind: ConstKind, val: nat)
    | ResultArg(id: nat, dir: Dir, size: nat, format: nat, dflt: nat, res: Option<nat>, opDiv: nat, opAdd: nat,
                val: nat, uses: set<nat>)
    | PointerArg(id: nat, dir: Dir, size: nat, phys: nat, pointee: Option<Arg>)
    | DataArg(id: nat, dir: Dir, data: seq<Byte>, outSize: nat, readable: bool)
    | GroupArg(id: nat, dir: Dir, size: nat, inner: seq<Arg>, overlay: nat)
    | UnionArg(id: nat, dir: Dir, size: nat, option: Arg)

  function Size(a: Arg): nat {
    if a.DataArg? then (if |a.data| != 0 then |a.data| else a.outSize) else a.size
  }

  /** The value of an integer argument and how it varies with the process. */
  function Value(a: Arg): (nat, nat)
    requires a.ConstArg?
  {
    match a.kind
    case Plain => (a.val, 0)
    case Padding => (a.val, 0)
    case Csum => (0, 0)
    case Proc(start, perProc) => if a.val == W64 - 1 then (0, 0) else ((start + a.val) % W64, perProc)
  }

  function UnitSize(a: Arg): nat
    requires a.ConstArg?
  {
    if a.bfLen != 0 then a.bfUnit else a.size
  }

  function UnitOffset(a: Arg): nat {
    if a.ConstArg? then a.unitOff else 0
  }

  predicate IsUsed(a: Arg) {
    a.ResultArg? && a.uses != {}
  }

  // ----- Traversal -----

  /** An argument met on the way through a call: the address its object starts at
      when it lies in memory, and its offset there. */
  datatype Visit = Visit(arg: Arg, base: Option<nat>, offset: nat)

  /** An argument, then what is below it, in order. */
  function Visits(a: Arg, base: Option<nat>, offset: nat): (r: seq<Visit>)
    ensures |r| > 0 && r[0] == Visit(a, base, offset)
    decreases a, if a.GroupArg? then |a.inner| + 1 else 0
  {
    [Visit(a, base, offset)] +
    match a
    case GroupArg(_, _, _, _, _) => InnerVisits(a, 0, base, offset, offset)
    case PointerArg(_, _, _, phys, Some(p)) => Visits(p, Some(phys), 0)
    case UnionArg(_, _, _, option) => Visits(option, base, offset)
    case _ => []
  }

  /** The elements of a group from i on; the overlay part starts again where the group does. */
  function InnerVisits(g: Arg, i: nat, base: Option<nat>, start: nat, offset: nat): seq<Visit>
    requires g.GroupArg? && i <= |g.inner|
    decreases g, |g.inner| - i
  {
    if i == |g.inner| then []
    else
      var o := if i == g.overlay then start else offset;
      Visits(g.inner[i], base, o) + InnerVisits(g, i + 1, base, start, o + Size(g.inner[i]))
  }

  function ArgVisits(args: seq<Arg>): seq<Visit> {
    if |args| == 0 then [] else Visits(args[0], None, 0) + ArgVisits(args[1..])
  }
}
