/** The memory that copying in the fields of an argument leaves, and that it is what squashing gives. */
module SquashMemory {
  import opened Bits
  import opened Common
  import opened Prog
  import opened Squash
  import Alloc
  import F = ExecFormat
  import D = ExecDecode
  import E = ExecEncode

  // ----- Copying in -----

  /** x with len bits from off on taken from val. */
  function InsertBits(x: nat, off: nat, len: nat, val: nat): nat
    decreases off, len
  {
    if off > 0 then 2 * InsertBits(x / 2, off - 1, len, val) + x % 2
    else if len > 0 then 2 * InsertBits(x / 2, 0, len - 1, val / 2) + val % 2
    else x
  }

  lemma {:induction false} InsertedBit(x: nat, off: nat, len: nat, val: nat, k: nat)
    ensures IsSet(InsertBits(x, off, len, val), k) <==>
            if off <= k < off + len then IsSet(val, k - off) else IsSet(x, k)
    decreases off, len
  {
    if off > 0 {
      if k > 0 {
        InsertedBit(x / 2, off - 1, len, val, k - 1);
      }
    } else if len > 0 {
      if k > 0 {
        InsertedBit(x / 2, 0, len - 1, val / 2, k - 1);
      }
    }
  }

  /** Bytes stored at k; an access out of range leaves memory alone. */
  function StoreAt(mem: seq<Byte>, k: nat, d: seq<Byte>): (r: seq<Byte>)
    ensures |r| == |mem|
  {
    if k + |d| <= |mem| then mem[..k] + d + mem[k + |d|..] else mem
  }

  /** A native constant: stored whole, or merged into the unit that is there. */
  function CopyinConst(mem: seq<Byte>, k: nat, size: nat, value: nat, bfOff: nat, bfLen: nat): (r: seq<Byte>)
    ensures |r| == |mem|
  {
    if bfOff == 0 && bfLen == 0 then StoreAt(mem, k, F.Le(value, size))
    else if k + size <= |mem| then
      StoreAt(mem, k, F.Le(InsertBits(F.FromLe(mem[k..k + size]), bfOff, bfLen, value), size))
    else mem
  }

  /** Memory starts at base. Results and checksums do not occur in what follows. */
  function Copyin(mem: seq<Byte>, base: nat, r: D.CopyinRec): (m: seq<Byte>)
    ensures |m| == |mem|
  {
    if r.addr < base then mem
    else
      match r.arg
      case ExecConst(size, _, value, bfOff, bfLen, _) => CopyinConst(mem, r.addr - base, size, value, bfOff, bfLen)
      case ExecData(data, _) => StoreAt(mem, r.addr - base, data)
      case _ => mem
  }

  function CopyinAll(mem: seq<Byte>, base: nat, rs: seq<D.CopyinRec>): (m: seq<Byte>)
    ensures |m| == |mem|
    decreases |rs|
  {
    if |rs| == 0 then mem else CopyinAll(Copyin(mem, base, rs[0]), base, rs[1..])
  }

  lemma {:induction false} CopyinConcat(mem: seq<Byte>, base: nat, a: seq<D.CopyinRec>, b: seq<D.CopyinRec>)
    ensures CopyinAll(mem, base, a + b) == CopyinAll(CopyinAll(mem, base, a), base, b)
    decreases |a|
  {
    hide Copyin;
    if |a| == 0 {
      assert a + b == b;
    } else {
      assert (a + b)[1..] == a[1..] + b;
      CopyinConcat(Copyin(mem, base, a[0]), base, a[1..], b);
    }
  }

  // ----- Plain arguments -----

  /** A bitfield within its unit of one of the machine's sizes, native and sent. */
  predicate FieldPlain(f: Arg) {
    && IsBitfield(f) && f.kind == Plain && f.format == NATIVE && f.dir != DirOut && f.unitOff == 0
    && f.bfUnit in {1, 2, 4, 8} && f.bfOff + f.bfLen <= 8 * f.bfUnit && f.size <= 8
  }

  /** Native constants, data, structs and unions of them. */
  predicate PlainArg(a: Arg)
    decreases a, 0
  {
    match a
    case ConstArg(_, dir, size, format, bfOff, bfLen, _, unitOff, kind, _) =>
      && bfLen == 0 && bfOff == 0 && unitOff == 0
      && (kind == Padding || (kind == Plain && format == NATIVE && dir != DirOut && size in {0, 1, 2, 4, 8}))
    case DataArg(_, _, _, _, _) => true
    case UnionArg(_, _, _, option) => PlainArg(option)
    case GroupArg(_, _, _, inner, _) => FieldsPlain(inner, {}, 0)
    case _ => false
  }

  /** Bitfields come in runs that share a unit without overlapping, the last one's size taking in all their bits;
      used holds the bits taken in the open run. */
  predicate FieldsPlain(fields: seq<Arg>, used: set<nat>, unit: nat)
    decreases fields, 1
  {
    if |fields| == 0 then used == {}
    else if IsBitfield(fields[0]) then
      var f := fields[0];
      var used' := used + Alloc.Range(f.bfOff, f.bfOff + f.bfLen);
      && FieldPlain(f) && (used != {} ==> f.bfUnit == unit) && used !! Alloc.Range(f.bfOff, f.bfOff + f.bfLen)
      && if f.size == 0 then FieldsPlain(fields[1..], used', f.bfUnit)
         else (forall k :: k in used' ==> k < 8 * f.size) && FieldsPlain(fields[1..], {}, 0)
    else used == {} && PlainArg(fields[0]) && FieldsPlain(fields[1..], {}, 0)
  }

  // ----- Bytes of plain arguments -----

  function Flat(cs: seq<Cell>): (r: seq<Byte>)
    ensures |r| == |cs|
  {
    seq(|cs|, i requires 0 <= i < |cs| => if cs[i].Value? then cs[i].b else 0)
  }

  lemma {:induction false} FlatConcat(a: seq<Cell>, b: seq<Cell>)
    ensures Flat(a + b) == Flat(a) + Flat(b)
  {
  }

  lemma {:induction false} FlatCells(d: seq<Byte>)
    ensures Flat(Cells(d)) == d
  {
  }

  lemma {:induction false} PlainValues(a: Arg)
    requires Supported(a) && PlainArg(a)
    ensures |Content(a)| == Size(a) && forall i :: 0 <= i < |Content(a)| ==> Content(a)[i].Value?
    decreases a, 0
  {
    hide ConstBytes, F.ZeroBytes;
    match a
    case UnionArg(_, _, _, option) => PlainValues(option);
    case GroupArg(_, _, _, inner, _) => FieldsValues(inner, {}, 0, 0);
    case _ =>
  }

  lemma {:induction false} FieldsValues(fields: seq<Arg>, used: set<nat>, unit: nat, acc: nat)
    requires FieldsSupported(fields) && FieldsPlain(fields, used, unit)
    ensures var c := FieldsContent(fields, acc); |c| == FieldsSize(fields) && forall i :: 0 <= i < |c| ==> c[i].Value?
    decreases fields, 1
  {
    hide FieldBits, Or, FieldPlain, ConstOk, Alloc.Range, F.Le;
    if |fields| > 0 {
      var f, rest := fields[0], fields[1..];
      if IsBitfield(f) {
        if f.size == 0 {
          FieldsValues(rest, used + Alloc.Range(f.bfOff, f.bfOff + f.bfLen), f.bfUnit, Or(acc, FieldBits(f)));
        } else {
          FieldsValues(rest, {}, 0, 0);
        }
      } else {
        PlainValues(f);
        FieldsValues(rest, {}, 0, acc);
      }
    }
  }

  // ----- Numbers in memory -----

  lemma {:induction false} LeZero(n: nat)
    ensures F.Le(0, n) == F.ZeroBytes(n)
  {
    if n > 0 {
      LeZero(n - 1);
    }
  }

  /** A number that needs only n bytes has zeros in the others. */
  lemma {:induction false} LeWide(v: nat, n: nat, m: nat)
    requires n <= m && v < F.Pow256(n)
    ensures F.Le(v, m) == F.Le(v, n) + F.ZeroBytes(m - n)
  {
    if n == 0 {
      LeZero(m);
    } else {
      LeWide(v / 256, n - 1, m - 1);
    }
  }

  lemma {:induction false} Pow256Bits(n: nat)
    ensures F.Pow256(n) == Pow2(8 * n)
  {
    if n > 0 {
      Pow256Bits(n - 1);
      Pow2Add(8 * (n - 1), 8);
      Pow2Values();
    }
  }

  /** Bits of acc all lie in used. */
  ghost predicate Within(acc: nat, used: set<nat>) {
    forall k: nat :: IsSet(acc, k) ==> k in used
  }

  lemma {:induction false} WithinBound(acc: nat, used: set<nat>, n: nat)
    requires Within(acc, used) && forall k :: k in used ==> k < 8 * n
    ensures acc < F.Pow256(n)
  {
    Pow256Bits(n);
    BitsBelow(acc, 8 * n);
  }

  /** Merging a field into a unit where its bits are free is or-ing it in. */
  lemma {:induction false} InsertIsOr(acc: nat, used: set<nat>, off: nat, len: nat, val: nat)
    requires Within(acc, used) && used !! Alloc.Range(off, off + len)
    ensures InsertBits(acc, off, len, val) == Or(acc, val % Pow2(len) * Pow2(off))
    ensures Within(Or(acc, val % Pow2(len) * Pow2(off)), used + Alloc.Range(off, off + len))
  {
    var bits := val % Pow2(len) * Pow2(off);
    forall k: nat
      ensures IsSet(InsertBits(acc, off, len, val), k) == IsSet(Or(acc, bits), k)
      ensures IsSet(Or(acc, bits), k) ==> k in used + Alloc.Range(off, off + len)
    {
      InsertedBit(acc, off, len, val, k);
      OrBit(acc, bits, k);
      ShiftBit(val % Pow2(len), off, k);
      if k >= off {
        LowBit(val, len, k - off);
      }
    }
    SameBits(InsertBits(acc, off, len, val), Or(acc, bits));
  }

  // ----- Memory with an open unit -----

  /** Memory that has acc in the eight bytes at o, and zeros after them. */
  predicate Open(mem: seq<Byte>, o: nat, acc: nat) {
    o + 8 <= |mem| && mem[o..] == F.Le(acc, 8) + F.ZeroBytes(|mem| - o - 8)
  }

  /** Memory up to o as in mem, then d, then zeros. */
  function After(mem: seq<Byte>, o: nat, d: seq<Byte>): (r: seq<Byte>)
    requires o + |d| <= |mem|
    ensures |r| == |mem|
  {
    mem[..o] + d + F.ZeroBytes(|mem| - o - |d|)
  }

  lemma {:induction false} OpenZero(mem: seq<Byte>, o: nat)
    requires o + 8 <= |mem|
    ensures Open(mem, o, 0) <==> mem[o..] == F.ZeroBytes(|mem| - o)
  {
    LeZero(8);
    assert F.ZeroBytes(8) + F.ZeroBytes(|mem| - o - 8) == F.ZeroBytes(|mem| - o);
  }

  lemma {:induction false} StoreZero(mem: seq<Byte>, o: nat, d: seq<Byte>)
    requires o + |d| + 8 <= |mem| && Open(mem, o, 0)
    ensures StoreAt(mem, o, d) == After(mem, o, d) && Open(After(mem, o, d), o + |d|, 0)
  {
    OpenZero(mem, o);
    assert mem[o + |d|..] == mem[o..][|d|..] == F.ZeroBytes(|mem| - o - |d|);
    OpenZero(After(mem, o, d), o + |d|);
  }

  /** One bitfield more in the open unit. */
  lemma {:induction false} FieldMerged(mem: seq<Byte>, o: nat, acc: nat, used: set<nat>, unit: nat, off: nat,
                                       len: nat, val: nat)
    requires Open(mem, o, acc) && Within(acc, used) && used !! Alloc.Range(off, off + len)
    requires unit <= 8 && len > 0 && off + len <= 8 * unit && forall k :: k in used ==> k < 8 * unit
    ensures var acc' := Or(acc, val % Pow2(len) * Pow2(off));
      var mem' := CopyinConst(mem, o, unit, val, off, len);
      && Within(acc', used + Alloc.Range(off, off + len)) && mem'[..o] == mem[..o] && Open(mem', o, acc')
  {
    hide InsertBits, Or, IsSet, Pow2, Within;
    var used' := used + Alloc.Range(off, off + len);
    var acc' := Or(acc, val % Pow2(len) * Pow2(off));
    InsertIsOr(acc, used, off, len, val);
    WithinBound(acc, used, unit);
    WithinBound(acc', used', unit);
    LeWide(acc, unit, 8);
    LeWide(acc', unit, 8);
    F.LeRoundTrip(acc, unit);
    assert mem[o..o + unit] == mem[o..][..unit] == F.Le(acc, unit);
    assert mem[o + unit..] == mem[o..][unit..] == F.ZeroBytes(8 - unit) + F.ZeroBytes(|mem| - o - 8);
  }

  // ----- What the copyins leave -----

  /** What the copyins sent for the visits vs of call c leave of memory mem. */
  function Left(env: E.Env, c: E.Call, vs: seq<Visit>, phys: nat, mem: seq<Byte>): seq<Byte> {
    CopyinAll(mem, phys, E.VisitCopyins(env, c, vs))
  }

  lemma {:induction false} LeftConcat(env: E.Env, c: E.Call, a: seq<Visit>, b: seq<Visit>, phys: nat, mem: seq<Byte>)
    ensures Left(env, c, a + b, phys, mem) == Left(E.NoteVisits(env, c, a), c, b, phys, Left(env, c, a, phys, mem))
  {
    E.VisitsConcat(env, c, a, b);
    CopyinConcat(mem, phys, E.VisitCopyins(env, c, a), E.VisitCopyins(E.NoteVisits(env, c, a), c, b));
  }

  /** A single visit copies in at most one thing. */
  lemma {:induction false} LeftOne(env: E.Env, c: E.Call, v: Visit, phys: nat, mem: seq<Byte>)
    ensures Left(env, c, [v], phys, mem) ==
      if v.base.Some? && E.Stored(v.arg) then
        Copyin(mem, phys, D.CopyinRec(E.AddrOf(v), E.ToExec(E.NoteVisit(env, c, v), v.arg)))
      else mem
  {
    hide E.NoteVisit, E.ToExec, Copyin;
    E.CopyinSingle(env, c, v);
    var rs := E.VisitCopyin(E.NoteVisit(env, c, v), v);
    if |rs| > 0 {
      assert rs[1..] == [];
      assert CopyinAll(Copyin(mem, phys, rs[0]), phys, []) == Copyin(mem, phys, rs[0]);
    }
  }

  lemma {:induction false} AfterNothing(mem: seq<Byte>, o: nat, n: nat)
    requires Open(mem, o, 0) && o + n <= |mem|
    ensures mem == After(mem, o, F.ZeroBytes(n))
  {
    OpenZero(mem, o);
    assert mem == mem[..o] + mem[o..];
    assert F.ZeroBytes(n) + F.ZeroBytes(|mem| - o - n) == F.ZeroBytes(|mem| - o);
  }

  lemma {:induction false} LaidConst(a: Arg, env: E.Env, c: E.Call, phys: nat, o: nat, mem: seq<Byte>)
    requires a.ConstArg? && Supported(a) && PlainArg(a) && Open(mem, o, 0) && o + Size(a) + 8 <= |mem|
             && phys + |mem| < W64
    ensures Left(env, c, [Visit(a, Some(phys), o)], phys, mem) == After(mem, o, ConstBytes(a))
  {
    hide Left, Open, After, StoreAt;
    LeftOne(env, c, Visit(a, Some(phys), o), phys, mem);
    if a.kind == Padding {
      AfterNothing(mem, o, a.size);
    } else if a.size == 0 {
      AfterNothing(mem, o, 0);
      assert ConstBytes(a) == F.ZeroBytes(0);
    } else {
      StoreZero(mem, o, F.Le(a.val, a.size));
    }
  }

  lemma {:induction false} LaidData(a: Arg, env: E.Env, c: E.Call, phys: nat, o: nat, mem: seq<Byte>)
    requires a.DataArg? && Supported(a) && Open(mem, o, 0) && o + Size(a) + 8 <= |mem| && phys + |mem| < W64
    ensures Left(env, c, [Visit(a, Some(phys), o)], phys, mem)
            == After(mem, o, if a.dir == DirOut then F.ZeroBytes(a.outSize) else a.data)
  {
    hide Left, Open, After, StoreAt;
    LeftOne(env, c, Visit(a, Some(phys), o), phys, mem);
    if a.dir == DirOut {
      AfterNothing(mem, o, a.outSize);
    } else if |a.data| == 0 {
      AfterNothing(mem, o, 0);
      assert a.data == F.ZeroBytes(0);
    } else {
      StoreZero(mem, o, a.data);
    }
  }

  lemma {:induction false} AfterPadded(mem: seq<Byte>, o: nat, d: seq<Byte>, n: nat)
    requires o + |d| + n <= |mem|
    ensures After(mem, o, d + F.ZeroBytes(n)) == After(mem, o, d)
  {
    assert F.ZeroBytes(n) + F.ZeroBytes(|mem| - o - |d| - n) == F.ZeroBytes(|mem| - o - |d|);
  }

  /** Copying an argument into zeroed memory leaves its squashed bytes there and zeros after them. */
  lemma {:induction false} Laid(a: Arg, env: E.Env, c: E.Call, phys: nat, o: nat, mem: seq<Byte>)
    requires Supported(a) && PlainArg(a) && Open(mem, o, 0) && o + Size(a) + 8 <= |mem| && phys + |mem| < W64
    ensures |Content(a)| == Size(a) && Left(env, c, Visits(a, Some(phys), o), phys, mem)
            == After(mem, o, Flat(Content(a)))
    decreases a, if a.GroupArg? then |a.inner| + 1 else 0, 0
  {
    hide Left, Open, After, Flat, ConstBytes, Cells, E.NoteVisit, E.NoteVisits;
    PlainValues(a);
    var v := Visit(a, Some(phys), o);
    match a
    case ConstArg(_, _, _, _, _, _, _, _, _, _) =>
      assert Visits(a, Some(phys), o) == [v];
      LaidConst(a, env, c, phys, o, mem);
      FlatCells(ConstBytes(a));
    case DataArg(_, dir, data, outSize, _) =>
      assert Visits(a, Some(phys), o) == [v];
      LaidData(a, env, c, phys, o, mem);
      FlatCells(if dir == DirOut then F.ZeroBytes(outSize) else data);
    case UnionArg(_, _, size, option) =>
      LeftConcat(env, c, [v], Visits(option, Some(phys), o), phys, mem);
      LeftOne(env, c, v, phys, mem);
      Laid(option, E.NoteVisits(env, c, [v]), c, phys, o, mem);
      LaidPadded(mem, o, Content(option), size - Size(option));
    case GroupArg(_, _, size, inner, _) =>
      LeftConcat(env, c, [v], InnerVisits(a, 0, Some(phys), o, o), phys, mem);
      LeftOne(env, c, v, phys, mem);
      assert inner[0..] == inner;
      NoBits();
      FieldsValues(inner, {}, 0, 0);
      LaidFields(a, 0, E.NoteVisits(env, c, [v]), c, phys, o, o, 0, {}, 0, mem);
      LaidPadded(mem, o, FieldsContent(inner, 0), size - FieldsSize(inner));
  }

  lemma {:induction false} NoBits()
    ensures Within(0, {})
  {
    forall k: nat
      ensures !IsSet(0, k)
    {
      ZeroBits(k);
    }
  }

  lemma {:induction false} WithinNothing(acc: nat)
    requires Within(acc, {})
    ensures acc == 0
  {
    forall k: nat
      ensures IsSet(acc, k) == IsSet(0, k)
    {
      ZeroBits(k);
    }
    SameBits(acc, 0);
  }

  lemma {:induction false} LaidPadded(mem: seq<Byte>, o: nat, cs: seq<Cell>, n: nat)
    requires o + |cs| + n <= |mem|
    ensures After(mem, o, Flat(cs + Cells(F.ZeroBytes(n)))) == After(mem, o, Flat(cs))
  {
    hide After, Cells;
    FlatConcat(cs, Cells(F.ZeroBytes(n)));
    FlatCells(F.ZeroBytes(n));
    AfterPadded(mem, o, Flat(cs), n);
  }

  /** The fields from i on, with the open run's bits acc already in memory. */
  lemma {:induction false} LaidFields(g: Arg, i: nat, env: E.Env, c: E.Call, phys: nat, start: nat, o: nat, acc: nat,
                                      used: set<nat>,
                                      unit: nat, mem: seq<Byte>)
    requires g.GroupArg? && g.overlay == 0 && i <= |g.inner| && (i == 0 ==> start == o) && phys + |mem| < W64
    requires FieldsSupported(g.inner[i..]) && FieldsPlain(g.inner[i..], used, unit)
    requires Within(acc, used) && (forall k :: k in used ==> k < 8 * unit) && Open(mem, o, acc)
             && o + FieldsSize(g.inner[i..]) + 8 <= |mem|
    ensures |FieldsContent(g.inner[i..], acc)| == FieldsSize(g.inner[i..])
    ensures Left(env, c, InnerVisits(g, i, Some(phys), start, o), phys, mem)
            == After(mem, o, Flat(FieldsContent(g.inner[i..], acc)))
    decreases g, |g.inner| - i, 1
  {
    hide Left, Open, After, Flat, Cells, E.NoteVisit, E.NoteVisits, Within;
    FieldsValues(g.inner[i..], used, unit, acc);
    if i == |g.inner| {
      WithinNothing(acc);
      AfterNothing(mem, o, 0);
      assert FieldsContent(g.inner[i..], acc) == [];
      assert Flat([]) == F.ZeroBytes(0);
      NoVisits(env, c, phys, mem);
    } else {
      var f := g.inner[i];
      assert g.inner[i..][1..] == g.inner[i + 1..];
      LeftConcat(env, c, Visits(f, Some(phys), o), InnerVisits(g, i + 1, Some(phys), start, o + Size(f)), phys, mem);
      if IsBitfield(f) {
        LaidBitfield(g, i, env, c, phys, start, o, acc, used, unit, mem);
      } else {
        LaidField(g, i, env, c, phys, start, o, acc, mem);
      }
    }
  }

  lemma {:induction false} NoVisits(env: E.Env, c: E.Call, phys: nat, mem: seq<Byte>)
    ensures Left(env, c, [], phys, mem) == mem
  {
  }

  lemma {:induction false} AfterTwice(mem: seq<Byte>, o: nat, d: seq<Byte>, e: seq<Byte>)
    requires o + |d| + |e| <= |mem|
    ensures After(After(mem, o, d), o + |d|, e) == After(mem, o, d + e)
  {
    assert After(mem, o, d)[..o + |d|] == mem[..o] + d;
  }

  lemma {:induction false} AfterOpen(mem: seq<Byte>, o: nat, d: seq<Byte>)
    requires o + |d| + 8 <= |mem|
    ensures Open(After(mem, o, d), o + |d|, 0)
  {
    OpenZero(After(mem, o, d), o + |d|);
  }

  lemma {:induction false} LaidField(g: Arg, i: nat, env: E.Env, c: E.Call, phys: nat, start: nat, o: nat, acc: nat,
                                     mem: seq<Byte>)
    requires g.GroupArg? && g.overlay == 0 && i < |g.inner| && !IsBitfield(g.inner[i]) && phys + |mem| < W64
    requires FieldsSupported(g.inner[i..]) && FieldsPlain(g.inner[i..], {}, 0)
    requires Within(acc, {}) && Open(mem, o, acc) && o + FieldsSize(g.inner[i..]) + 8 <= |mem|
    ensures |FieldsContent(g.inner[i..], acc)| == FieldsSize(g.inner[i..])
    ensures var f := g.inner[i];
      var vs := Visits(f, Some(phys), o);
      Left(E.NoteVisits(env, c, vs), c, InnerVisits(g, i + 1, Some(phys), start, o + Size(f)), phys,
        Left(env, c, vs, phys, mem))
        == After(mem, o, Flat(FieldsContent(g.inner[i..], acc)))
    decreases g, |g.inner| - i, 0
  {
    hide Left, Open, After, Flat, E.NoteVisits, Within, InnerVisits, Visits;
    var f, rest := g.inner[i], g.inner[i + 1..];
    assert g.inner[i..][1..] == rest;
    WithinNothing(acc);
    FieldsValues(g.inner[i..], {}, 0, acc);
    FieldsValues(rest, {}, 0, 0);
    Laid(f, env, c, phys, o, mem);
    var mem1 := After(mem, o, Flat(Content(f)));
    AfterOpen(mem, o, Flat(Content(f)));
    NoBits();
    LaidFields(g, i + 1, E.NoteVisits(env, c, Visits(f, Some(phys), o)), c, phys, start, o + Size(f), 0, {}, 0, mem1);
    AfterTwice(mem, o, Flat(Content(f)), Flat(FieldsContent(rest, 0)));
    FlatConcat(Content(f), FieldsContent(rest, 0));
  }

  lemma {:induction false} Closed(mem: seq<Byte>, mem1: seq<Byte>, o: nat, acc: nat, n: nat)
    requires |mem1| == |mem| && o + n + 8 <= |mem| && n <= 8 && mem1[..o] == mem[..o] && Open(mem1, o, acc)
             && acc < F.Pow256(n)
    ensures mem1 == After(mem, o, F.Le(acc, n)) && Open(mem1, o + n, 0)
  {
    LeWide(acc, n, 8);
    assert mem1 == mem1[..o] + mem1[o..];
    assert F.ZeroBytes(8 - n) + F.ZeroBytes(|mem| - o - 8) == F.ZeroBytes(|mem| - o - n);
    AfterOpen(mem, o, F.Le(acc, n));
  }

  lemma {:induction false} LaidBitfield(g: Arg, i: nat, env: E.Env, c: E.Call, phys: nat, start: nat, o: nat,
                                        acc: nat, used: set<nat>,
                                        unit: nat, mem: seq<Byte>)
    requires g.GroupArg? && g.overlay == 0 && i < |g.inner| && IsBitfield(g.inner[i]) && phys + |mem| < W64
    requires FieldsSupported(g.inner[i..]) && FieldsPlain(g.inner[i..], used, unit)
    requires Within(acc, used) && (forall k :: k in used ==> k < 8 * unit) && Open(mem, o, acc)
             && o + FieldsSize(g.inner[i..]) + 8 <= |mem|
    ensures |FieldsContent(g.inner[i..], acc)| == FieldsSize(g.inner[i..])
    ensures var f := g.inner[i];
      var vs := Visits(f, Some(phys), o);
      Left(E.NoteVisits(env, c, vs), c, InnerVisits(g, i + 1, Some(phys), start, o + Size(f)), phys,
        Left(env, c, vs, phys, mem))
        == After(mem, o, Flat(FieldsContent(g.inner[i..], acc)))
    decreases g, |g.inner| - i, 0
  {
    hide Left, Open, After, Flat, E.NoteVisits, Within, InnerVisits, Or, Alloc.Range, CopyinConst, F.Le, F.Pow256;
    hide Cells;
    var f, rest := g.inner[i], g.inner[i + 1..];
    assert g.inner[i..][1..] == rest;
    FieldsValues(g.inner[i..], used, unit, acc);
    var env1 := E.NoteVisits(env, c, Visits(f, Some(phys), o));
    var used' := used + Alloc.Range(f.bfOff, f.bfOff + f.bfLen);
    var acc' := Or(acc, FieldBits(f));
    var mem1 := CopyinConst(mem, o, f.bfUnit, f.val, f.bfOff, f.bfLen);
    BitfieldSent(f, env, c, phys, o, mem);
    FieldMerged(mem, o, acc, used, f.bfUnit, f.bfOff, f.bfLen, f.val);
    if f.size == 0 {
      FieldsValues(rest, used', f.bfUnit, acc');
      LaidFields(g, i + 1, env1, c, phys, start, o, acc', used', f.bfUnit, mem1);
      SameAfter(mem, mem1, o, Flat(FieldsContent(rest, acc')));
    } else {
      FieldsValues(rest, {}, 0, 0);
      WithinBound(acc', used', f.size);
      Closed(mem, mem1, o, acc', f.size);
      NoBits();
      LaidFields(g, i + 1, env1, c, phys, start, o + f.size, 0, {}, 0, mem1);
      AfterTwice(mem, o, F.Le(acc', f.size), Flat(FieldsContent(rest, 0)));
      FlatConcat(Cells(F.Le(acc', f.size)), FieldsContent(rest, 0));
      FlatCells(F.Le(acc', f.size));
    }
  }

  lemma {:induction false} SameAfter(mem: seq<Byte>, mem1: seq<Byte>, o: nat, d: seq<Byte>)
    requires |mem1| == |mem| && o + |d| <= |mem| && mem1[..o] == mem[..o]
    ensures After(mem1, o, d) == After(mem, o, d)
  {
  }

  /** The copyin of a bitfield goes to its unit. */
  lemma {:induction false} BitfieldSent(f: Arg, env: E.Env, c: E.Call, phys: nat, o: nat, mem: seq<Byte>)
    requires FieldPlain(f) && ConstOk(f) && o <= |mem| && phys + |mem| < W64
    ensures Left(env, c, Visits(f, Some(phys), o), phys, mem) == CopyinConst(mem, o, f.bfUnit, f.val, f.bfOff, f.bfLen)
    ensures FieldBits(f) == f.val % Pow2(f.bfLen) * Pow2(f.bfOff)
  {
    hide Left, CopyinConst;
    assert Visits(f, Some(phys), o) == [Visit(f, Some(phys), o)];
    LeftOne(env, c, Visit(f, Some(phys), o), phys, mem);
  }

  /** The data of the blobs. */
  function AllData(es: seq<Elem>): seq<Byte> {
    if |es| == 0 then [] else AllData(es[..|es| - 1]) + if es[|es| - 1].Blob? then es[|es| - 1].data else []
  }

  /** Squashing gives the bytes that copying the argument field by field into zeroed memory leaves there:
      a single blob of them, if there are any at all. */
  lemma {:induction false} SquashedIsMemory(a: Arg, env: E.Env, c: E.Call, phys: nat, es: seq<Elem>)
    requires Supported(a) && PlainArg(a) && phys + Size(a) + 8 < W64 && Tidy(es) && Stream(es) == Content(a)
    ensures |es| <= 1 && (forall i :: 0 <= i < |es| ==> es[i].Blob?)
    ensures CopyinAll(F.ZeroBytes(Size(a) + 8), phys, E.VisitCopyins(env, c, Visits(a, Some(phys), 0)))
            == AllData(es) + F.ZeroBytes(8)
  {
    hide Visits, E.VisitCopyins, CopyinAll;
    var mem := F.ZeroBytes(Size(a) + 8);
    OpenZero(mem, 0);
    Laid(a, env, c, phys, 0, mem);
    PlainValues(a);
    OneBlob(es);
    assert CopyinAll(mem, phys, E.VisitCopyins(env, c, Visits(a, Some(phys), 0))) == After(mem, 0, Flat(Content(a)));
    if |es| == 1 {
      assert es[..0] == [] && Stream(es) == Cells(es[0].data);
      assert AllData(es) == es[0].data;
      FlatCells(es[0].data);
    }
    assert Flat(Content(a)) == AllData(es);
  }

  /** With no results among them, tidy elements are at most one blob. */
  lemma {:induction false} OneBlob(es: seq<Elem>)
    requires Tidy(es) && forall i :: 0 <= i < |Stream(es)| ==> Stream(es)[i].Value?
    ensures |es| <= 1 && forall i :: 0 <= i < |es| ==> es[i].Blob?
  {
    assert |es| >= 2 ==> !(es[0].Blob? && es[1].Blob?);
    forall i | 0 <= i < |es|
      ensures es[i].Blob?
    {
      InStream(es, i);
    }
  }

  lemma {:induction false} InStream(es: seq<Elem>, i: nat)
    requires i < |es| && forall k :: 0 <= k < |Stream(es)| ==> Stream(es)[k].Value?
    ensures es[i].Blob?
  {
    var n := |es| - 1;
    var front, last := Stream(es[..n]), ElemCells(es[n]);
    assert Stream(es) == front + last;
    if i < n {
      assert forall k :: 0 <= k < |front| ==> Stream(es)[k] == front[k];
      InStream(es[..n], i);
    } else {
      assert |last| > 0 ==> Stream(es)[|front|] == last[0];
    }
  }
}
