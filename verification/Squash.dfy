/** Turning what a pointer points to into blobs of bytes, and why the executor's memory is the same. */
module Squash {
  import opened Bits
  import opened Common
  import opened Prog
  import F = ExecFormat

  // Formats 2, 3 and 4 are decimal, hexadecimal and octal strings.
  const NATIVE := 0
  const BIG_ENDIAN := 1

  datatype Elem = Blob(data: seq<Byte>) | Res(arg: Arg, index: nat)

  /** One byte, or one result in the place of its bytes. */
  datatype Cell = Value(b: Byte) | Ref(arg: Arg)

  function Cells(d: seq<Byte>): (r: seq<Cell>)
    ensures |r| == |d|
  {
    seq(|d|, i requires 0 <= i < |d| => Value(d[i]))
  }

  // ----- Values of constants -----

  function Digit(d: nat): Byte
    requires d < 16
  {
    if d < 10 then 48 + d else 87 + d
  }

  /** A number in the given base, padded with zeros to n digits. */
  function Digits(v: nat, base: nat, n: nat): (r: seq<Byte>)
    requires 2 <= base <= 16
    ensures |r| == n
  {
    if n == 0 then [] else Digits(v / base, base, n - 1) + [Digit(v % base)]
  }

  const CSUM_MARK := 0xabcdef1234567890

  /** The value squashed for a constant and the format it then has. */
  function SquashedValue(a: Arg): (nat, nat)
    requires a.ConstArg? && (a.format == BIG_ENDIAN && a.kind != Csum ==> UnitSize(a) in {2, 4, 8})
  {
    if a.kind == Csum then (CSUM_MARK, NATIVE)
    else if a.format == BIG_ENDIAN then (F.SwapBytes(Prog.Value(a).0, UnitSize(a)), NATIVE)
    else (Prog.Value(a).0, a.format)
  }

  // ----- What can be squashed -----

  /** A constant of a size that goes with its format. */
  predicate ConstOk(a: Arg)
    requires a.ConstArg?
  {
    && (a.format == BIG_ENDIAN && a.kind != Csum ==> UnitSize(a) in {2, 4, 8})
    && (a.kind != Padding && a.kind != Csum ==>
         match a.format
         case 0 => true
         case 1 => true
         case 2 => a.size == 20
         case 3 => a.size == 18
         case 4 => a.size == 23
         case _ => false)
  }

  predicate ResultOk(a: Arg)
    requires a.ResultArg?
  {
    match a.format
    case 0 => a.size in {1, 2, 4, 8}
    case 1 => a.size in {1, 2, 4, 8}
    case 2 => a.size == 20
    case 3 => a.size == 18
    case 4 => a.size == 23
    case _ => false
  }

  predicate IsBitfield(a: Arg) {
    a.ConstArg? && a.bfLen != 0
  }

  function FieldsSize(fields: seq<Arg>): nat {
    if |fields| == 0 then 0 else Size(fields[0]) + FieldsSize(fields[1..])
  }

  /** No pointers or overlays below, and sizes that add up. */
  predicate Supported(a: Arg)
    decreases a, 0
  {
    match a
    case ConstArg(_, _, _, _, _, bfLen, _, _, _, _) => bfLen == 0 && ConstOk(a)
    case ResultArg(_, _, _, _, _, _, _, _, _, _) => ResultOk(a)
    case PointerArg(_, _, _, _, _) => false
    case DataArg(_, dir, data, outSize, _) => if dir == DirOut then data == [] else outSize == 0
    case UnionArg(_, _, size, option) => Supported(option) && Size(option) <= size
    case GroupArg(_, _, size, inner, overlay) => overlay == 0 && FieldsSize(inner) <= size && FieldsSupported(inner)
  }

  predicate FieldsSupported(fields: seq<Arg>)
    decreases fields, 1
  {
    |fields| == 0 ||
    ((if IsBitfield(fields[0]) then
        ConstOk(fields[0]) && SquashedValue(fields[0]).1 == NATIVE && fields[0].bfOff + fields[0].bfLen <= 64
      else Supported(fields[0]))
     && FieldsSupported(fields[1..]))
  }

  // ----- What squashing means -----

  function ConstBytes(a: Arg): (r: seq<Byte>)
    requires a.ConstArg? && ConstOk(a)
    ensures |r| == a.size
  {
    if a.kind == Padding then F.ZeroBytes(a.size)
    else
      var (v, format) := SquashedValue(a);
      match format
      case 0 => F.Le(v, a.size)
      case 2 => Digits(v, 10, 20)
      case 3 => [48, 120] + Digits(v, 16, 16)
      case 4 => Digits(v, 8, 23)
  }

  /** The bits of a bitfield in its unit. */
  function FieldBits(a: Arg): nat
    requires IsBitfield(a) && ConstOk(a)
  {
    SquashedValue(a).0 % Pow2(a.bfLen) * Pow2(a.bfOff)
  }

  /** The bytes and results that lie one after another in an argument. */
  function Content(a: Arg): seq<Cell>
    requires Supported(a)
    decreases a, 0
  {
    match a
    case ConstArg(_, _, _, _, _, _, _, _, _, _) => Cells(ConstBytes(a))
    case ResultArg(_, _, _, _, _, _, _, _, _, _) => [Ref(a)]
    case DataArg(_, dir, data, outSize, _) => if dir == DirOut then Cells(F.ZeroBytes(outSize)) else Cells(data)
    case UnionArg(_, _, size, option) => Content(option) + Cells(F.ZeroBytes(size - Size(option)))
    case GroupArg(_, _, size, inner, _) => FieldsContent(inner, 0) + Cells(F.ZeroBytes(size - FieldsSize(inner)))
  }

  /** Bitfields gather their bits until one that has a size lays them out. */
  function FieldsContent(fields: seq<Arg>, acc: nat): seq<Cell>
    requires FieldsSupported(fields)
    decreases fields, 1
  {
    if |fields| == 0 then []
    else if IsBitfield(fields[0]) then
      var acc' := Or(acc, FieldBits(fields[0]));
      if fields[0].size != 0 then Cells(F.Le(acc', fields[0].size)) + FieldsContent(fields[1..], 0)
      else FieldsContent(fields[1..], acc')
    else Content(fields[0]) + FieldsContent(fields[1..], acc)
  }

  /** How many bytes cells stand for. */
  function Weight(cs: seq<Cell>): nat {
    if |cs| == 0 then 0 else Weight(cs[..|cs| - 1]) + CellSize(cs[|cs| - 1])
  }

  function CellSize(c: Cell): nat {
    match c
    case Value(_) => 1
    case Ref(a) => Size(a)
  }

  lemma {:induction false} WeightConcat(a: seq<Cell>, b: seq<Cell>)
    ensures Weight(a + b) == Weight(a) + Weight(b)
  {
    if |b| == 0 {
      assert a + b == a;
    } else {
      assert (a + b)[..|a + b| - 1] == a + b[..|b| - 1];
      WeightConcat(a, b[..|b| - 1]);
    }
  }

  lemma {:induction false} WeightBytes(d: seq<Byte>)
    ensures Weight(Cells(d)) == |d|
  {
    if |d| > 0 {
      assert Cells(d)[..|d| - 1] == Cells(d[..|d| - 1]);
      WeightBytes(d[..|d| - 1]);
    }
  }

  /** Squashing keeps the size. */
  lemma {:induction false} ContentSize(a: Arg)
    requires Supported(a)
    ensures Weight(Content(a)) == Size(a)
    decreases a, 0
  {
    hide ConstOk, Weight, Cells;
    match a
    case ConstArg(_, _, _, _, _, _, _, _, _, _) => WeightBytes(ConstBytes(a));
    case ResultArg(_, _, _, _, _, _, _, _, _, _) => WeightOne(a);
    case DataArg(_, dir, data, outSize, _) => WeightBytes(if dir == DirOut then F.ZeroBytes(outSize) else data);
    case UnionArg(_, _, size, option) =>
      ContentSize(option);
      WeightBytes(F.ZeroBytes(size - Size(option)));
      WeightConcat(Content(option), Cells(F.ZeroBytes(size - Size(option))));
    case GroupArg(_, _, size, inner, _) =>
      FieldsContentSize(inner, 0);
      WeightBytes(F.ZeroBytes(size - FieldsSize(inner)));
      WeightConcat(FieldsContent(inner, 0), Cells(F.ZeroBytes(size - FieldsSize(inner))));
  }

  lemma {:induction false} WeightOne(a: Arg)
    ensures Weight([Ref(a)]) == Size(a)
  {
    assert [Ref(a)][..0] == [];
  }

  lemma {:induction false} FieldsContentSize(fields: seq<Arg>, acc: nat)
    requires FieldsSupported(fields)
    ensures Weight(FieldsContent(fields, acc)) == FieldsSize(fields)
    decreases fields, 1
  {
    hide ConstOk, Cells, FieldBits, Or, F.Le;
    if |fields| > 0 {
      var f, rest := fields[0], fields[1..];
      if IsBitfield(f) {
        var acc' := Or(acc, FieldBits(f));
        FieldsContentSize(rest, if f.size != 0 then 0 else acc');
        if f.size != 0 {
          WeightBytes(F.Le(acc', f.size));
          WeightConcat(Cells(F.Le(acc', f.size)), FieldsContent(rest, 0));
        }
      } else {
        ContentSize(f);
        FieldsContentSize(rest, acc);
        WeightConcat(Content(f), FieldsContent(rest, acc));
      }
    }
  }

  // ----- The squashing -----

  function Stream(es: seq<Elem>): seq<Cell> {
    if |es| == 0 then [] else Stream(es[..|es| - 1]) + ElemCells(es[|es| - 1])
  }

  function ElemCells(e: Elem): seq<Cell> {
    match e
    case Blob(d) => Cells(d)
    case Res(a, _) => [Ref(a)]
  }

  /** No two blobs stand next to each other, and every result is listed under the type for its size and format. */
  predicate Tidy(es: seq<Elem>) {
    && (forall i :: 0 <= i < |es| - 1 ==> !(es[i].Blob? && es[i + 1].Blob?))
    && (forall i :: 0 <= i < |es| && es[i].Res? ==>
      es[i].arg.ResultArg? && ResultOk(es[i].arg) && es[i].index == ResultIndex(es[i].arg))
  }

  function ResultIndex(a: Arg): nat
    requires a.ResultArg? && ResultOk(a)
  {
    match a.format
    case 2 => 5
    case 3 => 6
    case 4 => 7
    case _ => match a.size case 1 => 1 case 2 => 2 case 4 => 3 case _ => 4
  }

  lemma {:induction false} StreamSnoc(es: seq<Elem>, e: Elem)
    ensures Stream(es + [e]) == Stream(es) + ElemCells(e)
  {
    assert (es + [e])[..|es|] == es;
  }

  lemma {:induction false} AddBlob(es: seq<Elem>, d: seq<Byte>)
    requires Tidy(es) && (|es| == 0 || es[|es| - 1].Res?)
    ensures Tidy(es + [Blob(d)]) && Stream(es + [Blob(d)]) == Stream(es) + Cells(d)
  {
    StreamSnoc(es, Blob(d));
  }

  lemma {:induction false} GrowBlob(es: seq<Elem>, d: seq<Byte>, more: seq<Byte>)
    requires Tidy(es + [Blob(d)])
    ensures Tidy(es + [Blob(d + more)]) && Stream(es + [Blob(d + more)]) == Stream(es + [Blob(d)]) + Cells(more)
  {
    hide Stream;
    GrowTidy(es, d, d + more);
    StreamSnoc(es, Blob(d));
    StreamSnoc(es, Blob(d + more));
    assert Cells(d + more) == Cells(d) + Cells(more);
  }

  lemma {:induction false} GrowTidy(es: seq<Elem>, d: seq<Byte>, d': seq<Byte>)
    requires Tidy(es + [Blob(d)])
    ensures Tidy(es + [Blob(d')])
  {
    var before, after := es + [Blob(d)], es + [Blob(d')];
    assert forall i :: 0 <= i < |es| ==> after[i] == before[i];
    assert forall i :: 0 <= i < |after| ==> after[i].Blob? == before[i].Blob?;
  }

  lemma {:induction false} AddResult(es: seq<Elem>, a: Arg)
    requires Tidy(es) && a.ResultArg? && ResultOk(a)
    ensures Tidy(es + [Res(a, ResultIndex(a))]) && Stream(es + [Res(a, ResultIndex(a))]) == Stream(es) + [Ref(a)]
  {
    StreamSnoc(es, Res(a, ResultIndex(a)));
  }

  class Squasher {
    var elems: seq<Elem>

    constructor ()
      ensures elems == []
    {
      elems := [];
    }

    /** Makes sure that the last element is a blob. */
    method EnsureDataElem()
      requires Tidy(elems)
      modifies this
      ensures Tidy(elems) && Stream(elems) == old(Stream(elems)) && |elems| > 0 && elems[|elems| - 1].Blob?
    {
      hide Tidy, Stream;
      if |elems| == 0 || elems[|elems| - 1].Res? {
        AddBlob(elems, []);
        assert Stream(elems) + Cells([]) == Stream(elems);
        elems := elems + [Blob([])];
      }
    }

    method AppendData(d: seq<Byte>)
      requires Tidy(elems)
      modifies this
      ensures Tidy(elems) && Stream(elems) == old(Stream(elems)) + Cells(d)
    {
      hide Tidy, Stream;
      EnsureDataElem();
      var last := |elems| - 1;
      var data := elems[last].data;
      assert elems == elems[..last] + [Blob(data)] && elems[last := Blob(data + d)] == elems[..last] + [Blob(data + d)];
      GrowBlob(elems[..last], data, d);
      elems := elems[last := Blob(data + d)];
    }

    method SquashConst(a: Arg)
      requires Tidy(elems) && a.ConstArg? && ConstOk(a)
      modifies this
      ensures Tidy(elems) && Stream(elems) == old(Stream(elems)) + Cells(ConstBytes(a))
    {
      if a.kind == Padding {
        AppendData(F.ZeroBytes(a.size));
        return;
      }
      var (v, format) := SquashedValue(a);
      var data: seq<Byte>;
      match format {
        case 0 => data := LowBytes(v, a.size);
        case 2 => data := Digits(v, 10, 20);
        case 3 => data := [48, 120] + Digits(v, 16, 16);
        case 4 => data := Digits(v, 8, 23);
      }
      AppendData(data);
    }

    method LowBytes(v: nat, n: nat) returns (data: seq<Byte>)
      ensures data == F.Le(v, n)
    {
      data := [];
      var w, i := v, 0;
      while i < n
        invariant 0 <= i <= n && 0 <= w && data + F.Le(w, n - i) == F.Le(v, n)
      {
        assert F.Le(w, n - i) == [w % 256] + F.Le(w / 256, n - i - 1);
        data := data + [w % 256];
        w, i := w / 256, i + 1;
      }
    }

    method SquashArg(a: Arg)
      requires Tidy(elems) && Supported(a)
      modifies this
      ensures Tidy(elems) && Stream(elems) == old(Stream(elems)) + Content(a)
      decreases a, 0
    {
      hide Tidy, Stream, ConstOk, ResultOk;
      match a
      case ConstArg(_, _, _, _, _, _, _, _, _, _) => SquashConst(a);
      case ResultArg(_, _, _, _, _, _, _, _, _, _) =>
        AddResult(elems, a);
        elems := elems + [Res(a, ResultIndex(a))];
      case UnionArg(_, _, size, option) =>
        var pad := size - Size(option);
        SquashArg(option);
        Pad(pad);
      case DataArg(_, dir, data, outSize, _) =>
        if dir == DirOut {
          Pad(Size(a));
        } else {
          AppendData(data);
        }
      case GroupArg(_, _, size, inner, _) => SquashGroup(inner, size);
    }

    method Pad(n: nat)
      requires Tidy(elems)
      modifies this
      ensures Tidy(elems) && Stream(elems) == old(Stream(elems)) + Cells(F.ZeroBytes(n))
    {
      if n != 0 {
        AppendData(F.ZeroBytes(n));
      } else {
        assert Stream(elems) + Cells(F.ZeroBytes(0)) == Stream(elems);
      }
    }

    method SquashGroup(inner: seq<Arg>, size: nat)
      requires Tidy(elems) && FieldsSupported(inner) && FieldsSize(inner) <= size
      modifies this
      ensures Tidy(elems) && Stream(elems)
              == old(Stream(elems)) + (FieldsContent(inner, 0) + Cells(F.ZeroBytes(size - FieldsSize(inner))))
      decreases inner, 1
    {
      hide Tidy, Stream, ConstOk, FieldBits, Or, Content, Supported;
      ghost var before := Stream(elems);
      var bitfield, fieldsSize, i := 0, 0, 0;
      assert inner[0..] == inner;
      while i < |inner|
        invariant 0 <= i <= |inner| && Tidy(elems) && FieldsSupported(inner[i..]) && 0 <= bitfield
        invariant fieldsSize + FieldsSize(inner[i..]) == FieldsSize(inner)
        invariant Stream(elems) + FieldsContent(inner[i..], bitfield) == before + FieldsContent(inner, 0)
      {
        assert inner[i..][1..] == inner[i + 1..];
        fieldsSize := fieldsSize + Size(inner[i]);
        ghost var s, rest := Stream(elems), inner[i + 1..];
        if IsBitfield(inner[i]) {
          bitfield := Or(bitfield, FieldBits(inner[i]));
          if inner[i].size != 0 {
            var data := LowBytes(bitfield, inner[i].size);
            AppendData(data);
            assert s + (Cells(data) + FieldsContent(rest, 0)) == s + Cells(data) + FieldsContent(rest, 0);
            bitfield := 0;
          }
        } else {
          SquashArg(inner[i]);
          assert s + (Content(inner[i]) + FieldsContent(rest, bitfield))
                 == s + Content(inner[i]) + FieldsContent(rest, bitfield);
        }
        i := i + 1;
      }
      assert inner[i..] == [];
      Pad(size - fieldsSize);
      ghost var zeros := Cells(F.ZeroBytes(size - fieldsSize));
      assert before + FieldsContent(inner, 0) + zeros == before + (FieldsContent(inner, 0) + zeros);
    }
  }

  function ElemsSize(es: seq<Elem>): nat {
    if |es| == 0 then 0
    else ElemsSize(es[..|es| - 1]) + match es[|es| - 1] case Blob(d) => |d| case Res(a, _) => Size(a)
  }

  lemma {:induction false} StreamSize(es: seq<Elem>)
    ensures Weight(Stream(es)) == ElemsSize(es)
  {
    hide Cells;
    if |es| > 0 {
      var n, e := |es| - 1, es[|es| - 1];
      StreamSize(es[..n]);
      WeightConcat(Stream(es[..n]), ElemCells(e));
      match e
      case Blob(d) => WeightBytes(d);
      case Res(a, _) => WeightOne(a);
    }
  }

  /** What a pointer points to becomes blobs and results of the same size, no two blobs adjacent. */
  method SquashPtr(pointee: Arg) returns (elems: seq<Elem>)
    requires Supported(pointee)
    ensures Tidy(elems) && Stream(elems) == Content(pointee) && ElemsSize(elems) == Size(pointee)
  {
    hide Content;
    var s := new Squasher();
    s.SquashArg(pointee);
    elems := s.elems;
    assert Stream([]) + Content(pointee) == Content(pointee);
    StreamSize(elems);
    ContentSize(pointee);
  }
}
