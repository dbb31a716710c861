/** Choosing where to mutate data: the parts that vary, and the translation of an index into them to one
    into the data. */
module Heatmap {
  import opened Bits

  datatype Segment = Segment(offset: nat, length: nat)

  function End(s: Segment): nat { s.offset + s.length }

  /** Position i lies in a chunk whose bytes are not all the same. */
  predicate Varies(data: seq<Byte>, g: nat, i: nat)
    requires g > 0 && i < |data|
  {
    !Constant(Chunk(data, g, i / g * g))
  }

  function Chunk(data: seq<Byte>, g: nat, from: nat): seq<Byte>
    requires from < |data|
  {
    if |data| - from < g then data[from..] else data[from..from + g]
  }

  predicate Constant(chunk: seq<Byte>) {
    forall i, j :: 0 <= i < |chunk| && 0 <= j < |chunk| ==> chunk[i] == chunk[j]
  }

  method IsConstant(chunk: seq<Byte>) returns (same: bool)
    requires |chunk| > 0
    ensures same <==> Constant(chunk)
  {
    var i := 0;
    while i < |chunk|
      invariant 0 <= i <= |chunk| && forall k :: 0 <= k < i ==> chunk[k] == chunk[0]
    {
      if chunk[i] != chunk[0] {
        return false;
      }
      i := i + 1;
    }
    return true;
  }

  /** Non-empty segments in order, with a gap between any two. */
  predicate Sorted(segs: seq<Segment>) {
    && (forall k :: 0 <= k < |segs| ==> segs[k].length > 0)
    && (forall j, k :: 0 <= j < k < |segs| ==> End(segs[j]) < segs[k].offset)
  }

  predicate Covers(segs: seq<Segment>, i: nat) {
    exists k :: 0 <= k < |segs| && segs[k].offset <= i < End(segs[k])
  }

  function Total(segs: seq<Segment>): nat {
    if |segs| == 0 then 0 else segs[0].length + Total(segs[1..])
  }

  /** Up to pos the segments cover exactly what varies. */
  predicate Exact(data: seq<Byte>, g: nat, segs: seq<Segment>, pos: nat)
    requires g > 0 && pos <= |data|
  {
    && (forall k :: 0 <= k < |segs| ==> End(segs[k]) <= pos)
    && forall i :: 0 <= i < pos ==> (Covers(segs, i) <==> Varies(data, g, i))
  }

  /** The segments found so far, the open one included. */
  function Closed(segs: seq<Segment>, offset: nat, length: nat): seq<Segment> {
    if length == 0 then segs else segs + [Segment(offset, length)]
  }

  lemma {:induction false} CoversClosed(segs: seq<Segment>, offset: nat, length: nat, i: nat)
    ensures Covers(Closed(segs, offset, length), i) <==> Covers(segs, i) || offset <= i < offset + length
  {
    var all := Closed(segs, offset, length);
    if offset <= i < offset + length {
      assert all[|segs|].offset <= i < End(all[|segs|]);
    }
    if Covers(segs, i) {
      var k :| 0 <= k < |segs| && segs[k].offset <= i < End(segs[k]);
      assert all[k] == segs[k];
    }
  }

  lemma {:induction false} SameChunk(data: seq<Byte>, g: nat, from: nat, i: nat)
    requires g > 0 && from % g == 0 && from <= i < from + g && i < |data|
    ensures i / g * g == from
  {
    var q := from / g;
    assert from == q * g;
    DivModUnique(i, g, q, i - from);
  }

  lemma {:induction false} NotBeyond(segs: seq<Segment>, pos: nat, i: nat)
    requires i >= pos && forall k :: 0 <= k < |segs| ==> End(segs[k]) <= pos
    ensures !Covers(segs, i)
  {
  }

  lemma {:induction false} CoverStep(data: seq<Byte>, g: nat, segs: seq<Segment>, offset: nat, length: nat, pos: nat,
                                     i: nat)
    requires g > 0 && pos < |data| && pos % g == 0 && offset + length == pos
             && Exact(data, g, Closed(segs, offset, length), pos)
    requires i < pos + |Chunk(data, g, pos)|
    ensures var n := |Chunk(data, g, pos)|;
      Covers(Closed(segs, offset, if Constant(Chunk(data, g, pos)) then length else length + n), i) <==>
        Varies(data, g, i)
  {
    hide Constant, Covers;
    var n := |Chunk(data, g, pos)|;
    CoversClosed(segs, offset, length, i);
    CoversClosed(segs, offset, length + n, i);
    if i >= pos {
      SameChunk(data, g, pos, i);
      NotBeyond(Closed(segs, offset, length), pos, i);
    }
  }

  /** One chunk more: it extends the open segment if it varies, and is skipped if not. */
  lemma {:induction false} ChunkStep(data: seq<Byte>, g: nat, segs: seq<Segment>, offset: nat, length: nat, pos: nat)
    requires g > 0 && pos < |data| && pos % g == 0 && offset + length == pos
             && Exact(data, g, Closed(segs, offset, length), pos)
    ensures var n := |Chunk(data, g, pos)|;
      pos + n <= |data| && (pos + n == |data| || (pos + n) % g == 0) &&
      Exact(data, g, Closed(segs, offset, if Constant(Chunk(data, g, pos)) then length else length + n), pos + n)
  {
    hide Constant, Covers, Varies;
    var n := |Chunk(data, g, pos)|;
    if pos + g <= |data| {
      DivModUnique(pos + g, g, pos / g + 1, 0);
    }
    assert forall k :: 0 <= k < |segs| ==> Closed(segs, offset, length)[k] == segs[k];
    forall i | 0 <= i < pos + n
      ensures Covers(Closed(segs, offset, if Constant(Chunk(data, g, pos)) then length else length + n), i) <==>
              Varies(data, g, i)
    {
      CoverStep(data, g, segs, offset, length, pos, i);
    }
  }

  lemma {:induction false} TotalSnoc(segs: seq<Segment>, s: Segment)
    ensures Total(segs + [s]) == Total(segs) + s.length
  {
    if |segs| > 0 {
      assert (segs + [s])[1..] == segs[1..] + [s];
      TotalSnoc(segs[1..], s);
    }
  }

  /** All segments end before a position, with a gap. */
  predicate Before(segs: seq<Segment>, offset: nat) {
    forall k :: 0 <= k < |segs| ==> End(segs[k]) < offset
  }

  lemma {:induction false} Saved(segs: seq<Segment>, offset: nat, length: nat)
    requires Sorted(segs) && Before(segs, offset) && length > 0
    ensures var all := segs + [Segment(offset, length)];
      Sorted(all) && Before(all, offset + length + 1) && Total(all) == Total(segs) + length
  {
    TotalSnoc(segs, Segment(offset, length));
  }

  lemma {:induction false} BeforeLater(segs: seq<Segment>, offset: nat, offset': nat)
    requires Before(segs, offset) && offset <= offset'
    ensures Before(segs, offset')
  {
  }

  /** The parts of the data that vary, or all of it if none does, and how much that is. */
  method CalculateLengthAndSegments(data: seq<Byte>, g: nat) returns (total: nat, segs: seq<Segment>)
    requires g > 0
    ensures total == Total(segs) && (|data| > 0 ==> Sorted(segs))
    ensures forall k :: 0 <= k < |segs| ==> End(segs[k]) <= |data|
    ensures if exists i :: 0 <= i < |data| && Varies(data, g, i) then Exact(data, g, segs, |data|)
      else total == |data| && segs == [Segment(0, |data|)]
  {
    total, segs := FindSegments(data, g);
    Some(data, g, segs);
    if |segs| == 0 {
      total, segs := |data|, [Segment(0, |data|)];
    }
  }

  /** The loop over the chunks, and the last segment saved. */
  method FindSegments(data: seq<Byte>, g: nat) returns (total: nat, segs: seq<Segment>)
    requires g > 0
    ensures total == Total(segs) && Sorted(segs) && Exact(data, g, segs, |data|)
  {
    hide Varies, Constant, Covers, Sorted, Total, Exact, Before;
    var offset, length, pos := 0, 0, 0;
    total, segs := 0, [];
    NoSegments(data, g);
    while pos < |data|
      invariant 0 <= offset && 0 <= length && offset + length == pos <= |data| && (pos == |data| || pos % g == 0)
      invariant total == Total(segs) && Sorted(segs) && Before(segs, offset) && Before(segs, offset + 1)
      invariant Exact(data, g, Closed(segs, offset, length), pos)
    {
      var chunk := Chunk(data, g, pos);
      ChunkStep(data, g, segs, offset, length, pos);
      var same := IsConstant(chunk);
      if !same {
        length := length + |chunk|;
      } else {
        if length != 0 {
          Saved(segs, offset, length);
          segs := segs + [Segment(offset, length)];
          offset, total, length := offset + length, total + length, 0;
        }
        BeforeLater(segs, offset + 1, offset + |chunk|);
        BeforeLater(segs, offset + 1, offset + |chunk| + 1);
        offset := offset + |chunk|;
      }
      pos := pos + |chunk|;
    }
    if length != 0 {
      Saved(segs, offset, length);
      segs := segs + [Segment(offset, length)];
      total := total + length;
    }
  }

  lemma {:induction false} NoSegments(data: seq<Byte>, g: nat)
    requires g > 0
    ensures Sorted([]) && Before([], 0) && Before([], 1) && Total([]) == 0 && Exact(data, g, [], 0)
  {
  }

  /** Something is covered exactly if there is a segment. */
  lemma {:induction false} Some(data: seq<Byte>, g: nat, segs: seq<Segment>)
    requires g > 0 && Sorted(segs) && Exact(data, g, segs, |data|)
    ensures (exists i :: 0 <= i < |data| && Varies(data, g, i)) <==> |segs| > 0
  {
    hide Varies;
    if |segs| > 0 {
      assert segs[0].offset <= segs[0].offset < End(segs[0]);
      assert Covers(segs, segs[0].offset) && Varies(data, g, segs[0].offset);
    }
    if i :| 0 <= i < |data| && Varies(data, g, i) {
      assert Covers(segs, i);
    }
  }

  // ----- Translation -----

  function Translate(segs: seq<Segment>, idx: nat): nat
    requires idx < Total(segs)
  {
    if idx < segs[0].length then segs[0].offset + idx else Translate(segs[1..], idx - segs[0].length)
  }

  /** Not ok is the panic. */
  method TranslateIdx(idx: nat, segs: seq<Segment>) returns (ok: bool, r: nat)
    ensures ok <==> idx < Total(segs)
    ensures ok ==> r == Translate(segs, idx)
  {
    var i, k := idx, 0;
    while k < |segs|
      invariant 0 <= k <= |segs| && 0 <= i
      invariant idx < Total(segs) <==> i < Total(segs[k..])
      invariant i < Total(segs[k..]) ==> Translate(segs, idx) == Translate(segs[k..], i)
    {
      assert segs[k..][1..] == segs[k + 1..];
      if i < segs[k].length {
        return true, segs[k].offset + i;
      }
      i := i - segs[k].length;
      k := k + 1;
    }
    return false, 0;
  }

  lemma {:induction false} TranslateCovered(segs: seq<Segment>, i: nat)
    requires i < Total(segs)
    ensures Covers(segs, Translate(segs, i))
  {
    if i < segs[0].length {
      assert segs[0].offset <= Translate(segs, i) < End(segs[0]);
    } else {
      TranslateCovered(segs[1..], i - segs[0].length);
      var k :| 0 <= k < |segs[1..]| && segs[1..][k].offset <= Translate(segs, i) < End(segs[1..][k]);
      assert segs[k + 1] == segs[1..][k];
    }
  }

  lemma {:induction false} SortedRest(segs: seq<Segment>)
    requires |segs| > 0 && Sorted(segs)
    ensures Sorted(segs[1..]) && forall x :: Covers(segs[1..], x) ==> End(segs[0]) < x
  {
  }

  /** Greater indices lead to greater positions. */
  lemma {:induction false} TranslateIncreases(segs: seq<Segment>, i: nat, j: nat)
    requires Sorted(segs) && i < j < Total(segs)
    ensures Translate(segs, i) < Translate(segs, j)
  {
    SortedRest(segs);
    if i >= segs[0].length {
      TranslateIncreases(segs[1..], i - segs[0].length, j - segs[0].length);
    } else if j >= segs[0].length {
      TranslateCovered(segs[1..], j - segs[0].length);
    }
  }

  /** Every covered position is reached. */
  lemma {:induction false} TranslateReaches(segs: seq<Segment>, x: nat) returns (i: nat)
    requires Covers(segs, x)
    ensures i < Total(segs) && (Sorted(segs) ==> Translate(segs, i) == x)
  {
    var k :| 0 <= k < |segs| && segs[k].offset <= x < End(segs[k]);
    if k == 0 {
      i := x - segs[0].offset;
    } else {
      assert segs[1..][k - 1] == segs[k];
      i := TranslateReaches(segs[1..], x);
      i := segs[0].length + i;
      if Sorted(segs) {
        SortedRest(segs);
      }
    }
  }
}
