/** The program memory allocator: a two-level bitmap, its second level filled in lazily, of 64-byte granules. */
module Alloc {
  import Bits

  const GRANULE := 64
  const MAX_MEM := 16 * 1024 * 1024
  const L0_SIZE := 64
  const WORD_BITS := 64
  const ROW := L0_SIZE * WORD_BITS
  const L0_MEM := ROW * GRANULE
  const L1_SIZE := MAX_MEM / L0_MEM

  // ----- Bits of a word -----

  type Word = x: nat | x < 0x1_0000_0000_0000_0000

  /** w with bit k set, other bits as they are. */
  function WithBit(w: nat, k: nat): nat {
    if k == 0 then w - w % 2 + 1 else 2 * WithBit(w / 2, k - 1) + w % 2
  }

  lemma {:induction false} WithBitAt(w: nat, k: nat, j: nat)
    ensures Bits.IsSet(WithBit(w, k), j) <==> j == k || Bits.IsSet(w, j)
  {
    if k > 0 && j > 0 {
      WithBitAt(w / 2, k - 1, j - 1);
    }
  }

  lemma {:induction false} WithBitBound(w: nat, k: nat, n: nat)
    requires k < n && w < Bits.Pow2(n)
    ensures WithBit(w, k) < Bits.Pow2(n)
  {
    hide Bits.Pow2;
    Bits.Pow2Half(n);
    var q := w / 2;
    assert w == 2 * q + w % 2 && q < Bits.Pow2(n - 1);
    if k > 0 {
      WithBitBound(q, k - 1, n - 1);
    }
  }

  // ----- Where a granule's bit is -----

  function Row(idx: nat): nat { idx / ROW }
  function Column(idx: nat): nat { idx % ROW / WORD_BITS }
  function Place(idx: nat): nat { idx % ROW % WORD_BITS }

  lemma {:induction false} Placed(a: nat, b: nat)
    requires Row(a) == Row(b) && Column(a) == Column(b) && Place(a) == Place(b)
    ensures a == b
  {
  }

  /** Granules from lo to hi. */
  function Range(lo: nat, hi: nat): (r: set<nat>)
    ensures forall i :: i in r <==> lo <= i < hi
  {
    if lo >= hi then {} else Range(lo, hi - 1) + {hi - 1}
  }

  lemma {:induction false} RangeSplit(lo: nat, mid: nat, hi: nat)
    requires lo <= mid <= hi
    ensures Range(lo, hi) == Range(lo, mid) + Range(mid, hi)
  {
  }

  class MemAlloc {
    /** The memory in granules. */
    const size: nat
    const mem: array<array?<Word>>
    ghost var rows: set<array<Word>>

    ghost predicate Valid()
      reads this, mem, rows
    {
      && size % ROW == 0 && size <= L1_SIZE * ROW && mem.Length == L1_SIZE
      && (forall i :: 0 <= i < L1_SIZE && mem[i] != null ==> mem[i] in rows && mem[i].Length == L0_SIZE)
      && (forall i, j :: 0 <= i < j < L1_SIZE && mem[i] != null ==> mem[i] != mem[j])
    }

    ghost predicate Taken(idx: nat)
      requires Valid() && idx < L1_SIZE * ROW
      reads this, mem, rows
    {
      mem[Row(idx)] != null && Bits.IsSet(mem[Row(idx)][Column(idx)], Place(idx))
    }

    /** The set of granules that the bitmap stands for. */
    ghost function Used(): set<nat>
      requires Valid()
      reads this, mem, rows
    {
      set idx | 0 <= idx < L1_SIZE * ROW && Taken(idx)
    }

    constructor (total: nat)
      requires total <= MAX_MEM && total % L0_MEM == 0
      ensures Valid() && size == total / GRANULE && Used() == {} && fresh(mem) && fresh(rows)
    {
      size := total / GRANULE;
      mem := new array?<Word>[L1_SIZE](_ => null);
      var buf := new Word[L0_SIZE](_ => 0);
      rows := {buf};
      new;
      mem[0] := buf;
      forall idx | 0 <= idx < L1_SIZE * ROW
        ensures !Taken(idx)
      {
        Bits.ZeroBits(Place(idx));
      }
    }

    method Get(idx: nat) returns (r: bool)
      requires Valid() && idx < L1_SIZE * ROW
      ensures r <==> idx in Used()
    {
      var row := mem[Row(idx)];
      if row == null {
        return false;
      }
      return Bits.IsSet(row[Column(idx)], Place(idx));
    }

    method EnsureRow(i1: nat)
      requires Valid() && i1 < L1_SIZE
      modifies this`rows, mem
      ensures Valid() && mem[i1] != null && Used() == old(Used()) && fresh(rows - old(rows)) && old(rows) <= rows
    {
      if mem[i1] == null {
        var row := new Word[L0_SIZE](_ => 0);
        rows := rows + {row};
        mem[i1] := row;
        forall j | 0 <= j < L1_SIZE * ROW
          ensures Taken(j) <==> old(Taken(j))
        {
          Bits.ZeroBits(Place(j));
        }
      }
    }

    method Set(idx: nat)
      requires Valid() && idx < L1_SIZE * ROW
      modifies this`rows, mem, rows
      ensures Valid() && Used() == old(Used()) + {idx} && fresh(rows - old(rows))
    {
      EnsureRow(Row(idx));
      SetBit(idx);
    }

    method SetBit(idx: nat)
      requires Valid() && idx < L1_SIZE * ROW && mem[Row(idx)] != null
      modifies mem[Row(idx)]
      ensures Valid() && Used() == old(Used()) + {idx}
    {
      var row, i0, bit := mem[Row(idx)], Column(idx), Place(idx);
      Power64();
      WithBitBound(row[i0], bit, WORD_BITS);
      row[i0] := WithBit(row[i0], bit);
      forall j | 0 <= j < L1_SIZE * ROW
        ensures Taken(j) <==> j == idx || old(Taken(j))
      {
        if Row(j) == Row(idx) && Column(j) == i0 {
          WithBitAt(old(row[i0]), bit, Place(j));
          if Place(j) == bit {
            Placed(j, idx);
          }
        }
      }
    }

    /** Marks every granule that the bytes from addr0 on touch. */
    method NoteAlloc(addr0: nat, size0: nat)
      requires Valid() && addr0 + size0 <= MAX_MEM
      modifies this`rows, mem, rows
      ensures Valid() && Used() == old(Used()) + Touched(addr0, size0) && fresh(rows - old(rows))
    {
      hide Valid, Used;
      var addr := addr0 / GRANULE;
      var count := (addr0 + size0 + GRANULE - 1) / GRANULE - addr;
      var i := 0;
      while i < count
        invariant 0 <= i <= count && Valid() && fresh(rows - old(rows))
        invariant Used() == old(Used()) + Range(addr, addr + i)
      {
        Set(addr + i);
        i := i + 1;
      }
      assert Touched(addr0, size0) == Range(addr, addr + count);
    }

    /** Gives up all memory handed out so far. */
    method Bankruptcy()
      requires Valid()
      modifies mem, rows
      ensures Valid() && Used() == old(Used()) - Range(0, size)
    {
      hide Used, Range;
      var i1 := 0;
      while i1 < size / ROW
        invariant 0 <= i1 <= size / ROW && Valid() && mem[..] == old(mem[..])
        invariant Used() == old(Used()) - Range(0, i1 * ROW)
      {
        if mem[i1] != null {
          ClearRow(i1);
        } else {
          NoRow(i1);
        }
        RangeSplit(0, i1 * ROW, (i1 + 1) * ROW);
        i1 := i1 + 1;
      }
    }

    method ClearRow(i1: nat)
      requires Valid() && i1 < L1_SIZE && mem[i1] != null
      modifies mem[i1]
      ensures Valid() && Used() == old(Used()) - Range(i1 * ROW, (i1 + 1) * ROW)
    {
      var row := mem[i1];
      var i0 := 0;
      while i0 < L0_SIZE
        invariant 0 <= i0 <= L0_SIZE && forall j :: 0 <= j < L0_SIZE ==> row[j] == if j < i0 then 0 else old(row[j])
        modifies row
      {
        row[i0] := 0;
        i0 := i0 + 1;
      }
      forall j | 0 <= j < L1_SIZE * ROW
        ensures Taken(j) <==> Row(j) != i1 && old(Taken(j))
      {
        Bits.ZeroBits(Place(j));
      }
      assert forall j: nat :: Row(j) == i1 <==> i1 * ROW <= j < (i1 + 1) * ROW;
    }

    lemma {:induction false} NoRow(i1: nat)
      requires Valid() && i1 < L1_SIZE && mem[i1] == null
      ensures Used() !! Range(i1 * ROW, (i1 + 1) * ROW)
    {
      assert forall j: nat :: Row(j) == i1 <==> i1 * ROW <= j < (i1 + 1) * ROW;
    }

    /** Whether count granules from start on are all free, looking at them one by one. */
    method IsFree(start: nat, count: nat) returns (empty: bool)
      requires Valid() && start + count <= size
      ensures empty <==> Free(Used(), size, start, count)
    {
      hide Used;
      var i := 0;
      while i < count
        invariant 0 <= i <= count && Range(start, start + i) !! Used()
      {
        var taken := Get(start + i);
        if taken {
          assert start + i in Range(start, start + count);
          return false;
        }
        i := i + 1;
      }
      return true;
    }

    method Search(count: nat, align: nat) returns (found: bool, start: nat)
      requires Valid() && 0 < count <= size && align > 0
      ensures if found then Lowest(Used(), size, count, align, start) else !HasRoom(Used(), size, count, align)
    {
      hide Used;
      start, found := 0, false;
      while start <= size - count
        invariant start % align == 0 && forall s :: 0 <= s < start && s % align == 0 ==> !Free(Used(), size, s, count)
      {
        found := IsFree(start, count);
        if found {
          return;
        }
        NextMultiple(start, align);
        start := start + align;
      }
    }

    lemma {:induction false} WithinMax()
      requires Valid()
      ensures size * GRANULE <= MAX_MEM
    {
    }

    /** The lowest aligned free place, once everything is given up if there is none. */
    method Allocate(size0: nat, align0: nat) returns (addr: nat)
      requires Valid() && size0 <= size * GRANULE && size > 0
      modifies this`rows, mem, rows
      ensures Valid() && fresh(rows - old(rows)) && addr % GRANULE == 0
      ensures var count, align := Granules(size0), Granules(align0);
        var base := Base(old(Used()), size, count, align);
        Lowest(base, size, count, align, addr / GRANULE)
          && Used() == base + Range(addr / GRANULE, addr / GRANULE + count)
      decreases if Used() !! Range(0, size) then 0 else 1
    {
      hide Used, Valid, Lowest, HasRoom, Range;
      var size1, align1 := if size0 == 0 then 1 else size0, if align0 == 0 then 1 else align0;
      var count, align := (size1 + GRANULE - 1) / GRANULE, (align1 + GRANULE - 1) / GRANULE;
      var found, start := Search(count, align);
      if found {
        addr := start * GRANULE;
        LowestRoom(Used(), size, count, align, start);
        WithinMax();
        assert Touched(addr, size1) == Range(start, start + count);
        NoteAlloc(addr, size1);
      } else {
        NoRoom(Used(), size, count, align);
        Bankruptcy();
        AllRoom(Used(), size, count, align);
        addr := Allocate(size0, align0);
      }
    }
  }

  // ----- Where an allocation goes -----

  predicate Free(used: set<nat>, size: nat, start: nat, count: nat) {
    start + count <= size && Range(start, start + count) !! used
  }

  /** The lowest aligned place with room for count granules. */
  ghost predicate Lowest(used: set<nat>, size: nat, count: nat, align: nat, start: nat)
    requires align > 0
  {
    && start % align == 0 && Free(used, size, start, count)
    && forall s :: 0 <= s < start && s % align == 0 ==> !Free(used, size, s, count)
  }

  ghost predicate HasRoom(used: set<nat>, size: nat, count: nat, align: nat)
    requires align > 0
  {
    exists s: nat :: s % align == 0 && Free(used, size, s, count)
  }

  /** What counts as used: everything so far, or with no room left nothing of the memory. */
  ghost function Base(used: set<nat>, size: nat, count: nat, align: nat): set<nat>
    requires align > 0
  {
    if HasRoom(used, size, count, align) then used else used - Range(0, size)
  }

  lemma {:induction false} LowestRoom(used: set<nat>, size: nat, count: nat, align: nat, start: nat)
    requires align > 0 && Lowest(used, size, count, align, start)
    ensures HasRoom(used, size, count, align) && start + count <= size
  {
  }

  lemma {:induction false} NoRoom(used: set<nat>, size: nat, count: nat, align: nat)
    requires align > 0 && count <= size && !HasRoom(used, size, count, align)
    ensures !(used !! Range(0, size))
  {
    assert 0 % align == 0;
    assert !Free(used, size, 0, count);
  }

  lemma {:induction false} AllRoom(used: set<nat>, size: nat, count: nat, align: nat)
    requires align > 0 && count <= size && used !! Range(0, size)
    ensures HasRoom(used, size, count, align)
  {
    assert 0 % align == 0;
    assert Free(used, size, 0, count);
  }

  /** A size or alignment in granules, nothing counting as one byte. */
  function Granules(n: nat): (g: nat)
    ensures g > 0
  {
    ((if n == 0 then 1 else n) + GRANULE - 1) / GRANULE
  }

  lemma {:induction false} NextMultiple(start: nat, align: nat)
    requires align > 0 && start % align == 0
    ensures (start + align) % align == 0 && forall s :: start < s < start + align ==> s % align != 0
  {
    var q := start / align;
    forall s | start < s < start + align
      ensures s % align != 0
    {
      Bits.DivModUnique(s, align, q, s - start);
    }
    Bits.DivModUnique(start + align, align, q + 1, 0);
  }

  /** The granules that size0 bytes from addr0 on touch. */
  function Touched(addr0: nat, size0: nat): set<nat> {
    Range(addr0 / GRANULE, (addr0 + size0 + GRANULE - 1) / GRANULE)
  }

  lemma {:induction false} Power64()
    ensures Bits.Pow2(WORD_BITS) == 0x1_0000_0000_0000_0000
  {
    Bits.Pow2Values();
    Bits.Pow2Add(16, 16);
    Bits.Pow2Add(32, 32);
  }

  // ----- Alignment in bytes -----

  /** However much is in use, the place found for count granules is aligned in bytes as asked. */
  ghost predicate AlwaysAligned(size: nat, count: nat, align0: nat)
    requires align0 > 0
  {
    forall used: set<nat>, start: nat :: Lowest(used, size, count, Granules(align0), start) ==>
      start * GRANULE % align0 == 0
  }

  /** Allocations are always aligned as asked exactly when the alignment divides its own size rounded up
      to granules, or there is room at the very start of memory only. */
  lemma {:induction false} AlignedIff(size: nat, count: nat, align0: nat)
    requires align0 > 0 && 0 < count <= size
    ensures AlwaysAligned(size, count, align0)
            <==> Granules(align0) * GRANULE % align0 == 0 || size < Granules(align0) + count
  {
    hide Lowest;
    var g := Granules(align0);
    if g * GRANULE % align0 == 0 || size < g + count {
      forall used: set<nat>, start: nat | Lowest(used, size, count, g, start)
        ensures start * GRANULE % align0 == 0
      {
        PlaceAligned(used, size, count, align0, start);
      }
    } else {
      SecondPlace(size, count, align0);
    }
  }

  lemma {:induction false} PlaceAligned(used: set<nat>, size: nat, count: nat, align0: nat, start: nat)
    requires align0 > 0 && Lowest(used, size, count, Granules(align0), start)
    requires Granules(align0) * GRANULE % align0 == 0 || size < Granules(align0) + count
    ensures start * GRANULE % align0 == 0
  {
    hide Granules;
    var g := Granules(align0);
    if g * GRANULE % align0 == 0 {
      Scaled(start / g, g * GRANULE, align0);
      assert start / g * (g * GRANULE) == start * GRANULE by { Product(start, g); }
    } else {
      NextMultiple(0, g);
      assert start == 0;
    }
  }

  lemma {:induction false} Product(start: nat, g: nat)
    requires g > 0 && start % g == 0
    ensures start / g * (g * GRANULE) == start * GRANULE
  {
    var k := start / g;
    assert start == k * g;
  }

  lemma {:induction false} Scaled(k: nat, step: nat, align0: nat)
    requires align0 > 0 && step % align0 == 0
    ensures k * step % align0 == 0
  {
    Bits.DivModUnique(k * step, align0, k * (step / align0), 0);
  }

  /** With only the first granule in use, the place found is the second one the search looks at. */
  lemma {:induction false} SecondPlace(size: nat, count: nat, align0: nat)
    requires 0 < count && Granules(align0) + count <= size
    ensures Lowest({0}, size, count, Granules(align0), Granules(align0))
  {
    var g := Granules(align0);
    NextMultiple(0, g);
    assert 0 in Range(0, count);
  }

  lemma {:induction false} PowersAligned(n: nat)
    ensures Granules(Bits.Pow2(n)) * GRANULE % Bits.Pow2(n) == 0
  {
    Bits.Pow2Values();
    if n <= 6 {
      Bits.Pow2Add(n, 6 - n);
      Bits.DivModUnique(GRANULE, Bits.Pow2(n), Bits.Pow2(6 - n), 0);
    } else {
      Bits.Pow2Add(n - 6, 6);
    }
  }

  /** With the first granule in use, one byte with 48-byte alignment is given address 64. */
  lemma {:induction false} NotAligned(size: nat)
    requires size >= 2
    ensures Lowest({0}, size, Granules(1), Granules(48), 1) && 1 * GRANULE % 48 != 0
    ensures !AlwaysAligned(size, Granules(1), 48)
  {
    SecondPlace(size, Granules(1), 48);
    AlignedIff(size, Granules(1), 48);
  }
}
