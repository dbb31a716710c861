/** The shared region in which the executor hands its call records to the manager: the format,
    its reader, and the writer that publishes records through a count word. */
module Output {
  import opened Common

  type Word = x: int | 0 <= x < 0x1_0000_0000
  type Long = x: int | 0 <= x < 0x1_0000_0000_0000_0000

  const MAGIC: Word := 0xbadf00d

  /** Index and number of a record that belongs to no call. */
  const EXTRA: Word := 0xffff_ffff

  /** A comparison as the manager reads it; operands are 64 bits wide for the widest size and 32 otherwise. */
  datatype Comp = Comp(typ: Word, op1: int, op2: int)

  datatype Record = Record(index: Word, num: Word, errno: Word, flags: Word, signal: seq<Word>, cover: seq<Word>,
                           comps: seq<Comp>)

  predicate Wide(typ: Word) { typ / 2 % 4 == 3 }

  predicate CompOk(c: Comp) {
    && c.typ <= 7
    && 0 <= c.op1 < (if Wide(c.typ) then 0x1_0000_0000_0000_0000 else 0x1_0000_0000)
    && 0 <= c.op2 < (if Wide(c.typ) then 0x1_0000_0000_0000_0000 else 0x1_0000_0000)
  }

  predicate Fits(r: Record) {
    && |r.signal| < 0x1_0000_0000 && |r.cover| < 0x1_0000_0000 && |r.comps| < 0x1_0000_0000
    && forall i :: 0 <= i < |r.comps| ==> CompOk(r.comps[i])
  }

  // ----- The format -----

  function Split(v: Long): seq<Word> {
    [v % 0x1_0000_0000, v / 0x1_0000_0000]
  }

  function PutComp(c: Comp): seq<Word>
    requires CompOk(c)
  {
    if Wide(c.typ) then [c.typ] + Split(c.op1) + Split(c.op2) else [c.typ, c.op1, c.op2]
  }

  function PutComps(cs: seq<Comp>): seq<Word>
    requires forall i :: 0 <= i < |cs| ==> CompOk(cs[i])
  {
    if |cs| == 0 then [] else PutComps(cs[..|cs| - 1]) + PutComp(cs[|cs| - 1])
  }

  function Header(r: Record, signals: Word, covers: Word, comps: Word): seq<Word> {
    [MAGIC, r.index, r.num, r.errno, r.flags, signals, covers, comps]
  }

  function PutRecord(r: Record): (ws: seq<Word>)
    requires Fits(r)
    ensures |ws| >= 8
  {
    Header(r, |r.signal|, |r.cover|, |r.comps|) + r.signal + r.cover + PutComps(r.comps)
  }

  function PutAll(rs: seq<Record>): seq<Word>
    requires forall i :: 0 <= i < |rs| ==> Fits(rs[i])
  {
    if |rs| == 0 then [] else PutAll(rs[..|rs| - 1]) + PutRecord(rs[|rs| - 1])
  }

  // ----- The reader -----

  datatype Taken<T> = Bad | Took(value: T, rest: seq<Word>)

  function TakeWords(ws: seq<Word>, n: nat): Taken<seq<Word>> {
    if |ws| < n then Bad else Took(ws[..n], ws[n..])
  }

  function TakeComp(ws: seq<Word>): Taken<Comp> {
    if |ws| < 1 || ws[0] > 7 then Bad
    else if Wide(ws[0]) then
      if |ws| < 5 then Bad
      else Took(Comp(ws[0], ws[1] as int + 0x1_0000_0000 * ws[2] as int,
        ws[3] as int + 0x1_0000_0000 * ws[4] as int), ws[5..])
    else
      if |ws| < 3 then Bad else Took(Comp(ws[0], ws[1], ws[2]), ws[3..])
  }

  function TakeComps(ws: seq<Word>, n: nat): Taken<seq<Comp>>
    decreases n
  {
    if n == 0 then Took([], ws)
    else
      match TakeComp(ws)
      case Bad => Bad
      case Took(c, rest) =>
        match TakeComps(rest, n - 1)
        case Bad => Bad
        case Took(cs, rest') => Took([c] + cs, rest')
  }

  function TakeRecord(ws: seq<Word>): Taken<Record> {
    if |ws| < 8 || ws[0] != MAGIC then Bad
    else
      match TakeWords(ws[8..], ws[5])
      case Bad => Bad
      case Took(signal, rest) =>
        match TakeWords(rest, ws[6])
        case Bad => Bad
        case Took(cover, rest') =>
          match TakeComps(rest', ws[7])
          case Bad => Bad
          case Took(comps, rest'') => Took(Record(ws[1], ws[2], ws[3], ws[4], signal, cover, comps), rest'')
  }

  function TakeRecords(ws: seq<Word>, n: nat): Taken<seq<Record>>
    decreases n
  {
    if n == 0 then Took([], ws)
    else
      match TakeRecord(ws)
      case Bad => Bad
      case Took(r, rest) =>
        match TakeRecords(rest, n - 1)
        case Bad => Bad
        case Took(rs, rest') => Took([r] + rs, rest')
  }

  // ----- What is put is read back -----

  lemma {:induction false} CompBack(c: Comp, tail: seq<Word>)
    requires CompOk(c)
    ensures TakeComp(PutComp(c) + tail) == Took(c, tail)
  {
    var ws := PutComp(c) + tail;
    assert ws[|PutComp(c)|..] == tail;
  }

  lemma {:induction false} CompsFirst(cs: seq<Comp>)
    requires |cs| > 0 && forall i :: 0 <= i < |cs| ==> CompOk(cs[i])
    ensures PutComps(cs) == PutComp(cs[0]) + PutComps(cs[1..])
  {
    hide PutComp;
    var n := |cs| - 1;
    if n > 0 {
      CompsFirst(cs[..n]);
      assert cs[1..][..n - 1] == cs[..n][1..];
    } else {
      assert cs[..0] == cs[1..] == [];
    }
  }

  lemma {:induction false} CompsBack(cs: seq<Comp>, tail: seq<Word>)
    requires forall i :: 0 <= i < |cs| ==> CompOk(cs[i])
    ensures TakeComps(PutComps(cs) + tail, |cs|) == Took(cs, tail)
  {
    hide PutComp, TakeComp;
    if |cs| == 0 {
      assert PutComps(cs) + tail == tail;
    } else {
      CompsFirst(cs);
      assert PutComps(cs) + tail == PutComp(cs[0]) + (PutComps(cs[1..]) + tail);
      CompBack(cs[0], PutComps(cs[1..]) + tail);
      CompsBack(cs[1..], tail);
      assert [cs[0]] + cs[1..] == cs;
    }
  }

  lemma {:induction false} RecordBack(r: Record, tail: seq<Word>)
    requires Fits(r)
    ensures TakeRecord(PutRecord(r) + tail) == Took(r, tail)
  {
    hide PutComps, TakeComps;
    var ws := PutRecord(r) + tail;
    var end := PutComps(r.comps) + tail;
    assert ws[8..] == r.signal + (r.cover + end);
    assert (r.signal + (r.cover + end))[|r.signal|..] == r.cover + end;
    assert (r.cover + end)[|r.cover|..] == end;
    CompsBack(r.comps, tail);
  }

  lemma {:induction false} AllFirst(rs: seq<Record>)
    requires |rs| > 0 && forall i :: 0 <= i < |rs| ==> Fits(rs[i])
    ensures PutAll(rs) == PutRecord(rs[0]) + PutAll(rs[1..])
  {
    hide PutRecord;
    var n := |rs| - 1;
    if n > 0 {
      AllFirst(rs[..n]);
      assert rs[1..][..n - 1] == rs[..n][1..];
    } else {
      assert rs[..0] == rs[1..] == [];
    }
  }

  /** Any records, put one after another, are read back whatever follows them. */
  lemma {:induction false} RecordsBack(rs: seq<Record>, tail: seq<Word>)
    requires forall i :: 0 <= i < |rs| ==> Fits(rs[i])
    ensures TakeRecords(PutAll(rs) + tail, |rs|) == Took(rs, tail)
  {
    hide PutRecord, TakeRecord, Fits;
    if |rs| == 0 {
      assert PutAll(rs) + tail == tail;
    } else {
      AllFirst(rs);
      assert PutAll(rs) + tail == PutRecord(rs[0]) + (PutAll(rs[1..]) + tail);
      RecordBack(rs[0], PutAll(rs[1..]) + tail);
      RecordsBack(rs[1..], tail);
      assert [rs[0]] + rs[1..] == rs;
    }
  }

  // ----- The writer -----

  /** What the collection loops go through: entries passed over are None. */
  function Kept<T>(s: seq<Option<T>>): (r: seq<T>)
    ensures |r| <= |s|
  {
    if |s| == 0 then []
    else Kept(s[..|s| - 1]) + match s[|s| - 1] case None => [] case Some(v) => [v]
  }

  lemma {:induction false} KeptMore<T>(s: seq<Option<T>>, i: nat)
    requires i < |s|
    ensures Kept(s[..i + 1]) == Kept(s[..i]) + match s[i] case None => [] case Some(v) => [v]
    ensures Kept(s[..i + 1]) <= Kept(s)
    decreases |s| - i
  {
    assert s[..i + 1][..i] == s[..i];
    if i + 1 < |s| {
      KeptMore(s, i + 1);
    } else {
      assert s[..i + 1] == s;
    }
  }

  /** A comparison as the kernel reports it, its operands zero-extended. */
  datatype Kcov = Kcov(typ: Long, arg1: Long, arg2: Long)

  /** Low 32 bits of an operand sign-extended from its size; all of it for the widest size. */
  function Extend(size: nat, arg: Long): (v: Long)
    ensures size < 3 ==> v < 0x1_0000_0000
  {
    if size == 3 then arg
    else if size == 2 then arg % 0x1_0000_0000
    else
      var half := if size == 0 then 0x80 else 0x8000;
      var low := arg % (2 * half);
      if low < half then low else low + 0x1_0000_0000 - 2 * half
  }

  function Extended(k: Kcov): (c: Comp)
    requires k.typ <= 7
    ensures CompOk(c)
  {
    Comp(k.typ, Extend(k.typ / 2, k.arg1), Extend(k.typ / 2, k.arg2))
  }

  lemma {:induction false} ExtendedWords(k: Kcov)
    requires k.typ <= 7
    ensures
      var arg1, arg2 := Extend(k.typ / 2, k.arg1), Extend(k.typ / 2, k.arg2);
      PutComp(Extended(k)) == [k.typ] + if k.typ / 2 != 3 then [arg1, arg2] else Split(arg1) + Split(arg2)
  {
    hide Extend, Split;
  }

  predicate TypesOk(ks: seq<Kcov>) {
    forall i :: 0 <= i < |ks| ==> ks[i].typ <= 7
  }

  function ExtendAll(ks: seq<Kcov>): (cs: seq<Comp>)
    requires TypesOk(ks)
    ensures |cs| == |ks| && forall i :: 0 <= i < |cs| ==> CompOk(cs[i])
  {
    seq(|ks|, i requires 0 <= i < |ks| => Extended(ks[i]))
  }

  lemma {:induction false} ExtendMore(ks: seq<Kcov>, k: Kcov)
    requires TypesOk(ks) && k.typ <= 7
    ensures TypesOk(ks + [k]) && PutComps(ExtendAll(ks + [k])) == PutComps(ExtendAll(ks)) + PutComp(Extended(k))
  {
    hide PutComp, Extended;
    var cs := ExtendAll(ks + [k]);
    assert cs[..|ks|] == ExtendAll(ks);
  }

  lemma {:induction false} CompsGrow(ks: seq<Kcov>, n: nat)
    requires TypesOk(ks) && n <= |ks|
    ensures TypesOk(ks[..n]) && |PutComps(ExtendAll(ks[..n]))| <= |PutComps(ExtendAll(ks))|
    decreases |ks| - n
  {
    hide PutComp, Extended;
    if n < |ks| {
      CompsGrow(ks, n + 1);
      assert ks[..n + 1] == ks[..n] + [ks[n]];
      ExtendMore(ks[..n], ks[n]);
    } else {
      assert ks[..n] == ks;
    }
  }

  /** What is collected besides the calls themselves. */
  datatype Mode = Mode(comparisons: bool, signal: bool, cover: bool)

  /** What a call's coverage buffer holds: edges and comparisons (None for those passed over), and PCs. */
  datatype Found = Found(edges: seq<Option<Word>>, pcs: seq<Word>, comps: seq<Option<Kcov>>)

  const EXECUTED := 1
  const FINISHED := 2
  const BLOCKED := 4
  const FAULT_INJECTED := 8

  /** A call given to a thread, and how it came back: failed is a result of -1. */
  datatype Call = Call(index: Word, num: Word, failed: bool, errno: Word, fault: bool)

  function Errno(call: Call, finished: bool): Word {
    if !finished then 999 else if call.failed then call.errno else 0
  }

  function Flags(call: Call, finished: bool, last: bool): Word {
    EXECUTED + (if finished then FINISHED else 0) + (if finished && !last then BLOCKED else 0)
      + (if finished && call.fault then FAULT_INJECTED else 0)
  }

  function Written(index: Word, num: Word, errno: Word, flags: Word, mode: Mode, found: Found): Record
    requires mode.comparisons ==> TypesOk(Kept(found.comps))
  {
    if mode.comparisons then Record(index, num, errno, flags, [], [], ExtendAll(Kept(found.comps)))
    else
      var signal := if mode.signal then Kept(found.edges) else [];
      Record(index, num, errno, flags, signal, if mode.cover then found.pcs else [], [])
  }

  /** The record can be written into what is left of the region. */
  predicate Room(index: Word, num: Word, errno: Word, flags: Word, mode: Mode, found: Found, left: int) {
    && (mode.comparisons ==> TypesOk(Kept(found.comps)))
    && Fits(Written(index, num, errno, flags, mode, found))
    && |PutRecord(Written(index, num, errno, flags, mode, found))| <= left
  }

  /** A copy of the region whose count word covers only whole records, which are the first of rs. */
  predicate Sound(m: seq<Word>, rs: seq<Record>) {
    && |m| > 0 && m[0] <= |rs|
    && TakeRecords(m[1..], m[0]).Took?
    && TakeRecords(m[1..], m[0]).value == rs[..m[0]]
  }

  predicate AllSound(ms: seq<seq<Word>>, rs: seq<Record>) {
    forall i :: 0 <= i < |ms| ==> Sound(ms[i], rs)
  }

  lemma {:induction false} StillSound(ms: seq<seq<Word>>, rs: seq<Record>, r: Record)
    requires AllSound(ms, rs)
    ensures AllSound(ms, rs + [r])
  {
    forall i | 0 <= i < |ms|
      ensures Sound(ms[i], rs + [r])
    {
      assert Sound(ms[i], rs);
      assert (rs + [r])[..ms[i][0]] == rs[..ms[i][0]];
    }
  }

  lemma {:induction false} SoundNow(m: seq<Word>, rs: seq<Record>, start: nat)
    requires forall i :: 0 <= i < |rs| ==> Fits(rs[i])
    requires 1 <= start <= |m| && m[0] == |rs| && m[1..start] == PutAll(rs)
    ensures Sound(m, rs)
  {
    hide TakeRecord, PutRecord, Fits;
    assert m[1..] == PutAll(rs) + m[start..];
    RecordsBack(rs, m[start..]);
    assert rs[..|rs|] == rs;
  }

  class Region {
    const words: array<Word>
    var pos: nat
    var completed: nat

    /** The published records, where the next one starts, and the region after each store so far. */
    ghost var published: seq<Record>
    ghost var start: nat
    ghost var moments: seq<seq<Word>>

    ghost predicate Valid()
      reads this, words
    {
      && 1 <= start <= pos <= words.Length < 0x1_0000_0000
      && words[0] == completed == |published|
      && (forall i :: 0 <= i < |published| ==> Fits(published[i]))
      && words[1..start] == PutAll(published)
      && completed < start
      && AllSound(moments, published)
    }

    ghost function Pending(): seq<Word>
      reads this, words
      requires Valid()
    {
      words[start..pos]
    }

    /** An executor that has written its initial count of no records. */
    constructor (size: nat)
      requires 1 <= size < 0x1_0000_0000
      ensures Valid() && fresh(words) && published == [] && Pending() == [] && words.Length == size
    {
      words := new Word[size];
      pos, completed, start, published := 1, 0, 1, [];
      moments := [];
      new;
      words[0] := 0;
      moments := [words[..]];
      SoundNow(words[..], [], 1);
    }

    /** False is the exit on overflow. */
    method WriteOutput(v: Word) returns (ok: bool)
      requires Valid()
      modifies this`pos, this`moments, words
      ensures Valid() && ok == (old(pos) < words.Length)
      ensures Pending() == old(Pending()) + if ok then [v] else []
      ensures moments == old(moments) + if ok then [words[..]] else []
    {
      hide Fits, PutRecord, TakeRecords, Sound;
      if pos >= words.Length {
        return false;
      }
      words[pos] := v;
      pos := pos + 1;
      assert words[1..start] == old(words[1..start]);
      SoundNow(words[..], published, start);
      moments := moments + [words[..]];
      return true;
    }

    /** Two words in one store. */
    method WriteOutput64(v: Long) returns (ok: bool)
      requires Valid()
      modifies this`pos, this`moments, words
      ensures Valid() && ok == (old(pos) + 1 < words.Length)
      ensures Pending() == old(Pending()) + if ok then Split(v) else []
      ensures moments == old(moments) + if ok then [words[..]] else []
    {
      hide Fits, PutRecord, TakeRecords, Sound;
      if pos + 1 >= words.Length {
        return false;
      }
      words[pos], words[pos + 1] := v % 0x1_0000_0000, v / 0x1_0000_0000;
      pos := pos + 2;
      assert words[1..start] == old(words[1..start]);
      SoundNow(words[..], published, start);
      moments := moments + [words[..]];
      return true;
    }

    /** Fills in a word of the record being written. */
    method Fill(p: nat, v: Word)
      requires Valid() && start <= p < pos
      modifies this`moments, words
      ensures Valid() && Pending() == old(Pending())[p - start := v]
      ensures moments == old(moments) + [words[..]]
    {
      hide Fits, PutRecord, TakeRecords, Sound;
      words[p] := v;
      assert words[1..start] == old(words[1..start]);
      SoundNow(words[..], published, start);
      moments := moments + [words[..]];
    }

    method WriteCompleted(ghost r: Record)
      requires Valid() && Fits(r) && Pending() == PutRecord(r)
      modifies this`completed, this`published, this`start, this`moments, words
      ensures Valid() && published == old(published) + [r] && Pending() == []
      ensures moments == old(moments) + [words[..]]
    {
      hide Fits, PutRecord, TakeRecords, Sound;
      completed := completed + 1;
      words[0] := completed;
      StillSound(moments, published, r);
      published := published + [r];
      assert published[..|published| - 1] == old(published);
      assert words[1..pos] == old(words[1..start]) + old(words[start..pos]);
      start := pos;
      SoundNow(words[..], published, start);
      moments := moments + [words[..]];
    }

    method WriteWords(ws: seq<Word>) returns (ok: bool)
      requires Valid()
      modifies this`pos, this`moments, words
      ensures Valid() && old(moments) <= moments && ok == (old(pos) + |ws| <= words.Length)
      ensures ok ==> Pending() == old(Pending()) + ws
    {
      hide Fits, PutAll, AllSound;
      var i := 0;
      ok := true;
      while i < |ws|
        invariant 0 <= i <= |ws| && Valid() && old(moments) <= moments
        invariant Pending() == old(Pending()) + ws[..i] && pos == old(pos) + i && pos <= words.Length
      {
        ok := WriteOutput(ws[i]);
        if !ok {
          return;
        }
        assert ws[..i + 1] == ws[..i] + [ws[i]];
        i := i + 1;
      }
    }

    method WriteSignal(edges: seq<Option<Word>>) returns (ok: bool, n: nat)
      requires Valid()
      modifies this`pos, this`moments, words
      ensures Valid() && old(moments) <= moments && ok == (old(pos) + |Kept(edges)| <= words.Length)
      ensures ok ==> Pending() == old(Pending()) + Kept(edges) && n == |Kept(edges)|
    {
      hide Fits, PutAll, AllSound;
      var i := 0;
      n, ok := 0, true;
      while i < |edges|
        invariant 0 <= i <= |edges| && Valid() && old(moments) <= moments && Kept(edges[..i]) <= Kept(edges)
        invariant Pending() == old(Pending()) + Kept(edges[..i]) && n == |Kept(edges[..i])|
        invariant pos == old(pos) + n
      {
        KeptMore(edges, i);
        match edges[i] {
          case None =>
          case Some(sig) =>
            ok := WriteOutput(sig);
            if !ok {
              return;
            }
            n := n + 1;
        }
        i := i + 1;
      }
      assert edges[..i] == edges;
    }

    method WriteBoth64(arg1: Long, arg2: Long) returns (ok: bool)
      requires Valid()
      modifies this`pos, this`moments, words
      ensures Valid() && old(moments) <= moments && ok == (old(pos) + 4 <= words.Length)
      ensures ok ==> Pending() == old(Pending()) + (Split(arg1) + Split(arg2))
    {
      hide Fits, PutAll, AllSound;
      ok := WriteOutput64(arg1);
      if ok {
        ok := WriteOutput64(arg2);
      }
    }

    method WriteComp(k: Kcov) returns (ok: bool)
      requires Valid()
      modifies this`pos, this`moments, words
      ensures Valid() && old(moments) <= moments
      ensures ok == (k.typ <= 7 && old(pos) + |PutComp(Extended(k))| <= words.Length)
      ensures ok ==> Pending() == old(Pending()) + PutComp(Extended(k))
    {
      hide Fits, PutAll, AllSound, Extend, PutComp, Extended;
      if k.typ > 7 {
        return false;
      }
      ExtendedWords(k);
      ok := WriteOutput(k.typ);
      if !ok {
        return;
      }
      var arg1, arg2 := Extend(k.typ / 2, k.arg1), Extend(k.typ / 2, k.arg2);
      if k.typ / 2 != 3 {
        ok := WriteWords([arg1, arg2]);
      } else {
        ok := WriteBoth64(arg1, arg2);
      }
    }

    method WriteComps(comps: seq<Option<Kcov>>) returns (ok: bool, n: nat)
      requires Valid()
      modifies this`pos, this`moments, words
      ensures Valid() && old(moments) <= moments
      ensures ok == (TypesOk(Kept(comps)) && old(pos) + |PutComps(ExtendAll(Kept(comps)))| <= words.Length)
      ensures ok ==> Pending() == old(Pending()) + PutComps(ExtendAll(Kept(comps))) && n == |Kept(comps)|
    {
      hide Fits, PutAll, AllSound, PutComp, Extended, ExtendAll, PutComps;
      var i := 0;
      n, ok := 0, true;
      assert Kept(comps[..0]) == [];
      NoComps();
      while i < |comps|
        invariant 0 <= i <= |comps| && Valid() && old(moments) <= moments
        invariant Kept(comps[..i]) <= Kept(comps) && n == |Kept(comps[..i])| && TypesOk(Kept(comps[..i]))
        invariant Pending() == old(Pending()) + PutComps(ExtendAll(Kept(comps[..i])))
        invariant pos == old(pos) + |PutComps(ExtendAll(Kept(comps[..i])))|
      {
        ghost var done := Kept(comps[..i]);
        KeptMore(comps, i);
        match comps[i] {
          case None =>
            assert Kept(comps[..i + 1]) == done;
          case Some(k) =>
            assert Kept(comps[..i + 1]) == done + [k] == Kept(comps)[..n + 1];
            if k.typ <= 7 {
              ExtendMore(done, k);
            } else {
              assert Kept(comps)[n] == k;
            }
            ok := WriteComp(k);
            if !ok {
              if TypesOk(Kept(comps)) {
                CompsGrow(Kept(comps), n + 1);
              }
              return;
            }
            n := n + 1;
        }
        i := i + 1;
      }
      assert comps[..i] == comps;
    }

    /** The signal and coverage after the header of r, with their counts filled in. */
    method WriteCoverageSignal(mode: Mode, found: Found, ghost r: Record) returns (ok: bool)
      requires Valid() && Pending() == Header(r, 0, 0, 0) && !mode.comparisons
      requires r == Written(r.index, r.num, r.errno, r.flags, mode, found)
      modifies this`pos, this`moments, words
      ensures Valid() && old(moments) <= moments && ok == (start + 8 + |r.signal| + |r.cover| <= words.Length)
      ensures ok ==> Fits(r) && Pending() == PutRecord(r)
    {
      hide PutAll, AllSound, ExtendAll, Kept;
      var head := pos - 8;
      if mode.signal {
        var n;
        ok, n := WriteSignal(found.edges);
        if !ok {
          return;
        }
        Fill(head + 5, n);
      }
      ok := WriteCover(mode, found, head + 6, r);
    }

    method WriteCover(mode: Mode, found: Found, count: nat, ghost r: Record) returns (ok: bool)
      requires Valid() && |r.signal| < 0x1_0000_0000 && Pending() == Header(r, |r.signal|, 0, 0) + r.signal
      requires r.cover == (if mode.cover then found.pcs else []) && r.comps == [] && count == start + 6
      modifies this`pos, this`moments, words
      ensures Valid() && old(moments) <= moments && ok == (old(pos) + |r.cover| <= words.Length)
      ensures ok ==> Fits(r) && Pending() == PutRecord(r)
    {
      hide PutAll, AllSound;
      ok := true;
      if mode.cover {
        ok := WriteWords(found.pcs);
        if !ok {
          return;
        }
        Fill(count, |found.pcs|);
      }
    }

    /** The comparisons after the header of r, with their count filled in. */
    method WriteComparisons(mode: Mode, found: Found, ghost r: Record) returns (ok: bool)
      requires Valid() && Pending() == Header(r, 0, 0, 0) && mode.comparisons
      requires TypesOk(Kept(found.comps)) ==> r == Written(r.index, r.num, r.errno, r.flags, mode, found)
      modifies this`pos, this`moments, words
      ensures Valid() && old(moments) <= moments
      ensures ok == (TypesOk(Kept(found.comps)) && start + 8 + |PutComps(ExtendAll(Kept(found.comps)))| <= words.Length)
      ensures ok ==> Fits(r) && Pending() == PutRecord(r)
    {
      hide PutAll, AllSound, ExtendAll, Kept, PutComps;
      var count := pos - 1;
      var n;
      ok, n := WriteComps(found.comps);
      if ok {
        CompsLong(r.comps);
        Fill(count, n);
      }
    }

    /** A whole record: header, body, counts filled in, and only then the count word. */
    method WriteRecord(index: Word, num: Word, errno: Word, flags: Word, mode: Mode, found: Found) returns (ok: bool)
      requires Valid() && Pending() == []
      modifies this, words
      ensures Valid() && old(moments) <= moments
      ensures ok == Room(index, num, errno, flags, mode, found, words.Length - old(pos))
      ensures published == old(published) + if ok then [Written(index, num, errno, flags, mode, found)] else []
      ensures ok ==> Pending() == []
    {
      hide PutAll, AllSound, PutComps, ExtendAll, Kept;
      ok := WriteWords([MAGIC, index, num, errno, flags, 0, 0, 0]);
      if !ok {
        return;
      }
      ghost var r :=
        if mode.comparisons && !TypesOk(Kept(found.comps)) then Record(index, num, errno, flags, [], [], [])
        else Written(index, num, errno, flags, mode, found);
      if mode.comparisons {
        ok := WriteComparisons(mode, found, r);
      } else {
        ok := WriteCoverageSignal(mode, found, r);
      }
      if ok {
        WriteCompleted(r);
      }
    }

    /** The record of one call: errno 999 unless it finished, and how it went in the flags. */
    method WriteCallOutput(call: Call, finished: bool, last: bool, mode: Mode, found: Found) returns (ok: bool)
      requires Valid() && Pending() == []
      modifies this, words
      ensures Valid() && old(moments) <= moments
      ensures ok == Room(call.index, call.num, Errno(call, finished), Flags(call, finished, last), mode, found,
                         words.Length - old(pos))
      ensures published == old(published) +
        if ok then [Written(call.index, call.num, Errno(call, finished), Flags(call, finished, last), mode, found)]
        else []
      ensures ok ==> Pending() == []
    {
      hide PutAll, AllSound, Room, Written;
      var errno: Word := 999;
      var flags: Word := EXECUTED + if finished && !last then BLOCKED else 0;
      if finished {
        errno := if call.failed then call.errno else 0;
        flags := flags + FINISHED + if call.fault then FAULT_INJECTED else 0;
      }
      ok := WriteRecord(call.index, call.num, errno, flags, mode, found);
    }

    /** Coverage that belongs to no call; nothing is written when there is none to collect. */
    method WriteExtraOutput(collect: bool, size: nat, mode: Mode, found: Found) returns (ok: bool)
      requires Valid() && Pending() == []
      modifies this, words
      ensures Valid() && old(moments) <= moments
      ensures ok <==> !collect || mode.comparisons || size == 0
                      || Room(EXTRA, EXTRA, 999, 0, mode, found, words.Length - old(pos))
      ensures published == old(published) +
        if ok && collect && !mode.comparisons && size > 0 then [Written(EXTRA, EXTRA, 999, 0, mode, found)] else []
      ensures ok ==> Pending() == []
    {
      if !collect || mode.comparisons || size == 0 {
        return true;
      }
      ok := WriteRecord(EXTRA, EXTRA, 999, 0, mode, found);
    }
  }

  lemma {:induction false} CompsLong(cs: seq<Comp>)
    requires forall i :: 0 <= i < |cs| ==> CompOk(cs[i])
    ensures |cs| <= |PutComps(cs)|
  {
    if |cs| > 0 {
      CompsLong(cs[..|cs| - 1]);
    }
  }

  lemma {:induction false} NoComps()
    ensures PutComps(ExtendAll([])) == []
  {
  }
}
