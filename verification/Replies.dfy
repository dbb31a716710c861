/** The manager's reading of the shared region, and why it accepts whatever the executor leaves there. */
module Replies {
  import opened Common
  import opened Output
  import Threads

  datatype CallInfo = CallInfo(errno: Word, flags: Word, signal: seq<Word>, cover: seq<Word>, comps: seq<Comp>)

  datatype ProgInfo = ProgInfo(calls: seq<CallInfo>, extra: seq<CallInfo>)

  function Nothing(): CallInfo {
    CallInfo(0, 0, [], [], [])
  }

  function InfoOf(r: Record): CallInfo {
    CallInfo(r.errno, r.flags, r.signal, r.cover, r.comps)
  }

  /** An extra record's errno and flags are not taken over. */
  function ExtraOf(r: Record): CallInfo {
    CallInfo(0, 0, r.signal, r.cover, r.comps)
  }

  function Extras(rs: seq<Record>): seq<CallInfo> {
    if |rs| == 0 then []
    else
      var r := rs[|rs| - 1];
      Extras(rs[..|rs| - 1]) + if r.index == EXTRA then [ExtraOf(r)] else []
  }

  /** How many records are for call c. */
  function Count(rs: seq<Record>, c: nat): nat {
    if |rs| == 0 then 0 else Count(rs[..|rs| - 1], c) + if rs[|rs| - 1].index == c then 1 else 0
  }

  predicate Addressed(r: Record, nums: seq<Word>) {
    r.index != EXTRA ==> r.index < |nums| && r.num == nums[r.index]
  }

  /** Records for calls of the program, at most one for each. */
  predicate Acceptable(rs: seq<Record>, nums: seq<Word>) {
    && (forall i :: 0 <= i < |rs| ==> Addressed(rs[i], nums))
    && (forall c :: 0 <= c < |nums| && c != EXTRA ==> Count(rs, c) <= 1)
  }

  /** Every record is filed under its call, calls without one are blank, and extra records are kept in order. */
  predicate Filed(rs: seq<Record>, nums: seq<Word>, info: ProgInfo) {
    && |info.calls| == |nums|
    && (forall i :: 0 <= i < |rs| && rs[i].index != EXTRA ==>
          rs[i].index < |nums| && info.calls[rs[i].index] == InfoOf(rs[i]))
    && (forall c :: 0 <= c < |nums| && Count(rs, c) == 0 ==> info.calls[c] == Nothing())
    && info.extra == Extras(rs)
  }

  /** What the last record for call c says. */
  function Latest(rs: seq<Record>, c: nat): CallInfo {
    if |rs| == 0 then Nothing()
    else if rs[|rs| - 1].index == c && c != EXTRA then InfoOf(rs[|rs| - 1])
    else Latest(rs[..|rs| - 1], c)
  }

  function InfoFor(rs: seq<Record>, nums: seq<Word>): ProgInfo {
    ProgInfo(seq(|nums|, c requires 0 <= c < |nums| => Latest(rs, c)), Extras(rs))
  }

  /** A record that leaves its slot looking unused. */
  predicate Blank(r: Record) {
    r.flags == 0 && r.signal == []
  }

  /** Every record is for a call of the program and finds its slot unused. */
  predicate Fileable(rs: seq<Record>, nums: seq<Word>) {
    && (forall i :: 0 <= i < |rs| ==> Addressed(rs[i], nums))
    && (forall i, j :: 0 <= j < i < |rs| && rs[j].index == rs[i].index != EXTRA ==> Blank(rs[j]))
  }

  lemma {:induction false} CountMore(rs: seq<Record>, n: nat, c: nat)
    requires n < |rs|
    ensures Count(rs[..n + 1], c) == Count(rs[..n], c) + if rs[n].index == c then 1 else 0
    ensures Count(rs[..n + 1], c) <= Count(rs, c)
    decreases |rs| - n
  {
    assert rs[..n + 1][..n] == rs[..n];
    if n + 1 < |rs| {
      CountMore(rs, n + 1, c);
    } else {
      assert rs[..n + 1] == rs;
    }
  }

  lemma {:induction false} CountsEach(rs: seq<Record>, i: nat)
    requires i < |rs|
    ensures Count(rs, rs[i].index) > 0
  {
    if i < |rs| - 1 {
      CountsEach(rs[..|rs| - 1], i);
    }
  }

  /** Reading one record more than the first n. */
  lemma {:induction false} TakeMore(ws: seq<Word>, n: nat)
    ensures TakeRecords(ws, n + 1) ==
      match TakeRecords(ws, n)
      case Bad => Bad
      case Took(rs, rest) =>
        match TakeRecord(rest)
        case Bad => Bad
        case Took(r, rest') => Took(rs + [r], rest')
    decreases n
  {
    hide TakeRecord;
    if n == 0 {
      assert TakeRecord(ws).Took? ==> [TakeRecord(ws).value] + [] == [] + [TakeRecord(ws).value];
    } else if TakeRecord(ws).Took? {
      TakeMore(TakeRecord(ws).rest, n - 1);
      var first := TakeRecord(ws);
      match TakeRecords(first.rest, n - 1) {
        case Bad =>
        case Took(rs, rest) =>
          if TakeRecord(rest).Took? {
            assert [first.value] + (rs + [TakeRecord(rest).value]) == ([first.value] + rs) + [TakeRecord(rest).value];
          }
      }
    }
  }

  lemma {:induction false} TakenLength(ws: seq<Word>, n: nat)
    requires TakeRecords(ws, n).Took?
    ensures |TakeRecords(ws, n).value| == n
    decreases n
  {
    hide TakeRecord;
    if n > 0 {
      TakenLength(TakeRecord(ws).rest, n - 1);
    }
  }

  /** The first n of the records that are read are those read first. */
  lemma {:induction false} TakenPrefix(ws: seq<Word>, m: nat, n: nat)
    requires n <= m && TakeRecords(ws, m).Took?
    ensures |TakeRecords(ws, m).value| == m && TakeRecords(ws, n).Took?
            && TakeRecords(ws, m).value[..n] == TakeRecords(ws, n).value
    decreases m
  {
    hide TakeRecord, TakeRecords;
    TakenLength(ws, m);
    if n < m {
      TakeMore(ws, m - 1);
      TakenPrefix(ws, m - 1, n);
      TakenLength(ws, m - 1);
    }
  }

  /** Reads a region: it succeeds exactly when the counted records can be read, each is for a call of the
      program, and each finds its slot unused; and then the slots hold what the last records say. */
  method ParseOutput(out: seq<Word>, nums: seq<Word>) returns (r: Option<ProgInfo>)
    ensures r.Some? <==> |out| > 0 && TakeRecords(out[1..], out[0]).Took?
                         && Fileable(TakeRecords(out[1..], out[0]).value, nums)
    ensures r.Some? ==> r.value == InfoFor(TakeRecords(out[1..], out[0]).value, nums)
  {
    hide TakeRecord, TakeRecords, Fileable, Latest, Extras;
    if |out| == 0 {
      return None;
    }
    var n := out[0];
    ghost var all := TakeRecords(out[1..], n);
    var calls := seq(|nums|, i => Nothing());
    var extra: seq<CallInfo> := [];
    var rest, i := out[1..], 0;
    ghost var rs: seq<Record> := [];
    NoneFiled(nums);
    NoneTaken(out[1..]);
    while i < n
      invariant 0 <= i <= n && TakeRecords(out[1..], i) == Took(rs, rest) && |rs| == i
      invariant Fileable(rs, nums) && ProgInfo(calls, extra) == InfoFor(rs, nums)
    {
      TakeMore(out[1..], i);
      var t := TakeRecord(rest);
      if all.Took? {
        TakenPrefix(out[1..], n, i + 1);
      }
      if t.Bad? {
        return None;
      }
      var reply := t.value;
      FileMore(rs, reply, nums);
      if all.Took? && Fileable(all.value, nums) {
        assert rs + [reply] == all.value[..i + 1];
        FrontFileable(all.value, i + 1, nums);
      }
      if reply.index != EXTRA {
        if reply.index >= |nums| || reply.num != nums[reply.index] {
          return None;
        }
        var was := calls[reply.index];
        if was.flags != 0 || was.signal != [] {
          return None;
        }
        calls := calls[reply.index := InfoOf(reply)];
      } else {
        extra := extra + [ExtraOf(reply)];
      }
      rs, rest, i := rs + [reply], t.rest, i + 1;
    }
    return Some(ProgInfo(calls, extra));
  }

  lemma {:induction false} NoneTaken(ws: seq<Word>)
    ensures TakeRecords(ws, 0) == Took([], ws)
  {
  }

  lemma {:induction false} NoneFiled(nums: seq<Word>)
    ensures Fileable([], nums) && InfoFor([], nums) == ProgInfo(seq(|nums|, i => Nothing()), [])
  {
  }

  lemma {:induction false} FrontFileable(rs: seq<Record>, n: nat, nums: seq<Word>)
    requires n <= |rs| && Fileable(rs, nums)
    ensures Fileable(rs[..n], nums)
  {
    hide Addressed, Blank;
  }

  function File(info: ProgInfo, r: Record): ProgInfo
    requires r.index != EXTRA ==> r.index < |info.calls|
  {
    if r.index == EXTRA then info.(extra := info.extra + [ExtraOf(r)])
    else info.(calls := info.calls[r.index := InfoOf(r)])
  }

  /** One record more can be filed exactly when it is for a call whose slot is unused. */
  lemma {:induction false} FileMore(rs: seq<Record>, r: Record, nums: seq<Word>)
    requires Fileable(rs, nums)
    ensures Fileable(rs + [r], nums)
            <==> Addressed(r, nums) && (r.index != EXTRA ==>
              Latest(rs, r.index).flags == 0 && Latest(rs, r.index).signal == [])
    ensures Addressed(r, nums) ==> InfoFor(rs + [r], nums) == File(InfoFor(rs, nums), r)
  {
    var all := rs + [r];
    assert all[..|rs|] == rs && all[|rs|] == r;
    if r.index != EXTRA { LatestBlank(rs, r.index, nums); }
  }

  /** A slot looks unused exactly when every record filed there left it so. */
  lemma {:induction false} LatestBlank(rs: seq<Record>, c: nat, nums: seq<Word>)
    requires Fileable(rs, nums) && c != EXTRA
    ensures Latest(rs, c).flags == 0 && Latest(rs, c).signal == []
            <==> forall j :: 0 <= j < |rs| && rs[j].index == c ==> Blank(rs[j])
  {
    hide Addressed;
    if |rs| > 0 {
      FrontFileable(rs, |rs| - 1, nums);
      LatestBlank(rs[..|rs| - 1], c, nums);
    }
  }

  lemma {:induction false} FiledMore(rs: seq<Record>, r: Record, nums: seq<Word>, info: ProgInfo)
    requires Filed(rs, nums, info) && Addressed(r, nums) && (r.index != EXTRA ==> Count(rs, r.index) == 0)
    ensures Filed(rs + [r], nums, File(info, r))
  {
    hide Count;
    var all, info' := rs + [r], File(info, r);
    assert all[..|rs|] == rs && all[|rs|] == r;
    forall i | 0 <= i < |all| && all[i].index != EXTRA
      ensures all[i].index < |nums| && info'.calls[all[i].index] == InfoOf(all[i])
    {
      if i < |rs| { CountsEach(rs, i); }
    }
    forall c | 0 <= c < |nums| && Count(all, c) == 0
      ensures info'.calls[c] == Nothing()
    {
      CountMore(all, |rs|, c);
      assert all[..|rs| + 1] == all;
    }
  }

  /** With at most one record for each call, all can be filed and every one is kept. */
  lemma {:induction false} AcceptableFiled(rs: seq<Record>, nums: seq<Word>)
    requires Acceptable(rs, nums)
    ensures Fileable(rs, nums) && Filed(rs, nums, InfoFor(rs, nums))
    decreases |rs|
  {
    hide Filed, Fileable, Count, Addressed;
    if |rs| == 0 {
      NoneFiled(nums);
      NoneYet(nums);
    } else {
      var front, r := rs[..|rs| - 1], rs[|rs| - 1];
      assert front + [r] == rs && rs[..|rs|] == rs;
      forall c | 0 <= c < |nums| && c != EXTRA
        ensures Count(front, c) <= 1 && (r.index == c ==> Count(front, c) == 0)
      {
        CountMore(rs, |front|, c);
      }
      AcceptableFiled(front, nums);
      InProgram(r, nums);
      FiledMore(front, r, nums, InfoFor(front, nums));
      if r.index != EXTRA { UnusedYet(front, r.index, nums); }
      FileMore(front, r, nums);
    }
  }

  lemma {:induction false} InProgram(r: Record, nums: seq<Word>)
    requires Addressed(r, nums)
    ensures r.index != EXTRA ==> r.index < |nums|
  {
  }

  lemma {:induction false} NoneYet(nums: seq<Word>)
    ensures Filed([], nums, ProgInfo(seq(|nums|, i => Nothing()), []))
  {
  }

  lemma {:induction false} UnusedYet(rs: seq<Record>, c: nat, nums: seq<Word>)
    requires Count(rs, c) == 0 && c < |nums| && Filed(rs, nums, InfoFor(rs, nums))
    ensures Latest(rs, c) == Nothing()
  {
  }

  // ----- What a run of the executor leaves -----

  /** The record is for the call of the entry and says whether it finished. */
  predicate Says(r: Record, entry: Threads.Rec, nums: seq<Word>) {
    && r.index == entry.call && (r.index < |nums| ==> r.num == nums[r.index])
    && (r.flags / FINISHED % 2 == 1 <==> entry.finished) && (!entry.finished ==> r.errno == 999)
  }

  /** The records of a log in its order, with extra records anywhere between them. */
  predicate Renders(rs: seq<Record>, log: seq<Threads.Rec>, nums: seq<Word>) {
    if |rs| == 0 then |log| == 0
    else
      var r, rs' := rs[|rs| - 1], rs[..|rs| - 1];
      if r.index == EXTRA then Renders(rs', log, nums)
      else
        && |log| > 0 && Says(r, log[|log| - 1], nums)
        && Renders(rs', log[..|log| - 1], nums)
  }

  lemma {:induction false} RenderedCount(rs: seq<Record>, log: seq<Threads.Rec>, nums: seq<Word>, c: nat)
    requires Renders(rs, log, nums) && c != EXTRA
    ensures Count(rs, c) == Threads.Records(log, c)
  {
    if |rs| > 0 {
      var r, rs' := rs[|rs| - 1], rs[..|rs| - 1];
      RenderedCount(rs', if r.index == EXTRA then log else log[..|log| - 1], nums, c);
    }
  }

  lemma {:induction false} RenderedNum(rs: seq<Record>, log: seq<Threads.Rec>, nums: seq<Word>, i: nat)
    requires Renders(rs, log, nums) && i < |rs| && rs[i].index < |nums| <= EXTRA
    ensures rs[i].num == nums[rs[i].index]
  {
    var r, rs' := rs[|rs| - 1], rs[..|rs| - 1];
    if i < |rs'| {
      RenderedNum(rs', if r.index == EXTRA then log else log[..|log| - 1], nums, i);
    }
  }

  lemma {:induction false} RecordsFront(log: seq<Threads.Rec>, k: nat, c: nat)
    requires k <= |log|
    ensures Threads.Records(log[..k], c) <= Threads.Records(log, c)
    decreases |log|
  {
    if k == |log| {
      assert log[..k] == log;
    } else {
      assert log[..|log| - 1][..k] == log[..k];
      RecordsFront(log[..|log| - 1], k, c);
    }
  }

  /** No call has two records in the log, and none but the scheduled calls has any. */
  ghost predicate Once(log: seq<Threads.Rec>, scheduled: nat) {
    forall c: nat :: Threads.Records(log, c) <= if c < scheduled then 1 else 0
  }

  /** Whatever the interleaving, and wherever the run is cut off. */
  lemma {:induction false} RunOnce(threaded: bool, steps: seq<Threads.Action>, k: nat)
    requires Threads.Run(Threads.Init(threaded), steps).Some?
    requires k <= |Threads.Run(Threads.Init(threaded), steps).value.log|
    ensures var s := Threads.Run(Threads.Init(threaded), steps).value;
            Once(s.log[..k], s.scheduled)
  {
    hide Threads.Run, Threads.MainOk, Threads.ThreadOk, Threads.Records, Threads.Owing;
    Threads.InitInv(threaded);
    Threads.RunKeeps(Threads.Init(threaded), steps);
    var s := Threads.Run(Threads.Init(threaded), steps).value;
    forall c: nat
      ensures Threads.Records(s.log[..k], c) <= if c < s.scheduled then 1 else 0
    {
      RecordsFront(s.log, k, c);
    }
  }

  /** Records that render such a log are acceptable. */
  lemma {:induction false} OnceAcceptable(log: seq<Threads.Rec>, scheduled: nat, rs: seq<Record>, nums: seq<Word>)
    requires Once(log, scheduled) && scheduled <= |nums| <= EXTRA && Renders(rs, log, nums)
    ensures Acceptable(rs, nums)
  {
    hide Renders, Count, Threads.Records;
    forall c | 0 <= c < |nums| && c != EXTRA
      ensures Count(rs, c) <= 1
    {
      RenderedCount(rs, log, nums, c);
    }
    forall i | 0 <= i < |rs| && rs[i].index != EXTRA
      ensures Addressed(rs[i], nums)
    {
      CountsEach(rs, i);
      RenderedCount(rs, log, nums, rs[i].index);
      RenderedNum(rs, log, nums, i);
    }
  }

  /** The manager can read this copy of the region, and accepts what it reads. */
  predicate Readable(m: seq<Word>, nums: seq<Word>) {
    |m| > 0 && TakeRecords(m[1..], m[0]).Took? && Acceptable(TakeRecords(m[1..], m[0]).value, nums)
  }

  lemma {:induction false} SoundReadable(m: seq<Word>, rs: seq<Record>, nums: seq<Word>)
    requires Sound(m, rs) && Acceptable(rs, nums)
    ensures Readable(m, nums)
  {
    hide TakeRecords, Count;
    var n := m[0];
    forall c | 0 <= c < |nums| && c != EXTRA
      ensures Count(rs[..n], c) <= 1
    {
      if n == |rs| {
        assert rs[..n] == rs;
      } else {
        CountMore(rs, n, c);
      }
    }
  }

  // ----- Writing the records of a run -----

  /** Coverage that belongs to no call, at some moment of the run. */
  datatype Extra = Extra(collect: bool, size: nat, found: Found)

  /** What is known of a call when its record is written, and the extra coverage written before that. */
  datatype Report = Report(failed: bool, errno: Word, fault: bool, last: bool, found: Found, before: seq<Extra>)

  method WriteExtras(out: Region, extras: seq<Extra>, mode: Mode, ghost log: seq<Threads.Rec>, ghost nums: seq<Word>)
    returns (ok: bool)
    requires out.Valid() && out.Pending() == [] && Renders(out.published, log, nums)
    modifies out, out.words
    ensures out.Valid() && old(out.moments) <= out.moments && Renders(out.published, log, nums)
    ensures ok ==> out.Pending() == []
  {
    hide Renders, Written, Room, PutAll, AllSound, Fits;
    for i := 0 to |extras|
      invariant out.Valid() && out.Pending() == [] && old(out.moments) <= out.moments
      invariant Renders(out.published, log, nums)
    {
      var x := extras[i];
      ghost var rs := out.published;
      assert rs + [] == rs;
      ok := out.WriteExtraOutput(x.collect, x.size, mode, x.found);
      if ok && x.collect && !mode.comparisons && x.size > 0 {
        ghost var r := Written(EXTRA, EXTRA, 999, 0, mode, x.found);
        WrittenFor(EXTRA, EXTRA, 999, 0, mode, x.found);
        ExtraRendered(rs, r, log, nums);
      }
      if !ok {
        return;
      }
    }
    ok := true;
  }

  lemma {:induction false} ExtraRendered(rs: seq<Record>, r: Record, log: seq<Threads.Rec>, nums: seq<Word>)
    requires Renders(rs, log, nums) && r.index == EXTRA
    ensures Renders(rs + [r], log, nums)
  {
    assert (rs + [r])[..|rs|] == rs;
  }

  lemma {:induction false} CallRendered(rs: seq<Record>, r: Record, log: seq<Threads.Rec>, k: nat, nums: seq<Word>)
    requires k < |log| && Renders(rs, log[..k], nums)
    requires r.index != EXTRA && Says(r, log[k], nums)
    ensures Renders(rs + [r], log[..k + 1], nums)
  {
    assert (rs + [r])[..|rs|] == rs && log[..k + 1][..k] == log[..k];
  }

  /** Writes the record of the next entry of the log, after the extra records that come before it. */
  method WriteNext(out: Region, log: seq<Threads.Rec>, k: nat, nums: seq<Word>, r: Report, mode: Mode)
    returns (ok: bool)
    requires out.Valid() && out.Pending() == [] && k < |log| && Renders(out.published, log[..k], nums)
    requires log[k].call < |nums| <= EXTRA
    modifies out, out.words
    ensures out.Valid() && old(out.moments) <= out.moments
    ensures Renders(out.published, log[..if ok then k + 1 else k], nums)
    ensures ok ==> out.Pending() == []
  {
    hide Renders, Written, Room, PutAll, AllSound, Fits, Errno, Flags;
    ok := WriteExtras(out, r.before, mode, log[..k], nums);
    if !ok {
      return;
    }
    var c := log[k].call;
    var call := Call(c, nums[c], r.failed, r.errno, r.fault);
    ghost var rs, left := out.published, out.words.Length - out.pos;
    assert rs + [] == rs;
    ok := out.WriteCallOutput(call, log[k].finished, r.last, mode, r.found);
    if ok {
      ghost var errno, flags := Errno(call, log[k].finished), Flags(call, log[k].finished, r.last);
      RoomTypes(c, nums[c], errno, flags, mode, r.found, left);
      WrittenFor(c, nums[c], errno, flags, mode, r.found);
      FlagsSay(call, log[k].finished, r.last);
      CallRendered(rs, Written(c, nums[c], errno, flags, mode, r.found), log, k, nums);
    }
  }

  /** Writes a record for each entry of a run's log, with extra records between them as they come. The
      region has then rendered as much of the log as there was room for, and every copy of it, taken after
      any single store, is one that the manager reads and accepts. */
  method WriteRun(out: Region, log: seq<Threads.Rec>, nums: seq<Word>, reports: seq<Report>, mode: Mode,
                  ghost threaded: bool, ghost steps: seq<Threads.Action>)
    returns (ok: bool)
    requires Threads.Run(Threads.Init(threaded), steps).Some?
    requires var s := Threads.Run(Threads.Init(threaded), steps).value;
             log == s.log && s.scheduled <= |nums| <= EXTRA
    requires |reports| == |log| && out.Valid() && out.Pending() == [] && out.published == []
    modifies out, out.words
    ensures out.Valid() && old(out.moments) <= out.moments
    ensures exists k :: 0 <= k <= |log| && Renders(out.published, log[..k], nums) && (ok ==> k == |log|)
    ensures forall i :: 0 <= i < |out.moments| ==> Readable(out.moments[i], nums)
  {
    hide Renders, Threads.Run, Once, Readable, PutAll, AllSound, Fits;
    ghost var s := Threads.Run(Threads.Init(threaded), steps).value;
    NothingRendered(nums);
    RunOnce(threaded, steps, |log|);
    assert log[..0] == [];
    var k := 0;
    ok := true;
    while k < |log|
      invariant 0 <= k <= |log| && ok
      invariant out.Valid() && out.Pending() == [] && old(out.moments) <= out.moments
      invariant Renders(out.published, log[..k], nums)
    {
      ScheduledCall(log, k, s.scheduled);
      ok := WriteNext(out, log, k, nums, reports[k], mode);
      if !ok {
        break;
      }
      k := k + 1;
    }
    AllReadable(out, threaded, steps, k, nums);
  }

  lemma {:induction false} NothingRendered(nums: seq<Word>)
    ensures Renders([], [], nums)
  {
  }

  lemma {:induction false} WrittenFor(index: Word, num: Word, errno: Word, flags: Word, mode: Mode, found: Found)
    requires mode.comparisons ==> TypesOk(Kept(found.comps))
    ensures Written(index, num, errno, flags, mode, found).index == index
    ensures Written(index, num, errno, flags, mode, found).num == num
    ensures Written(index, num, errno, flags, mode, found).errno == errno
    ensures Written(index, num, errno, flags, mode, found).flags == flags
  {
  }

  lemma {:induction false} FlagsSay(call: Call, finished: bool, last: bool)
    ensures Flags(call, finished, last) / FINISHED % 2 == 1 <==> finished
    ensures !finished ==> Errno(call, finished) == 999
  {
  }

  lemma {:induction false} RoomTypes(index: Word, num: Word, errno: Word, flags: Word, mode: Mode, found: Found,
                                     left: int)
    requires Room(index, num, errno, flags, mode, found, left)
    ensures mode.comparisons ==> TypesOk(Kept(found.comps))
  {
  }

  lemma {:induction false} ScheduledCall(log: seq<Threads.Rec>, k: nat, scheduled: nat)
    requires k < |log| && Once(log[..|log|], scheduled)
    ensures log[k].call < scheduled
  {
    assert log[..|log|] == log;
    RecordsAt(log, k);
  }

  lemma {:induction false} RecordsAt(log: seq<Threads.Rec>, k: nat)
    requires k < |log|
    ensures Threads.Records(log, log[k].call) > 0
  {
    if k < |log| - 1 {
      RecordsAt(log[..|log| - 1], k);
    }
  }

  lemma {:induction false} AllReadable(out: Region, threaded: bool, steps: seq<Threads.Action>, k: nat, nums: seq<Word>)
    requires Threads.Run(Threads.Init(threaded), steps).Some? && out.Valid()
    requires var s := Threads.Run(Threads.Init(threaded), steps).value;
             k <= |s.log| && s.scheduled <= |nums| <= EXTRA && Renders(out.published, s.log[..k], nums)
    ensures forall i :: 0 <= i < |out.moments| ==> Readable(out.moments[i], nums)
  {
    hide Renders, Threads.Run, Once, Acceptable, Readable, Sound, PutAll, Fits;
    var s := Threads.Run(Threads.Init(threaded), steps).value;
    RunOnce(threaded, steps, k);
    OnceAcceptable(s.log[..k], s.scheduled, out.published, nums);
    forall i | 0 <= i < |out.moments|
      ensures Readable(out.moments[i], nums)
    {
      SoundReadable(out.moments[i], out.published, nums);
    }
  }
}
