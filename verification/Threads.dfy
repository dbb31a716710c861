/** The executor's main thread and its workers: every interleaving of the steps by
    which calls are handed out through the ready event and come back through done. */
module Threads {
  import opened Common

  const MAX_THREADS := 32

  /** Where a worker is in its loop: waiting for ready, woken but not yet past resetting it,
      executing the call, or about to set done. */
  datatype Worker = Absent | Waiting | Woken | Executing | Finishing

  /** owed is kept for the proof: the thread's call has no output record yet. */
  datatype Thread = Thread(created: bool, ready: bool, done: bool, executing: bool, call: nat, worker: Worker,
                           owed: bool)

  /** Where the main thread goes on once a completion is handled. */
  datatype Return = AfterScan | AfterWait | AfterPoll | AfterDrain | AfterDirect

  datatype Reason = OutOfThreads | BadThreadState | EventAlreadySet | NegativeRunning | NonMainThread

  /** Where the main thread is. Each value is one point between two accesses to shared state; with i past
      the last thread a loop is at its head, where the time is looked at. */
  datatype Main =
    | Idle
    | Scan(i: nat) | Check(i: nat) | Reset(i: nat) | Mark(i: nat) | Post(i: nat) | Count(i: nat)
    | Wait(i: nat) | Poll(i: nat)
    | Direct(i: nat) | DirectRun(i: nat)
    | Complete(i: nat, ret: Return) | Record(i: nat, ret: Return)
    | Clear(i: nat, ret: Return) | Uncount(i: nat, ret: Return)
    | Drain(i: nat) | Flush(i: nat) | End
    | Exit(why: Reason)

  datatype Rec = Rec(call: nat, finished: bool)

  datatype State = State(threaded: bool, threads: seq<Thread>, main: Main, running: int, scheduled: nat, async: bool,
                         log: seq<Rec>)

  /** The main thread takes a step, choosing among what the program, the clock or time-outs allow; or worker i does. */
  datatype Action = MainStep(choice: nat) | WorkerStep(i: nat)

  function Fresh(): Thread {
    Thread(false, false, false, false, 0, Absent, false)
  }

  function Init(threaded: bool): State {
    State(threaded, seq(MAX_THREADS, i => Fresh()), Idle, 0, 0, false, [])
  }

  function Resume(i: nat, ret: Return): Main {
    match ret
    case AfterScan => Check(i)
    case AfterWait => Poll(0)
    case AfterPoll => Poll(i + 1)
    case AfterDrain => Drain(i + 1)
    case AfterDirect => Idle
  }

  /** One step of the main thread through execute_one, schedule_call and handle_completion. */
  function MainNext(s: State, choice: nat): Option<State>
    requires |s.threads| == MAX_THREADS
  {
    match s.main
    case Idle =>
      if choice == 0 then Some(s.(main := Scan(0), async := false))
      else if choice == 1 then Some(s.(main := Scan(0), async := true))
      else Some(s.(main := if s.running > 0 then Drain(MAX_THREADS) else End))
    case Scan(i) =>
      if i >= MAX_THREADS then Some(s.(main := Exit(OutOfThreads)))
      else
        var t := s.threads[i];
        if !t.created then
          var w := if s.threaded then Waiting else Absent;
          var t' := t.(created := true, executing := false, ready := false, done := true, worker := w);
          Some(s.(threads := s.threads[i := t']))
        else if t.done then Some(s.(main := if t.executing then Complete(i, AfterScan) else Check(i)))
        else Some(s.(main := Scan(i + 1)))
    case Check(i) =>
      if i >= MAX_THREADS then None
      else
        var t := s.threads[i];
        Some(s.(main := if t.ready || !t.done || t.executing then Exit(BadThreadState) else Reset(i)))
    case Reset(i) =>
      if i >= MAX_THREADS then None
      else Some(s.(threads := s.threads[i := s.threads[i].(done := false)], main := Mark(i)))
    case Mark(i) =>
      if i >= MAX_THREADS then None
      else Some(s.(threads := s.threads[i := s.threads[i].(executing := true, call := s.scheduled, owed := true)],
                   scheduled := s.scheduled + 1, main := Post(i)))
    case Post(i) =>
      if i >= MAX_THREADS then None
      else if s.threads[i].ready then Some(s.(main := Exit(EventAlreadySet)))
      else Some(s.(threads := s.threads[i := s.threads[i].(ready := true)], main := Count(i)))
    case Count(i) =>
      Some(s.(running := s.running + 1,
              main := if s.threaded then (if s.async then Idle else Wait(i)) else Direct(i)))
    case Wait(i) =>
      if i >= MAX_THREADS then None
      else if s.threads[i].done then Some(s.(main := Complete(i, AfterWait)))
      else Some(s.(main := if choice == 0 then Poll(0) else s.main))
    case Poll(i) =>
      if i >= MAX_THREADS then Some(s.(main := Idle))
      else
        var t := s.threads[i];
        Some(s.(main := if t.executing && t.done then Complete(i, AfterPoll) else Poll(i + 1)))
    case Direct(i) =>
      if i != 0 then Some(s.(main := Exit(NonMainThread)))
      else Some(s.(threads := s.threads[i := s.threads[i].(ready := false)], main := DirectRun(i)))
    case DirectRun(i) =>
      if i >= MAX_THREADS then None
      else if s.threads[i].done then Some(s.(main := Exit(EventAlreadySet)))
      else Some(s.(threads := s.threads[i := s.threads[i].(done := true)], main := Complete(i, AfterDirect)))
    case Complete(i, ret) =>
      if i >= MAX_THREADS then None
      else
        var t := s.threads[i];
        Some(s.(main := if t.ready || !t.done || !t.executing then Exit(BadThreadState) else Record(i, ret)))
    case Record(i, ret) =>
      if i >= MAX_THREADS then None
      else
        var t := s.threads[i];
        Some(s.(threads := s.threads[i := t.(owed := false)], log := s.log + [Rec(t.call, true)],
                main := Clear(i, ret)))
    case Clear(i, ret) =>
      if i >= MAX_THREADS then None
      else Some(s.(threads := s.threads[i := s.threads[i].(executing := false)], main := Uncount(i, ret)))
    case Uncount(i, ret) =>
      Some(s.(running := s.running - 1, main := if s.running - 1 < 0 then Exit(NegativeRunning) else Resume(i, ret)))
    case Drain(i) =>
      if i >= MAX_THREADS then
        Some(s.(main := if s.running <= 0 then End else if choice == 0 then Drain(0) else Flush(0)))
      else
        var t := s.threads[i];
        Some(s.(main := if t.executing && t.done then Complete(i, AfterDrain) else Drain(i + 1)))
    case Flush(i) =>
      if i >= MAX_THREADS then Some(s.(main := End))
      else
        var t := s.threads[i];
        if t.executing then
          Some(s.(threads := s.threads[i := t.(owed := false)], log := s.log + [Rec(t.call, false)],
                  main := Flush(i + 1)))
        else Some(s.(main := Flush(i + 1)))
    case End => None
    case Exit(_) => None
  }

  /** One step of worker i through its loop. */
  function WorkerNext(s: State, i: nat): Option<State>
    requires |s.threads| == MAX_THREADS
  {
    if i >= MAX_THREADS || s.main.Exit? then None
    else
      var t := s.threads[i];
      match t.worker
      case Absent => None
      case Waiting => if t.ready then Some(s.(threads := s.threads[i := t.(worker := Woken)])) else None
      case Woken => Some(s.(threads := s.threads[i := t.(ready := false, worker := Executing)]))
      case Executing => Some(s.(threads := s.threads[i := t.(worker := Finishing)]))
      case Finishing =>
        if t.done then Some(s.(main := Exit(EventAlreadySet)))
        else Some(s.(threads := s.threads[i := t.(done := true, worker := Waiting)]))
  }

  function Next(s: State, a: Action): Option<State>
    requires |s.threads| == MAX_THREADS
  {
    match a
    case MainStep(choice) => MainNext(s, choice)
    case WorkerStep(i) => WorkerNext(s, i)
  }

  // ----- The invariant -----

  predicate Resting(t: Thread) { !t.ready && t.done && !t.executing && (t.worker == Waiting || t.worker == Absent) }
  predicate Posted(t: Thread) { t.ready && !t.done && t.executing && (t.worker == Waiting || t.worker == Woken) }
  predicate Running(t: Thread) {
    !t.ready && !t.done && t.executing && (t.worker == Executing || t.worker == Finishing)
  }
  predicate Returned(t: Thread) { !t.ready && t.done && t.executing && (t.worker == Waiting || t.worker == Absent) }

  /** A thread with a call that the main thread is not at work on. */
  predicate Busy(t: Thread) { Posted(t) || Running(t) || Returned(t) }

  /** What the main thread's position says about the thread it is at work on. */
  predicate AtWork(t: Thread, m: Main, threaded: bool) {
    match m
    case Check(_) => Resting(t)
    case Reset(_) => Resting(t)
    case Mark(_) => !t.ready && !t.done && !t.executing && (t.worker == Waiting || t.worker == Absent)
    case Post(_) => !t.ready && !t.done && t.executing && (t.worker == Waiting || t.worker == Absent)
    case Count(_) => if threaded then Busy(t) else t.ready && !t.done && t.executing
    case Wait(_) => threaded && Busy(t)
    case Direct(_) => !threaded && t.ready && !t.done && t.executing
    case DirectRun(_) => !threaded && !t.ready && !t.done && t.executing
    case Complete(_, ret) => Returned(t) && (threaded <==> ret != AfterDirect)
    case Record(_, ret) => Returned(t) && (threaded <==> ret != AfterDirect)
    case Clear(_, ret) => Returned(t) && (threaded <==> ret != AfterDirect)
    case Uncount(_, ret) => Resting(t) && (threaded <==> ret != AfterDirect)
    case _ => true
  }

  /** The thread the main thread is at work on. */
  function Subject(m: Main): Option<nat> {
    match m
    case Check(i) => Some(i)
    case Reset(i) => Some(i)
    case Mark(i) => Some(i)
    case Post(i) => Some(i)
    case Count(i) => Some(i)
    case Wait(i) => Some(i)
    case Direct(i) => Some(i)
    case DirectRun(i) => Some(i)
    case Complete(i, _) => Some(i)
    case Record(i, _) => Some(i)
    case Clear(i, _) => Some(i)
    case Uncount(i, _) => Some(i)
    case _ => None
  }

  /** A record is owed for every call in flight, until it is written. */
  predicate Owes(t: Thread, i: nat, m: Main) {
    t.owed == (t.executing && !(m.Clear? && m.i == i) && !(m.Flush? && i < m.i) && !m.End?)
  }

  predicate ThreadOk(s: State, i: nat)
    requires i < |s.threads|
  {
    var t := s.threads[i];
    && Owes(t, i, s.main)
    && if !t.created then t == Fresh() && Subject(s.main) != Some(i)
       else
         && (t.worker == Absent <==> !s.threaded)
         && if Subject(s.main) == Some(i) then AtWork(t, s.main, s.threaded) else Resting(t) || (s.threaded && Busy(t))
  }

  function Executions(ts: seq<Thread>): nat {
    if |ts| == 0 then 0 else Executions(ts[..|ts| - 1]) + if ts[|ts| - 1].executing then 1 else 0
  }

  /** How many threads owe a record for call c. */
  function Owing(ts: seq<Thread>, c: nat): nat {
    if |ts| == 0 then 0 else Owing(ts[..|ts| - 1], c) + Owe(ts[|ts| - 1], c)
  }

  function Owe(t: Thread, c: nat): nat {
    if t.owed && t.call == c then 1 else 0
  }

  /** How many records call c has. */
  function Records(log: seq<Rec>, c: nat): nat {
    if |log| == 0 then 0 else Records(log[..|log| - 1], c) + if log[|log| - 1].call == c then 1 else 0
  }

  /** How far the counter is from the number of executing threads, between the two updates. */
  function Lag(m: Main): int {
    if m.Post? || m.Count? then -1 else if m.Uncount? then 1 else 0
  }

  /** The only way out is running out of threads, and without workers only the first thread is used. */
  predicate MainOk(s: State) {
    && (s.main.Exit? ==> s.main.why == OutOfThreads && s.threaded)
    && (Subject(s.main).Some? ==> Subject(s.main).value < MAX_THREADS)
    && (!s.threaded ==> (s.main.Scan? ==> s.main.i == 0) && (Subject(s.main).Some? ==> Subject(s.main).value == 0))
  }

  predicate Shape(s: State) {
    && |s.threads| == MAX_THREADS
    && MainOk(s)
    && (forall i :: 0 <= i < MAX_THREADS ==> ThreadOk(s, i))
  }

  predicate Counted(s: State) {
    s.running == Executions(s.threads) + Lag(s.main)
  }

  /** Every scheduled call has a record or is owed one, and never both or two. */
  ghost predicate Accounted(s: State) {
    forall c: nat :: Records(s.log, c) + Owing(s.threads, c) == if c < s.scheduled then 1 else 0
  }

  ghost predicate Inv(s: State) {
    Shape(s) && Counted(s) && Accounted(s)
  }

  // ----- Counting under an update -----

  lemma {:induction false} ExecutionsUpdate(ts: seq<Thread>, i: nat, t: Thread)
    requires i < |ts|
    ensures Executions(ts[i := t]) + (if ts[i].executing then 1 else 0)
            == Executions(ts) + (if t.executing then 1 else 0)
  {
    var n := |ts| - 1;
    if i == n {
      assert ts[i := t][..n] == ts[..n];
    } else {
      assert ts[i := t][..n] == ts[..n][i := t];
      ExecutionsUpdate(ts[..n], i, t);
    }
  }

  lemma {:induction false} OwingUpdate(ts: seq<Thread>, i: nat, t: Thread, c: nat)
    requires i < |ts|
    ensures Owing(ts[i := t], c) + Owe(ts[i], c) == Owing(ts, c) + Owe(t, c)
  {
    var n := |ts| - 1;
    if i == n {
      assert ts[i := t][..n] == ts[..n];
    } else {
      assert ts[i := t][..n] == ts[..n][i := t];
      OwingUpdate(ts[..n], i, t, c);
    }
  }

  lemma {:induction false} RecordsSnoc(log: seq<Rec>, r: Rec, c: nat)
    ensures Records(log + [r], c) == Records(log, c) + if r.call == c then 1 else 0
  {
    assert (log + [r])[..|log|] == log;
  }

  lemma {:induction false} NoneExecuting(ts: seq<Thread>, c: nat)
    requires forall i :: 0 <= i < |ts| ==> !ts[i].executing && !ts[i].owed
    ensures Executions(ts) == 0 && Owing(ts, c) == 0
  {
    if |ts| > 0 {
      NoneExecuting(ts[..|ts| - 1], c);
    }
  }

  /** A thread that executes is counted. */
  lemma {:induction false} CountsEach(ts: seq<Thread>, i: nat)
    requires i < |ts| && ts[i].executing
    ensures Executions(ts) > 0
  {
    var n := |ts| - 1;
    if i < n {
      CountsEach(ts[..n], i);
    }
  }

  lemma {:induction false} InitInv(threaded: bool)
    ensures Inv(Init(threaded))
  {
    NoneExecuting(Init(threaded).threads, 0);
    forall c: nat
      ensures Owing(Init(threaded).threads, c) == 0
    {
      NoneExecuting(Init(threaded).threads, c);
    }
  }

  // ----- Every step keeps the invariant -----

  lemma {:induction false} KeepsCount(s: State, s': State, i: nat)
    requires Counted(s) && i < |s.threads| == |s'.threads| && s'.threads == s.threads[i := s'.threads[i]]
    requires s'.running - Lag(s'.main) - (if s'.threads[i].executing then 1 else 0)
          == s.running - Lag(s.main) - (if s.threads[i].executing then 1 else 0)
    ensures Counted(s')
  {
    ExecutionsUpdate(s.threads, i, s'.threads[i]);
  }

  /** The three ways the account moves: not at all, a new call owed, a record written. */
  predicate Moves(s: State, s': State, i: nat)
    requires i < |s.threads| == |s'.threads|
  {
    var t, t' := s.threads[i], s'.threads[i];
    || (s'.log == s.log && s'.scheduled == s.scheduled && t'.owed == t.owed && t'.call == t.call)
    || (s'.log == s.log && s'.scheduled == s.scheduled + 1 && !t.owed && t'.owed && t'.call == s.scheduled)
    || (s'.scheduled == s.scheduled && t.owed && !t'.owed && exists done :: s'.log == s.log + [Rec(t.call, done)])
  }

  lemma {:induction false} KeepsAccount(s: State, s': State, i: nat)
    requires Accounted(s) && i < |s.threads| == |s'.threads| && s'.threads == s.threads[i := s'.threads[i]]
    requires Moves(s, s', i)
    ensures Accounted(s')
  {
    forall c: nat
      ensures Records(s'.log, c) + Owing(s'.threads, c) == if c < s'.scheduled then 1 else 0
    {
      OwingUpdate(s.threads, i, s'.threads[i], c);
      if s'.log != s.log {
        var done :| s'.log == s.log + [Rec(s.threads[i].call, done)];
        RecordsSnoc(s.log, Rec(s.threads[i].call, done), c);
      }
    }
  }

  /** A step that leaves thread j alone, and moves the main thread neither to nor from it. */
  lemma {:induction false} Bystander(s: State, s': State, j: nat)
    requires |s.threads| == |s'.threads| == MAX_THREADS && j < MAX_THREADS && ThreadOk(s, j)
    requires s'.threads[j] == s.threads[j] && s'.threaded == s.threaded
    requires Subject(s.main) != Some(j) && Subject(s'.main) != Some(j)
    requires s'.main.End? ==> !s.threads[j].owed
    requires !s.main.End? && (s.main.Flush? && j < s.main.i <==> s'.main.Flush? && j < s'.main.i)
    ensures ThreadOk(s', j)
  {
  }

  /** What is left to show of a step that touches only thread i. */
  lemma {:induction false} Touched(s: State, s': State, i: nat)
    requires Inv(s) && i < MAX_THREADS && |s'.threads| == MAX_THREADS && s'.threads == s.threads[i := s'.threads[i]]
    requires s'.threaded == s.threaded && MainOk(s') && ThreadOk(s', i) && !s.main.End? && !s'.main.End?
    requires Subject(s.main) == None || Subject(s.main) == Some(i)
    requires Subject(s'.main) == None || Subject(s'.main) == Some(i)
    requires s.main.Flush? <==> s'.main.Flush?
    requires s.main.Flush? ==> s.main.i == i && s'.main.i == i + 1
    requires s'.running - Lag(s'.main) - (if s'.threads[i].executing then 1 else 0)
          == s.running - Lag(s.main) - (if s.threads[i].executing then 1 else 0)
    requires Moves(s, s', i)
    ensures Inv(s')
  {
    hide Accounted, Counted, Moves, MainOk, ThreadOk;
    forall j | 0 <= j < MAX_THREADS && j != i
      ensures ThreadOk(s', j)
    {
      Bystander(s, s', j);
    }
    KeepsCount(s, s', i);
    KeepsAccount(s, s', i);
  }

  lemma {:induction false} WorkerKeeps(s: State, i: nat)
    requires Inv(s) && WorkerNext(s, i).Some?
    ensures Inv(WorkerNext(s, i).value)
  {
    hide Accounted, Counted;
    var s' := WorkerNext(s, i).value;
    assert ThreadOk(s, i);
    forall j | 0 <= j < MAX_THREADS && j != i
      ensures ThreadOk(s', j)
    {
      assert ThreadOk(s, j);
    }
    KeepsCount(s, s', i);
    KeepsAccount(s, s', i);
  }

  lemma {:induction false} SchedulingKeeps(s: State, choice: nat)
    requires Inv(s) && MainNext(s, choice).Some? && (s.main.Check? || s.main.Reset? || s.main.Mark?)
    ensures Inv(MainNext(s, choice).value)
  {
    hide Accounted, Counted;
    assert ThreadOk(s, s.main.i);
    Touched(s, MainNext(s, choice).value, s.main.i);
  }

  lemma {:induction false} PostingKeeps(s: State, choice: nat)
    requires Inv(s) && MainNext(s, choice).Some? && (s.main.Post? || s.main.Count? || s.main.Wait?)
    ensures Inv(MainNext(s, choice).value)
  {
    hide Accounted, Counted;
    assert ThreadOk(s, s.main.i);
    Touched(s, MainNext(s, choice).value, s.main.i);
  }

  lemma {:induction false} CompletionKeeps(s: State, choice: nat)
    requires Inv(s) && MainNext(s, choice).Some?
    requires s.main.Direct? || s.main.DirectRun? || s.main.Complete? || s.main.Record? || s.main.Clear?
    ensures Inv(MainNext(s, choice).value)
  {
    hide Accounted, Counted;
    assert ThreadOk(s, s.main.i);
    Touched(s, MainNext(s, choice).value, s.main.i);
  }

  lemma {:induction false} UncountKeeps(s: State, choice: nat)
    requires Inv(s) && s.main.Uncount?
    ensures Inv(MainNext(s, choice).value)
  {
    hide Accounted;
    assert ThreadOk(s, s.main.i);
    Touched(s, MainNext(s, choice).value, s.main.i);
  }

  lemma {:induction false} ScanningKeeps(s: State, choice: nat)
    requires Inv(s) && (s.main.Scan? || s.main.Poll? || s.main.Drain? || s.main.Flush?) && s.main.i < MAX_THREADS
    ensures Inv(MainNext(s, choice).value)
  {
    hide Accounted, Counted;
    assert ThreadOk(s, s.main.i);
    Touched(s, MainNext(s, choice).value, s.main.i);
  }

  /** With no thread executing, no record is owed, so stopping is sound. */
  lemma {:induction false} StoppingKeeps(s: State, s': State)
    requires Inv(s) && !s.main.End? && !s.main.Flush? && s' == s.(main := End)
    requires Subject(s.main) == None && s.running <= 0
    ensures Inv(s')
  {
    hide Accounted;
    forall j | 0 <= j < MAX_THREADS
      ensures ThreadOk(s', j)
    {
      if s.threads[j].executing {
        CountsEach(s.threads, j);
        assert false;
      }
      assert ThreadOk(s, j);
      Bystander(s, s', j);
    }
    KeepsAccount(s, s', 0);
  }

  /** The main thread moves on, with no thread in hand before or after. */
  lemma {:induction false} Unconcerned(s: State, s': State)
    requires Shape(s) && |s'.threads| == MAX_THREADS && s'.threads == s.threads && s'.threaded == s.threaded
             && MainOk(s')
    requires Subject(s.main) == None && Subject(s'.main) == None && !s.main.End? && !s'.main.End? && !s.main.Flush?
    requires s'.main.Flush? ==> s'.main.i == 0
    ensures Shape(s')
  {
    hide MainOk;
    forall j | 0 <= j < MAX_THREADS
      ensures ThreadOk(s', j)
    {
      assert ThreadOk(s, j);
      Bystander(s, s', j);
    }
  }

  /** The steps between loops: from one call to the next, from a scan's end on, and to the end. */
  lemma {:induction false} TurningKeeps(s: State, choice: nat)
    requires Inv(s) && MainNext(s, choice).Some?
    requires s.main.Idle? || ((s.main.Scan? || s.main.Poll? || s.main.Drain? || s.main.Flush?)
             && s.main.i >= MAX_THREADS)
    ensures Inv(MainNext(s, choice).value)
  {
    hide Accounted, Counted;
    var s' := MainNext(s, choice).value;
    if s'.main.End? && !s.main.Flush? {
      StoppingKeeps(s, s');
    } else if !s'.main.End? {
      hide ThreadOk;
      Unconcerned(s, s');
      KeepsCount(s, s', 0);
      KeepsAccount(s, s', 0);
    } else {
      forall j | 0 <= j < MAX_THREADS
        ensures ThreadOk(s', j)
      {
        assert ThreadOk(s, j);
      }
      KeepsCount(s, s', 0);
      KeepsAccount(s, s', 0);
    }
  }

  lemma {:induction false} StepKeeps(s: State, a: Action)
    requires Inv(s) && Next(s, a).Some?
    ensures Inv(Next(s, a).value)
  {
    hide MainOk, ThreadOk, Counted, Accounted, WorkerNext, MainNext;
    if a.WorkerStep? {
      WorkerKeeps(s, a.i);
    } else if s.main.Uncount? {
      UncountKeeps(s, a.choice);
    } else if s.main.Direct? || s.main.DirectRun? || s.main.Complete? || s.main.Record? || s.main.Clear? {
      CompletionKeeps(s, a.choice);
    } else if s.main.Check? || s.main.Reset? || s.main.Mark? {
      SchedulingKeeps(s, a.choice);
    } else if s.main.Post? || s.main.Count? || s.main.Wait? {
      PostingKeeps(s, a.choice);
    } else if (s.main.Scan? || s.main.Poll? || s.main.Drain? || s.main.Flush?) && s.main.i < MAX_THREADS {
      ScanningKeeps(s, a.choice);
    } else {
      Moving(s, a.choice);
      TurningKeeps(s, a.choice);
    }
  }

  lemma {:induction false} Moving(s: State, choice: nat)
    requires |s.threads| == MAX_THREADS && MainNext(s, choice).Some?
    ensures !s.main.End? && !s.main.Exit?
  {
  }

  // ----- Whole runs -----

  /** The state after the given interleaving, if each of its steps is possible. */
  function Run(s: State, steps: seq<Action>): (r: Option<State>)
    requires |s.threads| == MAX_THREADS
    ensures r.Some? ==> |r.value.threads| == MAX_THREADS
    decreases |steps|
  {
    if |steps| == 0 then Some(s)
    else
      match Next(s, steps[0])
      case None => None
      case Some(s') => Run(s', steps[1..])
  }

  lemma {:induction false} RunKeeps(s: State, steps: seq<Action>)
    requires Inv(s) && Run(s, steps).Some?
    ensures Inv(Run(s, steps).value)
    decreases |steps|
  {
    hide MainOk, ThreadOk, Counted, Accounted, Next;
    if |steps| > 0 {
      StepKeeps(s, steps[0]);
      RunKeeps(Next(s, steps[0]).value, steps[1..]);
    }
  }

  /** A thread is at rest, posted, at work or back; it has none of the three flags set only before it
      is created and while the main thread is between resetting done and marking it executing. */
  predicate Legal(s: State, i: nat)
    requires i < |s.threads|
  {
    var t := s.threads[i];
    && (t.ready ==> !t.done && t.executing)
    && (!t.ready && !t.done && !t.executing ==> !t.created || s.main == Mark(i))
    && (!t.created ==> !t.ready && !t.done && !t.executing)
  }

  /** Whatever the interleaving, running counts the executing threads (the main thread being one step
      behind just after it sets or clears executing), every thread is in a legal state, no event is set
      twice, and the only exit is for want of a free thread. */
  lemma {:induction false} Safety(threaded: bool, steps: seq<Action>)
    requires Run(Init(threaded), steps).Some?
    ensures var s := Run(Init(threaded), steps).value;
      && (s.main.Exit? ==> s.main.why == OutOfThreads)
      && s.running == Executions(s.threads) + Lag(s.main)
      && s.running >= 0
      && forall i :: 0 <= i < MAX_THREADS ==> Legal(s, i)
  {
    InitInv(threaded);
    RunKeeps(Init(threaded), steps);
    var s := Run(Init(threaded), steps).value;
    forall i | 0 <= i < MAX_THREADS
      ensures Legal(s, i)
    {
      assert ThreadOk(s, i);
    }
    if Lag(s.main) < 0 {
      assert ThreadOk(s, s.main.i);
      CountsEach(s.threads, s.main.i);
    }
  }

  /** In every run to the end, each scheduled call has exactly one record and there are no others. */
  lemma {:induction false} OneRecordEach(threaded: bool, steps: seq<Action>, c: nat)
    requires Run(Init(threaded), steps).Some? && Run(Init(threaded), steps).value.main == End
    ensures var s := Run(Init(threaded), steps).value;
      Records(s.log, c) == if c < s.scheduled then 1 else 0
  {
    InitInv(threaded);
    RunKeeps(Init(threaded), steps);
    var s := Run(Init(threaded), steps).value;
    NoneOwed(s, c);
  }

  lemma {:induction false} NoneOwed(s: State, c: nat)
    requires Shape(s) && s.main == End
    ensures Owing(s.threads, c) == 0
  {
    forall i | 0 <= i < MAX_THREADS
      ensures !s.threads[i].owed
    {
      assert ThreadOk(s, i);
    }
    NothingOwing(s.threads, c);
  }

  lemma {:induction false} NothingOwing(ts: seq<Thread>, c: nat)
    requires forall i :: 0 <= i < |ts| ==> !ts[i].owed
    ensures Owing(ts, c) == 0
  {
    if |ts| > 0 {
      NothingOwing(ts[..|ts| - 1], c);
    }
  }

  // ----- Which records are unfinished -----

  predicate Flushed(m: Main, i: nat) {
    m.End? || (m.Flush? && i < m.i)
  }

  predicate Cut(s: State, r: Rec) {
    exists i :: 0 <= i < |s.threads| && Flushed(s.main, i) && s.threads[i].executing && s.threads[i].call == r.call
  }

  /** Records are marked unfinished for the threads still executing when time is up, and for no others. */
  predicate Marked(s: State) {
    && (forall r :: r in s.log && !r.finished ==> Cut(s, r))
    && (forall i :: 0 <= i < |s.threads| && Flushed(s.main, i) && s.threads[i].executing ==>
      Rec(s.threads[i].call, false) in s.log)
  }

  lemma {:induction false} WorkerMarks(s: State, i: nat)
    requires Shape(s) && Marked(s) && WorkerNext(s, i).Some?
    ensures Marked(WorkerNext(s, i).value)
  {
    var s' := WorkerNext(s, i).value;
    assert ThreadOk(s, i);
    assert forall j :: 0 <= j < |s.threads| ==>
           s'.threads[j].executing == s.threads[j].executing && s'.threads[j].call == s.threads[j].call;
    forall r | r in s'.log && !r.finished
      ensures Cut(s', r)
    {
      assert Cut(s, r);
      var j :| 0 <= j < |s.threads| && Flushed(s.main, j) && s.threads[j].executing && s.threads[j].call == r.call;
      assert Flushed(s'.main, j);
    }
  }

  lemma {:induction false} FlushMarks(s: State, choice: nat)
    requires Shape(s) && Marked(s) && s.main.Flush?
    ensures Marked(MainNext(s, choice).value)
  {
    var s' := MainNext(s, choice).value;
    assert forall j :: 0 <= j < |s.threads| ==>
           s'.threads[j].executing == s.threads[j].executing && s'.threads[j].call == s.threads[j].call;
    forall r | r in s'.log && !r.finished
      ensures Cut(s', r)
    {
      if r in s.log {
        assert Cut(s, r);
        var j :| 0 <= j < |s.threads| && Flushed(s.main, j) && s.threads[j].executing && s.threads[j].call == r.call;
        assert Flushed(s'.main, j);
      } else {
        assert Flushed(s'.main, s.main.i);
      }
    }
  }

  lemma {:induction false} EarlierStep(s: State, choice: nat)
    requires |s.threads| == MAX_THREADS && MainNext(s, choice).Some? && !s.main.Flush?
    ensures var s' := MainNext(s, choice).value;
      && (s'.log == s.log || (exists c :: s'.log == s.log + [Rec(c, true)]))
      && (s'.main.Flush? ==> s'.main.i == 0)
      && (s'.main.End? ==> s'.threads == s.threads && s.running <= 0 && Lag(s.main) == 0)
      && !s.main.End?
  {
    if s.main.Record? && s.main.i < MAX_THREADS {
      assert MainNext(s, choice).value.log == s.log + [Rec(s.threads[s.main.i].call, true)];
    }
  }

  /** Until time is up every record is of a finished call. */
  lemma {:induction false} EarlierMarks(s: State, choice: nat)
    requires Inv(s) && Marked(s) && MainNext(s, choice).Some? && !s.main.Flush?
    ensures Marked(MainNext(s, choice).value)
  {
    hide ThreadOk, Accounted, MainNext;
    EarlierStep(s, choice);
    var s' := MainNext(s, choice).value;
    forall r | r in s.log
      ensures r.finished
    {
      assert !Cut(s, r);
    }
    forall i | 0 <= i < |s'.threads| && Flushed(s'.main, i)
      ensures !s'.threads[i].executing
    {
      if s.threads[i].executing {
        CountsEach(s.threads, i);
      }
    }
  }

  lemma {:induction false} RunMarks(s: State, steps: seq<Action>)
    requires Inv(s) && Marked(s) && Run(s, steps).Some?
    ensures Marked(Run(s, steps).value)
    decreases |steps|
  {
    hide MainOk, ThreadOk, Counted, Accounted, Marked, WorkerNext, MainNext;
    if |steps| > 0 {
      var a := steps[0];
      if a.WorkerStep? {
        WorkerMarks(s, a.i);
      } else if s.main.Flush? {
        FlushMarks(s, a.choice);
      } else {
        EarlierMarks(s, a.choice);
      }
      StepKeeps(s, a);
      RunMarks(Next(s, a).value, steps[1..]);
    }
  }

  /** In every run to the end, a call's record says unfinished exactly when its thread was still executing. */
  lemma {:induction false} UnfinishedExactly(threaded: bool, steps: seq<Action>, c: nat)
    requires Run(Init(threaded), steps).Some? && Run(Init(threaded), steps).value.main == End
    ensures var s := Run(Init(threaded), steps).value;
      Rec(c, false) in s.log <==> exists i :: 0 <= i < MAX_THREADS && s.threads[i].executing && s.threads[i].call == c
  {
    InitInv(threaded);
    RunMarks(Init(threaded), steps);
    var s := Run(Init(threaded), steps).value;
    assert Rec(c, false) in s.log ==> Cut(s, Rec(c, false));
  }
}
