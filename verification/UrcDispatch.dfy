/**
 Command and dispatch mutexes between threads.  Any number of threads handle
 received data and run commands; whoever finishes dispatches queued URCs, and a
 URC callback may run commands of its own.  A schedule is any list of steps.
 */
module UrcDispatch {
  import opened Bytes
  import R = UrcRing
  import opened AtReceiver

  type Entry = R.Entry

  datatype Task = HandleRx | Command

  /**
   Where a call stands: waiting for the command mutex, holding it, about to try the dispatch mutex,
   holding that one and looking at the queue, giving it up, in the callback, dropping the entry
   after it, and about to return.
   */
  datatype Place =
    | Want
    | Hold
    | Process
    | Look
    | Leave
    | Callback(entry: Entry)
    | Dropping
    | Return

  /** own is the status of a command at the moment it gave up the command mutex. */
  datatype Frame = Frame(task: Task, place: Place, own: int)

  datatype Result = Result(own: int, returned: int)

  datatype State = State(
    stacks: seq<seq<Frame>>,       // the calls of each thread, the outermost first
    cmd: Option<nat>,              // who holds the command mutex
    deq: Option<nat>,              // who holds the dispatch mutex
    executing: bool,
    receiving: bool,               // an entry is being received: pEnqueueEntry is set
    status: int,
    fifo: seq<Entry>,
    accepted: seq<Entry>,          // every URC ever queued
    called: seq<Entry>,            // every URC a callback was called for
    results: seq<Result>)          // what each finished command returned

  datatype Step =
    | Begin(t: nat, task: Task)
    | Lock(t: nat)
    | OpenEntry(t: nat)
    | CloseEntry(t: nat, accept: Option<Entry>)
    | SetStatus(t: nat, code: int)
    | Unlock(t: nat, process: bool)
    | TryLock(t: nat)
    | Check(t: nat)
    | GiveUp(t: nat)
    | CallbackReturns(t: nat)
    | Release(t: nat)
    | Finish(t: nat)

  function Init(threads: nat): State {
    State(seq(threads, i => []), None, None, false, false, 0, [], [], [], [])
  }

  // ----- the steps -----

  function Top(s: State, t: nat): (f: Frame)
    requires t < |s.stacks| && s.stacks[t] != []
  {
    s.stacks[t][|s.stacks[t]| - 1]
  }

  predicate At(s: State, t: nat, p: Place) {
    t < |s.stacks| && s.stacks[t] != [] && Top(s, t).place == p
  }

  predicate InCallback(s: State, t: nat) {
    t < |s.stacks| && s.stacks[t] != [] && Top(s, t).place.Callback?
  }

  function ReplaceTop(k: seq<Frame>, f: Frame): (r: seq<Frame>)
    requires k != []
    ensures |r| == |k| && r[|k| - 1] == f && forall i :: 0 <= i < |k| - 1 ==> r[i] == k[i]
    ensures |k| == 1 ==> r == [f]
    ensures |k| == 2 ==> r == [k[0], f]
  {
    k[..|k| - 1] + [f]
  }

  /** The innermost call of a thread moves on. */
  function Move(s: State, t: nat, f: Frame): State
    requires t < |s.stacks| && s.stacks[t] != []
  {
    s.(stacks := s.stacks[t := ReplaceTop(s.stacks[t], f)])
  }

  function Go(s: State, t: nat, p: Place): State
    requires t < |s.stacks| && s.stacks[t] != []
  {
    Move(s, t, Top(s, t).(place := p))
  }

  function Pop(s: State, t: nat): State
    requires t < |s.stacks| && s.stacks[t] != []
  {
    s.(stacks := s.stacks[t := s.stacks[t][..|s.stacks[t]| - 1]])
  }

  /** A call may begin on an idle thread or inside a callback; the rest is what the code does next. */
  predicate Enabled(s: State, step: Step) {
    match step
    case Begin(t, _) => t < |s.stacks| && (s.stacks[t] == [] || InCallback(s, t))
    case Lock(t) => At(s, t, Want) && s.cmd.None?
    case OpenEntry(t) => At(s, t, Hold) && !s.receiving
    case CloseEntry(t, _) => At(s, t, Hold) && s.receiving
    case SetStatus(t, code) => At(s, t, Hold) && code != NO_STATUS
    case Unlock(t, process) =>
      && At(s, t, Hold)
      && (Top(s, t).task == Command ==> process && s.status != NO_STATUS)
      && (Top(s, t).task == HandleRx && s.receiving ==> !process)
    case TryLock(t) => At(s, t, Process)
    case Check(t) => At(s, t, Look)
    case GiveUp(t) => At(s, t, Leave)
    case CallbackReturns(t) => InCallback(s, t)
    case Release(t) => At(s, t, Dropping)
    case Finish(t) => At(s, t, Return)
  }

  function Next(s: State, step: Step): State
    requires Enabled(s, step)
  {
    match step
    case Begin(t, task) => s.(stacks := s.stacks[t := s.stacks[t] + [Frame(task, Want, NO_STATUS)]])
    case Lock(t) =>
      var r := Go(s, t, Hold).(cmd := Some(t));
      if Top(s, t).task == Command then r.(executing := true, status := NO_STATUS) else r
    case OpenEntry(t) => s.(receiving := true)
    case CloseEntry(t, accept) =>
      if accept.Some?
      then s.(receiving := false, fifo := s.fifo + [accept.value], accepted := s.accepted + [accept.value])
      else s.(receiving := false)
    case SetStatus(t, code) => s.(status := code)
    case Unlock(t, process) =>
      var f := Top(s, t).(place := if process then Process else Return, own := s.status);
      Move(s, t, f).(cmd := None, executing := false)
    case TryLock(t) => if s.deq.None? then Go(s, t, Look).(deq := Some(t)) else Go(s, t, Return)
    case Check(t) =>
      if s.fifo != [] && !s.receiving
      then Go(s, t, Callback(s.fifo[0])).(called := s.called + [s.fifo[0]])
      else Go(s, t, Leave)
    case GiveUp(t) => Go(s, t, Return).(deq := None)
    case CallbackReturns(t) => Go(s, t, Dropping).(fifo := if s.fifo == [] then [] else s.fifo[1..])
    case Release(t) => Go(s, t, Process).(deq := None)
    case Finish(t) =>
      var r := Pop(s, t);
      if Top(s, t).task == Command then r.(results := s.results + [Result(Top(s, t).own, s.status)]) else r
  }

  predicate Legal(s: State, run: seq<Step>)
    decreases |run|
  {
    run == [] || (Enabled(s, run[0]) && Legal(Next(s, run[0]), run[1..]))
  }

  function After(s: State, run: seq<Step>): State
    requires Legal(s, run)
    decreases |run|
  {
    if run == [] then s else After(Next(s, run[0]), run[1..])
  }

  // ----- the invariant -----

  predicate HoldsDispatch(p: Place) {
    p == Look || p == Leave || p.Callback? || p == Dropping
  }

  /** One thread: at most one call inside a callback, and the mutexes belong to the calls that use them. */
  predicate ThreadOk(s: State, t: nat)
    requires t < |s.stacks|
  {
    var k := s.stacks[t];
    && |k| <= 2
    && (|k| == 2 ==> k[0].place.Callback? && !HoldsDispatch(k[1].place))
    && (s.cmd == Some(t) <==> k != [] && k[|k| - 1].place == Hold)
    && (s.deq == Some(t) <==> k != [] && HoldsDispatch(k[0].place))
  }

  /** The entry that a callback has been called for, if its call has not returned. */
  function Out(s: State): Option<Entry> {
    if s.deq.Some? && s.deq.value < |s.stacks| && s.stacks[s.deq.value] != []
       && s.stacks[s.deq.value][0].place.Callback?
    then Some(s.stacks[s.deq.value][0].place.entry) else None
  }

  /** The callbacks so far were for exactly the URCs that are no longer queued, and the one that is out. */
  predicate LogOk(s: State) {
    && s.accepted == (if Out(s).Some? && s.called != [] then s.called[..|s.called| - 1] else s.called) + s.fifo
    && (Out(s).Some? ==> s.called != [] && s.fifo != [] && s.fifo[0] == Out(s).value == s.called[|s.called| - 1])
  }

  /** The mutexes have owners that exist, and a command runs exactly while one holds the command mutex. */
  predicate OwnersOk(s: State) {
    && (s.cmd.Some? ==> s.cmd.value < |s.stacks|) && (s.deq.Some? ==> s.deq.value < |s.stacks|)
    && (s.executing <==> s.cmd.Some? && s.stacks[s.cmd.value] != [] && Top(s, s.cmd.value).task == Command)
  }

  predicate Inv(s: State) {
    (forall t :: 0 <= t < |s.stacks| ==> ThreadOk(s, t)) && OwnersOk(s) && LogOk(s)
  }

  lemma InitInv(threads: nat)
    ensures Inv(Init(threads))
  {
  }

  /** The steps that take or give up a mutex, or begin or end a call. */
  predicate Moves(step: Step) {
    step.Begin? || step.Lock? || step.Unlock? || step.TryLock? || step.Finish?
  }

  lemma MovesOnOwn(s: State, step: Step)
    requires Enabled(s, step) && ThreadOk(s, step.t) && Moves(step)
    ensures ThreadOk(Next(s, step), step.t)
  {
    hide ReplaceTop, LogOk;
    match step {
      case Begin(_, _) =>
      case TryLock(_) => TryOnOwn(s, step);
      case _ =>
    }
  }

  lemma TryOnOwn(s: State, step: Step)
    requires Enabled(s, step) && ThreadOk(s, step.t) && step.TryLock?
    ensures ThreadOk(Next(s, step), step.t)
  {
    hide ReplaceTop, LogOk;
  }

  lemma RestOnOwn(s: State, step: Step)
    requires Enabled(s, step) && ThreadOk(s, step.t) && !Moves(step)
    ensures ThreadOk(Next(s, step), step.t)
  {
    hide ReplaceTop, LogOk;
    match step {
      case Check(_) =>
      case GiveUp(_) =>
      case CallbackReturns(_) =>
      case Release(_) =>
      case _ =>
    }
  }

  /** What a step does to the stack of its own thread and to the owners of the mutexes. */
  lemma StepOnOwn(s: State, step: Step)
    requires Enabled(s, step) && ThreadOk(s, step.t)
    ensures ThreadOk(Next(s, step), step.t)
  {
    hide Next, Enabled, ThreadOk;
    if Moves(step) {
      MovesOnOwn(s, step);
    } else {
      RestOnOwn(s, step);
    }
  }

  lemma StepOnOthers(s: State, step: Step, u: nat)
    requires Enabled(s, step) && ThreadOk(s, step.t) && u < |s.stacks| && u != step.t && ThreadOk(s, u)
    ensures |Next(s, step).stacks| == |s.stacks| && Next(s, step).stacks[u] == s.stacks[u]
    ensures ThreadOk(Next(s, step), u)
  {
    hide ReplaceTop, LogOk;
    if Moves(step) {
      match step {
        case Begin(_, _) =>
        case Lock(_) =>
        case Unlock(_, _) =>
        case _ =>
      }
    } else {
      RestOnOthers(s, step, u);
    }
  }

  lemma RestOnOthers(s: State, step: Step, u: nat)
    requires Enabled(s, step) && ThreadOk(s, step.t) && u < |s.stacks| && u != step.t && ThreadOk(s, u) && !Moves(step)
    ensures |Next(s, step).stacks| == |s.stacks| && Next(s, step).stacks[u] == s.stacks[u]
    ensures ThreadOk(Next(s, step), u)
  {
    hide ReplaceTop, LogOk;
  }

  lemma StepKeepsThreads(s: State, step: Step)
    requires Inv(s) && Enabled(s, step)
    ensures |Next(s, step).stacks| == |s.stacks|
    ensures forall u :: 0 <= u < |s.stacks| ==> ThreadOk(Next(s, step), u)
  {
    hide LogOk, ThreadOk, Next, Enabled;
    TargetExists(s, step);
    StepOnOwn(s, step);
    forall u | 0 <= u < |s.stacks| ensures ThreadOk(Next(s, step), u) {
      if u != step.t { StepOnOthers(s, step, u); }
    }
  }

  lemma TargetExists(s: State, step: Step)
    requires Enabled(s, step)
    ensures step.t < |s.stacks| == |Next(s, step).stacks|
  {
  }

  predicate MovesLog(step: Step) {
    step.Check? || step.CallbackReturns? || step.CloseEntry?
  }

  /** Most steps leave the logs and what is out alone. */
  lemma QuietStep(s: State, step: Step)
    requires Enabled(s, step) && ThreadOk(s, step.t) && !MovesLog(step)
    requires s.deq.Some? ==> s.deq.value < |s.stacks| && ThreadOk(s, s.deq.value)
    ensures var s' := Next(s, step);
      Out(s') == Out(s) && s'.fifo == s.fifo && s'.accepted == s.accepted && s'.called == s.called
  {
    hide ReplaceTop;
    match step {
      case TryLock(_) => QuietMutex(s, step);
      case GiveUp(_) => QuietMutex(s, step);
      case Release(_) => QuietMutex(s, step);
      case _ =>
    }
  }

  lemma QuietMutex(s: State, step: Step)
    requires Enabled(s, step) && ThreadOk(s, step.t) && (step.TryLock? || step.GiveUp? || step.Release?)
    requires s.deq.Some? ==> s.deq.value < |s.stacks| && ThreadOk(s, s.deq.value)
    ensures var s' := Next(s, step);
      Out(s') == Out(s) && s'.fifo == s.fifo && s'.accepted == s.accepted && s'.called == s.called
  {
    hide ReplaceTop;
  }

  lemma CheckStep(s: State, t: nat)
    requires Enabled(s, Check(t)) && ThreadOk(s, t)
    ensures Out(s).None? && s.deq == Some(t)
    ensures Out(Next(s, Check(t))) == if s.fifo != [] && !s.receiving then Some(s.fifo[0]) else None
  {
    hide ReplaceTop;
  }

  lemma ReturnStep(s: State, t: nat)
    requires Enabled(s, CallbackReturns(t)) && ThreadOk(s, t)
    ensures Out(s) == Some(Top(s, t).place.entry) && Out(Next(s, CallbackReturns(t))) == None && s.deq == Some(t)
  {
    hide ReplaceTop;
  }

  lemma CheckKeepsLog(s: State, t: nat)
    requires LogOk(s) && Enabled(s, Check(t)) && ThreadOk(s, t)
    ensures LogOk(Next(s, Check(t)))
  {
    CheckStep(s, t);
    hide Out, ReplaceTop;
    assert s.fifo != [] ==> (s.called + [s.fifo[0]])[..|s.called|] == s.called;
  }

  lemma ReturnKeepsLog(s: State, t: nat)
    requires LogOk(s) && Enabled(s, CallbackReturns(t)) && ThreadOk(s, t)
    ensures LogOk(Next(s, CallbackReturns(t)))
  {
    ReturnStep(s, t);
    hide Out, ReplaceTop;
    var n := |s.called| - 1;
    assert s.called[..n] + s.fifo == s.called[..n] + [s.called[n]] + s.fifo[1..];
    assert s.called[..n] + [s.called[n]] == s.called;
  }

  lemma CloseKeepsLog(s: State, t: nat, accept: Option<Entry>)
    requires LogOk(s) && Enabled(s, CloseEntry(t, accept))
    ensures LogOk(Next(s, CloseEntry(t, accept)))
  {
    assert Out(Next(s, CloseEntry(t, accept))) == Out(s);
    hide Out;
  }

  lemma StepKeepsLog(s: State, step: Step)
    requires LogOk(s) && Enabled(s, step) && ThreadOk(s, step.t)
    requires s.deq.Some? ==> s.deq.value < |s.stacks| && ThreadOk(s, s.deq.value)
    ensures LogOk(Next(s, step))
  {
    hide Out, Next, Enabled, ThreadOk;
    match step {
      case Check(t) => CheckKeepsLog(s, t);
      case CallbackReturns(t) => ReturnKeepsLog(s, t);
      case CloseEntry(t, accept) => CloseKeepsLog(s, t, accept);
      case _ => QuietStep(s, step);
    }
  }

  lemma LockKeepsOwners(s: State, step: Step)
    requires OwnersOk(s) && Enabled(s, step) && (step.Lock? || step.Unlock?) && ThreadOk(s, step.t)
    ensures OwnersOk(Next(s, step))
  {
    hide ReplaceTop, LogOk;
  }

  lemma OthersKeepOwners(s: State, step: Step)
    requires OwnersOk(s) && Enabled(s, step) && !step.Lock? && !step.Unlock? && ThreadOk(s, step.t)
    requires s.cmd.Some? ==> ThreadOk(s, s.cmd.value)
    ensures OwnersOk(Next(s, step))
  {
    hide ReplaceTop, LogOk;
    if step.OpenEntry? || step.CloseEntry? || step.SetStatus? {
    } else {
      assert s.cmd != Some(step.t);
      match step {
        case Begin(_, _) =>
        case _ =>
      }
    }
  }

  lemma StepKeepsOwners(s: State, step: Step)
    requires OwnersOk(s) && Enabled(s, step) && ThreadOk(s, step.t)
    requires s.cmd.Some? ==> ThreadOk(s, s.cmd.value)
    ensures OwnersOk(Next(s, step))
  {
    hide Next, Enabled, ThreadOk, OwnersOk;
    if step.Lock? || step.Unlock? {
      LockKeepsOwners(s, step);
    } else {
      OthersKeepOwners(s, step);
    }
  }

  /** No step of any schedule breaks the invariant. */
  lemma StepKeepsInv(s: State, step: Step)
    requires Inv(s) && Enabled(s, step)
    ensures Inv(Next(s, step))
  {
    hide Next, Enabled, ThreadOk, LogOk;
    TargetExists(s, step);
    StepKeepsThreads(s, step);
    StepKeepsLog(s, step);
    StepKeepsOwners(s, step);
  }

  lemma {:induction false} RunKeepsInv(s: State, run: seq<Step>)
    requires Inv(s) && Legal(s, run)
    ensures Inv(After(s, run))
    decreases |run|
  {
    hide Inv, Next, Enabled;
    if run != [] {
      StepKeepsInv(s, run[0]);
      RunKeepsInv(Next(s, run[0]), run[1..]);
    }
  }

  // ----- what follows for every schedule -----

  /** How many callbacks are running. */
  function Running(stacks: seq<seq<Frame>>): nat {
    if stacks == [] then 0 else RunningIn(stacks[0]) + Running(stacks[1..])
  }

  function RunningIn(k: seq<Frame>): nat {
    if k == [] then 0 else (if k[0].place.Callback? then 1 else 0) + RunningIn(k[1..])
  }

  lemma {:induction false} RunningElsewhere(stacks: seq<seq<Frame>>)
    requires forall t :: 0 <= t < |stacks| ==> RunningIn(stacks[t]) == 0
    ensures Running(stacks) == 0
    decreases |stacks|
  {
    if stacks != [] {
      assert forall t :: 0 <= t < |stacks| - 1 ==> stacks[1..][t] == stacks[t + 1];
      RunningElsewhere(stacks[1..]);
    }
  }

  lemma {:induction false} RunningOnce(stacks: seq<seq<Frame>>, owner: nat)
    requires owner < |stacks| && RunningIn(stacks[owner]) <= 1
    requires forall t :: 0 <= t < |stacks| && t != owner ==> RunningIn(stacks[t]) == 0
    ensures Running(stacks) <= 1
    decreases |stacks|
  {
    hide RunningIn;
    assert forall t :: 0 <= t < |stacks| - 1 ==> stacks[1..][t] == stacks[t + 1];
    if owner == 0 {
      RunningElsewhere(stacks[1..]);
    } else {
      RunningOnce(stacks[1..], owner - 1);
    }
  }

  lemma ThreadRunning(s: State, t: nat)
    requires t < |s.stacks| && ThreadOk(s, t)
    ensures RunningIn(s.stacks[t]) <= (if s.deq == Some(t) then 1 else 0)
  {
    var k := s.stacks[t];
    if |k| == 2 {
      assert k[1..][0] == k[1] && k[1..][1..] == [] && RunningIn(k[1..]) == 0;
    } else if |k| == 1 {
      assert k[1..] == [];
    }
  }

  /**
   Safety over whole schedules, for any number of threads: callbacks run one at a time, in the order
   in which the URCs were queued, and for each queued URC at most once.
   */
  lemma CallbacksInOrder(threads: nat, run: seq<Step>)
    requires Legal(Init(threads), run)
    ensures var s := After(Init(threads), run);
      && Running(s.stacks) <= 1
      && s.called <= s.accepted
      && |s.accepted| - |s.fifo| <= |s.called| <= |s.accepted| - |s.fifo| + 1
  {
    var s := After(Init(threads), run);
    InitInv(threads);
    RunKeepsInv(Init(threads), run);
    forall t | 0 <= t < |s.stacks| ensures RunningIn(s.stacks[t]) <= (if s.deq == Some(t) then 1 else 0) {
      ThreadRunning(s, t);
    }
    if s.deq.Some? {
      RunningOnce(s.stacks, s.deq.value);
    } else {
      RunningElsewhere(s.stacks);
    }
    LogIsPrefix(s);
  }

  lemma LogIsPrefix(s: State)
    requires LogOk(s)
    ensures s.called <= s.accepted
    ensures |s.accepted| - |s.fifo| <= |s.called| <= |s.accepted| - |s.fifo| + 1
  {
    hide Out;
    if Out(s).Some? {
      var n := |s.called| - 1;
      assert s.accepted == s.called[..n] + ([s.fifo[0]] + s.fifo[1..]);
      assert s.called == s.called[..n] + [s.fifo[0]];
    }
  }

  /** A call made inside a callback of this thread dispatches nothing: it finds the mutex taken. */
  lemma NestedDispatchesNothing(s: State, step: Step)
    requires Inv(s) && Enabled(s, step) && |s.stacks[step.t]| == 2 && !step.CallbackReturns?
    ensures Next(s, step).called == s.called && Next(s, step).deq == s.deq == Some(step.t)
    ensures step.TryLock? ==> At(Next(s, step), step.t, Return)
  {
    hide LogOk, ReplaceTop;
    assert ThreadOk(s, step.t);
  }

  /** While a callback runs, no thread starts another: not even over many steps of all of them. */
  lemma {:induction false} CallbackIsAlone(s: State, run: seq<Step>, t: nat)
    requires Inv(s) && Legal(s, run) && t < |s.stacks| && s.stacks[t] != [] && s.stacks[t][0].place.Callback?
    requires forall i :: 0 <= i < |run| ==> run[i] != CallbackReturns(t)
    ensures var s' := After(s, run);
      && s'.called == s.called && s'.deq == Some(t)
      && t < |s'.stacks| && s'.stacks[t] != [] && s'.stacks[t][0] == s.stacks[t][0]
    decreases |run|
  {
    assert ThreadOk(s, t);
    if run != [] {
      CallbackStays(s, run[0], t);
      StepKeepsInv(s, run[0]);
      hide Inv, Enabled, Next;
      CallbackIsAlone(Next(s, run[0]), run[1..], t);
    }
  }

  lemma CallbackStays(s: State, step: Step, t: nat)
    requires Inv(s) && Enabled(s, step) && t < |s.stacks| && s.stacks[t] != [] && s.stacks[t][0].place.Callback?
    requires step != CallbackReturns(t)
    ensures var s' := Next(s, step);
      s'.called == s.called && t < |s'.stacks| && s'.stacks[t] != [] && s'.stacks[t][0] == s.stacks[t][0]
  {
    hide LogOk;
    assert ThreadOk(s, t) && ThreadOk(s, step.t);
    if step.t != t {
      StepOnOthers(s, step, t);
    }
    hide ReplaceTop;
  }

  /**
   When a dispatch loop ends: the queue has nothing more for it, an entry is being received, or
   another call held the dispatch mutex at that moment, which is this thread's own callback if nested.
   */
  lemma LoopEnds(s: State, step: Step)
    requires Inv(s) && Enabled(s, step) && (step.TryLock? || step.Check?)
    ensures At(Next(s, step), step.t, Leave) ==> s.fifo == [] || s.receiving
    ensures At(Next(s, step), step.t, Return) ==> s.deq.Some? && (s.deq == Some(step.t) <==> |s.stacks[step.t]| == 2)
    ensures InCallback(Next(s, step), step.t) ==> s.fifo != [] && !s.receiving && |s.stacks[step.t]| == 1
  {
    hide LogOk, ReplaceTop;
    assert ThreadOk(s, step.t);
  }

  /** The assertions of cmdBeginF and of DequeueBegin cannot fail, and nobody waits for a mutex of its own. */
  lemma AssertionsHold(s: State, step: Step)
    requires Inv(s) && Enabled(s, step)
    ensures step.Lock? ==> !s.executing
    ensures step.TryLock? && At(Next(s, step), step.t, Look) ==> Out(s).None?
    ensures At(s, step.t, Want) ==> s.cmd != Some(step.t)
  {
    hide LogOk;
    assert ThreadOk(s, step.t);
  }

  /** What a thread inside a call does next, if only it may. */
  function NextMove(s: State, t: nat): Step
    requires t < |s.stacks| && s.stacks[t] != []
  {
    match Top(s, t).place
    case Want => Lock(t)
    case Hold =>
      if s.receiving then CloseEntry(t, None)
      else if s.status == NO_STATUS then SetStatus(t, 0)
      else Unlock(t, true)
    case Process => TryLock(t)
    case Look => Check(t)
    case Leave => GiveUp(t)
    case Callback(_) => CallbackReturns(t)
    case Dropping => Release(t)
    case Return => Finish(t)
  }

  /** No deadlock: unless all threads are idle, some call can go on without a new one being made. */
  lemma NoDeadlock(s: State, t: nat)
    requires Inv(s) && t < |s.stacks| && s.stacks[t] != []
    ensures exists step :: Enabled(s, step) && !step.Begin?
  {
    hide LogOk;
    var u := if s.cmd.Some? then s.cmd.value else t;
    assert ThreadOk(s, u) && ThreadOk(s, t);
    assert Enabled(s, NextMove(s, u)) && !NextMove(s, u).Begin?;
  }

  // ----- what a command returns -----

  /** The status that a step writes: one that comes in, or none yet when a command begins. */
  function StatusWritten(s: State, step: Step): Option<int>
    requires Enabled(s, step)
  {
    match step
    case SetStatus(_, code) => Some(code)
    case Lock(t) => if Top(s, t).task == Command then Some(NO_STATUS) else None
    case _ => None
  }

  /** The last status written during a schedule. */
  function LastWritten(s: State, run: seq<Step>): Option<int>
    requires Legal(s, run)
    decreases |run|
  {
    if run == [] then None
    else
      var later := LastWritten(Next(s, run[0]), run[1..]);
      if later.Some? then later else StatusWritten(s, run[0])
  }

  lemma {:induction false} StatusIsLastWritten(s: State, run: seq<Step>)
    requires Legal(s, run)
    ensures After(s, run).status == if LastWritten(s, run).Some? then LastWritten(s, run).value else s.status
    decreases |run|
  {
    if run != [] {
      StatusIsLastWritten(Next(s, run[0]), run[1..]);
      hide ReplaceTop;
    }
  }

  /** The d-th call of thread t does not end during the schedule. */
  predicate GoesOn(s: State, run: seq<Step>, t: nat, d: nat)
    requires Legal(s, run)
    decreases |run|
  {
    t < |s.stacks| && d <= |s.stacks[t]| && (run == [] || GoesOn(Next(s, run[0]), run[1..], t, d))
  }

  /** A call past the command mutex keeps its task and its own status as long as it goes on. */
  lemma OwnStaysOnce(s: State, step: Step, t: nat, d: nat)
    requires Enabled(s, step) && t < |s.stacks| && 1 <= d <= |s.stacks[t]| && d <= |Next(s, step).stacks[t]|
    requires s.stacks[t][d - 1].place != Want && s.stacks[t][d - 1].place != Hold
    ensures var f, g := s.stacks[t][d - 1], Next(s, step).stacks[t][d - 1];
      g.task == f.task && g.own == f.own && g.place != Want && g.place != Hold
  {
    hide ReplaceTop;
    if Moves(step) {
      match step {
        case Begin(_, _) =>
        case Finish(_) =>
        case Unlock(_, _) =>
        case _ =>
      }
    } else {
      OwnStaysOutside(s, step, t, d);
    }
  }

  lemma OwnStaysOutside(s: State, step: Step, t: nat, d: nat)
    requires Enabled(s, step) && t < |s.stacks| && 1 <= d <= |s.stacks[t]| && d <= |Next(s, step).stacks[t]| && !Moves(step)
    requires s.stacks[t][d - 1].place != Want && s.stacks[t][d - 1].place != Hold
    ensures var f, g := s.stacks[t][d - 1], Next(s, step).stacks[t][d - 1];
      g.task == f.task && g.own == f.own && g.place != Want && g.place != Hold
  {
    hide ReplaceTop;
    match step {
      case Check(_) =>
      case _ =>
    }
  }

  lemma {:induction false} OwnStays(s: State, run: seq<Step>, t: nat, d: nat)
    requires Legal(s, run) && GoesOn(s, run, t, d) && d >= 1
    requires s.stacks[t][d - 1].place != Want && s.stacks[t][d - 1].place != Hold
    ensures var s' := After(s, run);
      && t < |s'.stacks| && d <= |s'.stacks[t]|
      && s'.stacks[t][d - 1].task == s.stacks[t][d - 1].task && s'.stacks[t][d - 1].own == s.stacks[t][d - 1].own
    decreases |run|
  {
    hide Enabled, Next;
    if run != [] {
      OwnStaysOnce(s, run[0], t, d);
      OwnStays(Next(s, run[0]), run[1..], t, d);
    }
  }

  /**
   What a command returns, whatever happens between its unlock and its return: the last status
   written meanwhile, so its own one if and only if nothing was written or the same value last.
   Reception while idle writes no status unless the UART fails.
   */
  lemma OwnStatusReturned(s: State, t: nat, run: seq<Step>)
    requires Enabled(s, Unlock(t, true)) && Top(s, t).task == Command
    requires var u := Next(s, Unlock(t, true)); Legal(u, run) && GoesOn(u, run, t, |s.stacks[t]|)
    requires At(After(Next(s, Unlock(t, true)), run), t, Return)
    requires |After(Next(s, Unlock(t, true)), run).stacks[t]| == |s.stacks[t]|
    ensures var u := Next(s, Unlock(t, true));
      var s', own, last := After(u, run), s.status, LastWritten(u, run);
      && Next(s', Finish(t)).results == s'.results + [Result(own, if last.Some? then last.value else own)]
      && (Next(s', Finish(t)).results == s'.results + [Result(own, own)] <==> last.None? || last.value == own)
  {
    var u := Next(s, Unlock(t, true));
    var s' := After(u, run);
    StatusIsLastWritten(u, run);
    hide ReplaceTop, LastWritten;
    OwnStays(u, run, t, |s.stacks[t]|);
    var last := LastWritten(u, run);
    var r := Result(s.status, if last.Some? then last.value else s.status);
    assert (s'.results + [r])[|s'.results|] == r;
    assert (s'.results + [Result(s.status, s.status)])[|s'.results|] == Result(s.status, s.status);
  }

  // ----- a thread on its own -----

  /** Thread t is past the command mutex, and at the end of its loop it has left nothing behind. */
  predicate Draining(s: State, t: nat) {
    && t < |s.stacks| && s.stacks[t] != [] && (s.deq.Some? ==> s.deq.value == t)
    && s.stacks[t][0].place != Want && s.stacks[t][0].place != Hold
    && (s.stacks[t][0].place == Leave || s.stacks[t][0].place == Return ==> s.fifo == [] || s.receiving)
  }

  lemma DrainingStep(s: State, step: Step)
    requires Inv(s) && Enabled(s, step) && Draining(s, step.t) && Next(s, step).stacks[step.t] != []
    ensures Draining(Next(s, step), step.t)
  {
    hide LogOk, ReplaceTop;
    assert ThreadOk(s, step.t);
    match step {
      case Begin(_, _) =>
      case TryLock(_) =>
      case Check(_) =>
      case _ =>
    }
  }

  /** What other threads may do meanwhile: anything but trying the dispatch mutex and completing an entry. */
  lemma DrainingMeanwhile(s: State, step: Step, t: nat)
    requires Inv(s) && Enabled(s, step) && Draining(s, t) && step.t != t && !step.TryLock? && !step.CloseEntry?
    ensures Draining(Next(s, step), t)
  {
    hide LogOk, ReplaceTop;
    assert ThreadOk(s, step.t) && ThreadOk(s, t);
    StepOnOthers(s, step, t);
  }

  /** The outermost call of the thread goes on, and no other thread competes with it. */
  predicate Uncontended(s: State, run: seq<Step>, t: nat)
    requires Legal(s, run)
    decreases |run|
  {
    run != [] ==>
      && (run[0].t == t || (!run[0].TryLock? && !run[0].CloseEntry?))
      && t < |Next(s, run[0]).stacks| && Next(s, run[0]).stacks[t] != []
      && Uncontended(Next(s, run[0]), run[1..], t)
  }

  /**
   An outermost processUrcs, with whatever its callbacks and other threads do, comes to its end only
   when nothing is queued or an entry is being received, unless another thread tries the dispatch
   mutex or completes an entry meanwhile.
   */
  lemma UncontendedDrains(s: State, run: seq<Step>, t: nat)
    requires Inv(s) && Legal(s, run) && Uncontended(s, run, t)
    requires t < |s.stacks| && s.stacks[t] != [] && s.stacks[t][0].place == Process && s.deq.None?
    ensures var s' := After(s, run);
      t < |s'.stacks| && s'.stacks[t] != [] && (s'.stacks[t][0].place == Return ==> s'.fifo == [] || s'.receiving)
  {
    StillDraining(s, run, t);
  }

  lemma {:induction false} StillDraining(s: State, run: seq<Step>, t: nat)
    requires Inv(s) && Legal(s, run) && Uncontended(s, run, t) && Draining(s, t)
    ensures Draining(After(s, run), t)
    decreases |run|
  {
    hide Inv, Next, Enabled, Draining;
    if run != [] {
      if run[0].t == t {
        DrainingStep(s, run[0]);
      } else {
        DrainingMeanwhile(s, run[0], t);
      }
      StepKeepsInv(s, run[0]);
      StillDraining(Next(s, run[0]), run[1..], t);
    }
  }

  // ----- when a queued URC can be left behind -----

  /** The places of an outermost call that has yet to look at the queue again. */
  predicate WillLook(p: Place) {
    p == Hold || p == Process || p == Look || p.Callback? || p == Dropping
  }

  predicate Attended(s: State) {
    exists t :: 0 <= t < |s.stacks| && s.stacks[t] != [] && WillLook(s.stacks[t][0].place)
  }

  /** Something could be dispatched. */
  predicate Dispatchable(s: State) {
    s.fifo != [] && !s.receiving
  }

  /** A try for the dispatch mutex that fails because its holder is just giving up. */
  predicate LosesToLeaver(s: State, step: Step) {
    && step.TryLock? && s.deq.Some? && s.deq.value < |s.stacks|
    && s.stacks[s.deq.value] != [] && s.stacks[s.deq.value][0].place == Leave
  }

  /** Idle reception that ends inside a frame and therefore skips the dispatch of what is queued. */
  predicate SkipsDispatch(s: State, step: Step) {
    step.Unlock? && !step.process && Dispatchable(s)
  }

  predicate LeavesBehind(s: State, step: Step) {
    LosesToLeaver(s, step) || SkipsDispatch(s, step)
  }

  /** No other step leaves a dispatchable queue without a call that will look at it. */
  lemma StaysAttended(s: State, step: Step)
    requires Inv(s) && Enabled(s, step) && !LeavesBehind(s, step)
    requires Dispatchable(s) ==> Attended(s)
    ensures Dispatchable(Next(s, step)) ==> Attended(Next(s, step))
  {
    hide LogOk;
    var s' := Next(s, step);
    assert ThreadOk(s, step.t);
    if Dispatchable(s') {
      if step.CloseEntry? {
        AttendedBy(s', step.t);
      } else {
        var t :| 0 <= t < |s.stacks| && s.stacks[t] != [] && WillLook(s.stacks[t][0].place);
        assert ThreadOk(s, t);
        if t != step.t {
          StepOnOthers(s, step, t);
          AttendedBy(s', t);
        } else {
          AttendsOn(s, step);
        }
      }
    }
  }

  lemma AttendedBy(s: State, t: nat)
    requires t < |s.stacks| && s.stacks[t] != [] && WillLook(s.stacks[t][0].place)
    ensures Attended(s)
  {
  }

  lemma AttendsOn(s: State, step: Step)
    requires Inv(s) && Enabled(s, step) && !LeavesBehind(s, step) && Dispatchable(s) && !step.CloseEntry?
    requires s.stacks[step.t] != [] && WillLook(s.stacks[step.t][0].place)
    ensures Attended(Next(s, step))
  {
    hide LogOk, ReplaceTop;
    var s' := Next(s, step);
    var t := step.t;
    assert ThreadOk(s, t);
    if step.TryLock? && |s.stacks[t]| == 1 && s.deq.Some? {
      var u := s.deq.value;
      assert ThreadOk(s, u) && u != t;
      StepOnOthers(s, step, u);
      AttendedBy(s', u);
    } else {
      assert s'.stacks[t] != [] && WillLook(s'.stacks[t][0].place);
      AttendedBy(s', t);
    }
  }

  /** No step of the schedule leaves something behind. */
  predicate Careful(s: State, run: seq<Step>)
    requires Legal(s, run)
    decreases |run|
  {
    run == [] || (!LeavesBehind(s, run[0]) && Careful(Next(s, run[0]), run[1..]))
  }

  lemma {:induction false} CarefulRun(s: State, run: seq<Step>)
    requires Inv(s) && Legal(s, run) && Careful(s, run)
    requires Dispatchable(s) ==> Attended(s)
    ensures Dispatchable(After(s, run)) ==> Attended(After(s, run))
    decreases |run|
  {
    hide Inv, Next, Enabled, LeavesBehind, Dispatchable, Attended;
    if run != [] {
      StepKeepsInv(s, run[0]);
      StaysAttended(s, run[0]);
      CarefulRun(Next(s, run[0]), run[1..]);
    }
  }

  predicate Idle(s: State) {
    forall t :: 0 <= t < |s.stacks| ==> s.stacks[t] == []
  }

  /**
   For any number of threads and every schedule without those two kinds of step: once all threads
   are idle, nothing is queued, or an entry is still being received.
   */
  lemma NothingLeftBehind(threads: nat, run: seq<Step>)
    requires Legal(Init(threads), run) && Careful(Init(threads), run)
    ensures var s := After(Init(threads), run); Idle(s) ==> s.fifo == [] || s.receiving
  {
    InitInv(threads);
    CarefulRun(Init(threads), run);
  }

  /** Every thread is idle or on its way out of a single call, without another look at the queue. */
  predicate WindingDown(s: State) {
    forall t :: 0 <= t < |s.stacks| ==>
      s.stacks[t] == [] || (|s.stacks[t]| == 1 && s.stacks[t][0].place in {Leave, Return})
  }

  /** No call is made. */
  predicate NoCalls(run: seq<Step>) {
    forall i :: 0 <= i < |run| ==> !run[i].Begin?
  }

  /**
   The converse: after such a step, if no other thread is in a place where it will look again, the
   queue stays as it is until another call is made.
   */
  lemma LeftBehind(s: State, step: Step, run: seq<Step>)
    requires Inv(s) && Enabled(s, step) && LeavesBehind(s, step) && Dispatchable(s) && |s.stacks[step.t]| == 1
    requires forall u :: 0 <= u < |s.stacks| && u != step.t ==>
      s.stacks[u] == [] || (|s.stacks[u]| == 1 && s.stacks[u][0].place in {Leave, Return})
    requires Legal(Next(s, step), run) && NoCalls(run)
    ensures var s' := After(Next(s, step), run); s'.fifo == s.fifo != [] && !s'.receiving && WindingDown(s')
  {
    hide LogOk, ReplaceTop;
    assert ThreadOk(s, step.t);
    var s1 := Next(s, step);
    forall u | 0 <= u < |s.stacks| && u != step.t ensures s1.stacks[u] == s.stacks[u] {
      assert ThreadOk(s, u);
      StepOnOthers(s, step, u);
    }
    TargetExists(s, step);
    assert s1.stacks[step.t][0].place == Return && |s1.stacks[step.t]| == 1;
    StaysBehind(s1, run);
  }

  lemma {:induction false} StaysBehind(s: State, run: seq<Step>)
    requires Legal(s, run) && NoCalls(run) && WindingDown(s)
    ensures var s' := After(s, run); s'.fifo == s.fifo && s'.receiving == s.receiving && WindingDown(s')
    decreases |run|
  {
    if run != [] {
      assert !run[0].Begin?;
      WindsDown(s, run[0]);
      hide WindingDown, Next, Enabled;
      StaysBehind(Next(s, run[0]), run[1..]);
    }
  }

  lemma WindsDown(s: State, step: Step)
    requires Enabled(s, step) && !step.Begin? && WindingDown(s)
    ensures var s' := Next(s, step); s'.fifo == s.fifo && s'.receiving == s.receiving && WindingDown(s')
  {
    hide ReplaceTop;
    assert step.GiveUp? || step.Finish?;
  }

  // ----- what can go otherwise -----

  lemma {:induction false} OneMore(s: State, run: seq<Step>, step: Step)
    requires Legal(s, run) && Enabled(After(s, run), step)
    ensures Legal(s, run + [step]) && After(s, run + [step]) == Next(After(s, run), step)
    decreases |run|
  {
    hide Enabled, Next;
    if run == [] {
      assert [] + [step] == [step] && [step][1..] == [];
    } else {
      assert (run + [step])[1..] == run[1..] + [step];
      OneMore(Next(s, run[0]), run[1..], step);
    }
  }

  /** A schedule that leads to a given state. */
  predicate Reaches(threads: nat, run: seq<Step>, s: State) {
    Legal(Init(threads), run) && After(Init(threads), run) == s
  }

  lemma StartsThere(threads: nat)
    ensures Reaches(threads, [], Init(threads))
  {
  }

  /** Follows a schedule by one step that takes the call f, inside the calls of base, to g. */
  lemma Follow(threads: nat, run: seq<Step>, s: State, step: Step, base: seq<Frame>, f: Frame, g: Frame)
    returns (run': seq<Step>, s': State)
    requires Reaches(threads, run, s) && step.t < |s.stacks| && s.stacks[step.t] == base + [f]
    requires Enabled(s, step) && Next(s, step).stacks == s.stacks[step.t := ReplaceTop(s.stacks[step.t], g)]
    ensures Reaches(threads, run', s') && s' == Next(s, step).(stacks := s.stacks[step.t := base + [g]])
  {
    hide Enabled, Next;
    OneMore(Init(threads), run, step);
    run', s' := run + [step], Next(s, step);
    assert ReplaceTop(base + [f], g) == base + [g];
  }

  lemma Begins(threads: nat, run: seq<Step>, s: State, t: nat, task: Task) returns (run': seq<Step>, s': State)
    requires Reaches(threads, run, s) && t < |s.stacks| && (s.stacks[t] == [] || InCallback(s, t))
    ensures Reaches(threads, run', s')
    ensures s' == s.(stacks := s.stacks[t := s.stacks[t] + [Frame(task, Want, NO_STATUS)]])
  {
    OneMore(Init(threads), run, Begin(t, task));
    run', s' := run + [Begin(t, task)], Next(s, Begin(t, task));
  }

  /** A call gets the command mutex, perhaps queues a URC, perhaps sets the status, and gives the mutex up. */
  lemma Runs(threads: nat, run: seq<Step>, s: State, t: nat, base: seq<Frame>, task: Task,
             urc: Option<Entry>, code: int)
    returns (run': seq<Step>, s': State)
    requires Reaches(threads, run, s) && t < |s.stacks| && s.stacks[t] == base + [Frame(task, Want, NO_STATUS)]
    requires s.cmd.None? && !s.receiving && !s.executing && code != NO_STATUS
    ensures Reaches(threads, run', s')
    ensures var queued := if urc.Some? then [urc.value] else [];
      s' == s.(stacks := s.stacks[t := base + [Frame(task, Process, code)]], status := code,
               fifo := s.fifo + queued, accepted := s.accepted + queued)
  {
    hide Reaches;
    var f := Frame(task, Want, NO_STATUS);
    run', s' := Follow(threads, run, s, Lock(t), base, f, f.(place := Hold));
    if urc.Some? {
      run', s' := Queues(threads, run', s', t, base, f.(place := Hold), urc.value);
    }
    run', s' := Gives(threads, run', s', t, base, f.(place := Hold), code);
    assert s'.stacks == s.stacks[t := base + [Frame(task, Process, code)]];
  }

  lemma Queues(threads: nat, run: seq<Step>, s: State, t: nat, base: seq<Frame>, f: Frame, e: Entry)
    returns (run': seq<Step>, s': State)
    requires Reaches(threads, run, s) && t < |s.stacks| && s.stacks[t] == base + [f] && f.place == Hold && !s.receiving
    ensures Reaches(threads, run', s') && s' == s.(fifo := s.fifo + [e], accepted := s.accepted + [e])
  {
    OneMore(Init(threads), run, OpenEntry(t));
    run', s' := run + [OpenEntry(t)], Next(s, OpenEntry(t));
    OneMore(Init(threads), run', CloseEntry(t, Some(e)));
    run', s' := run' + [CloseEntry(t, Some(e))], Next(s', CloseEntry(t, Some(e)));
  }

  lemma Gives(threads: nat, run: seq<Step>, s: State, t: nat, base: seq<Frame>, f: Frame, code: int)
    returns (run': seq<Step>, s': State)
    requires Reaches(threads, run, s) && t < |s.stacks| && s.stacks[t] == base + [f] && f.place == Hold
    requires !s.receiving && code != NO_STATUS
    ensures Reaches(threads, run', s')
    ensures s' == s.(stacks := s.stacks[t := base + [f.(place := Process, own := code)]], status := code,
                     cmd := None, executing := false)
  {
    hide Reaches;
    run', s' := Sets(threads, run, s, t, base, f, code);
    run', s' := Follow(threads, run', s', Unlock(t, true), base, f, f.(place := Process, own := code));
  }

  lemma Sets(threads: nat, run: seq<Step>, s: State, t: nat, base: seq<Frame>, f: Frame, code: int)
    returns (run': seq<Step>, s': State)
    requires Reaches(threads, run, s) && t < |s.stacks| && s.stacks[t] == base + [f] && f.place == Hold
    requires code != NO_STATUS
    ensures Reaches(threads, run', s') && s' == s.(status := code)
  {
    OneMore(Init(threads), run, SetStatus(t, code));
    run', s' := run + [SetStatus(t, code)], Next(s, SetStatus(t, code));
  }

  lemma Ends(threads: nat, run: seq<Step>, s: State, t: nat, base: seq<Frame>, f: Frame)
    returns (run': seq<Step>, s': State)
    requires Reaches(threads, run, s) && t < |s.stacks| && s.stacks[t] == base + [f] && f.place == Return
    ensures Reaches(threads, run', s')
    ensures s' == s.(stacks := s.stacks[t := base],
                     results := s.results + if f.task == Command then [Result(f.own, s.status)] else [])
  {
    OneMore(Init(threads), run, Finish(t));
    run', s' := run + [Finish(t)], Next(s, Finish(t));
    assert (base + [f])[..|base|] == base;
  }

  /** A call that fails to get the dispatch mutex is over. */
  lemma Loses(threads: nat, run: seq<Step>, s: State, t: nat, base: seq<Frame>, f: Frame)
    returns (run': seq<Step>, s': State)
    requires Reaches(threads, run, s) && t < |s.stacks| && s.stacks[t] == base + [f] && f.place == Process && s.deq.Some?
    ensures Reaches(threads, run', s')
    ensures s' == s.(stacks := s.stacks[t := base],
                     results := s.results + if f.task == Command then [Result(f.own, s.status)] else [])
  {
    hide Reaches;
    run', s' := Follow(threads, run, s, TryLock(t), base, f, f.(place := Return));
    run', s' := Ends(threads, run', s', t, base, f.(place := Return));
    assert s'.stacks == s.stacks[t := base];
  }

  /** A call gets the dispatch mutex and looks at the queue. */
  lemma Looks(threads: nat, run: seq<Step>, s: State, t: nat, f: Frame) returns (run': seq<Step>, s': State)
    requires Reaches(threads, run, s) && t < |s.stacks| && s.stacks[t] == [f] && f.place == Process && s.deq.None?
    requires !s.receiving
    ensures Reaches(threads, run', s')
    ensures s' ==
      if s.fifo == [] then s.(stacks := s.stacks[t := [f.(place := Leave)]], deq := Some(t))
      else s.(stacks := s.stacks[t := [f.(place := Callback(s.fifo[0]))]], deq := Some(t), called := s.called + [s.fifo[0]])
  {
    hide Reaches;
    var next := if s.fifo == [] then Leave else Callback(s.fifo[0]);
    run', s' := Follow(threads, run, s, TryLock(t), [], f, f.(place := Look));
    run', s' := Follow(threads, run', s', Check(t), [], f.(place := Look), f.(place := next));
    assert s'.stacks == s.stacks[t := [f.(place := next)]];
  }

  /** A call that has found nothing gives the dispatch mutex up and is over. */
  lemma Leaves(threads: nat, run: seq<Step>, s: State, t: nat, f: Frame) returns (run': seq<Step>, s': State)
    requires Reaches(threads, run, s) && t < |s.stacks| && s.stacks[t] == [f] && f.place == Leave
    ensures Reaches(threads, run', s')
    ensures s' == s.(stacks := s.stacks[t := []], deq := None,
                     results := s.results + if f.task == Command then [Result(f.own, s.status)] else [])
  {
    hide Reaches, ReplaceTop;
    var g := f.(place := Return);
    assert [f] == [] + [f] && [g] == [] + [g];
    assert Enabled(s, GiveUp(t)) && Next(s, GiveUp(t)) == Move(s, t, g).(deq := None);
    run', s' := Follow(threads, run, s, GiveUp(t), [], f, g);
    hide Next, Enabled, Move;
    run', s' := Ends(threads, run', s', t, [], g);
    assert s.stacks[t := [g]][t := []] == s.stacks[t := []];
  }

  /** A callback returns and its entry is dropped. */
  lemma Drops(threads: nat, run: seq<Step>, s: State, t: nat, f: Frame) returns (run': seq<Step>, s': State)
    requires Reaches(threads, run, s) && t < |s.stacks| && s.stacks[t] == [f] && f.place.Callback? && s.fifo != []
    ensures Reaches(threads, run', s')
    ensures s' == s.(stacks := s.stacks[t := [f.(place := Process)]], deq := None, fifo := s.fifo[1..])
  {
    hide Reaches;
    run', s' := Follow(threads, run, s, CallbackReturns(t), [], f, f.(place := Dropping));
    run', s' := Follow(threads, run', s', Release(t), [], f.(place := Dropping), f.(place := Process));
    assert s'.stacks == s.stacks[t := [f.(place := Process)]];
  }

  /** A thread whose try for the dispatch mutex fails can leave a URC queued with every thread idle. */
  lemma LostTryLeavesAnEntry(e: Entry)
    ensures exists run, s :: Reaches(2, run, s) && s.stacks == [[], []] && s.fifo == [e] && !s.receiving
  {
    hide Reaches, Enabled, Next;
    var run: seq<Step> := [];
    var s := Init(2);
    StartsThere(2);
    run, s := Begins(2, run, s, 0, HandleRx);
    run, s := Runs(2, run, s, 0, [], HandleRx, None, 0);
    run, s := Looks(2, run, s, 0, Frame(HandleRx, Process, 0));
    run, s := Begins(2, run, s, 1, HandleRx);
    run, s := Runs(2, run, s, 1, [], HandleRx, Some(e), 0);
    run, s := Loses(2, run, s, 1, [], Frame(HandleRx, Process, 0));
    run, s := Leaves(2, run, s, 0, Frame(HandleRx, Leave, 0));
    assert s.stacks == [[], []];
  }

  /** With two threads a command that succeeded can return the 'no status yet' of another thread's command. */
  lemma OtherCommandReplacesStatus()
    ensures exists run, s :: Reaches(2, run, s) && s.results == [Result(0, NO_STATUS)]
  {
    hide Reaches, ReplaceTop;
    var run: seq<Step> := [];
    var s := Init(2);
    StartsThere(2);
    run, s := Begins(2, run, s, 0, Command);
    run, s := Runs(2, run, s, 0, [], Command, None, 0);
    run, s := Begins(2, run, s, 1, Command);
    var f := Frame(Command, Want, NO_STATUS);
    run, s := Follow(2, run, s, Lock(1), [], f, f.(place := Hold));
    run, s := Looks(2, run, s, 0, Frame(Command, Process, 0));
    run, s := Leaves(2, run, s, 0, Frame(Command, Leave, 0));
  }

  /** A command whose URC callback runs a failing command of its own returns that command's status. */
  lemma NestedCommandReplacesStatus(e: Entry, failure: int)
    requires failure != NO_STATUS
    ensures exists run, s :: Reaches(2, run, s) && s.results == [Result(failure, failure), Result(0, failure)]
  {
    hide Reaches, Enabled, Next;
    var run: seq<Step> := [];
    var s := Init(2);
    StartsThere(2);
    run, s := Begins(2, run, s, 0, Command);
    run, s := Runs(2, run, s, 0, [], Command, Some(e), 0);
    run, s := Looks(2, run, s, 0, Frame(Command, Process, 0));
    var outer := Frame(Command, Callback(e), 0);
    run, s := Begins(2, run, s, 0, Command);
    run, s := Runs(2, run, s, 0, [outer], Command, None, failure);
    run, s := Loses(2, run, s, 0, [outer], Frame(Command, Process, failure));
    run, s := Drops(2, run, s, 0, outer);
    run, s := Looks(2, run, s, 0, Frame(Command, Process, 0));
    run, s := Leaves(2, run, s, 0, Frame(Command, Leave, 0));
  }
}
