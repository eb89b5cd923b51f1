/** The leak monitor and `pddgpu_memory_stats_fini` around the RCU list (pddgpu_memory_stats.c).

    The monitor is a delayed work item that traverses the list under RCU and queues itself again;
    fini raises the shutdown flag, cancels the work and then frees every listed object at once,
    without a grace period.  The workqueue is a contract: one item never runs twice at the same
    time, `cancel_delayed_work_sync` takes the item off the queue, refuses to queue it while the
    cancel is in progress, and returns only when it is not running.

    The monitor is the only caller of the RCU traversals, so it is the only reader here.  The writers
    are the RCU helpers.  The driver's alloc_end and free_end call the plain ones instead, whose
    immediate kfree is the subject of RcuList.PlainRemoveSafeExactly. */
module Teardown {
  import L = RcuList

  const MONITOR: nat := 0

  /** Where the running work function is; `Idle` when it is not running. */
  datatype Work =
    | Idle
    | Started          // about to test device_state
    | Reporting        // in leak_report_rcu
    | Checking         // in leak_check_rcu
    | TestEnabled      // about to read monitor_enabled
    | TestShutdown     // about to read device_state again
    | Scheduling       // about to call schedule_delayed_work

  datatype Fini = NotCalled | FlagSet | Disabled | Cancelling | Draining | Done

  datatype State = State(
    work: Work,
    pending: bool,
    shutdown: bool,
    enabled: bool,
    fini: Fini,
    list: L.State)

  datatype Step =
    | Timer                          // the queued work starts to run
    | TestStart(overThreshold: bool)
    | Traverse(list: L.Step)         // a step of the monitor's own read section
    | LeaveReport
    | LeaveCheck
    | ReadEnabled
    | ReadShutdown
    | Schedule
    | Writer(list: L.Step)           // an add, a remove or an RCU callback on any CPU
    | SetFlag
    | Disable
    | BeginCancel
    | EndCancel
    | DrainOne
    | DrainDone

  predicate IsReaderStep(step: L.Step) {
    step == L.Enter(MONITOR) || step == L.Load(MONITOR) || step == L.Exit(MONITOR)
  }

  predicate IsWriterStep(step: L.Step) {
    step.Kzalloc? || step.AddTail? || step.Unlink? || step.CallRcu? || step.Callback?
  }

  predicate Enabled(s: State, step: Step) {
    match step
    case Timer => s.pending && s.work.Idle?
    case TestStart(_) => s.work.Started?
    case Traverse(l) => (s.work.Reporting? || s.work.Checking?) && IsReaderStep(l) && L.Enabled(s.list, l)
    case LeaveReport => s.work.Reporting? && MONITOR !in s.list.readers
    case LeaveCheck => s.work.Checking? && MONITOR !in s.list.readers
    case ReadEnabled => s.work.TestEnabled?
    case ReadShutdown => s.work.TestShutdown?
    case Schedule => s.work.Scheduling?
    case Writer(l) => IsWriterStep(l) && L.Enabled(s.list, l)
    case SetFlag => s.fini.NotCalled?
    case Disable => s.fini.FlagSet?
    case BeginCancel => s.fini.Disabled?
    case EndCancel => s.fini.Cancelling? && s.work.Idle?
    // the drain loop takes the lock, which readers do not: nothing here mentions readers
    case DrainOne => s.fini.Draining? && L.CanDrain(s.list)
    case DrainDone => s.fini.Draining? && s.list.first == L.Head
  }

  function Do(s: State, step: Step): State
    requires Enabled(s, step)
  {
    match step
    case Timer => s.(pending := false, work := Started)
    case TestStart(over) =>
      s.(work := if s.shutdown then Idle else if over then Reporting else Checking)
    case Traverse(l) => s.(list := L.Do(s.list, l))
    case LeaveReport => s.(work := Checking)
    case LeaveCheck => s.(work := TestEnabled)
    case ReadEnabled => s.(work := if s.enabled then TestShutdown else Idle)
    case ReadShutdown => s.(work := if s.shutdown then Idle else Scheduling)
    case Schedule => s.(work := Idle, pending := s.pending || !s.fini.Cancelling?)
    case Writer(l) => s.(list := L.Do(s.list, l))
    case SetFlag => s.(fini := FlagSet, shutdown := true)
    case Disable => s.(fini := Disabled, enabled := false)
    case BeginCancel => s.(fini := Cancelling, pending := false)
    case EndCancel => s.(fini := Draining)
    case DrainOne => s.(list := L.DrainFirst(s.list))
    case DrainDone => s.(fini := Done)
  }

  ghost predicate Init(s: State) {
    s.work.Idle? && s.pending && !s.shutdown && s.enabled && s.fini.NotCalled? && L.Init(s.list)
  }

  ghost predicate Run(tr: seq<State>, st: seq<Step>) {
    && |tr| == |st| + 1
    && Init(tr[0])
    && forall i | 0 <= i < |st| :: StepAt(tr, st, i)
  }

  ghost predicate StepAt(tr: seq<State>, st: seq<Step>, i: nat)
    requires i < |st| && i + 1 < |tr|
  {
    Enabled(tr[i], st[i]) && tr[i + 1] == Do(tr[i], st[i])
  }

  predicate Cancelled(s: State) {
    s.fini.Draining? || s.fini.Done?
  }

  /** Control invariant: a read section belongs to a running traversal, and the work is neither
      queued nor running once the cancel has returned. */
  ghost predicate Control(s: State) {
    && (forall r | r in s.list.readers :: r == MONITOR && (s.work.Reporting? || s.work.Checking?))
    && (s.fini.Cancelling? ==> !s.pending)
    && (Cancelled(s) ==> !s.pending && s.work.Idle?)
  }

  lemma NoReadersWhenCancelled(s: State)
    requires Control(s) && Cancelled(s)
    ensures L.Quiescent(s.list)
  {
    assert forall r :: r !in s.list.readers;
    assert s.list.readers == map[];
  }

  lemma ListStepReaders(s: L.State, step: L.Step, r: nat)
    requires L.Inv(s) && L.Enabled(s, step) && r in L.Do(s, step).readers
    ensures r in s.readers || step == L.Enter(r)
  {
    if step != L.Enter(r) && step != L.Load(r) {
      L.ReadersSame(s, step, r);
    }
  }

  lemma StepControl(s: State, step: Step)
    requires Control(s) && L.Inv(s.list) && Enabled(s, step)
    ensures Control(Do(s, step)) && L.Inv(Do(s, step).list)
  {
    var s' := Do(s, step);
    match step
    case Traverse(l) =>
      L.StepInv(s.list, l);
      forall r | r in s'.list.readers
        ensures r == MONITOR
      {
        ListStepReaders(s.list, l, r);
      }
    case Writer(l) =>
      L.StepInv(s.list, l);
      forall r | r in s'.list.readers
        ensures r == MONITOR && (s.work.Reporting? || s.work.Checking?)
      {
        ListStepReaders(s.list, l, r);
      }
    case DrainOne =>
      NoReadersWhenCancelled(s);
      L.StepInv(s.list, L.Drain);
      forall r | r in s'.list.readers
        ensures false
      {
        ListStepReaders(s.list, L.Drain, r);
      }
    case _ =>
  }

  lemma {:induction false} RunControl(tr: seq<State>, st: seq<Step>, n: nat)
    requires Run(tr, st) && n < |tr|
    ensures Control(tr[n]) && L.Inv(tr[n].list)
  {
    if n > 0 {
      RunControl(tr, st, n - 1);
      assert StepAt(tr, st, n - 1);
      StepControl(tr[n - 1], st[n - 1]);
    }
  }

  lemma {:induction false} CancelledStays(tr: seq<State>, st: seq<Step>, m: nat, n: nat)
    requires Run(tr, st) && m <= n < |tr| && Cancelled(tr[m])
    ensures Cancelled(tr[n])
    decreases n - m
  {
    if m < n {
      CancelledStays(tr, st, m, n - 1);
      assert StepAt(tr, st, n - 1);
    }
  }

  /** Monitor shutdown: once cancel_delayed_work_sync has returned, the monitor is never queued and
      never running again, and no read section is open; so no traversal overlaps the drain loop. */
  lemma MonitorStaysStopped(tr: seq<State>, st: seq<Step>, m: nat, n: nat)
    requires Run(tr, st) && m <= n < |tr| && Cancelled(tr[m])
    ensures !tr[n].pending && tr[n].work.Idle? && L.Quiescent(tr[n].list)
  {
    CancelledStays(tr, st, m, n);
    RunControl(tr, st, n);
    NoReadersWhenCancelled(tr[n]);
  }

  /** The list step hidden in a step of the system, if there is one. */
  function ListStep(step: Step): seq<L.Step> {
    match step
    case Traverse(l) => [l]
    case Writer(l) => [l]
    case DrainOne => [L.Drain]
    case _ => []
  }

  lemma ListStepIsOne(s: State, step: Step)
    requires Control(s) && Enabled(s, step)
    ensures ListStep(step) == [] ==> Do(s, step).list == s.list
    ensures ListStep(step) != [] ==> L.Enabled(s.list, ListStep(step)[0]) && Do(s, step).list == L.Do(s.list, ListStep(step)[0])
  {
    if step.DrainOne? {
      NoReadersWhenCancelled(s);
    }
  }

  /** Refinement: what monitor, RCU writers and fini do to the list is a run of the RCU list, whose
      drain is allowed only while no read section is open.  So everything proved of those runs, reader
      safety and a single kfree per object included, holds of them from init to the end of fini. */
  lemma {:induction false} ListRefines(tr: seq<State>, st: seq<Step>, n: nat) returns (ltr: seq<L.State>, lst: seq<L.Step>)
    requires Run(tr, st) && n < |tr|
    ensures L.Run(ltr, lst) && ltr[|ltr| - 1] == tr[n].list
  {
    if n == 0 {
      ltr, lst := [tr[0].list], [];
    } else {
      ltr, lst := ListRefines(tr, st, n - 1);
      RunControl(tr, st, n - 1);
      assert StepAt(tr, st, n - 1);
      ListStepIsOne(tr[n - 1], st[n - 1]);
      if ListStep(st[n - 1]) != [] {
        ltr, lst := L.Extend(ltr, lst, ListStep(st[n - 1])[0]);
      }
    }
  }

  /** Whatever monitor, RCU writers and fini do, no reader can reach freed memory, and each object is
      freed at most once. */
  lemma TeardownIsSafe(tr: seq<State>, st: seq<Step>, n: nat, r: nat)
    requires Run(tr, st) && n < |tr|
    ensures r in tr[n].list.readers ==> L.SafeReader(tr[n].list, tr[n].list.readers[r])
    ensures forall k :: multiset(tr[n].list.kfreed)[k] <= 1
  {
    var ltr, lst := ListRefines(tr, st, n);
    if r in tr[n].list.readers {
      L.ReadersNeverReachFreedMemory(ltr, lst, |ltr| - 1, r);
    }
    forall k: nat
      ensures multiset(tr[n].list.kfreed)[k] <= 1
    {
      L.RunInv(ltr, lst, |ltr| - 1);
      L.OnceInSeq(tr[n].list.kfreed, k);
    }
  }

  ghost predicate NothingListed(s: L.State) {
    forall i: nat :: !L.IsListed(s.nodes, i)
  }

  /** No object is added in steps m to n. */
  ghost predicate NoAdds(st: seq<Step>, m: nat, n: nat)
    requires n <= |st|
  {
    forall i | m <= i < n :: !(st[i].Writer? && st[i].list.AddTail?)
  }

  /** Only an add puts an object on the list. */
  lemma StepListsNothing(s: State, step: Step)
    requires Control(s) && L.Inv(s.list) && Enabled(s, step) && Cancelled(s)
    requires NothingListed(s.list) && !(step.Writer? && step.list.AddTail?)
    ensures NothingListed(Do(s, step).list)
  {
    if step.Writer? {
      L.StepChanges(s.list, step.list);
      var s' := Do(s, step);
      forall i: nat
        ensures !L.IsListed(s'.list.nodes, i)
      {
        assert !L.IsListed(s.list.nodes, i);
      }
    }
  }

  lemma {:induction false} StaysEmpty(tr: seq<State>, st: seq<Step>, m: nat, n: nat)
    requires Run(tr, st) && m < n < |tr| && st[m] == DrainDone && NoAdds(st, m + 1, n)
    ensures NothingListed(tr[n].list)
    decreases n - m
  {
    if n == m + 1 {
      EmptyAtFirst(tr, st, m);
    } else {
      StaysEmpty(tr, st, m, n - 1);
      DoneAfter(tr, st, m);
      CancelledStays(tr, st, m + 1, n - 1);
      EmptyThen(tr, st, n - 1);
    }
  }

  lemma EmptyAtFirst(tr: seq<State>, st: seq<Step>, m: nat)
    requires Run(tr, st) && m < |st| && st[m] == DrainDone
    ensures NothingListed(tr[m + 1].list)
  {
    AtStep(tr, st, m);
    DrainedIsEmpty(tr[m]);
  }

  lemma EmptyThen(tr: seq<State>, st: seq<Step>, i: nat)
    requires Run(tr, st) && i < |st| && Cancelled(tr[i]) && NothingListed(tr[i].list)
    requires !(st[i].Writer? && st[i].list.AddTail?)
    ensures NothingListed(tr[i + 1].list)
  {
    AtStep(tr, st, i);
    StepListsNothing(tr[i], st[i]);
  }

  lemma AtStep(tr: seq<State>, st: seq<Step>, i: nat)
    requires Run(tr, st) && i < |st|
    ensures Enabled(tr[i], st[i]) && tr[i + 1] == Do(tr[i], st[i]) && Control(tr[i]) && L.Inv(tr[i].list)
  {
    RunControl(tr, st, i);
    assert StepAt(tr, st, i);
  }

  lemma DrainedIsEmpty(s: State)
    requires L.Inv(s.list) && Enabled(s, DrainDone)
    ensures NothingListed(Do(s, DrainDone).list)
  {
    assert L.IsNext(s.list.nodes, -1, L.Head);
  }

  lemma DoneAfter(tr: seq<State>, st: seq<Step>, m: nat)
    requires Run(tr, st) && m < |st| && st[m] == DrainDone
    ensures Cancelled(tr[m + 1])
  {
    assert StepAt(tr, st, m);
  }

  /** fini is done only once its drain loop has ended. */
  lemma {:induction false} DoneMeansDrained(tr: seq<State>, st: seq<Step>, n: nat) returns (m: nat)
    requires Run(tr, st) && n < |tr| && tr[n].fini.Done?
    ensures m < n && st[m] == DrainDone
  {
    assert n > 0 && StepAt(tr, st, n - 1);
    if st[n - 1] == DrainDone {
      m := n - 1;
    } else {
      m := DoneMeansDrained(tr, st, n - 1);
    }
  }

  /** Unlinked by an RCU remove and not yet freed by its callback. */
  predicate IsPending(nodes: seq<L.Node>, i: nat) {
    i < |nodes| && (nodes[i].life.Unlinked? || nodes[i].life.Waiting?)
  }

  /** The teardown leaks nothing: if no object is added after the drain loop has ended, the list stays
      empty, and every object ever listed has been freed exactly once if and only if no callback is
      outstanding. */
  lemma TeardownFreesAll(tr: seq<State>, st: seq<Step>, m: nat, n: nat)
    requires Run(tr, st) && m < n < |tr| && st[m] == DrainDone && NoAdds(st, m + 1, n)
    ensures var s := tr[n].list;
      && NothingListed(s)
      && ((forall i | 0 <= i < |s.nodes| :: multiset(s.kfreed)[i] == 1) <==> forall i :: !IsPending(s.nodes, i))
  {
    StaysEmpty(tr, st, m, n);
    RunControl(tr, st, n);
    var s := tr[n].list;
    forall i: nat | i < |s.nodes|
      ensures multiset(s.kfreed)[i] == 1 <==> !IsPending(s.nodes, i)
    {
      assert !L.IsListed(s.nodes, i);
      L.FreeCount(s, i);
    }
  }
}
