/** What the monitor does from one run to the next, and that fini comes to its end
    (pddgpu_memory_stats.c:24-60, 123-151). */
module Monitor {
  import L = RcuList
  import G = RcuGrace
  import opened Teardown

  // ----- the books of a run -----

  /** Kinds of steps, some by what they find. */
  datatype Kind =
    | Runs | Starts | StartsUp | StartsOver     // the work function runs; device up; and usage over the threshold
    | Reports | Checks                          // it is done with its report; with its check
    | LooksEnabled | FindsEnabled
    | LooksUp | FindsUp
    | Queues | QueuesWell                       // schedule_delayed_work; outside a cancel
    | TakesOff                                  // the cancel finds the work queued

  predicate Is(kind: Kind, s: State, step: Step) {
    match kind
    case Runs => step.Timer?
    case Starts => step.TestStart?
    case StartsUp => step.TestStart? && !s.shutdown
    case StartsOver => step.TestStart? && !s.shutdown && step.overThreshold
    case Reports => step.LeaveReport?
    case Checks => step.LeaveCheck?
    case LooksEnabled => step.ReadEnabled?
    case FindsEnabled => step.ReadEnabled? && s.enabled
    case LooksUp => step.ReadShutdown?
    case FindsUp => step.ReadShutdown? && !s.shutdown
    case Queues => step.Schedule?
    case QueuesWell => step.Schedule? && !s.fini.Cancelling?
    case TakesOff => step.BeginCancel? && s.pending
  }

  /** How many of the first n steps are of a kind. */
  function Count(tr: seq<State>, st: seq<Step>, n: nat, kind: Kind): nat
    requires n <= |st| < |tr|
  {
    if n == 0 then 0 else Count(tr, st, n - 1, kind) + One(Is(kind, tr[n - 1], st[n - 1]))
  }

  function One(b: bool): nat {
    if b then 1 else 0
  }

  /** fini's flags are set in their order. */
  predicate Flags(s: State) {
    && (s.shutdown <==> !s.fini.NotCalled?)
    && (s.enabled <==> s.fini.NotCalled? || s.fini.FlagSet?)
    && (s.pending ==> s.work.Idle?)
  }

  lemma {:induction false} RunFlags(tr: seq<State>, st: seq<Step>, n: nat)
    requires Run(tr, st) && n < |tr|
    ensures Flags(tr[n])
  {
    if n > 0 {
      RunFlags(tr, st, n - 1);
      assert StepAt(tr, st, n - 1);
    }
  }

  /** Where the work function is, in terms of what it has done so far: up to its check, */
  ghost predicate CheckBooks(tr: seq<State>, st: seq<Step>, n: nat)
    requires n <= |st| < |tr|
  {
    var work := tr[n].work;
    && Count(tr, st, n, Runs) == Count(tr, st, n, Starts) + One(work.Started?)
    && Count(tr, st, n, StartsOver) == Count(tr, st, n, Reports) + One(work.Reporting?)
    && Count(tr, st, n, StartsUp) == Count(tr, st, n, Checks) + One(work.Reporting?) + One(work.Checking?)
  }

  /** and after it; */
  ghost predicate QueueBooks(tr: seq<State>, st: seq<Step>, n: nat)
    requires n <= |st| < |tr|
  {
    var work := tr[n].work;
    && Count(tr, st, n, Checks) == Count(tr, st, n, LooksEnabled) + One(work.TestEnabled?)
    && Count(tr, st, n, FindsEnabled) == Count(tr, st, n, LooksUp) + One(work.TestShutdown?)
    && Count(tr, st, n, FindsUp) == Count(tr, st, n, Queues) + One(work.Scheduling?)
  }

  /** and where the work item is: init queues it once. */
  ghost predicate ItemBooks(tr: seq<State>, st: seq<Step>, n: nat)
    requires n <= |st| < |tr|
  {
    1 + Count(tr, st, n, QueuesWell) == Count(tr, st, n, Runs) + One(tr[n].pending) + Count(tr, st, n, TakesOff)
  }

  lemma {:induction false} RunCheckBooks(tr: seq<State>, st: seq<Step>, n: nat)
    requires Run(tr, st) && n < |tr|
    ensures CheckBooks(tr, st, n)
  {
    if n > 0 {
      RunCheckBooks(tr, st, n - 1);
      assert StepAt(tr, st, n - 1);
    }
  }

  lemma {:induction false} RunQueueBooks(tr: seq<State>, st: seq<Step>, n: nat)
    requires Run(tr, st) && n < |tr|
    ensures QueueBooks(tr, st, n)
  {
    if n > 0 {
      RunQueueBooks(tr, st, n - 1);
      assert StepAt(tr, st, n - 1);
    }
  }

  lemma {:induction false} RunItemBooks(tr: seq<State>, st: seq<Step>, n: nat)
    requires Run(tr, st) && n < |tr|
    ensures ItemBooks(tr, st, n)
  {
    if n > 0 {
      RunItemBooks(tr, st, n - 1);
      RunFlags(tr, st, n - 1);
      assert StepAt(tr, st, n - 1);
    }
  }

  /** The monitor's decisions over every run: a run of it prints a report exactly if it finds the
      device up and usage over the threshold, checks for leaks exactly if it finds the device up, and
      queues itself again exactly if it is then still enabled and the device still up; and each run of
      it comes from the first queueing or from one of those. */
  lemma MonitorBooks(tr: seq<State>, st: seq<Step>, n: nat)
    requires Run(tr, st) && n < |tr|
    ensures CheckBooks(tr, st, n) && QueueBooks(tr, st, n) && ItemBooks(tr, st, n)
  {
    RunCheckBooks(tr, st, n);
    RunQueueBooks(tr, st, n);
    RunItemBooks(tr, st, n);
  }

  // ----- one run of the monitor by itself -----

  predicate Legal(s: State, steps: seq<Step>)
    decreases |steps|
  {
    |steps| == 0 || (Enabled(s, steps[0]) && Legal(Do(s, steps[0]), steps[1..]))
  }

  function Exec(s: State, steps: seq<Step>): State
    requires Legal(s, steps)
    decreases |steps|
  {
    if |steps| == 0 then s else Exec(Do(s, steps[0]), steps[1..])
  }

  lemma First(s: State, step: Step, steps: seq<Step>)
    requires Enabled(s, step) && Legal(Do(s, step), steps)
    ensures Legal(s, [step] + steps) && Exec(s, [step] + steps) == Exec(Do(s, step), steps)
  {
    assert ([step] + steps)[1..] == steps;
  }

  lemma {:induction false} Then(s: State, before: seq<Step>, after: seq<Step>)
    requires Legal(s, before) && Legal(Exec(s, before), after)
    ensures Legal(s, before + after) && Exec(s, before + after) == Exec(Exec(s, before), after)
    decreases |before|
  {
    if |before| > 0 {
      Then(Do(s, before[0]), before[1..], after);
      First(s, before[0], before[1..] + after);
      assert before + after == [before[0]] + (before[1..] + after);
    } else {
      assert before + after == after;
    }
  }

  /** A step of the work function, once it runs. */
  predicate IsOwn(step: Step) {
    || step.TestStart? || step.Traverse? || step.LeaveReport? || step.LeaveCheck?
    || step.ReadEnabled? || step.ReadShutdown? || step.Schedule?
  }

  predicate AllOwn(steps: seq<Step>) {
    forall i | 0 <= i < |steps| :: IsOwn(steps[i])
  }

  /** What a run that goes on without the others will have done once it ends. */
  predicate Bound(s: State) {
    match s.work
    case Idle => s.pending <==> s.enabled && !s.shutdown && !s.fini.Cancelling?
    case Started => !s.pending
    case Reporting => !s.pending && !s.shutdown
    case Checking => !s.pending && !s.shutdown
    case TestEnabled => !s.pending && !s.shutdown
    case TestShutdown => !s.pending && !s.shutdown && s.enabled
    case Scheduling => !s.pending && !s.shutdown && s.enabled
  }

  lemma {:induction false} StaysBound(s: State, steps: seq<Step>)
    requires Bound(s) && Legal(s, steps) && AllOwn(steps)
    ensures var e := Exec(s, steps);
      Bound(e) && e.shutdown == s.shutdown && e.enabled == s.enabled && e.fini == s.fini
    decreases |steps|
  {
    if |steps| > 0 {
      assert IsOwn(steps[0]);
      StaysBound(Do(s, steps[0]), steps[1..]);
    }
  }

  /** The monitor keeps itself going exactly while it is wanted: left to itself, a run that ends has
      queued the next one if and only if the monitor is enabled, the device is up and no cancel is
      under way. */
  lemma RequeuesExactly(s: State, steps: seq<Step>)
    requires s.work.Started? && !s.pending && Legal(s, steps) && AllOwn(steps) && Exec(s, steps).work.Idle?
    ensures Exec(s, steps).pending <==> s.enabled && !s.shutdown && !s.fini.Cancelling?
  {
    StaysBound(s, steps);
  }

  /** A read section of the monitor as steps of the system. */
  function Traverses(steps: seq<L.Step>): seq<Step> {
    if |steps| == 0 then [] else [Traverse(steps[0])] + Traverses(steps[1..])
  }

  lemma {:induction false} TraversesRun(s: State, steps: seq<L.Step>)
    requires s.work.Reporting? || s.work.Checking?
    requires G.Legal(s.list, steps) && forall k | 0 <= k < |steps| :: IsReaderStep(steps[k])
    ensures Legal(s, Traverses(steps)) && AllOwn(Traverses(steps))
    ensures Exec(s, Traverses(steps)) == s.(list := G.Exec(s.list, steps))
    decreases |steps|
  {
    if |steps| > 0 {
      assert IsReaderStep(steps[0]);
      TraversesRun(Do(s, Traverse(steps[0])), steps[1..]);
      First(s, Traverse(steps[0]), Traverses(steps[1..]));
    }
  }

  /** Finishes an open read section, if there is one. */
  lemma FinishSection(s: State) returns (steps: seq<Step>)
    requires L.Inv(s.list) && (s.work.Reporting? || s.work.Checking?)
    ensures Legal(s, steps) && AllOwn(steps)
    ensures var e := Exec(s, steps);
      && e.work == s.work && e.fini == s.fini && L.Inv(e.list) && MONITOR !in e.list.readers
      && SameNodes(s, e)
  {
    if MONITOR in s.list.readers {
      var section := G.FinishSection(s.list, MONITOR);
      assert forall k | 0 <= k < |section| :: IsReaderStep(section[k]);
      TraversesRun(s, section);
      steps := Traverses(section);
    } else {
      steps := [];
    }
  }

  function WorkLeft(w: Work): nat {
    match w
    case Idle => 0
    case Scheduling => 1
    case TestShutdown => 2
    case TestEnabled => 3
    case Checking => 4
    case Reporting => 5
    case Started => 6
  }

  /** Finishes the report or the check under way. */
  lemma FinishWalk(s: State) returns (steps: seq<Step>)
    requires L.Inv(s.list) && (s.work.Reporting? || s.work.Checking?)
    ensures Legal(s, steps) && AllOwn(steps)
    ensures var e := Exec(s, steps);
      WorkLeft(e.work) < WorkLeft(s.work) && L.Inv(e.list) && e.fini == s.fini && SameNodes(s, e)
  {
    var section := FinishSection(s);
    var e := Exec(s, section);
    var leave := if s.work.Reporting? then LeaveReport else LeaveCheck;
    Single(e, leave);
    Then(s, section, [leave]);
    steps := section + [leave];
  }

  lemma Single(s: State, step: Step)
    requires Enabled(s, step)
    ensures Legal(s, [step]) && Exec(s, [step]) == Do(s, step)
  {
    First(s, step, []);
    assert [step] + [] == [step];
  }

  /** A run of the monitor can always go on to its end by its own steps. */
  lemma {:induction false} FinishRun(s: State) returns (steps: seq<Step>)
    requires L.Inv(s.list)
    ensures Legal(s, steps) && AllOwn(steps)
    ensures var e := Exec(s, steps); e.work.Idle? && L.Inv(e.list) && e.fini == s.fini && SameNodes(s, e)
    decreases WorkLeft(s.work)
  {
    if s.work.Idle? {
      steps := [];
    } else {
      steps := NextStage(s);
      var e := Exec(s, steps);
      var rest := FinishRun(e);
      Then(s, steps, rest);
      steps := steps + rest;
    }
  }

  lemma NextStage(s: State) returns (steps: seq<Step>)
    requires L.Inv(s.list) && !s.work.Idle?
    ensures Legal(s, steps) && AllOwn(steps)
    ensures var e := Exec(s, steps);
      WorkLeft(e.work) < WorkLeft(s.work) && L.Inv(e.list) && e.fini == s.fini && SameNodes(s, e)
  {
    if s.work.Reporting? || s.work.Checking? {
      steps := FinishWalk(s);
    } else {
      steps := NextTest(s);
    }
  }

  lemma NextTest(s: State) returns (steps: seq<Step>)
    requires L.Inv(s.list) && !s.work.Idle? && !s.work.Reporting? && !s.work.Checking?
    ensures Legal(s, steps) && AllOwn(steps)
    ensures var e := Exec(s, steps);
      WorkLeft(e.work) < WorkLeft(s.work) && L.Inv(e.list) && e.fini == s.fini && SameNodes(s, e)
  {
    var step := match s.work
      case Started => TestStart(false)
      case TestEnabled => ReadEnabled
      case TestShutdown => ReadShutdown
      case _ => Schedule;
    Single(s, step);
    steps := [step];
  }

  predicate SameNodes(s: State, e: State) {
    e.list.nodes == s.list.nodes && e.list.kfreed == s.list.kfreed
  }

  /** So a run that finds the monitor wanted can go on through its check to queueing the next one. */
  lemma RunQueuesNext(s: State, over: bool) returns (steps: seq<Step>)
    requires L.Inv(s.list) && s.work.Started? && !s.pending && s.enabled && !s.shutdown && !s.fini.Cancelling?
    ensures |steps| > 0 && steps[0] == TestStart(over) && Legal(s, steps) && AllOwn(steps)
    ensures Exec(s, steps).work.Idle? && Exec(s, steps).pending
  {
    var rest := FinishRun(Do(s, TestStart(over)));
    First(s, TestStart(over), rest);
    steps := [TestStart(over)] + rest;
    RequeuesExactly(s, steps);
  }

  // ----- fini comes to its end -----

  /** The drain loop frees what is on the list, and ends. */
  lemma {:induction false} DrainAll(s: State) returns (steps: seq<Step>)
    requires Control(s) && L.Inv(s.list) && s.fini.Draining?
    ensures Legal(s, steps) && |steps| == |G.Contents(s.list.nodes)| + 1
    ensures forall i | 0 <= i < |steps| - 1 :: steps[i] == DrainOne
    ensures steps[|steps| - 1] == DrainDone && Exec(s, steps).fini.Done?
    decreases |G.Contents(s.list.nodes)|
  {
    if |G.Contents(s.list.nodes)| == 0 {
      G.DrainGoesOn(s.list);
      Single(s, DrainDone);
      steps := [DrainDone];
    } else {
      DrainStep(s);
      var rest := DrainAll(Do(s, DrainOne));
      First(s, DrainOne, rest);
      steps := [DrainOne] + rest;
    }
  }

  lemma DrainStep(s: State)
    requires Control(s) && L.Inv(s.list) && s.fini.Draining? && |G.Contents(s.list.nodes)| > 0
    ensures Enabled(s, DrainOne)
    ensures var e := Do(s, DrainOne);
      && Control(e) && L.Inv(e.list) && e.fini.Draining?
      && |G.Contents(e.list.nodes)| == |G.Contents(s.list.nodes)| - 1
  {
    G.DrainGoesOn(s.list);
    G.DrainTakesFirst(s.list);
    StepControl(s, DrainOne);
  }

  lemma {:induction false} StaysControlled(s: State, steps: seq<Step>)
    requires Control(s) && L.Inv(s.list) && Legal(s, steps)
    ensures Control(Exec(s, steps)) && L.Inv(Exec(s, steps).list)
    decreases |steps|
  {
    if |steps| > 0 {
      StepControl(s, steps[0]);
      StaysControlled(Do(s, steps[0]), steps[1..]);
    }
  }

  function FiniLeft(f: Fini): nat {
    match f
    case NotCalled => 5
    case FlagSet => 4
    case Disabled => 3
    case Cancelling => 2
    case Draining => 1
    case Done => 0
  }

  /** fini never gets stuck: from every state that a run can reach, its own steps and those that finish
      a run of the monitor bring it to its end. */
  lemma {:induction false} FiniCanFinish(s: State) returns (steps: seq<Step>)
    requires Control(s) && L.Inv(s.list)
    ensures Legal(s, steps) && Exec(s, steps).fini.Done?
    ensures forall i | 0 <= i < |steps| :: IsOwn(steps[i]) || IsFini(steps[i])
    decreases FiniLeft(s.fini)
  {
    if s.fini.Done? {
      steps := [];
    } else if s.fini.Draining? {
      steps := DrainAll(s);
    } else {
      var stage := FiniStage(s);
      StaysControlled(s, stage);
      var rest := FiniCanFinish(Exec(s, stage));
      Then(s, stage, rest);
      steps := stage + rest;
    }
  }

  predicate IsFini(step: Step) {
    step.SetFlag? || step.Disable? || step.BeginCancel? || step.EndCancel? || step.DrainOne? || step.DrainDone?
  }

  lemma FiniStage(s: State) returns (steps: seq<Step>)
    requires L.Inv(s.list) && !s.fini.Done? && !s.fini.Draining?
    ensures Legal(s, steps) && FiniLeft(Exec(s, steps).fini) < FiniLeft(s.fini)
    ensures forall i | 0 <= i < |steps| :: IsOwn(steps[i]) || IsFini(steps[i])
  {
    if s.fini.Cancelling? {
      var run := FinishRun(s);
      Single(Exec(s, run), EndCancel);
      Then(s, run, [EndCancel]);
      steps := run + [EndCancel];
    } else {
      var step := if s.fini.NotCalled? then SetFlag else if s.fini.FlagSet? then Disable else BeginCancel;
      Single(s, step);
      steps := [step];
    }
  }

  // ----- what TeardownFreesAll asks of its callers is needed -----

  /** An object added after the drain loop stays on the list, with nothing left to free it. */
  lemma LateAddStays(s: State, t: nat, bo: nat)
    requires Control(s) && L.Inv(s.list) && s.fini.Done? && t !in s.list.locals
    ensures var steps := [Writer(L.Kzalloc(t, bo))] + [Writer(L.AddTail(t))];
      && Legal(s, steps) && Exec(s, steps).fini.Done?
      && G.Contents(Exec(s, steps).list.nodes) == G.Contents(s.list.nodes) + [bo]
  {
    G.CreateAppends(s.list, t, bo);
    var s1 := Do(s, Writer(L.Kzalloc(t, bo)));
    Single(s1, Writer(L.AddTail(t)));
    First(s, Writer(L.Kzalloc(t, bo)), [Writer(L.AddTail(t))]);
  }

  // ----- writers are free -----

  function Writes(steps: seq<L.Step>): seq<Step> {
    if |steps| == 0 then [] else [Writer(steps[0])] + Writes(steps[1..])
  }

  /** The converse of ListRefines: whatever writers and callbacks can do to the list they can do in the
      system, wherever monitor and fini stand. */
  lemma {:induction false} WritersAreFree(s: State, steps: seq<L.Step>)
    requires G.Legal(s.list, steps)
    requires forall k | 0 <= k < |steps| :: !steps[k].Enter? && !steps[k].Load? && !steps[k].Exit? && !steps[k].Drain?
    ensures Legal(s, Writes(steps)) && Exec(s, Writes(steps)) == s.(list := G.Exec(s.list, steps))
    decreases |steps|
  {
    if |steps| > 0 {
      var step := steps[0];
      assert !step.Enter? && !step.Load? && !step.Exit? && !step.Drain?;
      WritersAreFree(Do(s, Writer(step)), steps[1..]);
      First(s, Writer(step), Writes(steps[1..]));
    }
  }

  /** A report or a check that is left alone traverses the whole list. */
  lemma TraversesAll(s: State) returns (steps: seq<Step>)
    requires L.Inv(s.list) && (s.work.Reporting? || s.work.Checking?) && MONITOR !in s.list.readers
    ensures Legal(s, steps) && AllOwn(steps)
    ensures var e := Exec(s, steps);
      && e.work == s.work && MONITOR in e.list.readers && e.list.readers[MONITOR].pos == L.On(L.Head)
      && e.list.readers[MONITOR].visited == L.ListOf(s.list)
  {
    var section := G.LoneSection(s.list, MONITOR);
    assert forall k | 0 <= k < |section| :: IsReaderStep(section[k]);
    TraversesRun(s, section);
    steps := Traverses(section);
  }
}
