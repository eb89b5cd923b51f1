/** The double-checked ready test of the GTT manager against the takedown of its allocator
    (pddgpu_gtt_mgr.c:36-40, 67-73, 102-133, 169-193, 320-376, pddgpu_device.c:108-118), as a
    transition system over any number of threads.  `is_ready` is two separate reads of the state
    word, outside the lock and again inside it; atomics are sequentially consistent.

    alloc, free and recover test device_state first.  The device is flagged as shut down before fini
    runs.  A recover that has passed its test re-initializes the allocator, under the lock, before
    it stores READY; since that neither uses nor takes down a node, only its two ends are steps. */
module GttShutdown {
  import opened ManagerState

  /** Where a thread stands in alloc or free. */
  datatype Pc =
    | Outside
    | DeviceTest        // about to read device_state
    | OuterReady        // about to read the READY bit, without the lock
    | OuterShutdown     // about to read the SHUTDOWN bit, without the lock
    | Waiting           // for the spinlock
    | InnerReady        // the same two reads with the lock held
    | InnerShutdown
    | Using             // about to insert or remove a node
    | Leaving(retry: bool)

  /** What a thread does: alloc inserts a node and has failed so many times, free removes one. */
  datatype Op = Insert(failures: nat) | Remove

  datatype Thread = Thread(pc: Pc, op: Op)

  datatype Fini = NotCalled | Stored | Locked | TakenDown | Done

  datatype Holder = Nobody | By(t: nat) | InFini

  /** What happened to the drm_mm. */
  datatype Event = Used(t: nat) | Takedown

  datatype State = State(
    device: bool,               // device_state has the SHUTDOWN bit
    word: Flags,                // mgr->state
    holder: Holder,             // of the spinlock
    threads: seq<Thread>,
    fini: Fini,
    recovers: nat,              // recovers past their device test that have not stored READY yet
    log: seq<Event>)

  datatype Step =
    | Call(t: nat, insert: bool)
    | TestDevice(t: nat)
    | ReadReady(t: nat)
    | ReadShutdown(t: nat)
    | Lock(t: nat)
    | Use(t: nat, fails: bool)   // an insert that fails is retried, which takes the lock anew
    | Unlock(t: nat)
    | DeviceStore
    | FiniStore
    | FiniLock
    | FiniTakedown
    | FiniUnlock
    | RecoverTest
    | RecoverStore

  const RETRY_COUNT: nat := 3    // PDDGPU_GTT_ALLOC_RETRY_COUNT

  predicate Enabled(s: State, step: Step) {
    match step
    case Call(t, _) => t < |s.threads| && s.threads[t].pc.Outside?
    case TestDevice(t) => t < |s.threads| && s.threads[t].pc.DeviceTest?
    case ReadReady(t) => t < |s.threads| && (s.threads[t].pc.OuterReady? || s.threads[t].pc.InnerReady?)
    case ReadShutdown(t) => t < |s.threads| && (s.threads[t].pc.OuterShutdown? || s.threads[t].pc.InnerShutdown?)
    case Lock(t) => t < |s.threads| && s.threads[t].pc.Waiting? && s.holder.Nobody?
    case Use(t, _) => t < |s.threads| && s.threads[t].pc.Using?
    case Unlock(t) => t < |s.threads| && s.threads[t].pc.Leaving?
    case DeviceStore => true
    case FiniStore => s.device && s.fini.NotCalled?
    case FiniLock => s.fini.Stored? && s.holder.Nobody?
    case FiniTakedown => s.fini.Locked?
    case FiniUnlock => s.fini.TakenDown?
    case RecoverTest => true
    case RecoverStore => s.recovers > 0
  }

  function At(s: State, t: nat, pc: Pc): State
    requires t < |s.threads|
  {
    s.(threads := s.threads[t := s.threads[t].(pc := pc)])
  }

  /** An insert that fails for the third time is given up. */
  predicate Retries(op: Op) {
    op.Insert? && op.failures + 1 < RETRY_COUNT
  }

  /** The thread after its turn at the allocator. */
  function AfterUse(th: Thread, fails: bool): Thread {
    if fails && Retries(th.op) then Thread(Leaving(true), Insert(th.op.failures + 1)) else th.(pc := Leaving(false))
  }

  function Do(s: State, step: Step): State
    requires Enabled(s, step)
  {
    match step
    case Call(t, insert) => s.(threads := s.threads[t := Thread(DeviceTest, if insert then Insert(0) else Remove)])
    case TestDevice(t) => At(s, t, if s.device then Outside else OuterReady)
    case ReadReady(t) =>
      if s.threads[t].pc.OuterReady? then At(s, t, if s.word.ready then OuterShutdown else Outside)
      else At(s, t, if s.word.ready then InnerShutdown else Leaving(false))
    case ReadShutdown(t) =>
      if s.threads[t].pc.OuterShutdown? then At(s, t, if s.word.shutdown then Outside else Waiting)
      else At(s, t, if s.word.shutdown then Leaving(false) else Using)
    case Lock(t) => At(s, t, InnerReady).(holder := By(t))
    case Use(t, fails) => s.(threads := s.threads[t := AfterUse(s.threads[t], fails)], log := s.log + [Used(t)])
    case Unlock(t) => At(s, t, if s.threads[t].pc.retry then Waiting else Outside).(holder := Nobody)
    case DeviceStore => s.(device := true)
    case FiniStore => s.(word := SHUTDOWN, fini := Stored)
    case FiniLock => s.(holder := InFini, fini := Locked)
    case FiniTakedown => s.(fini := TakenDown, log := s.log + [Takedown])
    case FiniUnlock => s.(fini := Done, holder := Nobody)
    case RecoverTest => if s.device then s else s.(recovers := s.recovers + 1)
    case RecoverStore => s.(word := READY, recovers := s.recovers - 1)
  }

  predicate Init(s: State) {
    && !s.device && s.word == READY && s.holder.Nobody? && s.fini.NotCalled? && s.recovers == 0 && |s.log| == 0
    && forall t | 0 <= t < |s.threads| :: s.threads[t].pc.Outside?
  }

  predicate Legal(s: State, steps: seq<Step>)
    decreases |steps|
  {
    |steps| == 0 || (Enabled(s, steps[0]) && Legal(Do(s, steps[0]), steps[1..]))
  }

  function Exec(s: State, steps: seq<Step>): State
    requires Legal(s, steps)
    decreases |steps|
  {
    if |steps| == 0 then s else Exec(Do(s, steps[0]), steps[1..])
  }

  predicate HoldsLock(pc: Pc) {
    pc.InnerReady? || pc.InnerShutdown? || pc.Using? || pc.Leaving?
  }

  /** Mutual exclusion: exactly the holder is inside. */
  ghost predicate Exclusive(s: State) {
    && (forall t | 0 <= t < |s.threads| :: HoldsLock(s.threads[t].pc) <==> s.holder == By(t))
    && (s.holder.By? ==> s.holder.t < |s.threads|)
    && (s.fini.Locked? || s.fini.TakenDown? <==> s.holder.InFini?)
  }

  /** A thread that has seen READY under the lock is ahead of the takedown. */
  ghost predicate Ahead(s: State) {
    forall t | 0 <= t < |s.threads| ::
      s.threads[t].pc.InnerShutdown? || s.threads[t].pc.Using? ==> !TornDown(s)
  }

  predicate TornDown(s: State) {
    s.fini.TakenDown? || s.fini.Done?
  }

  predicate NoUseAfterTakedown(log: seq<Event>) {
    forall i, j | 0 <= i < j < |log| && log[i].Takedown? :: !log[j].Used?
  }

  ghost predicate Inv(s: State) {
    && Exclusive(s) && Ahead(s)
    && (!s.fini.NotCalled? ==> s.word == SHUTDOWN)
    && NoUseAfterTakedown(s.log)
    && (forall i | 0 <= i < |s.log| && s.log[i].Takedown? :: TornDown(s))
  }

  /** recover has made its store, if it made one at all, before fini made its own. */
  predicate NoLateRecover(s: State, steps: seq<Step>)
    requires Legal(s, steps)
    decreases |steps|
  {
    |steps| == 0 ||
    ((steps[0].RecoverStore? ==> s.fini.NotCalled?) && NoLateRecover(Do(s, steps[0]), steps[1..]))
  }

  lemma StepExclusive(s: State, step: Step)
    requires Exclusive(s) && Enabled(s, step)
    ensures Exclusive(Do(s, step))
  {
  }

  lemma StepInv(s: State, step: Step)
    requires Inv(s) && Enabled(s, step) && (step.RecoverStore? ==> s.fini.NotCalled?)
    ensures Inv(Do(s, step))
  {
    StepExclusive(s, step);
  }

  lemma {:induction false} ExecInv(s: State, steps: seq<Step>)
    requires Inv(s) && Legal(s, steps) && NoLateRecover(s, steps)
    ensures Inv(Exec(s, steps))
    decreases |steps|
  {
    if |steps| > 0 {
      StepInv(s, steps[0]);
      ExecInv(Do(s, steps[0]), steps[1..]);
    }
  }

  /** In every interleaving of any number of allocs, retries and frees with fini, no node is inserted
      or removed after the takedown, unless recover stores READY after fini has stored SHUTDOWN. */
  lemma TakedownIsFinal(s: State, steps: seq<Step>)
    requires Init(s) && Legal(s, steps) && NoLateRecover(s, steps)
    ensures NoUseAfterTakedown(Exec(s, steps).log)
  {
    ExecInv(s, steps);
  }

  /** At most one thread at a time is at the allocator, whatever recover does. */
  lemma {:induction false} OneAtATime(s: State, steps: seq<Step>)
    requires Exclusive(s) && Legal(s, steps)
    ensures Exclusive(Exec(s, steps))
    decreases |steps|
  {
    if |steps| > 0 {
      StepExclusive(s, steps[0]);
      OneAtATime(Do(s, steps[0]), steps[1..]);
    }
  }

  // ----- what a late recover makes possible -----

  /** Once the device is flagged, the threads that can still come to the allocator after its takedown:
      those past the device test that need the lock or will need it again for a retry, and the
      holder of the lock if the takedown is behind it. */
  predicate CanStillUse(th: Thread, tornDown: bool) {
    match th.pc
    case Outside => false
    case DeviceTest => false
    case Leaving(retry) => retry
    case InnerReady => tornDown || Retries(th.op)
    case InnerShutdown => tornDown || Retries(th.op)
    case Using => tornDown || Retries(th.op)
    case _ => true
  }

  ghost predicate NobodyCanStillUse(s: State) {
    forall t | 0 <= t < |s.threads| :: !CanStillUse(s.threads[t], TornDown(s))
  }

  ghost predicate Base(s: State) {
    && Exclusive(s) && (!s.fini.NotCalled? ==> s.device)
    && (TornDown(s) <==> exists i | 0 <= i < |s.log| :: s.log[i].Takedown?)
  }

  /** recover has stored READY over fini's SHUTDOWN, which nothing undoes. */
  ghost predicate Exposed(s: State) {
    Base(s) && s.word == READY && !s.fini.NotCalled?
  }

  lemma StepBase(s: State, step: Step)
    requires Base(s) && Enabled(s, step)
    ensures Base(Do(s, step))
  {
    StepExclusive(s, step);
    var s' := Do(s, step);
    if TornDown(s) {
      var i :| 0 <= i < |s.log| && s.log[i].Takedown?;
      assert s'.log[i].Takedown?;
    } else if TornDown(s') {
      assert s'.log[|s.log|].Takedown?;
    }
  }

  lemma {:induction false} StaysExposed(s: State, steps: seq<Step>)
    requires Exposed(s) && Legal(s, steps)
    ensures Exposed(Exec(s, steps))
    decreases |steps|
  {
    if |steps| > 0 {
      StepBase(s, steps[0]);
      StaysExposed(Do(s, steps[0]), steps[1..]);
    }
  }

  lemma {:induction false} LateRecoverExposes(s: State, steps: seq<Step>)
    requires Base(s) && Legal(s, steps) && !NoLateRecover(s, steps)
    ensures Exposed(Exec(s, steps))
    decreases |steps|
  {
    StepBase(s, steps[0]);
    if steps[0].RecoverStore? && !s.fini.NotCalled? {
      StaysExposed(Do(s, steps[0]), steps[1..]);
    } else {
      LateRecoverExposes(Do(s, steps[0]), steps[1..]);
    }
  }

  lemma StepHarmless(s: State, step: Step)
    requires Exposed(s) && NobodyCanStillUse(s) && NoUseAfterTakedown(s.log) && Enabled(s, step)
    ensures NobodyCanStillUse(Do(s, step)) && NoUseAfterTakedown(Do(s, step).log)
  {
    var s' := Do(s, step);
    if step.Use? {
      assert !CanStillUse(s.threads[step.t], TornDown(s));
      assert !TornDown(s);
    }
    forall t | 0 <= t < |s'.threads|
      ensures !CanStillUse(s'.threads[t], TornDown(s'))
    {
      assert !CanStillUse(s.threads[t], TornDown(s));
      assert step.FiniTakedown? ==> !HoldsLock(s.threads[t].pc);
    }
  }

  /** If nobody can, nobody ever does. */
  lemma {:induction false} StaysHarmless(s: State, steps: seq<Step>)
    requires Exposed(s) && NobodyCanStillUse(s) && NoUseAfterTakedown(s.log) && Legal(s, steps)
    ensures NoUseAfterTakedown(Exec(s, steps).log)
    decreases |steps|
  {
    if |steps| > 0 {
      StepBase(s, steps[0]);
      StepHarmless(s, steps[0]);
      StaysHarmless(Do(s, steps[0]), steps[1..]);
    }
  }

  /** How far a thread is from its use of the allocator, or the holder from releasing the lock. */
  function Distance(pc: Pc, done: bool): nat {
    match pc
    case Outside => 0
    case DeviceTest => 0
    case OuterReady => 7
    case OuterShutdown => 6
    case Waiting => 5
    case InnerReady => 4
    case InnerShutdown => 3
    case Using => 2
    case Leaving(_) => if done then 9 else 1
  }

  function FiniLeft(f: Fini): nat {
    match f
    case NotCalled => 4
    case Stored => 3
    case Locked => 2
    case TakenDown => 1
    case Done => 0
  }

  function Left(s: State, t0: nat): nat
    requires t0 < |s.threads|
  {
    match s.holder
    case By(t) => if t < |s.threads| then Distance(s.threads[t].pc, s.fini.Done?) else 0
    case Nobody => if s.fini.Done? then Distance(s.threads[t0].pc, true) else 0
    case InFini => 0
  }

  /** The next step of a thread past the device test. */
  function ThreadStep(s: State, t: nat): Step
    requires t < |s.threads|
  {
    match s.threads[t].pc
    case OuterReady => ReadReady(t)
    case OuterShutdown => ReadShutdown(t)
    case Waiting => Lock(t)
    case InnerReady => ReadReady(t)
    case InnerShutdown => ReadShutdown(t)
    case Using => Use(t, true)
    case Leaving(_) => Unlock(t)
    case _ => DeviceStore
  }

  /** The step that brings a use by t0 after the takedown nearer: let the holder of the lock go on, an
      insert by failing, then fini, then t0. */
  function Towards(s: State, t0: nat): Step
    requires t0 < |s.threads|
  {
    match s.holder
    case By(t) => if t < |s.threads| then ThreadStep(s, t) else DeviceStore
    case InFini => if s.fini.Locked? then FiniTakedown else FiniUnlock
    case Nobody => if s.fini.Stored? then FiniLock else ThreadStep(s, t0)
  }

  predicate Ready(s: State, t0: nat) {
    t0 < |s.threads| && CanStillUse(s.threads[t0], TornDown(s))
  }

  lemma TowardsIsEnabled(s: State, t0: nat)
    requires Exposed(s) && Ready(s, t0)
    ensures Enabled(s, Towards(s, t0)) && !Towards(s, t0).RecoverStore?
  {
    if s.holder.By? {
      assert HoldsLock(s.threads[s.holder.t].pc);
    } else if s.holder.Nobody? {
      assert !HoldsLock(s.threads[t0].pc);
    }
  }

  lemma TowardsIsNearer(s: State, t0: nat)
    requires Exposed(s) && Ready(s, t0) && Enabled(s, Towards(s, t0)) && !(Towards(s, t0).Use? && TornDown(s))
    ensures var s' := Do(s, Towards(s, t0));
      Ready(s', t0) && (FiniLeft(s'.fini) < FiniLeft(s.fini) || (s'.fini == s.fini && Left(s', t0) < Left(s, t0)))
  {
    if s.holder.By? {
      assert HoldsLock(s.threads[s.holder.t].pc);
    } else {
      assert !HoldsLock(s.threads[t0].pc);
    }
  }

  predicate NoRecover(steps: seq<Step>) {
    forall i | 0 <= i < |steps| :: !steps[i].RecoverStore?
  }

  lemma Prepend(s: State, step: Step, steps: seq<Step>)
    requires Enabled(s, step) && Legal(Do(s, step), steps)
    ensures Legal(s, [step] + steps) && Exec(s, [step] + steps) == Exec(Do(s, step), steps)
    ensures !step.RecoverStore? && NoRecover(steps) ==> NoRecover([step] + steps)
  {
    assert ([step] + steps)[1..] == steps;
  }

  lemma {:induction false} ReachUse(s: State, t0: nat) returns (more: seq<Step>)
    requires Exposed(s) && Ready(s, t0)
    ensures Legal(s, more) && NoRecover(more) && !NoUseAfterTakedown(Exec(s, more).log)
    decreases FiniLeft(s.fini), Left(s, t0)
  {
    TowardsIsEnabled(s, t0);
    var step := Towards(s, t0);
    var s' := Do(s, step);
    var rest := [];
    if step.Use? && TornDown(s) {
      var i :| 0 <= i < |s.log| && s.log[i].Takedown?;
      assert s'.log[i].Takedown? && s'.log[|s.log|].Used?;
    } else {
      TowardsIsNearer(s, t0);
      StepBase(s, step);
      rest := ReachUse(s', t0);
    }
    Prepend(s, step, rest);
    more := [step] + rest;
  }

  lemma {:induction false} NoRecoverIsNotLate(s: State, steps: seq<Step>)
    requires Legal(s, steps) && NoRecover(steps)
    ensures NoLateRecover(s, steps)
    decreases |steps|
  {
    if |steps| > 0 {
      NoRecoverIsNotLate(Do(s, steps[0]), steps[1..]);
    }
  }

  /** From here on, as long as recover makes no store, the allocator is not used after its takedown. */
  ghost predicate Final(e: State) {
    forall more | Legal(e, more) && NoRecover(more) :: NoUseAfterTakedown(Exec(e, more).log)
  }

  /** Exactly when the takedown is final: recover has not stored READY in the run after fini stored
      SHUTDOWN, or no thread that passed the device test in time can still come to the allocator and
      none has. */
  lemma TakedownIsFinalExactly(s: State, steps: seq<Step>)
    requires Init(s) && Legal(s, steps)
    ensures Final(Exec(s, steps)) <==>
      NoLateRecover(s, steps) || (NoUseAfterTakedown(Exec(s, steps).log) && NobodyCanStillUse(Exec(s, steps)))
  {
    var e := Exec(s, steps);
    if NoLateRecover(s, steps) {
      ExecInv(s, steps);
      forall more | Legal(e, more) && NoRecover(more)
        ensures NoUseAfterTakedown(Exec(e, more).log)
      {
        NoRecoverIsNotLate(e, more);
        ExecInv(e, more);
      }
    } else {
      LateRecoverExposes(s, steps);
      ExposedIsFinalExactly(e);
    }
  }

  lemma ExposedIsFinalExactly(e: State)
    requires Exposed(e)
    ensures Final(e) <==> NoUseAfterTakedown(e.log) && NobodyCanStillUse(e)
  {
    if !NoUseAfterTakedown(e.log) {
      assert Legal(e, []) && NoRecover([]) && Exec(e, []) == e;
    } else if NobodyCanStillUse(e) {
      forall more | Legal(e, more) && NoRecover(more)
        ensures NoUseAfterTakedown(Exec(e, more).log)
      {
        StaysHarmless(e, more);
      }
    } else {
      var t0 :| 0 <= t0 < |e.threads| && CanStillUse(e.threads[t0], TornDown(e));
      var more := ReachUse(e, t0);
      assert !NoUseAfterTakedown(Exec(e, more).log);
    }
  }

  /** It does go wrong: a thread and a recover pass their device tests, the device is flagged, fini
      stores SHUTDOWN, recover stores READY, and the thread uses the allocator after its takedown. */
  lemma LateRecoverUsesTakenDown(s: State, insert: bool) returns (steps: seq<Step>)
    requires Init(s) && |s.threads| > 0
    ensures Legal(s, steps) && !NoUseAfterTakedown(Exec(s, steps).log)
  {
    var s1 := Do(s, Call(0, insert));
    var s2 := Do(s1, TestDevice(0));
    var s3 := Do(s2, RecoverTest);
    var s4 := Do(s3, DeviceStore);
    var s5 := Do(s4, FiniStore);
    var s6 := Do(s5, RecoverStore);
    StepBase(s, Call(0, insert));
    StepBase(s1, TestDevice(0));
    StepBase(s2, RecoverTest);
    StepBase(s3, DeviceStore);
    StepBase(s4, FiniStore);
    StepBase(s5, RecoverStore);
    steps := ReachUse(s6, 0);
    Prepend(s5, RecoverStore, steps);
    steps := [RecoverStore] + steps;
    Prepend(s4, FiniStore, steps);
    steps := [FiniStore] + steps;
    Prepend(s3, DeviceStore, steps);
    steps := [DeviceStore] + steps;
    Prepend(s2, RecoverTest, steps);
    steps := [RecoverTest] + steps;
    Prepend(s1, TestDevice(0), steps);
    steps := [TestDevice(0)] + steps;
    Prepend(s, Call(0, insert), steps);
    steps := [Call(0, insert)] + steps;
  }

  // ----- while the device is up, the allocator can be used -----

  lemma {:induction false} Then(s: State, before: seq<Step>, after: seq<Step>)
    requires Legal(s, before) && Legal(Exec(s, before), after)
    ensures Legal(s, before + after) && Exec(s, before + after) == Exec(Exec(s, before), after)
    decreases |before|
  {
    if |before| > 0 {
      Then(Do(s, before[0]), before[1..], after);
      Prepend(s, before[0], before[1..] + after);
      assert before + after == [before[0]] + (before[1..] + after);
    } else {
      assert before + after == after;
    }
  }

  /** The manager is ready and nobody is tearing anything down. */
  predicate Up(s: State) {
    !s.device && s.word == READY && s.fini.NotCalled?
  }

  /** Thread t alone has moved on; what it did is at the end of the log. */
  ghost predicate OnlyThread(s: State, e: State, t: nat, th: Thread, holder: Holder, uses: seq<Event>)
    requires t < |s.threads|
  {
    e == s.(threads := s.threads[t := th], holder := holder, log := s.log + uses)
  }

  /** From outside to the queue for the lock. */
  lemma ComesToLock(s: State, t: nat, insert: bool)
    requires Up(s) && t < |s.threads| && s.threads[t].pc.Outside?
    ensures var steps := [Call(t, insert), TestDevice(t), ReadReady(t), ReadShutdown(t)];
      Legal(s, steps)
      && OnlyThread(s, Exec(s, steps), t, Thread(Waiting, if insert then Insert(0) else Remove), s.holder, [])
  {
    var s1 := Do(s, Call(t, insert));
    var s2 := Do(s1, TestDevice(t));
    var s3 := Do(s2, ReadReady(t));
    var s4 := Do(s3, ReadShutdown(t));
    Four(s, Call(t, insert), TestDevice(t), ReadReady(t), ReadShutdown(t));
    assert s4.log == s.log + [];
    assert s4.threads == s.threads[t := s4.threads[t]];
  }

  lemma Four(s: State, a: Step, b: Step, c: Step, d: Step)
    requires Enabled(s, a) && Enabled(Do(s, a), b) && Enabled(Do(Do(s, a), b), c) && Enabled(Do(Do(Do(s, a), b), c), d)
    ensures Legal(s, [a, b, c, d]) && Exec(s, [a, b, c, d]) == Do(Do(Do(Do(s, a), b), c), d)
  {
    var s1 := Do(s, a);
    var s2 := Do(s1, b);
    var s3 := Do(s2, c);
    Prepend(s3, d, []);
    assert [d] + [] == [d];
    Prepend(s2, c, [d]);
    assert [c] + [d] == [c, d];
    Prepend(s1, b, [c, d]);
    assert [b] + [c, d] == [b, c, d];
    Prepend(s, a, [b, c, d]);
    assert [a] + [b, c, d] == [a, b, c, d];
  }

  /** From the queue through the lock: one use. */
  lemma UsesOnce(s: State, t: nat, fails: bool)
    requires Up(s) && t < |s.threads| && s.threads[t].pc.Waiting? && s.holder.Nobody?
    ensures var steps := [Lock(t), ReadReady(t), ReadShutdown(t), Use(t, fails)];
      Legal(s, steps) && OnlyThread(s, Exec(s, steps), t, AfterUse(s.threads[t], fails), By(t), [Used(t)])
  {
    var s1 := Do(s, Lock(t));
    var s2 := Do(s1, ReadReady(t));
    var s3 := Do(s2, ReadShutdown(t));
    var s4 := Do(s3, Use(t, fails));
    Four(s, Lock(t), ReadReady(t), ReadShutdown(t), Use(t, fails));
    assert s4.threads == s.threads[t := s4.threads[t]];
  }

  /** The holder of the lock, if there is one, can always go on to release it. */
  lemma {:induction false} ReleaseLock(s: State) returns (steps: seq<Step>)
    requires Exclusive(s) && Up(s)
    ensures Legal(s, steps)
    ensures var e := Exec(s, steps);
      && Up(e) && e.holder.Nobody? && |e.threads| == |s.threads|
      && forall t | 0 <= t < |s.threads| :: s.holder != By(t) ==> e.threads[t] == s.threads[t]
    decreases match s.holder case By(h) => if h < |s.threads| then Distance(s.threads[h].pc, false) else 0 case _ => 0
  {
    if s.holder.By? {
      var h := s.holder.t;
      assert HoldsLock(s.threads[h].pc);
      var step := if s.threads[h].pc.Using? then Use(h, false) else ThreadStep(s, h);
      StepExclusive(s, step);
      var rest := ReleaseLock(Do(s, step));
      Prepend(s, step, rest);
      steps := [step] + rest;
    } else {
      steps := [];
    }
  }

  /** Any alloc or free on a device that stays up can come to the allocator, whoever holds the lock. */
  lemma AllocatorIsReachable(s: State, t: nat, insert: bool, fails: bool) returns (steps: seq<Step>)
    requires Exclusive(s) && Up(s) && t < |s.threads| && s.threads[t].pc.Outside?
    ensures Legal(s, steps) && |Exec(s, steps).log| > 0 && Exec(s, steps).log[|Exec(s, steps).log| - 1] == Used(t)
  {
    assert s.holder != By(t);
    var release := ReleaseLock(s);
    var s1 := Exec(s, release);
    ComesToLock(s1, t, insert);
    var toLock := [Call(t, insert), TestDevice(t), ReadReady(t), ReadShutdown(t)];
    var s2 := Exec(s1, toLock);
    UsesOnce(s2, t, fails);
    var use := [Lock(t), ReadReady(t), ReadShutdown(t), Use(t, fails)];
    Then(s1, toLock, use);
    Then(s, release, toLock + use);
    steps := release + (toLock + use);
  }

  /** One attempt of an insert that fails, back to the queue or, after the third, to the outside. */
  lemma FailsOnce(s: State, t: nat, failures: nat)
    requires Up(s) && s.holder.Nobody? && failures < RETRY_COUNT
    requires t < |s.threads| && s.threads[t] == Thread(Waiting, Insert(failures))
    ensures var steps := [Lock(t), ReadReady(t), ReadShutdown(t), Use(t, true)] + [Unlock(t)];
      Legal(s, steps)
      && OnlyThread(s, Exec(s, steps), t,
           if failures < 2 then Thread(Waiting, Insert(failures + 1)) else Thread(Outside, Insert(failures)), Nobody, [Used(t)])
  {
    var use := [Lock(t), ReadReady(t), ReadShutdown(t), Use(t, true)];
    UsesOnce(s, t, true);
    var s1 := Exec(s, use);
    var s2 := Do(s1, Unlock(t));
    Prepend(s1, Unlock(t), []);
    assert [Unlock(t)] + [] == [Unlock(t)];
    Then(s, use, [Unlock(t)]);
    assert s2.threads == s.threads[t := s2.threads[t]];
  }

  /** An alloc whose inserts all fail makes three of them. */
  lemma ThreeTries(s: State, t: nat) returns (steps: seq<Step>)
    requires Up(s) && s.holder.Nobody? && t < |s.threads| && s.threads[t].pc.Outside?
    ensures Legal(s, steps)
    ensures var e := Exec(s, steps);
      |e.threads| == |s.threads| && e.threads[t].pc.Outside? && e.holder.Nobody?
      && e.log == s.log + [Used(t), Used(t), Used(t)]
  {
    var toLock := [Call(t, true), TestDevice(t), ReadReady(t), ReadShutdown(t)];
    var attempt := [Lock(t), ReadReady(t), ReadShutdown(t), Use(t, true)] + [Unlock(t)];
    ComesToLock(s, t, true);
    var s0 := Exec(s, toLock);
    FailsOnce(s0, t, 0);
    var s1 := Exec(s0, attempt);
    FailsOnce(s1, t, 1);
    var s2 := Exec(s1, attempt);
    FailsOnce(s2, t, 2);
    Then(s1, attempt, attempt);
    Then(s0, attempt, attempt + attempt);
    Then(s, toLock, attempt + (attempt + attempt));
    steps := toLock + (attempt + (attempt + attempt));
  }

  /** And never more than that: what thread t may still do at the allocator, */
  function Rest(th: Thread): nat {
    match th.pc
    case Outside => 0
    case Leaving(false) => 0
    case _ => match th.op
              case Insert(failures) => if failures < 3 then 3 - failures else 0
              case Remove => 1
  }

  predicate Sane(th: Thread) {
    && (th.op.Insert? && !th.pc.Outside? ==> th.op.failures < 3)
    && (th.pc == Leaving(true) ==> th.op.Insert?)
  }

  /** what it has done, */
  function UsesOf(log: seq<Event>, t: nat): nat {
    if |log| == 0 then 0 else UsesOf(log[..|log| - 1], t) + if log[|log| - 1] == Used(t) then 1 else 0
  }

  /** and what its calls entitle it to. */
  function Entitled(steps: seq<Step>, t: nat): nat {
    if |steps| == 0 then 0 else
      (if steps[0].Call? && steps[0].t == t then if steps[0].insert then 3 else 1 else 0) + Entitled(steps[1..], t)
  }

  lemma StepUses(s: State, step: Step, t: nat)
    requires Enabled(s, step) && t < |s.threads| && Sane(s.threads[t])
    ensures var s' := Do(s, step);
      && |s'.threads| == |s.threads| && Sane(s'.threads[t])
      && UsesOf(s'.log, t) + Rest(s'.threads[t])
         <= UsesOf(s.log, t) + Rest(s.threads[t]) + if step.Call? && step.t == t then if step.insert then 3 else 1 else 0
  {
    var s' := Do(s, step);
    if s'.log != s.log {
      assert s'.log[..|s.log|] == s.log;
    }
  }

  /** In every run a thread comes to the allocator at most three times for an alloc and once for a free. */
  lemma {:induction false} AtMostThreeInserts(s: State, steps: seq<Step>, t: nat)
    requires Legal(s, steps) && t < |s.threads| && Sane(s.threads[t])
    ensures var e := Exec(s, steps);
      && |e.threads| == |s.threads|
      && UsesOf(e.log, t) + Rest(e.threads[t]) <= UsesOf(s.log, t) + Rest(s.threads[t]) + Entitled(steps, t)
    decreases |steps|
  {
    if |steps| > 0 {
      StepUses(s, steps[0], t);
      AtMostThreeInserts(Do(s, steps[0]), steps[1..], t);
    }
  }

  /** Without a store in between, the two reads of is_ready amount to one test of the state word. */
  lemma TwoReadsAreOneTest(s: State, t: nat)
    requires t < |s.threads| && (s.threads[t].pc.OuterReady? || s.threads[t].pc.InnerReady?)
    ensures var s1 := Do(s, ReadReady(t));
      IsReady(s.word) <==>
        Enabled(s1, ReadShutdown(t)) &&
        Do(s1, ReadShutdown(t)).threads[t].pc == if s.threads[t].pc.OuterReady? then Waiting else Using
  {
  }

  function StoresOf(steps: seq<Step>): nat {
    if |steps| == 0 then 0 else (if steps[0].RecoverStore? then 1 else 0) + StoresOf(steps[1..])
  }

  /** Once the device is flagged, only the recovers that are already past their test store READY. */
  lemma {:induction false} NoNewRecovers(s: State, steps: seq<Step>)
    requires s.device && Legal(s, steps)
    ensures Exec(s, steps).device && Exec(s, steps).recovers + StoresOf(steps) == s.recovers
    decreases |steps|
  {
    if |steps| > 0 {
      NoNewRecovers(Do(s, steps[0]), steps[1..]);
    }
  }

  lemma {:induction false} NoStoresNoRecover(steps: seq<Step>)
    requires StoresOf(steps) == 0
    ensures NoRecover(steps)
  {
    if |steps| > 0 {
      NoStoresNoRecover(steps[1..]);
      assert forall i | 1 <= i < |steps| :: steps[i] == steps[1..][i - 1];
    }
  }

  /** So the takedown is final whatever else is called, if no recover is in flight when the device is
      flagged and fini has not yet stored SHUTDOWN. */
  lemma QuietFlagIsFinal(s: State, before: seq<Step>, after: seq<Step>)
    requires Init(s) && Legal(s, before) && Exec(s, before).fini.NotCalled?
    requires Exec(s, before).device && Exec(s, before).recovers == 0 && Legal(Exec(s, before), after)
    ensures NoUseAfterTakedown(Exec(Exec(s, before), after).log)
  {
    BeforeFini(s, before);
    ExecInv(s, before);
    NoNewRecovers(Exec(s, before), after);
    NoStoresNoRecover(after);
    NoRecoverIsNotLate(Exec(s, before), after);
    ExecInv(Exec(s, before), after);
  }

  lemma {:induction false} BeforeFini(s: State, steps: seq<Step>)
    requires Legal(s, steps) && Exec(s, steps).fini.NotCalled?
    ensures s.fini.NotCalled? && NoLateRecover(s, steps)
    decreases |steps|
  {
    if |steps| > 0 {
      BeforeFini(Do(s, steps[0]), steps[1..]);
    }
  }
}
