/** Why a batch adds its allocated bytes before its freed bytes (pddgpu_memory_stats.c:766-773):
    any number of updates of one domain in flight at once, each a pair of atomic additions in that
    order.  A single update_usage call is an update with one of the two amounts zero.  The counters
    are the unbounded totals, so freed <= acquired, the bytes allocated so far, is the claim that
    usage is never negative. */
module BatchOrder {
  /** An update in flight: what it still has to add. */
  datatype Update = Update(acquired: nat, freed: nat, added: bool)

  datatype State = State(acquired: nat, freed: nat, updates: seq<Update>)

  datatype Step = Begin(a: nat, f: nat) | AddAllocated(i: nat) | AddFreed(i: nat)

  /** The bytes by which an update can still shrink acquired - freed. */
  function Need(u: Update): nat {
    if u.added then u.freed
    else if u.freed > u.acquired then u.freed - u.acquired else 0
  }

  function Needs(us: seq<Update>): nat {
    if us == [] then 0 else Needs(us[..|us| - 1]) + Need(us[|us| - 1])
  }

  /** All updates in flight can complete, in any order, without usage turning negative. */
  predicate Admissible(s: State) {
    s.freed + Needs(s.updates) <= s.acquired
  }

  predicate Enabled(s: State, step: Step) {
    match step
    // the caller's obligation: the frees of the new update are covered by its own allocations and
    // by bytes that no other update is going to free
    case Begin(a, f) => s.freed + Needs(s.updates) + Need(Update(a, f, false)) <= s.acquired
    case AddAllocated(i) => i < |s.updates| && !s.updates[i].added
    case AddFreed(i) => i < |s.updates| && s.updates[i].added
  }

  function Do(s: State, step: Step): State
    requires Enabled(s, step)
  {
    match step
    case Begin(a, f) => s.(updates := s.updates + [Update(a, f, false)])
    case AddAllocated(i) =>
      s.(acquired := s.acquired + s.updates[i].acquired, updates := s.updates[i := s.updates[i].(added := true)])
    case AddFreed(i) =>
      s.(freed := s.freed + s.updates[i].freed, updates := s.updates[i := s.updates[i].(freed := 0)])
  }

  predicate Legal(s: State, steps: seq<Step>)
    decreases |steps|
  {
    steps == [] || (Enabled(s, steps[0]) && Legal(Do(s, steps[0]), steps[1..]))
  }

  function Exec(s: State, steps: seq<Step>): State
    requires Legal(s, steps)
    decreases |steps|
  {
    if steps == [] then s else Exec(Do(s, steps[0]), steps[1..])
  }

  lemma {:induction false} NeedsAppend(us: seq<Update>, u: Update)
    ensures Needs(us + [u]) == Needs(us) + Need(u)
  {
    assert (us + [u])[..|us|] == us;
  }

  lemma {:induction false} NeedsUpdate(us: seq<Update>, i: nat, u: Update)
    requires i < |us|
    ensures Needs(us[i := u]) == Needs(us) - Need(us[i]) + Need(u)
    ensures Need(us[i]) <= Needs(us)
  {
    var n := |us| - 1;
    if i == n {
      assert us[i := u][..n] == us[..n];
    } else {
      NeedsUpdate(us[..n], i, u);
      assert us[i := u][..n] == us[..n][i := u];
    }
  }

  lemma StepAdmissible(s: State, step: Step)
    requires Admissible(s) && Enabled(s, step)
    ensures Admissible(Do(s, step))
  {
    match step
    case Begin(a, f) => NeedsAppend(s.updates, Update(a, f, false));
    case AddAllocated(i) => NeedsUpdate(s.updates, i, s.updates[i].(added := true));
    case AddFreed(i) => NeedsUpdate(s.updates, i, s.updates[i].(freed := 0));
  }

  /** Safety: from an admissible state, freed <= acquired holds at every instant of every
      interleaving. */
  lemma {:induction false} NeverNegative(s: State, steps: seq<Step>)
    requires Admissible(s) && Legal(s, steps)
    ensures Admissible(Exec(s, steps)) && Exec(s, steps).freed <= Exec(s, steps).acquired
    decreases |steps|
  {
    if steps != [] {
      StepAdmissible(s, steps[0]);
      NeverNegative(Do(s, steps[0]), steps[1..]);
    }
  }

  /** The schedule that completes exactly the updates that shrink usage. */
  function Worst(us: seq<Update>, i: nat): seq<Step>
    requires i <= |us|
    decreases |us| - i
  {
    if i == |us| then []
    else (if Need(us[i]) == 0 then [] else if us[i].added then [AddFreed(i)] else [AddAllocated(i), AddFreed(i)])
         + Worst(us, i + 1)
  }

  function NeedsFrom(us: seq<Update>, i: nat): nat
    requires i <= |us|
    decreases |us| - i
  {
    if i == |us| then 0 else Need(us[i]) + NeedsFrom(us, i + 1)
  }

  lemma {:induction false} NeedsSplit(us: seq<Update>, i: nat)
    requires i <= |us|
    ensures Needs(us) == Needs(us[..i]) + NeedsFrom(us, i)
    decreases |us| - i
  {
    if i < |us| {
      NeedsSplit(us, i + 1);
      assert us[..i + 1][..i] == us[..i];
    } else {
      assert us[..i] == us;
    }
  }

  /** From i on, the updates in flight are still those of us. */
  ghost predicate Untouched(s: State, us: seq<Update>, i: nat) {
    |s.updates| == |us| && forall j | i <= j < |us| :: s.updates[j] == us[j]
  }

  lemma {:induction false} WorstIsTheSum(s: State, us: seq<Update>, i: nat)
    requires i <= |us| && Untouched(s, us, i)
    ensures Legal(s, Worst(us, i))
    ensures var e := Exec(s, Worst(us, i)); e.freed - e.acquired == s.freed + NeedsFrom(us, i) - s.acquired
    decreases |us| - i
  {
    if i < |us| {
      var rest := Worst(us, i + 1);
      if Need(us[i]) == 0 {
        assert [] + rest == rest;
        WorstIsTheSum(s, us, i + 1);
      } else if us[i].added {
        WorstIsTheSum(Do(s, AddFreed(i)), us, i + 1);
        OneMore(s, AddFreed(i), rest);
      } else {
        var s1 := Do(s, AddAllocated(i));
        WorstIsTheSum(Do(s1, AddFreed(i)), us, i + 1);
        OneMore(s1, AddFreed(i), rest);
        OneMore(s, AddAllocated(i), [AddFreed(i)] + rest);
        assert [AddAllocated(i)] + ([AddFreed(i)] + rest) == [AddAllocated(i), AddFreed(i)] + rest;
      }
    }
  }

  lemma OneMore(s: State, step: Step, rest: seq<Step>)
    requires Enabled(s, step) && Legal(Do(s, step), rest)
    ensures Legal(s, [step] + rest) && Exec(s, [step] + rest) == Exec(Do(s, step), rest)
  {
    assert ([step] + rest)[1..] == rest;
  }

  /** Exactness: admissibility is not just sufficient.  If it fails, some schedule of the updates
      already in flight drives usage below zero. */
  lemma InadmissibleGoesNegative(s: State)
    requires !Admissible(s)
    ensures Legal(s, Worst(s.updates, 0)) && Exec(s, Worst(s.updates, 0)).freed > Exec(s, Worst(s.updates, 0)).acquired
  {
    WorstIsTheSum(s, s.updates, 0);
    NeedsSplit(s.updates, 0);
    assert s.updates[..0] == [];
  }

  /** The instants of a batch alone in flight, with its freed bytes added first. */
  function FreedFirst(s: State, a: nat, f: nat): seq<State> {
    [s, s.(freed := s.freed + f), s.(freed := s.freed + f, acquired := s.acquired + a)]
  }

  ghost predicate NeverBelow(instants: seq<State>) {
    forall i | 0 <= i < |instants| :: instants[i].freed <= instants[i].acquired
  }

  /** A state with nothing in flight in which a batch of these amounts may start. */
  predicate MayStart(s: State, a: nat, f: nat) {
    |s.updates| == 0 && Admissible(s) && Enabled(s, Begin(a, f))
  }

  /** The other order: it keeps usage from turning negative wherever the batch may start if and only if
      one of the two amounts is zero.  If both are positive, it fails where the batch may only just
      start. */
  lemma FreedFirstExactly(a: nat, f: nat)
    ensures (forall s | MayStart(s, a, f) :: NeverBelow(FreedFirst(s, a, f))) <==> a == 0 || f == 0
  {
    if a > 0 && f > 0 {
      var s := State(Need(Update(a, f, false)), 0, []);
      assert MayStart(s, a, f);
      assert FreedFirst(s, a, f)[1].freed > FreedFirst(s, a, f)[1].acquired;
    }
  }

  /** Every update can start where its frees are covered, and then complete by its own two additions. */
  lemma UpdateCompletes(s: State, a: nat, f: nat)
    requires Admissible(s) && s.freed + Needs(s.updates) + Need(Update(a, f, false)) <= s.acquired
    ensures var n := |s.updates|; var steps := [Begin(a, f)] + ([AddAllocated(n)] + [AddFreed(n)]);
      && Legal(s, steps)
      && Exec(s, steps).acquired == s.acquired + a && Exec(s, steps).freed == s.freed + f
      && Needs(Exec(s, steps).updates) == Needs(s.updates)
  {
    var n := |s.updates|;
    var s1 := Do(s, Begin(a, f));
    var s2 := Do(s1, AddAllocated(n));
    var s3 := Do(s2, AddFreed(n));
    assert [AddFreed(n)] + [] == [AddFreed(n)];
    OneMore(s2, AddFreed(n), []);
    OneMore(s1, AddAllocated(n), [AddFreed(n)]);
    OneMore(s, Begin(a, f), [AddAllocated(n)] + [AddFreed(n)]);
    assert s3.updates == s.updates + [Update(a, 0, true)];
    NeedsAppend(s.updates, Update(a, 0, true));
  }
}
