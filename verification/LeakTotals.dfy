/** The suspicious and confirmed counters under any number of concurrent checks, locked or RCU, at
    the granularity of single increments (pddgpu_memory_stats.c:360-387, 413-435). */
module LeakTotals {
  import opened U64
  import opened LeakRecords

  /** Where a checker stands in the loop body: between entries, holding a valid entry of some age
      whose 30-second test is next, or one whose 5-minute test is next. */
  datatype Phase = Idle | Picked(age: u64) | Tested(age: u64)

  /** The two counters without wrap-around, the checkers, and the ages whose 30-second test is done,
      in the order of those tests. */
  datatype State = State(suspicious: nat, confirmed: nat, checkers: seq<Phase>, visits: seq<u64>)

  datatype Step = Pick(c: nat, age: u64) | TestSuspicious(c: nat) | TestConfirmed(c: nat)

  predicate Init(s: State) {
    s.suspicious == 0 && s.confirmed == 0 && |s.visits| == 0 && forall c | 0 <= c < |s.checkers| :: s.checkers[c].Idle?
  }

  predicate Enabled(s: State, step: Step) {
    match step
    case Pick(c, _) => c < |s.checkers| && s.checkers[c].Idle?
    case TestSuspicious(c) => c < |s.checkers| && s.checkers[c].Picked?
    case TestConfirmed(c) => c < |s.checkers| && s.checkers[c].Tested?
  }

  function Do(s: State, step: Step): State
    requires Enabled(s, step)
  {
    match step
    case Pick(c, age) => s.(checkers := s.checkers[c := Picked(age)])
    case TestSuspicious(c) =>
      var age := s.checkers[c].age;
      s.(suspicious := s.suspicious + Over(age, SUSPICIOUS_AGE),
         checkers := s.checkers[c := Tested(age)], visits := s.visits + [age])
    case TestConfirmed(c) =>
      s.(confirmed := s.confirmed + Over(s.checkers[c].age, CONFIRMED_AGE), checkers := s.checkers[c := Idle])
  }

  predicate Legal(s: State, steps: seq<Step>)
    decreases |steps|
  {
    |steps| == 0 || (Enabled(s, steps[0]) && Legal(Do(s, steps[0]), steps[1..]))
  }

  function Exec(s: State, steps: seq<Step>): State
    requires Legal(s, steps)
    decreases |steps|
  {
    if |steps| == 0 then s else Exec(Do(s, steps[0]), steps[1..])
  }

  function Over(age: u64, limit: u64): nat {
    if age > limit then 1 else 0
  }

  function CountOver(ages: seq<u64>, limit: u64): nat {
    if |ages| == 0 then 0 else CountOver(ages[..|ages| - 1], limit) + Over(ages[|ages| - 1], limit)
  }

  /** Confirmed leaks that are already counted as suspicious but not yet as confirmed. */
  function Owed(p: Phase): nat {
    if p.Tested? then Over(p.age, CONFIRMED_AGE) else 0
  }

  function Pending(checkers: seq<Phase>): nat {
    if |checkers| == 0 then 0 else Pending(checkers[..|checkers| - 1]) + Owed(checkers[|checkers| - 1])
  }

  lemma {:induction false} PendingUpdate(checkers: seq<Phase>, c: nat, p: Phase)
    requires c < |checkers|
    ensures Pending(checkers[c := p]) == Pending(checkers) - Owed(checkers[c]) + Owed(p)
  {
    var n := |checkers| - 1;
    if c < n {
      PendingUpdate(checkers[..n], c, p);
      assert checkers[c := p][..n] == checkers[..n][c := p];
    } else {
      assert checkers[c := p][..n] == checkers[..n];
    }
  }

  lemma {:induction false} NonePending(checkers: seq<Phase>)
    requires forall c | 0 <= c < |checkers| :: checkers[c].Idle?
    ensures Pending(checkers) == 0
  {
    if |checkers| > 0 {
      NonePending(checkers[..|checkers| - 1]);
    }
  }

  lemma {:induction false} FewerConfirmed(ages: seq<u64>)
    ensures CountOver(ages, CONFIRMED_AGE) <= CountOver(ages, SUSPICIOUS_AGE)
  {
    if |ages| > 0 {
      FewerConfirmed(ages[..|ages| - 1]);
    }
  }

  /** Each counter is the number of visited entries over its age, less what is still pending. */
  ghost predicate Inv(s: State) {
    && s.suspicious == CountOver(s.visits, SUSPICIOUS_AGE)
    && s.confirmed + Pending(s.checkers) == CountOver(s.visits, CONFIRMED_AGE)
  }

  lemma StepInv(s: State, step: Step)
    requires Inv(s) && Enabled(s, step)
    ensures Inv(Do(s, step))
  {
    match step
    case Pick(c, age) => PendingUpdate(s.checkers, c, Picked(age));
    case TestSuspicious(c) =>
      PendingUpdate(s.checkers, c, Tested(s.checkers[c].age));
      assert (s.visits + [s.checkers[c].age])[..|s.visits|] == s.visits;
    case TestConfirmed(c) => PendingUpdate(s.checkers, c, Idle);
  }

  lemma {:induction false} ExecInv(s: State, steps: seq<Step>)
    requires Inv(s) && Legal(s, steps)
    ensures Inv(Exec(s, steps))
    decreases |steps|
  {
    if |steps| > 0 {
      StepInv(s, steps[0]);
      ExecInv(Do(s, steps[0]), steps[1..]);
    }
  }

  /** How often the checkers have been given an entry of some age, */
  function PicksOf(steps: seq<Step>, age: u64): nat {
    if |steps| == 0 then 0 else (if steps[0].Pick? && steps[0].age == age then 1 else 0) + PicksOf(steps[1..], age)
  }

  /** and how many of them still have their 30-second test to come. */
  function InHand(checkers: seq<Phase>, age: u64): nat {
    if |checkers| == 0 then 0 else
      InHand(checkers[..|checkers| - 1], age) + if checkers[|checkers| - 1] == Picked(age) then 1 else 0
  }

  lemma {:induction false} InHandUpdate(checkers: seq<Phase>, c: nat, p: Phase, age: u64)
    requires c < |checkers|
    ensures InHand(checkers[c := p], age) + (if checkers[c] == Picked(age) then 1 else 0)
         == InHand(checkers, age) + if p == Picked(age) then 1 else 0
  {
    var n := |checkers| - 1;
    if c < n {
      InHandUpdate(checkers[..n], c, p, age);
      assert checkers[c := p][..n] == checkers[..n][c := p];
    } else {
      assert checkers[c := p][..n] == checkers[..n];
    }
  }

  lemma VisitsAppend(visits: seq<u64>, age: u64)
    ensures forall a: u64 :: multiset(visits + [age])[a] == multiset(visits)[a] + if a == age then 1 else 0
  {
  }

  /** The visits are those of the entries the checkers have picked, each once. */
  lemma {:induction false} VisitsArePicked(s: State, steps: seq<Step>, age: u64)
    requires Legal(s, steps)
    ensures var e := Exec(s, steps);
      multiset(e.visits)[age] + InHand(e.checkers, age) == multiset(s.visits)[age] + InHand(s.checkers, age) + PicksOf(steps, age)
    decreases |steps|
  {
    if |steps| > 0 {
      VisitsArePicked(Do(s, steps[0]), steps[1..], age);
      StepIsPicked(s, steps[0], age);
    }
  }

  lemma StepIsPicked(s: State, step: Step, age: u64)
    requires Enabled(s, step)
    ensures var s' := Do(s, step);
      multiset(s'.visits)[age] + InHand(s'.checkers, age)
      == multiset(s.visits)[age] + InHand(s.checkers, age) + if step.Pick? && step.age == age then 1 else 0
  {
    InHandUpdate(s.checkers, step.c, Do(s, step).checkers[step.c], age);
    if step.TestSuspicious? {
      VisitsAppend(s.visits, s.checkers[step.c].age);
    }
  }

  function OlderVisits(visits: seq<u64>, limit: u64): set<nat> {
    set i: nat | i < |visits| && visits[i] > limit
  }

  lemma {:induction false} CountOverIsSize(visits: seq<u64>, limit: u64)
    ensures CountOver(visits, limit) == |OlderVisits(visits, limit)|
  {
    if |visits| == 0 {
      assert OlderVisits(visits, limit) == {};
    } else {
      var n := |visits| - 1;
      CountOverIsSize(visits[..n], limit);
      var last: set<nat> := if visits[n] > limit then {n} else {};
      assert OlderVisits(visits, limit) == OlderVisits(visits[..n], limit) + last;
    }
  }

  /** What the counters mean at every instant of every run. */
  lemma CountersMeanVisits(s: State, steps: seq<Step>)
    requires Init(s) && Legal(s, steps)
    ensures var e := Exec(s, steps);
      && e.suspicious == CountOver(e.visits, SUSPICIOUS_AGE) == |OlderVisits(e.visits, 30_000_000_000)|
      && e.confirmed + Pending(e.checkers) == CountOver(e.visits, CONFIRMED_AGE) == |OlderVisits(e.visits, 300_000_000_000)|
  {
    CountOverIsSize(Exec(s, steps).visits, SUSPICIOUS_AGE);
    CountOverIsSize(Exec(s, steps).visits, CONFIRMED_AGE);
    NonePending(s.checkers);
    ExecInv(s, steps);
  }

  /** Confirmed never exceeds suspicious, at any instant, with any number of checkers; nor do the
      u64 counters themselves as long as the suspicious one has not wrapped. */
  lemma ConfirmedWithinSuspicious(s: State, steps: seq<Step>)
    requires Init(s) && Legal(s, steps)
    ensures var e := Exec(s, steps);
      e.confirmed <= e.suspicious && (e.suspicious < MOD ==> Wrap(e.confirmed) <= Wrap(e.suspicious))
  {
    CountersMeanVisits(s, steps);
    FewerConfirmed(Exec(s, steps).visits);
  }

  // ----- a report reads suspicious first and confirmed later -----

  /** The 30-second tests among some steps. */
  function Tests(steps: seq<Step>): nat {
    if |steps| == 0 then 0 else (if steps[0].TestSuspicious? then 1 else 0) + Tests(steps[1..])
  }

  lemma {:induction false} FewMoreConfirmed(s: State, steps: seq<Step>)
    requires Legal(s, steps)
    ensures CountOver(Exec(s, steps).visits, CONFIRMED_AGE) <= CountOver(s.visits, CONFIRMED_AGE) + Tests(steps)
    decreases |steps|
  {
    if |steps| > 0 {
      var s1 := Do(s, steps[0]);
      FewMoreConfirmed(s1, steps[1..]);
      if steps[0].TestSuspicious? {
        assert s1.visits[..|s.visits|] == s.visits;
      }
    }
  }

  /** A report that reads suspicious in state s and confirmed after the steps does not show more
      confirmed leaks than suspicious ones. */
  predicate ReportInOrder(s: State, steps: seq<Step>)
    requires Legal(s, steps)
  {
    Exec(s, steps).confirmed <= s.suspicious
  }

  /** Enough slack covers the tests that run between the two reads. */
  lemma SlackKeepsOrder(s: State, steps: seq<Step>)
    requires Inv(s) && Legal(s, steps)
    requires s.confirmed + Pending(s.checkers) + Tests(steps) <= s.suspicious
    ensures ReportInOrder(s, steps)
  {
    ExecInv(s, steps);
    FewMoreConfirmed(s, steps);
  }

  lemma Prepend(s: State, step: Step, steps: seq<Step>)
    requires Enabled(s, step) && Legal(Do(s, step), steps)
    ensures Legal(s, [step] + steps) && Exec(s, [step] + steps) == Exec(Do(s, step), steps)
    ensures Tests([step] + steps) == (if step.TestSuspicious? then 1 else 0) + Tests(steps)
  {
    assert ([step] + steps)[1..] == steps;
  }

  lemma {:induction false} SomePending(checkers: seq<Phase>) returns (c: nat)
    requires Pending(checkers) > 0
    ensures c < |checkers| && checkers[c].Tested? && Owed(checkers[c]) > 0
  {
    var n := |checkers| - 1;
    if Owed(checkers[n]) > 0 {
      c := n;
    } else {
      c := SomePending(checkers[..n]);
    }
  }

  /** The schedule that inverts a report: finish the pending confirmations, then let an idle checker
      visit n old entries. */
  lemma {:induction false} Invert(s: State, idle: nat, n: nat) returns (steps: seq<Step>)
    requires Inv(s) && idle < |s.checkers| && s.checkers[idle].Idle?
    ensures Legal(s, steps) && Tests(steps) == n
    ensures Exec(s, steps).confirmed == s.confirmed + Pending(s.checkers) + n
    decreases Pending(s.checkers), n
  {
    if Pending(s.checkers) > 0 {
      var c := SomePending(s.checkers);
      var s1 := Do(s, TestConfirmed(c));
      StepInv(s, TestConfirmed(c));
      PendingUpdate(s.checkers, c, Idle);
      var rest := Invert(s1, idle, n);
      Prepend(s, TestConfirmed(c), rest);
      steps := [TestConfirmed(c)] + rest;
    } else if n > 0 {
      var age := CONFIRMED_AGE + 1;
      VisitKeepsInv(s, idle, age);
      var rest := Invert(AfterVisit(s, idle, age), idle, n - 1);
      PrependVisit(s, idle, age, rest);
      steps := Visit(idle, age) + rest;
    } else {
      steps := [];
    }
  }

  /** One visit of a checker to a confirmed leak. */
  function Visit(c: nat, age: u64): seq<Step> {
    [Pick(c, age)] + ([TestSuspicious(c)] + [TestConfirmed(c)])
  }

  function AfterVisit(s: State, c: nat, age: u64): State {
    s.(suspicious := s.suspicious + 1, confirmed := s.confirmed + 1, visits := s.visits + [age])
  }

  lemma VisitKeepsInv(s: State, c: nat, age: u64)
    requires Inv(s) && c < |s.checkers| && s.checkers[c].Idle? && age > CONFIRMED_AGE
    ensures Inv(AfterVisit(s, c, age))
  {
    assert (s.visits + [age])[..|s.visits|] == s.visits;
  }

  lemma PrependVisit(s: State, c: nat, age: u64, rest: seq<Step>)
    requires c < |s.checkers| && s.checkers[c].Idle? && age > CONFIRMED_AGE && Legal(AfterVisit(s, c, age), rest)
    ensures Legal(s, Visit(c, age) + rest)
    ensures Exec(s, Visit(c, age) + rest) == Exec(AfterVisit(s, c, age), rest)
    ensures Tests(Visit(c, age) + rest) == 1 + Tests(rest)
  {
    var s1 := Do(s, Pick(c, age));
    var s2 := Do(s1, TestSuspicious(c));
    assert Do(s2, TestConfirmed(c)) == AfterVisit(s, c, age) by {
      assert Do(s2, TestConfirmed(c)).checkers == s.checkers;
    }
    Prepend(s2, TestConfirmed(c), rest);
    Prepend(s1, TestSuspicious(c), [TestConfirmed(c)] + rest);
    Prepend(s, Pick(c, age), [TestSuspicious(c)] + ([TestConfirmed(c)] + rest));
    assert Visit(c, age) + rest == [Pick(c, age)] + ([TestSuspicious(c)] + ([TestConfirmed(c)] + rest));
  }

  /** Exactly when a report is safe: with at most n 30-second tests between its two reads it can never
      print more confirmed leaks than suspicious ones, if and only if at the first read suspicious
      exceeds confirmed, the pending confirmations included, by at least n. */
  lemma ReportExactly(s: State, idle: nat, n: nat)
    requires Inv(s) && idle < |s.checkers| && s.checkers[idle].Idle?
    ensures (forall steps | Legal(s, steps) && Tests(steps) <= n :: ReportInOrder(s, steps)) <==>
      s.confirmed + Pending(s.checkers) + n <= s.suspicious
  {
    if s.confirmed + Pending(s.checkers) + n <= s.suspicious {
      forall steps | Legal(s, steps) && Tests(steps) <= n
        ensures ReportInOrder(s, steps)
      {
        SlackKeepsOrder(s, steps);
      }
    } else {
      var steps := Invert(s, idle, n);
      assert !ReportInOrder(s, steps);
    }
  }

  /** In particular, from the start a single visit to an old entry inverts a report. */
  lemma ReportMayInvert(s: State) returns (between: seq<Step>)
    requires Init(s) && |s.checkers| > 0
    ensures Legal(s, between) && Tests(between) == 1 && !ReportInOrder(s, between)
  {
    NonePending(s.checkers);
    between := Invert(s, 0, 1);
  }
}
