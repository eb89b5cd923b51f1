/** The rate limit on leak checks over whole runs (pddgpu_memory_stats.c:340-352, 389, 396-408, 438).
    A check reads the clock and last_check_time, gives up if less than check_interval has passed,
    and otherwise walks the list and stores its own clock reading when it is done. */
module CheckRate {
  import opened U64

  /** `running` holds the clock readings of the checks under way, `passes` those of all executed
      checks in order of their start. */
  datatype State = State(clock: u64, last: u64, running: map<nat, u64>, passes: seq<u64>)

  datatype Op = Begin(checker: nat, now: u64) | End(checker: nat)

  /** A check that finds too little time elapsed, or the lock taken, changes nothing and so is no
      step of its own.  The clock never runs backwards. */
  predicate Enabled(s: State, interval: u64, op: Op) {
    match op
    case Begin(c, now) => c !in s.running && s.clock <= now && Sub(now, s.last) >= interval
    case End(c) => c in s.running
  }

  function Do(s: State, interval: u64, op: Op): State
    requires Enabled(s, interval, op)
  {
    match op
    case Begin(c, now) => State(now, s.last, s.running[c := now], s.passes + [now])
    case End(c) => s.(last := s.running[c], running := s.running - {c})
  }

  predicate Legal(s: State, interval: u64, ops: seq<Op>)
    decreases |ops|
  {
    |ops| == 0 || (Enabled(s, interval, ops[0]) && Legal(Do(s, interval, ops[0]), interval, ops[1..]))
  }

  function Exec(s: State, interval: u64, ops: seq<Op>): State
    requires Legal(s, interval, ops)
    decreases |ops|
  {
    if |ops| == 0 then s else Exec(Do(s, interval, ops[0]), interval, ops[1..])
  }

  /** pddgpu_memory_stats_init stamps last_check_time with the current time. */
  predicate Init(s: State) {
    s.last <= s.clock && s.running == map[] && |s.passes| == 0
  }

  /** No check starts while another is under way: a single checker. */
  predicate OneAtATime(s: State, interval: u64, ops: seq<Op>)
    requires Legal(s, interval, ops)
    decreases |ops|
  {
    |ops| == 0 || ((ops[0].Begin? ==> s.running == map[]) && OneAtATime(Do(s, interval, ops[0]), interval, ops[1..]))
  }

  predicate Spaced(passes: seq<u64>, interval: nat) {
    forall i | 0 <= i < |passes| - 1 :: passes[i] + interval <= passes[i + 1]
  }

  /** The last pass is the one that has set the time stamp, or the only one under way. */
  ghost predicate Newest(s: State, interval: u64) {
    if |s.passes| == 0 then s.running == map[] else
      var p := s.passes[|s.passes| - 1];
      && p <= s.clock
      && (s.running == map[] ==> s.last == p)
      && (s.running != map[] ==> s.clock == p && s.last + interval <= p)
      && (forall c | c in s.running :: s.running[c] == p)
      && (forall c, d | c in s.running && d in s.running :: c == d)
  }

  ghost predicate Inv(s: State, interval: u64) {
    Spaced(s.passes, interval) && s.last <= s.clock && Newest(s, interval)
  }

  lemma StepInv(s: State, interval: u64, op: Op)
    requires Inv(s, interval) && Enabled(s, interval, op) && (op.Begin? ==> s.running == map[])
    ensures Inv(Do(s, interval, op), interval)
  {
    if op.End? {
      assert s.running - {op.checker} == map[];
    }
  }

  lemma {:induction false} ExecInv(s: State, interval: u64, ops: seq<Op>)
    requires Inv(s, interval) && Legal(s, interval, ops) && OneAtATime(s, interval, ops)
    ensures Inv(Exec(s, interval, ops), interval)
    decreases |ops|
  {
    if |ops| > 0 {
      StepInv(s, interval, ops[0]);
      ExecInv(Do(s, interval, ops[0]), interval, ops[1..]);
    }
  }

  lemma {:induction false} SpacedApart(passes: seq<u64>, interval: nat, i: nat, j: nat)
    requires Spaced(passes, interval) && i < j < |passes|
    ensures passes[i] + interval <= passes[j]
  {
    if i + 1 < j {
      SpacedApart(passes, interval, i, j - 1);
      assert passes[j - 1] + interval <= passes[j - 1 + 1];
    }
  }

  /** Any two executed checks of a single checker are at least the interval apart. */
  lemma PassesAreApart(s: State, interval: u64, ops: seq<Op>, i: nat, j: nat)
    requires Init(s) && Legal(s, interval, ops) && OneAtATime(s, interval, ops)
    requires i < j < |Exec(s, interval, ops).passes|
    ensures Exec(s, interval, ops).passes[i] + interval <= Exec(s, interval, ops).passes[j]
  {
    ExecInv(s, interval, ops);
    SpacedApart(Exec(s, interval, ops).passes, interval, i, j);
  }

  /** The executed checks in the window [from, to]. */
  function InWindow(passes: seq<u64>, from: nat, to: nat): nat {
    if |passes| == 0 then 0 else
      (if from <= passes[0] <= to then 1 else 0) + InWindow(passes[1..], from, to)
  }

  lemma {:induction false} NoneLater(passes: seq<u64>, from: nat, to: nat)
    requires forall i | 0 <= i < |passes| :: passes[i] > to
    ensures InWindow(passes, from, to) == 0
  {
    if |passes| > 0 {
      NoneLater(passes[1..], from, to);
    }
  }

  lemma {:induction false} WindowShrinks(passes: seq<u64>, from: nat, mid: nat, to: nat)
    requires from <= mid && forall i | 0 <= i < |passes| :: passes[i] >= mid
    ensures InWindow(passes, from, to) == InWindow(passes, mid, to)
  {
    if |passes| > 0 {
      WindowShrinks(passes[1..], from, mid, to);
    }
  }

  lemma QuotientStep(x: nat, d: int)
    requires 0 < d <= x
    ensures (x - d) / d == x / d - 1
  {
    var e := (x - d) / d - (x / d - 1);
    assert ((x - d) / d) * d == (x / d) * d - d + e * d;
    ProductBounds(e, d);
  }

  lemma QuotientGrows(x: nat, y: nat, d: int)
    requires x <= y && d > 0
    ensures x / d <= y / d
  {
    var e := y / d - x / d;
    assert (y / d) * d == (x / d) * d + e * d;
    ProductBounds(e, d);
  }

  lemma {:induction false} WindowHoldsFew(passes: seq<u64>, interval: nat, from: nat, to: nat)
    requires Spaced(passes, interval) && interval > 0 && from <= to
    ensures InWindow(passes, from, to) <= (to - from) / interval + 1
    decreases |passes|
  {
    if |passes| == 0 {
    } else if passes[0] < from {
      WindowHoldsFew(passes[1..], interval, from, to);
    } else {
      FirstInside(passes, interval, from, to);
    }
  }

  lemma {:induction false} FirstInside(passes: seq<u64>, interval: nat, from: nat, to: nat)
    requires Spaced(passes, interval) && interval > 0 && from <= to && |passes| > 0 && passes[0] >= from
    ensures InWindow(passes, from, to) <= (to - from) / interval + 1
    decreases |passes|, 0
  {
    var next := passes[0] + interval;
    forall i | 0 <= i < |passes[1..]|
      ensures passes[1..][i] >= next
    {
      SpacedApart(passes, interval, 0, i + 1);
    }
    if next > to {
      NoneLater(passes[1..], from, to);
    } else {
      WindowShrinks(passes[1..], from, next, to);
      WindowHoldsFew(passes[1..], interval, next, to);
      QuotientStep(to - passes[0], interval);
      QuotientGrows(to - passes[0], to - from, interval);
    }
  }

  /** A window of any length holds at most length / interval + 1 of them. */
  lemma RateLimit(s: State, interval: u64, ops: seq<Op>, from: nat, length: nat)
    requires Init(s) && Legal(s, interval, ops) && OneAtATime(s, interval, ops) && interval > 0
    ensures InWindow(Exec(s, interval, ops).passes, from, from + length) <= length / interval + 1
  {
    ExecInv(s, interval, ops);
    WindowHoldsFew(Exec(s, interval, ops).passes, interval, from, from + length);
  }

  /** Exactly when the next check cannot come too early: after a run without overlap, every check
      that can start then is at least the interval after the last one if and only if none is under
      way. */
  lemma LimitExactly(s: State, interval: u64, ops: seq<Op>)
    requires Init(s) && Legal(s, interval, ops) && OneAtATime(s, interval, ops) && interval > 0
    ensures var e := Exec(s, interval, ops);
      (forall c: nat, now: u64 | Enabled(e, interval, Begin(c, now)) ::
         Spaced(Do(e, interval, Begin(c, now)).passes, interval)) <==> e.running == map[]
  {
    ExecInv(s, interval, ops);
    var e := Exec(s, interval, ops);
    if e.running == map[] {
      forall c: nat, now: u64 | Enabled(e, interval, Begin(c, now))
        ensures Spaced(Do(e, interval, Begin(c, now)).passes, interval)
      {
        StepInv(e, interval, Begin(c, now));
      }
    } else {
      var c := Unused(e.running);
      var now := e.clock;
      var n := |e.passes|;
      assert Enabled(e, interval, Begin(c, now));
      var passes := Do(e, interval, Begin(c, now)).passes;
      assert passes[n - 1] == now == passes[n - 1 + 1];
      assert !Spaced(passes, interval);
    }
  }

  /** With one check under way there are checkers to spare. */
  lemma Unused(running: map<nat, u64>) returns (c: nat)
    requires forall a, b | a in running && b in running :: a == b
    ensures c !in running
  {
    c := if 0 in running then 1 else 0;
  }

  /** Two checkers are not limited: both may pass the test before either stores its time. */
  lemma TwoCheckersPassTogether(s: State, interval: u64, now: u64) returns (ops: seq<Op>)
    requires Init(s) && s.clock <= now && now - s.last >= interval > 0
    ensures Legal(s, interval, ops) && Exec(s, interval, ops).passes == [now, now]
  {
    ops := [Begin(0, now), Begin(1, now)];
    var s1 := Do(s, interval, ops[0]);
    assert s.running == map[];
    var s2 := Do(s1, interval, ops[1]);
    OneMore(s1, interval, ops[1..]);
    OneMore(s, interval, ops);
    assert s2.passes == [now, now];
  }

  lemma OneMore(s: State, interval: u64, ops: seq<Op>)
    requires |ops| > 0 && Enabled(s, interval, ops[0]) && Legal(Do(s, interval, ops[0]), interval, ops[1..])
    ensures Legal(s, interval, ops)
    ensures Exec(s, interval, ops) == Exec(Do(s, interval, ops[0]), interval, ops[1..])
  {
  }

  /** It is no more than a limit: with none under way, another check can start exactly when the interval
      has passed since the last one that was executed. */
  lemma NextCheckExactly(s: State, interval: u64, ops: seq<Op>, c: nat, now: u64)
    requires Init(s) && Legal(s, interval, ops) && OneAtATime(s, interval, ops)
    requires var e := Exec(s, interval, ops); e.running == map[] && |e.passes| > 0 && e.clock <= now
    ensures var e := Exec(s, interval, ops);
      && (Enabled(e, interval, Begin(c, now)) <==> e.passes[|e.passes| - 1] + interval <= now)
      && (Enabled(e, interval, Begin(c, now)) ==> Enabled(Do(e, interval, Begin(c, now)), interval, End(c)))
  {
    ExecInv(s, interval, ops);
  }
}
