/** The double-collect loops of pddgpu_memory_stats_get_info (pddgpu_memory_stats.c:510-547) under
    arbitrary interference.

    `history` is everything the other CPUs do to the counters, one atomic addition per event, in
    the order in which it takes effect; instant t is the moment after the first t events.  The
    reader is slower or faster as it likes: `gap(i)` events take effect before its i-th read. */
module Snapshot {
  import opened U64
  import opened MemoryStats

  /** One atomic64_add of `size` to the allocated or the freed counter of a domain. */
  type Event = Usage

  /** The unbounded totals a domain starts from. */
  datatype Start = Start(acquired: nat, freed: nat)

  function SumOf(history: seq<Event>, domain: Domain, alloc: bool, t: nat): nat
    requires t <= |history|
  {
    if t == 0 then 0
    else SumOf(history, domain, alloc, t - 1)
         + if history[t - 1].domain == domain && history[t - 1].alloc == alloc then history[t - 1].size else 0
  }

  /** The unbounded totals at instant t; atomic64_read returns them modulo 2^64. */
  function AcquiredAt(s: Start, history: seq<Event>, domain: Domain, t: nat): nat
    requires t <= |history|
  {
    s.acquired + SumOf(history, domain, true, t)
  }

  function FreedAt(s: Start, history: seq<Event>, domain: Domain, t: nat): nat
    requires t <= |history|
  {
    s.freed + SumOf(history, domain, false, t)
  }

  /** The non-zero allocations of a domain among the first t events. */
  function Allocations(history: seq<Event>, domain: Domain, t: nat): nat
    requires t <= |history|
  {
    if t == 0 then 0
    else Allocations(history, domain, t - 1)
         + if history[t - 1].domain == domain && history[t - 1].alloc && history[t - 1].size > 0 then 1 else 0
  }

  lemma {:induction false} SumsGrow(history: seq<Event>, domain: Domain, t: nat, u: nat)
    requires t <= u <= |history|
    ensures SumOf(history, domain, true, t) <= SumOf(history, domain, true, u)
    ensures Allocations(history, domain, t) <= Allocations(history, domain, u)
    ensures Allocations(history, domain, t) == Allocations(history, domain, u) ==>
      SumOf(history, domain, true, t) == SumOf(history, domain, true, u)
    decreases u - t
  {
    if t < u {
      SumsGrow(history, domain, t, u - 1);
    }
  }

  /** The instant at which the reader's next read takes effect. */
  function Later(now: nat, gap: nat, end: nat): (t: nat)
    requires now <= end
    ensures now <= t <= end
  {
    if now + gap <= end then now + gap else end
  }

  /** do { a = allocated; f = freed; } while (allocated != a), for one domain, starting at `begin`.
      t0, t and t1 are the instants of the last round's three reads. */
  method DoubleCollect(s: Start, history: seq<Event>, domain: Domain, begin: nat, gap: nat -> nat)
    returns (acquired: u64, freed: u64, t0: nat, t: nat, t1: nat, rounds: nat)
    requires begin <= |history|
    ensures begin <= t0 <= t <= t1 <= |history|
    ensures acquired == Wrap(AcquiredAt(s, history, domain, t0)) == Wrap(AcquiredAt(s, history, domain, t1))
    ensures freed == Wrap(FreedAt(s, history, domain, t))
    ensures 1 <= rounds <= 1 + Allocations(history, domain, t0) - Allocations(history, domain, begin)
  {
    var now, loads := begin, 0;
    rounds := 0;
    while true
      invariant begin <= now <= |history|
      invariant rounds <= Allocations(history, domain, now) - Allocations(history, domain, begin)
      decreases |history| - now
    {
      t0 := Later(now, gap(loads), |history|);
      acquired := Wrap(AcquiredAt(s, history, domain, t0));
      t := Later(t0, gap(loads + 1), |history|);
      freed := Wrap(FreedAt(s, history, domain, t));
      t1 := Later(t, gap(loads + 2), |history|);
      var again := Wrap(AcquiredAt(s, history, domain, t1));
      loads := loads + 3;
      rounds := rounds + 1;
      SumsGrow(history, domain, now, t0);
      SumsGrow(history, domain, t0, t1);
      now := t1;
      if again == acquired {
        break;
      }
    }
  }

  /** The pair (a, f) is what both counters held at instant t. */
  predicate HeldAt(s: Start, history: seq<Event>, domain: Domain, t: nat, a: u64, f: u64)
    requires t <= |history|
  {
    a == Wrap(AcquiredAt(s, history, domain, t)) && f == Wrap(FreedAt(s, history, domain, t))
  }

  /** What a round that passed the loop test may have seen. */
  predicate Collected(s: Start, history: seq<Event>, domain: Domain, t0: nat, t: nat, t1: nat, a: u64, f: u64)
    requires t0 <= t <= t1 <= |history|
  {
    && a == Wrap(AcquiredAt(s, history, domain, t0)) == Wrap(AcquiredAt(s, history, domain, t1))
    && f == Wrap(FreedAt(s, history, domain, t))
  }

  /** Whatever the instant of the middle read, the pair the round returns was held at it. */
  predicate AlwaysASnapshot(s: Start, history: seq<Event>, domain: Domain, t0: nat, t1: nat, a: u64)
    requires t0 <= t1 <= |history|
  {
    forall t | t0 <= t <= t1 :: HeldAt(s, history, domain, t, a, Wrap(FreedAt(s, history, domain, t)))
  }

  /** If the allocated counter shows the same value at every instant, nothing was allocated: a single
      addition is too small to come round. */
  lemma {:induction false} ShownTheSame(s: Start, history: seq<Event>, domain: Domain, t0: nat, t1: nat)
    requires t0 <= t1 <= |history|
    requires forall t | t0 <= t <= t1 :: Wrap(AcquiredAt(s, history, domain, t)) == Wrap(AcquiredAt(s, history, domain, t0))
    ensures SumOf(history, domain, true, t1) == SumOf(history, domain, true, t0)
    decreases t1 - t0
  {
    if t0 < t1 {
      ShownTheSame(s, history, domain, t0, t1 - 1);
      var k := SameIsMultiple(AcquiredAt(s, history, domain, t1), AcquiredAt(s, history, domain, t1 - 1));
      assert -1 < k < 1;
    }
  }

  /** Exactly when the loop test is enough: a round with equal first and last reads is a snapshot for
      every timing of its middle read if and only if fewer than 2^64 bytes are allocated in it. */
  lemma SnapshotExactly(s: Start, history: seq<Event>, domain: Domain, t0: nat, t1: nat, a: u64)
    requires t0 <= t1 <= |history|
    requires a == Wrap(AcquiredAt(s, history, domain, t0)) == Wrap(AcquiredAt(s, history, domain, t1))
    ensures AlwaysASnapshot(s, history, domain, t0, t1, a) <==>
      SumOf(history, domain, true, t1) - SumOf(history, domain, true, t0) < MOD
  {
    if AlwaysASnapshot(s, history, domain, t0, t1, a) {
      forall t | t0 <= t <= t1
        ensures Wrap(AcquiredAt(s, history, domain, t)) == Wrap(AcquiredAt(s, history, domain, t0))
      {
        assert HeldAt(s, history, domain, t, a, Wrap(FreedAt(s, history, domain, t)));
      }
      ShownTheSame(s, history, domain, t0, t1);
    }
    if SumOf(history, domain, true, t1) - SumOf(history, domain, true, t0) < MOD {
      forall t | t0 <= t <= t1
        ensures HeldAt(s, history, domain, t, a, Wrap(FreedAt(s, history, domain, t)))
      {
        SnapshotIsAtomic(s, history, domain, t0, t, t1, a, Wrap(FreedAt(s, history, domain, t)));
      }
    }
  }

  /** Linearizability: unless 2^64 bytes are allocated during a single round, the pair the loop
      returns is what both counters held at one instant, the read of the freed counter. */
  lemma SnapshotIsAtomic(s: Start, history: seq<Event>, domain: Domain, t0: nat, t: nat, t1: nat, a: u64, f: u64)
    requires t0 <= t <= t1 <= |history| && Collected(s, history, domain, t0, t, t1, a, f)
    requires SumOf(history, domain, true, t1) - SumOf(history, domain, true, t0) < MOD
    ensures HeldAt(s, history, domain, t, a, f)
  {
    SumsGrow(history, domain, t0, t);
    SumsGrow(history, domain, t, t1);
    var k := SameIsMultiple(AcquiredAt(s, history, domain, t1), AcquiredAt(s, history, domain, t0));
    assert k == 0;
  }

  /** Then the reported usage is the true one, although both counters may have wrapped: it is exact
      whenever the domain holds between 0 and 2^64 - 1 bytes at that instant. */
  lemma UsedIsExact(s: Start, history: seq<Event>, domain: Domain, t: nat, a: u64, f: u64)
    requires t <= |history| && HeldAt(s, history, domain, t, a, f)
    requires FreedAt(s, history, domain, t) <= AcquiredAt(s, history, domain, t) < FreedAt(s, history, domain, t) + MOD
    ensures Sub(a, f) == AcquiredAt(s, history, domain, t) - FreedAt(s, history, domain, t)
  {
    SubIsWrap(AcquiredAt(s, history, domain, t), FreedAt(s, history, domain, t));
    WrapSmall(AcquiredAt(s, history, domain, t) - FreedAt(s, history, domain, t));
  }

  /** The exception is real: if 2^64 bytes are allocated around the middle read, with frees on both
      sides of it, the loop accepts a pair that was held at no instant of the round. */
  lemma WrapAroundFoolsTheLoop(x: u64, y: u64) returns (history: seq<Event>, a: u64, f: u64)
    requires x > 0 && y > 0 && x + y < MOD
    ensures |history| == 4 && Collected(Start(0, 0), history, Vram, 0, 2, 4, a, f)
    ensures forall t | 0 <= t <= 4 :: !HeldAt(Start(0, 0), history, Vram, t, a, f)
  {
    var h0, h1, h2, h3 := Usage(Vram, MOD - 1, true), Usage(Vram, x, false), Usage(Vram, y, false), Usage(Vram, 1, true);
    history, a, f := [h0, h1, h2, h3], 0, x;
    assert history[0] == h0 && history[1] == h1 && history[2] == h2 && history[3] == h3;
    SumAt(history, true, 0);
    SumAt(history, true, 1);
    SumAt(history, true, 2);
    SumAt(history, true, 3);
    SumAt(history, false, 0);
    SumAt(history, false, 1);
    SumAt(history, false, 2);
    SumAt(history, false, 3);
    MultipleIsSame(0, 1);
    var s := Start(0, 0);
    assert AcquiredAt(s, history, Vram, 4) == MOD && FreedAt(s, history, Vram, 4) == x + y;
    forall t | 0 <= t <= 4
      ensures !HeldAt(s, history, Vram, t, a, f)
    {
      if t == 0 {
        assert FreedAt(s, history, Vram, 0) == 0;
      } else if t < 4 {
        assert AcquiredAt(s, history, Vram, t) == MOD - 1;
      }
    }
  }

  lemma SumAt(history: seq<Event>, alloc: bool, t: nat)
    requires t < |history|
    ensures SumOf(history, Vram, alloc, 0) == 0
    ensures SumOf(history, Vram, alloc, t + 1) == SumOf(history, Vram, alloc, t)
      + if history[t].domain == Vram && history[t].alloc == alloc then history[t].size else 0
  {
  }

  function Use(s: Start, history: seq<Event>, domain: Domain, t: nat): int
    requires t <= |history|
  {
    AcquiredAt(s, history, domain, t) - FreedAt(s, history, domain, t)
  }

  /** The three reads of the last round of a loop. */
  datatype Round = Round(t0: nat, t: nat, t1: nat)

  predicate InOrder(r: Round, begin: nat, end: nat) {
    begin <= r.t0 <= r.t <= r.t1 <= end
  }

  /** What a loop that ends with this round makes of a domain. */
  predicate Reports(s: Start, history: seq<Event>, domain: Domain, r: Round, used: u64)
    requires InOrder(r, 0, |history|)
  {
    var a, f := Wrap(AcquiredAt(s, history, domain, r.t0)), Wrap(FreedAt(s, history, domain, r.t));
    Collected(s, history, domain, r.t0, r.t, r.t1, a, f) && used == Sub(a, f)
  }

  predicate Short(history: seq<Event>, domain: Domain, r: Round)
    requires InOrder(r, 0, |history|)
  {
    SumOf(history, domain, true, r.t1) - SumOf(history, domain, true, r.t0) < MOD
  }

  /** pddgpu_memory_stats_get_info, usage part: VRAM is collected first, GTT after it.  Unless 2^64
      bytes are allocated within a round, a domain's usage is that of the round's middle read. */
  method GetInfo(v: Start, g: Start, history: seq<Event>, gap: nat -> nat)
    returns (vramUsed: u64, gttUsed: u64, rv: Round, rg: Round)
    ensures InOrder(rv, 0, |history|) && InOrder(rg, rv.t1, |history|)
    ensures Reports(v, history, Vram, rv, vramUsed) && Reports(g, history, Tt, rg, gttUsed)
    ensures Short(history, Vram, rv) ==> Same(vramUsed, Use(v, history, Vram, rv.t))
    ensures Short(history, Tt, rg) ==> Same(gttUsed, Use(g, history, Tt, rg.t))
  {
    var va, vf, vt0, vt, vt1, vr := DoubleCollect(v, history, Vram, 0, gap);
    var ga, gf, gt0, gt, gt1, gr := DoubleCollect(g, history, Tt, vt1, (i: nat) => gap(3 * vr + i));
    vramUsed, gttUsed := Sub(va, vf), Sub(ga, gf);
    rv, rg := Round(vt0, vt, vt1), Round(gt0, gt, gt1);
    if Short(history, Vram, rv) {
      ShortRoundIsRight(v, history, Vram, rv, vramUsed);
    }
    if Short(history, Tt, rg) {
      ShortRoundIsRight(g, history, Tt, rg, gttUsed);
    }
  }

  /** The u64 sum the monitor compares with its threshold. */
  lemma MonitorSum(v: Start, g: Start, history: seq<Event>, rv: Round, rg: Round, vramUsed: u64, gttUsed: u64)
    requires InOrder(rv, 0, |history|) && InOrder(rg, rv.t1, |history|)
    requires Reports(v, history, Vram, rv, vramUsed) && Reports(g, history, Tt, rg, gttUsed)
    requires Short(history, Vram, rv) && Short(history, Tt, rg)
    ensures Same(Add(vramUsed, gttUsed), ReportedTotal(v, g, history, rv.t, rg.t))
  {
    ShortRoundIsRight(v, history, Vram, rv, vramUsed);
    ShortRoundIsRight(g, history, Tt, rg, gttUsed);
    var x, y := Use(v, history, Vram, rv.t), Use(g, history, Tt, rg.t);
    WrapSmall(vramUsed);
    WrapSmall(gttUsed);
    AddIsWrap(x, y);
    WrapSmall(Add(vramUsed, gttUsed));
  }

  lemma ShortRoundIsRight(s: Start, history: seq<Event>, domain: Domain, r: Round, used: u64)
    requires InOrder(r, 0, |history|) && Reports(s, history, domain, r, used) && Short(history, domain, r)
    ensures Same(used, Use(s, history, domain, r.t))
  {
    var a, f := Wrap(AcquiredAt(s, history, domain, r.t0)), Wrap(FreedAt(s, history, domain, r.t));
    SnapshotIsAtomic(s, history, domain, r.t0, r.t, r.t1, a, f);
    SubIsWrap(AcquiredAt(s, history, domain, r.t), FreedAt(s, history, domain, r.t));
    WrapSmall(used);
  }

  // ----- the sum over both domains -----

  /** What was in use in both domains at one instant. */
  function Total(v: Start, g: Start, history: seq<Event>, t: nat): int
    requires t <= |history|
  {
    Use(v, history, Vram, t) + Use(g, history, Tt, t)
  }

  /** What the monitor adds up: VRAM at the instant of one round, GTT at that of a later one. */
  function ReportedTotal(v: Start, g: Start, history: seq<Event>, tv: nat, tg: nat): int
    requires tv <= tg <= |history|
  {
    Use(v, history, Vram, tv) + Use(g, history, Tt, tg)
  }

  /** No bytes of the domain are allocated or freed by the events t, ..., u - 1. */
  predicate Quiet(history: seq<Event>, domain: Domain, t: nat, u: nat)
    requires t <= u <= |history|
  {
    forall i | t <= i < u :: history[i].domain == domain ==> history[i].size == 0
  }

  /** Meanwhile the domain is only allocated from, or only freed to. */
  predicate OneWay(history: seq<Event>, domain: Domain, alloc: bool, t: nat, u: nat)
    requires t <= u <= |history|
  {
    forall i | t <= i < u :: history[i].domain == domain && history[i].size > 0 ==> history[i].alloc == alloc
  }

  lemma {:induction false} QuietKeepsUse(s: Start, history: seq<Event>, domain: Domain, t: nat, u: nat)
    requires t <= u <= |history| && Quiet(history, domain, t, u)
    ensures Use(s, history, domain, t) == Use(s, history, domain, u)
    decreases u - t
  {
    if t < u {
      QuietKeepsUse(s, history, domain, t, u - 1);
    }
  }

  /** One-way traffic moves usage in one direction, and leaves it alone only if there is none. */
  lemma {:induction false} OneWayUse(s: Start, history: seq<Event>, domain: Domain, alloc: bool, t: nat, u: nat)
    requires t <= u <= |history| && OneWay(history, domain, alloc, t, u)
    ensures if alloc then Use(s, history, domain, t) <= Use(s, history, domain, u)
            else Use(s, history, domain, t) >= Use(s, history, domain, u)
    ensures Use(s, history, domain, t) == Use(s, history, domain, u) <==> Quiet(history, domain, t, u)
    decreases u - t
  {
    if t < u {
      OneWayUse(s, history, domain, alloc, t, u - 1);
      assert Quiet(history, domain, t, u) <==>
        Quiet(history, domain, t, u - 1) && (history[u - 1].domain == domain ==> history[u - 1].size == 0);
    }
  }

  lemma {:induction false} FreesGrow(history: seq<Event>, domain: Domain, t: nat, u: nat)
    requires t <= u <= |history|
    ensures SumOf(history, domain, false, t) <= SumOf(history, domain, false, u)
    decreases u - t
  {
    if t < u {
      FreesGrow(history, domain, t, u - 1);
    }
  }

  /** For every history: the sum is the total at the VRAM read if GTT is quiet until the GTT read, and
      the total at the GTT read if VRAM is.  In any case it is off by no more than what GTT acquires or
      frees in between. */
  lemma ReportedTotalMeaning(v: Start, g: Start, history: seq<Event>, tv: nat, tg: nat)
    requires tv <= tg <= |history|
    ensures Quiet(history, Tt, tv, tg) ==> ReportedTotal(v, g, history, tv, tg) == Total(v, g, history, tv)
    ensures Quiet(history, Vram, tv, tg) ==> ReportedTotal(v, g, history, tv, tg) == Total(v, g, history, tg)
    ensures var off := ReportedTotal(v, g, history, tv, tg) - Total(v, g, history, tv);
      SumOf(history, Tt, false, tv) - SumOf(history, Tt, false, tg) <= off
      <= SumOf(history, Tt, true, tg) - SumOf(history, Tt, true, tv)
  {
    SumsGrow(history, Tt, tv, tg);
    FreesGrow(history, Tt, tv, tg);
    if Quiet(history, Tt, tv, tg) {
      QuietKeepsUse(g, history, Tt, tv, tg);
    }
    if Quiet(history, Vram, tv, tg) {
      QuietKeepsUse(v, history, Vram, tv, tg);
    }
  }

  /** The converse: with one-way traffic in a domain, quiet is also necessary for either end. */
  lemma ReportedTotalAtTheEnds(v: Start, g: Start, history: seq<Event>, tv: nat, tg: nat, domain: Domain, alloc: bool)
    requires tv <= tg <= |history| && OneWay(history, domain, alloc, tv, tg)
    ensures domain == Tt ==>
      (ReportedTotal(v, g, history, tv, tg) == Total(v, g, history, tv) <==> Quiet(history, Tt, tv, tg))
    ensures domain == Vram ==>
      (ReportedTotal(v, g, history, tv, tg) == Total(v, g, history, tg) <==> Quiet(history, Vram, tv, tg))
  {
    OneWayUse(v, history, domain, alloc, tv, tg);
    OneWayUse(g, history, domain, alloc, tv, tg);
  }

  /** Between the reads there is a moment up to which VRAM, and from which on GTT, is quiet. */
  ghost predicate GttBeforeVram(history: seq<Event>, tv: nat, tg: nat)
    requires tv <= tg <= |history|
  {
    exists t | tv <= t <= tg :: QuietAround(history, tv, t, tg)
  }

  predicate QuietAround(history: seq<Event>, tv: nat, t: nat, tg: nat)
    requires tv <= t <= tg <= |history|
  {
    Quiet(history, Vram, tv, t) && Quiet(history, Tt, t, tg)
  }

  /** While bytes move from one domain to the other, the sum was in use at some instant between the
      reads if and only if all GTT traffic in between comes before all VRAM traffic. */
  lemma ReportedTotalExactly(v: Start, g: Start, history: seq<Event>, tv: nat, tg: nat, toGtt: bool)
    requires tv <= tg <= |history|
    requires OneWay(history, Vram, !toGtt, tv, tg) && OneWay(history, Tt, toGtt, tv, tg)
    ensures (exists t | tv <= t <= tg :: Total(v, g, history, t) == ReportedTotal(v, g, history, tv, tg))
       <==> GttBeforeVram(history, tv, tg)
  {
    forall t | tv <= t <= tg
      ensures Total(v, g, history, t) == ReportedTotal(v, g, history, tv, tg) <==> QuietAround(history, tv, t, tg)
    {
      OneWayUse(v, history, Vram, !toGtt, tv, t);
      OneWayUse(g, history, Tt, toGtt, t, tg);
    }
    if t :| tv <= t <= tg && Total(v, g, history, t) == ReportedTotal(v, g, history, tv, tg) {
      assert QuietAround(history, tv, t, tg);
    }
    if t :| tv <= t <= tg && QuietAround(history, tv, t, tg) {
      assert Total(v, g, history, t) == ReportedTotal(v, g, history, tv, tg);
    }
  }

  lemma SumOfTwo(x: Event, y: Event, domain: Domain, alloc: bool)
    ensures var p := if x.domain == domain && x.alloc == alloc then x.size else 0;
      var q := if y.domain == domain && y.alloc == alloc then y.size else 0;
      && SumOf([x, y], domain, alloc, 0) == 0
      && SumOf([x, y], domain, alloc, 1) == p
      && SumOf([x, y], domain, alloc, 2) == p + q
  {
    assert SumOf([x, y], domain, alloc, 0) == 0;
  }

  /** It does go wrong: bytes freed in VRAM after its round and allocated in GTT before its round are
      reported twice, while no more than half of that was in use at any instant. */
  lemma DomainsAreNotCollectedTogether(size: u64) returns (history: seq<Event>)
    requires size > 0
    ensures |history| == 2
    ensures var v, g := Start(size, 0), Start(0, 0);
      && Reports(v, history, Vram, Round(0, 0, 0), size) && Reports(g, history, Tt, Round(2, 2, 2), size)
      && ReportedTotal(v, g, history, 0, 2) == 2 * size
      && forall t | 0 <= t <= 2 :: Total(v, g, history, t) <= size
  {
    history := [Usage(Vram, size, false), Usage(Tt, size, true)];
    SumOfTwo(history[0], history[1], Vram, true);
    SumOfTwo(history[0], history[1], Vram, false);
    SumOfTwo(history[0], history[1], Tt, true);
    SumOfTwo(history[0], history[1], Tt, false);
    WrapSmall(0);
    WrapSmall(size);
    var v, g := Start(size, 0), Start(0, 0);
    assert Use(v, history, Vram, 0) == size && Use(v, history, Vram, 1) == 0 && Use(v, history, Vram, 2) == 0;
    assert Use(g, history, Tt, 0) == 0 && Use(g, history, Tt, 1) == 0 && Use(g, history, Tt, 2) == size;
  }
}
