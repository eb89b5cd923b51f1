/** The usage counters of the statistics module (pddgpu_memory_stats.c:178-285, 668-691, 748-789).
    Each counter is an atomic64_t, so all arithmetic is modulo 2^64. */
module MemoryStats {
  import opened Seqs
  import opened U64

  /** TTM_PL_SYSTEM (also what a buffer object without a resource reports), TTM_PL_TT, TTM_PL_VRAM. */
  datatype Domain = System | Tt | Vram

  /** A pair of monotone counters: allocated and freed bytes, or allocations and deallocations. */
  datatype Tally = Tally(acquired: u64, freed: u64)

  datatype Counters = Counters(vram: Tally, gtt: Tally, total: Tally, moveOperations: u64, moveTime: u64)

  /** A call of pddgpu_memory_stats_update_usage. */
  datatype Usage = Usage(domain: Domain, size: u64, alloc: bool)

  const NONE := Tally(0, 0)
  const ZERO := Counters(NONE, NONE, NONE, 0, 0)

  function Sum(t: Tally, u: Tally): Tally {
    Tally(Add(t.acquired, u.acquired), Add(t.freed, u.freed))
  }

  function Plus(c: Counters, d: Counters): Counters {
    Counters(Sum(c.vram, d.vram), Sum(c.gtt, d.gtt), Sum(c.total, d.total),
             Add(c.moveOperations, d.moveOperations), Add(c.moveTime, d.moveTime))
  }

  function One(amount: u64, alloc: bool): Tally {
    if alloc then Tally(amount, 0) else Tally(0, amount)
  }

  /** What one call of update_usage adds; nothing outside VRAM and GTT. */
  function Delta(u: Usage): Counters {
    match u.domain
    case Vram => Counters(One(u.size, u.alloc), NONE, One(1, u.alloc), 0, 0)
    case Tt => Counters(NONE, One(u.size, u.alloc), One(1, u.alloc), 0, 0)
    case System => ZERO
  }

  /** The same bytes as reported by alloc_end and free_end, which count the operation in any domain. */
  function EndDelta(u: Usage): Counters {
    Delta(u).(total := One(1, u.alloc))
  }

  function TallyOf(c: Counters, d: Domain): Tally {
    match d
    case Vram => c.vram
    case Tt => c.gtt
    case System => NONE
  }

  /** info->vram_used and info->gtt_used. */
  function Used(c: Counters, d: Domain): u64 {
    Sub(TallyOf(c, d).acquired, TallyOf(c, d).freed)
  }

  /** Applying calls one after the other. */
  function Fold(c: Counters, us: seq<Usage>): Counters {
    if us == [] then c else Plus(Fold(c, us[..|us| - 1]), Delta(us[|us| - 1]))
  }

  /** The batch record a caller builds by summing the calls field by field, in u64. */
  function BatchOf(us: seq<Usage>): Counters {
    if us == [] then ZERO else Plus(BatchOf(us[..|us| - 1]), Delta(us[|us| - 1]))
  }

  lemma AddAssoc(a: u64, b: u64, c: u64)
    ensures Add(Add(a, b), c) == Add(a, Add(b, c))
  {
  }

  lemma SumAssoc(t: Tally, u: Tally, v: Tally)
    ensures Sum(Sum(t, u), v) == Sum(t, Sum(u, v))
  {
  }

  lemma PlusAssoc(c: Counters, d: Counters, e: Counters)
    ensures Plus(Plus(c, d), e) == Plus(c, Plus(d, e))
  {
    SumAssoc(c.vram, d.vram, e.vram);
    SumAssoc(c.gtt, d.gtt, e.gtt);
    SumAssoc(c.total, d.total, e.total);
    AddAssoc(c.moveOperations, d.moveOperations, e.moveOperations);
    AddAssoc(c.moveTime, d.moveTime, e.moveTime);
  }

  /** Batch refinement: one batch update reaches the counters that the calls it sums up would have
      reached one by one, whatever their domains and sizes and even if sums wrap. */
  lemma {:induction false} BatchRefinesCalls(c: Counters, us: seq<Usage>)
    ensures Plus(c, BatchOf(us)) == Fold(c, us)
  {
    if us != [] {
      BatchRefinesCalls(c, us[..|us| - 1]);
      PlusAssoc(c, BatchOf(us[..|us| - 1]), Delta(us[|us| - 1]));
    }
  }

  /** The bytes that calls report for a domain, and how many of them are counted. */
  function SizeOf(us: seq<Usage>, d: Domain, alloc: bool): nat {
    if |us| == 0 then 0 else
      var u := us[|us| - 1];
      SizeOf(us[..|us| - 1], d, alloc) + if u.domain == d && u.alloc == alloc then u.size else 0
  }

  function CallsOf(us: seq<Usage>, alloc: bool, everywhere: bool): nat {
    if |us| == 0 then 0 else
      var u := us[|us| - 1];
      CallsOf(us[..|us| - 1], alloc, everywhere) + if u.alloc == alloc && (everywhere || u.domain != System) then 1 else 0
  }

  /** What the counters of a state have become after such calls, each by itself. */
  ghost predicate Sums(c: Counters, e: Counters, us: seq<Usage>, everywhere: bool) {
    && BytesSum(c.vram, e.vram, us, Vram) && BytesSum(c.gtt, e.gtt, us, Tt) && CallsSum(c.total, e.total, us, everywhere)
    && e.moveOperations == c.moveOperations && e.moveTime == c.moveTime
  }

  ghost predicate BytesSum(t: Tally, e: Tally, us: seq<Usage>, d: Domain) {
    e == Tally(Wrap(t.acquired + SizeOf(us, d, true)), Wrap(t.freed + SizeOf(us, d, false)))
  }

  ghost predicate CallsSum(t: Tally, e: Tally, us: seq<Usage>, everywhere: bool) {
    e == Tally(Wrap(t.acquired + CallsOf(us, true, everywhere)), Wrap(t.freed + CallsOf(us, false, everywhere)))
  }

  lemma WrapStep(x: u64, sum: nat, d: u64)
    ensures Add(Wrap(x + sum), d) == Wrap(x + (sum + d))
  {
    WrapSmall(d);
    AddIsWrap(x + sum, d);
  }

  lemma BytesStep(t: Tally, e: Tally, us: seq<Usage>, d: Domain)
    requires |us| > 0 && BytesSum(t, e, us[..|us| - 1], d)
    ensures var u := us[|us| - 1]; BytesSum(t, if u.domain == d then Sum(e, One(u.size, u.alloc)) else e, us, d)
  {
    var u, before := us[|us| - 1], us[..|us| - 1];
    WrapStep(t.acquired, SizeOf(before, d, true), u.size);
    WrapStep(t.freed, SizeOf(before, d, false), u.size);
  }

  lemma CallsStep(t: Tally, e: Tally, us: seq<Usage>, everywhere: bool)
    requires |us| > 0 && CallsSum(t, e, us[..|us| - 1], everywhere)
    ensures var u := us[|us| - 1];
      CallsSum(t, if everywhere || u.domain != System then Sum(e, One(1, u.alloc)) else e, us, everywhere)
  {
    var before := us[..|us| - 1];
    WrapStep(t.acquired, CallsOf(before, true, everywhere), 1);
    WrapStep(t.freed, CallsOf(before, false, everywhere), 1);
  }

  lemma SumsStep(c: Counters, e: Counters, us: seq<Usage>, everywhere: bool)
    requires |us| > 0 && Sums(c, e, us[..|us| - 1], everywhere)
    ensures var u := us[|us| - 1]; Sums(c, Plus(e, if everywhere then EndDelta(u) else Delta(u)), us, everywhere)
  {
    BytesStep(c.vram, e.vram, us, Vram);
    BytesStep(c.gtt, e.gtt, us, Tt);
    CallsStep(c.total, e.total, us, everywhere);
  }

  /** After any calls of update_usage each byte counter has risen by the bytes reported for its domain
      and direction, and each operation counter by the calls of its direction for VRAM or GTT. */
  lemma {:induction false} CountersAreSums(c: Counters, us: seq<Usage>)
    ensures Sums(c, Fold(c, us), us, false)
  {
    if |us| > 0 {
      CountersAreSums(c, us[..|us| - 1]);
      SumsStep(c, Fold(c, us[..|us| - 1]), us, false);
    }
  }

  /** The same for alloc_end and free_end, which count their calls in every domain. */
  function FoldEnds(c: Counters, us: seq<Usage>): Counters {
    if |us| == 0 then c else Plus(FoldEnds(c, us[..|us| - 1]), EndDelta(us[|us| - 1]))
  }

  lemma {:induction false} EndsAreSums(c: Counters, us: seq<Usage>)
    ensures Sums(c, FoldEnds(c, us), us, true)
  {
    if |us| > 0 {
      EndsAreSums(c, us[..|us| - 1]);
      SumsStep(c, FoldEnds(c, us[..|us| - 1]), us, true);
    }
  }

  lemma CallsCommute(c: Counters, u: Usage, v: Usage)
    ensures Plus(Plus(c, Delta(u)), Delta(v)) == Plus(Plus(c, Delta(v)), Delta(u))
  {
    PlusAssoc(c, Delta(u), Delta(v));
    PlusAssoc(c, Delta(v), Delta(u));
  }

  lemma FoldAppend(c: Counters, us: seq<Usage>, u: Usage)
    ensures Fold(c, us + [u]) == Plus(Fold(c, us), Delta(u))
  {
    assert (us + [u])[..|us|] == us;
  }

  lemma {:induction false} DelayCall(c: Counters, before: seq<Usage>, u: Usage, after: seq<Usage>)
    ensures Fold(c, before + [u] + after) == Fold(c, before + after + [u])
  {
    if |after| == 0 {
      assert before + [u] + after == before + after + [u];
    } else {
      var n := |after| - 1;
      var rest, w := after[..n], after[n];
      DelayCall(c, before, u, rest);
      assert before + [u] + after == (before + [u] + rest) + [w];
      assert before + after == (before + rest) + [w];
      FoldAppend(c, before + [u] + rest, w);
      FoldAppend(c, before + rest, u);
      FoldAppend(c, before + rest, w);
      FoldAppend(c, before + after, u);
      CallsCommute(Fold(c, before + rest), u, w);
    }
  }

  /** Only which calls are made matters, not their order: the calls of any two interleavings of the
      same threads reach the same counters. */
  lemma {:induction false} OrderIsIrrelevant(c: Counters, us: seq<Usage>, vs: seq<Usage>)
    requires multiset(us) == multiset(vs)
    ensures Fold(c, us) == Fold(c, vs)
    decreases |us|
  {
    if |us| == 0 {
      assert |multiset(vs)| == 0;
    } else {
      var n := |us| - 1;
      assert us[n] in multiset(us);
      var j := Occurrence(vs, us[n]);
      SameRest(us, vs, n, j);
      OrderIsIrrelevant(c, Without(us, n), Without(vs, j));
      CallLast(c, us, n);
      CallLast(c, vs, j);
    }
  }

  lemma CallLast(c: Counters, us: seq<Usage>, j: nat)
    requires j < |us|
    ensures Fold(c, us) == Plus(Fold(c, Without(us, j)), Delta(us[j]))
  {
    assert us == us[..j] + [us[j]] + us[j + 1..];
    DelayCall(c, us[..j], us[j], us[j + 1..]);
    FoldAppend(c, Without(us, j), us[j]);
  }

  lemma TakeOut(us: seq<Usage>, j: nat)
    requires j < |us|
    ensures multiset(us) == multiset(Without(us, j)) + multiset{us[j]}
  {
    assert us == us[..j] + [us[j]] + us[j + 1..];
  }

  lemma SameRest(us: seq<Usage>, vs: seq<Usage>, i: nat, j: nat)
    requires i < |us| && j < |vs| && us[i] == vs[j] && multiset(us) == multiset(vs)
    ensures multiset(Without(us, i)) == multiset(Without(vs, j))
  {
    TakeOut(us, i);
    TakeOut(vs, j);
    assert multiset(Without(us, i)) == multiset(us) - multiset{us[i]};
    assert multiset(Without(vs, j)) == multiset(vs) - multiset{vs[j]};
  }

  lemma Occurrence(vs: seq<Usage>, u: Usage) returns (j: nat)
    requires u in multiset(vs)
    ensures j < |vs| && vs[j] == u
  {
    j :| j < |vs| && vs[j] == u;
  }

  /** `if (d > 0) atomic64_add(d, &x)`: skipping a zero changes nothing. */
  function AddIfPositive(x: u64, d: u64): (r: u64)
    ensures r == Add(x, d)
  {
    if d > 0 then Add(x, d) else x
  }

  class MemoryStats {
    var vramAllocated: u64
    var vramFreed: u64
    var gttAllocated: u64
    var gttFreed: u64
    var totalAllocations: u64
    var totalDeallocations: u64
    var moveOperations: u64
    var moveTimeTotal: u64

    ghost function View(): Counters
      reads this
    {
      Counters(Tally(vramAllocated, vramFreed), Tally(gttAllocated, gttFreed),
               Tally(totalAllocations, totalDeallocations), moveOperations, moveTimeTotal)
    }

    constructor ()
      ensures View() == ZERO
    {
      vramAllocated, vramFreed, gttAllocated, gttFreed := 0, 0, 0, 0;
      totalAllocations, totalDeallocations, moveOperations, moveTimeTotal := 0, 0, 0, 0;
    }

    /** The bytes of one call; alloc_end, free_end and update_usage share this case split. */
    method AddBytes(domain: Domain, size: u64, alloc: bool)
      modifies this
      ensures View() == Plus(old(View()), Delta(Usage(domain, size, alloc)).(total := NONE))
    {
      if domain == Vram {
        if alloc {
          vramAllocated := Add(vramAllocated, size);
        } else {
          vramFreed := Add(vramFreed, size);
        }
      } else if domain == Tt {
        if alloc {
          gttAllocated := Add(gttAllocated, size);
        } else {
          gttFreed := Add(gttFreed, size);
        }
      }
    }

    /** pddgpu_memory_stats_update_usage. */
    method UpdateUsage(domain: Domain, size: u64, alloc: bool, shutdown: bool)
      modifies this
      ensures View() == if shutdown then old(View()) else Fold(old(View()), [Usage(domain, size, alloc)])
    {
      ghost var us := [Usage(domain, size, alloc)];
      assert us[..0] == [];
      if shutdown {
        return;
      }
      AddBytes(domain, size, alloc);
      if domain == Vram || domain == Tt {
        if alloc {
          totalAllocations := Add(totalAllocations, 1);
        } else {
          totalDeallocations := Add(totalDeallocations, 1);
        }
      }
    }

    /** The counters part of pddgpu_memory_stats_alloc_end: failed allocations are not counted. */
    method AllocEnd(size: u64, domain: Domain, result: int, shutdown: bool)
      modifies this
      ensures View() == if shutdown || result != 0 then old(View()) else Plus(old(View()), EndDelta(Usage(domain, size, true)))
    {
      if shutdown || result != 0 {
        return;
      }
      AddBytes(domain, size, true);
      totalAllocations := Add(totalAllocations, 1);
    }

    /** The counters part of pddgpu_memory_stats_free_end. */
    method FreeEnd(size: u64, domain: Domain, shutdown: bool)
      modifies this
      ensures View() == if shutdown then old(View()) else Plus(old(View()), EndDelta(Usage(domain, size, false)))
    {
      if shutdown {
        return;
      }
      AddBytes(domain, size, false);
      totalDeallocations := Add(totalDeallocations, 1);
    }

    /** pddgpu_memory_stats_batch_update: allocated before freed in each domain, zero fields skipped. */
    method BatchUpdate(batch: Counters, shutdown: bool)
      modifies this
      ensures View() == if shutdown then old(View()) else Plus(old(View()), batch)
    {
      if shutdown {
        return;
      }
      vramAllocated := AddIfPositive(vramAllocated, batch.vram.acquired);
      vramFreed := AddIfPositive(vramFreed, batch.vram.freed);
      gttAllocated := AddIfPositive(gttAllocated, batch.gtt.acquired);
      gttFreed := AddIfPositive(gttFreed, batch.gtt.freed);
      totalAllocations := AddIfPositive(totalAllocations, batch.total.acquired);
      totalDeallocations := AddIfPositive(totalDeallocations, batch.total.freed);
      moveOperations := AddIfPositive(moveOperations, batch.moveOperations);
      moveTimeTotal := AddIfPositive(moveTimeTotal, batch.moveTime);
    }
  }
}
