/** The contents of the leak list as values: what one pass over it keeps, counts and adds up
    (pddgpu_memory_stats.c, include/pddgpu_memory_stats.h). */
module LeakRecords {
  import opened U64

  /** struct pddgpu_memory_leak_object, without its links and without caller details. */
  datatype Rec = Rec(bo: nat, allocationTime: u64, size: u64, domain: nat)

  const SUSPICIOUS_AGE: u64 := 30_000_000_000        // 30 seconds in ns
  const CONFIRMED_AGE: u64 := 300_000_000_000        // 5 minutes in ns

  /** The entry still describes a buffer object: its bo is set and has a reservation object.
      `resv` is the set of addresses for which the latter holds at the time of the pass. */
  predicate IsValid(r: Rec, resv: set<nat>) {
    r.bo != 0 && r.bo in resv
  }

  /** The u64 subtraction in the check: it wraps if the entry is younger than the pass. */
  function Age(r: Rec, now: u64): u64 {
    Sub(now, r.allocationTime)
  }

  function ValidRecs(rs: seq<Rec>, resv: set<nat>): seq<Rec> {
    if rs == [] then [] else
      var init := ValidRecs(rs[..|rs| - 1], resv);
      if IsValid(rs[|rs| - 1], resv) then init + [rs[|rs| - 1]] else init
  }

  function OlderThan(rs: seq<Rec>, now: u64, age: u64): nat {
    if rs == [] then 0 else
      OlderThan(rs[..|rs| - 1], now, age) + if Age(rs[|rs| - 1], now) > age then 1 else 0
  }

  function TotalSize(rs: seq<Rec>): nat {
    if rs == [] then 0 else TotalSize(rs[..|rs| - 1]) + rs[|rs| - 1].size
  }

  /** The index of the first entry for bo, or |rs| if there is none: where the search loop stops. */
  function FirstFor(rs: seq<Rec>, bo: nat): (k: nat)
    ensures k <= |rs|
    ensures k < |rs| ==> rs[k].bo == bo
    ensures forall j | 0 <= j < k :: rs[j].bo != bo
  {
    if rs == [] then 0
    else if rs[0].bo == bo then 0
    else 1 + FirstFor(rs[1..], bo)
  }

  lemma FirstForIs(rs: seq<Rec>, bo: nat, k: nat)
    requires k <= |rs| && (k < |rs| ==> rs[k].bo == bo) && forall j | 0 <= j < k :: rs[j].bo != bo
    ensures FirstFor(rs, bo) == k
  {
  }

  /** ValidRecs is a filter: an entry survives exactly if it is valid, as often as before. */
  lemma {:induction false} ValidRecsFilters(rs: seq<Rec>, resv: set<nat>, r: Rec)
    ensures multiset(ValidRecs(rs, resv))[r] == if r.bo != 0 && r.bo in resv then multiset(rs)[r] else 0
  {
    if rs != [] {
      var init := rs[..|rs| - 1];
      ValidRecsFilters(init, resv, r);
      assert rs == init + [rs[|rs| - 1]];
    }
  }

  lemma {:induction false} ValidRecsAppend(a: seq<Rec>, b: seq<Rec>, resv: set<nat>)
    ensures ValidRecs(a + b, resv) == ValidRecs(a, resv) + ValidRecs(b, resv)
  {
    if b == [] {
      assert a + b == a;
    } else {
      assert (a + b)[..|a + b| - 1] == a + b[..|b| - 1];
      ValidRecsAppend(a, b[..|b| - 1], resv);
    }
  }

  lemma {:induction false} TotalSizeAppend(a: seq<Rec>, b: seq<Rec>)
    ensures TotalSize(a + b) == TotalSize(a) + TotalSize(b)
  {
    if b == [] {
      assert a + b == a;
    } else {
      assert (a + b)[..|a + b| - 1] == a + b[..|b| - 1];
      TotalSizeAppend(a, b[..|b| - 1]);
    }
  }

  /** Number and total size of the valid entries among the first k. */
  function CountTo(rs: seq<Rec>, k: nat, resv: set<nat>): nat
    requires k <= |rs|
  {
    if k == 0 then 0 else CountTo(rs, k - 1, resv) + if IsValid(rs[k - 1], resv) then 1 else 0
  }

  function SizeTo(rs: seq<Rec>, k: nat, resv: set<nat>): nat
    requires k <= |rs|
  {
    if k == 0 then 0 else SizeTo(rs, k - 1, resv) + if IsValid(rs[k - 1], resv) then rs[k - 1].size else 0
  }

  lemma {:induction false} ReportMeaning(rs: seq<Rec>, k: nat, resv: set<nat>)
    requires k <= |rs|
    ensures CountTo(rs, k, resv) == |ValidRecs(rs[..k], resv)|
    ensures SizeTo(rs, k, resv) == TotalSize(ValidRecs(rs[..k], resv))
  {
    if k > 0 {
      ReportMeaning(rs, k - 1, resv);
      assert rs[..k][..k - 1] == rs[..k - 1];
      var v := ValidRecs(rs[..k - 1], resv);
      assert (v + [rs[k - 1]])[..|v|] == v;
    }
  }

  lemma {:induction false} OlderThanAppend(a: seq<Rec>, b: seq<Rec>, now: u64, age: u64)
    ensures OlderThan(a + b, now, age) == OlderThan(a, now, age) + OlderThan(b, now, age)
  {
    if b == [] {
      assert a + b == a;
    } else {
      assert (a + b)[..|a + b| - 1] == a + b[..|b| - 1];
      OlderThanAppend(a, b[..|b| - 1], now, age);
    }
  }

  lemma OlderThanFirst(r: Rec, rest: seq<Rec>, now: u64, age: u64)
    ensures OlderThan([r] + rest, now, age) == (if Age(r, now) > age then 1 else 0) + OlderThan(rest, now, age)
  {
    OlderThanAppend([r], rest, now, age);
    assert [r][..0] == [];
  }

  /** What the counted ages mean: the time since the allocation if that lies in the past, while an
      entry stamped after the pass time wraps, and then counts as a confirmed leak unless it lies
      nearly 2^64 ns ahead. */
  lemma AgeMeaning(r: Rec, now: u64)
    ensures r.allocationTime <= now ==> Age(r, now) == now - r.allocationTime
    ensures r.allocationTime > now ==>
      && Age(r, now) == MOD - (r.allocationTime - now)
      && (Age(r, now) > CONFIRMED_AGE <==> r.allocationTime - now < MOD - CONFIRMED_AGE)
  {
  }

  /** The entries that are really older than that: allocated more than `age` before the pass. */
  function ReallyOlderThan(rs: seq<Rec>, now: u64, age: u64): nat {
    if rs == [] then 0 else
      ReallyOlderThan(rs[..|rs| - 1], now, age) + if rs[|rs| - 1].allocationTime + age < now then 1 else 0
  }

  /** The u64 age of an entry does not mislead the test: it was stamped before the pass, or so far
      after it that the wrapped difference is small again. */
  predicate Judged(r: Rec, now: u64, age: u64) {
    r.allocationTime <= now || r.allocationTime - now >= MOD - age
  }

  lemma {:induction false} NeverUndercounts(rs: seq<Rec>, now: u64, age: u64)
    ensures ReallyOlderThan(rs, now, age) <= OlderThan(rs, now, age)
  {
    if rs != [] {
      NeverUndercounts(rs[..|rs| - 1], now, age);
    }
  }

  /** A pass counts exactly the entries that are really older if and only if none of them was stamped
      after the pass time, short of nearly 2^64 ns. */
  lemma {:induction false} OlderThanExactly(rs: seq<Rec>, now: u64, age: u64)
    ensures OlderThan(rs, now, age) == ReallyOlderThan(rs, now, age) <==>
      forall i | 0 <= i < |rs| :: Judged(rs[i], now, age)
  {
    if rs != [] {
      var n := |rs| - 1;
      OlderThanExactly(rs[..n], now, age);
      NeverUndercounts(rs[..n], now, age);
      assert (forall i | 0 <= i < |rs| :: Judged(rs[i], now, age)) <==>
        (forall i | 0 <= i < n :: Judged(rs[..n][i], now, age)) && Judged(rs[n], now, age);
    }
  }

  lemma {:induction false} ValidRecsAreListed(rs: seq<Rec>, resv: set<nat>, i: nat) returns (j: nat)
    requires i < |ValidRecs(rs, resv)|
    ensures j < |rs| && rs[j] == ValidRecs(rs, resv)[i]
  {
    var n := |rs| - 1;
    if i < |ValidRecs(rs[..n], resv)| {
      j := ValidRecsAreListed(rs[..n], resv, i);
    } else {
      j := n;
    }
  }

  predicate StampedBefore(rs: seq<Rec>, now: u64) {
    forall i | 0 <= i < |rs| :: rs[i].allocationTime <= now
  }

  /** So it counts the valid entries that are really older when all entries are stamped before it. */
  lemma PastOlderThan(rs: seq<Rec>, resv: set<nat>, now: u64, age: u64)
    requires StampedBefore(rs, now)
    ensures OlderThan(ValidRecs(rs, resv), now, age) == ReallyOlderThan(ValidRecs(rs, resv), now, age)
  {
    var valid := ValidRecs(rs, resv);
    forall i | 0 <= i < |valid|
      ensures Judged(valid[i], now, age)
    {
      var _ := ValidRecsAreListed(rs, resv, i);
    }
    OlderThanExactly(valid, now, age);
  }

  lemma PastTotals(rs: seq<Rec>, resv: set<nat>, now: u64)
    ensures var valid := ValidRecs(rs, resv);
      StampedBefore(rs, now) ==>
        && OlderThan(valid, now, SUSPICIOUS_AGE) == ReallyOlderThan(valid, now, SUSPICIOUS_AGE)
        && OlderThan(valid, now, CONFIRMED_AGE) == ReallyOlderThan(valid, now, CONFIRMED_AGE)
  {
    if StampedBefore(rs, now) {
      PastOlderThan(rs, resv, now, SUSPICIOUS_AGE);
      PastOlderThan(rs, resv, now, CONFIRMED_AGE);
    }
  }

  /** A fresh entry is taken for a confirmed leak: the check reads the clock before it takes the lock,
      so an object created in between is stamped later than the pass. */
  lemma NewbornIsConfirmed(now: u64, later: u64, bo: nat, size: u64, domain: nat)
    requires now < later < now + (MOD - CONFIRMED_AGE)
    ensures OlderThan([Rec(bo, later, size, domain)], now, CONFIRMED_AGE) == 1
    ensures ReallyOlderThan([Rec(bo, later, size, domain)], now, CONFIRMED_AGE) == 0
  {
    var r := Rec(bo, later, size, domain);
    assert [r][..0] == [];
    AgeMeaning(r, now);
  }

  /** One pass never raises the confirmed count by more than the suspicious count. */
  lemma {:induction false} ConfirmedWithinSuspicious(rs: seq<Rec>, now: u64)
    ensures OlderThan(rs, now, CONFIRMED_AGE) <= OlderThan(rs, now, SUSPICIOUS_AGE) <= |rs|
  {
    if rs != [] {
      ConfirmedWithinSuspicious(rs[..|rs| - 1], now);
    }
  }
}
