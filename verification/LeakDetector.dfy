/** The leak detector: a kernel `list_head` ring of heap objects that the locked helpers edit in
    place (include/pddgpu_memory_stats.h:155-199, pddgpu_memory_stats.c:122-151, 336-391, 441-474).
    Every method that touches the list runs with `leak_detector.lock` held. */
module LeakDetector {
  import opened U64
  import opened LeakRecords
  import opened Seqs

  /** struct pddgpu_memory_leak_object.  list_del leaves null (the poison values) in the links, so a
      stale link cannot be followed. */
  class LeakObject {
    const rec: Rec
    var next: LeakObject?
    var prev: LeakObject?

    constructor (rec: Rec)
      ensures this.rec == rec && next == null && prev == null
    {
      this.rec := rec;
      next, prev := null, null;
    }
  }

  function Recs(objs: seq<LeakObject>): (rs: seq<Rec>)
    ensures |rs| == |objs| && forall i | 0 <= i < |objs| :: rs[i] == objs[i].rec
  {
    seq(|objs|, i requires 0 <= i < |objs| => objs[i].rec)
  }

  /** What a pass of the check does: the ring it leaves, what it frees, how often it raises each
      counter. */
  datatype Pass = Pass(ring: seq<LeakObject>, frees: multiset<LeakObject>, suspicious: nat, confirmed: nat)

  function Raise(rec: Rec, now: u64, resv: set<nat>, age: u64): nat {
    if IsValid(rec, resv) && Age(rec, now) > age then 1 else 0
  }

  /** The pass as it edits the ring in place, from stop k onwards. */
  function PassFrom(ring: seq<LeakObject>, resv: set<nat>, now: u64, k: nat): Pass
    decreases |ring| - k
  {
    if k >= |ring| - 1 then Pass(ring, multiset{}, 0, 0)
    else if IsValid(ring[k].rec, resv) then
      var rest := PassFrom(ring, resv, now, k + 1);
      rest.(suspicious := Raise(ring[k].rec, now, resv, SUSPICIOUS_AGE) + rest.suspicious,
            confirmed := Raise(ring[k].rec, now, resv, CONFIRMED_AGE) + rest.confirmed)
    else
      var rest := PassFrom(Without(ring, k), resv, now, k);
      rest.(frees := multiset{ring[k]} + rest.frees)
  }

  lemma PassStep(ring: seq<LeakObject>, resv: set<nat>, now: u64, k: nat)
    requires k < |ring| - 1
    ensures var o := ring[k]; var valid := IsValid(o.rec, resv); var p := PassFrom(ring, resv, now, k);
      var q := if valid then PassFrom(ring, resv, now, k + 1) else PassFrom(Without(ring, k), resv, now, k);
      && p.ring == q.ring && p.frees == (if valid then multiset{} else multiset{o}) + q.frees
      && p.suspicious == Raise(o.rec, now, resv, SUSPICIOUS_AGE) + q.suspicious
      && p.confirmed == Raise(o.rec, now, resv, CONFIRMED_AGE) + q.confirmed
  {
  }

  /** The objects from stop k to the end of the list. */
  function From(ring: seq<LeakObject>, k: nat): seq<LeakObject> {
    if k < |ring| then ring[k..|ring| - 1] else []
  }

  lemma FromSplit(ring: seq<LeakObject>, k: nat)
    requires k < |ring| - 1
    ensures From(ring, k) == [ring[k]] + From(ring, k + 1)
    ensures From(Without(ring, k), k) == From(ring, k + 1)
    ensures Without(ring, k)[..k] == ring[..k]
  {
  }

  lemma FromStep(ring: seq<LeakObject>, resv: set<nat>, k: nat)
    requires k < |ring| - 1
    ensures From(Without(ring, k), k) == From(ring, k + 1)
    ensures Without(ring, k)[..k] == ring[..k]
    ensures var rest := ValidRecs(Recs(From(ring, k + 1)), resv);
      ValidRecs(Recs(From(ring, k)), resv) == if IsValid(ring[k].rec, resv) then [ring[k].rec] + rest else rest
  {
    FromSplit(ring, k);
    ValidFirst(ring[k], From(ring, k + 1), resv);
  }

  lemma ValidFirst(o: LeakObject, objs: seq<LeakObject>, resv: set<nat>)
    ensures var rest := ValidRecs(Recs(objs), resv);
      ValidRecs(Recs([o] + objs), resv) == if IsValid(o.rec, resv) then [o.rec] + rest else rest
  {
    assert Recs([o] + objs) == [o.rec] + Recs(objs);
    ValidRecsAppend([o.rec], Recs(objs), resv);
    assert [o.rec][..0] == [];
    assert [] + ValidRecs(Recs(objs), resv) == ValidRecs(Recs(objs), resv);
  }

  /** Editing in place amounts to filtering: the stops already passed stay, the rest is filtered, and
      the counters are raised once per valid entry that is old enough. */
  lemma {:induction false} PassFilters(ring: seq<LeakObject>, resv: set<nat>, now: u64, k: nat)
    requires k < |ring|
    ensures var p := PassFrom(ring, resv, now, k);
      && k < |p.ring| && p.ring[..k] == ring[..k]
      && Recs(From(p.ring, k)) == ValidRecs(Recs(From(ring, k)), resv)
    decreases |ring| - k
  {
    if k < |ring| - 1 {
      FromStep(ring, resv, k);
      if IsValid(ring[k].rec, resv) {
        PassFilters(ring, resv, now, k + 1);
        PassKeeps(ring, PassFrom(ring, resv, now, k + 1).ring, k);
      } else {
        PassFilters(Without(ring, k), resv, now, k);
      }
    }
  }

  lemma PassKeeps(ring: seq<LeakObject>, p: seq<LeakObject>, k: nat)
    requires k + 1 < |ring| && k + 1 < |p| && p[..k + 1] == ring[..k + 1]
    ensures p[..k] == ring[..k] && p[k] == ring[k] && Recs(From(p, k)) == [ring[k].rec] + Recs(From(p, k + 1))
  {
    assert p[..k + 1][..k] == p[..k] && ring[..k + 1][..k] == ring[..k];
    assert p[k] == p[..k + 1][k] == ring[..k + 1][k];
  }

  lemma {:induction false} PassCounts(ring: seq<LeakObject>, resv: set<nat>, now: u64, k: nat)
    requires k < |ring|
    ensures var p := PassFrom(ring, resv, now, k); var valid := ValidRecs(Recs(From(ring, k)), resv);
      p.suspicious == OlderThan(valid, now, SUSPICIOUS_AGE) && p.confirmed == OlderThan(valid, now, CONFIRMED_AGE)
    decreases |ring| - k
  {
    if k < |ring| - 1 {
      var rest := ValidRecs(Recs(From(ring, k + 1)), resv);
      FromStep(ring, resv, k);
      if IsValid(ring[k].rec, resv) {
        PassCounts(ring, resv, now, k + 1);
        OlderThanFirst(ring[k].rec, rest, now, SUSPICIOUS_AGE);
        OlderThanFirst(ring[k].rec, rest, now, CONFIRMED_AGE);
      } else {
        PassCounts(Without(ring, k), resv, now, k);
      }
    }
  }

  /** It frees every invalid entry as often as it is listed, and no other. */
  lemma {:induction false} PassFrees(ring: seq<LeakObject>, resv: set<nat>, now: u64, k: nat, o: LeakObject)
    requires k < |ring|
    ensures PassFrom(ring, resv, now, k).frees[o] ==
      if o.rec.bo != 0 && o.rec.bo in resv then 0 else multiset(From(ring, k))[o]
    decreases |ring| - k
  {
    if k < |ring| - 1 {
      FromSplit(ring, k);
      if IsValid(ring[k].rec, resv) {
        PassFrees(ring, resv, now, k + 1, o);
      } else {
        PassFrees(Without(ring, k), resv, now, k, o);
      }
    }
  }

  class Detector {
    const head: LeakObject                  // the list_head inside leak_detector
    ghost var ring: seq<LeakObject>
    ghost var kfreed: multiset<LeakObject>  // every kfree so far
    ghost var repr: set<LeakObject>         // the head and every object ever listed
    ghost var suspiciousTotal: nat          // the counters without wrap-around
    ghost var confirmedTotal: nat
    var suspicious: u64
    var confirmed: u64
    var lastCheckTime: u64
    var checkInterval: u64

    ghost predicate Valid()
      reads this, repr
    {
      Linked() && Counted() && forall i | 0 <= i < |ring| :: ring[i] !in kfreed
    }

    ghost predicate Counted()
      reads this
    {
      suspicious == Wrap(suspiciousTotal) && confirmed == Wrap(confirmedTotal)
    }

    /** The ring is doubly linked and visits nobody twice. */
    ghost predicate Linked()
      reads this, repr
    {
      && |ring| >= 2 && ring[0] == ring[|ring| - 1] == head
      && (forall i | 0 <= i < |ring| :: ring[i] in repr)
      && (forall i, j | 0 <= i < j < |ring| - 1 :: ring[i] != ring[j])
      && (forall i {:trigger ring[i].next} | 0 <= i < |ring| - 1 :: ring[i].next == ring[i + 1])
      && (forall i {:trigger ring[i].prev} | 1 <= i < |ring| :: ring[i].prev == ring[i - 1])
    }

    /** The contents of the list, first to last. */
    ghost function Records(): seq<Rec>
      reads this
    {
      Recs(From(ring, 1))
    }

    constructor (now: u64, interval: u64)
      ensures Valid() && fresh(repr) && Records() == [] && kfreed == multiset{}
      ensures suspiciousTotal == 0 && confirmedTotal == 0 && lastCheckTime == now && checkInterval == interval
    {
      var h := new LeakObject(Rec(0, 0, 0, 0));
      head := h;
      ring, kfreed, repr := [h, h], multiset{}, {h};
      suspicious, confirmed, suspiciousTotal, confirmedTotal := 0, 0, 0, 0;
      lastCheckTime, checkInterval := now, interval;
      new;
      head.next, head.prev := head, head;
    }

    /** list_add_tail, for an object that is on no list. */
    method ListAddTail(obj: LeakObject)
      requires Linked() && obj !in repr
      modifies this`ring, this`repr, repr, obj
      ensures Linked() && ring == old(ring)[..|old(ring)| - 1] + [obj, head]
      ensures repr == old(repr) + {obj}
    {
      var last := head.prev;
      obj.next := head;
      obj.prev := last;
      last.next := obj;
      head.prev := obj;
      ring, repr := ring[..|ring| - 1] + [obj, head], repr + {obj};
    }

    /** kzalloc and list_add_tail; without memory the buffer object simply goes untracked. */
    method AddLeakObject(rec: Rec, memory: bool)
      requires Valid()
      modifies this`ring, this`repr, repr
      ensures Valid() && fresh(repr - old(repr))
      ensures Records() == if memory then old(Records()) + [rec] else old(Records())
    {
      if memory {
        var obj := new LeakObject(rec);
        ListAddTail(obj);
        assert From(ring, 1) == From(old(ring), 1) + [obj];
      }
    }

    /** list_del: joins the neighbours of stop k and poisons its links. */
    method ListDel(ghost k: nat, obj: LeakObject)
      requires Linked() && 0 < k < |ring| - 1 && ring[k] == obj
      modifies this`ring, repr
      ensures Linked() && ring == Without(old(ring), k)
      ensures obj.next == null && obj.prev == null
      ensures forall i | 0 <= i < |ring| :: ring[i] != obj
    {
      var next, prev := obj.next, obj.prev;
      assert next == ring[k + 1] && prev == ring[k - 1];
      next.prev := prev;
      prev.next := next;
      obj.next := null;
      obj.prev := null;
      ring := Without(ring, k);
    }

    /** kfree: legal only for an object that is off the list and has not been freed before. */
    method Kfree(ghost obj: LeakObject)
      requires Valid() && obj !in kfreed && forall i | 0 <= i < |ring| :: ring[i] != obj
      modifies this`kfreed
      ensures Valid() && kfreed == old(kfreed) + multiset{obj}
    {
      kfreed := kfreed + multiset{obj};
    }

    /** pddgpu_memory_stats_remove_leak_object: unlinks and frees the first entry for bo, and only
        that one. */
    method RemoveLeakObject(bo: nat)
      requires Valid()
      modifies this`ring, this`kfreed, repr
      ensures Valid()
      ensures var k := FirstFor(old(Records()), bo);
        && Records() == Without(old(Records()), k)
        && kfreed == old(kfreed) + if k < |old(Records())| then multiset{old(ring)[k + 1]} else multiset{}
    {
      var obj := head.next;
      ghost var i := 1;
      while obj != head && obj.rec.bo != bo
        invariant 1 <= i < |ring| && obj == ring[i]
        invariant forall j | 1 <= j < i :: ring[j].rec.bo != bo
        decreases |ring| - i
      {
        obj := obj.next;
        i := i + 1;
      }
      RemoveMeaning(ring, bo, i);
      if obj != head {
        ListDel(i, obj);
        Kfree(obj);
      }
    }

    /** The two age tests of a check, applied to a valid entry. */
    method Mark(rec: Rec, now: u64)
      requires Valid()
      modifies this`suspicious, this`confirmed, this`suspiciousTotal, this`confirmedTotal
      ensures Valid()
      ensures suspiciousTotal == old(suspiciousTotal) + if Age(rec, now) > SUSPICIOUS_AGE then 1 else 0
      ensures confirmedTotal == old(confirmedTotal) + if Age(rec, now) > CONFIRMED_AGE then 1 else 0
    {
      if Age(rec, now) > SUSPICIOUS_AGE {
        AddIsWrap(suspiciousTotal, 1);
        suspicious, suspiciousTotal := Add(suspicious, 1), suspiciousTotal + 1;
      }
      if Age(rec, now) > CONFIRMED_AGE {
        AddIsWrap(confirmedTotal, 1);
        confirmed, confirmedTotal := Add(confirmed, 1), confirmedTotal + 1;
      }
    }

    /** One iteration of the check loop, at stop k; `k'` is the next stop. */
    method Visit(ghost k: nat, obj: LeakObject, now: u64, resv: set<nat>) returns (ghost k': nat)
      requires Valid() && 0 < k < |ring| - 1 && ring[k] == obj
      modifies this`ring, this`kfreed, this`suspicious, this`confirmed, this`suspiciousTotal, this`confirmedTotal, repr
      ensures Valid() && ring == if IsValid(obj.rec, resv) then old(ring) else Without(old(ring), k)
      ensures kfreed == if IsValid(obj.rec, resv) then old(kfreed) else old(kfreed) + multiset{obj}
      ensures suspiciousTotal == old(suspiciousTotal) + Raise(obj.rec, now, resv, SUSPICIOUS_AGE)
      ensures confirmedTotal == old(confirmedTotal) + Raise(obj.rec, now, resv, CONFIRMED_AGE)
      ensures k' == if IsValid(obj.rec, resv) then k + 1 else k
    {
      if !IsValid(obj.rec, resv) {
        k' := k;
        ListDel(k, obj);
        Kfree(obj);
      } else {
        k' := k + 1;
        Mark(obj.rec, now);
      }
    }

    /** The same iteration against the recursive pass: what is done and what is left to do add up. */
    method Advance(ghost k: nat, obj: LeakObject, now: u64, resv: set<nat>) returns (ghost k': nat)
      requires Valid() && 0 < k < |ring| - 1 && ring[k] == obj
      modifies this`ring, this`kfreed, this`suspicious, this`confirmed, this`suspiciousTotal, this`confirmedTotal, repr
      ensures Valid() && 1 <= k' < |ring| && |ring| - k' < |old(ring)| - k
      ensures ring[k'] == old(ring)[k + 1]
      ensures var p := PassFrom(old(ring), resv, now, k); var q := PassFrom(ring, resv, now, k');
        && q.ring == p.ring && kfreed + q.frees == old(kfreed) + p.frees
        && suspiciousTotal + q.suspicious == old(suspiciousTotal) + p.suspicious
        && confirmedTotal + q.confirmed == old(confirmedTotal) + p.confirmed
    {
      PassStep(ring, resv, now, k);
      k' := Visit(k, obj, now, resv);
    }

    /** The loop of a check over the whole list. */
    method CheckAll(now: u64, resv: set<nat>)
      requires Valid()
      modifies this`ring, this`kfreed, this`suspicious, this`confirmed, this`suspiciousTotal, this`confirmedTotal, repr
      ensures Valid()
      ensures var p := PassFrom(old(ring), resv, now, 1);
        && ring == p.ring && kfreed == old(kfreed) + p.frees
        && suspiciousTotal == old(suspiciousTotal) + p.suspicious
        && confirmedTotal == old(confirmedTotal) + p.confirmed
    {
      ghost var all := PassFrom(ring, resv, now, 1);
      ghost var k, rest := 1, all;
      var obj := head.next;
      while obj != head
        invariant Valid() && 1 <= k < |ring| && obj == ring[k] && rest == PassFrom(ring, resv, now, k)
        invariant rest.ring == all.ring && kfreed + rest.frees == old(kfreed) + all.frees
        invariant suspiciousTotal + rest.suspicious == old(suspiciousTotal) + all.suspicious
        invariant confirmedTotal + rest.confirmed == old(confirmedTotal) + all.confirmed
        decreases |ring| - k
      {
        var temp := obj.next;
        k := Advance(k, obj, now, resv);
        obj := temp;
        rest := PassFrom(ring, resv, now, k);
      }
    }

    /** What the loop means for the list and the counters. */
    method Check(now: u64, resv: set<nat>)
      requires Valid()
      modifies this`ring, this`kfreed, this`suspicious, this`confirmed, this`suspiciousTotal, this`confirmedTotal, repr
      ensures Valid() && Records() == ValidRecs(old(Records()), resv)
      ensures kfreed == old(kfreed) + PassFrom(old(ring), resv, now, 1).frees
      ensures suspiciousTotal == old(suspiciousTotal) + OlderThan(Records(), now, SUSPICIOUS_AGE)
      ensures confirmedTotal == old(confirmedTotal) + OlderThan(Records(), now, CONFIRMED_AGE)
      ensures confirmedTotal - old(confirmedTotal) <= suspiciousTotal - old(suspiciousTotal)
    {
      ConfirmedWithinSuspicious(ValidRecs(Records(), resv), now);
      PassFilters(ring, resv, now, 1);
      PassCounts(ring, resv, now, 1);
      CheckAll(now, resv);
    }

    /** A pass that is executed: the loop, and the time stamp at its end. */
    method ExecuteCheck(now: u64, resv: set<nat>)
      requires Valid()
      modifies this`ring, this`kfreed, this`suspicious, this`confirmed, this`suspiciousTotal, this`confirmedTotal
      modifies this`lastCheckTime, repr
      ensures Valid() && Records() == ValidRecs(old(Records()), resv) && lastCheckTime == now
      ensures kfreed == old(kfreed) + PassFrom(old(ring), resv, now, 1).frees
      ensures suspiciousTotal == old(suspiciousTotal) + OlderThan(Records(), now, SUSPICIOUS_AGE)
      ensures confirmedTotal == old(confirmedTotal) + OlderThan(Records(), now, CONFIRMED_AGE)
      ensures confirmedTotal - old(confirmedTotal) <= suspiciousTotal - old(suspiciousTotal)
      ensures StampedBefore(old(Records()), now) ==>
        && suspiciousTotal == old(suspiciousTotal) + ReallyOlderThan(Records(), now, SUSPICIOUS_AGE)
        && confirmedTotal == old(confirmedTotal) + ReallyOlderThan(Records(), now, CONFIRMED_AGE)
    {
      PastTotals(Records(), resv, now);
      Check(now, resv);
      Stamp(now);
    }

    method Stamp(now: u64)
      requires Valid()
      modifies this`lastCheckTime
      ensures Valid() && lastCheckTime == now && Records() == old(Records())
    {
      lastCheckTime := now;
    }

    /** pddgpu_memory_stats_leak_check.  `lockFree` is the answer of spin_trylock, `resv` the buffer
        objects whose reservation object is set. */
    method LeakCheck(now: u64, shutdown: bool, lockFree: bool, resv: set<nat>) returns (executed: bool)
      requires Valid()
      modifies this`ring, this`kfreed, this`suspicious, this`confirmed, this`suspiciousTotal, this`confirmedTotal
      modifies this`lastCheckTime, repr
      ensures Valid()
      ensures executed <==> !shutdown && Sub(now, old(lastCheckTime)) >= checkInterval && lockFree
      ensures !executed ==> unchanged(this) && unchanged(repr)
      ensures executed ==> Records() == ValidRecs(old(Records()), resv) && lastCheckTime == now
      ensures executed ==> kfreed == old(kfreed) + PassFrom(old(ring), resv, now, 1).frees
      ensures executed ==>
        && suspiciousTotal == old(suspiciousTotal) + OlderThan(Records(), now, SUSPICIOUS_AGE)
        && confirmedTotal == old(confirmedTotal) + OlderThan(Records(), now, CONFIRMED_AGE)
      ensures executed && StampedBefore(old(Records()), now) ==>
        && suspiciousTotal == old(suspiciousTotal) + ReallyOlderThan(Records(), now, SUSPICIOUS_AGE)
        && confirmedTotal == old(confirmedTotal) + ReallyOlderThan(Records(), now, CONFIRMED_AGE)
    {
      if shutdown || Sub(now, lastCheckTime) < checkInterval || !lockFree {
        return false;
      }
      ExecuteCheck(now, resv);
      executed := true;
    }

    /** pddgpu_memory_stats_leak_report: the number of valid entries and their total size, the
        latter as the u64 the driver accumulates. */
    method LeakReport(resv: set<nat>) returns (count: nat, total: u64)
      requires Valid()
      ensures count == |ValidRecs(Records(), resv)|
      ensures total == Wrap(TotalSize(ValidRecs(Records(), resv)))
    {
      count, total := 0, 0;
      ghost var rs := Records();
      var obj := head.next;
      ghost var i := 1;
      while obj != head
        invariant 1 <= i < |ring| && obj == ring[i]
        invariant count == CountTo(rs, i - 1, resv) && total == Wrap(SizeTo(rs, i - 1, resv))
        decreases |ring| - i
      {
        assert rs[i - 1] == obj.rec;
        AddIsWrap(SizeTo(rs, i - 1, resv), obj.rec.size);
        if IsValid(obj.rec, resv) {
          total := Add(total, obj.rec.size);
          count := count + 1;
        }
        obj := obj.next;
        i := i + 1;
      }
      ReportMeaning(rs, |rs|, resv);
      assert rs[..|rs|] == rs;
    }

    /** The drain loop of pddgpu_memory_stats_fini: unlinks and frees every listed object. */
    method Drain()
      requires Valid()
      modifies this`ring, this`kfreed, repr
      ensures Valid() && Records() == []
      ensures kfreed == old(kfreed) + multiset(From(old(ring), 1))
    {
      var obj := head.next;
      while obj != head
        invariant Valid() && obj == ring[1]
        invariant kfreed + multiset(From(ring, 1)) == old(kfreed) + multiset(From(old(ring), 1))
        decreases |ring|
      {
        var temp := obj.next;
        FromSplit(ring, 1);
        ListDel(1, obj);
        Kfree(obj);
        obj := temp;
      }
    }
  }

  lemma RemoveMeaning(ring: seq<LeakObject>, bo: nat, i: nat)
    requires |ring| >= 2 && 1 <= i < |ring|
    requires forall j | 1 <= j < i :: ring[j].rec.bo != bo
    requires i < |ring| - 1 ==> ring[i].rec.bo == bo
    ensures FirstFor(Recs(From(ring, 1)), bo) == i - 1
    ensures i < |ring| - 1 ==> Recs(From(Without(ring, i), 1)) == Without(Recs(From(ring, 1)), i - 1)
  {
    var rs := Recs(From(ring, 1));
    FirstForIs(rs, bo, i - 1);
    if i < |ring| - 1 {
      RecsWithout(ring, i);
    }
  }

  lemma RecsWithout(ring: seq<LeakObject>, i: nat)
    requires 1 <= i < |ring| - 1
    ensures Recs(From(Without(ring, i), 1)) == Without(Recs(From(ring, 1)), i - 1)
  {
    var a, b := Recs(From(Without(ring, i), 1)), Without(Recs(From(ring, 1)), i - 1);
    assert |a| == |b|;
    forall j | 0 <= j < |a|
      ensures a[j] == b[j]
    {
      var k := if j + 1 < i then j + 1 else j + 2;
      assert Without(ring, i)[j + 1] == ring[k];
      assert a[j] == From(Without(ring, i), 1)[j].rec == ring[k].rec;
      assert b[j] == Recs(From(ring, 1))[k - 1] == From(ring, 1)[k - 1].rec;
    }
  }
}
