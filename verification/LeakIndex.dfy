/** The leak list as an index of the live buffer objects, over runs in which memory is reused
    (include/pddgpu_memory_stats.h:155-199, pddgpu_memory_stats.c:178-285, 360-391, 458-465,
    pddgpu_object.c:90-239).

    The list is edited by the value functions that the methods of LeakDetector are proved to
    implement: append, removal of the first entry for an address, and the filter of a check. */
module LeakIndex {
  import opened LeakRecords
  import opened Seqs

  /** A buffer object between alloc_end and free_end.  It is tracked if kzalloc gave its list entry
      memory and no check has dropped the entry since. */
  datatype Bo = Bo(rec: Rec, tracked: bool)

  /** `owned` holds the addresses that kvzalloc has handed out and kvfree has not taken back. */
  datatype State = State(owned: set<nat>, live: seq<Bo>, list: seq<Rec>)

  datatype Op =
    | Kvzalloc(addr: nat)
    | AllocEnd(rec: Rec, memory: bool)
    | FreeEnd(i: nat)
    | Kvfree(addr: nat)
    | Check(resv: set<nat>)

  predicate Init(s: State) {
    |s.live| == 0 && |s.list| == 0 && s.owned == {}
  }

  predicate IsLive(live: seq<Bo>, addr: nat) {
    exists i | 0 <= i < |live| :: live[i].rec.bo == addr
  }

  /** kvzalloc may return any address not in use, in particular one that was freed before.  A create
      that fails is Kvzalloc and Kvfree without AllocEnd; a destroy is FreeEnd and then Kvfree. */
  predicate Enabled(s: State, op: Op) {
    match op
    case Kvzalloc(addr) => addr != 0 && addr !in s.owned
    case AllocEnd(rec, _) => rec.bo in s.owned && !IsLive(s.live, rec.bo)
    case FreeEnd(i) => i < |s.live|
    case Kvfree(addr) => addr in s.owned && !IsLive(s.live, addr)
    case Check(_) => true
  }

  function Do(s: State, op: Op): State
    requires Enabled(s, op)
  {
    match op
    case Kvzalloc(addr) => s.(owned := s.owned + {addr})
    case AllocEnd(rec, memory) =>
      s.(live := s.live + [Bo(rec, memory)], list := if memory then s.list + [rec] else s.list)
    case FreeEnd(i) =>
      s.(live := Without(s.live, i), list := Without(s.list, FirstFor(s.list, s.live[i].rec.bo)))
    case Kvfree(addr) => s.(owned := s.owned - {addr})
    case Check(resv) => s.(live := AfterCheck(s.live, resv), list := ValidRecs(s.list, resv))
  }

  function AfterCheck(live: seq<Bo>, resv: set<nat>): (r: seq<Bo>)
    ensures |r| == |live| && forall i | 0 <= i < |live| :: r[i].rec == live[i].rec
  {
    seq(|live|, i requires 0 <= i < |live| => live[i].(tracked := live[i].tracked && live[i].rec.bo != 0 && live[i].rec.bo in resv))
  }

  predicate Legal(s: State, ops: seq<Op>)
    decreases |ops|
  {
    |ops| == 0 || (Enabled(s, ops[0]) && Legal(Do(s, ops[0]), ops[1..]))
  }

  function Exec(s: State, ops: seq<Op>): State
    requires Legal(s, ops)
    decreases |ops|
  {
    if |ops| == 0 then s else Exec(Do(s, ops[0]), ops[1..])
  }

  /** The tracked live objects, in creation order. */
  function Index(live: seq<Bo>): seq<Rec> {
    if |live| == 0 then [] else
      var n := |live| - 1;
      if live[n].tracked then Index(live[..n]) + [live[n].rec] else Index(live[..n])
  }

  ghost predicate Distinct(live: seq<Bo>) {
    forall i, j | 0 <= i < j < |live| :: live[i].rec.bo != live[j].rec.bo
  }

  ghost predicate Inv(s: State) {
    && s.list == Index(s.live)
    && Distinct(s.live)
    && (forall i | 0 <= i < |s.live| :: s.live[i].rec.bo in s.owned)
    && 0 !in s.owned
  }

  lemma {:induction false} IndexOnlyLive(live: seq<Bo>, k: nat) returns (i: nat)
    requires k < |Index(live)|
    ensures i < |live| && live[i].tracked && live[i].rec == Index(live)[k]
  {
    var n := |live| - 1;
    if k < |Index(live[..n])| {
      i := IndexOnlyLive(live[..n], k);
    } else {
      i := n;
    }
  }

  lemma {:induction false} IndexHasAll(live: seq<Bo>, i: nat) returns (k: nat)
    requires i < |live| && live[i].tracked
    ensures k < |Index(live)| && Index(live)[k] == live[i].rec
  {
    var n := |live| - 1;
    if i < n {
      k := IndexHasAll(live[..n], i);
    } else {
      k := |Index(live[..n])|;
    }
  }

  /** Taking out the first entry for an address, when another entry is appended. */
  lemma WithoutFirst(rs: seq<Rec>, tail: seq<Rec>, addr: nat)
    requires FirstFor(rs, addr) < |rs| || forall j | 0 <= j < |tail| :: tail[j].bo != addr
    ensures Without(rs + tail, FirstFor(rs + tail, addr)) == Without(rs, FirstFor(rs, addr)) + tail
  {
    var k := FirstFor(rs, addr);
    if k < |rs| {
      FirstForIs(rs + tail, addr, k);
      WithoutPrefix(rs, tail, k);
    } else {
      FirstForIs(rs + tail, addr, |rs| + |tail|);
    }
  }

  /** Removal deletes the entry of the object that dies and keeps the others in order. */
  lemma {:induction false} RemoveFromIndex(live: seq<Bo>, i: nat)
    requires Distinct(live) && i < |live|
    ensures Without(Index(live), FirstFor(Index(live), live[i].rec.bo)) == Index(Without(live, i))
    decreases |live|
  {
    var n := |live| - 1;
    if i < n {
      RemoveFromIndex(live[..n], i);
      RemoveStep(live, i);
    } else {
      RemoveLast(live);
    }
  }

  lemma RemoveStep(live: seq<Bo>, i: nat)
    requires i < |live| - 1 && live[|live| - 1].rec.bo != live[i].rec.bo
    requires var init := Index(live[..|live| - 1]);
      Without(init, FirstFor(init, live[i].rec.bo)) == Index(Without(live[..|live| - 1], i))
    ensures Without(Index(live), FirstFor(Index(live), live[i].rec.bo)) == Index(Without(live, i))
  {
    var last := live[|live| - 1];
    WithoutFirst(Index(live[..|live| - 1]), if last.tracked then [last.rec] else [], live[i].rec.bo);
    WithoutInit(live, i);
    IndexAppend(Without(live[..|live| - 1], i), last);
    IndexUnfold(live);
  }

  lemma IndexUnfold(live: seq<Bo>)
    requires |live| > 0
    ensures var last := live[|live| - 1];
      Index(live) == Index(live[..|live| - 1]) + if last.tracked then [last.rec] else []
  {
  }

  lemma IndexAppend(live: seq<Bo>, bo: Bo)
    ensures Index(live + [bo]) == Index(live) + if bo.tracked then [bo.rec] else []
  {
    assert (live + [bo])[..|live|] == live;
  }

  lemma RemoveLast(live: seq<Bo>)
    requires Distinct(live) && |live| > 0
    ensures var n := |live| - 1;
      Without(Index(live), FirstFor(Index(live), live[n].rec.bo)) == Index(Without(live, n))
  {
    var n := |live| - 1;
    forall j | 0 <= j < |Index(live[..n])|
      ensures Index(live[..n])[j].bo != live[n].rec.bo
    {
      var _ := IndexOnlyLive(live[..n], j);
    }
    FirstForIs(Index(live), live[n].rec.bo, |Index(live[..n])|);
    assert Without(live, n) == live[..n];
  }

  lemma {:induction false} CheckIndex(live: seq<Bo>, resv: set<nat>)
    ensures ValidRecs(Index(live), resv) == Index(AfterCheck(live, resv))
  {
    if |live| > 0 {
      var n := |live| - 1;
      CheckIndex(live[..n], resv);
      assert AfterCheck(live, resv)[..n] == AfterCheck(live[..n], resv);
      if live[n].tracked {
        assert Index(live)[..|Index(live)| - 1] == Index(live[..n]);
      }
    }
  }

  lemma StepInv(s: State, op: Op)
    requires Inv(s) && Enabled(s, op)
    ensures Inv(Do(s, op))
  {
    match op
    case Kvzalloc(_) =>
    case AllocEnd(rec, memory) => AllocInv(s, rec, memory);
    case FreeEnd(i) => FreeInv(s, i);
    case Kvfree(_) =>
    case Check(resv) => CheckInv(s, resv);
  }

  lemma AllocInv(s: State, rec: Rec, memory: bool)
    requires Inv(s) && Enabled(s, AllocEnd(rec, memory))
    ensures Inv(Do(s, AllocEnd(rec, memory)))
  {
    IndexAppend(s.live, Bo(rec, memory));
    assert Index(s.live) + [] == Index(s.live);
    StillDistinct(s.live, Bo(rec, memory));
  }

  lemma StillDistinct(live: seq<Bo>, bo: Bo)
    requires Distinct(live) && !IsLive(live, bo.rec.bo)
    ensures Distinct(live + [bo])
  {
    assert forall i | 0 <= i < |live| :: live[i].rec.bo != bo.rec.bo;
  }

  lemma CheckInv(s: State, resv: set<nat>)
    requires Inv(s)
    ensures Inv(Do(s, Check(resv)))
  {
    CheckIndex(s.live, resv);
  }

  lemma FreeInv(s: State, i: nat)
    requires Inv(s) && i < |s.live|
    ensures Inv(Do(s, FreeEnd(i)))
  {
    RemoveFromIndex(s.live, i);
    var rest := Without(s.live, i);
    assert forall j | 0 <= j < |rest| :: rest[j] == s.live[if j < i then j else j + 1];
  }

  lemma {:induction false} ExecInv(s: State, ops: seq<Op>)
    requires Inv(s) && Legal(s, ops)
    ensures Inv(Exec(s, ops))
    decreases |ops|
  {
    if |ops| > 0 {
      StepInv(s, ops[0]);
      ExecInv(Do(s, ops[0]), ops[1..]);
    }
  }

  /** At every point of every run the list is the tracked live objects in creation order. */
  lemma ListIsIndex(s: State, ops: seq<Op>)
    requires Init(s) && Legal(s, ops)
    ensures Exec(s, ops).list == Index(Exec(s, ops).live)
  {
    ExecInv(s, ops);
  }

  /** No two entries share an address, however often addresses are reused, so each tracked live
      object has exactly one entry and every entry is for one. */
  lemma AddressesStayUnique(s: State, ops: seq<Op>, addr: nat)
    requires Init(s) && Legal(s, ops)
    ensures var e := Exec(s, ops);
      && (forall j, k | 0 <= j < k < |e.list| :: e.list[j].bo != e.list[k].bo)
      && ((exists k | 0 <= k < |e.list| :: e.list[k].bo == addr) <==>
          (exists i | 0 <= i < |e.live| :: e.live[i].tracked && e.live[i].rec.bo == addr))
  {
    ExecInv(s, ops);
    var e := Exec(s, ops);
    IndexDistinct(e.live);
    if k :| 0 <= k < |e.list| && e.list[k].bo == addr {
      var i := IndexOnlyLive(e.live, k);
    }
    if i :| 0 <= i < |e.live| && e.live[i].tracked && e.live[i].rec.bo == addr {
      var k := IndexHasAll(e.live, i);
    }
  }

  lemma {:induction false} IndexDistinct(live: seq<Bo>)
    requires Distinct(live)
    ensures forall j, k | 0 <= j < k < |Index(live)| :: Index(live)[j].bo != Index(live)[k].bo
    decreases |live|
  {
    if |live| > 0 {
      var n := |live| - 1;
      IndexDistinct(live[..n]);
      forall j | 0 <= j < |Index(live[..n])|
        ensures Index(live[..n])[j].bo != live[n].rec.bo
      {
        var _ := IndexOnlyLive(live[..n], j);
      }
    }
  }

  /** The objects a report covers: tracked, live and valid. */
  predicate Reported(bo: Bo, resv: set<nat>) {
    bo.tracked && bo.rec.bo != 0 && bo.rec.bo in resv
  }

  function ReportCount(live: seq<Bo>, resv: set<nat>): nat {
    if |live| == 0 then 0 else
      ReportCount(live[1..], resv) + if Reported(live[0], resv) then 1 else 0
  }

  function ReportSize(live: seq<Bo>, resv: set<nat>): nat {
    if |live| == 0 then 0 else
      ReportSize(live[1..], resv) + if Reported(live[0], resv) then live[0].rec.size else 0
  }

  lemma {:induction false} IndexFirst(live: seq<Bo>)
    requires |live| > 0
    ensures Index(live) == (if live[0].tracked then [live[0].rec] else []) + Index(live[1..])
  {
    var n := |live| - 1;
    if n == 0 {
      assert Index(live[..0]) == [] && Index(live[1..]) == [];
    } else {
      IndexFirst(live[..n]);
      assert live[..n][1..] == live[1..][..n - 1];
    }
  }

  lemma {:induction false} FoldIsReport(live: seq<Bo>, resv: set<nat>)
    ensures |ValidRecs(Index(live), resv)| == ReportCount(live, resv)
    ensures TotalSize(ValidRecs(Index(live), resv)) == ReportSize(live, resv)
  {
    if |live| > 0 {
      IndexFirst(live);
      FoldIsReport(live[1..], resv);
      var one := if live[0].tracked then [live[0].rec] else [];
      ValidRecsAppend(one, Index(live[1..]), resv);
      TotalSizeAppend(ValidRecs(one, resv), ValidRecs(Index(live[1..]), resv));
      assert |one| > 0 ==> one[..0] == [];
      assert TotalSize(ValidRecs(one, resv)) == if Reported(live[0], resv) then live[0].rec.size else 0 by {
        if Reported(live[0], resv) {
          assert [live[0].rec][..0] == [];
        }
      }
    }
  }

  /** What the leak report prints is the number and the total creation size of the live, tracked,
      valid objects. */
  lemma ReportIsFold(s: State, ops: seq<Op>, resv: set<nat>)
    requires Init(s) && Legal(s, ops)
    ensures var e := Exec(s, ops); var valid := ValidRecs(e.list, resv);
      |valid| == ReportCount(e.live, resv) && TotalSize(valid) == ReportSize(e.live, resv)
  {
    ExecInv(s, ops);
    FoldIsReport(Exec(s, ops).live, resv);
  }

  /** Every tracking allocation succeeds, and every check sees the live objects as valid. */
  predicate Tracked(s: State, ops: seq<Op>)
    requires Legal(s, ops)
    decreases |ops|
  {
    |ops| == 0 || (KeepsTracked(s, ops[0]) && Tracked(Do(s, ops[0]), ops[1..]))
  }

  predicate KeepsTracked(s: State, op: Op) {
    match op
    case AllocEnd(_, memory) => memory
    case Check(resv) => forall i | 0 <= i < |s.live| :: s.live[i].rec.bo in resv
    case _ => true
  }

  predicate AllTracked(live: seq<Bo>) {
    forall i | 0 <= i < |live| :: live[i].tracked
  }

  lemma {:induction false} StaysTracked(s: State, ops: seq<Op>)
    requires Inv(s) && Legal(s, ops) && Tracked(s, ops) && AllTracked(s.live)
    ensures AllTracked(Exec(s, ops).live)
    decreases |ops|
  {
    if |ops| > 0 {
      StepInv(s, ops[0]);
      StepTracked(s, ops[0]);
      StaysTracked(Do(s, ops[0]), ops[1..]);
    }
  }

  lemma StepTracked(s: State, op: Op)
    requires Inv(s) && Enabled(s, op) && KeepsTracked(s, op) && AllTracked(s.live)
    ensures AllTracked(Do(s, op).live)
  {
    match op
    case FreeEnd(i) =>
      var rest := Without(s.live, i);
      assert forall j | 0 <= j < |rest| :: rest[j] == s.live[if j < i then j else j + 1];
    case Check(resv) =>
      assert forall i | 0 <= i < |s.live| :: s.live[i].rec.bo != 0;
    case _ =>
  }

  lemma {:induction false} IndexOfTracked(live: seq<Bo>)
    requires AllTracked(live)
    ensures |Index(live)| == |live| && forall i | 0 <= i < |live| :: Index(live)[i] == live[i].rec
  {
    if |live| > 0 {
      IndexOfTracked(live[..|live| - 1]);
    }
  }

  /** In such runs the list is every live object, once each and in creation order. */
  lemma ListIsTheLiveObjects(s: State, ops: seq<Op>)
    requires Init(s) && Legal(s, ops) && Tracked(s, ops)
    ensures var e := Exec(s, ops);
      |e.list| == |e.live| && forall i | 0 <= i < |e.live| :: e.list[i] == e.live[i].rec
  {
    ExecInv(s, ops);
    StaysTracked(s, ops);
    IndexOfTracked(Exec(s, ops).live);
  }

  lemma First(s: State, op: Op, ops: seq<Op>)
    requires Enabled(s, op) && Legal(Do(s, op), ops)
    ensures Legal(s, [op] + ops) && Exec(s, [op] + ops) == Exec(Do(s, op), ops)
  {
    assert ([op] + ops)[1..] == ops;
  }

  /** Reuse does occur: at every point of a run any free address may be handed out, and once its object
      has died, whether it was tracked or not, handed out again.  The second object gets an entry of
      its own, and the first one's is gone. */
  lemma AddressIsReused(s: State, first: Rec, tracked: bool, second: Rec) returns (ops: seq<Op>)
    requires Inv(s) && first.bo == second.bo != 0 && first.bo !in s.owned
    ensures Legal(s, ops) && Exec(s, ops).list == s.list + [second]
    ensures |ops| == 6 && ops[1] == AllocEnd(first, tracked) && ops[5] == AllocEnd(second, true)
  {
    LifeLeavesNothing(s, first, tracked);
    var s1 := Do(s, Kvzalloc(second.bo));
    Single(s1, AllocEnd(second, true));
    First(s, Kvzalloc(second.bo), [AllocEnd(second, true)]);
    var birth := [Kvzalloc(second.bo)] + [AllocEnd(second, true)];
    Then(s, Life(first, tracked, |s.live|), birth);
    ops := Life(first, tracked, |s.live|) + birth;
  }

  /** An object created as the n-th live one and destroyed. */
  function Life(rec: Rec, tracked: bool, n: nat): seq<Op> {
    [Kvzalloc(rec.bo), AllocEnd(rec, tracked), FreeEnd(n), Kvfree(rec.bo)]
  }

  lemma LifeLeavesNothing(s: State, rec: Rec, tracked: bool)
    requires Inv(s) && rec.bo != 0 && rec.bo !in s.owned
    ensures Legal(s, Life(rec, tracked, |s.live|)) && Exec(s, Life(rec, tracked, |s.live|)) == s
  {
    var n := |s.live|;
    var s1 := Do(s, Kvzalloc(rec.bo));
    StepInv(s, Kvzalloc(rec.bo));
    var s2 := Do(s1, AllocEnd(rec, tracked));
    StepInv(s1, AllocEnd(rec, tracked));
    var s3 := Do(s2, FreeEnd(n));
    StepInv(s2, FreeEnd(n));
    assert s3.live == s.live;
    assert Do(s3, Kvfree(rec.bo)).owned == s.owned;
    Single(s3, Kvfree(rec.bo));
    First(s2, FreeEnd(n), [Kvfree(rec.bo)]);
    First(s1, AllocEnd(rec, tracked), [FreeEnd(n)] + [Kvfree(rec.bo)]);
    First(s, Kvzalloc(rec.bo), [AllocEnd(rec, tracked)] + ([FreeEnd(n)] + [Kvfree(rec.bo)]));
    assert Life(rec, tracked, n) == [Kvzalloc(rec.bo)] + ([AllocEnd(rec, tracked)] + ([FreeEnd(n)] + [Kvfree(rec.bo)]));
  }

  lemma {:induction false} Then(s: State, before: seq<Op>, after: seq<Op>)
    requires Legal(s, before) && Legal(Exec(s, before), after)
    ensures Legal(s, before + after) && Exec(s, before + after) == Exec(Exec(s, before), after)
    decreases |before|
  {
    if |before| > 0 {
      Then(Do(s, before[0]), before[1..], after);
      First(s, before[0], before[1..] + after);
      assert before + after == [before[0]] + (before[1..] + after);
    } else {
      assert before + after == after;
    }
  }

  lemma Single(s: State, op: Op)
    requires Enabled(s, op)
    ensures Legal(s, [op]) && Exec(s, [op]) == Do(s, op)
  {
    First(s, op, []);
    assert [op] + [] == [op];
  }

  predicate HasEntry(rs: seq<Rec>, addr: nat) {
    exists k | 0 <= k < |rs| :: rs[k].bo == addr
  }

  lemma {:induction false} CheckRemoves(rs: seq<Rec>, resv: set<nat>, addr: nat)
    ensures HasEntry(ValidRecs(rs, resv), addr) <==> addr != 0 && addr in resv && HasEntry(rs, addr)
  {
    if HasEntry(ValidRecs(rs, resv), addr) {
      var k :| 0 <= k < |ValidRecs(rs, resv)| && ValidRecs(rs, resv)[k].bo == addr;
      var r := ValidRecs(rs, resv)[k];
      assert r in multiset(ValidRecs(rs, resv));
      ValidRecsFilters(rs, resv, r);
      assert r in multiset(rs);
      var j :| 0 <= j < |rs| && rs[j] == r;
    }
    if addr != 0 && addr in resv && HasEntry(rs, addr) {
      var k :| 0 <= k < |rs| && rs[k].bo == addr;
      assert rs[k] in multiset(rs);
      ValidRecsFilters(rs, resv, rs[k]);
      assert rs[k] in multiset(ValidRecs(rs, resv));
      var j :| 0 <= j < |ValidRecs(rs, resv)| && ValidRecs(rs, resv)[j] == rs[k];
    }
  }

  /** Nothing is created at the address. */
  predicate NoneAt(ops: seq<Op>, addr: nat) {
    forall i | 0 <= i < |ops| :: ops[i].AllocEnd? ==> ops[i].rec.bo != addr
  }

  lemma StepAddsNone(s: State, op: Op, addr: nat)
    requires Enabled(s, op) && !HasEntry(s.list, addr) && (op.AllocEnd? ==> op.rec.bo != addr)
    ensures !HasEntry(Do(s, op).list, addr)
  {
    match op
    case AllocEnd(rec, memory) =>
      assert forall k | 0 <= k < |s.list| :: s.list[k].bo != addr;
    case FreeEnd(i) =>
      var rest := Do(s, op).list;
      assert forall k | 0 <= k < |rest| :: exists j :: 0 <= j < |s.list| && s.list[j] == rest[k];
    case Check(resv) => CheckRemoves(s.list, resv, addr);
    case _ =>
  }

  lemma {:induction false} NoneComesBack(s: State, ops: seq<Op>, addr: nat)
    requires Legal(s, ops) && !HasEntry(s.list, addr) && NoneAt(ops, addr)
    ensures !HasEntry(Exec(s, ops).list, addr)
    decreases |ops|
  {
    if |ops| > 0 {
      StepAddsNone(s, ops[0], addr);
      NoneComesBack(Do(s, ops[0]), ops[1..], addr);
    }
  }

  /** What a check means for later reports: it drops exactly the entries that are not valid at that
      moment, and an object that it has dropped while it is alive is never listed again. */
  lemma DroppedForGood(s: State, resv: set<nat>, ops: seq<Op>, addr: nat)
    requires Inv(s) && Legal(Do(s, Check(resv)), ops) && NoneAt(ops, addr)
    ensures HasEntry(Do(s, Check(resv)).list, addr) <==> addr != 0 && addr in resv && HasEntry(s.list, addr)
    ensures addr == 0 || addr !in resv ==> !HasEntry(Exec(Do(s, Check(resv)), ops).list, addr)
    ensures IsLive(Do(s, Check(resv)).live, addr) <==> IsLive(s.live, addr)
  {
    CheckRemoves(s.list, resv, addr);
    if addr == 0 || addr !in resv {
      NoneComesBack(Do(s, Check(resv)), ops, addr);
    }
    assert forall i | 0 <= i < |s.live| :: Do(s, Check(resv)).live[i].rec == s.live[i].rec;
  }
}
