/** What the RCU list does for its callers: its contents as a sequence of objects, and that what is
    removed from it is freed (pddgpu_memory_stats.c:694-745). */
module RcuGrace {
  import opened Seqs
  import opened RcuList

  // ----- the contents -----

  /** The objects on the list, in insertion order. */
  function Contents(nodes: seq<Node>): seq<nat> {
    if |nodes| == 0 then [] else
      Contents(nodes[..|nodes| - 1]) + if nodes[|nodes| - 1].life.Listed? then [nodes[|nodes| - 1].bo] else []
  }

  /** The nodes they are in. */
  function Ids(nodes: seq<Node>): seq<nat> {
    if |nodes| == 0 then [] else
      Ids(nodes[..|nodes| - 1]) + if nodes[|nodes| - 1].life.Listed? then [|nodes| - 1] else []
  }

  lemma {:induction false} IdsAreListed(nodes: seq<Node>)
    ensures |Ids(nodes)| == |Contents(nodes)| && Increasing(Ids(nodes))
    ensures forall k | 0 <= k < |Ids(nodes)| :: Ids(nodes)[k] < |nodes| && nodes[Ids(nodes)[k]].bo == Contents(nodes)[k]
    ensures forall k :: k in Ids(nodes) <==> IsListed(nodes, k)
  {
    if |nodes| > 0 {
      var n := |nodes| - 1;
      IdsAreListed(nodes[..n]);
      assert forall k | 0 <= k < n :: nodes[..n][k] == nodes[k];
      assert forall k | 0 <= k < |Ids(nodes[..n])| :: Ids(nodes[..n])[k] in Ids(nodes[..n]);
    }
  }

  lemma {:induction false} SameElements(v: seq<nat>, w: seq<nat>)
    requires Increasing(v) && Increasing(w) && forall k :: k in v <==> k in w
    ensures v == w
    decreases |v|
  {
    assert |w| > 0 ==> w[0] in w;
    if |v| > 0 {
      assert v[0] in w;
      var m, n := |v| - 1, |w| - 1;
      assert v[m] in w && w[n] in v;
      assert v[m] == w[n];
      forall k
        ensures k in v[..m] <==> k in w[..n]
      {
        assert k in v <==> k in v[..m] || k == v[m];
        assert k in w <==> k in w[..n] || k == w[n];
      }
      SameElements(v[..m], w[..n]);
      assert v == v[..m] + [v[m]] && w == w[..n] + [w[n]];
    }
  }

  /** A walk from the head meets the contents. */
  lemma WalkMeetsContents(s: State)
    requires Ring(s)
    ensures |ListOf(s)| == |Contents(s.nodes)|
    ensures forall k | 0 <= k < |ListOf(s)| ::
      ListOf(s)[k] < |s.nodes| && s.nodes[ListOf(s)[k]].bo == Contents(s.nodes)[k]
  {
    WalkFinds(s, -1, s.first);
    IdsAreListed(s.nodes);
    SameElements(ListOf(s), Ids(s.nodes));
  }

  ghost predicate SameEntry(n: Node, n': Node) {
    n'.bo == n.bo && (n'.life.Listed? <==> n.life.Listed?)
  }

  lemma {:induction false} ContentsSame(nodes: seq<Node>, nodes': seq<Node>)
    requires |nodes'| == |nodes| && forall j | 0 <= j < |nodes| :: SameEntry(nodes[j], nodes'[j])
    ensures Contents(nodes') == Contents(nodes)
  {
    if |nodes| > 0 {
      var n := |nodes| - 1;
      ContentsSame(nodes[..n], nodes'[..n]);
      assert SameEntry(nodes[n], nodes'[n]);
    }
  }

  lemma {:induction false} ContentsPrefix(nodes: seq<Node>, i: nat)
    requires i < |nodes| && nodes[i].life.Listed?
    ensures Contents(nodes[..i]) + [nodes[i].bo] <= Contents(nodes)
    decreases |nodes|
  {
    var n := |nodes| - 1;
    if i < n {
      ContentsPrefix(nodes[..n], i);
      assert nodes[..n][..i] == nodes[..i];
    }
  }

  /** Taking one node off the list. */
  lemma {:induction false} ContentsWithout(nodes: seq<Node>, nodes': seq<Node>, i: nat)
    requires |nodes'| == |nodes| && i < |nodes| && nodes[i].life.Listed? && !nodes'[i].life.Listed?
    requires forall j | 0 <= j < |nodes| && j != i :: SameEntry(nodes[j], nodes'[j])
    ensures Contents(nodes') == Without(Contents(nodes), |Contents(nodes[..i])|)
    decreases |nodes|
  {
    var n := |nodes| - 1;
    if i == n {
      ContentsSame(nodes[..n], nodes'[..n]);
    } else {
      ContentsWithout(nodes[..n], nodes'[..n], i);
      ContentsPrefix(nodes[..n], i);
      assert nodes[..n][..i] == nodes[..i];
      assert SameEntry(nodes[n], nodes'[n]);
      var tail := if nodes[n].life.Listed? then [nodes[n].bo] else [];
      WithoutPrefix(Contents(nodes[..n]), tail, |Contents(nodes[..i])|);
    }
  }

  lemma SplicedContents(s: State, s': State, i: nat)
    requires Spliced(s, s', i) && s'.nodes[i].bo == s.nodes[i].bo
    ensures Contents(s'.nodes) == Without(Contents(s.nodes), |Contents(s.nodes[..i])|)
    ensures Contents(s.nodes[..i]) + [s.nodes[i].bo] <= Contents(s.nodes)
  {
    assert !IsListed(s'.nodes, i);
    forall j | 0 <= j < |s.nodes| && j != i
      ensures SameEntry(s.nodes[j], s'.nodes[j])
    {
      assert IsListed(s'.nodes, j) <==> IsListed(s.nodes, j);
    }
    ContentsWithout(s.nodes, s'.nodes, i);
    ContentsPrefix(s.nodes, i);
  }

  /** An add appends the object its thread has allocated. */
  lemma AddAppends(s: State, t: nat)
    requires Inv(s) && Enabled(s, AddTail(t))
    ensures Contents(Do(s, AddTail(t)).nodes) == Contents(s.nodes) + [s.locals[t]]
  {
    AddTailEffect(s, t);
    var s' := Do(s, AddTail(t));
    ContentsSame(s.nodes, s'.nodes[..|s.nodes|]);
  }

  /** So an object that gets memory for its entry ends up last on the list. */
  lemma CreateAppends(s: State, t: nat, bo: nat)
    requires Inv(s) && t !in s.locals
    ensures Enabled(Do(s, Kzalloc(t, bo)), AddTail(t))
    ensures var e := Do(Do(s, Kzalloc(t, bo)), AddTail(t));
      Contents(e.nodes) == Contents(s.nodes) + [bo] && e.locals == s.locals
  {
    StepInv(s, Kzalloc(t, bo));
    AddAppends(Do(s, Kzalloc(t, bo)), t);
  }

  /** A removal takes out the first entry for the object, and only that one. */
  lemma RemoveTakesFirst(s: State, i: nat) returns (k: nat)
    requires Inv(s) && Enabled(s, Unlink(i))
    ensures k < |Contents(s.nodes)| && Contents(s.nodes)[k] == s.nodes[i].bo
    ensures forall j | 0 <= j < k :: Contents(s.nodes)[j] != s.nodes[i].bo
    ensures Contents(Do(s, Unlink(i)).nodes) == Without(Contents(s.nodes), k)
  {
    UnlinkSplices(s, i);
    SplicedContents(s, Do(s, Unlink(i)), i);
    k := |Contents(s.nodes[..i])|;
    NoneBefore(s.nodes, i, s.nodes[i].bo);
    assert forall j | 0 <= j < k :: Contents(s.nodes)[j] == Contents(s.nodes[..i])[j];
  }

  lemma NoneBefore(nodes: seq<Node>, i: nat, bo: nat)
    requires i <= |nodes| && forall j | 0 <= j < i :: IsListed(nodes, j) ==> nodes[j].bo != bo
    ensures forall j | 0 <= j < |Contents(nodes[..i])| :: Contents(nodes[..i])[j] != bo
  {
    IdsAreListed(nodes[..i]);
    forall j | 0 <= j < |Contents(nodes[..i])|
      ensures Contents(nodes[..i])[j] != bo
    {
      var id := Ids(nodes[..i])[j];
      assert id in Ids(nodes[..i]);
      assert IsListed(nodes, id);
    }
  }

  /** fini's loop takes the first. */
  lemma DrainTakesFirst(s: State)
    requires Inv(s) && CanDrain(s)
    ensures |Contents(s.nodes)| > 0 && Contents(DrainFirst(s).nodes) == Contents(s.nodes)[1..]
  {
    var i := s.first.id;
    NothingBefore(s.nodes, i);
    DrainSplices(s);
    SplicedContents(s, DrainFirst(s), i);
    FirstOut(Contents(s.nodes));
  }

  /** It goes on exactly while there is something on the list. */
  lemma DrainGoesOn(s: State)
    requires Inv(s)
    ensures CanDrain(s) <==> |Contents(s.nodes)| > 0
    ensures s.first == Head <==> |Contents(s.nodes)| == 0
  {
    WalkMeetsContents(s);
    if s.first.At? {
      assert IsListed(s.nodes, s.first.id);
      Neighbours(s, s.first.id);
    }
  }

  lemma FirstOut(c: seq<nat>)
    ensures |c| > 0 ==> Without(c, 0) == c[1..]
  {
  }

  lemma NothingBefore(nodes: seq<Node>, i: nat)
    requires IsNext(nodes, -1, At(i))
    ensures i <= |nodes| && |Contents(nodes[..i])| == 0
  {
    forall k
      ensures !IsListed(nodes[..i], k)
    {
      assert IsListed(nodes[..i], k) ==> IsListed(nodes, k);
    }
    NothingListed(nodes[..i]);
  }

  lemma {:induction false} NothingListed(nodes: seq<Node>)
    requires forall k :: !IsListed(nodes, k)
    ensures |Contents(nodes)| == 0
  {
    if |nodes| > 0 {
      var n := |nodes| - 1;
      assert !IsListed(nodes, n);
      forall k
        ensures !IsListed(nodes[..n], k)
      {
        assert IsListed(nodes[..n], k) ==> IsListed(nodes, k);
      }
      NothingListed(nodes[..n]);
    }
  }

  /** Every other step leaves the contents alone. */
  lemma OthersKeepContents(s: State, step: Step)
    requires Inv(s) && Enabled(s, step) && !step.AddTail? && !step.Unlink? && !step.Drain?
    ensures Contents(Do(s, step).nodes) == Contents(s.nodes)
  {
    var s' := Do(s, step);
    OtherChanges(s, step);
    ContentsSame(s.nodes, s'.nodes);
  }

  /** Whatever is on the list can be removed: the search finds an entry for the object. */
  lemma RemoveFinds(s: State, k: nat) returns (i: nat)
    requires Inv(s) && k < |Contents(s.nodes)|
    ensures Enabled(s, Unlink(i)) && s.nodes[i].bo == Contents(s.nodes)[k]
  {
    IdsAreListed(s.nodes);
    var id := Ids(s.nodes)[k];
    assert id in Ids(s.nodes);
    i := FirstListed(s.nodes, s.nodes[id].bo, id);
    Neighbours(s, i);
  }

  lemma {:induction false} FirstListed(nodes: seq<Node>, bo: nat, id: nat) returns (i: nat)
    requires IsListed(nodes, id) && nodes[id].bo == bo
    ensures IsListed(nodes, i) && nodes[i].bo == bo
    ensures forall j | 0 <= j < i :: IsListed(nodes, j) ==> nodes[j].bo != bo
  {
    if j :| 0 <= j < id && IsListed(nodes, j) && nodes[j].bo == bo {
      i := FirstListed(nodes, bo, j);
    } else {
      i := id;
    }
  }

  // ----- the grace period -----

  /** Reader r leaves its section in one of the steps m, ..., n - 1. */
  ghost predicate LeavesBetween(st: seq<Step>, r: nat, m: nat, n: nat)
    requires n <= |st|
  {
    exists k | m <= k < n :: st[k] == Exit(r)
  }

  lemma ReaderStep(s: State, step: Step, r: nat)
    requires Ring(s) && Enabled(s, step) && step != Enter(r) && step != Exit(r)
    ensures var s' := Do(s, step);
      (r in s'.readers <==> r in s.readers) && (r in s.readers ==> s'.readers[r].since == s.readers[r].since)
  {
    match step
    case AddTail(t) => AddTailEffect(s, t);
    case Unlink(i) => UnlinkSplices(s, i);
    case Drain => DrainSplices(s);
    case _ =>
  }

  /** The sections still open that were open at time m are those that have not been left since. */
  lemma {:induction false} StillOpen(tr: seq<State>, st: seq<Step>, m: nat, n: nat, r: nat)
    requires Run(tr, st) && m <= n < |tr|
    ensures r in tr[n].readers && tr[n].readers[r].since < m <==> r in tr[m].readers && !LeavesBetween(st, r, m, n)
    decreases n - m
  {
    RunInv(tr, st, m);
    if m < n {
      StillOpen(tr, st, m, n - 1, r);
      RunInv(tr, st, n - 1);
      assert StepAt(tr, st, n - 1);
      var step := st[n - 1];
      if step == Exit(r) {
        assert LeavesBetween(st, r, m, n);
      } else {
        LeavesLater(st, r, m, n);
        if step != Enter(r) {
          ReaderStep(tr[n - 1], step, r);
        }
      }
    }
  }

  lemma LeavesLater(st: seq<Step>, r: nat, m: nat, n: nat)
    requires m < n <= |st| && st[n - 1] != Exit(r)
    ensures LeavesBetween(st, r, m, n) <==> LeavesBetween(st, r, m, n - 1)
  {
  }

  /** From call_rcu on, an object waits until it is freed. */
  lemma {:induction false} WaitsForCallback(tr: seq<State>, st: seq<Step>, m: nat, n: nat, i: nat)
    requires Run(tr, st) && m < n < |tr| && st[m] == CallRcu(i)
    ensures i < |tr[n].nodes| && (tr[n].nodes[i].life == Waiting(m) || tr[n].nodes[i].life.Freed?)
    decreases n - m
  {
    if m < n - 1 {
      WaitsForCallback(tr, st, m, n - 1, i);
      RunChanges(tr, st, n - 1);
      KeepsWaiting(tr[n - 1], tr[n - 1 + 1], FreedBy(tr[n - 1], st[n - 1]), m, i);
    } else {
      RunChanges(tr, st, m);
      assert StepAt(tr, st, m);
    }
  }

  lemma KeepsWaiting(s: State, s': State, f: int, m: nat, i: nat)
    requires Changes(s, s', f) && i < |s.nodes| && (s.nodes[i].life == Waiting(m) || s.nodes[i].life.Freed?)
    ensures i < |s'.nodes| && (s'.nodes[i].life == Waiting(m) || s'.nodes[i].life.Freed?)
  {
    assert Moves(s.nodes[i], s'.nodes[i], s.clock);
  }

  /** The grace period, exactly: at any time after call_rcu the callback can run if and only if it has
      not run yet and every read section that was open at the call has been left; and it frees the
      object. */
  lemma GraceExactly(tr: seq<State>, st: seq<Step>, m: nat, n: nat, i: nat)
    requires Run(tr, st) && m < n < |tr| && st[m] == CallRcu(i)
    ensures Enabled(tr[n], Callback(i)) <==>
      i !in tr[n].kfreed && forall r | r in tr[m].readers :: LeavesBetween(st, r, m, n)
    ensures Enabled(tr[n], Callback(i)) ==> Do(tr[n], Callback(i)).kfreed == tr[n].kfreed + [i]
  {
    WaitsForCallback(tr, st, m, n, i);
    RunInv(tr, st, n);
    assert i in tr[n].kfreed <==> IsFreed(tr[n].nodes, i);
    forall r
      ensures r in tr[n].readers && tr[n].readers[r].since <= m <==> r in tr[m].readers && !LeavesBetween(st, r, m, n)
    {
      NotOpenedByCallRcu(tr, st, m, n, r, i);
    }
  }

  lemma NotOpenedByCallRcu(tr: seq<State>, st: seq<Step>, m: nat, n: nat, r: nat, i: nat)
    requires Run(tr, st) && m < n < |tr| && st[m] == CallRcu(i)
    ensures r in tr[n].readers && tr[n].readers[r].since <= m <==> r in tr[m].readers && !LeavesBetween(st, r, m, n)
  {
    StillOpen(tr, st, m + 1, n, r);
    StillOpen(tr, st, m, m + 1, r);
    assert LeavesBetween(st, r, m, n) <==> LeavesBetween(st, r, m + 1, n);
    assert StepAt(tr, st, m);
    RunInv(tr, st, m);
    ReaderStep(tr[m], st[m], r);
  }

  // ----- removed objects can always be freed -----

  predicate Legal(s: State, steps: seq<Step>)
    decreases |steps|
  {
    |steps| == 0 || (Enabled(s, steps[0]) && Legal(Do(s, steps[0]), steps[1..]))
  }

  function Exec(s: State, steps: seq<Step>): State
    requires Legal(s, steps)
    decreases |steps|
  {
    if |steps| == 0 then s else Exec(Do(s, steps[0]), steps[1..])
  }

  lemma First(s: State, step: Step, steps: seq<Step>)
    requires Enabled(s, step) && Legal(Do(s, step), steps)
    ensures Legal(s, [step] + steps) && Exec(s, [step] + steps) == Exec(Do(s, step), steps)
  {
    assert ([step] + steps)[1..] == steps;
  }

  lemma {:induction false} Then(s: State, before: seq<Step>, after: seq<Step>)
    requires Legal(s, before) && Legal(Exec(s, before), after)
    ensures Legal(s, before + after) && Exec(s, before + after) == Exec(Exec(s, before), after)
    decreases |before|
  {
    if |before| > 0 {
      Then(Do(s, before[0]), before[1..], after);
      First(s, before[0], before[1..] + after);
      assert before + after == [before[0]] + (before[1..] + after);
    } else {
      assert before + after == after;
    }
  }

  /** How many loads away from the head a reader may be. */
  function Ahead(s: State, rd: Reader): nat {
    match rd.pos
    case Entering => |s.nodes| + 2
    case On(At(i)) => if i < |s.nodes| then |s.nodes| + 1 - i else 0
    case On(_) => 0
  }

  /** Nothing but the clock and reader r has changed. */
  ghost predicate OnlyReader(s: State, s': State, r: nat) {
    SameList(s, s') && s'.readers - {r} == s.readers - {r}
  }

  predicate SameList(s: State, s': State) {
    s'.nodes == s.nodes && s'.kfreed == s.kfreed && s'.locals == s.locals && s'.first == s.first && s'.last == s.last
  }

  lemma LoadAdvances(s: State, r: nat)
    requires Inv(s) && r in s.readers && s.readers[r].pos != On(Head)
    ensures Enabled(s, Load(r))
    ensures var s' := Do(s, Load(r));
      Inv(s') && WalksOn(s, s', r) && Ahead(s', s'.readers[r]) < Ahead(s, s.readers[r])
  {
    NextIsLater(s, s.readers[r]);
    StepInv(s, Load(r));
    LoadMoves(s, r);
  }

  /** The pointer that rd loads next leads on: to a later node or to the head. */
  predicate LeadsOn(s: State, rd: Reader)
    requires rd.pos.On? && rd.pos.ptr.At? ==> rd.pos.ptr.id < |s.nodes|
  {
    match NextOf(s, rd.pos)
    case Poison => false
    case Head => true
    case At(j) => j < |s.nodes| && (|rd.visited| > 0 ==> rd.visited[|rd.visited| - 1] < j)
  }

  lemma NextIsLater(s: State, rd: Reader)
    requires Inv(s) && ReaderOk(s, rd) && rd.pos != On(Head)
    ensures rd.pos.On? ==> rd.pos.ptr.At? && rd.pos.ptr.id < |s.nodes|
    ensures LeadsOn(s, rd)
  {
    LoadPointer(s, rd);
  }

  lemma LoadMoves(s: State, r: nat)
    requires Enabled(s, Load(r)) && ReaderOk(s, s.readers[r]) && LeadsOn(s, s.readers[r])
    ensures var s' := Do(s, Load(r));
      WalksOn(s, s', r) && Ahead(s', s'.readers[r]) < Ahead(s, s.readers[r])
  {
  }

  /** Reader r is further on in the same section. */
  ghost predicate WalksOn(s: State, e: State, r: nat) {
    OnlyReader(s, e, r) && r in s.readers && r in e.readers && e.readers[r].since == s.readers[r].since
  }

  lemma WalkOn(s: State, s': State, e: State, r: nat)
    requires WalksOn(s, s', r) && WalksOn(s', e, r)
    ensures WalksOn(s, e, r)
  {
  }

  /** An open read section can always be walked to its end, */
  lemma {:induction false} ReachHead(s: State, r: nat) returns (steps: seq<Step>)
    requires Inv(s) && r in s.readers
    ensures forall k | 0 <= k < |steps| :: steps[k] == Load(r)
    ensures Legal(s, steps)
    ensures var e := Exec(s, steps); Inv(e) && WalksOn(s, e, r) && e.readers[r].pos == On(Head)
    decreases Ahead(s, s.readers[r])
  {
    if s.readers[r].pos == On(Head) {
      steps := [];
    } else {
      LoadAdvances(s, r);
      var s1 := Do(s, Load(r));
      var rest := ReachHead(s1, r);
      WalkOn(s, s1, Exec(s1, rest), r);
      First(s, Load(r), rest);
      steps := [Load(r)] + rest;
    }
  }

  /** and left. */
  lemma FinishSection(s: State, r: nat) returns (steps: seq<Step>)
    requires Inv(s) && r in s.readers
    ensures forall k | 0 <= k < |steps| :: steps[k] == Load(r) || steps[k] == Exit(r)
    ensures Legal(s, steps)
    ensures var e := Exec(s, steps); Inv(e) && OnlyReader(s, e, r) && r !in e.readers
  {
    var walk := ReachHead(s, r);
    var e := Exec(s, walk);
    StepInv(e, Exit(r));
    First(e, Exit(r), []);
    assert [Exit(r)] + [] == [Exit(r)];
    Then(s, walk, [Exit(r)]);
    steps := walk + [Exit(r)];
  }

  /** A section that nothing else happens in visits the whole list. */
  lemma LoneSection(s: State, r: nat) returns (steps: seq<Step>)
    requires Inv(s) && r !in s.readers
    ensures |steps| > 0 && steps[0] == Enter(r) && forall k | 1 <= k < |steps| :: steps[k] == Load(r)
    ensures Legal(s, steps)
    ensures var e := Exec(s, steps);
      && Inv(e) && SameList(s, e) && r in e.readers && e.readers[r].pos == On(Head)
      && e.readers[r].visited == ListOf(s)
  {
    var s1 := Do(s, Enter(r));
    StepInv(s, Enter(r));
    var walk := ReachHead(s1, r);
    First(s, Enter(r), walk);
    steps := [Enter(r)] + walk;
    VisitedIsListed(s, Exec(s, steps), r);
  }

  lemma VisitedIsListed(s: State, e: State, r: nat)
    requires Inv(s) && Inv(e) && SameList(s, e)
    requires r in e.readers && e.readers[r].pos == On(Head) && e.readers[r].since == s.clock
    ensures e.readers[r].visited == ListOf(s)
  {
    var rd := e.readers[r];
    assert ReaderOk(e, rd);
    WalkFinds(s, -1, s.first);
    forall k
      ensures k in rd.visited <==> k in ListOf(s)
    {
      if k in rd.visited {
        var a :| 0 <= a < |rd.visited| && rd.visited[a] == k;
        assert Seen(e.nodes, rd.since, rd.visited[a]);
      }
    }
    SameElements(rd.visited, ListOf(s));
  }

  lemma OneReaderLess(s: State, e: State, r: nat)
    requires OnlyReader(s, e, r) && r in s.readers && r !in e.readers
    ensures |e.readers| < |s.readers|
  {
    assert e.readers == e.readers - {r} == s.readers - {r};
  }

  lemma {:induction false} FinishAll(s: State) returns (steps: seq<Step>)
    requires Inv(s)
    ensures forall k | 0 <= k < |steps| :: steps[k].Load? || steps[k].Exit?
    ensures Legal(s, steps)
    ensures var e := Exec(s, steps); Inv(e) && Quiescent(e) && SameList(s, e)
    decreases |s.readers|
  {
    if r :| r in s.readers {
      var one := FinishSection(s, r);
      var e := Exec(s, one);
      OneReaderLess(s, e, r);
      var rest := FinishAll(e);
      Then(s, one, rest);
      steps := one + rest;
    } else {
      assert s.readers == map[];
      steps := [];
    }
  }

  /** Removal is not for nothing: wherever a removed object stands, finishing the open sections, its
      call_rcu if that has not happened, and its callback free it. */
  lemma RemovedCanBeFreed(s: State, i: nat) returns (steps: seq<Step>)
    requires Inv(s) && i < |s.nodes| && (s.nodes[i].life.Unlinked? || s.nodes[i].life.Waiting?)
    ensures forall k | 0 <= k < |steps| ::
      steps[k].Load? || steps[k].Exit? || steps[k] == Callback(i) || (steps[k] == CallRcu(i) && s.nodes[i].life.Unlinked?)
    ensures Legal(s, steps) && Exec(s, steps).kfreed == s.kfreed + [i]
  {
    var finish := FinishAll(s);
    var e := Exec(s, finish);
    var last := if e.nodes[i].life.Unlinked? then [CallRcu(i)] + [Callback(i)] else [] + [Callback(i)];
    if e.nodes[i].life.Unlinked? {
      First(Do(e, CallRcu(i)), Callback(i), []);
      First(e, CallRcu(i), [Callback(i)]);
    } else {
      First(e, Callback(i), []);
      assert [] + [Callback(i)] == [Callback(i)];
    }
    assert [Callback(i)] + [] == [Callback(i)];
    Then(s, finish, last);
    steps := finish + last;
  }
}
