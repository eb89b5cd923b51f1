/** The RCU-protected list of leak objects (pddgpu_memory_stats.c: the `_rcu` and `_lockfree`
    families), as a transition system whose steps are the stores and loads that other CPUs can
    observe.

    Writers are serialised by `leak_detector.lock`, so the search of a remove and the pointer
    stores of one list operation are a single step; readers never take the lock, so every load of a
    `next` pointer is a step of its own.  A node's identity is its insertion number: an address may
    be reused after `kfree`, an insertion number is not.

    RCU itself is a contract: a callback queued at time t runs only once every read section that
    was open at t has been left. */
module RcuList {

  /** A `list_head` pointer: the list head, a node, or the poison value `list_del` leaves behind. */
  datatype Ptr = Head | Poison | At(id: nat)

  /** Where a published object is in its life.  An object that was allocated but not yet published
      is an entry of `State.locals`. */
  datatype Life = Listed | Unlinked | Waiting(since: nat) | Freed

  datatype Node = Node(bo: nat, next: Ptr, prev: Ptr, life: Life, added: nat, removed: nat)

  /** A read section: `Entering` has called rcu_read_lock but loaded nothing yet. */
  datatype Pos = Entering | On(ptr: Ptr)
  datatype Reader = Reader(since: nat, pos: Pos, visited: seq<nat>)

  datatype State = State(
    clock: nat,
    first: Ptr,                 // head.next
    last: Ptr,                  // head.prev
    nodes: seq<Node>,
    locals: map<nat, nat>,      // kzalloc'ed by a thread, not yet published: thread -> bo
    readers: map<nat, Reader>,
    kfreed: seq<nat>)           // every kfree of a published object, in order

  datatype Step =
    | Kzalloc(thread: nat, bo: nat)
    | AddTail(thread: nat)
    | Unlink(id: nat)
    | CallRcu(id: nat)
    | Callback(id: nat)
    | Enter(reader: nat)
    | Load(reader: nat)
    | Exit(reader: nat)
    | Drain

  predicate IsListed(nodes: seq<Node>, i: int) {
    0 <= i < |nodes| && nodes[i].life.Listed?
  }

  predicate IsFreed(nodes: seq<Node>, i: int) {
    0 <= i < |nodes| && nodes[i].life.Freed?
  }

  predicate InRange(nodes: seq<Node>, p: Ptr) {
    p.At? ==> p.id < |nodes|
  }

  /** p->next = q, where p may be the head. */
  function SetNext(s: State, p: Ptr, q: Ptr): State
    requires InRange(s.nodes, p)
  {
    match p
    case Head => s.(first := q)
    case At(i) => s.(nodes := s.nodes[i := s.nodes[i].(next := q)])
    case Poison => s
  }

  /** p->prev = q, where p may be the head. */
  function SetPrev(s: State, p: Ptr, q: Ptr): State
    requires InRange(s.nodes, p)
  {
    match p
    case Head => s.(last := q)
    case At(i) => s.(nodes := s.nodes[i := s.nodes[i].(prev := q)])
    case Poison => s
  }

  /** The pointer a reader's next load returns. */
  function NextOf(s: State, pos: Pos): Ptr
    requires pos.On? && pos.ptr.At? ==> pos.ptr.id < |s.nodes|
  {
    match pos
    case Entering => s.first
    case On(At(i)) => s.nodes[i].next
    case On(p) => p
  }

  predicate Quiescent(s: State) {
    s.readers == map[]
  }

  predicate Enabled(s: State, step: Step) {
    match step
    case Kzalloc(t, bo) => t !in s.locals
    case AddTail(t) => t in s.locals && InRange(s.nodes, s.last)
    // the search stops at the first entry with the wanted bo
    case Unlink(i) =>
      && IsListed(s.nodes, i)
      && InRange(s.nodes, s.nodes[i].next) && InRange(s.nodes, s.nodes[i].prev)
      && (forall j | 0 <= j < i :: IsListed(s.nodes, j) ==> s.nodes[j].bo != s.nodes[i].bo)
    case CallRcu(i) => i < |s.nodes| && s.nodes[i].life.Unlinked?
    // the RCU contract
    case Callback(i) =>
      && i < |s.nodes| && s.nodes[i].life.Waiting?
      && (forall r | r in s.readers :: s.readers[r].since > s.nodes[i].life.since)
    case Enter(r) => r !in s.readers
    case Load(r) =>
      && r in s.readers && s.readers[r].pos != On(Head)
      && (s.readers[r].pos.On? ==> InRange(s.nodes, s.readers[r].pos.ptr))
    case Exit(r) => r in s.readers && s.readers[r].pos == On(Head)
    // list_for_each_entry_safe in fini: list_del and kfree of the first entry
    case Drain =>
      && Quiescent(s) && s.first.At? && CanDrain(s)
  }

  predicate CanDrain(s: State) {
    && s.first.At? && s.first.id < |s.nodes|
    && InRange(s.nodes, s.nodes[s.first.id].next) && InRange(s.nodes, s.nodes[s.first.id].prev)
  }

  /** __list_del: next->prev = prev; prev->next = next. */
  function ListDel(s: State, i: nat): State
    requires i < |s.nodes|
    requires InRange(s.nodes, s.nodes[i].next) && InRange(s.nodes, s.nodes[i].prev)
  {
    var prev, next := s.nodes[i].prev, s.nodes[i].next;
    SetNext(SetPrev(s, next, prev), prev, next)
  }

  /** list_del_rcu poisons prev only: next stays as it was for readers standing on the node. */
  function UnlinkNode(s: State, i: nat): State
    requires i < |s.nodes|
    requires InRange(s.nodes, s.nodes[i].next) && InRange(s.nodes, s.nodes[i].prev)
  {
    var d := ListDel(s, i);
    d.(nodes := d.nodes[i := d.nodes[i].(prev := Poison, life := Unlinked, removed := s.clock)],
       clock := s.clock + 1)
  }

  /** list_del followed by an immediate kfree, as in the plain remove helper. */
  function PlainRemove(s: State, i: nat): State
    requires i < |s.nodes|
    requires InRange(s.nodes, s.nodes[i].next) && InRange(s.nodes, s.nodes[i].prev)
  {
    var d := ListDel(s, i);
    d.(nodes := d.nodes[i := d.nodes[i].(next := Poison, prev := Poison, life := Freed, removed := s.clock)],
       kfreed := d.kfreed + [i], clock := s.clock + 1)
  }

  /** The same for the first entry, as in fini. */
  function DrainFirst(s: State): State
    requires CanDrain(s)
  {
    PlainRemove(s, s.first.id)
  }

  function Do(s: State, step: Step): State
    requires Enabled(s, step)
  {
    match step
    case Kzalloc(t, bo) => s.(locals := s.locals[t := bo], clock := s.clock + 1)
    case AddTail(t) =>
      // new->next = head; new->prev = prev; prev->next = new (publication); head->prev = new
      var i := |s.nodes|;
      var n := Node(s.locals[t], Head, s.last, Listed, s.clock, 0);
      SetNext(s.(nodes := s.nodes + [n]), s.last, At(i))
        .(last := At(i), locals := s.locals - {t}, clock := s.clock + 1)
    case Unlink(i) =>
      UnlinkNode(s, i)
    case CallRcu(i) =>
      s.(nodes := s.nodes[i := s.nodes[i].(life := Waiting(s.clock))], clock := s.clock + 1)
    case Callback(i) =>
      s.(nodes := s.nodes[i := s.nodes[i].(life := Freed)], kfreed := s.kfreed + [i], clock := s.clock + 1)
    case Enter(r) =>
      s.(readers := s.readers[r := Reader(s.clock, Entering, [])], clock := s.clock + 1)
    case Load(r) =>
      var rd := s.readers[r];
      var p := NextOf(s, rd.pos);
      s.(readers := s.readers[r := rd.(pos := On(p), visited := if p.At? then rd.visited + [p.id] else rd.visited)],
         clock := s.clock + 1)
    case Exit(r) => s.(readers := s.readers - {r}, clock := s.clock + 1)
    case Drain => DrainFirst(s)
  }

  predicate Init(s: State) {
    s == State(0, Head, Head, [], map[], map[], [])
  }

  // ----- the invariant -----

  /** p is the first listed node after i, or the head if there is none. */
  ghost predicate IsNext(nodes: seq<Node>, i: int, p: Ptr) {
    match p
    case Head => forall k | i < k :: !IsListed(nodes, k)
    case At(j) => i < j && IsListed(nodes, j) && forall k | i < k < j :: !IsListed(nodes, k)
    case Poison => false
  }

  /** p is the last listed node before i, or the head if there is none. */
  ghost predicate IsPrev(nodes: seq<Node>, i: int, p: Ptr) {
    match p
    case Head => forall k | k < i :: !IsListed(nodes, k)
    case At(j) => j < i && IsListed(nodes, j) && forall k | j < k < i :: !IsListed(nodes, k)
    case Poison => false
  }

  /** The list proper: head and listed nodes form a doubly linked ring in insertion order. */
  ghost predicate Ring(s: State) {
    && IsNext(s.nodes, -1, s.first)
    && IsPrev(s.nodes, |s.nodes|, s.last)
    && forall i | IsListed(s.nodes, i) ::
         IsNext(s.nodes, i, s.nodes[i].next) && IsPrev(s.nodes, i, s.nodes[i].prev)
  }

  /** The key invariant on the frozen pointer of a removed node: it leads to a node that is still
      listed or was removed later than the node itself, and it jumps over no node that was already
      listed when this one was removed and still is. */
  ghost predicate FrozenNext(nodes: seq<Node>, i: nat)
    requires i < |nodes|
  {
    match nodes[i].next
    case Head => forall k | i < k :: IsListed(nodes, k) ==> nodes[k].added > nodes[i].removed
    case At(j) =>
      && i < j < |nodes|
      && (nodes[j].life.Listed? || nodes[j].removed > nodes[i].removed)
      && forall k | i < k < j :: IsListed(nodes, k) ==> nodes[k].added > nodes[i].removed
    case Poison => false
  }

  ghost predicate Frozen(s: State) {
    forall i | 0 <= i < |s.nodes| :: s.nodes[i].life.Unlinked? || s.nodes[i].life.Waiting? ==> FrozenNext(s.nodes, i)
  }

  ghost predicate Times(s: State) {
    forall i | 0 <= i < |s.nodes| ::
      && s.nodes[i].added < s.clock
      && (!s.nodes[i].life.Listed? ==> s.nodes[i].added < s.nodes[i].removed < s.clock)
      && (s.nodes[i].life.Waiting? ==> s.nodes[i].removed < s.nodes[i].life.since)
  }

  /** i was listed at some moment after `since`. */
  predicate Seen(nodes: seq<Node>, since: nat, i: int) {
    0 <= i < |nodes| && (nodes[i].life.Listed? || nodes[i].removed > since)
  }

  /** Everything below id i that has been listed since before the section began. */
  ghost predicate Covers(nodes: seq<Node>, rd: Reader, i: int) {
    forall k | 0 <= k < i :: IsListed(nodes, k) && nodes[k].added < rd.since ==> k in rd.visited
  }

  ghost predicate Increasing(v: seq<nat>) {
    forall a, b | 0 <= a < b < |v| :: v[a] < v[b]
  }

  ghost predicate ReaderOk(s: State, rd: Reader) {
    && rd.since < s.clock
    && Increasing(rd.visited)
    && (forall a | 0 <= a < |rd.visited| :: Seen(s.nodes, rd.since, rd.visited[a]))
    && (forall i | IsFreed(s.nodes, i) :: s.nodes[i].removed < rd.since)
    && match rd.pos
       case Entering => rd.visited == []
       case On(Head) => Covers(s.nodes, rd, |s.nodes|)
       case On(At(i)) => |rd.visited| > 0 && rd.visited[|rd.visited| - 1] == i && Covers(s.nodes, rd, i + 1)
       case On(Poison) => false
  }

  ghost predicate FreesOk(s: State) {
    && (forall a, b | 0 <= a < b < |s.kfreed| :: s.kfreed[a] != s.kfreed[b])
    && (forall i :: i in s.kfreed <==> IsFreed(s.nodes, i))
  }

  ghost predicate Inv(s: State) {
    Ring(s) && Frozen(s) && Times(s) && FreesOk(s) && forall r | r in s.readers :: ReaderOk(s, s.readers[r])
  }

  // ----- how one step may change the nodes -----

  /** What a step may do to one node: an object moves forward through its life, time-stamped, and
      once it is off the list nothing about it changes but its life. */
  ghost predicate Moves(n: Node, n': Node, clock: nat) {
    && n'.bo == n.bo && n'.added == n.added
    && match n.life
       case Listed => n'.life.Listed? || ((n'.life.Unlinked? || n'.life.Freed?) && n'.removed == clock)
       case Unlinked => n' == n || n' == n.(life := Waiting(clock))
       case Waiting(_) => n' == n || n' == n.(life := Freed)
       case Freed => n' == n
  }

  /** The object a step passes to kfree, or -1. */
  function FreedBy(s: State, step: Step): int {
    match step
    case Callback(i) => i
    case Drain => if s.first.At? then s.first.id else -1
    case _ => -1
  }

  ghost predicate Changes(s: State, s': State, f: int) {
    && s'.clock == s.clock + 1
    && |s.nodes| <= |s'.nodes|
    && (forall j {:trigger s'.nodes[j]} | 0 <= j < |s.nodes| ::
          Moves(s.nodes[j], s'.nodes[j], s.clock) && (s'.nodes[j].life.Freed? <==> s.nodes[j].life.Freed? || j == f))
    && (forall j | |s.nodes| <= j < |s'.nodes| :: s'.nodes[j].added == s.clock && s'.nodes[j].life.Listed?)
    && (f >= 0 ==> f < |s.nodes| && !s.nodes[f].life.Freed?)
    && s'.kfreed == if f >= 0 then s.kfreed + [f] else s.kfreed
  }

  lemma AddTailEffect(s: State, t: nat)
    requires Ring(s) && Enabled(s, AddTail(t))
    ensures var s' := Do(s, AddTail(t)); var n := |s.nodes|;
      && |s'.nodes| == n + 1
      && s'.nodes[n] == Node(s.locals[t], Head, s.last, Listed, s.clock, 0)
      && (forall j | 0 <= j < n :: s'.nodes[j] == if s.last == At(j) then s.nodes[j].(next := At(n)) else s.nodes[j])
      && (s.last.At? ==> IsListed(s.nodes, s.last.id))
      && s'.first == (if s.last == Head then At(n) else s.first) && s'.last == At(n)
      && (forall j :: IsListed(s'.nodes, j) <==> IsListed(s.nodes, j) || j == n)
      && s'.clock == s.clock + 1 && s'.kfreed == s.kfreed && s'.readers == s.readers
  {
  }

  lemma AddTailRing(s: State, t: nat)
    requires Ring(s) && Enabled(s, AddTail(t))
    ensures Ring(Do(s, AddTail(t)))
  {
    AddTailEffect(s, t);
    var s' := Do(s, AddTail(t));
    var n := |s.nodes|;
    forall i | IsListed(s'.nodes, i)
      ensures IsNext(s'.nodes, i, s'.nodes[i].next) && IsPrev(s'.nodes, i, s'.nodes[i].prev)
    {
      if i < n && s.last != At(i) {
        assert IsListed(s.nodes, i) && IsNext(s.nodes, i, s.nodes[i].next) && IsPrev(s.nodes, i, s.nodes[i].prev);
        assert s.last.At? && IsListed(s.nodes, s.last.id);
      }
    }
  }

  lemma Neighbours(s: State, i: nat)
    requires Ring(s) && IsListed(s.nodes, i)
    ensures var p := s.nodes[i].prev; var q := s.nodes[i].next;
      && p != Poison && q != Poison && p != At(i) && q != At(i)
      && (p.At? ==> IsListed(s.nodes, p.id)) && (q.At? ==> IsListed(s.nodes, q.id))
  {
    assert IsNext(s.nodes, i, s.nodes[i].next) && IsPrev(s.nodes, i, s.nodes[i].prev);
  }

  /** The two stores of __list_del. */
  lemma TwoStores(s: State, p: Ptr, q: Ptr)
    requires InRange(s.nodes, p) && InRange(s.nodes, q)
    ensures var d := SetNext(SetPrev(s, q, p), p, q);
      && |d.nodes| == |s.nodes|
      && (forall j | 0 <= j < |s.nodes| ::
            d.nodes[j] == s.nodes[j].(next := if p == At(j) then q else s.nodes[j].next,
                                      prev := if q == At(j) then p else s.nodes[j].prev))
      && d.first == (if p == Head then q else s.first)
      && d.last == (if q == Head then p else s.last)
      && d.clock == s.clock && d.readers == s.readers && d.kfreed == s.kfreed && d.locals == s.locals
  {
    var d := SetPrev(s, q, p);
    assert forall j | 0 <= j < |s.nodes| ::
        d.nodes[j] == s.nodes[j].(prev := if q == At(j) then p else s.nodes[j].prev);
  }

  lemma ListDelEffect(s: State, i: nat)
    requires Ring(s) && IsListed(s.nodes, i)
    ensures InRange(s.nodes, s.nodes[i].next) && InRange(s.nodes, s.nodes[i].prev)
    ensures var d := ListDel(s, i); var p := s.nodes[i].prev; var q := s.nodes[i].next;
      && |d.nodes| == |s.nodes|
      && p != At(i) && q != At(i)
      && (p.At? ==> IsListed(s.nodes, p.id)) && (q.At? ==> IsListed(s.nodes, q.id))
      && (forall j | 0 <= j < |s.nodes| ::
            d.nodes[j] == s.nodes[j].(next := if p == At(j) then q else s.nodes[j].next,
                                      prev := if q == At(j) then p else s.nodes[j].prev))
      && d.first == (if p == Head then q else s.first)
      && d.last == (if q == Head then p else s.last)
      && d.clock == s.clock && d.readers == s.readers && d.kfreed == s.kfreed && d.locals == s.locals
  {
    Neighbours(s, i);
    TwoStores(s, s.nodes[i].prev, s.nodes[i].next);
  }

  /** Taking node i out of the ring joins its neighbours and changes no other node. */
  ghost predicate Spliced(s: State, s': State, i: nat) {
    && IsListed(s.nodes, i)
    && |s'.nodes| == |s.nodes|
    && (forall j :: IsListed(s'.nodes, j) <==> IsListed(s.nodes, j) && j != i)
    && var p := s.nodes[i].prev; var q := s.nodes[i].next;
    && s'.first == (if p == Head then q else s.first)
    && s'.last == (if q == Head then p else s.last)
    && (forall j | 0 <= j < |s.nodes| && j != i ::
          s'.nodes[j] == s.nodes[j].(next := if p == At(j) then q else s.nodes[j].next,
                                     prev := if q == At(j) then p else s.nodes[j].prev))
    && (forall j | 0 <= j < |s.nodes| && !IsListed(s.nodes, j) :: s'.nodes[j] == s.nodes[j])
    && s'.clock == s.clock + 1 && s'.readers == s.readers
  }

  lemma SplicedNext(s: State, s': State, i: nat, j: nat)
    requires Ring(s) && Spliced(s, s', i) && IsListed(s'.nodes, j)
    ensures IsNext(s'.nodes, j, s'.nodes[j].next)
  {
    assert IsNext(s.nodes, i, s.nodes[i].next) && IsPrev(s.nodes, i, s.nodes[i].prev);
    assert IsNext(s.nodes, j, s.nodes[j].next);
  }

  lemma SplicedPrev(s: State, s': State, i: nat, j: nat)
    requires Ring(s) && Spliced(s, s', i) && IsListed(s'.nodes, j)
    ensures IsPrev(s'.nodes, j, s'.nodes[j].prev)
  {
    assert IsNext(s.nodes, i, s.nodes[i].next) && IsPrev(s.nodes, i, s.nodes[i].prev);
    assert IsPrev(s.nodes, j, s.nodes[j].prev);
  }

  lemma SplicedEnds(s: State, s': State, i: nat)
    requires Ring(s) && Spliced(s, s', i)
    ensures IsNext(s'.nodes, -1, s'.first) && IsPrev(s'.nodes, |s'.nodes|, s'.last)
  {
    assert IsNext(s.nodes, i, s.nodes[i].next) && IsPrev(s.nodes, i, s.nodes[i].prev);
  }

  lemma SplicedRing(s: State, s': State, i: nat)
    requires Ring(s) && Spliced(s, s', i)
    ensures Ring(s')
  {
    SplicedEnds(s, s', i);
    forall j | IsListed(s'.nodes, j)
      ensures IsNext(s'.nodes, j, s'.nodes[j].next) && IsPrev(s'.nodes, j, s'.nodes[j].prev)
    {
      SplicedNext(s, s', i, j);
      SplicedPrev(s, s', i, j);
    }
  }

  lemma UnlinkSplices(s: State, i: nat)
    requires Ring(s) && IsListed(s.nodes, i) && InRange(s.nodes, s.nodes[i].next) && InRange(s.nodes, s.nodes[i].prev)
    ensures var s' := UnlinkNode(s, i);
      && Spliced(s, s', i) && s'.kfreed == s.kfreed
      && s'.nodes[i] == s.nodes[i].(prev := Poison, life := Unlinked, removed := s.clock)
  {
    ListDelEffect(s, i);
  }

  lemma PlainSplices(s: State, i: nat)
    requires Ring(s) && IsListed(s.nodes, i) && InRange(s.nodes, s.nodes[i].next) && InRange(s.nodes, s.nodes[i].prev)
    ensures var s' := PlainRemove(s, i);
      && Spliced(s, s', i) && s'.kfreed == s.kfreed + [i]
      && s'.nodes[i] == s.nodes[i].(next := Poison, prev := Poison, life := Freed, removed := s.clock)
  {
    ListDelEffect(s, i);
  }

  lemma DrainSplices(s: State)
    requires Ring(s) && CanDrain(s)
    ensures var i := s.first.id; var s' := DrainFirst(s);
      && Spliced(s, s', i) && s'.kfreed == s.kfreed + [i]
      && s'.nodes[i] == s.nodes[i].(next := Poison, prev := Poison, life := Freed, removed := s.clock)
  {
    assert IsNext(s.nodes, -1, s.first);
    PlainSplices(s, s.first.id);
  }

  lemma SplicedChanges(s: State, s': State, i: nat, f: int)
    requires Spliced(s, s', i)
    requires s'.nodes[i].bo == s.nodes[i].bo && s'.nodes[i].added == s.nodes[i].added && s'.nodes[i].removed == s.clock
    requires s'.nodes[i].life == if f == i then Freed else Unlinked
    requires f == -1 || f == i
    requires s'.kfreed == if f == i then s.kfreed + [i] else s.kfreed
    ensures Changes(s, s', f)
  {
  }

  lemma AddTailChanges(s: State, t: nat)
    requires Ring(s) && Enabled(s, AddTail(t))
    ensures Changes(s, Do(s, AddTail(t)), -1)
  {
    AddTailEffect(s, t);
    var s' := Do(s, AddTail(t));
    assert forall j | 0 <= j < |s.nodes| :: s'.nodes[j].life == s.nodes[j].life && Moves(s.nodes[j], s'.nodes[j], s.clock);
  }

  lemma StepChanges(s: State, step: Step)
    requires Ring(s) && Enabled(s, step)
    ensures Changes(s, Do(s, step), FreedBy(s, step))
  {
    match step
    case AddTail(t) => AddTailChanges(s, t);
    case Unlink(i) =>
      UnlinkSplices(s, i);
      SplicedChanges(s, UnlinkNode(s, i), i, -1);
    case Drain =>
      DrainSplices(s);
      SplicedChanges(s, DrainFirst(s), s.first.id, s.first.id);
    case _ => OtherChanges(s, step);
  }

  lemma OtherChanges(s: State, step: Step)
    requires Enabled(s, step) && !step.AddTail? && !step.Unlink? && !step.Drain?
    ensures Changes(s, Do(s, step), FreedBy(s, step))
  {
    var s' := Do(s, step);
    if step.CallRcu? || step.Callback? {
      assert forall j | 0 <= j < |s.nodes| && j != step.id :: s'.nodes[j] == s.nodes[j];
    } else {
      assert s'.nodes == s.nodes;
    }
  }

  lemma StepRing(s: State, step: Step)
    requires Ring(s) && Enabled(s, step)
    ensures Ring(Do(s, step))
  {
    match step
    case AddTail(t) => AddTailRing(s, t);
    case Unlink(i) =>
      UnlinkSplices(s, i);
      SplicedRing(s, UnlinkNode(s, i), i);
    case Drain =>
      DrainSplices(s);
      SplicedRing(s, DrainFirst(s), s.first.id);
    case _ => SameRing(s, Do(s, step));
  }

  lemma SameNext(nodes: seq<Node>, nodes': seq<Node>, i: int, p: Ptr)
    requires IsNext(nodes, i, p) && forall k :: IsListed(nodes', k) <==> IsListed(nodes, k)
    ensures IsNext(nodes', i, p)
  {
  }

  lemma SamePrev(nodes: seq<Node>, nodes': seq<Node>, i: int, p: Ptr)
    requires IsPrev(nodes, i, p) && forall k :: IsListed(nodes', k) <==> IsListed(nodes, k)
    ensures IsPrev(nodes', i, p)
  {
  }

  lemma SameRing(s: State, s': State)
    requires Ring(s) && |s.nodes| == |s'.nodes| && s'.first == s.first && s'.last == s.last
    requires forall j | 0 <= j < |s.nodes| ::
      && s'.nodes[j].life.Listed? == s.nodes[j].life.Listed?
      && s'.nodes[j].next == s.nodes[j].next && s'.nodes[j].prev == s.nodes[j].prev
    ensures Ring(s')
  {
    assert forall k :: IsListed(s'.nodes, k) <==> IsListed(s.nodes, k);
    SameNext(s.nodes, s'.nodes, -1, s.first);
    SamePrev(s.nodes, s'.nodes, |s.nodes|, s.last);
    forall i | IsListed(s'.nodes, i)
      ensures IsNext(s'.nodes, i, s'.nodes[i].next) && IsPrev(s'.nodes, i, s'.nodes[i].prev)
    {
      assert IsListed(s.nodes, i);
      SameNext(s.nodes, s'.nodes, i, s.nodes[i].next);
      SamePrev(s.nodes, s'.nodes, i, s.nodes[i].prev);
    }
  }

  lemma ChangesTimes(s: State, s': State, f: int)
    requires Times(s) && Changes(s, s', f)
    ensures Times(s')
  {
  }

  lemma ChangesFrees(s: State, s': State, f: int)
    requires FreesOk(s) && Changes(s, s', f)
    ensures FreesOk(s')
  {
    if f >= 0 {
      assert f !in s.kfreed;
      forall i
        ensures i in s'.kfreed <==> IsFreed(s'.nodes, i)
      {
        assert i in s'.kfreed <==> i in s.kfreed || i == f;
        if 0 <= i < |s.nodes| {
          assert s'.nodes[i].life.Freed? <==> s.nodes[i].life.Freed? || i == f;
        }
      }
    } else {
      forall i
        ensures IsFreed(s.nodes, i) <==> IsFreed(s'.nodes, i)
      {
        if 0 <= i < |s.nodes| {
          assert s'.nodes[i].life.Freed? <==> s.nodes[i].life.Freed? || i == f;
        }
      }
    }
  }

  /** A frozen pointer stays sound while its node keeps it. */
  lemma FrozenKept(s: State, s': State, f: int, i: nat)
    requires Changes(s, s', f)
    requires i < |s.nodes| && !s.nodes[i].life.Listed? && s.nodes[i].removed < s.clock && FrozenNext(s.nodes, i)
    requires !s'.nodes[i].life.Listed? && s'.nodes[i].next == s.nodes[i].next && s'.nodes[i].removed == s.nodes[i].removed
    ensures FrozenNext(s'.nodes, i)
  {
  }

  /** At the moment of the unlink the pointer that freezes is the list's own. */
  lemma FrozenStarts(s: State, i: nat)
    requires Ring(s) && IsListed(s.nodes, i) && InRange(s.nodes, s.nodes[i].next) && InRange(s.nodes, s.nodes[i].prev)
    ensures FrozenNext(UnlinkNode(s, i).nodes, i)
  {
    UnlinkSplices(s, i);
    assert IsNext(s.nodes, i, s.nodes[i].next);
  }

  lemma UnlinkOnly(s: State, step: Step, i: nat)
    requires Ring(s) && Enabled(s, step) && IsListed(s.nodes, i)
    requires i < |Do(s, step).nodes| && Do(s, step).nodes[i].life.Unlinked?
    ensures step == Unlink(i)
  {
    match step
    case AddTail(t) => AddTailEffect(s, t);
    case Unlink(k) => UnlinkSplices(s, k);
    case Drain => DrainSplices(s);
    case _ =>
  }

  lemma StepFrozenAt(s: State, step: Step, i: nat)
    requires Ring(s) && Frozen(s) && Times(s) && Enabled(s, step)
    requires i < |Do(s, step).nodes|
    requires Do(s, step).nodes[i].life.Unlinked? || Do(s, step).nodes[i].life.Waiting?
    ensures FrozenNext(Do(s, step).nodes, i)
  {
    StepChanges(s, step);
    assert i < |s.nodes|;
    assert Moves(s.nodes[i], Do(s, step).nodes[i], s.clock);
    if IsListed(s.nodes, i) {
      UnlinkOnly(s, step, i);
      FrozenStarts(s, i);
    } else {
      FrozenKept(s, Do(s, step), FreedBy(s, step), i);
    }
  }

  lemma StepFrozen(s: State, step: Step)
    requires Ring(s) && Frozen(s) && Times(s) && Enabled(s, step)
    ensures Frozen(Do(s, step))
  {
    var s' := Do(s, step);
    forall i | 0 <= i < |s'.nodes| && (s'.nodes[i].life.Unlinked? || s'.nodes[i].life.Waiting?)
      ensures FrozenNext(s'.nodes, i)
    {
      StepFrozenAt(s, step, i);
    }
  }

  /** A reader that does not move keeps its guarantees while the list changes around it. */
  lemma ReaderKept(s: State, s': State, f: int, rd: Reader)
    requires ReaderOk(s, rd) && Changes(s, s', f)
    requires f >= 0 ==> s'.nodes[f].removed < rd.since
    ensures ReaderOk(s', rd)
  {
    forall a | 0 <= a < |rd.visited|
      ensures Seen(s'.nodes, rd.since, rd.visited[a])
    {
      SeenKept(s, s', f, rd.since, rd.visited[a]);
    }
    forall i | IsFreed(s'.nodes, i)
      ensures s'.nodes[i].removed < rd.since
    {
      if i != f {
        assert IsFreed(s.nodes, i);
      }
    }
    CoversKept(s, s', f, rd);
  }

  lemma SeenKept(s: State, s': State, f: int, since: nat, i: int)
    requires Changes(s, s', f) && Seen(s.nodes, since, i) && since < s.clock
    ensures Seen(s'.nodes, since, i)
  {
    assert Moves(s.nodes[i], s'.nodes[i], s.clock);
  }

  lemma CoversKept(s: State, s': State, f: int, rd: Reader)
    requires Changes(s, s', f) && rd.since < s.clock
    ensures forall i | i <= |s.nodes| && Covers(s.nodes, rd, i) :: Covers(s'.nodes, rd, i)
    ensures Covers(s.nodes, rd, |s.nodes|) ==> Covers(s'.nodes, rd, |s'.nodes|)
  {
    forall k | 0 <= k < |s'.nodes| && IsListed(s'.nodes, k) && s'.nodes[k].added < rd.since
      ensures k < |s.nodes| && IsListed(s.nodes, k) && s.nodes[k].added < rd.since
    {
      if k < |s.nodes| {
        assert Moves(s.nodes[k], s'.nodes[k], s.clock);
      }
    }
  }

  /** What a step frees was removed before any section that is still open began: the grace period
      at work. */
  lemma StepFreedBefore(s: State, step: Step, r: nat)
    requires Ring(s) && Times(s) && Enabled(s, step) && r in s.readers && FreedBy(s, step) >= 0
    ensures step.Callback? && FreedBy(s, step) < |Do(s, step).nodes|
    ensures Do(s, step).nodes[FreedBy(s, step)].removed < s.readers[r].since
  {
  }

  /** The load itself: wherever the reader stands, the pointer it reads leads to memory that has
      not been freed, to a later insertion, and skips nothing it must visit. */
  lemma LoadPointer(s: State, rd: Reader)
    requires Ring(s) && Frozen(s) && Times(s) && ReaderOk(s, rd) && rd.pos != On(Head)
    ensures rd.pos.On? ==> rd.pos.ptr.At? && rd.pos.ptr.id < |s.nodes|
    ensures match NextOf(s, rd.pos)
            case Poison => false
            case Head => Covers(s.nodes, rd, |s.nodes|)
            case At(j) =>
              && Seen(s.nodes, rd.since, j) && !IsFreed(s.nodes, j) && Covers(s.nodes, rd, j)
              && (|rd.visited| > 0 ==> rd.visited[|rd.visited| - 1] < j)
  {
    match rd.pos {
      case Entering => assert IsNext(s.nodes, -1, s.first);
      case On(At(i)) =>
        assert Seen(s.nodes, rd.since, rd.visited[|rd.visited| - 1]);
        if IsListed(s.nodes, i) {
          assert IsNext(s.nodes, i, s.nodes[i].next);
        } else {
          assert !IsFreed(s.nodes, i);
          assert FrozenNext(s.nodes, i);
        }
    }
  }

  lemma LoadOk(s: State, r: nat)
    requires Inv(s) && Enabled(s, Load(r))
    ensures ReaderOk(Do(s, Load(r)), Do(s, Load(r)).readers[r])
  {
    LoadPointer(s, s.readers[r]);
    ArriveOk(s, s.readers[r], NextOf(s, s.readers[r].pos));
    ClockOk(s, Do(s, Load(r)), Do(s, Load(r)).readers[r]);
  }

  lemma ArriveOk(s: State, rd: Reader, p: Ptr)
    requires ReaderOk(s, rd)
    requires match p
             case Poison => false
             case Head => Covers(s.nodes, rd, |s.nodes|)
             case At(j) =>
               && Seen(s.nodes, rd.since, j) && Covers(s.nodes, rd, j)
               && (|rd.visited| > 0 ==> rd.visited[|rd.visited| - 1] < j)
    ensures ReaderOk(s, rd.(pos := On(p), visited := if p.At? then rd.visited + [p.id] else rd.visited))
  {
    if p.At? {
      CoversNext(s.nodes, rd, p.id, rd.(pos := On(p), visited := rd.visited + [p.id]));
      AppendIncreasing(rd.visited, p.id);
    } else {
      CoversSame(s.nodes, rd, rd.(pos := On(p)));
    }
  }

  lemma AppendIncreasing(v: seq<nat>, j: nat)
    requires Increasing(v) && (|v| > 0 ==> v[|v| - 1] < j)
    ensures Increasing(v + [j])
  {
  }

  lemma CoversSame(nodes: seq<Node>, rd: Reader, rd': Reader)
    requires rd'.since == rd.since && rd'.visited == rd.visited
    ensures forall i :: Covers(nodes, rd, i) ==> Covers(nodes, rd', i)
  {
  }

  lemma CoversNext(nodes: seq<Node>, rd: Reader, j: nat, rd': Reader)
    requires Covers(nodes, rd, j) && rd'.since == rd.since && rd'.visited == rd.visited + [j]
    ensures Covers(nodes, rd', j + 1)
  {
    forall k | 0 <= k < j + 1 && IsListed(nodes, k) && nodes[k].added < rd.since
      ensures k in rd'.visited
    {
      if k == j {
        assert rd'.visited[|rd.visited|] == j;
      } else {
        assert k in rd.visited;
      }
    }
  }

  lemma ClockOk(s: State, s': State, rd: Reader)
    requires ReaderOk(s, rd) && s'.nodes == s.nodes && s'.clock == s.clock + 1
    ensures ReaderOk(s', rd)
  {
  }

  lemma StepReaders(s: State, step: Step, r: nat)
    requires Inv(s) && Enabled(s, step) && r in Do(s, step).readers
    ensures ReaderOk(Do(s, step), Do(s, step).readers[r])
  {
    if step == Load(r) {
      LoadOk(s, r);
    } else if step == Enter(r) {
      EnterOk(s, r);
    } else {
      ReadersSame(s, step, r);
      StepChanges(s, step);
      if FreedBy(s, step) >= 0 {
        StepFreedBefore(s, step, r);
      }
      ReaderKept(s, Do(s, step), FreedBy(s, step), s.readers[r]);
    }
  }

  lemma EnterOk(s: State, r: nat)
    requires Times(s) && Enabled(s, Enter(r))
    ensures ReaderOk(Do(s, Enter(r)), Do(s, Enter(r)).readers[r])
  {
  }

  lemma ReadersSame(s: State, step: Step, r: nat)
    requires Ring(s) && Enabled(s, step) && r in Do(s, step).readers && step != Load(r) && step != Enter(r)
    ensures r in s.readers && Do(s, step).readers[r] == s.readers[r]
  {
    match step
    case AddTail(t) => AddTailEffect(s, t);
    case Unlink(i) => UnlinkSplices(s, i);
    case Drain => DrainSplices(s);
    case _ =>
  }

  /** The invariant is inductive: every step of every thread keeps it. */
  lemma StepInv(s: State, step: Step)
    requires Inv(s) && Enabled(s, step)
    ensures Inv(Do(s, step))
  {
    StepRing(s, step);
    StepFrozen(s, step);
    StepChanges(s, step);
    ChangesTimes(s, Do(s, step), FreedBy(s, step));
    ChangesFrees(s, Do(s, step), FreedBy(s, step));
    forall r | r in Do(s, step).readers
      ensures ReaderOk(Do(s, step), Do(s, step).readers[r])
    {
      StepReaders(s, step, r);
    }
  }

  // ----- runs -----

  /** A run: the states of an interleaving and the steps between them. */
  ghost predicate Run(tr: seq<State>, st: seq<Step>) {
    && |tr| == |st| + 1
    && Init(tr[0])
    && forall i | 0 <= i < |st| :: StepAt(tr, st, i)
  }

  ghost predicate StepAt(tr: seq<State>, st: seq<Step>, i: nat)
    requires i < |st| && i + 1 < |tr|
  {
    Enabled(tr[i], st[i]) && tr[i + 1] == Do(tr[i], st[i])
  }

  lemma {:induction false} RunInv(tr: seq<State>, st: seq<Step>, n: nat)
    requires Run(tr, st) && n < |tr|
    ensures Inv(tr[n]) && tr[n].clock == n
  {
    if n > 0 {
      RunInv(tr, st, n - 1);
      assert StepAt(tr, st, n - 1);
      StepInv(tr[n - 1], st[n - 1]);
      StepChanges(tr[n - 1], st[n - 1]);
    }
  }

  lemma RunTimes(tr: seq<State>, st: seq<Step>, n: nat)
    requires Run(tr, st) && n < |tr|
    ensures Ring(tr[n]) && Times(tr[n]) && tr[n].clock == n
  {
    RunInv(tr, st, n);
  }

  lemma RunReader(tr: seq<State>, st: seq<Step>, n: nat, r: nat)
    requires Run(tr, st) && n < |tr| && r in tr[n].readers
    ensures ReaderOk(tr[n], tr[n].readers[r])
  {
    RunInv(tr, st, n);
  }

  lemma RunChanges(tr: seq<State>, st: seq<Step>, n: nat)
    requires Run(tr, st) && n < |st|
    ensures Changes(tr[n], tr[n + 1], FreedBy(tr[n], st[n])) && tr[n].clock == n
  {
    RunInv(tr, st, n);
    assert StepAt(tr, st, n);
    StepChanges(tr[n], st[n]);
  }

  /** The nodes a walk along `next` from p visits, as long as it moves to later insertions. */
  function Walk(nodes: seq<Node>, p: Ptr): seq<nat>
    decreases if p.At? then |nodes| - p.id else -1
  {
    if p.At? && p.id < |nodes| then
      var q := nodes[p.id].next;
      [p.id] + if q.At? && q.id > p.id then Walk(nodes, q) else []
    else []
  }

  /** A whole walk from p touches no freed node and no poison, and comes back to the head. */
  predicate WalkSafe(nodes: seq<Node>, p: Ptr)
    decreases if p.At? then |nodes| - p.id else -1
  {
    match p
    case Head => true
    case Poison => false
    case At(i) =>
      && i < |nodes| && !nodes[i].life.Freed?
      && (nodes[i].next.At? ==> nodes[i].next.id > i)
      && WalkSafe(nodes, nodes[i].next)
  }

  lemma {:induction false} WalkIsSafe(s: State, rd: Reader, p: Ptr)
    requires Ring(s) && Frozen(s) && Times(s) && ReaderOk(s, rd)
    requires p == Head || (p.At? && Seen(s.nodes, rd.since, p.id))
    ensures WalkSafe(s.nodes, p)
    decreases if p.At? then |s.nodes| - p.id else -1
  {
    if p.At? {
      var i := p.id;
      var q := s.nodes[i].next;
      assert !IsFreed(s.nodes, i);
      if IsListed(s.nodes, i) {
        assert IsNext(s.nodes, i, q);
      } else {
        assert FrozenNext(s.nodes, i);
      }
      WalkIsSafe(s, rd, q);
    }
  }

  /** Everything reader rd may still touch in s, the entry it stands on included, is live memory. */
  predicate SafeReader(s: State, rd: Reader) {
    WalkSafe(s.nodes, if rd.pos.On? then rd.pos.ptr else s.first)
  }

  /** RCU safety: in every interleaving, wherever a reader stands, the entry it stands on and the
      whole rest of its walk is memory that has not been freed. */
  lemma ReadersNeverReachFreedMemory(tr: seq<State>, st: seq<Step>, n: nat, r: nat)
    requires Run(tr, st) && n < |tr| && r in tr[n].readers
    ensures SafeReader(tr[n], tr[n].readers[r])
  {
    RunInv(tr, st, n);
    ReaderIsSafe(tr[n], tr[n].readers[r]);
  }

  lemma ReaderIsSafe(s: State, rd: Reader)
    requires Ring(s) && Frozen(s) && Times(s) && ReaderOk(s, rd)
    ensures SafeReader(s, rd)
  {
    if rd.pos.On? {
      if rd.pos.ptr.At? {
        assert Seen(s.nodes, rd.since, rd.visited[|rd.visited| - 1]);
      }
      WalkIsSafe(s, rd, rd.pos.ptr);
    } else {
      LoadPointer(s, rd);
      WalkIsSafe(s, rd, s.first);
    }
  }

  /** The list: what a walk from the head finds. */
  function ListOf(s: State): seq<nat> {
    Walk(s.nodes, s.first)
  }

  lemma Prepend(x: nat, w: seq<nat>)
    requires Increasing(w) && forall k | k in w :: x < k
    ensures Increasing([x] + w) && forall k :: k in [x] + w <==> k == x || k in w
  {
    var v := [x] + w;
    forall a, b | 0 <= a < b < |v|
      ensures v[a] < v[b]
    {
      assert v[b] == w[b - 1] && w[b - 1] in w;
    }
  }

  lemma {:induction false} WalkFinds(s: State, i: int, p: Ptr)
    requires Ring(s) && IsNext(s.nodes, i, p)
    ensures forall k :: k in Walk(s.nodes, p) <==> k > i && IsListed(s.nodes, k)
    ensures Increasing(Walk(s.nodes, p))
    decreases if p.At? then |s.nodes| - p.id else -1
  {
    if p.At? {
      var q := s.nodes[p.id].next;
      assert IsListed(s.nodes, p.id);
      assert IsNext(s.nodes, p.id, q);
      WalkFinds(s, p.id, q);
      Prepend(p.id, Walk(s.nodes, q));
      assert Walk(s.nodes, p) == [p.id] + Walk(s.nodes, q);
    }
  }

  /** Walking the list from the head finds exactly the listed objects, in insertion order. */
  lemma ListIsListed(tr: seq<State>, st: seq<Step>, n: nat)
    requires Run(tr, st) && n < |tr|
    ensures forall k :: k in ListOf(tr[n]) <==> IsListed(tr[n].nodes, k)
    ensures Increasing(ListOf(tr[n]))
  {
    RunInv(tr, st, n);
    WalkFinds(tr[n], -1, tr[n].first);
  }

  lemma {:induction false} StampsKept(tr: seq<State>, st: seq<Step>, m: nat, n: nat, k: nat)
    requires Run(tr, st) && m <= n < |tr| && k < |tr[n].nodes|
    requires tr[m].clock == m && Times(tr[m])
    ensures k < |tr[m].nodes| <==> tr[n].nodes[k].added < m
    ensures k < |tr[m].nodes| ==> tr[m].nodes[k].added == tr[n].nodes[k].added
    ensures k < |tr[m].nodes| ==>
      (IsListed(tr[m].nodes, k) <==> IsListed(tr[n].nodes, k) || tr[n].nodes[k].removed >= m)
    decreases n - m
  {
    if m < n {
      RunChanges(tr, st, n - 1);
      NodesGrow(tr, st, m, n - 1);
      assert n - 1 + 1 == n;
      if k < |tr[n - 1].nodes| {
        StampsKept(tr, st, m, n - 1, k);
        assert Moves(tr[n - 1].nodes[k], tr[n].nodes[k], n - 1);
      }
    }
  }

  /** The stamps of a node are the history of the list: the state at time m knows the nodes added
      before m, and has those on the list that are still listed or were removed at m or later. */
  lemma StampsAreHistory(tr: seq<State>, st: seq<Step>, m: nat, n: nat, k: nat)
    requires Run(tr, st) && m <= n < |tr| && k < |tr[n].nodes|
    ensures k < |tr[m].nodes| <==> tr[n].nodes[k].added < m
    ensures k < |tr[m].nodes| ==> tr[m].nodes[k].added == tr[n].nodes[k].added
    ensures k < |tr[m].nodes| ==>
      (IsListed(tr[m].nodes, k) <==> IsListed(tr[n].nodes, k) || tr[n].nodes[k].removed >= m)
  {
    RunTimes(tr, st, m);
    StampsKept(tr, st, m, n, k);
  }

  lemma {:induction false} NodesGrow(tr: seq<State>, st: seq<Step>, m: nat, n: nat)
    requires Run(tr, st) && m <= n < |tr|
    ensures |tr[m].nodes| <= |tr[n].nodes|
    decreases n - m
  {
    if m < n {
      NodesGrow(tr, st, m, n - 1);
      RunChanges(tr, st, n - 1);
    }
  }

  /** Reader r opens a section with the step at e and is still in it at f. */
  ghost predicate Section(tr: seq<State>, st: seq<Step>, r: nat, e: nat, f: nat) {
    && Run(tr, st) && e < f < |tr|
    && st[e] == Enter(r)
    && forall t | e < t <= f :: r in tr[t].readers
  }

  lemma ReaderStart(s: State, step: Step, r: nat)
    requires Ring(s) && Enabled(s, step) && r in s.readers && r in Do(s, step).readers
    ensures Do(s, step).readers[r].since == s.readers[r].since
  {
    if step != Load(r) {
      ReadersSame(s, step, r);
    }
  }

  lemma {:induction false} SectionStart(tr: seq<State>, st: seq<Step>, r: nat, e: nat, f: nat)
    requires Section(tr, st, r, e, f)
    ensures tr[f].readers[r].since == e
    decreases f - e
  {
    if f > e + 1 {
      SectionStart(tr, st, r, e, f - 1);
      SectionStep(tr, st, r, f - 1);
    } else {
      RunTimes(tr, st, e);
      assert StepAt(tr, st, e);
      EnterStart(tr[e], r);
    }
  }

  lemma SectionStep(tr: seq<State>, st: seq<Step>, r: nat, n: nat)
    requires Run(tr, st) && n < |st| && r in tr[n].readers && r in tr[n + 1].readers
    ensures tr[n + 1].readers[r].since == tr[n].readers[r].since
  {
    RunTimes(tr, st, n);
    assert StepAt(tr, st, n);
    ReaderStart(tr[n], st[n], r);
  }

  lemma EnterStart(s: State, r: nat)
    requires Enabled(s, Enter(r))
    ensures Do(s, Enter(r)).nodes == s.nodes
    ensures r in Do(s, Enter(r)).readers && Do(s, Enter(r)).readers[r].since == s.clock
  {
  }

  /** Traversal completeness.  A section that has reached the end of the list has visited, in
      insertion order and without repetition, every object that was on the list throughout the
      section, and only objects that were on the list at some moment of it, although objects were
      added and removed meanwhile, even the one the reader stood on. */
  lemma TraversalIsComplete(tr: seq<State>, st: seq<Step>, r: nat, e: nat, f: nat)
    requires Section(tr, st, r, e, f)
    requires tr[f].readers[r].pos == On(Head)
    ensures Increasing(tr[f].readers[r].visited)
    ensures forall k :: (forall t | e < t <= f :: k in ListOf(tr[t])) ==> k in tr[f].readers[r].visited
    ensures forall k | k in tr[f].readers[r].visited :: exists t | e < t <= f :: k in ListOf(tr[t])
  {
    SectionStart(tr, st, r, e, f);
    RunReader(tr, st, f, r);
    var rd := tr[f].readers[r];
    forall k | forall t | e < t <= f :: k in ListOf(tr[t])
      ensures k in rd.visited
    {
      ThroughoutIsVisited(tr, st, r, e, f, k);
    }
    forall k | k in rd.visited
      ensures exists t | e < t <= f :: k in ListOf(tr[t])
    {
      var a :| 0 <= a < |rd.visited| && rd.visited[a] == k;
      assert Seen(tr[f].nodes, e, k);
      SeenWasListed(tr, st, e, f, k);
    }
  }

  lemma ThroughoutIsVisited(tr: seq<State>, st: seq<Step>, r: nat, e: nat, f: nat, k: nat)
    requires Section(tr, st, r, e, f) && tr[f].readers[r].pos == On(Head)
    requires k in ListOf(tr[e + 1]) && k in ListOf(tr[f])
    ensures k in tr[f].readers[r].visited
  {
    SectionStart(tr, st, r, e, f);
    ListIsListed(tr, st, f);
    ListedEarly(tr, st, r, e, f, k);
    RunReader(tr, st, f, r);
    OldIsVisited(tr[f], tr[f].readers[r], k);
  }

  lemma ListedEarly(tr: seq<State>, st: seq<Step>, r: nat, e: nat, f: nat, k: nat)
    requires Section(tr, st, r, e, f) && k in ListOf(tr[e + 1]) && k < |tr[f].nodes|
    ensures tr[f].nodes[k].added < e
  {
    ListIsListed(tr, st, e + 1);
    assert StepAt(tr, st, e);
    EnterStart(tr[e], r);
    StampsAreHistory(tr, st, e, f, k);
  }

  lemma OldIsVisited(s: State, rd: Reader, k: nat)
    requires ReaderOk(s, rd) && rd.pos == On(Head) && IsListed(s.nodes, k) && s.nodes[k].added < rd.since
    ensures k in rd.visited
  {
  }

  lemma SeenWasListed(tr: seq<State>, st: seq<Step>, e: nat, f: nat, k: nat)
    requires Run(tr, st) && e < f < |tr| && Seen(tr[f].nodes, e, k)
    ensures exists t | e < t <= f :: k in ListOf(tr[t])
  {
    RunTimes(tr, st, f);
    var t := if IsListed(tr[f].nodes, k) then f else tr[f].nodes[k].removed;
    RunTimes(tr, st, t);
    StampsAreHistory(tr, st, t, f, k);
    ListIsListed(tr, st, t);
    assert k in ListOf(tr[t]);
  }

  // ----- the life of an object -----

  function Rank(life: Life): nat {
    match life
    case Listed => 0
    case Unlinked => 1
    case Waiting(_) => 2
    case Freed => 3
  }

  lemma {:induction false} LifeMovesForward(tr: seq<State>, st: seq<Step>, m: nat, n: nat, k: nat)
    requires Run(tr, st) && m <= n < |tr| && k < |tr[m].nodes|
    ensures k < |tr[n].nodes| && Rank(tr[m].nodes[k].life) <= Rank(tr[n].nodes[k].life)
    ensures tr[m].kfreed <= tr[n].kfreed
    decreases n - m
  {
    if m < n {
      LifeMovesForward(tr, st, m, n - 1, k);
      RunChanges(tr, st, n - 1);
      assert n - 1 + 1 == n && Moves(tr[n - 1].nodes[k], tr[n].nodes[k], n - 1);
    }
  }

  /** An object only moves forward through listed, unlinked, waiting for its grace period and freed,
      it is freed exactly when kfree has been called on it, and kfree is called on it at most once. */
  lemma FreedAtMostOnce(tr: seq<State>, st: seq<Step>, m: nat, n: nat, k: nat)
    requires Run(tr, st) && m <= n < |tr| && k < |tr[m].nodes|
    ensures k < |tr[n].nodes| && Rank(tr[m].nodes[k].life) <= Rank(tr[n].nodes[k].life)
    ensures tr[m].kfreed <= tr[n].kfreed
    ensures multiset(tr[n].kfreed)[k] == if tr[n].nodes[k].life.Freed? then 1 else 0
  {
    LifeMovesForward(tr, st, m, n, k);
    RunInv(tr, st, n);
    FreeCount(tr[n], k);
  }

  lemma FreeCount(s: State, k: nat)
    requires FreesOk(s)
    ensures multiset(s.kfreed)[k] == if IsFreed(s.nodes, k) then 1 else 0
  {
    OnceInSeq(s.kfreed, k);
  }

  lemma {:induction false} OnceInSeq(s: seq<nat>, k: nat)
    requires forall a, b | 0 <= a < b < |s| :: s[a] != s[b]
    ensures multiset(s)[k] == if k in s then 1 else 0
  {
    if |s| > 0 {
      var h := s[..|s| - 1];
      OnceInSeq(h, k);
      assert s == h + [s[|s| - 1]];
    }
  }

  // ----- teardown with plain list_del and kfree -----

  lemma {:induction false} WalkAfterDrain(s: State, p: Ptr)
    requires Ring(s) && CanDrain(s) && WalkSafe(s.nodes, p)
    ensures WalkSafe(DrainFirst(s).nodes, p) <==> s.first.id !in Walk(s.nodes, p)
    decreases if p.At? then |s.nodes| - p.id else -1
  {
    DrainSplices(s);
    assert IsPrev(s.nodes, s.first.id, s.nodes[s.first.id].prev);
    if p.At? && p.id != s.first.id {
      var q := s.nodes[p.id].next;
      assert DrainFirst(s).nodes[p.id].next == q;
      WalkAfterDrain(s, q);
      assert Walk(s.nodes, p) == [p.id] + Walk(s.nodes, q);
    }
  }

  lemma {:induction false} ListedWalkIsSafe(s: State, i: int, p: Ptr)
    requires Ring(s) && IsNext(s.nodes, i, p)
    ensures WalkSafe(s.nodes, p)
    decreases if p.At? then |s.nodes| - p.id else -1
  {
    if p.At? {
      assert IsListed(s.nodes, p.id);
      ListedWalkIsSafe(s, p.id, s.nodes[p.id].next);
    }
  }

  /** The immediate kfree of fini is safe for the open read sections exactly when none of them
      stands on the first entry or can still walk to it from where it stands. */
  lemma DrainSafeExactly(s: State)
    requires Inv(s) && CanDrain(s)
    ensures (forall r | r in s.readers :: SafeReader(DrainFirst(s), s.readers[r])) <==>
            (forall r | r in s.readers && s.readers[r].pos.On? ::
               s.first.id !in Walk(s.nodes, s.readers[r].pos.ptr))
  {
    DrainSplices(s);
    SplicedRing(s, DrainFirst(s), s.first.id);
    ListedWalkIsSafe(DrainFirst(s), -1, DrainFirst(s).first);
    forall r | r in s.readers && s.readers[r].pos.On?
      ensures SafeReader(DrainFirst(s), s.readers[r]) <==> s.first.id !in Walk(s.nodes, s.readers[r].pos.ptr)
    {
      ReaderIsSafe(s, s.readers[r]);
      WalkAfterDrain(s, s.readers[r].pos.ptr);
    }
  }

  /** A run goes on with any step that is enabled in its last state. */
  lemma Extend(tr: seq<State>, st: seq<Step>, step: Step) returns (tr': seq<State>, st': seq<Step>)
    requires Run(tr, st) && Enabled(tr[|tr| - 1], step)
    ensures Run(tr', st') && |tr'| == |tr| + 1 && tr'[|tr|] == Do(tr[|tr| - 1], step)
  {
    tr', st' := tr + [Do(tr[|tr| - 1], step)], st + [step];
    forall i | 0 <= i < |st'|
      ensures StepAt(tr', st', i)
    {
      if i < |st| {
        assert StepAt(tr, st, i);
        assert tr'[i] == tr[i] && tr'[i + 1] == tr[i + 1] && st'[i] == st[i];
      }
    }
  }

  /** It does go wrong: one object, one reader standing on it, and the drain loop starts. */
  lemma DrainUnderReader(thread: nat, bo: nat, r: nat) returns (tr: seq<State>, st: seq<Step>)
    ensures Run(tr, st) && |tr| == 5 && r in tr[4].readers && CanDrain(tr[4]) && tr[4].first == At(0)
    ensures !SafeReader(DrainFirst(tr[4]), tr[4].readers[r])
  {
    tr, st := [State(0, Head, Head, [], map[], map[], [])], [];
    tr, st := Extend(tr, st, Kzalloc(thread, bo));
    tr, st := Extend(tr, st, AddTail(thread));
    assert tr[2].nodes == [Node(bo, Head, Head, Listed, 1, 0)];
    tr, st := Extend(tr, st, Enter(r));
    tr, st := Extend(tr, st, Load(r));
    assert tr[4].readers[r].pos == On(At(0));
    assert DrainFirst(tr[4]).nodes[0].life.Freed?;
  }

  // ----- the plain remove helper against RCU readers -----

  /** What a reader at p touches before it is back on the list: p itself, and while that is an
      unlinked node, the node its frozen pointer leads to, and so on. */
  function BackToList(nodes: seq<Node>, p: Ptr): seq<nat>
    decreases if p.At? then |nodes| - p.id else -1
  {
    if p.At? && p.id < |nodes| then
      var q := nodes[p.id].next;
      [p.id] + if !nodes[p.id].life.Listed? && q.At? && q.id > p.id then BackToList(nodes, q) else []
    else []
  }

  lemma {:induction false} WalkAfterPlainRemove(s: State, i: nat, p: Ptr)
    requires Ring(s) && IsListed(s.nodes, i) && InRange(s.nodes, s.nodes[i].next) && InRange(s.nodes, s.nodes[i].prev)
    requires WalkSafe(s.nodes, p)
    ensures WalkSafe(PlainRemove(s, i).nodes, p) <==> i !in BackToList(s.nodes, p)
    decreases if p.At? then |s.nodes| - p.id else -1
  {
    var s' := PlainRemove(s, i);
    PlainSplices(s, i);
    if p.At? && p.id != i {
      if IsListed(s.nodes, p.id) {
        assert IsListed(s'.nodes, p.id);
        SplicedNext(s, s', i, p.id);
        SplicedRing(s, s', i);
        ListedWalkIsSafe(s', p.id, s'.nodes[p.id].next);
      } else {
        assert s'.nodes[p.id] == s.nodes[p.id];
        WalkAfterPlainRemove(s, i, s.nodes[p.id].next);
      }
    }
  }

  lemma ListedInRange(s: State, i: nat)
    requires Ring(s) && IsListed(s.nodes, i)
    ensures InRange(s.nodes, s.nodes[i].next) && InRange(s.nodes, s.nodes[i].prev)
  {
    ListDelEffect(s, i);
  }

  /** list_del and kfree of a listed node is safe for the open read sections exactly when none of them
      stands on it, or on unlinked nodes whose frozen pointers lead straight to it. */
  lemma PlainRemoveSafeExactly(s: State, i: nat)
    requires Ring(s) && IsListed(s.nodes, i) && forall r | r in s.readers :: SafeReader(s, s.readers[r])
    ensures InRange(s.nodes, s.nodes[i].next) && InRange(s.nodes, s.nodes[i].prev)
    ensures (forall r | r in s.readers :: SafeReader(PlainRemove(s, i), s.readers[r])) <==>
            (forall r | r in s.readers && s.readers[r].pos.On? :: i !in BackToList(s.nodes, s.readers[r].pos.ptr))
  {
    ListedInRange(s, i);
    var s' := PlainRemove(s, i);
    PlainSplices(s, i);
    SplicedRing(s, s', i);
    ListedWalkIsSafe(s', -1, s'.first);
    forall r | r in s.readers && s.readers[r].pos.On?
      ensures SafeReader(s', s.readers[r]) <==> i !in BackToList(s.nodes, s.readers[r].pos.ptr)
    {
      WalkAfterPlainRemove(s, i, s.readers[r].pos.ptr);
    }
  }

  /** Where only the plain helpers write, no node is unlinked but unfreed, and what matters is just
      whether a reader stands on the entry. */
  lemma PlainRemoveHitsItsReaders(s: State, i: nat)
    requires Ring(s) && IsListed(s.nodes, i) && forall r | r in s.readers :: SafeReader(s, s.readers[r])
    requires forall j | 0 <= j < |s.nodes| :: s.nodes[j].life.Listed? || s.nodes[j].life.Freed?
    ensures InRange(s.nodes, s.nodes[i].next) && InRange(s.nodes, s.nodes[i].prev)
    ensures (forall r | r in s.readers :: SafeReader(PlainRemove(s, i), s.readers[r])) <==>
            (forall r | r in s.readers :: s.readers[r].pos != On(At(i)))
  {
    PlainRemoveSafeExactly(s, i);
    forall r | r in s.readers && s.readers[r].pos.On?
      ensures i in BackToList(s.nodes, s.readers[r].pos.ptr) <==> s.readers[r].pos == On(At(i))
    {
      assert SafeReader(s, s.readers[r]);
    }
  }

  /** It does go wrong: one object, the monitor standing on it, and the object is destroyed. */
  lemma PlainRemoveUnderReader(thread: nat, bo: nat, r: nat) returns (tr: seq<State>, st: seq<Step>)
    ensures Run(tr, st) && |tr| == 5 && r in tr[4].readers && CanDrain(tr[4]) && tr[4].first == At(0)
    ensures !SafeReader(PlainRemove(tr[4], 0), tr[4].readers[r])
  {
    tr, st := DrainUnderReader(thread, bo, r);
  }
}
