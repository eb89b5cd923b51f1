/** The GTT manager (pddgpu_gtt_mgr.c:55-199, 233-273, 286-322). */
module GttManager {
  import opened ManagerState
  import opened U64
  import opened VramBlocks

  /** A drm_mm node: a range of pages. */
  datatype Extent = Extent(start: nat, size: nat)

  /** A resource handed to TTM: its mm_nodes[0] and the size ttm_resource_init copied from the object. */
  datatype Resource = Resource(extent: Extent, boSize: u64)

  /** A call of update_usage(TTM_PL_TT, size, alloc) made on behalf of a node. */
  datatype Report = Report(node: nat, size: u64, alloc: bool)

  /** An answer of drm_mm_insert_node_in_range about a node. */
  datatype Answer = Answer(node: nat, granted: bool)

  datatype Place = Place(fpfn: pfn, lpfn: pfn, temporary: bool)

  datatype Error = ENODEV | EINVAL | ENOMEM | ENOSPC

  datatype Result = Ok | Failed(error: Error)

  datatype Outcome = NotReady | Full | Placed(start: nat)

  const RETRY_COUNT: nat := 3    // PDDGPU_GTT_ALLOC_RETRY_COUNT

  function Stop(e: Extent): nat {
    e.start + e.size
  }

  predicate Disjoint(e: Extent, f: Extent) {
    Stop(e) <= f.start || Stop(f) <= e.start
  }

  predicate Aligned(start: nat, alignment: nat) {
    alignment <= 1 || start % alignment == 0
  }

  /** PFN_UP(size), computed in 64 bits. */
  function PagesUp(size: u64): nat {
    Add(size, PAGE_SIZE - 1) / PAGE_SIZE
  }

  /** num_pages, a uint32_t. */
  function NumPages(size: u64): pfn {
    PagesUp(size) % 0x1_0000_0000
  }

  const MAX_PAGES: nat := 0xFFFF_FFFF

  /** The pages that are asked for hold the object exactly if its size is at most 2^32 - 1 pages, and
      then they are no more than it needs; beyond that the 32-bit page count drops the high bits. */
  lemma PagesCoverExactly(size: u64)
    ensures size <= NumPages(size) * PAGE_SIZE <==> size <= MAX_PAGES * PAGE_SIZE
    ensures size <= MAX_PAGES * PAGE_SIZE ==> NumPages(size) * PAGE_SIZE < size + PAGE_SIZE
    ensures size <= MOD - PAGE_SIZE ==> size <= PagesUp(size) * PAGE_SIZE < size + PAGE_SIZE
    ensures size > MOD - PAGE_SIZE ==> PagesUp(size) == 0
    ensures (PagesUp(size) - NumPages(size)) % 0x1_0000_0000 == 0
  {
  }

  function Amount(r: Report): int {
    var size: int := r.size;
    if r.alloc then size else -size
  }

  /** The net bytes reported on behalf of a node. */
  function Net(log: seq<Report>, node: nat): int {
    if |log| == 0 then 0 else
      Net(log[..|log| - 1], node) + if log[|log| - 1].node == node then Amount(log[|log| - 1]) else 0
  }

  lemma NetAppend(log: seq<Report>, r: Report)
    ensures forall c: nat :: Net(log + [r], c) == Net(log, c) + if r.node == c then Amount(r) else 0
  {
    assert (log + [r])[..|log|] == log;
  }

  /** The bytes reported for a node are those of the resource TTM holds, or none. */
  ghost predicate Matched(log: seq<Report>, resources: map<nat, Resource>) {
    forall c: nat :: Net(log, c) == SizeOf(resources, c)
  }

  function SizeOf(resources: map<nat, Resource>, node: nat): nat {
    if node in resources then resources[node].boSize else 0
  }

  /** All bytes reported, and those reported for the nodes below n. */
  function NetAll(log: seq<Report>): int {
    if |log| == 0 then 0 else NetAll(log[..|log| - 1]) + Amount(log[|log| - 1])
  }

  function NetBelow(log: seq<Report>, n: nat): int {
    if n == 0 then 0 else NetBelow(log, n - 1) + Net(log, n - 1)
  }

  /** The sizes of the resources of the nodes below n. */
  function SizesBelow(resources: map<nat, Resource>, n: nat): nat {
    if n == 0 then 0 else SizesBelow(resources, n - 1) + SizeOf(resources, n - 1)
  }

  lemma {:induction false} NetBelowAppend(log: seq<Report>, r: Report, n: nat)
    ensures NetBelow(log + [r], n) == NetBelow(log, n) + if r.node < n then Amount(r) else 0
  {
    if n > 0 {
      NetBelowAppend(log, r, n - 1);
      NetAppend(log, r);
    }
  }

  lemma {:induction false} NetByNode(log: seq<Report>, n: nat)
    requires forall i | 0 <= i < |log| :: log[i].node < n
    ensures NetAll(log) == NetBelow(log, n)
    decreases |log|
  {
    if |log| == 0 {
      NothingReported(log, n);
    } else {
      var rest, r := log[..|log| - 1], log[|log| - 1];
      NetByNode(rest, n);
      NetBelowAppend(rest, r, n);
      assert log == rest + [r];
    }
  }

  lemma {:induction false} NothingReported(log: seq<Report>, n: nat)
    requires |log| == 0
    ensures NetBelow(log, n) == 0
  {
    if n > 0 {
      NothingReported(log, n - 1);
    }
  }

  lemma {:induction false} BelowMatches(log: seq<Report>, resources: map<nat, Resource>, n: nat)
    requires Matched(log, resources)
    ensures NetBelow(log, n) == SizesBelow(resources, n)
  {
    if n > 0 {
      BelowMatches(log, resources, n - 1);
    }
  }

  /** What the manager has reported in all is the total size of its resources, n being any number
      beyond all nodes. */
  lemma ReportsAreResources(log: seq<Report>, resources: map<nat, Resource>, n: nat)
    requires Matched(log, resources) && forall i | 0 <= i < |log| :: log[i].node < n
    ensures NetAll(log) == SizesBelow(resources, n)
  {
    NetByNode(log, n);
    BelowMatches(log, resources, n);
  }

  /** The answers about one node. */
  function Answers(history: seq<Answer>, node: nat): seq<bool> {
    if |history| == 0 then [] else
      var n := |history| - 1;
      Answers(history[..n], node) + if history[n].node == node then [history[n].granted] else []
  }

  lemma AnswersAppend(history: seq<Answer>, a: Answer, node: nat)
    ensures Answers(history + [a], node) == Answers(history, node) + if a.node == node then [a.granted] else []
  {
    assert (history + [a])[..|history|] == history;
  }

  /** All of them refusals, or all but the last. */
  predicate Refusals(answers: seq<bool>) {
    forall i | 0 <= i < |answers| :: !answers[i]
  }

  predicate GrantedAtLast(answers: seq<bool>) {
    |answers| > 0 && answers[|answers| - 1] && Refusals(answers[..|answers| - 1])
  }

  /** pddgpu_gtt_mgr_compatible. */
  predicate Compatible(e: Extent, size: u64, ready: bool) {
    ready && e.size >= PagesUp(size)
  }

  /** The answer is right exactly for sizes whose rounding up to pages does not overflow; above them
      PFN_UP is 0 and every node passes. */
  lemma CompatibleExactly(e: Extent, size: u64)
    requires e.size < 0x1_0000_0000
    ensures (Compatible(e, size, true) <==> e.size * PAGE_SIZE >= size) <==> size <= MOD - PAGE_SIZE
    ensures !Compatible(e, size, false)
  {
    if size > MOD - PAGE_SIZE {
      assert PagesUp(size) == 0;
    }
  }

  /** pddgpu_gtt_mgr_intersects. */
  predicate Intersects(e: Extent, place: Place, ready: bool) {
    && ready
    && var resStart := ToBytes(e.start);
       var resEnd := Add(resStart, ToBytes(e.size));
       resStart < ToBytes(place.lpfn) && ToBytes(place.fpfn) < resEnd
  }

  /** With 32-bit page numbers nothing overflows, so the test is the one VramBlocks.Intersects applies
      to the list holding just the byte range of the node. */
  lemma IntersectsAgrees(e: Extent, place: Place)
    requires e.start < 0x1_0000_0000 && e.size < 0x1_0000_0000
    ensures Intersects(e, place, true) <==>
      Crosses(Block(e.start * PAGE_SIZE, e.size * PAGE_SIZE), place.fpfn * PAGE_SIZE, place.lpfn * PAGE_SIZE)
    ensures !Intersects(e, place, false)
  {
    NoOverflow(e.start);
    NoOverflow(e.size);
    NoOverflow(place.fpfn);
    NoOverflow(place.lpfn);
  }

  /** For a non-empty node and window it holds exactly if they share a page. */
  lemma IntersectsMeansCommonPage(e: Extent, place: Place)
    requires e.start < 0x1_0000_0000 && 0 < e.size < 0x1_0000_0000 && place.fpfn < place.lpfn
    ensures Intersects(e, place, true) <==> exists p: nat :: InExtent(e, p) && place.fpfn <= p < place.lpfn
  {
    IntersectsAgrees(e, place);
    if Intersects(e, place, true) {
      var p := if e.start < place.fpfn then place.fpfn else e.start;
      assert InExtent(e, p) && place.fpfn <= p < place.lpfn;
    }
  }

  /** A place without upper limit intersects no node; for pages from fpfn on that is right if and only
      if the node ends before them. */
  lemma NoLimitNeverIntersects(e: Extent, place: Place)
    requires e.start < 0x1_0000_0000 && 0 < e.size < 0x1_0000_0000 && place.lpfn == 0
    ensures !Intersects(e, place, true)
    ensures (Intersects(e, place, true) <==> exists p: nat :: InExtent(e, p) && place.fpfn <= p) <==>
      Stop(e) <= place.fpfn
  {
    IntersectsAgrees(e, place);
    if Stop(e) > place.fpfn {
      var p := if e.start < place.fpfn then place.fpfn else e.start;
      assert InExtent(e, p) && place.fpfn <= p;
    }
  }

  /** A node that was handed out with lpfn 0 occupies no address, but its range reads as starting at
      page 0, so the test says no exactly if the place has no upper limit or starts beyond its size. */
  lemma UnplacedNodeIntersects(boSize: u64, place: Place)
    requires 0 < PagesUp(boSize) < 0x1_0000_0000
    ensures !Intersects(Extent(0, PagesUp(boSize)), place, true) <==> place.lpfn == 0 || place.fpfn >= PagesUp(boSize)
  {
    IntersectsAgrees(Extent(0, PagesUp(boSize)), place);
  }

  predicate InExtent(e: Extent, p: nat) {
    e.start <= p < e.start + e.size
  }

  /** What the invariant of the allocator means: two non-empty nodes that it calls disjoint share no page. */
  lemma DisjointExactly(e: Extent, f: Extent)
    requires e.size > 0 && f.size > 0
    ensures Disjoint(e, f) <==> !exists p: nat :: InExtent(e, p) && InExtent(f, p)
  {
    if !Disjoint(e, f) {
      var p := if e.start < f.start then f.start else e.start;
      assert InExtent(e, p) && InExtent(f, p);
    }
  }

  /** And what alignment means: no demand for 0, and else a multiple. */
  lemma AlignedExactly(start: nat, alignment: nat)
    ensures Aligned(start, alignment) <==> alignment == 0 || exists k: nat :: IsProduct(start, k, alignment)
  {
    if alignment > 0 {
      assert IsProduct(start - start % alignment, start / alignment, alignment);
      forall k: nat | IsProduct(start, k, alignment)
        ensures start % alignment == 0
      {
        ProductHasNoRest(k, alignment);
      }
    }
  }

  predicate IsProduct(x: nat, k: nat, d: nat) {
    x == k * d
  }

  lemma ProductHasNoRest(k: nat, d: nat)
    requires d > 0
    ensures (k * d) % d == 0
  {
    var e := (k * d) / d - k;
    assert ((k * d) / d) * d == k * d + e * d;
    ProductBounds(e, d);
  }

  class GttManager {
    const pages: nat                       // gtt_size >> PAGE_SHIFT, the range of the drm_mm
    var state: Flags
    var heap: set<nat>                     // nodes that kzalloc has returned and kfree has not taken
    var nodes: map<nat, Extent>            // drm_mm: the nodes inserted in it
    var resources: map<nat, Resource>      // what TTM holds
    var kfreed: multiset<nat>              // history: the nodes that kfree took, and the reports made.
    var log: seq<Report>                   // A node is named by the call that allocated it
    ghost var history: seq<Answer>         // what drm_mm has answered, in order

    ghost predicate Valid()
      reads this
    {
      Sound() && Alive() && Accounted()
    }

    /** The inserted nodes are non-empty, in range and disjoint. */
    ghost predicate Sound()
      reads this`nodes
    {
      && (forall c | c in nodes :: 0 < nodes[c].size && Stop(nodes[c]) <= pages)
      && (forall c, d | c in nodes && d in nodes && c != d :: Disjoint(nodes[c], nodes[d]))
    }

    /** Nobody refers to a node that has been freed, and a resource knows where its node lies. */
    ghost predicate Alive()
      reads this
    {
      && (forall c | c in nodes :: c in heap)
      && (forall c | c in resources :: c in heap)
      && (forall c | c in nodes && c in resources :: resources[c].extent == nodes[c])
      && (forall c | c in heap :: kfreed[c] == 0)
    }

    ghost predicate Accounted()
      reads this
    {
      Matched(log, resources)
    }

    /** Everything the manager knows about one node. */
    ghost predicate Untouched(node: nat, h: set<nat>, n: map<nat, Extent>, r: map<nat, Resource>, k: multiset<nat>)
      reads this
    {
      && (node in heap <==> node in h) && kfreed[node] == k[node]
      && (node in nodes <==> node in n) && (node in nodes ==> nodes[node] == n[node])
      && (node in resources <==> node in r) && (node in resources ==> resources[node] == r[node])
    }

    /** pddgpu_gtt_mgr_init; `mmOk` is the outcome of drm_mm_init. */
    constructor (gttSize: u64, mmOk: bool)
      ensures Valid() && pages == gttSize / PAGE_SIZE && nodes == map[] && resources == map[]
      ensures IsHealthy(state) <==> mmOk
    {
      pages := gttSize / PAGE_SIZE;
      heap, nodes, resources, kfreed, log, history := {}, map[], map[], multiset{}, [], [];
      state := if mmOk then READY else INITIALIZING.(error := true);
    }

    method Kzalloc(node: nat)
      requires Valid() && node !in heap && kfreed[node] == 0
      modifies this`heap
      ensures Valid() && heap == old(heap) + {node}
    {
      heap := heap + {node};
    }

    /** kfree: of a node that is allocated and that neither drm_mm nor TTM refers to. */
    method Kfree(node: nat)
      requires Valid() && node in heap && node !in nodes && node !in resources
      modifies this`heap, this`kfreed
      ensures Valid() && heap == old(heap) - {node} && kfreed == old(kfreed) + multiset{node}
    {
      heap, kfreed := heap - {node}, kfreed + multiset{node};
    }

    /** drm_mm_insert_node_in_range: some free aligned range inside the window, or failure, which it may
        report whether or not there is one. */
    method MmInsert(node: nat, numPages: nat, alignment: nat, place: Place) returns (ok: bool, start: nat)
      requires Valid() && node in heap && node !in nodes && node !in resources && numPages > 0
      modifies this`nodes, this`history
      ensures Valid() && history == old(history) + [Answer(node, ok)]
      ensures ok ==>
        && nodes == old(nodes)[node := Extent(start, numPages)]
        && Aligned(start, alignment) && place.fpfn <= start && start + numPages <= place.lpfn
      ensures !ok ==> nodes == old(nodes)
    {
      start := *;
      var e := Extent(start, numPages);
      ok := && Stop(e) <= pages && place.fpfn <= start && Stop(e) <= place.lpfn
            && Aligned(start, alignment) && forall c | c in nodes :: Disjoint(nodes[c], e);
      history := history + [Answer(node, ok)];
      if ok {
        nodes := nodes[node := e];
      }
    }

    /** The locked section of alloc: what drm_mm grants is kept. */
    method TryInsert(node: nat, numPages: nat, alignment: nat, place: Place) returns (o: Outcome)
      requires Valid() && node in heap && node !in nodes && node !in resources && numPages > 0
      modifies this`nodes, this`history
      ensures Valid()
      ensures o.NotReady? <==> !IsReady(state)
      ensures history == if o.NotReady? then old(history) else old(history) + [Answer(node, o.Placed?)]
      ensures o.Placed? ==>
        && nodes == old(nodes)[node := Extent(o.start, numPages)]
        && Aligned(o.start, alignment) && place.fpfn <= o.start && o.start + numPages <= place.lpfn
      ensures !o.Placed? ==> nodes == old(nodes)
    {
      if !IsReady(state) {
        return NotReady;
      }
      var ok, start := MmInsert(node, numPages, alignment, place);
      o := if ok then Placed(start) else Full;
    }

    /** update_usage and *res = &node->base. */
    method HandOut(node: nat, extent: Extent, boSize: u64)
      requires Valid() && node in heap && node !in resources && (node in nodes ==> nodes[node] == extent)
      modifies this`resources, this`log
      ensures Valid() && resources == old(resources)[node := Resource(extent, boSize)]
    {
      NetAppend(log, Report(node, boSize, true));
      log := log + [Report(node, boSize, true)];
      resources := resources[node := Resource(extent, boSize)];
    }

    /** The locked section of free. */
    method TryRemove(node: nat) returns (ok: bool)
      requires Valid()
      modifies this`nodes
      ensures Valid() && (ok <==> IsReady(state))
      ensures nodes == if ok then old(nodes) - {node} else old(nodes)
    {
      ok := IsReady(state);
      if ok && node in nodes {          // drm_mm_node_allocated
        nodes := nodes - {node};
      }
    }

    /** The rest of free: update_usage, ttm_resource_fini, kfree. */
    method Finish(node: nat)
      requires Valid() && node in resources && node !in nodes
      modifies this`resources, this`log, this`heap, this`kfreed
      ensures Valid() && resources == old(resources) - {node}
      ensures heap == old(heap) - {node} && kfreed == old(kfreed) + multiset{node}
    {
      NetAppend(log, Report(node, resources[node].boSize, false));
      log := log + [Report(node, resources[node].boSize, false)];
      resources := resources - {node};
      Kfree(node);
    }

    /** Whatever other threads do while the owner of `node` does not hold the lock: any of the steps
        above for any other node, and any store to the state word. */
    method Interfere(node: nat)
      requires Valid()
      modifies this
      ensures Valid() && Untouched(node, old(heap), old(nodes), old(resources), old(kfreed))
      ensures Answers(history, node) == old(Answers(history, node))
    {
      var n: nat := *;
      while n > 0
        invariant Valid() && Untouched(node, old(heap), old(nodes), old(resources), old(kfreed))
        invariant Answers(history, node) == old(Answers(history, node))
      {
        n := n - 1;
        var other: nat := *;
        if * {
          state := *;
        } else if 0 <= other != node {
          StepOf(other, node);
        }
      }
    }

    /** One step of another thread on its own node. */
    method StepOf(other: nat, node: nat)
      requires Valid() && other != node
      modifies this`heap, this`nodes, this`resources, this`kfreed, this`log, this`history
      ensures Valid() && Untouched(node, old(heap), old(nodes), old(resources), old(kfreed))
      ensures Answers(history, node) == old(Answers(history, node))
    {
      if other !in heap {
        if kfreed[other] == 0 {
          Kzalloc(other);
        }
      } else if other in resources {
        if other in nodes {
          var _ := TryRemove(other);
        } else {
          Finish(other);
        }
      } else if other in nodes {
        var boSize: u64 := *;
        HandOut(other, nodes[other], boSize);
      } else if * {
        Kfree(other);
      } else if * {
        var boSize: u64 := *;
        HandOut(other, Extent(0, PagesUp(boSize)), boSize);
      } else {
        var numPages: nat, alignment: nat, place: Place := *, *, *;
        if numPages > 0 {
          ghost var before := history;
          var o := TryInsert(other, numPages, alignment, place);
          AnswersAppend(before, Answer(other, o.Placed?), node);
        }
      }
    }

    /** The inserts of one alloc call. */
    method Retry(node: nat, numPages: nat, alignment: nat, place: Place) returns (o: Outcome, inserts: nat)
      requires Valid() && numPages > 0 && Answers(history, node) == []
      requires node in heap && node !in nodes && node !in resources
      modifies this
      ensures Valid() && |Answers(history, node)| == inserts <= RETRY_COUNT
      ensures if o.Placed? then GrantedAtLast(Answers(history, node)) else Refusals(Answers(history, node))
      ensures node in heap && node !in resources && kfreed[node] == old(kfreed)[node]
      ensures o.NotReady? ==> !IsReady(state)
      ensures o.Full? ==> inserts == RETRY_COUNT
      ensures if o.Placed?
        then node in nodes && nodes[node] == Extent(o.start, numPages)
          && Aligned(o.start, alignment) && place.fpfn <= o.start && o.start + numPages <= place.lpfn
        else node !in nodes
    {
      inserts := 0;
      o := Full;
      while o.Full? && inserts < RETRY_COUNT
        invariant Valid() && |Answers(history, node)| == inserts <= RETRY_COUNT
        invariant if o.Placed? then GrantedAtLast(Answers(history, node)) else Refusals(Answers(history, node))
        invariant node in heap && node !in resources && kfreed[node] == old(kfreed)[node]
        invariant o.NotReady? ==> !IsReady(state)
        invariant if o.Placed?
          then node in nodes && nodes[node] == Extent(o.start, numPages)
            && Aligned(o.start, alignment) && place.fpfn <= o.start && o.start + numPages <= place.lpfn
          else node !in nodes
        decreases RETRY_COUNT - inserts, o.Full?
      {
        Interfere(node);
        ghost var before := history;
        o := TryInsert(node, numPages, alignment, place);
        if !o.NotReady? {
          AnswersAppend(before, Answer(node, o.Placed?), node);
          assert Answers(history, node)[..inserts] == Answers(before, node);
          inserts := inserts + 1;
        }
      }
    }

    /** pddgpu_gtt_mgr_alloc.  `node` names the call, `memory` is the outcome of kzalloc and `overUse`
        says that TTM's usage exceeds man->size. */
    method Alloc(node: nat, boSize: u64, alignment: nat, place: Place, deviceShutdown: bool, memory: bool, overUse: bool)
      returns (r: Result, inserts: nat, nodeAllocated: bool)
      requires Valid() && node !in heap && kfreed[node] == 0 && Answers(history, node) == []
      modifies this
      ensures Valid() && |Answers(history, node)| == inserts <= 3
      ensures if r.Ok? && place.lpfn != 0 then GrantedAtLast(Answers(history, node)) else Refusals(Answers(history, node))
      ensures r.Failed? ==>
        && node !in heap && node !in nodes && node !in resources && Net(log, node) == 0
        && kfreed[node] == if nodeAllocated then 1 else 0
      ensures r.Ok? ==>
        && node in heap && kfreed[node] == 0
        && node in resources && resources[node].boSize == boSize && Net(log, node) == boSize
        && resources[node].extent.size == if place.lpfn == 0 then PagesUp(boSize) else NumPages(boSize)
      ensures r.Ok? && boSize <= MAX_PAGES * PAGE_SIZE ==>
        boSize <= resources[node].extent.size * PAGE_SIZE < boSize + PAGE_SIZE
      ensures boSize <= MAX_PAGES * PAGE_SIZE ==>
        (r == Failed(EINVAL) <==> !deviceShutdown && IsReady(old(state)) && boSize == 0)
      ensures r.Ok? && place.lpfn != 0 ==>
        && node in nodes && nodes[node] == resources[node].extent
        && Aligned(nodes[node].start, alignment)
        && place.fpfn <= nodes[node].start && Stop(nodes[node]) <= place.lpfn
      ensures place.lpfn == 0 ==> node !in nodes && inserts == 0
      ensures nodeAllocated <==> !deviceShutdown && IsReady(old(state)) && NumPages(boSize) > 0 && memory
      ensures !nodeAllocated ==> unchanged(this) && r == Failed(
        if deviceShutdown || !IsReady(state) then ENODEV else if NumPages(boSize) == 0 then EINVAL else ENOMEM)
      ensures nodeAllocated && !place.temporary && overUse ==> r == Failed(ENOSPC) && inserts == 0
      ensures nodeAllocated && (place.temporary || !overUse) && place.lpfn == 0 ==> r.Ok?
      ensures nodeAllocated && r == Failed(ENODEV) ==> !IsReady(state)
      ensures r == Failed(ENOSPC) ==> (!place.temporary && overUse) || inserts == 3
    {
      inserts, nodeAllocated := 0, false;
      PagesCoverExactly(boSize);
      var numPages := NumPages(boSize);
      if deviceShutdown || !IsReady(state) {
        return Failed(ENODEV), inserts, nodeAllocated;
      }
      if numPages == 0 {
        return Failed(EINVAL), inserts, nodeAllocated;
      }
      if !memory {
        return Failed(ENOMEM), inserts, nodeAllocated;
      }
      Kzalloc(node);
      nodeAllocated := true;
      if !place.temporary && overUse {
        Kfree(node);
        return Failed(ENOSPC), inserts, nodeAllocated;
      }
      if place.lpfn == 0 {
        HandOut(node, Extent(0, PagesUp(boSize)), boSize);
        return Ok, inserts, nodeAllocated;
      }
      var o: Outcome;
      o, inserts := Retry(node, numPages, alignment, place);
      if o.Placed? {
        Interfere(node);
        HandOut(node, Extent(o.start, numPages), boSize);
        r := Ok;
      } else {
        Kfree(node);
        r := Failed(if o.NotReady? then ENODEV else ENOSPC);
      }
    }

    /** pddgpu_gtt_mgr_free. */
    method Free(node: nat, deviceShutdown: bool) returns (freed: bool)
      requires Valid() && node in resources
      modifies this
      ensures Valid()
      ensures freed ==>
        && node !in heap && node !in nodes && node !in resources
        && kfreed[node] == 1 && Net(log, node) == 0
      ensures !freed ==> deviceShutdown || !IsReady(old(state)) || !IsReady(state)
      ensures deviceShutdown || !IsReady(old(state)) ==> !freed && unchanged(this)
      ensures !freed ==> Untouched(node, old(heap), old(nodes), old(resources), old(kfreed))
    {
      if deviceShutdown || !IsReady(state) {
        return false;
      }
      Interfere(node);
      var ok := TryRemove(node);
      if !ok {
        return false;
      }
      Interfere(node);
      Finish(node);
      freed := true;
    }
  }
}
