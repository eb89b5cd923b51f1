/** The VRAM manager (pddgpu_vram_mgr.c:86-301, 407-514).

    One part of alloc is modelled in the form its comments describe and not as it is written: when a
    block allocation fails, the blocks of this attempt are given back before the mutex is released,
    the resource structure is kept, and the next attempt starts over with the full size.  VramRetry
    models the code as written. */
module VramManager {
  import opened ManagerState
  import opened Seqs
  import opened U64
  import opened VramBlocks
  import opened VramHistory
  import opened VramLedger

  class VramManager {
    const size: u64                       // vram_size, man->size and the range of the buddy allocator
    const visibleSize: u64
    const order: nat                      // default_page_size
    var used: u64
    var visUsage: u64
    var state: Flags
    var outstanding: multiset<Block>      // what drm_buddy has handed out
    var live: seq<Resource>               // what TTM holds
    ghost var log: seq<Entry>             // the calls that reached the accounting, in order
    ghost var reported: int               // the net of all update_usage calls, which no recover resets,
    ghost var lost: int                   // and what the last recover left behind in it
    ghost var answers: seq<bool>          // what drm_buddy has answered, in order
    ghost var sections: seq<Section>      // the locked sections of all allocs, in order

    /** The sizes of the device leave room in 64 bits for one more request. */
    predicate Roomy() {
      visibleSize + size + MinBlock(order) <= MOD
    }

    ghost predicate Valid()
      reads this
    {
      Books(order, size, visibleSize, used, visUsage, live, outstanding, log, reported, lost)
    }

    /** pddgpu_vram_mgr_init; `buddyOk` is the outcome of drm_buddy_init.  The order shifts an int. */
    constructor (size: u64, visibleSize: u64, order: nat, buddyOk: bool)
      requires order <= 30
      ensures this.size == size && this.visibleSize == visibleSize && this.order == order
      ensures Valid() && used == 0 && live == [] && log == [] && reported == lost == 0
      ensures IsHealthy(state) <==> buddyOk
    {
      this.size, this.visibleSize, this.order := size, visibleSize, order;
      used, visUsage, outstanding, live, log := 0, 0, multiset{}, [], [];
      reported, lost, answers, sections := 0, 0, [], [];
      state := if buddyOk then READY else INITIALIZING.(error := true);
      new;
      MinBlockFits(order);
      BooksOpen(order, size, visibleSize, 0);
    }

    /** drm_buddy_alloc_blocks for one block: some free block, or failure, which it may report
        whether or not there is one. */
    method BuddyAlloc(blockSize: u64) returns (ok: bool, b: Block)
      requires blockSize > 0 && Sound(outstanding, size)
      modifies this`outstanding, this`answers
      ensures Sound(outstanding, size) && answers == old(answers) + [ok]
      ensures ok ==> b.size == blockSize && b !in old(outstanding) && outstanding == old(outstanding) + multiset{b}
      ensures !ok ==> outstanding == old(outstanding)
    {
      var start: u64 := *;
      b := Block(start, blockSize);
      ok := End(b) <= size && forall c | c in outstanding :: Apart(b, c);
      answers := answers + [ok];
      if ok {
        assert !Apart(b, b);
        outstanding := outstanding + multiset{b};
      }
    }

    /** drm_buddy_free_list. */
    method BuddyFree(blocks: seq<Block>)
      requires multiset(blocks) <= outstanding && Sound(outstanding, size)
      modifies this`outstanding
      ensures outstanding == old(outstanding) - multiset(blocks) && Sound(outstanding, size)
    {
      outstanding := outstanding - multiset(blocks);
      assert forall b | b in outstanding :: b in old(outstanding);
    }

    /** One iteration of the block loop: one more block, or everything given back. */
    method OneBlock(minBlock: u64, blocks: seq<Block>, ghost before: multiset<Block>) returns (ok: bool, more: seq<Block>)
      requires minBlock > 0 && Sound(outstanding, size) && outstanding == before + multiset(blocks)
      requires forall i | 0 <= i < |blocks| :: blocks[i].size == minBlock
      modifies this`outstanding, this`answers
      ensures Sound(outstanding, size) && outstanding == before + multiset(more)
      ensures answers == old(answers) + [ok] && (ok ==> |more| == |blocks| + 1)
      ensures forall i | 0 <= i < |more| :: more[i].size == minBlock
      ensures if ok then Bytes(more) == Bytes(blocks) + minBlock else more == []
    {
      var b: Block;
      ok, b := BuddyAlloc(minBlock);
      if ok {
        OneMore(blocks, b);
        more := blocks + [b];
      } else {
        BuddyFree(blocks);
        more := [];
      }
    }

    /** The block loop: as many minimum blocks as fit into the size, or none at all; and none only if
        drm_buddy has refused one. */
    method AllocBlocks(size: u64) returns (ok: bool, blocks: seq<Block>, ghost told: seq<bool>)
      requires MinBlock(order) < MOD && Sound(outstanding, this.size)
      modifies this`outstanding, this`answers
      ensures Sound(outstanding, this.size) && answers == old(answers) + told
      ensures ok ==> outstanding == old(outstanding) + multiset(blocks) && Fills(blocks, size, MinBlock(order))
      ensures ok ==> AllGranted(told) && |told| == BlockCount(size, MinBlock(order))
      ensures !ok ==> outstanding == old(outstanding)
      ensures !ok ==> LastRefused(told) && |told| <= BlockCount(size, MinBlock(order))
    {
      var minBlock: u64 := MinBlock(order);
      var remaining: u64 := size;
      blocks, told := [], [];
      while remaining >= minBlock
        invariant Sound(outstanding, this.size)
        invariant outstanding == old(outstanding) + multiset(blocks)
        invariant forall i | 0 <= i < |blocks| :: blocks[i].size == minBlock
        invariant remaining + Bytes(blocks) == size
        invariant answers == old(answers) + told && AllGranted(told) && |told| == |blocks|
      {
        RoomInCount(blocks, size, minBlock, remaining);
        ok, blocks := OneBlock(minBlock, blocks, old(outstanding));
        told := told + [ok];
        if !ok {
          return;
        }
        remaining := Sub(remaining, minBlock);
      }
      LoopDone(blocks, size, minBlock, remaining);
      ok := true;
    }

    /** One locked section of alloc.  Only its last outcome leaves a trace in the books. */
    method TryAlloc(call: nat, size: u64) returns (a: Attempt, ghost told: seq<bool>)
      requires Valid() && size % PAGE_SIZE == 0
      requires forall i | 0 <= i < |live| :: live[i].call != call
      modifies this`used, this`visUsage, this`outstanding, this`live, this`log, this`reported, this`answers, this`sections
      ensures Valid()
      ensures a.NotReady? <==> !IsReady(state)
      ensures a.NoVisible? <==> IsReady(state) && Add(old(visUsage), size) > visibleSize
      ensures answers == old(answers) + told && sections == old(sections) + [Section(call, told, a)]
      ensures Decided(Section(call, told, a), BlockCount(size, MinBlock(order)))
      ensures !a.Accounted? ==>
        unchanged(this`used, this`visUsage, this`outstanding, this`live, this`log, this`reported)
      ensures a.Accounted? ==>
        && used == Add(old(used), size) && (Roomy() ==> used == old(used) + size)
        && reported == old(reported) + size
        && log == old(log) + [Entry(call, size)]
        && live == WithResource(old(live), call, a.blocks)
        && Fills(a.blocks, size, MinBlock(order))
    {
      a, told := LockedSection(call, size);
      LogSection(call, told, a);
    }

    method LockedSection(call: nat, size: u64) returns (a: Attempt, ghost told: seq<bool>)
      requires Valid() && size % PAGE_SIZE == 0
      requires forall i | 0 <= i < |live| :: live[i].call != call
      modifies this`used, this`visUsage, this`outstanding, this`live, this`log, this`reported, this`answers
      ensures Valid()
      ensures a.NotReady? <==> !IsReady(state)
      ensures a.NoVisible? <==> IsReady(state) && Add(old(visUsage), size) > visibleSize
      ensures answers == old(answers) + told && Decided(Section(call, told, a), BlockCount(size, MinBlock(order)))
      ensures !a.Accounted? ==>
        unchanged(this`used, this`visUsage, this`outstanding, this`live, this`log, this`reported)
      ensures a.Accounted? ==>
        && used == Add(old(used), size) && (Roomy() ==> used == old(used) + size)
        && reported == old(reported) + size
        && log == old(log) + [Entry(call, size)]
        && live == WithResource(old(live), call, a.blocks)
        && Fills(a.blocks, size, MinBlock(order))
    {
      if !IsReady(state) {
        return NotReady, [];
      }
      if Add(visUsage, size) > visibleSize {
        return NoVisible, [];
      }
      a, told := AllocAndAccount(call, size);
    }

    ghost method LogSection(call: nat, told: seq<bool>, a: Attempt)
      requires Valid()
      modifies this`sections
      ensures Valid() && sections == old(sections) + [Section(call, told, a)]
    {
      sections := sections + [Section(call, told, a)];
    }

    /** The rest of the locked section, once the request is taken to fit into visible VRAM. */
    method AllocAndAccount(call: nat, size: u64) returns (a: Attempt, ghost told: seq<bool>)
      requires Valid() && Add(visUsage, size) <= visibleSize && size % PAGE_SIZE == 0
      requires forall i | 0 <= i < |live| :: live[i].call != call
      modifies this`used, this`visUsage, this`outstanding, this`live, this`log, this`reported, this`answers
      ensures Valid() && (a.NoBlocks? || a.Accounted?)
      ensures answers == old(answers) + told && Decided(Section(call, told, a), BlockCount(size, MinBlock(order)))
      ensures a.NoBlocks? ==>
        unchanged(this`used, this`visUsage, this`outstanding, this`live, this`log, this`reported)
      ensures a.Accounted? ==>
        && used == Add(old(used), size) && (Roomy() ==> used == old(used) + size)
        && reported == old(reported) + size
        && log == old(log) + [Entry(call, size)]
        && live == WithResource(old(live), call, a.blocks)
        && Fills(a.blocks, size, MinBlock(order))
    {
      var ok, blocks;
      ok, blocks, told := AllocBlocks(size);
      if ok {
        GrantedIsDecided(call, told, blocks, BlockCount(size, MinBlock(order)));
        Account(call, size, blocks, old(outstanding));
        a := Accounted(blocks);
      } else {
        RefusedIsDecided(call, told, BlockCount(size, MinBlock(order)));
        a := NoBlocks;
      }
    }

    method Account(call: nat, size: u64, blocks: seq<Block>, ghost before: multiset<Block>)
      requires Books(order, this.size, visibleSize, used, visUsage, live, before, log, reported, lost)
      requires Sound(outstanding, this.size) && outstanding == before + multiset(blocks)
      requires Add(visUsage, size) <= visibleSize && size % PAGE_SIZE == 0 && Fills(blocks, size, MinBlock(order))
      requires forall i | 0 <= i < |live| :: live[i].call != call
      modifies this`used, this`visUsage, this`live, this`log, this`reported
      ensures Valid()
      ensures used == Add(old(used), size) && (Roomy() ==> used == old(used) + size)
      ensures reported == old(reported) + size && log == old(log) + [Entry(call, size)]
      ensures live == WithResource(old(live), call, blocks)
    {
      BooksAdd(order, this.size, visibleSize, used, live, before, outstanding, log, reported, lost, call, size, blocks);
      Record(call, size, blocks);
    }

    /** The accounting at the end of the locked section: the full size, whatever was allocated. */
    method Record(call: nat, size: u64, blocks: seq<Block>)
      modifies this`used, this`visUsage, this`live, this`log, this`reported
      ensures used == Add(old(used), size) && visUsage == Add(old(visUsage), size)
      ensures live == WithResource(old(live), call, blocks) && log == old(log) + [Entry(call, size)]
      ensures reported == old(reported) + size
    {
      used := Add(used, size);
      visUsage := Add(visUsage, size);
      reported := reported + size;
      log := log + [Entry(call, size)];
      live := WithResource(live, call, blocks);
    }

    /** The locked section of free, for the i-th live resource. */
    method FreeLocked(i: nat, freedSize: u64) returns (freed: bool)
      requires Valid() && i < |live| && freedSize == Bytes(live[i].blocks)
      modifies this`used, this`visUsage, this`outstanding, this`live, this`reported
      ensures Valid()
      ensures freed <==> IsReady(state)
      ensures !freed ==> unchanged(this)
      ensures freed ==>
        && live == Without(old(live), i)
        && outstanding == old(outstanding) - multiset(old(live)[i].blocks)
        && used == Sub(old(used), freedSize) && (Roomy() ==> used == old(used) - freedSize)
        && reported == old(reported) - freedSize
    {
      if !IsReady(state) {
        return false;
      }
      Release(i, freedSize);
      freed := true;
    }

    method Release(i: nat, freedSize: u64)
      requires Valid() && i < |live| && freedSize == Bytes(live[i].blocks)
      modifies this`used, this`visUsage, this`outstanding, this`live, this`reported
      ensures Valid() && live == Without(old(live), i)
      ensures outstanding == old(outstanding) - multiset(old(live)[i].blocks)
      ensures used == Sub(old(used), freedSize) && (Roomy() ==> used == old(used) - freedSize)
      ensures reported == old(reported) - freedSize
    {
      BooksRemove(order, size, visibleSize, used, live, outstanding, log, reported, lost, i, freedSize);
      BuddyFree(live[i].blocks);
      Unrecord(i, freedSize);
    }

    method Unrecord(i: nat, freedSize: u64)
      requires i < |live|
      modifies this`used, this`visUsage, this`live, this`reported
      ensures used == Sub(old(used), freedSize) && visUsage == Sub(old(visUsage), freedSize)
      ensures live == Without(old(live), i) && reported == old(reported) - freedSize
    {
      used := Sub(used, freedSize);
      visUsage := Sub(visUsage, freedSize);
      reported := reported - freedSize;
      live := Without(live, i);
    }

    /** The state stores of fini and of a failing init or recover. */
    method SetState(s: Flags)
      requires Valid()
      modifies this`state
      ensures Valid() && state == s
    {
      state := s;
    }

    /** Whatever other threads do while the call `call` does not hold the mutex, with no recover in
        flight. */
    method Interfere(call: nat)
      requires Valid()
      modifies this
      ensures Valid() && Held(live, call) == old(Held(live, call)) && Entries(log, call) == old(Entries(log, call))
      ensures Sections(sections, call) == old(Sections(sections, call))
    {
      var n: nat := *;
      while n > 0
        invariant Valid()
        invariant Held(live, call) == old(Held(live, call)) && Entries(log, call) == old(Entries(log, call))
        invariant Sections(sections, call) == old(Sections(sections, call))
      {
        n := n - 1;
        if * {
          OtherAlloc(call);
        } else if * {
          OtherFree(call);
        } else {
          var s: Flags := *;
          SetState(s);
        }
      }
    }

    method OtherAlloc(call: nat)
      requires Valid()
      modifies this`used, this`visUsage, this`outstanding, this`live, this`log, this`reported, this`answers, this`sections
      ensures Valid() && Held(live, call) == old(Held(live, call)) && Entries(log, call) == old(Entries(log, call))
      ensures Sections(sections, call) == old(Sections(sections, call))
    {
      var other: nat := *;
      var size: u64 := *;
      if && other != call && size % PAGE_SIZE == 0
         && forall i | 0 <= i < |live| :: live[i].call != other {
        ghost var before := sections;
        var a, told := TryAlloc(other, size);
        SectionsAppend(before, Section(other, told, a), call);
        if a.Accounted? {
          OthersUnaffected(old(live), old(log), Entry(other, size), a.blocks, call);
        }
      }
    }

    method OtherFree(call: nat)
      requires Valid()
      modifies this`used, this`visUsage, this`outstanding, this`live, this`reported
      ensures Valid() && Held(live, call) == old(Held(live, call))
    {
      var i: nat := *;
      if 0 <= i < |live| && live[i].call != call {
        var freedSize := SizeOf(i);
        RemoveHeld(live, i, call);
        var _ := FreeLocked(i, freedSize);
      }
    }

    /** The size that free adds up before it takes the mutex. */
    method SizeOf(i: nat) returns (freedSize: u64)
      requires Valid() && i < |live|
      ensures freedSize == Bytes(live[i].blocks)
    {
      RemoveBlocks(live, i);
      SoundSequence(live[i].blocks, outstanding, size);
      freedSize := BlocksSize(live[i].blocks, size);
    }

    /** The attempts of one alloc call. */
    method Retry(call: nat, size: u64) returns (r: Result, attempts: nat)
      requires Valid() && Held(live, call) == [] && Entries(log, call) == [] && Sections(sections, call) == []
      requires size % PAGE_SIZE == 0
      modifies this
      ensures Valid() && Concluded(Sections(sections, call), r, attempts, BlockCount(size, MinBlock(order)))
      ensures r == Failed(ENODEV) ==> !IsReady(state)
      ensures r == Failed(ENOMEM) ==>
        Add(visUsage, size) > visibleSize || attempts == RETRY_COUNT || size < MinBlock(order)
      ensures r.Allocated? ==>
        && Entries(log, call) == [Entry(call, size)]
        && exists blocks :: AllocatedAs(live, call, blocks, r.start, size, MinBlock(order))
      ensures r.Failed? ==> Held(live, call) == []
      ensures r.Failed? && Entries(log, call) != [] ==>
        r.error == ENOMEM && size < MinBlock(order) && Entries(log, call) == [Entry(call, size)]
    {
      attempts := 0;
      while attempts < RETRY_COUNT
        invariant Valid() && attempts <= RETRY_COUNT
        invariant Held(live, call) == [] && Entries(log, call) == []
        invariant AllRefused(Sections(sections, call), attempts, BlockCount(size, MinBlock(order)))
      {
        Interfere(call);
        NotHeld(live, call);
        ghost var before, logBefore, sectionsBefore := live, log, sections;
        var a, told := TryAlloc(call, size);
        SectionsAppend(sectionsBefore, Section(call, told, a), call);
        OneMoreSection(Sections(sectionsBefore, call), Section(call, told, a), attempts, BlockCount(size, MinBlock(order)));
        attempts := attempts + 1;
        if a.NotReady? {
          return Failed(ENODEV), attempts;
        } else if a.NoVisible? {
          return Failed(ENOMEM), attempts;
        } else if a.Accounted? {
          LogAppend(logBefore, Entry(call, size), call, MinBlock(order));
          LiveAppend(before, Resource(call, a.blocks), call);
          if a.blocks == [] {
            NoMinimumBlock(size, MinBlock(order));
            return Failed(ENOMEM), attempts;
          }
          assert AllocatedAs(live, call, a.blocks, a.blocks[0].start, size, MinBlock(order));
          return Allocated(a.blocks[0].start), attempts;
        }
      }
      r := Failed(ENOMEM);
    }

    /** pddgpu_vram_mgr_alloc, by the call number `call`, which no call has used before.
        `memory` is the outcome of kzalloc. */
    method Alloc(call: nat, boSize: u64, kernel: bool, deviceShutdown: bool, memory: bool)
      returns (r: Result, attempts: nat)
      requires Valid() && Held(live, call) == [] && Entries(log, call) == [] && Sections(sections, call) == []
      modifies this
      ensures Valid() && |Sections(sections, call)| == attempts
      ensures attempts > 0 ==> Concluded(Sections(sections, call), r, attempts, BlockCount(PageUp(boSize), MinBlock(order)))
      ensures attempts == 0 <==> deviceShutdown || !IsReady(old(state)) || !Admits(size, kernel, boSize) || !memory
      ensures attempts == 0 ==>
        unchanged(this) && r == Failed(if deviceShutdown || !IsReady(state) then ENODEV else ENOMEM)
      ensures attempts > 0 && r == Failed(ENODEV) ==> !IsReady(state)
      ensures attempts > 0 && r == Failed(ENOMEM) ==>
        || Add(visUsage, PageUp(boSize)) > visibleSize
        || attempts == RETRY_COUNT
        || PageUp(boSize) < MinBlock(order)
      ensures r.Allocated? ==>
        && Entries(log, call) == [Entry(call, PageUp(boSize))]
        && exists blocks :: AllocatedAs(live, call, blocks, r.start, PageUp(boSize), MinBlock(order))
      ensures r.Failed? ==> Held(live, call) == []
      ensures r.Failed? && Entries(log, call) != [] ==>
        r.error == ENOMEM && PageUp(boSize) < MinBlock(order) && Entries(log, call) == [Entry(call, PageUp(boSize))]
    {
      attempts := 0;
      if deviceShutdown || !IsReady(state) {
        return Failed(ENODEV), 0;
      }
      if !Admits(size, kernel, boSize) || !memory {
        return Failed(ENOMEM), 0;
      }
      r, attempts := Retry(call, PageUp(boSize));
    }

    /** pddgpu_vram_mgr_free of the resource that the call `call` allocated. */
    method Free(call: nat, deviceShutdown: bool) returns (freed: bool)
      requires Valid() && Held(live, call) != []
      modifies this
      ensures Valid()
      ensures Held(live, call) == if freed then [] else old(Held(live, call))
      ensures freed ==> IsReady(state)
      ensures deviceShutdown || !IsReady(old(state)) ==> !freed && unchanged(this)
      ensures !freed ==> deviceShutdown || !IsReady(old(state)) || !IsReady(state)
    {
      if deviceShutdown || !IsReady(state) {
        return false;
      }
      var i := Find(call);
      var freedSize := SizeOf(i);
      HeldOnce(live, i);
      Interfere(call);
      i := Find(call);
      HeldOnce(live, i);
      ghost var before := live;
      freed := FreeLocked(i, freedSize);
      if freed {
        RemovedNotHeld(before, i);
      }
    }

    method Find(call: nat) returns (i: nat)
      requires Valid() && Held(live, call) != []
      ensures i < |live| && live[i].call == call
    {
      ghost var at := HeldAt(live, call);
      i := 0;
      while live[i].call != call
        invariant i <= at < |live|
        decreases at - i
      {
        i := i + 1;
      }
    }

    /** The first half of recover, up to the release of the mutex: a fresh allocator.  READY stays as
        it was. */
    method RecoverInit(deviceShutdown: bool, buddyOk: bool) returns (ok: bool)
      requires Valid()
      modifies this`outstanding, this`state
      ensures ok <==> !deviceShutdown && buddyOk
      ensures outstanding == if ok then multiset{} else old(outstanding)
      ensures state == if deviceShutdown then old(state) else old(state).(error := !buddyOk)
      ensures Valid() <==> !ok || live == []
    {
      if deviceShutdown {
        return false;
      }
      state := state.(error := false);
      if !buddyOk {
        state := state.(error := true);
        return false;
      }
      BooksForgotten(order, size, visibleSize, used, live, outstanding, log, reported, lost);
      outstanding := multiset{};
      ok := true;
    }

    /** The second half, without the mutex: both counters and the state word. */
    method RecoverReset()
      modifies this`used, this`visUsage, this`log, this`lost, this`state
      ensures used == visUsage == 0 && log == [] && lost == reported && state == READY
      ensures Valid() <==> MinBlock(order) < MOD && live == [] && outstanding == multiset{}
    {
      BooksReset(order, size, visibleSize, live, outstanding, reported);
      used, visUsage, log, lost := 0, 0, [], reported;
      state := READY;
    }

    /** No alloc can get a block. */
    predicate Closed()
      reads this`state, this`used
    {
      !IsReady(state) || size < MinBlock(order) || (Roomy() && used + MinBlock(order) > visibleSize)
    }

    /** What allocs and frees in flight, and fini, do between the two halves of a recover. */
    method Meanwhile(inFlight: bool)
      requires Valid() && live == []
      modifies this
      ensures Valid()
      ensures !inFlight || old(Closed()) ==> live == []
    {
      ghost var closed := Closed();
      var n: nat := *;
      while n > 0 && inFlight
        invariant Valid() && (!inFlight || closed ==> live == []) && (closed ==> Closed())
      {
        n := n - 1;
        if * {
          RacingAlloc();
        } else if * {
          var i: nat := *;
          if 0 <= i < |live| {
            var freedSize := SizeOf(i);
            var _ := FreeLocked(i, freedSize);
          }
        } else {
          SetState(SHUTDOWN);
        }
      }
    }

    method RacingAlloc()
      requires Valid()
      modifies this`used, this`visUsage, this`outstanding, this`live, this`log, this`reported, this`answers, this`sections
      ensures Valid() && (old(Closed()) && old(live) == [] ==> Closed() && live == [])
    {
      var call: nat := *;
      var request: u64 := *;
      if request % PAGE_SIZE == 0 && forall i | 0 <= i < |live| :: live[i].call != call {
        var _ := AllocWhenClosed(call, request);
      }
    }

    /** A locked section that changes nothing but drift if no alloc can get a block. */
    method AllocWhenClosed(call: nat, request: u64) returns (a: Attempt)
      requires Valid() && request % PAGE_SIZE == 0 && forall i | 0 <= i < |live| :: live[i].call != call
      modifies this`used, this`visUsage, this`outstanding, this`live, this`log, this`reported, this`answers, this`sections
      ensures Valid()
      ensures old(Closed()) ==> Closed() && live == old(live)
    {
      ghost var told;
      a, told := TryAlloc(call, request);
      if a.Accounted? && |a.blocks| > 0 {
        FilledFits(live, outstanding, size, request, MinBlock(order));
        RoomyBound(used, visUsage, visibleSize, Roomy(), live, log, MinBlock(order));
      }
    }

    /** pddgpu_vram_mgr_recover.  It looks neither at what TTM holds nor at what is in flight, and keeps
        the books exactly if no resource is live at its first half and none at its second.  That is
        so if none is live when it starts and no alloc is in flight or none can get a block.  (With a
        resource live the books are wrong from the first half on, and what others do then is left
        out.) */
    method Recover(deviceShutdown: bool, buddyOk: bool, inFlight: bool) returns (ok: bool)
      requires Valid()
      modifies this
      ensures ok <==> !deviceShutdown && buddyOk
      ensures ok ==> state == READY && used == visUsage == 0 && log == [] && lost == reported
      ensures Valid() <==> !ok || (old(live) == [] && live == [])
      ensures ok && old(live) == [] && (!inFlight || old(Closed())) ==> Valid() && live == [] && outstanding == multiset{}
      ensures !ok ==> used == old(used) && visUsage == old(visUsage) && outstanding == old(outstanding)
      ensures !ok ==> live == old(live) && log == old(log)
      ensures !ok ==> state == if deviceShutdown then old(state) else old(state).(error := true)
    {
      ok := RecoverInit(deviceShutdown, buddyOk);
      if !ok {
        return;
      }
      Between(inFlight);
      RecoverReset();
    }

    /** The time between the two halves. */
    method Between(inFlight: bool)
      requires live == [] ==> Valid()
      modifies this
      ensures old(live) != [] ==> live != []
      ensures old(live) == [] ==> MinBlock(order) < MOD && (live == [] ==> outstanding == multiset{})
      ensures old(live) == [] && (!inFlight || old(Closed())) ==> live == []
    {
      if |live| == 0 {
        Meanwhile(inFlight);
        EmptyMeansUnowned(live, outstanding, size);
      }
    }

    /** The race: with nothing live, an alloc between the two halves.  If it gets blocks, both counters
        are zero afterwards with a resource live. */
    method RaceWithRecover(call: nat, request: u64) returns (a: Attempt)
      requires Valid() && live == [] && request % PAGE_SIZE == 0 && request >= MinBlock(order)
      modifies this
      ensures a.Accounted? ==>
        && !Valid() && used == visUsage == 0
        && |a.blocks| > 0 && live == [Resource(call, a.blocks)] && Owned(live, outstanding, size)
    {
      var _ := RecoverInit(false, true);
      ghost var told;
      a, told := TryAlloc(call, request);
      if a.Accounted? {
        AtLeastOne(request, MinBlock(order));
      }
      RecoverReset();
    }

    /** Freeing that resource takes both counters below zero. */
    method FreeAfterRace(call: nat, request: u64) returns (a: Attempt, freedSize: u64)
      requires Valid() && live == [] && request % PAGE_SIZE == 0 && request >= MinBlock(order)
      modifies this
      ensures a.Accounted? ==> freedSize > 0 && used == visUsage == MOD - freedSize && live == []
    {
      freedSize := 0;
      a := RaceWithRecover(call, request);
      if a.Accounted? {
        freedSize := FreeUncounted();
      }
    }

    method FreeUncounted() returns (freedSize: u64)
      requires Owned(live, outstanding, size) && |live| == 1 && used == visUsage == 0
      modifies this`used, this`visUsage, this`outstanding, this`live, this`reported
      ensures freedSize > 0 && used == visUsage == MOD - freedSize && live == []
    {
      OnlyResource(live, outstanding, size);
      freedSize := BlocksSize(live[0].blocks, size);
      BuddyFree(live[0].blocks);
      Unrecord(0, freedSize);
    }
  }

  lemma EmptyMeansUnowned(live: seq<Resource>, outstanding: multiset<Block>, size: u64)
    ensures |live| == 0 ==> (Owned(live, outstanding, size) <==> outstanding == multiset{})
  {
  }

  /** What free relies on when one resource is live. */
  lemma OnlyResource(live: seq<Resource>, outstanding: multiset<Block>, size: u64)
    requires Owned(live, outstanding, size) && |live| == 1
    ensures multiset(live[0].blocks) <= outstanding
    ensures PairwiseApart(live[0].blocks) && Inside(live[0].blocks, size) && Bytes(live[0].blocks) > 0
    ensures |Without(live, 0)| == 0
  {
    RemoveKeepsOwned(live, outstanding, size, 0);
    SoundSequence(live[0].blocks, outstanding, size);
    SomeBytes(live[0].blocks);
  }

  /** On a roomy device the counter is within visible VRAM. */
  lemma RoomyBound(used: u64, visUsage: u64, visibleSize: u64, roomy: bool, live: seq<Resource>, log: seq<Entry>, m: nat)
    requires m > 0 && Counted(used, visUsage, visibleSize, roomy, live, log, m)
    ensures roomy ==> used <= visibleSize
  {
  }

  lemma AtLeastOne(size: nat, minBlock: nat)
    requires 0 < minBlock <= size
    ensures size / minBlock > 0
  {
  }

  /** What a successful alloc leaves behind: one resource, of as many minimum blocks as fit. */
  ghost predicate AllocatedAs(live: seq<Resource>, call: nat, blocks: seq<Block>, start: u64, size: nat, minBlock: nat)
    requires minBlock > 0
  {
    && Held(live, call) == [Resource(call, blocks)]
    && |blocks| > 0 && blocks[0].start == start
    && Fills(blocks, size, minBlock)
  }

  lemma NoMinimumBlock(size: nat, minBlock: nat)
    requires minBlock > 0 && size / minBlock == 0
    ensures size < minBlock
  {
  }

  lemma {:induction false} NotHeld(live: seq<Resource>, call: nat)
    requires Held(live, call) == []
    ensures forall i | 0 <= i < |live| :: live[i].call != call
  {
    if |live| > 0 {
      NotHeld(live[..|live| - 1], call);
    }
  }

  lemma RemovedNotHeld(live: seq<Resource>, i: nat)
    requires Distinct(live) && i < |live|
    ensures Held(Without(live, i), live[i].call) == []
  {
    var rest := Without(live, i);
    assert forall j | 0 <= j < |rest| :: rest[j] == live[if j < i then j else j + 1];
    HeldNone(rest, live[i].call);
  }
}
