/** The books of the VRAM manager as values: who holds which block, and what has been accounted
    (pddgpu_vram_mgr.c:105-301). */
module VramLedger {
  import opened Seqs
  import opened U64
  import opened VramBlocks

  /** A resource handed to TTM by the alloc call `call`. */
  datatype Resource = Resource(call: nat, blocks: seq<Block>)

  /** An alloc call that reached the accounting, with the size it added. */
  datatype Entry = Entry(call: nat, size: nat)

  function Power2(k: nat): (p: nat)
    ensures p > 0
  {
    if k == 0 then 1 else 2 * Power2(k - 1)
  }

  /** min_block_size: PAGE_SIZE << default_page_size. */
  function MinBlock(order: nat): (m: nat)
    ensures m >= PAGE_SIZE
  {
    PAGE_SIZE * Power2(order)
  }

  /** The whole minimum blocks in a size. */
  function BlockCount(size: nat, minBlock: nat): nat
    requires minBlock > 0
  {
    size / minBlock
  }

  /** That is one page for order 0, and twice as much for each order more. */
  lemma MinBlockDoubles(order: nat)
    ensures MinBlock(0) == 4096 && MinBlock(order + 1) == 2 * MinBlock(order)
  {
  }

  lemma {:induction false} Power2Grows(j: nat, k: nat)
    requires j <= k
    ensures Power2(j) <= Power2(k)
  {
    if j < k {
      Power2Grows(j, k - 1);
    }
  }

  lemma {:induction false} Power2Sum(j: nat, k: nat)
    ensures Power2(j + k) == Power2(j) * Power2(k)
  {
    if k > 0 {
      Power2Sum(j, k - 1);
      DoubleProduct(Power2(j), Power2(k - 1));
    }
  }

  lemma DoubleProduct(x: int, y: int)
    ensures 2 * (x * y) == x * (2 * y)
  {
  }

  /** default_page_size is used to shift an int, so it is at most 30; then nothing overflows. */
  lemma MinBlockFits(order: nat)
    requires order <= 30
    ensures MinBlock(order) < MOD
  {
    Power2Grows(order, 30);
    assert Power2(5) == 32;
    Power2Sum(5, 5);
    Power2Sum(10, 10);
    Power2Sum(20, 10);
  }

  /** PFN_UP(size) << PAGE_SHIFT, in u64. */
  function PageUp(size: u64): (r: u64)
    ensures r % PAGE_SIZE == 0
  {
    Add(size, PAGE_SIZE - 1) / PAGE_SIZE * PAGE_SIZE
  }

  /** Rounding up to pages, short of the last page of the address space, where it wraps to nothing. */
  lemma PageUpMeaning(size: u64)
    ensures size <= MOD - PAGE_SIZE ==> size <= PageUp(size) < size + PAGE_SIZE
    ensures size > MOD - PAGE_SIZE ==> PageUp(size) == 0
  {
  }

  const VM_RESERVED_VRAM: u64 := 0x1000_0000    // PDDGPU_VM_RESERVED_VRAM, 256 MB

  /** max_bytes: the largest object the size check of alloc admits. */
  function MaxBytes(vramSize: u64, kernel: bool): u64 {
    if kernel then vramSize else Sub(vramSize, VM_RESERVED_VRAM)
  }

  predicate Admits(vramSize: u64, kernel: bool, boSize: u64) {
    boSize <= MaxBytes(vramSize, kernel)
  }

  /** The size check keeps objects to the size of VRAM exactly for kernel objects and for VRAM that has
      room for the reservation; below 256 MB the subtraction wraps. */
  lemma MaxBytesExactly(vramSize: u64, kernel: bool)
    ensures (forall boSize: u64 | Admits(vramSize, kernel, boSize) :: boSize <= vramSize) <==>
      kernel || VM_RESERVED_VRAM <= vramSize
    ensures forall boSize: u64 :: kernel || VM_RESERVED_VRAM <= vramSize ==>
      (Admits(vramSize, kernel, boSize) <==> boSize + (if kernel then 0 else 256 * 1024 * 1024) <= vramSize)
  {
    if !kernel && vramSize < VM_RESERVED_VRAM {
      var boSize := MaxBytes(vramSize, kernel);
      assert Admits(vramSize, kernel, boSize) && boSize > vramSize;
    }
  }

  /** For instance, with 128 MB of VRAM it admits an object of 1 GB. */
  lemma SmallVramAdmitsMore()
    ensures var mega: u64 := 0x10_0000; Admits(128 * mega, false, 1024 * mega)
  {
  }

  function AllBlocks(live: seq<Resource>): seq<Block> {
    if |live| == 0 then [] else AllBlocks(live[..|live| - 1]) + live[|live| - 1].blocks
  }

  /** The part of each accounted size that no block backs. */
  function Residue(log: seq<Entry>, minBlock: nat): nat
    requires minBlock > 0
  {
    if |log| == 0 then 0 else Residue(log[..|log| - 1], minBlock) + log[|log| - 1].size % minBlock
  }

  /** The resources a call holds, and the accounting entries it made. */
  function Held(live: seq<Resource>, call: nat): seq<Resource> {
    if |live| == 0 then [] else
      Held(live[..|live| - 1], call) + if live[|live| - 1].call == call then [live[|live| - 1]] else []
  }

  function Entries(log: seq<Entry>, call: nat): seq<Entry> {
    if |log| == 0 then [] else
      Entries(log[..|log| - 1], call) + if log[|log| - 1].call == call then [log[|log| - 1]] else []
  }

  lemma LiveAppend(live: seq<Resource>, r: Resource, call: nat)
    ensures AllBlocks(live + [r]) == AllBlocks(live) + r.blocks
    ensures Held(live + [r], call) == Held(live, call) + if r.call == call then [r] else []
  {
    assert (live + [r])[..|live|] == live;
  }

  lemma LogAppend(log: seq<Entry>, e: Entry, call: nat, minBlock: nat)
    requires minBlock > 0
    ensures Residue(log + [e], minBlock) == Residue(log, minBlock) + e.size % minBlock
    ensures Entries(log + [e], call) == Entries(log, call) + if e.call == call then [e] else []
  {
    assert (log + [e])[..|log|] == log;
  }

  /** `from` is `rest` and `taken` shuffled together. */
  ghost predicate Splits(from: seq<Block>, rest: seq<Block>, taken: seq<Block>) {
    multiset(from) == multiset(rest) + multiset(taken) && Bytes(from) == Bytes(rest) + Bytes(taken)
  }

  lemma SplitsAppend(from: seq<Block>, rest: seq<Block>, taken: seq<Block>, more: seq<Block>)
    requires Splits(from, rest, taken)
    ensures Splits(from + more, rest + more, taken)
  {
    BytesAppend(from, more);
    BytesAppend(rest, more);
  }

  lemma RemoveLastBlocks(live: seq<Resource>)
    requires |live| > 0
    ensures var n := |live| - 1; Splits(AllBlocks(live), AllBlocks(Without(live, n)), live[n].blocks)
  {
    var n := |live| - 1;
    BytesAppend(AllBlocks(live[..n]), live[n].blocks);
    assert Without(live, n) == live[..n];
  }

  lemma RemoveBlocksStep(live: seq<Resource>, i: nat)
    requires i < |live| - 1
    requires var init := live[..|live| - 1]; Splits(AllBlocks(init), AllBlocks(Without(init, i)), live[i].blocks)
    ensures Splits(AllBlocks(live), AllBlocks(Without(live, i)), live[i].blocks)
  {
    var n := |live| - 1;
    WithoutInit(live, i);
    LiveAppend(Without(live[..n], i), live[n], 0);
    SplitsAppend(AllBlocks(live[..n]), AllBlocks(Without(live[..n], i)), live[i].blocks, live[n].blocks);
  }

  lemma {:induction false} RemoveBlocks(live: seq<Resource>, i: nat)
    requires i < |live|
    ensures Splits(AllBlocks(live), AllBlocks(Without(live, i)), live[i].blocks)
    decreases |live|
  {
    var n := |live| - 1;
    if i < n {
      RemoveBlocks(live[..n], i);
      RemoveBlocksStep(live, i);
    } else {
      RemoveLastBlocks(live);
    }
  }

  lemma {:induction false} RemoveHeld(live: seq<Resource>, i: nat, call: nat)
    requires i < |live| && live[i].call != call
    ensures Held(Without(live, i), call) == Held(live, call)
    decreases |live|
  {
    var n := |live| - 1;
    if i < n {
      RemoveHeld(live[..n], i, call);
      WithoutInit(live, i);
      LiveAppend(Without(live[..n], i), live[n], call);
    } else {
      assert Without(live, i) == live[..n];
    }
  }

  lemma {:induction false} HeldOnce(live: seq<Resource>, i: nat)
    requires i < |live| && Distinct(live)
    ensures Held(live, live[i].call) == [live[i]]
    decreases |live|
  {
    var n := |live| - 1;
    if i < n {
      HeldOnce(live[..n], i);
    } else {
      HeldNone(live[..n], live[i].call);
    }
  }

  lemma {:induction false} HeldNone(live: seq<Resource>, call: nat)
    requires forall i | 0 <= i < |live| :: live[i].call != call
    ensures Held(live, call) == []
  {
    if |live| > 0 {
      HeldNone(live[..|live| - 1], call);
    }
  }

  lemma {:induction false} HeldAt(live: seq<Resource>, call: nat) returns (i: nat)
    requires Held(live, call) != []
    ensures i < |live| && live[i].call == call
    decreases |live|
  {
    var n := |live| - 1;
    if live[n].call == call {
      i := n;
    } else {
      i := HeldAt(live[..n], call);
    }
  }

  predicate Distinct(live: seq<Resource>) {
    forall i, j | 0 <= i < j < |live| :: live[i].call != live[j].call
  }

  /** The allocator's outstanding blocks lie in VRAM and do not overlap. */
  ghost predicate Sound(outstanding: multiset<Block>, size: u64) {
    && (forall b | b in outstanding :: outstanding[b] == 1 && 0 < b.size && End(b) <= size)
    && (forall b, c | b in outstanding && c in outstanding && b != c :: Apart(b, c))
  }

  /** Ownership: the outstanding blocks are exactly the blocks of the live resources. */
  ghost predicate Partitioned(live: seq<Resource>, outstanding: multiset<Block>) {
    outstanding == multiset(AllBlocks(live)) && Distinct(live)
  }

  /** The ledger: used bytes are the bytes in live blocks plus the drift. */
  ghost predicate Balanced(used: u64, live: seq<Resource>, log: seq<Entry>, minBlock: nat)
    requires minBlock > 0
  {
    used == Total(live, log, minBlock)
  }

  /** As many blocks of the minimum size as fit into a size. */
  predicate Fills(blocks: seq<Block>, size: nat, minBlock: nat)
    requires minBlock > 0
  {
    && |blocks| == size / minBlock
    && Bytes(blocks) == size - size % minBlock
    && forall i | 0 <= i < |blocks| :: blocks[i].size == minBlock
  }

  /** The same modulo 2^64, which holds whatever the counter has gone through. */
  predicate Congruent(used: u64, live: seq<Resource>, log: seq<Entry>, minBlock: nat)
    requires minBlock > 0
  {
    used == Wrap(Total(live, log, minBlock))
  }

  /** The bytes in live blocks plus the drift. */
  function Total(live: seq<Resource>, log: seq<Entry>, minBlock: nat): nat
    requires minBlock > 0
  {
    Bytes(AllBlocks(live)) + Residue(log, minBlock)
  }

  lemma TotalGrows(live: seq<Resource>, log: seq<Entry>, minBlock: nat, e: Entry, blocks: seq<Block>)
    requires minBlock > 0 && Fills(blocks, e.size, minBlock)
    ensures Total(WithResource(live, e.call, blocks), log + [e], minBlock) == Total(live, log, minBlock) + e.size
  {
    LiveAppend(live, Resource(e.call, blocks), e.call);
    BytesAppend(AllBlocks(live), blocks);
    LogAppend(log, e, e.call, minBlock);
  }

  lemma TotalShrinks(live: seq<Resource>, log: seq<Entry>, minBlock: nat, i: nat)
    requires minBlock > 0 && i < |live|
    ensures Total(live, log, minBlock) == Total(Without(live, i), log, minBlock) + Bytes(live[i].blocks)
  {
    RemoveBlocks(live, i);
  }

  predicate NonEmpty(live: seq<Resource>) {
    forall i | 0 <= i < |live| :: |live[i].blocks| > 0
  }

  /** The blocks of a resource hold the whole object exactly if its rounded size is a multiple of the
      minimum block; otherwise the rest of it has no memory. */
  lemma BlocksHoldObjectExactly(blocks: seq<Block>, boSize: u64, order: nat)
    requires boSize <= MOD - PAGE_SIZE && Fills(blocks, PageUp(boSize), MinBlock(order))
    ensures Bytes(blocks) >= boSize <==> PageUp(boSize) % MinBlock(order) == 0
  {
    PageUpMeaning(boSize);
    RestIsPages(PageUp(boSize), order);
  }

  /** The part of a page-sized request that no minimum block covers is whole pages. */
  lemma RestIsPages(size: nat, order: nat)
    requires size % PAGE_SIZE == 0
    ensures size % MinBlock(order) == 0 || size % MinBlock(order) >= PAGE_SIZE
  {
    var m, p := MinBlock(order), Power2(order);
    var q, rest := size / m, size % m;
    var e := size / PAGE_SIZE - q * p;
    assert q * m == PAGE_SIZE * (q * p);
    assert rest == PAGE_SIZE * e;
  }

  function WithResource(live: seq<Resource>, call: nat, blocks: seq<Block>): seq<Resource> {
    if |blocks| == 0 then live else live + [Resource(call, blocks)]
  }

  /** What one call does is invisible to the books of another. */
  lemma OthersUnaffected(live: seq<Resource>, log: seq<Entry>, e: Entry, blocks: seq<Block>, call: nat)
    requires e.call != call
    ensures Held(WithResource(live, e.call, blocks), call) == Held(live, call)
    ensures Entries(log + [e], call) == Entries(log, call)
  {
    LiveAppend(live, Resource(e.call, blocks), call);
    LogAppend(log, e, call, 1);
  }

  lemma AddKeepsPartition(live: seq<Resource>, outstanding: multiset<Block>, call: nat, blocks: seq<Block>)
    requires Partitioned(live, outstanding) && forall i | 0 <= i < |live| :: live[i].call != call
    ensures Partitioned(WithResource(live, call, blocks), outstanding + multiset(blocks))
  {
    LiveAppend(live, Resource(call, blocks), call);
  }

  /** Accounting the whole size for the blocks that fit into it shifts the drift by the rest. */
  lemma AddKeepsBalance(used: u64, live: seq<Resource>, log: seq<Entry>, minBlock: nat, e: Entry, blocks: seq<Block>)
    requires minBlock > 0 && Balanced(used, live, log, minBlock) && used + e.size < MOD
    requires Fills(blocks, e.size, minBlock)
    ensures Balanced(used + e.size, WithResource(live, e.call, blocks), log + [e], minBlock)
    ensures PageSized(log) && e.size % PAGE_SIZE == 0 ==> PageSized(log + [e])
  {
    TotalGrows(live, log, minBlock, e, blocks);
  }

  /** The same modulo 2^64. */
  lemma AddKeepsCongruence(used: u64, live: seq<Resource>, log: seq<Entry>, minBlock: nat, e: Entry, blocks: seq<Block>)
    requires minBlock > 0 && Congruent(used, live, log, minBlock) && e.size < MOD
    requires Fills(blocks, e.size, minBlock)
    ensures Congruent(Add(used, e.size), WithResource(live, e.call, blocks), log + [e], minBlock)
    ensures PageSized(log) && e.size % PAGE_SIZE == 0 ==> PageSized(log + [e])
  {
    TotalGrows(live, log, minBlock, e, blocks);
    WrapSmall(e.size);
    AddIsWrap(Total(live, log, minBlock), e.size);
  }

  /** If the sizes of the device leave room in 64 bits for one more request, the addition does not
      wrap: whatever could be allocated is no larger than VRAM and a minimum block. */
  lemma RoomForOneMore(live: seq<Resource>, outstanding: multiset<Block>, size: u64, minBlock: nat,
                       call: nat, blocks: seq<Block>, requested: u64)
    requires minBlock > 0 && Fills(blocks, requested, minBlock) && Sound(outstanding, size)
    requires Partitioned(WithResource(live, call, blocks), outstanding)
    ensures requested < size + minBlock
  {
    LiveBlocksFit(WithResource(live, call, blocks), outstanding, size);
    LiveAppend(live, Resource(call, blocks), call);
    BytesAppend(AllBlocks(live), blocks);
  }

  lemma RemoveKeepsPartition(live: seq<Resource>, outstanding: multiset<Block>, i: nat)
    requires Partitioned(live, outstanding) && i < |live|
    ensures multiset(live[i].blocks) <= outstanding
    ensures Partitioned(Without(live, i), outstanding - multiset(live[i].blocks))
  {
    RemoveBlocks(live, i);
    RemoveDistinct(live, i);
  }

  /** Freeing a live resource never takes the counter below zero, and leaves the drift alone. */
  lemma RemoveKeepsBalance(used: u64, live: seq<Resource>, log: seq<Entry>, minBlock: nat, i: nat)
    requires minBlock > 0 && Balanced(used, live, log, minBlock) && i < |live|
    ensures Bytes(live[i].blocks) <= used
    ensures Balanced(used - Bytes(live[i].blocks), Without(live, i), log, minBlock)
  {
    TotalShrinks(live, log, minBlock, i);
  }

  lemma RemoveKeepsCongruence(used: u64, live: seq<Resource>, log: seq<Entry>, minBlock: nat, i: nat, freed: u64)
    requires minBlock > 0 && Congruent(used, live, log, minBlock) && i < |live| && freed == Bytes(live[i].blocks)
    ensures Congruent(Sub(used, freed), Without(live, i), log, minBlock)
  {
    TotalShrinks(live, log, minBlock, i);
    WrapSmall(freed);
    SubIsWrap(Total(live, log, minBlock), freed);
  }

  lemma RemoveKeepsNonEmpty(live: seq<Resource>, i: nat)
    requires NonEmpty(live) && i < |live|
    ensures NonEmpty(Without(live, i))
  {
    var rest := Without(live, i);
    assert forall j | 0 <= j < |rest| :: rest[j] == live[if j < i then j else j + 1];
  }

  lemma RemoveDistinct(live: seq<Resource>, i: nat)
    requires Distinct(live) && i < |live|
    ensures Distinct(Without(live, i))
  {
    var rest := Without(live, i);
    assert forall j | 0 <= j < |rest| :: rest[j] == live[if j < i then j else j + 1];
  }

  predicate PageSized(log: seq<Entry>) {
    forall i | 0 <= i < |log| :: log[i].size % PAGE_SIZE == 0
  }

  /** With order 0 the ledger does not drift at all. */
  lemma {:induction false} OrderZeroIsExact(used: u64, live: seq<Resource>, log: seq<Entry>)
    requires Balanced(used, live, log, MinBlock(0)) && PageSized(log)
    ensures used == Bytes(AllBlocks(live))
  {
    NoResidue(log);
  }

  /** It is exact even then if the sizes of the device leave no room: the bytes in live blocks never
      come near 2^64. */
  lemma OrderZeroNeverWraps(used: u64, live: seq<Resource>, log: seq<Entry>, outstanding: multiset<Block>, size: u64)
    requires Congruent(used, live, log, MinBlock(0)) && PageSized(log)
    requires Sound(outstanding, size) && Partitioned(live, outstanding)
    ensures used == Bytes(AllBlocks(live)) <= size
  {
    NoResidue(log);
    LiveBlocksFit(live, outstanding, size);
    WrapSmall(Bytes(AllBlocks(live)));
  }

  lemma {:induction false} NoResidue(log: seq<Entry>)
    requires PageSized(log)
    ensures Residue(log, MinBlock(0)) == 0
  {
    if |log| > 0 {
      NoResidue(log[..|log| - 1]);
    }
  }

  lemma {:induction false} SomeResidue(log: seq<Entry>, i: nat, minBlock: nat)
    requires i < |log| && minBlock > 0
    ensures Residue(log, minBlock) >= log[i].size % minBlock
  {
    if i < |log| - 1 {
      SomeResidue(log[..|log| - 1], i, minBlock);
    }
  }

  lemma {:induction false} ResidueFree(log: seq<Entry>, minBlock: nat)
    requires minBlock > 0 && forall i | 0 <= i < |log| :: log[i].size % minBlock == 0
    ensures Residue(log, minBlock) == 0
  {
    if |log| > 0 {
      ResidueFree(log[..|log| - 1], minBlock);
    }
  }

  /** For any order: the live bytes never exceed the counter, and the ledger is exact if and only if
      every size that was ever accounted is a multiple of the minimum block. */
  lemma DriftExactly(used: u64, live: seq<Resource>, log: seq<Entry>, minBlock: nat)
    requires minBlock > 0 && Balanced(used, live, log, minBlock)
    ensures Bytes(AllBlocks(live)) <= used
    ensures used == Bytes(AllBlocks(live)) <==> forall i | 0 <= i < |log| :: log[i].size % minBlock == 0
  {
    if i :| 0 <= i < |log| && log[i].size % minBlock != 0 {
      SomeResidue(log, i, minBlock);
    } else {
      ResidueFree(log, minBlock);
    }
  }

  lemma BlockOwner(live: seq<Resource>, i: nat, b: Block)
    requires i < |live|
    ensures multiset(AllBlocks(live))[b] >= multiset(live[i].blocks)[b]
  {
    RemoveBlocks(live, i);
  }

  lemma BlockOwners(live: seq<Resource>, i: nat, j: nat, b: Block)
    requires i < |live| && j < |live| && i != j
    ensures multiset(AllBlocks(live))[b] >= multiset(live[i].blocks)[b] + multiset(live[j].blocks)[b]
  {
    var k := RemainingAt(live, i, j);
    RemoveBlocks(live, i);
    BlockOwner(Without(live, i), k, b);
  }

  lemma RemainingAt(live: seq<Resource>, i: nat, j: nat) returns (k: nat)
    requires i < |live| && j < |live| && i != j
    ensures k < |Without(live, i)| && Without(live, i)[k] == live[j]
  {
    k := if j < i then j else j - 1;
  }

  /** No block is owned twice: not by two resources, nor twice by one. */
  lemma OwnedOnce(live: seq<Resource>, outstanding: multiset<Block>, size: u64, i: nat, j: nat, b: Block)
    requires Sound(outstanding, size) && Partitioned(live, outstanding)
    requires i < |live| && j < |live| && b in live[i].blocks && b in live[j].blocks
    ensures i == j && multiset(live[i].blocks)[b] == 1
  {
    assert multiset(live[i].blocks)[b] >= 1 && multiset(live[j].blocks)[b] >= 1;
    BlockOwner(live, i, b);
    assert b in outstanding;
    if i != j {
      BlockOwners(live, i, j, b);
    }
  }

  /** All blocks of all live resources together fit into VRAM without overlapping. */
  lemma LiveBlocksFit(live: seq<Resource>, outstanding: multiset<Block>, size: u64)
    requires Sound(outstanding, size) && Partitioned(live, outstanding)
    ensures PairwiseApart(AllBlocks(live)) && Inside(AllBlocks(live), size) && Bytes(AllBlocks(live)) <= size
  {
    SoundSequence(AllBlocks(live), outstanding, size);
    ApartFit(AllBlocks(live), size);
  }

  lemma SoundSequence(blocks: seq<Block>, outstanding: multiset<Block>, size: u64)
    requires Sound(outstanding, size) && multiset(blocks) <= outstanding
    ensures PairwiseApart(blocks) && Inside(blocks, size)
  {
    forall i, j | 0 <= i < j < |blocks|
      ensures Apart(blocks[i], blocks[j])
    {
      assert blocks[i] in multiset(blocks) && blocks[j] in multiset(blocks);
      if blocks[i] == blocks[j] {
        TwicePresent(blocks, i, j);
      }
    }
    forall i | 0 <= i < |blocks|
      ensures 0 < blocks[i].size && End(blocks[i]) <= size
    {
      assert blocks[i] in multiset(blocks);
    }
  }

  lemma TwicePresent(blocks: seq<Block>, i: nat, j: nat)
    requires i < j < |blocks| && blocks[i] == blocks[j]
    ensures multiset(blocks)[blocks[i]] >= 2
  {
    assert blocks == blocks[..j] + [blocks[j]] + blocks[j + 1..];
    assert blocks[..j][i] == blocks[i];
    assert blocks[i] in multiset(blocks[..j]);
  }

  /** Equal blocks: their total, and how many there are. */
  lemma {:induction false} UniformBytes(blocks: seq<Block>, m: nat)
    requires forall i | 0 <= i < |blocks| :: blocks[i].size == m
    ensures Bytes(blocks) == |blocks| * m
  {
    if |blocks| > 0 {
      UniformBytes(blocks[..|blocks| - 1], m);
    }
  }

  /** What the block loop has at its end: as many blocks as fit. */
  lemma LoopDone(blocks: seq<Block>, size: nat, m: nat, rest: nat)
    requires m > 0 && Bytes(blocks) + rest == size && rest < m
    requires forall i | 0 <= i < |blocks| :: blocks[i].size == m
    ensures Fills(blocks, size, m)
  {
    UniformBytes(blocks, m);
    CountOfBlocks(size, m, |blocks|, rest);
  }

  /** While a block still fits, the count is not reached. */
  lemma RoomInCount(blocks: seq<Block>, size: nat, m: nat, rest: nat)
    requires m > 0 && Bytes(blocks) + rest == size && rest >= m
    requires forall i | 0 <= i < |blocks| :: blocks[i].size == m
    ensures |blocks| < size / m
  {
    UniformBytes(blocks, m);
    FitsInQuotient(|blocks|, size, m);
  }

  lemma FitsInQuotient(k: nat, size: nat, m: nat)
    requires m > 0 && k * m + m <= size
    ensures k < size / m
  {
    var e := size / m - k;
    assert (size / m) * m == k * m + m + (e - 1) * m;
    ProductBounds(e - 1, m);
  }

  lemma OneMore(blocks: seq<Block>, b: Block)
    ensures Bytes(blocks + [b]) == Bytes(blocks) + b.size
    ensures multiset(blocks + [b]) == multiset(blocks) + multiset{b}
  {
    assert (blocks + [b])[..|blocks|] == blocks;
  }

  lemma CountOfBlocks(size: nat, m: nat, n: nat, rest: nat)
    requires m > 0 && size == n * m + rest && rest < m
    ensures n == size / m && rest == size % m
  {
    var e := size / m - n;
    assert (size / m) * m == n * m + e * m;
    ProductBounds(e, m);
  }

  /** Re-initializing the allocator forgets every block, so the books agree afterwards exactly if no
      resource was live. */
  lemma EmptyBooksExactly(live: seq<Resource>)
    requires NonEmpty(live) && Distinct(live)
    ensures Partitioned(live, multiset{}) <==> |live| == 0
  {
    if |live| > 0 {
      var n := |live| - 1;
      var b := live[n].blocks[0];
      assert multiset(live[n].blocks)[b] >= 1;
      BlockOwner(live, n, b);
    }
  }

  // ----- the invariant of the manager, as predicates on its fields -----

  /** Who holds which block. */
  ghost predicate Owned(live: seq<Resource>, outstanding: multiset<Block>, size: u64) {
    Sound(outstanding, size) && Partitioned(live, outstanding) && NonEmpty(live)
  }

  /** The counters: always right modulo 2^64, and on a roomy device exactly right and bounded. */
  ghost predicate Counted(used: u64, visUsage: u64, visibleSize: u64, roomy: bool,
                          live: seq<Resource>, log: seq<Entry>, minBlock: nat)
    requires minBlock > 0
  {
    && used == visUsage && PageSized(log) && Congruent(used, live, log, minBlock)
    && (roomy ==> Balanced(used, live, log, minBlock) && used <= visibleSize)
  }

  lemma AddKeepsOwned(live: seq<Resource>, before: multiset<Block>, outstanding: multiset<Block>, size: u64,
                      call: nat, blocks: seq<Block>)
    requires Owned(live, before, size) && Sound(outstanding, size) && outstanding == before + multiset(blocks)
    requires forall i | 0 <= i < |live| :: live[i].call != call
    ensures Owned(WithResource(live, call, blocks), outstanding, size)
  {
    AddKeepsPartition(live, before, call, blocks);
    AddKeepsNonEmpty(live, call, blocks);
  }

  lemma AddKeepsNonEmpty(live: seq<Resource>, call: nat, blocks: seq<Block>)
    requires NonEmpty(live)
    ensures NonEmpty(WithResource(live, call, blocks))
  {
  }

  lemma AddKeepsCounted(used: u64, visibleSize: u64, size: u64, live: seq<Resource>, log: seq<Entry>, minBlock: nat,
                        e: Entry, blocks: seq<Block>, outstanding: multiset<Block>)
    requires minBlock > 0 && e.size < MOD && e.size % PAGE_SIZE == 0 && Fills(blocks, e.size, minBlock)
    requires Counted(used, used, visibleSize, visibleSize + size + minBlock <= MOD, live, log, minBlock)
    requires Owned(WithResource(live, e.call, blocks), outstanding, size) && Add(used, e.size) <= visibleSize
    ensures visibleSize + size + minBlock <= MOD ==> used + e.size < MOD
    ensures Counted(Add(used, e.size), Add(used, e.size), visibleSize, visibleSize + size + minBlock <= MOD,
                    WithResource(live, e.call, blocks), log + [e], minBlock)
  {
    AddKeepsCongruence(used, live, log, minBlock, e, blocks);
    if visibleSize + size + minBlock <= MOD {
      RoomForOneMore(live, outstanding, size, minBlock, e.call, blocks, e.size);
      AddKeepsBalance(used, live, log, minBlock, e, blocks);
    }
  }

  lemma RemoveKeepsOwned(live: seq<Resource>, outstanding: multiset<Block>, size: u64, i: nat)
    requires Owned(live, outstanding, size) && i < |live|
    ensures multiset(live[i].blocks) <= outstanding
    ensures Owned(Without(live, i), outstanding - multiset(live[i].blocks), size)
  {
    RemoveKeepsPartition(live, outstanding, i);
    RemoveKeepsNonEmpty(live, i);
    assert forall b | b in outstanding - multiset(live[i].blocks) :: b in outstanding;
  }

  lemma RemoveKeepsCounted(used: u64, visibleSize: u64, roomy: bool, live: seq<Resource>, log: seq<Entry>, minBlock: nat,
                           i: nat, freed: u64)
    requires minBlock > 0 && i < |live| && freed == Bytes(live[i].blocks)
    requires Counted(used, used, visibleSize, roomy, live, log, minBlock)
    ensures roomy ==> freed <= used
    ensures Counted(Sub(used, freed), Sub(used, freed), visibleSize, roomy, Without(live, i), log, minBlock)
  {
    RemoveKeepsCongruence(used, live, log, minBlock, i, freed);
    if roomy {
      RemoveKeepsBalance(used, live, log, minBlock, i);
    }
  }

  /** With nothing live and nothing logged, zero is the right count. */
  lemma EmptyIsCounted(visibleSize: u64, roomy: bool, minBlock: nat)
    requires minBlock > 0
    ensures Counted(0, 0, visibleSize, roomy, [], [], minBlock)
  {
    WrapSmall(0);
  }

  /** The invariant of the manager: who holds what, the counters, and the reports made to the
      statistics, added up without wrap-around, `lost` of them before the last recover. */
  ghost predicate Books(order: nat, size: u64, visibleSize: u64, used: u64, visUsage: u64,
                        live: seq<Resource>, outstanding: multiset<Block>, log: seq<Entry>, reported: int, lost: int) {
    && MinBlock(order) < MOD
    && Owned(live, outstanding, size)
    && Counted(used, visUsage, visibleSize, visibleSize + size + MinBlock(order) <= MOD, live, log, MinBlock(order))
    && reported == lost + Total(live, log, MinBlock(order))
  }

  lemma BooksOpen(order: nat, size: u64, visibleSize: u64, lost: int)
    requires MinBlock(order) < MOD
    ensures Books(order, size, visibleSize, 0, 0, [], multiset{}, [], lost, lost)
  {
    EmptyIsCounted(visibleSize, visibleSize + size + MinBlock(order) <= MOD, MinBlock(order));
  }

  lemma BooksAdd(order: nat, size: u64, visibleSize: u64, used: u64, live: seq<Resource>, before: multiset<Block>,
                 outstanding: multiset<Block>, log: seq<Entry>, reported: int, lost: int,
                 call: nat, request: u64, blocks: seq<Block>)
    requires Books(order, size, visibleSize, used, used, live, before, log, reported, lost)
    requires forall i | 0 <= i < |live| :: live[i].call != call
    requires request % PAGE_SIZE == 0 && Fills(blocks, request, MinBlock(order))
    requires Add(used, request) <= visibleSize
    requires Sound(outstanding, size) && outstanding == before + multiset(blocks)
    ensures visibleSize + size + MinBlock(order) <= MOD ==> used + request < MOD
    ensures Books(order, size, visibleSize, Add(used, request), Add(used, request),
                  WithResource(live, call, blocks), outstanding, log + [Entry(call, request)], reported + request, lost)
  {
    var e := Entry(call, request);
    AddKeepsOwned(live, before, outstanding, size, call, blocks);
    AddKeepsCounted(used, visibleSize, size, live, log, MinBlock(order), e, blocks, outstanding);
    TotalGrows(live, log, MinBlock(order), e, blocks);
  }

  lemma BooksRemove(order: nat, size: u64, visibleSize: u64, used: u64, live: seq<Resource>,
                    outstanding: multiset<Block>, log: seq<Entry>, reported: int, lost: int, i: nat, freed: u64)
    requires Books(order, size, visibleSize, used, used, live, outstanding, log, reported, lost)
    requires i < |live| && freed == Bytes(live[i].blocks)
    ensures multiset(live[i].blocks) <= outstanding
    ensures visibleSize + size + MinBlock(order) <= MOD ==> freed <= used
    ensures Books(order, size, visibleSize, Sub(used, freed), Sub(used, freed),
                  Without(live, i), outstanding - multiset(live[i].blocks), log, reported - freed, lost)
  {
    RemoveKeepsOwned(live, outstanding, size, i);
    RemoveKeepsCounted(used, visibleSize, visibleSize + size + MinBlock(order) <= MOD, live, log, MinBlock(order), i, freed);
    TotalShrinks(live, log, MinBlock(order), i);
  }

  // ----- recover against allocs -----

  /** Forgetting every block is right exactly if no resource is live. */
  lemma BooksForgotten(order: nat, size: u64, visibleSize: u64, used: u64, live: seq<Resource>,
                       outstanding: multiset<Block>, log: seq<Entry>, reported: int, lost: int)
    requires Books(order, size, visibleSize, used, used, live, outstanding, log, reported, lost)
    ensures Books(order, size, visibleSize, used, used, live, multiset{}, log, reported, lost) <==> |live| == 0
  {
    EmptyBooksExactly(live);
  }

  /** So is setting the counters to zero. */
  lemma BooksReset(order: nat, size: u64, visibleSize: u64, live: seq<Resource>, outstanding: multiset<Block>, lost: int)
    ensures Books(order, size, visibleSize, 0, 0, live, outstanding, [], lost, lost) <==>
      MinBlock(order) < MOD && |live| == 0 && outstanding == multiset{}
  {
    if |live| == 0 && outstanding == multiset{} && MinBlock(order) < MOD {
      BooksOpen(order, size, visibleSize, lost);
    }
    if Books(order, size, visibleSize, 0, 0, live, outstanding, [], lost, lost) {
      ZeroCountsExactly(live, outstanding, size, visibleSize, visibleSize + size + MinBlock(order) <= MOD, MinBlock(order));
    }
  }

  /** Resetting the counters is right exactly if no resource is live at that moment. */
  lemma ZeroCountsExactly(live: seq<Resource>, outstanding: multiset<Block>, size: u64, visibleSize: u64, roomy: bool,
                          minBlock: nat)
    requires minBlock > 0 && Owned(live, outstanding, size)
    ensures Counted(0, 0, visibleSize, roomy, live, [], minBlock) <==> |live| == 0
  {
    if |live| == 0 {
      EmptyIsCounted(visibleSize, roomy, minBlock);
    } else {
      LiveHasBytes(live, outstanding, size);
      WrapSmall(Bytes(AllBlocks(live)));
      assert Total(live, [], minBlock) == Bytes(AllBlocks(live));
    }
  }

  lemma LiveHasBytes(live: seq<Resource>, outstanding: multiset<Block>, size: u64)
    requires Owned(live, outstanding, size) && |live| > 0
    ensures 0 < Bytes(AllBlocks(live)) <= size
  {
    LiveBlocksFit(live, outstanding, size);
    assert |live[|live| - 1].blocks| > 0;
    SomeBytes(AllBlocks(live));
  }

  lemma SomeBytes(blocks: seq<Block>)
    requires |blocks| > 0
    ensures Bytes(blocks) >= blocks[|blocks| - 1].size
  {
  }

  /** An alloc whose locked section falls between the two halves of a recover, with nothing live before:
      it passes the checks, gets blocks of a fresh allocator, and the reset then miscounts it. */
  ghost predicate RaceBreaks(size: u64, visibleSize: u64, minBlock: nat, ready: bool, used: u64,
                             request: u64, blocks: seq<Block>)
    requires minBlock > 0
  {
    && ready && request % PAGE_SIZE == 0 && Add(used, request) <= visibleSize
    && Fills(blocks, request, minBlock) && Sound(multiset(blocks), size)
    && !Counted(0, 0, visibleSize, visibleSize + size + minBlock <= MOD, WithResource([], 0, blocks), [], minBlock)
  }

  lemma RacedBlocks(size: u64, visibleSize: u64, minBlock: nat, ready: bool, used: u64, request: u64, blocks: seq<Block>)
    requires minBlock > 0 && RaceBreaks(size, visibleSize, minBlock, ready, used, request, blocks)
    requires visibleSize + size + minBlock <= MOD && used <= visibleSize
    ensures ready && used + minBlock <= visibleSize && minBlock <= size
  {
    EmptyIsCounted(visibleSize, true, minBlock);
    assert |blocks| > 0;
    assert blocks[0] in multiset(blocks);
    QuotientPositive(request, minBlock);
    LiveAppend([], Resource(0, blocks), 0);
    assert [] + blocks == blocks;
    RoomForOneMore([], multiset(blocks), size, minBlock, 0, blocks, request);
  }

  /** A request that got a block is at least a minimum block, and so is VRAM. */
  lemma FilledFits(live: seq<Resource>, outstanding: multiset<Block>, size: u64, request: nat, minBlock: nat)
    requires minBlock > 0 && Owned(live, outstanding, size) && |live| > 0
    requires Fills(live[|live| - 1].blocks, request, minBlock)
    ensures minBlock <= request && minBlock <= size
  {
    var n := |live| - 1;
    var b := live[n].blocks[0];
    assert multiset(live[n].blocks)[b] >= 1;
    BlockOwner(live, n, b);
    assert b in outstanding;
    QuotientPositive(request, minBlock);
  }

  lemma QuotientPositive(x: nat, d: nat)
    requires d > 0 && x / d > 0
    ensures x >= d
  {
  }

  /** Exactly when such a race can break the books: the manager is ready, one more minimum block fits
      into visible VRAM, and VRAM has room for one. */
  lemma RecoverRaceExactly(size: u64, visibleSize: u64, order: nat, ready: bool, used: u64)
    requires visibleSize + size + MinBlock(order) <= MOD && used <= visibleSize
    ensures (exists request: u64, blocks :: RaceBreaks(size, visibleSize, MinBlock(order), ready, used, request, blocks))
       <==> ready && used + MinBlock(order) <= visibleSize && MinBlock(order) <= size
  {
    var m := MinBlock(order);
    if request: u64, blocks :| RaceBreaks(size, visibleSize, m, ready, used, request, blocks) {
      RacedBlocks(size, visibleSize, m, ready, used, request, blocks);
    }
    if ready && used + m <= visibleSize && m <= size {
      OneBlockRace(size, visibleSize, order, used);
    }
  }

  lemma OneBlockRace(size: u64, visibleSize: u64, order: nat, used: u64)
    requires visibleSize + size + MinBlock(order) <= MOD
    requires used + MinBlock(order) <= visibleSize && MinBlock(order) <= size
    ensures RaceBreaks(size, visibleSize, MinBlock(order), true, used, MinBlock(order), [Block(0, MinBlock(order))])
  {
    var m: u64 := MinBlock(order);
    var blocks := [Block(0, m)];
    FirstBlock(m, size);
    assert m % PAGE_SIZE == 0;
    OwnedByOne(blocks, size);
    ZeroCountsExactly(WithResource([], 0, blocks), multiset(blocks), size, visibleSize, true, m);
  }

  lemma FirstBlock(m: u64, size: u64)
    requires 0 < m <= size
    ensures Fills([Block(0, m)], m, m) && Sound(multiset([Block(0, m)]), size)
  {
    assert [Block(0, m)][..0] == [];
    assert m / m == 1 && m % m == 0;
  }

  lemma OwnedByOne(blocks: seq<Block>, size: u64)
    requires |blocks| > 0 && Sound(multiset(blocks), size)
    ensures Owned(WithResource([], 0, blocks), multiset(blocks), size)
  {
    LiveAppend([], Resource(0, blocks), 0);
    assert WithResource([], 0, blocks) == [Resource(0, blocks)] == [] + [Resource(0, blocks)];
    assert [] + blocks == blocks;
  }
}
