/** The predicates on block lists: contiguity, size, compatibility and intersection
    (pddgpu_vram_mgr.c:54-84, 345-395, pddgpu_vram_mgr.h:71-79, pddgpu_gtt_mgr.c:233-273). */
module VramBlocks {
  import opened Seqs
  import opened U64

  const PAGE_SIZE: nat := 4096

  /** A block: drm_buddy_block_offset and PAGE_SIZE << drm_buddy_block_order. */
  datatype Block = Block(start: u64, size: u64)

  type pfn = p: nat | p < 0x1_0000_0000    // place->fpfn and place->lpfn are 32 bits wide

  function End(b: Block): nat {
    b.start + b.size
  }

  predicate Contains(b: Block, x: int) {
    b.start <= x < End(b)
  }

  /** What the buddy allocator hands out lies inside the VRAM it manages. */
  predicate Inside(blocks: seq<Block>, vramSize: u64) {
    forall i | 0 <= i < |blocks| :: 0 < blocks[i].size && End(blocks[i]) <= vramSize
  }

  predicate Apart(b: Block, c: Block) {
    End(b) <= c.start || End(c) <= b.start
  }

  predicate PairwiseApart(blocks: seq<Block>) {
    forall i, j | 0 <= i < j < |blocks| :: Apart(blocks[i], blocks[j])
  }

  function Bytes(blocks: seq<Block>): nat {
    if |blocks| == 0 then 0 else Bytes(blocks[..|blocks| - 1]) + blocks[|blocks| - 1].size
  }

  predicate Covers(blocks: seq<Block>, x: int) {
    exists i | 0 <= i < |blocks| :: Contains(blocks[i], x)
  }

  /** Non-empty, and each block starts where the sizes before it add up to. */
  predicate Chained(blocks: seq<Block>) {
    |blocks| > 0 && forall i | 0 <= i < |blocks| :: ChainedAt(blocks, i)
  }

  predicate ChainedAt(blocks: seq<Block>, i: nat)
    requires i < |blocks|
  {
    blocks[i].start == blocks[0].start + Bytes(blocks[..i])
  }

  lemma BytesStep(blocks: seq<Block>, i: nat)
    requires i < |blocks|
    ensures Bytes(blocks[..i + 1]) == Bytes(blocks[..i]) + blocks[i].size
  {
    assert blocks[..i + 1][..i] == blocks[..i];
  }

  /** pddgpu_is_vram_mgr_blocks_contiguous. */
  method IsContiguous(blocks: seq<Block>, vramSize: u64) returns (r: bool)
    requires Inside(blocks, vramSize)
    ensures r <==> Chained(blocks)
  {
    if |blocks| == 0 {
      return false;
    }
    var i := 0;
    while i + 1 < |blocks|
      invariant 0 <= i < |blocks|
      invariant forall j | 0 <= j <= i :: ChainedAt(blocks, j)
    {
      var end := Add(blocks[i].start, blocks[i].size);
      assert ChainedAt(blocks, i);
      BytesStep(blocks, i);
      i := i + 1;
      if end != blocks[i].start {
        assert !ChainedAt(blocks, i);
        return false;
      }
    }
    r := true;
  }

  lemma {:induction false} ChainedEnds(blocks: seq<Block>, i: nat, j: nat)
    requires Chained(blocks) && i < j < |blocks|
    ensures End(blocks[i]) <= blocks[j].start
  {
    assert ChainedAt(blocks, j - 1) && ChainedAt(blocks, j);
    BytesStep(blocks, j - 1);
    if i < j - 1 {
      ChainedEnds(blocks, i, j - 1);
    }
  }

  lemma {:induction false} ChainedCovers(blocks: seq<Block>, n: nat, x: int) returns (i: nat)
    requires Chained(blocks) && n <= |blocks|
    requires blocks[0].start <= x < blocks[0].start + Bytes(blocks[..n])
    ensures i < n && Contains(blocks[i], x)
  {
    assert ChainedAt(blocks, n - 1);
    BytesStep(blocks, n - 1);
    if x >= blocks[n - 1].start {
      i := n - 1;
    } else {
      i := ChainedCovers(blocks, n - 1, x);
    }
  }

  lemma {:induction false} ChainedWithin(blocks: seq<Block>, i: nat, n: nat)
    requires Chained(blocks) && i < n <= |blocks|
    ensures End(blocks[i]) <= blocks[0].start + Bytes(blocks[..n])
  {
    assert ChainedAt(blocks, n - 1);
    BytesStep(blocks, n - 1);
    if i < n - 1 {
      ChainedWithin(blocks, i, n - 1);
    }
  }

  /** What contiguity buys: the blocks do not overlap, and together they are one extent. */
  lemma ContiguousIsOneExtent(blocks: seq<Block>)
    requires Chained(blocks)
    ensures PairwiseApart(blocks)
    ensures forall x: int :: Covers(blocks, x) <==> blocks[0].start <= x < blocks[0].start + Bytes(blocks)
  {
    forall i, j | 0 <= i < j < |blocks|
      ensures Apart(blocks[i], blocks[j])
    {
      ChainedEnds(blocks, i, j);
    }
    assert blocks[..|blocks|] == blocks;
    forall x: int
      ensures Covers(blocks, x) <==> blocks[0].start <= x < blocks[0].start + Bytes(blocks)
    {
      if blocks[0].start <= x < blocks[0].start + Bytes(blocks) {
        var _ := ChainedCovers(blocks, |blocks|, x);
      }
      if i :| 0 <= i < |blocks| && Contains(blocks[i], x) {
        ChainedWithin(blocks, i, |blocks|);
        if i > 0 {
          ChainedEnds(blocks, 0, i);
        }
      }
    }
  }

  lemma {:induction false} BytesAppend(a: seq<Block>, b: seq<Block>)
    ensures Bytes(a + b) == Bytes(a) + Bytes(b)
  {
    if |b| == 0 {
      assert a + b == a;
    } else {
      assert (a + b)[..|a + b| - 1] == a + b[..|b| - 1];
      BytesAppend(a, b[..|b| - 1]);
    }
  }

  lemma BytesWithout(blocks: seq<Block>, k: nat)
    requires k < |blocks|
    ensures Bytes(blocks) == Bytes(Without(blocks, k)) + blocks[k].size
  {
    var rest := blocks[k + 1..];
    BytesAppend(blocks[..k], rest);
    BytesStep(blocks, k);
    BytesAppend(blocks[..k + 1], rest);
    Rejoin(blocks, k + 1);
  }

  lemma Rejoin<T>(s: seq<T>, k: nat)
    requires k <= |s|
    ensures s[..k] + s[k..] == s
  {
  }

  lemma {:induction false} HighestBlock(blocks: seq<Block>) returns (k: nat)
    requires |blocks| > 0
    ensures k < |blocks| && forall i | 0 <= i < |blocks| :: blocks[i].start <= blocks[k].start
  {
    var n := |blocks| - 1;
    k := n;
    if n > 0 {
      var j := HighestBlock(blocks[..n]);
      assert forall i | 0 <= i < n :: blocks[i] == blocks[..n][i];
      if blocks[j].start > blocks[n].start {
        k := j;
      }
    }
  }

  /** Blocks that do not overlap cannot be larger in total than the VRAM they lie in. */
  lemma {:induction false} ApartFit(blocks: seq<Block>, limit: u64)
    requires Inside(blocks, limit) && PairwiseApart(blocks)
    ensures Bytes(blocks) <= limit
    decreases |blocks|
  {
    if |blocks| > 0 {
      var k := HighestBlock(blocks);
      var rest := Without(blocks, k);
      forall i | 0 <= i < |rest|
        ensures rest[i] == blocks[if i < k then i else i + 1] && 0 < rest[i].size && End(rest[i]) <= blocks[k].start
      {
        var i' := if i < k then i else i + 1;
        assert blocks[i'].start <= blocks[k].start && Apart(blocks[i'], blocks[k]);
      }
      ApartFit(rest, blocks[k].start);
      BytesWithout(blocks, k);
    }
  }

  /** pddgpu_vram_mgr_blocks_size, which compatible and free repeat inline.  The u64 sum does not
      overflow, because blocks of one allocator do not overlap. */
  method BlocksSize(blocks: seq<Block>, vramSize: u64) returns (size: u64)
    requires Inside(blocks, vramSize) && PairwiseApart(blocks)
    ensures size == Bytes(blocks)
  {
    size := 0;
    var i := 0;
    while i < |blocks|
      invariant 0 <= i <= |blocks| && size == Bytes(blocks[..i])
    {
      BytesStep(blocks, i);
      ApartFit(blocks[..i + 1], vramSize);
      size := Add(size, blocks[i].size);
      i := i + 1;
    }
    assert blocks[..i] == blocks;
  }

  /** pddgpu_vram_mgr_compatible. */
  method Compatible(blocks: seq<Block>, vramSize: u64, size: u64, ready: bool) returns (r: bool)
    requires Inside(blocks, vramSize) && PairwiseApart(blocks)
    ensures r <==> ready && Bytes(blocks) >= size
  {
    if !ready {
      return false;
    }
    var total := BlocksSize(blocks, vramSize);
    r := total >= size;
  }

  /** (u64)page << PAGE_SHIFT. */
  function ToBytes(page: nat): u64 {
    Wrap(page * PAGE_SIZE)
  }

  lemma NoOverflow(page: nat)
    requires page < 2 * 0x1_0000_0000
    ensures ToBytes(page) == page * PAGE_SIZE
  {
    WrapSmall(page * PAGE_SIZE);
  }

  /** The test of both managers, on byte positions. */
  predicate Crosses(b: Block, from: nat, to: nat) {
    b.start < to && from < End(b)
  }

  /** The driver's answer, and the one a caller means: a byte in some block and in the window. */
  predicate Answer(blocks: seq<Block>, fpfn: pfn, lpfn: pfn) {
    exists i | 0 <= i < |blocks| :: Crosses(blocks[i], fpfn * PAGE_SIZE, lpfn * PAGE_SIZE)
  }

  ghost predicate SharesByte(blocks: seq<Block>, from: nat, to: nat) {
    exists x: nat :: Covers(blocks, x) && from <= x < to
  }

  /** pddgpu_vram_mgr_intersects. */
  method Intersects(blocks: seq<Block>, vramSize: u64, fpfn: pfn, lpfn: pfn, ready: bool) returns (r: bool)
    requires Inside(blocks, vramSize)
    ensures r <==> ready && Answer(blocks, fpfn, lpfn)
  {
    if !ready {
      return false;
    }
    var placeStart, placeEnd := ToBytes(fpfn), ToBytes(lpfn);
    NoOverflow(fpfn);
    NoOverflow(lpfn);
    var i := 0;
    while i < |blocks|
      invariant 0 <= i <= |blocks|
      invariant forall j | 0 <= j < i :: !Crosses(blocks[j], placeStart, placeEnd)
    {
      var resStart := blocks[i].start;
      var resEnd := Add(resStart, blocks[i].size);
      if resStart < placeEnd && placeStart < resEnd {
        assert Crosses(blocks[i], placeStart, placeEnd);
        return true;
      }
      i := i + 1;
    }
    r := false;
  }

  /** For a non-empty window the answer is right: some block and the window share a byte. */
  lemma CrossesMeansCommonByte(b: Block, from: nat, to: nat)
    requires b.size > 0 && from < to
    ensures Crosses(b, from, to) <==> exists x: nat :: Contains(b, x) && from <= x < to
  {
    if Crosses(b, from, to) {
      var x := if b.start < from then from else b.start;
      assert Contains(b, x) && from <= x < to;
    }
  }

  lemma IntersectsMeansCommonByte(blocks: seq<Block>, vramSize: u64, fpfn: pfn, lpfn: pfn)
    requires Inside(blocks, vramSize) && fpfn < lpfn
    ensures Answer(blocks, fpfn, lpfn) <==> SharesByte(blocks, fpfn * PAGE_SIZE, lpfn * PAGE_SIZE)
  {
    var from, to := fpfn * PAGE_SIZE, lpfn * PAGE_SIZE;
    if i :| 0 <= i < |blocks| && Crosses(blocks[i], from, to) {
      CrossesMeansCommonByte(blocks[i], from, to);
      var x: nat :| Contains(blocks[i], x) && from <= x < to;
      assert Covers(blocks, x);
    }
    if x: nat :| Covers(blocks, x) && from <= x < to {
      var i :| 0 <= i < |blocks| && Contains(blocks[i], x);
      CrossesMeansCommonByte(blocks[i], from, to);
    }
  }

  /** Exactly when the answer is right: the window is not empty, or no block straddles it, that is,
      contains both the byte before its end and the byte at its start. */
  lemma IntersectsExactly(blocks: seq<Block>, vramSize: u64, fpfn: pfn, lpfn: pfn)
    requires Inside(blocks, vramSize)
    ensures (Answer(blocks, fpfn, lpfn) <==> SharesByte(blocks, fpfn * PAGE_SIZE, lpfn * PAGE_SIZE)) <==>
      fpfn < lpfn || !exists i | 0 <= i < |blocks| :: Straddles(blocks[i], fpfn, lpfn)
  {
    var from, to := fpfn * PAGE_SIZE, lpfn * PAGE_SIZE;
    if fpfn < lpfn {
      IntersectsMeansCommonByte(blocks, vramSize, fpfn, lpfn);
    } else {
      assert !SharesByte(blocks, from, to);
      if i :| 0 <= i < |blocks| && Crosses(blocks[i], from, to) {
        assert Straddles(blocks[i], fpfn, lpfn);
      }
      if i :| 0 <= i < |blocks| && Straddles(blocks[i], fpfn, lpfn) {
        assert Crosses(blocks[i], from, to);
      }
    }
  }

  predicate Straddles(b: Block, fpfn: pfn, lpfn: pfn) {
    Contains(b, lpfn * PAGE_SIZE - 1) && Contains(b, fpfn * PAGE_SIZE)
  }

  /** The end of the window that alloc reads from a place: lpfn 0 means no limit. */
  function Limit(lpfn: pfn, vramSize: u64): nat {
    var end := lpfn * PAGE_SIZE;
    if end == 0 || end > vramSize then vramSize else end
  }

  /** With no upper limit the answer is no for every resource, which is right about the window that
      alloc reads from the place if and only if no block reaches beyond fpfn. */
  lemma NoLimitNeverIntersects(blocks: seq<Block>, vramSize: u64, fpfn: pfn)
    requires Inside(blocks, vramSize)
    ensures !Answer(blocks, fpfn, 0)
    ensures (Answer(blocks, fpfn, 0) <==> SharesByte(blocks, fpfn * PAGE_SIZE, Limit(0, vramSize))) <==>
      forall i | 0 <= i < |blocks| :: End(blocks[i]) <= fpfn * PAGE_SIZE
  {
    var from := fpfn * PAGE_SIZE;
    if x: nat :| Covers(blocks, x) && from <= x < vramSize {
      var i :| 0 <= i < |blocks| && Contains(blocks[i], x);
      assert End(blocks[i]) > from;
    }
    if i :| 0 <= i < |blocks| && End(blocks[i]) > from {
      var x: nat := End(blocks[i]) - 1;
      var y := if x < from then from else x;
      assert Contains(blocks[i], y) && Covers(blocks, y);
    }
  }

  /** With a limit, alloc's clamping of it to the size of VRAM makes no difference. */
  lemma LimitIsTheWindow(blocks: seq<Block>, vramSize: u64, fpfn: pfn, lpfn: pfn)
    requires Inside(blocks, vramSize) && lpfn > 0
    ensures SharesByte(blocks, fpfn * PAGE_SIZE, Limit(lpfn, vramSize)) <==>
            SharesByte(blocks, fpfn * PAGE_SIZE, lpfn * PAGE_SIZE)
    ensures Limit(lpfn, vramSize) <= vramSize && Limit(lpfn, vramSize) <= lpfn * PAGE_SIZE
  {
    var from, to := fpfn * PAGE_SIZE, lpfn * PAGE_SIZE;
    if x: nat :| Covers(blocks, x) && from <= x < to {
      var i :| 0 <= i < |blocks| && Contains(blocks[i], x);
      assert x < Limit(lpfn, vramSize);
    }
  }

  /** The smallest such input: one block at the start of VRAM and a place without limits. */
  lemma NoLimitMissesEverything(size: u64)
    requires size > 0
    ensures var blocks := [Block(0, size)];
      Inside(blocks, size) && !Answer(blocks, 0, 0) && SharesByte(blocks, 0, Limit(0, size))
  {
    var blocks := [Block(0, size)];
    assert Contains(blocks[0], 0) && Covers(blocks, 0);
    NoLimitNeverIntersects(blocks, size, 0);
  }
}
