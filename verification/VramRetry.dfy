/** The retry path of the VRAM alloc as it is written (pddgpu_vram_mgr.c:169-220), step by step.

    `answers(k)` says whether the k-th call of drm_buddy_alloc_blocks that this alloc makes succeeds.
    It is arbitrary, so other threads may take blocks and give them back as they like; they do give
    them back while this thread holds the mutex, since a failing alloc unlocks before it frees its
    list (lines 209-210). */
module VramRetry {
  import opened U64

  datatype Pc = Loop | Returned(ok: bool)

  /** `held` is what hangs on vres->blocks.  `freed` says that vres has been passed to kfree, and
      `touched` that it was used after that. */
  datatype State = State(pc: Pc, freed: bool, touched: bool, held: nat, remaining: nat, retries: nat, calls: nat)

  const RETRY_COUNT: nat := 3

  /** One evaluation of the loop condition with what follows it. */
  function Next(s: State, minBlock: nat, answers: nat -> bool): State {
    if s.pc.Returned? then s
    else if s.remaining < minBlock then
      s.(pc := Returned(s.held > 0), touched := s.touched || s.freed)
    else if answers(s.calls) then
      s.(held := s.held + 1, remaining := s.remaining - minBlock, touched := s.touched || s.freed, calls := s.calls + 1)
    else if 2 * minBlock <= s.remaining then
      s.(touched := s.touched || s.freed, calls := s.calls + 1)     // continue: the block size starts over
    else
      s.(held := 0, freed := true, touched := s.touched || s.freed, retries := s.retries + 1, calls := s.calls + 1,
         pc := if s.retries + 1 < RETRY_COUNT then Loop else Returned(false))
  }

  function After(size: nat, minBlock: nat, answers: nat -> bool, steps: nat): State {
    if steps == 0 then State(Loop, false, false, 0, size, 0, 0)
    else Next(After(size, minBlock, answers, steps - 1), minBlock, answers)
  }

  /** The successes among the first k calls. */
  function Count(answers: nat -> bool, k: nat): (c: nat)
    ensures c <= k
  {
    if k == 0 then 0 else Count(answers, k - 1) + if answers(k - 1) then 1 else 0
  }

  lemma {:induction false} CountGrows(answers: nat -> bool, j: nat, k: nat)
    requires j <= k
    ensures Count(answers, j) <= Count(answers, k)
  {
    if j < k {
      CountGrows(answers, j, k - 1);
    }
  }

  /** The first j calls of an alloc of n blocks leave it in its first attempt. */
  predicate FirstAttempt(n: nat, answers: nat -> bool, j: nat) {
    forall i | 0 <= i < j :: CallGoesOn(n, answers, i)
  }

  predicate CallGoesOn(n: nat, answers: nat -> bool, i: nat) {
    Count(answers, i) + 1 < n || (Count(answers, i) + 1 == n && answers(i))
  }

  lemma BlocksLeft(size: nat, minBlock: nat, c: nat)
    requires minBlock > 0
    ensures c + 1 < size / minBlock ==> 2 * minBlock <= size - c * minBlock
    ensures c + 1 == size / minBlock ==> minBlock <= size - c * minBlock < 2 * minBlock
    ensures c == size / minBlock ==> 0 <= size - c * minBlock < minBlock
  {
    var n := size / minBlock;
    assert n * minBlock <= size < n * minBlock + minBlock;
    var e := n - c;
    assert n * minBlock == c * minBlock + e * minBlock;
    ProductBounds(e, minBlock);
    ProductBounds(e - 1, minBlock);
    assert (e - 1) * minBlock == e * minBlock - minBlock;
  }

  /** The state in the first attempt, after j calls of which c succeeded. */
  predicate InFirstAttempt(s: State, size: nat, minBlock: nat, c: nat, j: nat) {
    && s.pc.Loop? && !s.freed && !s.touched && s.retries == 0
    && s.held == c && s.calls == j && s.remaining == size - c * minBlock
  }

  lemma OneCall(s: State, size: nat, minBlock: nat, answers: nat -> bool, c: nat, j: nat)
    requires minBlock > 0 && InFirstAttempt(s, size, minBlock, c, j)
    requires c + 1 < size / minBlock || (c + 1 == size / minBlock && answers(j))
    ensures InFirstAttempt(Next(s, minBlock, answers), size, minBlock, if answers(j) then c + 1 else c, j + 1)
  {
    BlocksLeft(size, minBlock, c);
    assert (c + 1) * minBlock == c * minBlock + minBlock;
  }

  lemma {:induction false} Allocating(size: nat, minBlock: nat, answers: nat -> bool, j: nat)
    requires minBlock > 0 && FirstAttempt(size / minBlock, answers, j)
    ensures InFirstAttempt(After(size, minBlock, answers, j), size, minBlock, Count(answers, j), j)
  {
    if j > 0 {
      Allocating(size, minBlock, answers, j - 1);
      assert CallGoesOn(size / minBlock, answers, j - 1);
      OneCall(After(size, minBlock, answers, j - 1), size, minBlock, answers, Count(answers, j - 1), j - 1);
    }
  }

  lemma {:induction false} TouchedForGood(size: nat, minBlock: nat, answers: nat -> bool, k: nat, steps: nat)
    requires k <= steps && After(size, minBlock, answers, k).touched
    ensures After(size, minBlock, answers, steps).touched
  {
    if k < steps {
      TouchedForGood(size, minBlock, answers, k, steps - 1);
    }
  }

  lemma {:induction false} ReturnedForGood(size: nat, minBlock: nat, answers: nat -> bool, k: nat, steps: nat)
    requires k <= steps && After(size, minBlock, answers, k).pc.Returned?
    ensures After(size, minBlock, answers, steps).pc.Returned?
  {
    if k < steps {
      ReturnedForGood(size, minBlock, answers, k, steps - 1);
    }
  }

  /** The k-th call is the first one for the last of n blocks. */
  predicate FirstForLast(n: nat, answers: nat -> bool, k: nat) {
    Count(answers, k) + 1 == n && (k == 0 || answers(k - 1))
  }

  lemma EarlierCallsGoOn(n: nat, answers: nat -> bool, k: nat)
    requires FirstForLast(n, answers, k)
    ensures FirstAttempt(n, answers, k)
  {
    forall i | 0 <= i < k
      ensures CallGoesOn(n, answers, i)
    {
      CountGrows(answers, i, k - 1);
    }
  }

  /** The last block is granted at once: the call returns it all, and has not touched freed memory. */
  lemma LastBlockGranted(size: nat, minBlock: nat, answers: nat -> bool, k: nat)
    requires minBlock > 0 && FirstForLast(size / minBlock, answers, k) && answers(k)
    ensures var s := After(size, minBlock, answers, k + 2);
      s.pc == Returned(true) && !s.touched && !s.freed && s.held == size / minBlock
  {
    EarlierCallsGoOn(size / minBlock, answers, k);
    assert CallGoesOn(size / minBlock, answers, k);
    Allocating(size, minBlock, answers, k + 1);
    BlocksLeft(size, minBlock, size / minBlock);
    assert After(size, minBlock, answers, k + 2) == Next(After(size, minBlock, answers, k + 1), minBlock, answers);
  }

  /** The last block is refused: the second attempt works on the freed vres. */
  lemma LastBlockRefused(size: nat, minBlock: nat, answers: nat -> bool, k: nat)
    requires minBlock > 0 && FirstForLast(size / minBlock, answers, k) && !answers(k)
    ensures After(size, minBlock, answers, k + 1).pc.Loop?
    ensures After(size, minBlock, answers, k + 2).touched
  {
    EarlierCallsGoOn(size / minBlock, answers, k);
    Allocating(size, minBlock, answers, k);
    BlocksLeft(size, minBlock, Count(answers, k));
    var s := After(size, minBlock, answers, k + 1);
    assert s.freed && s.pc.Loop?;
    assert After(size, minBlock, answers, k + 2) == Next(s, minBlock, answers);
  }

  /** What comes of it depends on the next answers, since the remaining size does not start over: if the
      second attempt gets a block, alloc returns the resource with that one block; if it does not and
      the third does not either, alloc gives up. */
  lemma AfterTheRefusal(size: nat, minBlock: nat, answers: nat -> bool, k: nat)
    requires minBlock > 0 && FirstForLast(size / minBlock, answers, k) && !answers(k)
    ensures answers(k + 1) ==>
      After(size, minBlock, answers, k + 3).pc == Returned(true) && After(size, minBlock, answers, k + 3).held == 1
    ensures !answers(k + 1) ==> After(size, minBlock, answers, k + 2).pc.Loop?
    ensures !answers(k + 1) && !answers(k + 2) ==> After(size, minBlock, answers, k + 3).pc == Returned(false)
    ensures !answers(k + 1) && answers(k + 2) ==>
      After(size, minBlock, answers, k + 4).pc == Returned(true) && After(size, minBlock, answers, k + 4).held == 1
  {
    EarlierCallsGoOn(size / minBlock, answers, k);
    Allocating(size, minBlock, answers, k);
    BlocksLeft(size, minBlock, Count(answers, k));
    var s0 := After(size, minBlock, answers, k);
    var s1 := After(size, minBlock, answers, k + 1);
    assert s1 == Next(s0, minBlock, answers);
    var s2 := After(size, minBlock, answers, k + 2);
    assert s2 == Next(s1, minBlock, answers);
    var s3 := After(size, minBlock, answers, k + 3);
    assert s3 == Next(s2, minBlock, answers);
    assert After(size, minBlock, answers, k + 4) == Next(s3, minBlock, answers);
  }

  /** A size below the minimum block gets no block and no memory. */
  lemma TooSmall(size: nat, minBlock: nat, answers: nat -> bool)
    requires minBlock > 0
    ensures size < minBlock <==> After(size, minBlock, answers, 1) == State(Returned(false), false, false, 0, size, 0, 0)
  {
    assert After(size, minBlock, answers, 1) == Next(After(size, minBlock, answers, 0), minBlock, answers);
  }

  lemma {:induction false} NeverForLast(n: nat, answers: nat -> bool, j: nat)
    requires n > 0 && forall k: nat :: !FirstForLast(n, answers, k)
    ensures Count(answers, j) + 1 < n
  {
    assert !FirstForLast(n, answers, j);
    if j > 0 {
      NeverForLast(n, answers, j - 1);
    }
  }

  /** The last block is never reached: the loop is never left, and the mutex never released. */
  lemma NeverLeaves(size: nat, minBlock: nat, answers: nat -> bool, steps: nat)
    requires minBlock > 0 && size / minBlock > 0
    requires forall k: nat :: !FirstForLast(size / minBlock, answers, k)
    ensures After(size, minBlock, answers, steps).pc.Loop? && !After(size, minBlock, answers, steps).freed
  {
    forall i | 0 <= i < steps
      ensures CallGoesOn(size / minBlock, answers, i)
    {
      NeverForLast(size / minBlock, answers, i);
    }
    Allocating(size, minBlock, answers, steps);
  }

  ghost predicate ReturnsSafely(size: nat, minBlock: nat, answers: nat -> bool) {
    exists k: nat :: SafeReturn(After(size, minBlock, answers, k))
  }

  predicate SafeReturn(s: State) {
    s.pc.Returned? && !s.touched
  }

  ghost predicate GrantsLast(n: nat, answers: nat -> bool) {
    n == 0 || exists k: nat :: FirstForLast(n, answers, k) && answers(k)
  }

  /** Exactly when the code as written is right, whatever the allocator and the other threads do: the
      call returns without having used freed memory if and only if its first request for the last
      block comes and is granted. */
  lemma SafeExactly(size: nat, minBlock: nat, answers: nat -> bool)
    requires minBlock > 0
    ensures ReturnsSafely(size, minBlock, answers) <==> GrantsLast(size / minBlock, answers)
  {
    var n := size / minBlock;
    if n == 0 {
      BlocksLeft(size, minBlock, 0);
      assert After(size, minBlock, answers, 1) == Next(After(size, minBlock, answers, 0), minBlock, answers);
      assert SafeReturn(After(size, minBlock, answers, 1));
    } else if k: nat :| FirstForLast(n, answers, k) {
      if answers(k) {
        LastBlockGranted(size, minBlock, answers, k);
        assert SafeReturn(After(size, minBlock, answers, k + 2));
      } else {
        LastBlockRefused(size, minBlock, answers, k);
        RefusedIsUnsafe(size, minBlock, answers, k);
        OnlyOneFirst(n, answers, k);
      }
    } else {
      forall j: nat
        ensures !SafeReturn(After(size, minBlock, answers, j))
      {
        NeverLeaves(size, minBlock, answers, j);
      }
    }
  }

  lemma RefusedIsUnsafe(size: nat, minBlock: nat, answers: nat -> bool, k: nat)
    requires After(size, minBlock, answers, k + 1).pc.Loop? && After(size, minBlock, answers, k + 2).touched
    ensures !ReturnsSafely(size, minBlock, answers)
  {
    if j: nat :| SafeReturn(After(size, minBlock, answers, j)) {
      if j <= k + 1 {
        ReturnedForGood(size, minBlock, answers, j, k + 1);
      } else {
        TouchedForGood(size, minBlock, answers, k + 2, j);
      }
    }
  }

  lemma OnlyOneFirst(n: nat, answers: nat -> bool, k: nat)
    requires FirstForLast(n, answers, k)
    ensures forall j: nat :: FirstForLast(n, answers, j) ==> j == k
  {
    forall j: nat | FirstForLast(n, answers, j)
      ensures j == k
    {
      if j < k {
        CountGrows(answers, j, k - 1);
      } else if k < j {
        CountGrows(answers, k, j - 1);
      }
    }
  }

  /** An allocator with `free` minimum blocks, none given back while an alloc of n blocks is in its first
      attempt.  What it answers after a failed attempt is left open. */
  ghost predicate HasBlocks(answers: nat -> bool, free: nat, n: nat) {
    && (forall k: nat | k <= free :: answers(k) <==> k < free)
    && (n > free + 1 ==> forall k: nat | k > free :: !answers(k))
  }

  lemma {:induction false} CountUpTo(answers: nat -> bool, free: nat, n: nat, k: nat)
    requires HasBlocks(answers, free, n) && (k <= free || n > free + 1)
    ensures Count(answers, k) == if k <= free then k else free
  {
    if k > 0 {
      CountUpTo(answers, free, n, k - 1);
    }
  }

  /** In particular, if nobody gives blocks back: the code as written is right if and only if the
      allocator has every minimum block that the size asks for. */
  lemma SafeExactlyWithEnoughBlocks(size: nat, minBlock: nat, answers: nat -> bool, free: nat)
    requires minBlock > 0 && HasBlocks(answers, free, size / minBlock)
    ensures ReturnsSafely(size, minBlock, answers) <==> size / minBlock <= free
  {
    SafeExactly(size, minBlock, answers);
    EnoughIsGranted(answers, free, size / minBlock);
  }

  lemma EnoughIsGranted(answers: nat -> bool, free: nat, n: nat)
    requires HasBlocks(answers, free, n)
    ensures GrantsLast(n, answers) <==> n <= free
  {
    if 0 < n <= free + 1 {
      var last: nat := n - 1;
      CountUpTo(answers, free, n, last);
      assert last > 0 ==> answers(last - 1);
      assert FirstForLast(n, answers, last);
      OnlyOneFirst(n, answers, last);
    } else if n > free + 1 {
      forall k: nat
        ensures !FirstForLast(n, answers, k)
      {
        CountUpTo(answers, free, n, k);
      }
    }
  }
}
