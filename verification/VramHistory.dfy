/** The history of an alloc call: its locked sections, and what drm_buddy answered in each
    (pddgpu_vram_mgr.c:170-256). */
module VramHistory {
  import opened VramBlocks
  import opened U64

  datatype Error = ENODEV | ENOMEM

  datatype Result = Allocated(start: u64) | Failed(error: Error)

  /** How one locked section of alloc ends. */
  datatype Attempt = NotReady | NoVisible | NoBlocks | Accounted(blocks: seq<Block>)

  datatype Section = Section(call: nat, told: seq<bool>, end: Attempt)

  const RETRY_COUNT: nat := 3    // PDDGPU_VRAM_ALLOC_RETRY_COUNT

  predicate AllGranted(told: seq<bool>) {
    forall i | 0 <= i < |told| :: told[i]
  }

  /** Everything was granted but the last request. */
  predicate LastRefused(told: seq<bool>) {
    |told| > 0 && !told[|told| - 1] && AllGranted(told[..|told| - 1])
  }

  /** The sections of one call. */
  function Sections(history: seq<Section>, call: nat): seq<Section> {
    if |history| == 0 then [] else
      var n := |history| - 1;
      Sections(history[..n], call) + if history[n].call == call then [history[n]] else []
  }

  lemma SectionsAppend(history: seq<Section>, s: Section, call: nat)
    ensures Sections(history + [s], call) == Sections(history, call) + if s.call == call then [s] else []
  {
    assert (history + [s])[..|history|] == history;
  }

  /** How the answers in a section decide its end, n being the number of blocks that it needs: what is
      granted is kept, and a section fails for want of blocks only if a request was refused. */
  predicate Decided(s: Section, n: nat) {
    match s.end
    case NotReady => |s.told| == 0
    case NoVisible => |s.told| == 0
    case NoBlocks => LastRefused(s.told) && |s.told| <= n
    case Accounted(blocks) => AllGranted(s.told) && |s.told| == |blocks| == n
  }

  lemma GrantedIsDecided(call: nat, told: seq<bool>, blocks: seq<Block>, n: nat)
    requires AllGranted(told) && |told| == |blocks| == n
    ensures Decided(Section(call, told, Accounted(blocks)), n)
  {
  }

  lemma RefusedIsDecided(call: nat, told: seq<bool>, n: nat)
    requires LastRefused(told) && |told| <= n
    ensures Decided(Section(call, told, NoBlocks), n)
  {
  }

  /** How its sections decide a call: the last one gives the answer, and only refusals are retried. */
  ghost predicate Concluded(sections: seq<Section>, r: Result, attempts: nat, n: nat) {
    && |sections| == attempts && 1 <= attempts <= 3
    && (forall i | 0 <= i < attempts :: Decided(sections[i], n))
    && (forall i | 0 <= i < attempts - 1 :: sections[i].end.NoBlocks?)
    && match sections[attempts - 1].end
       case NotReady => r == Failed(ENODEV)
       case NoVisible => r == Failed(ENOMEM)
       case NoBlocks => r == Failed(ENOMEM) && attempts == 3
       case Accounted(blocks) => r == if |blocks| == 0 then Failed(ENOMEM) else Allocated(blocks[0].start)
  }

  /** So far every section of the call has ended in a refusal. */
  ghost predicate AllRefused(sections: seq<Section>, attempts: nat, n: nat) {
    |sections| == attempts && forall i | 0 <= i < attempts :: Decided(sections[i], n) && sections[i].end.NoBlocks?
  }

  lemma OneMoreSection(sections: seq<Section>, s: Section, attempts: nat, n: nat)
    requires AllRefused(sections, attempts, n) && Decided(s, n) && attempts < RETRY_COUNT
    ensures s.end.NoBlocks? ==> AllRefused(sections + [s], attempts + 1, n)
    ensures s.end.NotReady? ==> Concluded(sections + [s], Failed(ENODEV), attempts + 1, n)
    ensures s.end.NoVisible? ==> Concluded(sections + [s], Failed(ENOMEM), attempts + 1, n)
    ensures s.end.NoBlocks? && attempts + 1 == RETRY_COUNT ==> Concluded(sections + [s], Failed(ENOMEM), attempts + 1, n)
    ensures s.end.Accounted? ==>
      var r := if |s.end.blocks| == 0 then Failed(ENOMEM) else Allocated(s.end.blocks[0].start);
      Concluded(sections + [s], r, attempts + 1, n)
  {
  }

  predicate FullyGranted(s: Section, n: nat) {
    |s.told| == n && AllGranted(s.told)
  }

  predicate Admitted(s: Section) {
    !s.end.NotReady? && !s.end.NoVisible?
  }

  /** What that means for a size of at least one minimum block: the call succeeds exactly if some section
      had all its requests granted; and if no section was turned away at its start, it fails exactly if
      each of three sections ended in a refusal. */
  lemma ConclusionMeaning(sections: seq<Section>, r: Result, attempts: nat, n: nat)
    requires Concluded(sections, r, attempts, n) && n > 0
    ensures r.Allocated? <==> exists i | 0 <= i < attempts :: FullyGranted(sections[i], n)
    ensures (forall i | 0 <= i < attempts :: Admitted(sections[i])) ==>
      (r == Failed(ENOMEM) <==>
        attempts == 3 && forall i | 0 <= i < attempts :: LastRefused(sections[i].told))
  {
    assert Decided(sections[attempts - 1], n);
    forall i | 0 <= i < attempts
      ensures FullyGranted(sections[i], n) <==> sections[i].end.Accounted?
    {
      assert Decided(sections[i], n);
    }
  }
}
