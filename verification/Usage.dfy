/** What the reported usage consists of, with both managers: the statistics of Conservation over the
    books of VramManager and GttManager. */
module Usage {
  import opened U64
  import MemoryStats
  import Conservation
  import VramBlocks
  import VramLedger
  import GttManager

  /** The reports that managers make in a run are those in the books of the VRAM manager, over all its
      recoveries, and in the log of the GTT manager. */
  ghost predicate Reports(ops: seq<Conservation.Op>, vramReported: int, gttLog: seq<GttManager.Report>) {
    && Conservation.ManagerNet(ops, MemoryStats.Vram) == vramReported
    && Conservation.ManagerNet(ops, MemoryStats.Tt) == GttManager.NetAll(gttLog)
  }

  /** Everything that shows in vram_used + gtt_used: the live objects, the blocks of the VRAM manager
      with the drift of its ledger and what recoveries left behind, and the resources of the GTT
      manager. */
  function Parts(bos: seq<Conservation.Bo>, live: seq<VramLedger.Resource>, log: seq<VramLedger.Entry>, order: nat,
                 lost: int, resources: map<nat, GttManager.Resource>, nodes: nat): int {
    Conservation.LiveSize(bos)
    + VramBlocks.Bytes(VramLedger.AllBlocks(live)) + VramLedger.Residue(log, VramLedger.MinBlock(order)) + lost
    + GttManager.SizesBelow(resources, nodes)
  }

  /** For every run: the two usages add up to these parts, modulo 2^64, if and only if as many bytes of
      objects were created outside VRAM and GTT as were destroyed outside them. */
  lemma UsageExactly(s: Conservation.State, ops: seq<Conservation.Op>, order: nat, size: u64, visibleSize: u64, used: u64,
                     live: seq<VramLedger.Resource>, outstanding: multiset<VramBlocks.Block>, log: seq<VramLedger.Entry>,
                     reported: int, lost: int,
                     gttLog: seq<GttManager.Report>, resources: map<nat, GttManager.Resource>, nodes: nat)
    requires Conservation.Init(s) && Conservation.Legal(s, ops) && Reports(ops, reported, gttLog)
    requires VramLedger.Books(order, size, visibleSize, used, used, live, outstanding, log, reported, lost)
    requires GttManager.Matched(gttLog, resources) && forall i | 0 <= i < |gttLog| :: gttLog[i].node < nodes
    ensures var e := Conservation.Exec(s, ops);
      Same(MemoryStats.Used(e.counters, MemoryStats.Vram) + MemoryStats.Used(e.counters, MemoryStats.Tt),
           Parts(e.live, live, log, order, lost, resources, nodes))
      <==> Same(Conservation.BornOutside(ops), Conservation.DiedOutside(s, ops))
  {
    Conservation.ConservedExactly(s, ops);
    Conservation.ManagerBook(s, ops, MemoryStats.Vram);
    Conservation.ManagerBook(s, ops, MemoryStats.Tt);
    GttManager.ReportsAreResources(gttLog, resources, nodes);
  }
}
