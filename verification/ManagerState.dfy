/** The state word that both managers keep (pddgpu_vram_mgr.c:87-104, 489-493, pddgpu_gtt_mgr.c:35-53,
    381-386). */
module ManagerState {
  datatype Flags = Flags(initializing: bool, ready: bool, shutdown: bool, error: bool)

  const INITIALIZING := Flags(true, false, false, false)
  const READY := Flags(false, true, false, false)
  const SHUTDOWN := Flags(false, false, true, false)

  predicate IsReady(f: Flags) {
    f.ready && !f.shutdown
  }

  predicate IsHealthy(f: Flags) {
    IsReady(f) && !f.error
  }

  /** Of the stores the managers make, only the one of READY makes a manager usable; the error bit makes
      it unhealthy but leaves it ready. */
  lemma StatesMean(f: Flags)
    ensures IsReady(READY) && !IsReady(SHUTDOWN) && !IsReady(INITIALIZING)
    ensures IsHealthy(READY) && IsReady(READY.(error := true)) && !IsHealthy(READY.(error := true))
    ensures IsHealthy(f) ==> IsReady(f)
  {
  }
}
