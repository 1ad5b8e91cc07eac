/**
 * The state of the tool: an ordered dict from histogram type ("mc", "data" or "sf") to an
 * ordered dict of histograms by key (working point, later kinematic bin).
 */
module Stores {
  import opened Wrappers
  import opened OrderedDicts
  import opened Histograms
  import opened WorkingPoints

  type HistDict = ODict<Key, Hist>

  type Store = ODict<string, HistDict>

  /** `CheckType`: the three histogram types the tool knows. */
  predicate CheckType(t: string)
  {
    t == "mc" || t == "data" || t == "sf"
  }
}
