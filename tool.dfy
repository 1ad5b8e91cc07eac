/**
 * The tool itself: an object holding the histogram store, the working-point order and the
 * surviving working points of each bin, whose methods update them in place. Each method runs
 * the loops of the original step by step and is proved to end in the state, or with the
 * exception, that the specification function of its module gives.
 */
module Tool {
  import opened Wrappers
  import opened Sequences
  import opened OrderedDicts
  import opened Histograms
  import opened WorkingPoints
  import opened Stores
  import Reconciliation
  import Inputs
  import Algebra
  import WpBinned
  import ScoreBinned
  import Formula

  class ScoreSFTool {
    /** `histograms_od`: type, then key, to histogram. */
    var histograms: Store
    /** `sorted_wp`: the working points, loosest first. */
    var sortedWp: seq<string>
    /** `rebinned_bins`: the working points that survived rebinning, per bin of the variable. */
    var rebinnedBins: ODict<Key, seq<string>>

    ghost predicate Valid()
      reads this
    {
      Nested(histograms) && OrderedDicts.Valid(rebinnedBins)
    }

    constructor ()
      ensures Valid()
      ensures histograms == Empty() && sortedWp == [] && rebinnedBins == Empty()
    {
      histograms := Empty();
      sortedWp := [];
      rebinnedBins := Empty();
    }

    /** `GetSortedWPs(hists)`: the names with "Loose" reverse-sorted, then those with "Medium" in
        input order, then those with "Tight" sorted. */
    method GetSortedWPs(hists: HistDict)
      modifies this`sortedWp
      ensures sortedWp == SortedWps(hists.keys)
    {
      var ks := hists.keys;
      var loose, medium, tight := [], [], [];
      for i := 0 to |ks|
        invariant loose == NamesOfTier(ks[..i], Loose)
        invariant medium == NamesOfTier(ks[..i], Medium)
        invariant tight == NamesOfTier(ks[..i], Tight)
      {
        assert ks[..i + 1][..i] == ks[..i];
        var k := ks[i];
        if k.Wp? && Contains(k.name, "Loose") {
          loose := loose + [k.name];
        } else if k.Wp? && Contains(k.name, "Medium") {
          medium := medium + [k.name];
        } else if k.Wp? && Contains(k.name, "Tight") {
          tight := tight + [k.name];
        }
      }
      assert ks[..|ks|] == ks;
      loose := Sort(loose);
      loose := Reverse(loose);
      tight := Sort(tight);
      sortedWp := loose + medium + tight;
    }

    /**
     * `InputHistograms(hists, t)`: store the histograms under type t, recompute the order of
     * working points from them, then for every stored type delete its keys outside the order
     * and delete from type t each point of the order that type lacks, which raises KeyError
     * when t no longer holds it. An unknown type changes nothing.
     */
    method InputHistograms(hists: HistDict, t: string) returns (raised: Option<PyError>)
      requires Valid() && OrderedDicts.Valid(hists)
      modifies this`histograms, this`sortedWp
      ensures Valid()
      ensures Outcome(histograms, raised) == Inputs.InputHistograms(old(histograms), hists, t)
      ensures sortedWp == if CheckType(t) then SortedWps(hists.keys) else old(sortedWp)
    {
      if !CheckType(t) {
        return None;
      }
      histograms := Set(histograms, t, hists);
      GetSortedWPs(hists);
      assert Inputs.WpKeys(sortedWp) == Inputs.Order(hists);
      var o := Reconciliation.ReconcileLoop(histograms, t, Inputs.WpKeys(sortedWp));
      histograms, raised := o.state, o.raised;
    }

    /** `ScaleHistogramsByHistogram(t, h, divide)`: every histogram of type t, in turn, multiplied
        or divided by h. */
    method ScaleHistogramsByHistogram(t: string, h: Hist, divide: bool) returns (raised: Option<PyError>)
      requires Valid()
      modifies this`histograms
      ensures Valid()
      ensures Outcome(histograms, raised) == Algebra.ScaleHistogramsByHistogram(old(histograms), t, h, divide)
    {
      if t !in histograms.vals {
        return Some(KeyError);
      }
      var d := histograms.vals[t];
      var cur := d;
      for i := 0 to |d.keys|
        invariant OrderedDicts.Valid(cur) && cur.keys == d.keys && cur.vals.Keys == d.vals.Keys
        invariant forall j :: 0 <= j < |d.keys| ==>
          cur.vals[d.keys[j]] == if j < i then Algebra.Scaled(d.vals[d.keys[j]], h, divide) else d.vals[d.keys[j]]
      {
        var k := d.keys[i];
        cur := Set(cur, k, Algebra.Scaled(cur.vals[k], h, divide));
      }
      forall k | k in d.vals ensures cur.vals[k] == Algebra.Scaled(d.vals[k], h, divide) {
        var j :| 0 <= j < |d.keys| && d.keys[j] == k;
      }
      assert cur == MapValues(d, (k, v) => Algebra.Scaled(v, h, divide));
      NestedSet(histograms, t, cur);
      histograms := Set(histograms, t, cur);
      return None;
    }

    /** `CalculateHistograms(o)`: type o rebuilt key by key from the other two; KeyError, with
        the plain copy stored, at the first key the factor type lacks. */
    method CalculateHistograms(o: string) returns (raised: Option<PyError>)
      requires Valid()
      modifies this`histograms
      ensures Valid()
      ensures Outcome(histograms, raised) == Algebra.CalculateHistograms(old(histograms), o)
    {
      var r := Algebra.CalculateLoop(histograms, o);
      histograms, raised := r.state, r.raised;
    }

    /**
     * `ConvertToWPBinnedHistograms(threshold)`: the bins of the first sf histogram; the data
     * slices of every bin, rebinned; data and mc slice histograms drawn over the survivors;
     * the store replaced by them, sf recomputed and the survivors recorded. Any exception
     * comes before the fields are assigned, so it leaves the tool as it was.
     */
    method ConvertToWPBinnedHistograms(threshold: real) returns (raised: Option<PyError>)
      requires Valid()
      modifies this`histograms, this`rebinnedBins
      ensures Valid()
      ensures (histograms, rebinnedBins, raised) == WpBinned.ConvertState(old(histograms), old(rebinnedBins), sortedWp, threshold)
    {
      histograms, rebinnedBins, raised := WpBinned.Convert(histograms, rebinnedBins, sortedWp, threshold);
    }

    /** `ConvertToScoreBinnedHistograms(score_dict)`: every histogram redrawn over the scores of
        its surviving working points; the store is replaced only when no KeyError was raised. */
    method ConvertToScoreBinnedHistograms(score: map<string, real>) returns (raised: Option<PyError>)
      requires Valid()
      modifies this`histograms
      ensures Valid()
      ensures (histograms, raised) == ScoreBinned.ScoreState(old(histograms), rebinnedBins, score)
    {
      histograms, raised := ScoreBinned.Convert(histograms, rebinnedBins, score);
    }

    /** `DumpSFTF2()`: the text of the scale-factor formula, with numbers printed by `num`. */
    method DumpSFTF2(num: real -> string) returns (r: Result<string>)
      requires Valid()
      ensures r == Formula.DumpSFTF2(histograms, rebinnedBins, num)
    {
      r := Formula.Dump(histograms, rebinnedBins, num);
    }
  }
}
