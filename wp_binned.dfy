/**
 * `ConvertToWPBinnedHistograms(rebin_threshold)`: the efficiency histograms, binned in the
 * variable and one per working point, become one histogram per bin of the variable, binned
 * in working-point slices. Slice i of a bin holds the events that pass working point i but
 * not the next surviving one: its content is the efficiency of the one minus that of the
 * other. Slices of data below the threshold are merged first (module Rebinning).
 */
module WpBinned {
  import opened Wrappers
  import opened Sequences
  import opened OrderedDicts
  import opened Histograms
  import opened WorkingPoints
  import opened Stores
  import opened Rebinning
  import Algebra

  /** The new store, and for each bin of the variable the working points that survived. */
  datatype Converted = Converted(hists: Store, rebinned: ODict<Key, seq<string>>)

  /** A stand-in for a histogram the store lacks; it is only read where no KeyError is due. */
  const Blank: Hist := Histogram([0.0], [0.0, 0.0], [0.0, 0.0])

  function Lookup(s: Store, t: string): (d: HistDict)
    requires Nested(s)
    ensures Valid(d)
  {
    if t in s.vals then s.vals[t] else Empty()
  }

  function At(d: HistDict, w: string): Hist
  {
    if Wp(w) in d.vals then d.vals[Wp(w)] else Blank
  }

  /** Every working point of `ws` has a histogram in `d`. */
  predicate HoldsAll(d: HistDict, ws: seq<string>)
  {
    forall w :: w in ws ==> Wp(w) in d.vals
  }

  /** `bins`: one key `lo to hi` per regular bin of h, from ROOT's low edges of bins i and i+1. */
  function BinKeys(h: Hist): (r: seq<Key>)
    ensures |r| == NBins(h)
  {
    seq(NBins(h), i requires 0 <= i < NBins(h) => Bin(LowEdge(h, i + 1), LowEdge(h, i + 2)))
  }

  /** The keys are the regular bins of h, the last one included: ROOT's extrapolated low edge of
      the overflow bin is the upper edge of the axis. */
  lemma BinKeysTile(h: Hist, i: nat)
    requires i < NBins(h)
    ensures BinKeys(h)[i] == Bin(h.edges[i], h.edges[i + 1])
  {
    var n := NBins(h);
    if i + 1 == n {
      calc {
        LowEdge(h, n + 1);
        h.edges[0] + n as real * (h.edges[n] - h.edges[0]) / n as real;
        h.edges[n];
      }
    }
  }

  /** The middle of a bin key, where each histogram is looked up. */
  function Mid(b: Key): real
  {
    if b.Bin? then (b.lo + b.hi) / 2.0 else 0.0
  }

  /** The efficiency of working point w at x: the content of its histogram in the bin holding x. */
  function Efficiency(d: HistDict, w: string, x: real): real
  {
    Content(At(d, w), FindBin(At(d, w), x))
  }

  /** The bin of working point i of `ls` that holds x; the source uses it for i+1 too. */
  function BinOf(d: HistDict, ls: seq<string>, i: nat, x: real): nat
    requires i < |ls|
  {
    FindBin(At(d, ls[i]), x)
  }

  /** The content of slice i: the efficiency of working point i minus that of i+1 in the same
      bin number, the last one its efficiency alone. */
  function SliceValue(d: HistDict, ls: seq<string>, i: nat, x: real): real
    requires i < |ls|
  {
    var bn := BinOf(d, ls, i, x);
    if i + 1 < |ls| then Content(At(d, ls[i]), bn) - Content(At(d, ls[i + 1]), bn) else Content(At(d, ls[i]), bn)
  }

  /** The squared error of slice i: the two errors added in quadrature, the last one alone. */
  function SliceError(d: HistDict, ls: seq<string>, i: nat, x: real): real
    requires i < |ls|
  {
    var bn := BinOf(d, ls, i, x);
    if i + 1 < |ls| then ErrorSq(At(d, ls[i]), bn) + ErrorSq(At(d, ls[i + 1]), bn) else ErrorSq(At(d, ls[i]), bn)
  }

  function SliceValues(d: HistDict, ls: seq<string>, x: real): (r: seq<real>)
    ensures |r| == |ls|
  {
    seq(|ls|, i requires 0 <= i < |ls| => SliceValue(d, ls, i, x))
  }

  function SliceErrors(d: HistDict, ls: seq<string>, x: real): (r: seq<real>)
    ensures |r| == |ls|
  {
    seq(|ls|, i requires 0 <= i < |ls| => SliceError(d, ls, i, x))
  }

  /** The histogram of one bin of the variable over the slices 0..n, bins 1..n set. */
  function SliceHist(d: HistDict, ls: seq<string>, x: real): (r: Hist)
    ensures NBins(r) == |ls|
  {
    var n := |ls|;
    Histogram(seq(n + 1, i requires 0 <= i <= n => i as real),
              [0.0] + SliceValues(d, ls, x) + [0.0],
              [0.0] + SliceErrors(d, ls, x) + [0.0])
  }

  /** The working points of one bin left by rebinning the data slices. */
  function Survivors(data: HistDict, wps: seq<string>, t: real, x: real): seq<string>
  {
    Merged(SliceValues(data, wps, x), wps, t).1
  }

  /** The data slice contents of every working point, per bin of the variable. */
  function ValuesAt(data: HistDict, wps: seq<string>): Key -> seq<real>
  {
    b => SliceValues(data, wps, Mid(b))
  }

  /** The survivors, per bin of the variable. */
  function SurvivorsAt(data: HistDict, wps: seq<string>, t: real): Key -> seq<string>
  {
    b => Survivors(data, wps, t, Mid(b))
  }

  /** The slice histogram of type d, per bin of the variable, over the working points that
      `rebinned` records for it. */
  function SliceOf(d: HistDict, rebinned: ODict<Key, seq<string>>): Key -> Hist
  {
    b => SliceHist(d, if b in rebinned.vals then rebinned.vals[b] else [], Mid(b))
  }

  /** `eff_bin_data_val` before rebinning. */
  function Efficiencies(data: HistDict, wps: seq<string>, bins: seq<Key>): ODict<Key, seq<real>>
  {
    Tabulate(bins, ValuesAt(data, wps))
  }

  /** `eff_bin_wp` after rebinning. */
  function Rebinned(data: HistDict, wps: seq<string>, t: real, bins: seq<Key>): ODict<Key, seq<string>>
  {
    Tabulate(bins, SurvivorsAt(data, wps, t))
  }

  /** The slice histograms of type d, one per bin of the variable. */
  function Slices(d: HistDict, data: HistDict, wps: seq<string>, t: real, bins: seq<Key>): HistDict
  {
    Tabulate(bins, SliceOf(d, Rebinned(data, wps, t, bins)))
  }

  /** A store of two types, data then mc. */
  function DataAndMc<V>(d: ODict<Key, V>, m: ODict<Key, V>): (st: ODict<string, ODict<Key, V>>)
    requires Valid(d) && Valid(m)
    ensures Nested(st) && st.keys == ["data", "mc"]
    ensures st.vals["data"] == d && st.vals["mc"] == m
  {
    Set(Set(Empty(), "data", d), "mc", m)
  }

  /** The new store, before sf is recomputed: `temp_histograms_od["data"]`, then `["mc"]`. */
  function SliceStore(data: HistDict, mc: HistDict, wps: seq<string>, t: real, bins: seq<Key>): (st: Store)
    ensures Nested(st) && st.keys == ["data", "mc"]
    ensures st.vals["data"] == Slices(data, data, wps, t, bins)
    ensures st.vals["mc"] == Slices(mc, data, wps, t, bins)
  {
    DataAndMc(Slices(data, data, wps, t, bins), Slices(mc, data, wps, t, bins))
  }

  /** The first sf histogram, whose bins the conversion takes. */
  function FirstSf(s: Store): Hist
    requires Nested(s) && "sf" in s.vals && s.vals["sf"].keys != []
  {
    s.vals["sf"].vals[s.vals["sf"].keys[0]]
  }

  /**
   * The whole conversion. The bins are those of the first sf histogram (KeyError without sf,
   * IndexError when sf is empty); data must hold every working point and mc every surviving
   * one, else KeyError, each only when some bin and some working point are there to look up.
   * On success the store holds data and mc slices and sf recomputed from them; on an error
   * the tool is left as it was.
   */
  function ConvertToWPBinnedHistograms(s: Store, wps: seq<string>, t: real): (r: Result<Converted>)
    requires Nested(s)
    ensures r.Ok? ==> Nested(r.value.hists) && Valid(r.value.rebinned)
    ensures r == Err(IndexError) <==> "sf" in s.vals && s.vals["sf"].keys == []
  {
    match Prepared(s, wps, t)
    case Err(e) => Err(e)
    case Ok((st, rebinned)) => Ok(Converted(Algebra.CalculateHistograms(st, "sf").state, rebinned))
  }

  /** The conversion before sf is recomputed: the bins of the first sf histogram, then the
      slice store and the survivors over them. */
  function Prepared(s: Store, wps: seq<string>, t: real): (r: Result<(Store, ODict<Key, seq<string>>)>)
    requires Nested(s)
    ensures r.Ok? ==> Nested(r.value.0) && Valid(r.value.1)
  {
    if "sf" !in s.vals then Err(KeyError)
    else if s.vals["sf"].keys == [] then Err(IndexError)
    else Staged(Lookup(s, "data"), Lookup(s, "mc"), wps, t, BinKeys(FirstSf(s)))
  }

  /** The conversion over the given bins before sf is recomputed: the slice store and the
      survivors, or KeyError when data lacks a working point or mc a survivor. */
  function Staged(data: HistDict, mc: HistDict, wps: seq<string>, t: real, bins: seq<Key>)
    : Result<(Store, ODict<Key, seq<string>>)>
  {
    if bins != [] && !HoldsAll(data, wps) then Err(KeyError)
    else if !HeldIn(mc, Rebinned(data, wps, t, bins), bins) then Err(KeyError)
    else Ok((SliceStore(data, mc, wps, t, bins), Rebinned(data, wps, t, bins)))
  }

  lemma SurvivorsFacts(data: HistDict, wps: seq<string>, t: real, x: real)
    ensures IsSubsequence(Survivors(data, wps, t, x), wps)
    ensures wps != [] ==> Survivors(data, wps, t, x) != [] && Survivors(data, wps, t, x)[0] == wps[0]
  {
    MergedFacts(SliceValues(data, wps, x), wps, t);
  }

  /** The conversion succeeds when data and mc hold every working point (or there is nothing to
      look up). */
  lemma ConvertSucceeds(s: Store, wps: seq<string>, t: real)
    requires Nested(s) && "sf" in s.vals && s.vals["sf"].keys != []
    requires NBins(FirstSf(s)) == 0 || wps == [] || (HoldsAll(Lookup(s, "data"), wps) && HoldsAll(Lookup(s, "mc"), wps))
    ensures ConvertToWPBinnedHistograms(s, wps, t).Ok?
  {
    var data, mc := Lookup(s, "data"), Lookup(s, "mc");
    var bins := BinKeys(FirstSf(s));
    var rebinned := Rebinned(data, wps, t, bins);
    forall b | b in bins ensures b in rebinned.vals && HoldsAll(mc, rebinned.vals[b]) {
      var ls := Survivors(data, wps, t, Mid(b));
      SurvivorsFacts(data, wps, t, Mid(b));
      if wps == [] {
        assert ls == [];
      } else {
        forall w | w in ls ensures Wp(w) in mc.vals {
          SubsequenceElements(ls, wps, w);
        }
      }
    }
  }

  /** The conversion raises KeyError when there is a bin and a working point, and data lacks
      some working point or mc lacks the first one, which always survives. */
  lemma ConvertRaises(s: Store, wps: seq<string>, t: real)
    requires Nested(s) && "sf" in s.vals && s.vals["sf"].keys != []
    requires NBins(FirstSf(s)) > 0 && wps != []
    requires !HoldsAll(Lookup(s, "data"), wps) || Wp(wps[0]) !in Lookup(s, "mc").vals
    ensures ConvertToWPBinnedHistograms(s, wps, t) == Err(KeyError)
  {
    var data, mc := Lookup(s, "data"), Lookup(s, "mc");
    var bins := BinKeys(FirstSf(s));
    if HoldsAll(data, wps) {
      var b := bins[0];
      SurvivorsFacts(data, wps, t, Mid(b));
      var rebinned := Rebinned(data, wps, t, bins);
      assert b in bins && !HoldsAll(mc, rebinned.vals[b]);
    }
  }

  /** A successful conversion is the sf recomputed from the slice store, with the survivors. */
  lemma ConvertOk(s: Store, wps: seq<string>, t: real)
    requires Nested(s) && ConvertToWPBinnedHistograms(s, wps, t).Ok?
    ensures "sf" in s.vals && s.vals["sf"].keys != []
    ensures var data, mc, bins := Lookup(s, "data"), Lookup(s, "mc"), BinKeys(FirstSf(s));
      ConvertToWPBinnedHistograms(s, wps, t).value ==
        Converted(Algebra.CalculateHistograms(SliceStore(data, mc, wps, t, bins), "sf").state,
                  Rebinned(data, wps, t, bins))
  {
  }

  /** Recomputing sf from the slice store adds sf last, over the same bins, as data over mc. */
  lemma SfOfSlices(data: HistDict, mc: HistDict, wps: seq<string>, t: real, bins: seq<Key>)
    ensures var st := SliceStore(data, mc, wps, t, bins);
      var r := Algebra.CalculateHistograms(st, "sf").state;
      && r.keys == ["data", "mc", "sf"]
      && r.vals["data"] == st.vals["data"] && r.vals["mc"] == st.vals["mc"]
      && Algebra.CalculateHistograms(st, "sf").raised == None
      && r.vals["sf"].keys == Dedup(bins)
      && forall b :: b in r.vals["sf"].vals ==> r.vals["sf"].vals[b] == Divide(r.vals["data"].vals[b], r.vals["mc"].vals[b])
  {
    SfOfDataAndMc(SliceStore(data, mc, wps, t, bins));
  }

  /** Recomputing sf from a store of data and mc over the same keys adds sf last, over those
      keys, as data over mc. */
  lemma SfOfDataAndMc(st: Store)
    requires Nested(st) && st.keys == ["data", "mc"] && st.vals["data"].keys == st.vals["mc"].keys
    ensures var r := Algebra.CalculateHistograms(st, "sf").state;
      && r.keys == ["data", "mc", "sf"]
      && r.vals["data"] == st.vals["data"] && r.vals["mc"] == st.vals["mc"]
      && Algebra.CalculateHistograms(st, "sf").raised == None
      && r.vals["sf"].keys == st.vals["data"].keys
      && forall b :: b in r.vals["sf"].vals ==> r.vals["sf"].vals[b] == Divide(r.vals["data"].vals[b], r.vals["mc"].vals[b])
  {
    var src, fac := st.vals["data"], st.vals["mc"];
    assert Algebra.Inputs(st, "sf");
    assert "sf" != "data" && "sf" != "mc";
    assert "sf" !in st.keys;
    assert st.keys + ["sf"] == ["data", "mc", "sf"];
    Algebra.CalculateHistogramsResult(st, "sf");
    assert forall k :: k in src.vals ==> k in fac.vals by {
      forall k | k in src.vals ensures k in fac.vals {
        assert k in src.keys;
      }
    }
  }

  /**
   * After a successful conversion: the store holds data, mc and sf, in that order, each over
   * the bins of the first sf histogram, as does the record of surviving working points; in
   * each bin the survivors are working points in their original order, the first always
   * among them, and every histogram has one slice per survivor; sf is data divided by mc.
   */
  lemma ConvertShape(s: Store, wps: seq<string>, t: real, b: Key)
    requires Nested(s)
    requires ConvertToWPBinnedHistograms(s, wps, t).Ok?
    ensures "sf" in s.vals && s.vals["sf"].keys != []
    ensures var c := ConvertToWPBinnedHistograms(s, wps, t).value;
      var bins := BinKeys(FirstSf(s));
      && c.hists.keys == ["data", "mc", "sf"]
      && c.rebinned.keys == Dedup(bins)
      && c.hists.vals["data"].keys == Dedup(bins)
      && c.hists.vals["mc"].keys == Dedup(bins)
      && c.hists.vals["sf"].keys == Dedup(bins)
      && (b in c.rebinned.vals ==>
            var ls := c.rebinned.vals[b];
            && IsSubsequence(ls, wps)
            && (wps != [] ==> ls != [] && ls[0] == wps[0])
            && NBins(c.hists.vals["data"].vals[b]) == |ls|
            && NBins(c.hists.vals["mc"].vals[b]) == |ls|
            && c.hists.vals["sf"].vals[b] == Divide(c.hists.vals["data"].vals[b], c.hists.vals["mc"].vals[b]))
  {
    ConvertOk(s, wps, t);
    var data, mc, bins := Lookup(s, "data"), Lookup(s, "mc"), BinKeys(FirstSf(s));
    SfOfSlices(data, mc, wps, t, bins);
    SurvivorsFacts(data, wps, t, Mid(b));
  }

  /** The bin that holds x depends on the edges alone. */
  lemma FindBinEdges(h1: Hist, h2: Hist, x: real)
    requires h1.edges == h2.edges
    ensures FindBin(h1, x) == FindBin(h2, x)
  {
  }

  /** With a common binning, a slice is the efficiency of its working point minus that of the next. */
  lemma SliceValueDiff(d: HistDict, ls: seq<string>, i: nat, x: real)
    requires i + 1 < |ls| && At(d, ls[i]).edges == At(d, ls[i + 1]).edges
    ensures SliceValue(d, ls, i, x) == Efficiency(d, ls[i], x) - Efficiency(d, ls[i + 1], x)
  {
    FindBinEdges(At(d, ls[i]), At(d, ls[i + 1]), x);
  }

  /** With a common binning, the slice contents are the differences of the efficiencies. */
  lemma SliceValuesDiffs(d: HistDict, ls: seq<string>, x: real, e: seq<real>)
    requires forall w :: w in ls ==> At(d, w).edges == e
    ensures SliceValues(d, ls, x) == Diffs(Apply(w => Efficiency(d, w, x), ls))
  {
    var f := w => Efficiency(d, w, x);
    var l, r := SliceValues(d, ls, x), Diffs(Apply(f, ls));
    forall i | 0 <= i < |ls| ensures l[i] == r[i] {
      if i + 1 < |ls| {
        assert ls[i] in ls && ls[i + 1] in ls;
        SliceValueDiff(d, ls, i, x);
      }
    }
  }

  /**
   * In one bin of the variable at x, when the data histograms of all working points share one
   * binning, the data slices of the survivors are the rebinned exclusive efficiencies: slice i
   * is the efficiency of survivor i minus that of survivor i+1 (the last one its own
   * efficiency); they add up to the efficiency of the first working point, and every slice
   * reaches the threshold unless a single one is left.
   */
  lemma DataSlices(data: HistDict, wps: seq<string>, t: real, x: real, e: seq<real>)
    requires forall w :: w in wps ==> At(data, w).edges == e
    ensures var ls := Survivors(data, wps, t, x);
      var vs := SliceValues(data, ls, x);
      && (forall i :: 0 <= i < |ls| ==>
            vs[i] == Efficiency(data, ls[i], x) - (if i + 1 < |ls| then Efficiency(data, ls[i + 1], x) else 0.0))
      && (wps != [] ==> Sum(vs) == Efficiency(data, wps[0], x))
      && (AllAtLeast(vs, t) || |vs| == 1 || wps == [])
  {
    var f := w => Efficiency(data, w, x);
    var ls := Survivors(data, wps, t, x);
    SliceValuesDiffs(data, wps, x, e);
    MergedDiffs(f, wps, t);
    MergedFacts(SliceValues(data, wps, x), wps, t);
    forall w | w in ls ensures At(data, w).edges == e {
      SubsequenceElements(ls, wps, w);
    }
    SliceValuesDiffs(data, ls, x, e);
    if wps != [] {
      DiffsSum(Apply(f, wps));
    }
  }

  /** After a successful conversion, the data histogram of a bin holds the slice contents of
      its survivors in bins 1..n and nothing in the underflow and overflow. */
  lemma ConvertDataSlices(s: Store, wps: seq<string>, t: real, b: Key)
    requires Nested(s)
    requires ConvertToWPBinnedHistograms(s, wps, t).Ok?
    requires b in ConvertToWPBinnedHistograms(s, wps, t).value.rebinned.vals
    ensures var c := ConvertToWPBinnedHistograms(s, wps, t).value;
      var ls := c.rebinned.vals[b];
      ls == Survivors(Lookup(s, "data"), wps, t, Mid(b)) &&
      c.hists.vals["data"].vals[b].contents == [0.0] + SliceValues(Lookup(s, "data"), ls, Mid(b)) + [0.0]
  {
    ConvertOk(s, wps, t);
    var data, mc, bins := Lookup(s, "data"), Lookup(s, "mc"), BinKeys(FirstSf(s));
    SfOfSlices(data, mc, wps, t, bins);
  }

  /** After a successful conversion, the mc histogram of a bin holds the mc slice contents of
      the survivors chosen on data, in bins 1..n, and nothing in the underflow and overflow. */
  lemma ConvertMcSlices(s: Store, wps: seq<string>, t: real, b: Key)
    requires Nested(s)
    requires ConvertToWPBinnedHistograms(s, wps, t).Ok?
    requires b in ConvertToWPBinnedHistograms(s, wps, t).value.rebinned.vals
    ensures var c := ConvertToWPBinnedHistograms(s, wps, t).value;
      var ls := c.rebinned.vals[b];
      && ls == Survivors(Lookup(s, "data"), wps, t, Mid(b))
      && "mc" in c.hists.vals && b in c.hists.vals["mc"].vals
      && c.hists.vals["mc"].vals[b].contents == [0.0] + SliceValues(Lookup(s, "mc"), ls, Mid(b)) + [0.0]
  {
    ConvertOk(s, wps, t);
    McSliceOf(Lookup(s, "data"), Lookup(s, "mc"), wps, t, BinKeys(FirstSf(s)), b);
  }

  /** Once sf is recomputed from the slice store, the mc histogram of a bin is the slice
      histogram of mc over the survivors of that bin. */
  lemma McSliceOf(data: HistDict, mc: HistDict, wps: seq<string>, t: real, bins: seq<Key>, b: Key)
    requires b in Rebinned(data, wps, t, bins).vals
    ensures var r := Algebra.CalculateHistograms(SliceStore(data, mc, wps, t, bins), "sf").state;
      && Rebinned(data, wps, t, bins).vals[b] == Survivors(data, wps, t, Mid(b))
      && "mc" in r.vals && b in r.vals["mc"].vals
      && r.vals["mc"].vals[b] == SliceHist(mc, Survivors(data, wps, t, Mid(b)), Mid(b))
  {
    SfOfSlices(data, mc, wps, t, bins);
    SliceOfAt(mc, Rebinned(data, wps, t, bins), b);
  }

  /** With data holding every working point, or no bin to look up, data holds every survivor. */
  lemma SurvivorsHeld(data: HistDict, wps: seq<string>, t: real, bins: seq<Key>)
    requires bins == [] || HoldsAll(data, wps)
    ensures HeldIn(data, Rebinned(data, wps, t, bins), bins)
  {
    forall b | b in bins ensures HoldsAll(data, Survivors(data, wps, t, Mid(b))) {
      SurvivorsFacts(data, wps, t, Mid(b));
      forall w | w in Survivors(data, wps, t, Mid(b)) ensures Wp(w) in data.vals {
        SubsequenceElements(Survivors(data, wps, t, Mid(b)), wps, w);
      }
    }
  }

  /** The data loop of one bin: the exclusive efficiency of each working point at x, the next
      one subtracted; KeyError at the first working point data lacks. */
  method ExclusiveEfficiencies(data: HistDict, wps: seq<string>, x: real) returns (r: Result<seq<real>>)
    ensures r == if HoldsAll(data, wps) then Ok(SliceValues(data, wps, x)) else Err(KeyError)
  {
    var vals: seq<real> := [];
    for ind := 0 to |wps|
      invariant vals == SliceValues(data, wps, x)[..ind]
      invariant HoldsAll(data, wps[..ind])
    {
      if Wp(wps[ind]) !in data.vals {
        return Err(KeyError);
      }
      var h := data.vals[Wp(wps[ind])];
      var bn := FindBin(h, x);
      if ind + 1 != |wps| {
        if Wp(wps[ind + 1]) !in data.vals {
          return Err(KeyError);
        }
        vals := vals + [Content(h, bn) - Content(data.vals[Wp(wps[ind + 1])], bn)];
      } else {
        vals := vals + [Content(h, bn)];
      }
      assert SliceValues(data, wps, x)[..ind + 1] == SliceValues(data, wps, x)[..ind] + [SliceValue(data, wps, ind, x)];
    }
    assert wps[..|wps|] == wps;
    assert SliceValues(data, wps, x)[..|wps|] == SliceValues(data, wps, x);
    return Ok(vals);
  }

  /** The data loop over the bins of the variable, `eff_bin_data_val` filled bin by bin; the
      list of working points it fills beside it is the order itself for every bin. */
  method EfficiencyTable(data: HistDict, wps: seq<string>, bins: seq<Key>) returns (r: Result<ODict<Key, seq<real>>>)
    ensures r == if bins != [] && !HoldsAll(data, wps) then Err(KeyError) else Ok(Efficiencies(data, wps, bins))
  {
    var out := Empty();
    for i := 0 to |bins|
      invariant out == Tabulate(bins[..i], ValuesAt(data, wps))
      invariant i > 0 ==> HoldsAll(data, wps)
    {
      var v := ExclusiveEfficiencies(data, wps, Mid(bins[i]));
      if v.Err? {
        return Err(KeyError);
      }
      TabulateStep(bins, ValuesAt(data, wps), i);
      out := Set(out, bins[i], v.value);
    }
    assert bins[..|bins|] == bins;
    return Ok(out);
  }

  /** The rebinning loop over the keys of `eff_bin_data_val`: each bin's slices merged, its
      surviving working points recorded. */
  method RebinAll(vals: ODict<Key, seq<real>>, data: HistDict, wps: seq<string>, t: real, bins: seq<Key>)
    returns (r: ODict<Key, seq<string>>)
    requires vals == Efficiencies(data, wps, bins)
    ensures r == Rebinned(data, wps, t, bins)
  {
    var out := Empty();
    for i := 0 to |vals.keys|
      invariant out == Tabulate(vals.keys[..i], SurvivorsAt(data, wps, t))
    {
      var k := vals.keys[i];
      var vs, ls := MergeSlices(vals.vals[k], wps, t);
      TabulateStep(vals.keys, SurvivorsAt(data, wps, t), i);
      out := Set(out, k, ls);
    }
    assert vals.keys[..|vals.keys|] == vals.keys;
    TabulateDedup(bins, SurvivorsAt(data, wps, t));
    return out;
  }

  /** One slice histogram: a fresh histogram over 0, 1, .., n whose bin i+1 gets the content
      and squared error of slice i; KeyError at the first working point d lacks. */
  method SliceHistogram(d: HistDict, ls: seq<string>, x: real) returns (r: Result<Hist>)
    ensures r == if HoldsAll(d, ls) then Ok(SliceHist(d, ls, x)) else Err(KeyError)
  {
    var n := |ls|;
    var goal := SliceHist(d, ls, x);
    var h := Fresh(seq(n + 1, i requires 0 <= i <= n => i as real));
    for ind := 0 to n
      invariant h.edges == goal.edges
      invariant forall j :: 0 <= j < n + 2 ==> h.contents[j] == if 1 <= j <= ind then goal.contents[j] else 0.0
      invariant forall j :: 0 <= j < n + 2 ==> h.sumw2[j] == if 1 <= j <= ind then goal.sumw2[j] else 0.0
      invariant HoldsAll(d, ls[..ind])
    {
      if Wp(ls[ind]) !in d.vals {
        return Err(KeyError);
      }
      var hw := d.vals[Wp(ls[ind])];
      var bn := FindBin(hw, x);
      if ind + 1 != n {
        if Wp(ls[ind + 1]) !in d.vals {
          return Err(KeyError);
        }
        var hn := d.vals[Wp(ls[ind + 1])];
        h := SetBinContent(h, ind + 1, Content(hw, bn) - Content(hn, bn));
        h := SetBinErrorSq(h, ind + 1, ErrorSq(hw, bn) + ErrorSq(hn, bn));
      } else {
        h := SetBinContent(h, ind + 1, Content(hw, bn));
        h := SetBinErrorSq(h, ind + 1, ErrorSq(hw, bn));
      }
      assert goal.contents[ind + 1] == SliceValue(d, ls, ind, x);
      assert goal.sumw2[ind + 1] == SliceError(d, ls, ind, x);
    }
    assert ls[..n] == ls;
    assert h.contents == goal.contents;
    assert h.sumw2 == goal.sumw2;
    return Ok(h);
  }

  /** d holds every working point recorded for each of `bins`. */
  predicate HeldIn(d: HistDict, rebinned: ODict<Key, seq<string>>, bins: seq<Key>)
  {
    forall b :: b in bins ==> b in rebinned.vals && HoldsAll(d, rebinned.vals[b])
  }

  /** One more bin whose working points all have histograms in `d`. */
  lemma HeldInStep(d: HistDict, rebinned: ODict<Key, seq<string>>, bins: seq<Key>, i: nat)
    requires i < |bins| && HeldIn(d, rebinned, bins[..i])
    requires bins[i] in rebinned.vals && HoldsAll(d, rebinned.vals[bins[i]])
    ensures HeldIn(d, rebinned, bins[..i + 1])
  {
    assert bins[..i + 1] == bins[..i] + [bins[i]];
  }

  /** The slice histogram that the loop draws for one recorded bin. */
  lemma SliceOfAt(d: HistDict, rebinned: ODict<Key, seq<string>>, b: Key)
    requires b in rebinned.vals
    ensures SliceOf(d, rebinned)(b) == SliceHist(d, rebinned.vals[b], Mid(b))
  {
  }

  /** The drawing loop of one type over the bins of the variable; KeyError at the first bin
      with a working point d lacks. */
  method DrawSlices(d: HistDict, rebinned: ODict<Key, seq<string>>, bins: seq<Key>) returns (r: Result<HistDict>)
    requires forall b :: b in bins ==> b in rebinned.vals
    ensures r == if HeldIn(d, rebinned, bins) then Ok(Tabulate(bins, SliceOf(d, rebinned))) else Err(KeyError)
  {
    var f := SliceOf(d, rebinned);
    var out := Empty();
    for i := 0 to |bins|
      invariant out == Tabulate(bins[..i], f)
      invariant HeldIn(d, rebinned, bins[..i])
    {
      var b := bins[i];
      var h := SliceHistogram(d, rebinned.vals[b], Mid(b));
      if h.Err? {
        assert b in bins;
        return Err(KeyError);
      }
      HeldInStep(d, rebinned, bins, i);
      SliceOfAt(d, rebinned, b);
      TabulateStep(bins, f, i);
      out := Set(out, b, h.value);
    }
    assert bins[..|bins|] == bins;
    return Ok(out);
  }


  /** From the data efficiencies to the slice store over the given bins, with the survivors of
      each bin; KeyError as data or mc lacks a working point it is asked for. */
  method SliceStage(data: HistDict, mc: HistDict, wps: seq<string>, t: real, bins: seq<Key>)
    returns (r: Result<(Store, ODict<Key, seq<string>>)>)
    ensures r == Staged(data, mc, wps, t, bins)
  {
    var table := EfficiencyTable(data, wps, bins);
    if table.Err? {
      return Err(table.error);
    }
    var rebinned := RebinAll(table.value, data, wps, t, bins);
    SurvivorsHeld(data, wps, t, bins);
    var dataSlices := DrawSlices(data, rebinned, bins);
    var mcSlices := DrawSlices(mc, rebinned, bins);
    if mcSlices.Err? {
      return Err(mcSlices.error);
    }
    return Ok((DataAndMc(dataSlices.value, mcSlices.value), rebinned));
  }

  /** The steps of the conversion up to the recomputation of sf. */
  method Prepare(s: Store, wps: seq<string>, t: real) returns (r: Result<(Store, ODict<Key, seq<string>>)>)
    requires Nested(s)
    ensures r == Prepared(s, wps, t)
  {
    if "sf" !in s.vals {
      return Err(KeyError);
    }
    var sf := s.vals["sf"];
    if sf.keys == [] {
      return Err(IndexError);
    }
    var bins := BinKeys(sf.vals[sf.keys[0]]);
    r := SliceStage(Lookup(s, "data"), Lookup(s, "mc"), wps, t, bins);
  }

  /** The conversion fails as its preparation does; otherwise recomputing sf from the
      prepared store raises nothing and gives the new store. */
  lemma ConvertFromPrepared(s: Store, wps: seq<string>, t: real)
    requires Nested(s)
    ensures var p, r := Prepared(s, wps, t), ConvertToWPBinnedHistograms(s, wps, t);
      && (p.Err? ==> r == Err(p.error))
      && (p.Ok? ==>
            var o := Algebra.CalculateHistograms(p.value.0, "sf");
            o.raised == None && r == Ok(Converted(o.state, p.value.1)))
  {
    if Prepared(s, wps, t).Ok? {
      SfOfSlices(Lookup(s, "data"), Lookup(s, "mc"), wps, t, BinKeys(FirstSf(s)));
    }
  }

  /** The tool's store, survivors and exception after the conversion: the new store and
      survivors, or on an error the old ones and the exception. */
  function ConvertState(s: Store, rb: ODict<Key, seq<string>>, wps: seq<string>, t: real)
    : (r: (Store, ODict<Key, seq<string>>, Option<PyError>))
    requires Nested(s) && Valid(rb)
    ensures Nested(r.0) && Valid(r.1)
  {
    match ConvertToWPBinnedHistograms(s, wps, t)
    case Ok(c) => (c.hists, c.rebinned, None)
    case Err(e) => (s, rb, Some(e))
  }

  /** The whole conversion on the tool's store: the steps up to the slice store, then the
      loop that recomputes sf from it. */
  method Convert(s: Store, rb: ODict<Key, seq<string>>, wps: seq<string>, t: real)
    returns (hists: Store, rebinned: ODict<Key, seq<string>>, raised: Option<PyError>)
    requires Nested(s) && Valid(rb)
    ensures (hists, rebinned, raised) == ConvertState(s, rb, wps, t)
  {
    ConvertFromPrepared(s, wps, t);
    var prepared := Prepare(s, wps, t);
    if prepared.Err? {
      return s, rb, Some(prepared.error);
    }
    var o := Algebra.CalculateLoop(prepared.value.0, "sf");
    return o.state, prepared.value.1, o.raised;
  }
}
