/**
 * The driver script's own helpers: `RemoveSameBins`, which rebins a histogram on the edges
 * where its content changes; the filter that keeps a TF1 only for the requested shift and
 * stores it without the shift in its name; and the axis labels drawn under the working points
 * of each kinematic bin.
 */
module Driver {
  import opened Wrappers
  import opened Histograms
  import opened WorkingPoints

  // ---------------------------------------------------------------------------------------
  // RemoveSameBins
  // ---------------------------------------------------------------------------------------

  /** Bin i opens a new output bin: its content is nonzero and differs from that of bin i-1. */
  predicate Keep(h: Hist, i: int)
  {
    !(Content(h, i) == 0.0 || Content(h, i) == Content(h, i - 1))
  }

  /** The bins among 1..i whose low edge is kept, in scan order. */
  function KeptBins(h: Hist, i: nat): seq<nat>
  {
    if i == 0 then [] else KeptBins(h, i - 1) + (if Keep(h, i) then [i] else [])
  }

  /** The low edges of the bins `bs`. */
  function Lows(h: Hist, bs: seq<nat>): (r: seq<real>)
    ensures |r| == |bs|
  {
    seq(|bs|, j requires 0 <= j < |bs| => LowEdge(h, bs[j]))
  }

  /** The edges of the output histogram: the kept low edges, then 1000. */
  function NewEdges(h: Hist): seq<real>
  {
    Lows(h, KeptBins(h, NBins(h))) + [1000.0]
  }

  /** `KeptBins` lists, in increasing order, exactly the bins 1..i that pass `Keep`. */
  lemma {:induction false} KeptBinsSelect(h: Hist, i: nat)
    ensures forall b :: b in KeptBins(h, i) <==> 1 <= b <= i && Keep(h, b)
    ensures forall j, k :: 0 <= j < k < |KeptBins(h, i)| ==> KeptBins(h, i)[j] < KeptBins(h, i)[k]
  {
    if i > 0 {
      var r := KeptBins(h, i - 1);
      KeptBinsSelect(h, i - 1);
      assert forall j :: 0 <= j < |r| ==> r[j] in r;
    }
  }

  /** The scan over bins 1..N that collects the kept low edges and appends 1000. */
  method SelectEdges(h: Hist) returns (edges: seq<real>)
    ensures edges == NewEdges(h)
  {
    edges := [];
    ghost var bins: seq<nat> := [];
    var i := 1;
    while i <= NBins(h)
      invariant 1 <= i <= NBins(h) + 1
      invariant bins == KeptBins(h, i - 1) && edges == Lows(h, bins)
    {
      if !(Content(h, i) == 0.0 || Content(h, i) == Content(h, i - 1)) {
        edges := edges + [LowEdge(h, i)];
        bins := bins + [i];
      }
      i := i + 1;
    }
    edges := edges + [1000.0];
  }

  /** The output edges are the kept low edges, the low edge of kept bin b being h.edges[b-1],
      followed by 1000. */
  lemma NewEdgesAt(h: Hist)
    ensures var kb := KeptBins(h, NBins(h));
      NewEdges(h) == Lows(h, kb) + [1000.0] &&
      forall j :: 0 <= j < |kb| ==> 1 <= kb[j] <= NBins(h) && Lows(h, kb)[j] == h.edges[kb[j] - 1]
  {
    var kb := KeptBins(h, NBins(h));
    KeptBinsSelect(h, NBins(h));
    forall j | 0 <= j < |kb|
      ensures 1 <= kb[j] <= NBins(h) && Lows(h, kb)[j] == h.edges[kb[j] - 1]
    {
      assert kb[j] in kb;
    }
  }

  /** On an increasing axis equal edges are the same edge. */
  lemma EdgesInjective(e: seq<real>, i: nat, j: nat)
    requires Increasing(e) && i < |e| && j < |e| && e[i] == e[j]
    ensures i == j
  {
  }

  /** On an increasing axis the low edge of regular bin b is kept exactly when bin b passes `Keep`. */
  lemma KeptEdgeIff(h: Hist, b: nat)
    requires Increasing(h.edges) && 1 <= b <= NBins(h)
    ensures h.edges[b - 1] in Lows(h, KeptBins(h, NBins(h))) <==> Keep(h, b)
  {
    var kb := KeptBins(h, NBins(h));
    var ks := Lows(h, kb);
    NewEdgesAt(h);
    KeptBinsSelect(h, NBins(h));
    if Keep(h, b) {
      assert b in kb;
      var j :| 0 <= j < |kb| && kb[j] == b;
      assert ks[j] == h.edges[b - 1];
    }
    if h.edges[b - 1] in ks {
      var j :| 0 <= j < |kb| && ks[j] == h.edges[b - 1];
      EdgesInjective(h.edges, kb[j] - 1, b - 1);
      assert kb[j] in kb;
    }
  }

  /**
   * When the input axis increases and ends at or below 1000, so do the output edges, as the
   * `TH1D` constructor needs.
   */
  lemma NewEdgesIncreasing(h: Hist)
    requires Increasing(h.edges) && h.edges[NBins(h)] <= 1000.0
    ensures Increasing(NewEdges(h))
  {
    var n := NBins(h);
    var kb := KeptBins(h, n);
    var e := NewEdges(h);
    NewEdgesAt(h);
    KeptBinsSelect(h, n);
    forall j, k | 0 <= j < k < |e|
      ensures e[j] < e[k]
    {
      if k < |kb| {
        assert kb[j] < kb[k];
      } else {
        assert e[j] == h.edges[kb[j] - 1] < h.edges[n];
      }
    }
  }

  /** `hout` once the refill loop has set bins 0..i-1 from the input. */
  function Refill(h: Hist, hout: Hist, i: nat): Hist
  {
    if i == 0 then hout
    else SetBinContent(Refill(h, hout, i - 1), i - 1, Content(h, FindBin(h, LowEdge(hout, i - 1))))
  }

  /**
   * After i steps, each bin j < i holds the input content of the bin that contains its low
   * edge; the later bins, the edges and the errors are as they were.
   */
  lemma {:induction false} RefillContents(h: Hist, hout: Hist, i: nat)
    requires i <= NBins(hout) + 2
    ensures Refill(h, hout, i).edges == hout.edges && Refill(h, hout, i).sumw2 == hout.sumw2
    ensures forall j :: 0 <= j < i ==>
      Content(Refill(h, hout, i), j) == Content(h, FindBin(h, LowEdge(hout, j)))
    ensures forall j :: i <= j <= NBins(hout) + 1 ==> Content(Refill(h, hout, i), j) == Content(hout, j)
  {
    if i > 0 {
      RefillContents(h, hout, i - 1);
    }
  }

  /** The loop over bins 0..N of `hout` (not its overflow) that fills it from the input. */
  method RefillLoop(h: Hist, hout: Hist) returns (r: Hist)
    ensures r == Refill(h, hout, NBins(hout) + 1)
  {
    r := hout;
    var i := 0;
    while i < NBins(hout) + 1
      invariant i <= NBins(hout) + 1 && r == Refill(h, hout, i)
    {
      r := SetBinContent(r, i, Content(h, FindBin(h, LowEdge(hout, i))));
      i := i + 1;
    }
  }

  /** What `RemoveSameBins(hist)` returns. */
  function RemovedSameBins(h: Hist): Hist
  {
    var hout := Fresh(NewEdges(h));
    Refill(h, hout, NBins(hout) + 1)
  }

  method RemoveSameBins(h: Hist) returns (hout: Hist)
    ensures hout == RemovedSameBins(h)
  {
    var edges := SelectEdges(h);
    hout := Fresh(edges);
    hout := RefillLoop(h, hout);
  }

  /** The output has one regular bin per kept input bin, an empty overflow and zero stored
      squared errors. */
  lemma RemovedSameBinsShape(h: Hist)
    ensures var out := RemovedSameBins(h);
      NBins(out) == |KeptBins(h, NBins(h))| && out.edges == NewEdges(h) &&
      Content(out, NBins(out) + 1) == 0.0 &&
      (forall j :: 0 <= j <= NBins(out) + 1 ==> ErrorSq(out, j) == 0.0)
  {
    var hout := Fresh(NewEdges(h));
    RefillContents(h, hout, NBins(hout) + 1);
  }

  /**
   * On an increasing input axis the j-th regular output bin holds the content of the j-th
   * kept input bin, which is never zero.
   */
  lemma RemovedSameBinsBin(h: Hist, j: nat)
    requires Increasing(h.edges) && 1 <= j <= |KeptBins(h, NBins(h))|
    ensures Content(RemovedSameBins(h), j) == Content(h, KeptBins(h, NBins(h))[j - 1])
    ensures Content(RemovedSameBins(h), j) != 0.0
  {
    var kb := KeptBins(h, NBins(h));
    var hout := Fresh(NewEdges(h));
    var b := kb[j - 1];
    NewEdgesAt(h);
    RefillContents(h, hout, NBins(hout) + 1);
    assert LowEdge(hout, j) == h.edges[b - 1];
    FindBinOfBin(h, b, h.edges[b - 1]);
    KeptBinsSelect(h, NBins(h));
    assert b in kb;
  }

  // ---------------------------------------------------------------------------------------
  // The TF1 name filter
  // ---------------------------------------------------------------------------------------

  /** Python's `s.replace(p, q)`: the occurrences of p, found left to right without overlap, become q. */
  function ReplaceAll(s: string, p: string, q: string): string
    requires p != []
    decreases |s|
  {
    if |s| < |p| then s
    else if StartsWith(s, p) then q + ReplaceAll(s[|p|..], p, q)
    else [s[0]] + ReplaceAll(s[1..], p, q)
  }

  /** A string in which p does not occur is left as it is. */
  lemma {:induction false} ReplaceAbsent(s: string, p: string, q: string)
    requires p != [] && !Contains(s, p)
    ensures ReplaceAll(s, p, q) == s
    decreases |s|
  {
    if |s| >= |p| {
      ReplaceAbsent(s[1..], p, q);
      assert [s[0]] + s[1..] == s;
    }
  }

  /** Removing a pattern never lengthens the string. */
  lemma {:induction false} RemoveNoLonger(s: string, p: string)
    requires p != []
    ensures |ReplaceAll(s, p, "")| <= |s|
    decreases |s|
  {
    if |s| >= |p| {
      if StartsWith(s, p) {
        RemoveNoLonger(s[|p|..], p);
      } else {
        RemoveNoLonger(s[1..], p);
      }
    }
  }

  /** Removing a pattern that occurs shortens the string by at least its length. */
  lemma {:induction false} RemoveShortens(s: string, p: string)
    requires p != [] && Contains(s, p)
    ensures |ReplaceAll(s, p, "")| <= |s| - |p|
    decreases |s|
  {
    if StartsWith(s, p) {
      RemoveNoLonger(s[|p|..], p);
    } else {
      RemoveShortens(s[1..], p);
    }
  }

  /** A string ends in the pattern it ends with. */
  lemma {:induction false} ContainsSuffix(a: string, p: string)
    ensures Contains(a + p, p)
    decreases |a|
  {
    if a == [] {
      assert a + p == p;
    } else {
      ContainsSuffix(a[1..], p);
      assert (a + p)[1..] == a[1..] + p;
    }
  }

  /**
   * Removing p from base + p gives base back when that trailing p is its only occurrence, that
   * is when p does not occur in base followed by all of p but its last character.
   */
  lemma {:induction false} RemoveSuffix(base: string, p: string)
    requires p != [] && !Contains(base + p[..|p| - 1], p)
    ensures ReplaceAll(base + p, p, "") == base
    decreases |base|
  {
    var s := base + p;
    if base == [] {
      assert s == p && s[|p|..] == [];
    } else {
      var t := base + p[..|p| - 1];
      assert t[1..] == base[1..] + p[..|p| - 1];
      assert s[1..] == base[1..] + p;
      RemoveSuffix(base[1..], p);
      assert [base[0]] + base[1..] == base;
    }
  }

  /**
   * The name a TF1 is stored under when the script runs for `shift`: None when the name does
   * not contain "_" + shift (the object is skipped), otherwise the name with every "_" + shift
   * removed, which is shorter by at least that tag.
   */
  function Tf1Name(name: string, shift: string): (r: Option<string>)
    ensures r.None? <==> !Contains(name, "_" + shift)
    ensures r.Some? ==> |r.value| + |shift| + 1 <= |name|
  {
    var tag := "_" + shift;
    if !Contains(name, tag) then None
    else RemoveShortens(name, tag); Some(ReplaceAll(name, tag, ""))
  }

  /** A name without the tag is skipped, and one that ends in its only tag is stored as its stem. */
  lemma Tf1Stem(stem: string, shift: string)
    requires !Contains(stem + ("_" + shift)[..|shift|], "_" + shift)
    ensures Tf1Name(stem + ("_" + shift), shift) == Some(stem)
    ensures Tf1Name(stem, shift) == None
  {
    var tag := "_" + shift;
    ContainsSuffix(stem, tag);
    RemoveSuffix(stem, tag);
    if Contains(stem, tag) {
      ContainsPrefix(stem, tag[..|shift|], tag);
    }
  }

  /** An occurrence in a string is still one once something is appended. */
  lemma {:induction false} ContainsPrefix(a: string, b: string, p: string)
    requires Contains(a, p)
    ensures Contains(a + b, p)
    decreases |a|
  {
    if StartsWith(a, p) {
      assert (a + b)[..|p|] == a[..|p|];
    } else {
      ContainsPrefix(a[1..], b, p);
      assert (a + b)[1..] == a[1..] + b;
    }
  }

  // ---------------------------------------------------------------------------------------
  // Axis labels
  // ---------------------------------------------------------------------------------------

  /** The label of working point j: passes it but fails the next one ("wp_j&!wp_j+1"); the
      tightest stands alone. */
  function Label(v: seq<string>, j: nat): string
    requires j < |v|
  {
    if j + 1 != |v| then v[j] + "&!" + v[j + 1] else v[j]
  }

  /** The guard of `ChooseAxisLabels`: replacement labels, when given, match the positions one to one. */
  predicate Accepted(positions: seq<real>, replace: seq<string>)
  {
    !(replace != [] && |positions| != |replace|)
  }

  /**
   * The positions (bin centres j + 0.5) and labels drawn under the working points `v` of one
   * kinematic bin; there is one label per position, so the axis-label guard accepts them.
   */
  method AxisLabels(v: seq<string>) returns (replace: seq<real>, labels: seq<string>)
    ensures |replace| == |v| && |labels| == |v| && Accepted(replace, labels)
    ensures forall j :: 0 <= j < |v| ==> replace[j] == j as real + 0.5 && labels[j] == Label(v, j)
  {
    replace := seq(|v|, j => j as real + 0.5);
    labels := [];
    var ind := 0;
    while ind < |v|
      invariant ind <= |v| && |labels| == ind
      invariant forall j :: 0 <= j < ind ==> labels[j] == Label(v, j)
    {
      if ind + 1 != |v| {
        labels := labels + [v[ind] + "&!" + v[ind + 1]];
      } else {
        labels := labels + [v[ind]];
      }
      ind := ind + 1;
    }
  }

  /** Distinct working-point names without '&' give distinct labels, one per position. */
  lemma LabelsDistinct(v: seq<string>, j: nat, k: nat)
    requires j < k < |v|
    requires forall i :: 0 <= i < |v| ==> '&' !in v[i]
    requires v[j] != v[k]
    ensures Label(v, j) != Label(v, k)
  {
    var a, b := Label(v, j), Label(v, k);
    assert a[..|v[j]|] == v[j] && a[|v[j]|] == '&';
    if k + 1 != |v| {
      assert b[..|v[k]|] == v[k] && b[|v[k]|] == '&';
    }
  }
}
