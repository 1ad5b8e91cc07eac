/**
 * `ConvertToScoreBinnedHistograms(score_dict)`: each working-point-binned histogram gets the
 * score thresholds of its surviving working points as bin edges, closed by 1.0, and keeps its
 * bin contents and errors.
 */
module ScoreBinned {
  import opened Wrappers
  import opened Sequences
  import opened OrderedDicts
  import opened Histograms
  import opened WorkingPoints
  import opened Stores

  /** Every working point of `ls` has a score. */
  predicate Scored(ls: seq<string>, score: map<string, real>)
  {
    forall w :: w in ls ==> w in score
  }

  /** Key bk has a list of working points, each with a score. */
  predicate KeyCovered(bk: Key, rebinned: ODict<Key, seq<string>>, score: map<string, real>)
  {
    bk in rebinned.vals && Scored(rebinned.vals[bk], score)
  }

  function IsCovered(rebinned: ODict<Key, seq<string>>, score: map<string, real>): Key -> bool
  {
    bk => KeyCovered(bk, rebinned, score)
  }

  function TypeCovered(s: Store, rebinned: ODict<Key, seq<string>>, score: map<string, real>): string -> bool
  {
    t => t !in s.vals || DictCovered(s.vals[t], rebinned, score)
  }

  /** Every histogram key of the dict is covered. */
  predicate DictCovered(d: HistDict, rebinned: ODict<Key, seq<string>>, score: map<string, real>)
  {
    forall bk :: bk in d.vals ==> KeyCovered(bk, rebinned, score)
  }

  /** Every dict of the store is covered. */
  predicate Covered(s: Store, rebinned: ODict<Key, seq<string>>, score: map<string, real>)
  {
    forall t :: t in s.vals ==> DictCovered(s.vals[t], rebinned, score)
  }

  /** `bins`: the scores of the working points of key bk, in their order, then 1.0. */
  function ScoreEdges(rebinned: ODict<Key, seq<string>>, score: map<string, real>, bk: Key): (e: seq<real>)
    ensures |e| >= 1 && e[|e| - 1] == 1.0
  {
    var ls := if bk in rebinned.vals then rebinned.vals[bk] else [];
    seq(|ls|, i requires 0 <= i < |ls| => if ls[i] in score then score[ls[i]] else 0.0) + [1.0]
  }

  /** A new histogram over `edges` filled with bins 0..N of `h`; a bin past the new overflow is
      dropped, as ROOT ignores it. */
  function Rebin(h: Hist, edges: seq<real>): (r: Hist)
    requires |edges| >= 1
    ensures r.edges == edges
  {
    var m := |edges| + 1;
    Histogram(edges,
              seq(m, i requires 0 <= i < m => if i <= NBins(h) then h.contents[i] else 0.0),
              seq(m, i requires 0 <= i < m => if i <= NBins(h) then h.sumw2[i] else 0.0))
  }

  /** What happens to the histogram of key bk. */
  function RebinKey(rebinned: ODict<Key, seq<string>>, score: map<string, real>): (Key, Hist) -> Hist
  {
    (bk, h) => Rebin(h, ScoreEdges(rebinned, score, bk))
  }

  /** The new dict of one type. */
  function RebinType(d: HistDict, rebinned: ODict<Key, seq<string>>, score: map<string, real>): (r: HistDict)
    ensures Valid(d) ==> Valid(r) && r.keys == d.keys
  {
    ODict(d.keys, map bk | bk in d.vals :: Rebin(d.vals[bk], ScoreEdges(rebinned, score, bk)))
  }

  /** What happens to the dict of each type. */
  function RebinEach(rebinned: ODict<Key, seq<string>>, score: map<string, real>): (string, HistDict) -> HistDict
  {
    (t, d) => RebinType(d, rebinned, score)
  }

  /** The whole conversion; a key without working points or a working point without a score
      raises KeyError and the store is left as it was. */
  function ConvertToScoreBinnedHistograms(s: Store, rebinned: ODict<Key, seq<string>>, score: map<string, real>)
    : (r: Result<Store>)
    requires Nested(s)
    ensures r.Ok? <==> Covered(s, rebinned, score)
    ensures r.Ok? ==>
      && Nested(r.value) && r.value.keys == s.keys
      && forall t :: t in s.vals ==> r.value.vals[t].keys == s.vals[t].keys
  {
    if !Covered(s, rebinned, score) then Err(KeyError)
    else Ok(MapValues(s, RebinEach(rebinned, score)))
  }

  /** The new histogram keeps the bins 0..N the old one had, up to the new overflow; with as
      many bins as before it keeps all of them and only the overflow is left empty. */
  lemma RebinKeeps(h: Hist, edges: seq<real>)
    requires |edges| >= 1
    ensures var r := Rebin(h, edges);
      && (forall i :: 0 <= i <= NBins(h) && i <= NBins(r) + 1 ==> r.contents[i] == h.contents[i] && r.sumw2[i] == h.sumw2[i])
      && (forall i :: NBins(h) < i <= NBins(r) + 1 ==> r.contents[i] == 0.0 && r.sumw2[i] == 0.0)
      && (NBins(h) == NBins(r) ==>
            r.contents == h.contents[..NBins(h) + 1] + [0.0] && r.sumw2 == h.sumw2[..NBins(h) + 1] + [0.0])
  {
  }

  /** The edges of key bk: the score of each of its working points, then 1.0. */
  lemma ScoreEdgesOf(rebinned: ODict<Key, seq<string>>, score: map<string, real>, bk: Key)
    requires bk in rebinned.vals && Scored(rebinned.vals[bk], score)
    ensures var e, ls := ScoreEdges(rebinned, score, bk), rebinned.vals[bk];
      && |e| == |ls| + 1
      && (forall i :: 0 <= i < |ls| ==> e[i] == score[ls[i]])
  {
    var ls := rebinned.vals[bk];
    forall i | 0 <= i < |ls| ensures ScoreEdges(rebinned, score, bk)[i] == score[ls[i]] {
      assert ls[i] in ls;
    }
  }

  /**
   * After the conversion, each histogram has one bin per working point of its key, the score
   * of working point i as the low edge of bin i+1 and 1.0 as the upper edge; the bins it had
   * are kept as they were, and when it had as many bins as working points (as after the
   * conversion to working-point bins) all its contents and errors are kept but the overflow,
   * which the copy loop does not reach.
   */
  lemma ScoreBinnedHist(s: Store, rebinned: ODict<Key, seq<string>>, score: map<string, real>, t: string, bk: Key)
    requires Nested(s) && Covered(s, rebinned, score)
    requires t in s.vals && bk in s.vals[t].vals
    ensures var h := s.vals[t].vals[bk];
      var r := ConvertToScoreBinnedHistograms(s, rebinned, score).value.vals[t].vals[bk];
      var ls := rebinned.vals[bk];
      && NBins(r) == |ls|
      && (forall i :: 0 <= i < |ls| ==> r.edges[i] == score[ls[i]])
      && r.edges[|ls|] == 1.0
      && (forall i :: 0 <= i <= NBins(h) && i <= |ls| + 1 ==> r.contents[i] == h.contents[i] && r.sumw2[i] == h.sumw2[i])
      && (NBins(h) == |ls| ==>
            r.contents == h.contents[..|ls| + 1] + [0.0] && r.sumw2 == h.sumw2[..|ls| + 1] + [0.0])
  {
    var h := s.vals[t].vals[bk];
    var e := ScoreEdges(rebinned, score, bk);
    assert ConvertToScoreBinnedHistograms(s, rebinned, score).value.vals[t].vals[bk] == Rebin(h, e);
    ScoreEdgesOf(rebinned, score, bk);
    RebinKeeps(h, e);
  }

  /** Working points whose scores go up and stay below 1.0 give the new axis increasing edges. */
  lemma ScoreEdgesIncreasing(rebinned: ODict<Key, seq<string>>, score: map<string, real>, bk: Key)
    requires bk in rebinned.vals && Scored(rebinned.vals[bk], score)
    requires var ls := rebinned.vals[bk];
      forall i :: 0 <= i < |ls| ==> score[ls[i]] < 1.0 && (i + 1 < |ls| ==> score[ls[i]] < score[ls[i + 1]])
    ensures Increasing(ScoreEdges(rebinned, score, bk))
  {
    var ls := rebinned.vals[bk];
    var e := ScoreEdges(rebinned, score, bk);
    forall i, j | 0 <= i < j < |e| ensures e[i] < e[j] {
      ScoresRise(ls, score, i, j);
    }
  }

  lemma {:induction false} ScoresRise(ls: seq<string>, score: map<string, real>, i: nat, j: nat)
    requires Scored(ls, score)
    requires forall k :: 0 <= k < |ls| ==> score[ls[k]] < 1.0 && (k + 1 < |ls| ==> score[ls[k]] < score[ls[k + 1]])
    requires i < j <= |ls|
    ensures score[ls[i]] < if j == |ls| then 1.0 else score[ls[j]]
    decreases j - i
  {
    if j > i + 1 {
      ScoresRise(ls, score, i + 1, j);
    }
  }

  /** The building of `bins` for key bk: KeyError when bk has no list of working points or
      one of them has no score. */
  method EdgesOf(rebinned: ODict<Key, seq<string>>, score: map<string, real>, bk: Key) returns (r: Result<seq<real>>)
    ensures r == if KeyCovered(bk, rebinned, score) then Ok(ScoreEdges(rebinned, score, bk)) else Err(KeyError)
  {
    if bk !in rebinned.vals {
      return Err(KeyError);
    }
    var ls := rebinned.vals[bk];
    ghost var e := ScoreEdges(rebinned, score, bk);
    var bins := [];
    for i := 0 to |ls|
      invariant Scored(ls[..i], score)
      invariant bins == e[..i]
    {
      if ls[i] !in score {
        assert ls[i] in ls;
        return Err(KeyError);
      }
      assert ls[..i + 1] == ls[..i] + [ls[i]];
      bins := bins + [score[ls[i]]];
    }
    assert ls[..|ls|] == ls;
    assert e == e[..|ls|] + [1.0];
    return Ok(bins + [1.0]);
  }

  /** The new histogram over `edges`, filled bin by bin over bins 0..N of `h`. */
  method RebinHist(h: Hist, edges: seq<real>) returns (r: Hist)
    requires |edges| >= 1
    ensures r == Rebin(h, edges)
  {
    ghost var goal := Rebin(h, edges);
    r := Fresh(edges);
    for i := 0 to NBins(h) + 1
      invariant r.edges == edges
      invariant forall j :: 0 <= j < |edges| + 1 ==>
        r.contents[j] == (if j < i then goal.contents[j] else 0.0) &&
        r.sumw2[j] == (if j < i then goal.sumw2[j] else 0.0)
    {
      r := SetBinContent(r, i, Content(h, i));
      r := SetBinErrorSq(r, i, ErrorSq(h, i));
    }
    assert r.contents == goal.contents;
    assert r.sumw2 == goal.sumw2;
  }

  /** The histogram of key bk rebinned over its score edges, or KeyError. */
  method RebinEntry(rebinned: ODict<Key, seq<string>>, score: map<string, real>, bk: Key, h: Hist) returns (r: Result<Hist>)
    ensures r == if KeyCovered(bk, rebinned, score) then Ok(RebinKey(rebinned, score)(bk, h)) else Err(KeyError)
  {
    var e := EdgesOf(rebinned, score, bk);
    if e.Err? {
      return Err(KeyError);
    }
    var n := RebinHist(h, e.value);
    return Ok(n);
  }

  /** The dict of one type, key by key; KeyError at the first key that is not covered. */
  method RebinDict(d: HistDict, rebinned: ODict<Key, seq<string>>, score: map<string, real>) returns (r: Result<HistDict>)
    requires Valid(d)
    ensures r == if DictCovered(d, rebinned, score) then Ok(MapValues(d, RebinKey(rebinned, score))) else Err(KeyError)
  {
    var out := Empty();
    MapPrefixEnds(d, RebinKey(rebinned, score));
    for i := 0 to |d.keys|
      invariant out == MapPrefix(d, RebinKey(rebinned, score), i)
      invariant AllOf(d.keys[..i], IsCovered(rebinned, score))
    {
      var bk := d.keys[i];
      var h := RebinEntry(rebinned, score, bk, d.vals[bk]);
      if h.Err? {
        assert bk in d.vals && !KeyCovered(bk, rebinned, score);
        return Err(KeyError);
      }
      AllOfStep(d.keys, IsCovered(rebinned, score), i);
      MapPrefixStep(d, RebinKey(rebinned, score), i);
      out := Set(out, bk, h.value);
    }
    assert d.keys[..|d.keys|] == d.keys;
    AllOfEvery(d.keys, IsCovered(rebinned, score));
    return Ok(out);
  }

  /** The new dict of a type is its histograms mapped key by key. */
  lemma RebinTypeMapped(d: HistDict, rebinned: ODict<Key, seq<string>>, score: map<string, real>)
    requires Valid(d)
    ensures MapValues(d, RebinKey(rebinned, score)) == RebinType(d, rebinned, score)
  {
  }

  /** The conversion, type by type; on KeyError the store is left as it was. */
  method ConvertLoop(s: Store, rebinned: ODict<Key, seq<string>>, score: map<string, real>) returns (r: Result<Store>)
    requires Nested(s)
    ensures r == ConvertToScoreBinnedHistograms(s, rebinned, score)
  {
    var out := Empty();
    MapPrefixEnds(s, RebinEach(rebinned, score));
    for i := 0 to |s.keys|
      invariant out == MapPrefix(s, RebinEach(rebinned, score), i)
      invariant AllOf(s.keys[..i], TypeCovered(s, rebinned, score))
    {
      var t := s.keys[i];
      var d := RebinDict(s.vals[t], rebinned, score);
      if d.Err? {
        assert t in s.vals && !DictCovered(s.vals[t], rebinned, score);
        return Err(KeyError);
      }
      RebinTypeMapped(s.vals[t], rebinned, score);
      AllOfStep(s.keys, TypeCovered(s, rebinned, score), i);
      MapPrefixStep(s, RebinEach(rebinned, score), i);
      out := Set(out, t, d.value);
    }
    assert s.keys[..|s.keys|] == s.keys;
    AllOfEvery(s.keys, TypeCovered(s, rebinned, score));
    return Ok(out);
  }

  /** The store, and the exception if one is raised, after the conversion. */
  function ScoreState(s: Store, rebinned: ODict<Key, seq<string>>, score: map<string, real>): (r: (Store, Option<PyError>))
    requires Nested(s)
    ensures Nested(r.0)
    ensures r.1 == None <==> Covered(s, rebinned, score)
    ensures r.1 != None ==> r == (s, Some(KeyError))
  {
    match ConvertToScoreBinnedHistograms(s, rebinned, score)
    case Ok(n) => (n, None)
    case Err(e) => (s, Some(e))
  }

  method Convert(s: Store, rebinned: ODict<Key, seq<string>>, score: map<string, real>) returns (hists: Store, raised: Option<PyError>)
    requires Nested(s)
    ensures (hists, raised) == ScoreState(s, rebinned, score)
  {
    var r := ConvertLoop(s, rebinned, score);
    if r.Err? {
      return s, Some(r.error);
    }
    return r.value, None;
  }
}
