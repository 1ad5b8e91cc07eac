/**
 * The scale-factor algebra: data = mc * sf, bin by bin, so any one of the three histogram
 * types can be derived from the other two (`CalculateHistograms`), and a whole type can be
 * multiplied or divided by one histogram (`ScaleHistogramsByHistogram`).
 */
module Algebra {
  import opened Wrappers
  import opened Sequences
  import opened OrderedDicts
  import opened Histograms
  import opened WorkingPoints
  import opened Stores

  /** The type whose keys the new dict takes, and whose histograms are copied first. */
  function Source(o: string): string
  {
    if o == "data" then "mc" else "data"
  }

  /** The type each copied histogram is multiplied or divided by. */
  function Factor(o: string): string
  {
    if o == "sf" then "mc" else "sf"
  }

  /** mc = data / sf, data = mc * sf, sf = data / mc. */
  function Combine(o: string, a: Hist, b: Hist): Hist
  {
    if o == "data" then Multiply(a, b) else Divide(a, b)
  }

  /** Combine as a function value, the operation the loop applies. */
  function Op(o: string): (Hist, Hist) -> Hist
  {
    (a, b) => Combine(o, a, b)
  }

  /** The two types `CalculateHistograms(o)` needs are both stored. */
  predicate Inputs(s: Store, o: string)
  {
    Source(o) in s.vals && Factor(o) in s.vals
  }

  /**
   * The loop of `CalculateHistograms` from position i of the source keys: copy the source
   * value into `out`, then combine it with the factor of the same key; a key the factor
   * lacks raises KeyError after the copy is stored.
   */
  function FillFrom<K(==,!new), V>(out: ODict<K, V>, op: (V, V) -> V, src: ODict<K, V>, fac: map<K, V>, i: nat)
    : (r: Outcome<ODict<K, V>>)
    requires Valid(out) && Valid(src) && i <= |src.keys|
    ensures Valid(r.state)
    decreases |src.keys| - i
  {
    if i == |src.keys| then Outcome(out, None)
    else
      var k := src.keys[i];
      if k !in fac then Outcome(Set(out, k, src.vals[k]), Some(KeyError))
      else FillFrom(Set(out, k, op(src.vals[k], fac[k])), op, src, fac, i + 1)
  }

  /** One pass of the loop over a key the factor holds. */
  lemma FillStep<K(!new), V>(out: ODict<K, V>, op: (V, V) -> V, src: ODict<K, V>, fac: map<K, V>, i: nat)
    requires Valid(out) && Valid(src) && i < |src.keys| && src.keys[i] in fac
    ensures var k := src.keys[i];
      FillFrom(out, op, src, fac, i) == FillFrom(Set(out, k, op(src.vals[k], fac[k])), op, src, fac, i + 1)
  {
  }

  /**
   * `CalculateHistograms(o)`: nothing happens for an unknown type or when one of the two
   * other types is missing; otherwise type o is replaced by a new dict filled by the loop.
   */
  function CalculateHistograms(s: Store, o: string): (r: Outcome<Store>)
    requires Nested(s)
    ensures Nested(r.state)
    ensures !CheckType(o) || !Inputs(s, o) ==> r == Outcome(s, None)
    ensures CheckType(o) && Inputs(s, o) ==>
      r.state.keys == (if o in s.vals then s.keys else s.keys + [o]) &&
      forall k :: k in s.vals && k != o ==> r.state.vals[k] == s.vals[k]
  {
    if !CheckType(o) || !Inputs(s, o) then Outcome(s, None)
    else
      var f := FillFrom(Empty(), Op(o), s.vals[Source(o)], s.vals[Factor(o)].vals, 0);
      Outcome(Set(s, o, f.state), f.raised)
  }

  /** The first position from i of a source key that the factor lacks, if any. */
  function FirstMissing<K, V>(src: seq<K>, fac: map<K, V>, i: nat): (j: nat)
    requires i <= |src|
    ensures i <= j <= |src|
    ensures forall m :: i <= m < j ==> src[m] in fac
    ensures j < |src| ==> src[j] !in fac
    decreases |src| - i
  {
    if i == |src| || src[i] !in fac then i else FirstMissing(src, fac, i + 1)
  }

  /** What the loop stores under key k: the combination, or the plain copy when the factor lacks k. */
  function Filled<K(==,!new), V>(op: (V, V) -> V, src: ODict<K, V>, fac: map<K, V>, k: K): V
    requires k in src.vals
  {
    if k in fac then op(src.vals[k], fac[k]) else src.vals[k]
  }

  /** Every value in `d` is what the loop stores under its key. */
  ghost predicate AllFilled<K(!new), V>(d: ODict<K, V>, op: (V, V) -> V, src: ODict<K, V>, fac: map<K, V>)
  {
    forall k :: k in d.vals ==> k in src.vals && d.vals[k] == Filled(op, src, fac, k)
  }

  /** Storing what the loop stores under a source key keeps every value right. */
  lemma AllFilledSet<K(!new), V>(d: ODict<K, V>, op: (V, V) -> V, src: ODict<K, V>, fac: map<K, V>, k: K)
    requires Valid(d) && AllFilled(d, op, src, fac) && k in src.vals
    ensures AllFilled(Set(d, k, Filled(op, src, fac, k)), op, src, fac)
  {
  }

  /** What the loop leaves when j is the first position it meets whose key the factor lacks:
      KeyError and the keys up to j, or no exception and every source key; each value right. */
  ghost predicate FillEnds<K(!new), V>(r: Outcome<ODict<K, V>>, op: (V, V) -> V, src: ODict<K, V>, fac: map<K, V>, j: nat)
    requires j <= |src.keys|
  {
    && (r.raised.Some? <==> j < |src.keys|)
    && (r.raised.Some? ==> r.raised == Some(KeyError))
    && r.state.keys == src.keys[..if j < |src.keys| then j + 1 else j]
    && AllFilled(r.state, op, src, fac)
  }

  /** The round that meets a key the factor lacks is the last. */
  lemma FillMissing<K(!new), V>(out: ODict<K, V>, op: (V, V) -> V, src: ODict<K, V>, fac: map<K, V>, i: nat)
    requires Valid(out) && Valid(src) && i < |src.keys| && src.keys[i] !in fac
    requires out.keys == src.keys[..i] && AllFilled(out, op, src, fac)
    ensures FillEnds(FillFrom(out, op, src, fac, i), op, src, fac, FirstMissing(src.keys, fac, i))
  {
    var k := src.keys[i];
    SetNext(out, src, i, src.vals[k]);
    AllFilledSet(out, op, src, fac, k);
  }

  /** Past a key the factor holds, the first missing key is the same. */
  lemma FirstMissingStep<K, V>(src: seq<K>, fac: map<K, V>, i: nat)
    requires i < |src| && src[i] in fac
    ensures FirstMissing(src, fac, i) == FirstMissing(src, fac, i + 1)
  {
  }

  /**
   * The loop fills the source keys from i in order up to the first key the factor lacks;
   * that key gets the plain copy and KeyError is raised.
   */
  lemma {:induction false} FillFacts<K(!new), V>(out: ODict<K, V>, op: (V, V) -> V, src: ODict<K, V>, fac: map<K, V>, i: nat)
    requires Valid(out) && Valid(src) && i <= |src.keys|
    requires out.keys == src.keys[..i] && AllFilled(out, op, src, fac)
    ensures FillEnds(FillFrom(out, op, src, fac, i), op, src, fac, FirstMissing(src.keys, fac, i))
    decreases |src.keys| - i
  {
    if i == |src.keys| {
      assert src.keys[..i] == src.keys;
    } else if src.keys[i] !in fac {
      FillMissing(out, op, src, fac, i);
    } else {
      var k := src.keys[i];
      var v := op(src.vals[k], fac[k]);
      SetNext(out, src, i, v);
      AllFilledSet(out, op, src, fac, k);
      FillFacts(Set(out, k, v), op, src, fac, i + 1);
      FillStep(out, op, src, fac, i);
      FirstMissingStep(src.keys, fac, i);
    }
  }

  /**
   * The whole loop from an empty dict: it raises KeyError exactly when a source key is
   * missing from the factor, and then holds the source keys up to that key; otherwise it
   * holds every source key in source order; each value is the combination, or the plain copy
   * for the missing key.
   */
  lemma FillResult<K(!new), V>(op: (V, V) -> V, src: ODict<K, V>, fac: map<K, V>)
    requires Valid(src)
    ensures var r := FillFrom(Empty(), op, src, fac, 0);
      && (r.raised.None? <==> forall k :: k in src.vals ==> k in fac)
      && (r.raised.None? ==> r.state.keys == src.keys)
      && (r.raised.Some? ==>
            && r.raised == Some(KeyError)
            && exists j :: 0 <= j < |src.keys| && r.state.keys == src.keys[..j + 1] && src.keys[j] !in fac &&
                 forall m :: 0 <= m < j ==> src.keys[m] in fac)
      && forall k :: k in r.state.vals ==> k in src.vals && r.state.vals[k] == Filled(op, src, fac, k)
  {
    assert src.keys[..0] == [];
    FillFacts(Empty(), op, src, fac, 0);
    var r := FillFrom(Empty(), op, src, fac, 0);
    var j := FirstMissing(src.keys, fac, 0);
    assert FillEnds(r, op, src, fac, j);
    if j == |src.keys| {
      assert src.keys[..j] == src.keys;
      forall k | k in src.vals ensures k in fac {
        assert k in src.keys;
      }
    } else {
      assert src.keys[j] in src.vals && src.keys[j] !in fac;
      assert r.state.keys == src.keys[..j + 1];
    }
  }

  /**
   * `CalculateHistograms(o)` for a known type with both inputs stored: the other types are
   * untouched; it raises KeyError exactly when a source key is missing from the factor type,
   * and then type o holds the source keys up to that key, the last one a plain copy; otherwise
   * type o holds every source key, in source order, with the source histogram combined with
   * the factor histogram of the same key.
   */
  lemma CalculateHistogramsResult(s: Store, o: string)
    requires Nested(s) && CheckType(o) && Inputs(s, o)
    ensures var r := CalculateHistograms(s, o);
      var src, fac := s.vals[Source(o)], s.vals[Factor(o)].vals;
      var d := r.state.vals[o];
      && r.state.keys == Set(s, o, d).keys
      && (forall k :: k in s.vals && k != o ==> r.state.vals[k] == s.vals[k])
      && (r.raised.None? <==> forall k :: k in src.vals ==> k in fac)
      && (r.raised.None? ==> d.keys == src.keys)
      && (r.raised.Some? ==>
            && r.raised == Some(KeyError)
            && exists j :: 0 <= j < |src.keys| && d.keys == src.keys[..j + 1] && src.keys[j] !in fac &&
                 forall m :: 0 <= m < j ==> src.keys[m] in fac)
      && forall k :: k in d.vals ==>
           k in src.vals && d.vals[k] == if k in fac then Combine(o, src.vals[k], fac[k]) else src.vals[k]
  {
    FillResult(Op(o), s.vals[Source(o)], s.vals[Factor(o)].vals);
  }

  /** Deriving sf from data and mc, then data from mc and sf, gives back the data contents when
      no mc bin is empty. */
  lemma DataRoundTrip(s: Store)
    requires Nested(s) && "data" in s.vals && "mc" in s.vals
    requires var data, mc := s.vals["data"], s.vals["mc"];
      data.keys == mc.keys &&
      forall k :: k in data.vals ==> NBins(data.vals[k]) == NBins(mc.vals[k]) && NoZeroBins(mc.vals[k])
    ensures var r1 := CalculateHistograms(s, "sf");
      var r2 := CalculateHistograms(r1.state, "data");
      && r1.raised.None? && r2.raised.None?
      && r2.state.vals["data"].keys == s.vals["data"].keys
      && forall k :: k in s.vals["data"].vals ==>
           r2.state.vals["data"].vals[k].contents == s.vals["data"].vals[k].contents
  {
    var data, mc := s.vals["data"], s.vals["mc"];
    CalculateHistogramsResult(s, "sf");
    var r1 := CalculateHistograms(s, "sf");
    var sf := r1.state.vals["sf"];
    assert forall k :: k in data.vals ==> k in mc.vals by {
      forall k | k in data.vals ensures k in mc.vals {
        assert k in data.keys;
      }
    }
    CalculateHistogramsResult(r1.state, "data");
    forall k | k in data.vals
      ensures CalculateHistograms(r1.state, "data").state.vals["data"].vals[k].contents == data.vals[k].contents
    {
      assert sf.vals[k] == Divide(data.vals[k], mc.vals[k]);
      FactorTimesQuotient(data.vals[k], mc.vals[k]);
    }
  }

  /** Deriving data from mc and sf, then mc from data and sf, gives back the mc contents when
      no sf bin is empty. */
  lemma McRoundTrip(s: Store)
    requires Nested(s) && "mc" in s.vals && "sf" in s.vals
    requires var mc, sf := s.vals["mc"], s.vals["sf"];
      mc.keys == sf.keys &&
      forall k :: k in mc.vals ==> NBins(mc.vals[k]) == NBins(sf.vals[k]) && NoZeroBins(sf.vals[k])
    ensures var r1 := CalculateHistograms(s, "data");
      var r2 := CalculateHistograms(r1.state, "mc");
      && r1.raised.None? && r2.raised.None?
      && r2.state.vals["mc"].keys == s.vals["mc"].keys
      && forall k :: k in s.vals["mc"].vals ==>
           r2.state.vals["mc"].vals[k].contents == s.vals["mc"].vals[k].contents
  {
    var mc, sf := s.vals["mc"], s.vals["sf"];
    CalculateHistogramsResult(s, "data");
    var r1 := CalculateHistograms(s, "data");
    assert forall k :: k in mc.vals ==> k in sf.vals by {
      forall k | k in mc.vals ensures k in sf.vals {
        assert k in mc.keys;
      }
    }
    CalculateHistogramsResult(r1.state, "mc");
    forall k | k in mc.vals
      ensures CalculateHistograms(r1.state, "mc").state.vals["mc"].vals[k].contents == mc.vals[k].contents
    {
      MultiplyThenDivide(mc.vals[k], sf.vals[k]);
    }
  }

  /** One histogram of the type multiplied, or divided, by `h`. */
  function Scaled(v: Hist, h: Hist, divide: bool): Hist
  {
    if divide then Divide(v, h) else Multiply(v, h)
  }

  /** `ScaleHistogramsByHistogram(t, h, divide)`: every histogram of type t is multiplied or
      divided by h in place; a type that is not stored raises KeyError. */
  function ScaleHistogramsByHistogram(s: Store, t: string, h: Hist, divide: bool): (r: Outcome<Store>)
    requires Nested(s)
    ensures Nested(r.state) && r.state.keys == s.keys
    ensures r.raised.Some? <==> t !in s.vals
    ensures t in s.vals ==> r.state.vals[t].keys == s.vals[t].keys
    ensures t in s.vals ==> forall k :: k in s.vals[t].vals ==>
      r.state.vals[t].vals[k] == Scaled(s.vals[t].vals[k], h, divide)
    ensures forall u :: u in s.vals && u != t ==> r.state.vals[u] == s.vals[u]
  {
    if t !in s.vals then Outcome(s, Some(KeyError))
    else Outcome(Set(s, t, MapValues(s.vals[t], (k, v) => Scaled(v, h, divide))), None)
  }

  /** Dividing a type by a histogram with no empty bin undoes multiplying it by that histogram:
      the keys and every histogram's contents come back. */
  lemma ScaleRoundTrip(s: Store, t: string, h: Hist)
    requires Nested(s) && t in s.vals && NoZeroBins(h)
    ensures var r1 := ScaleHistogramsByHistogram(s, t, h, false);
      var r2 := ScaleHistogramsByHistogram(r1.state, t, h, true);
      && r2.raised.None?
      && r2.state.vals[t].keys == s.vals[t].keys
      && forall k :: k in s.vals[t].vals ==> r2.state.vals[t].vals[k].contents == s.vals[t].vals[k].contents
  {
    var d := s.vals[t];
    var r1 := ScaleHistogramsByHistogram(s, t, h, false);
    forall k | k in d.vals
      ensures ScaleHistogramsByHistogram(r1.state, t, h, true).state.vals[t].vals[k].contents == d.vals[k].contents
    {
      if NBins(d.vals[k]) == NBins(h) {
        MultiplyThenDivide(d.vals[k], h);
      }
    }
  }

  /** The loop of `CalculateHistograms(o)` over the keys of the source type: each key stored
      combined with the factor's histogram; at the first key the factor lacks, the plain copy
      is stored and KeyError raised. */
  method CalculateLoop(s: Store, o: string) returns (r: Outcome<Store>)
    requires Nested(s)
    ensures r == CalculateHistograms(s, o)
  {
    if !CheckType(o) || Source(o) !in s.vals || Factor(o) !in s.vals {
      return Outcome(s, None);
    }
    var src, fac := s.vals[Source(o)], s.vals[Factor(o)].vals;
    var out: HistDict := Empty();
    for i := 0 to |src.keys|
      invariant Valid(out)
      invariant FillFrom(out, Op(o), src, fac, i) == FillFrom(Empty(), Op(o), src, fac, 0)
    {
      var k := src.keys[i];
      if k !in fac {
        out := Set(out, k, src.vals[k]);
        NestedSet(s, o, out);
        return Outcome(Set(s, o, out), Some(KeyError));
      }
      var c := Combine(o, src.vals[k], fac[k]);
      assert Op(o)(src.vals[k], fac[k]) == c;
      FillStep(out, Op(o), src, fac, i);
      out := Set(out, k, c);
    }
    NestedSet(s, o, out);
    return Outcome(Set(s, o, out), None);
  }
}
