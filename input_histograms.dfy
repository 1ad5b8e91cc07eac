/**
 * `InputHistograms(hists, input_type)` on the tool's store: store a copy of `hists` under the
 * type, recompute the working-point order from its keys, and run the reconciliation loop
 * with that order.
 */
module Inputs {
  import opened Wrappers
  import opened Sequences
  import opened OrderedDicts
  import opened WorkingPoints
  import opened Stores
  import opened Reconciliation

  /** The working-point names as dict keys. */
  function WpKeys(names: seq<string>): (r: seq<Key>)
    ensures |r| == |names| && forall i :: 0 <= i < |r| ==> r[i] == Wp(names[i])
  {
    seq(|names|, i requires 0 <= i < |names| => Wp(names[i]))
  }

  /** The keys of the order computed from the keys of `hists`. */
  function Order(hists: HistDict): seq<Key>
  {
    WpKeys(SortedWps(hists.keys))
  }

  /** The order holds each key of `hists` that names a working point of some tier, once. */
  lemma OrderFacts(hists: HistDict)
    requires Valid(hists)
    ensures Distinct(Order(hists))
    ensures forall x :: x in Order(hists) <==> x in hists.vals && TierOfKey(x) != Unclassified
  {
    var names := SortedWps(hists.keys);
    var r := Order(hists);
    SortedWpsDistinct(hists.keys);
    forall x ensures x in r <==> x in hists.vals && TierOfKey(x) != Unclassified {
      if x.Wp? {
        SortedWpsMembers(hists.keys, x.name);
        if x.name in names {
          var i :| 0 <= i < |names| && names[i] == x.name;
          assert r[i] == x;
        }
      }
    }
  }

  /** The store after `InputHistograms(hists, t)`; an unknown type leaves it as it is. */
  function InputHistograms(s: Store, hists: HistDict, t: string): (o: Outcome<Store>)
    requires Nested(s) && Valid(hists)
    ensures Nested(o.state)
    ensures o.state.keys == if CheckType(t) then Set(s, t, hists).keys else s.keys
    ensures o.state.vals.Keys == s.vals.Keys + if CheckType(t) then {t} else {}
  {
    if !CheckType(t) then Outcome(s, None)
    else
      var s0 := Set(s, t, hists);
      ReconcileFrom(s0, t, Order(hists), 0)
  }

  lemma Start(s: Store, hists: HistDict, t: string)
    requires Nested(s) && Valid(hists) && CheckType(t)
    ensures Setting(Set(s, t, hists), t, Order(hists))
  {
    OrderFacts(hists);
  }

  /**
   * `InputHistograms` raises KeyError exactly when some working point of the order is lacked
   * by another type and then again by a later type, or by a type stored before the input type
   * (the input type no longer holds it when its own turn comes).
   */
  lemma InputHistogramsRaises(s: Store, hists: HistDict, t: string)
    requires Nested(s) && Valid(hists) && CheckType(t)
    ensures var s0 := Set(s, t, hists);
      InputHistograms(s, hists, t).raised.Some? <==>
      exists j2 :: 0 <= j2 < |s0.keys| && ClashAt(s0, t, Order(hists), j2)
  {
    Start(s, hists, t);
    ReconcileRaises(Set(s, t, hists), t, Order(hists));
  }

  /**
   * When `InputHistograms` does not raise, the input type holds x exactly when x is one of its
   * keys naming a working point of some tier and every other type holds x; the histogram is
   * the one given.
   */
  lemma InputHistogramsInputType(s: Store, hists: HistDict, t: string, x: Key)
    requires Nested(s) && Valid(hists) && CheckType(t)
    requires InputHistograms(s, hists, t).raised.None?
    ensures var d := InputHistograms(s, hists, t).state.vals[t].vals;
      && (x in d <==> x in hists.vals && TierOfKey(x) != Unclassified &&
                      forall k :: k in s.vals && k != t ==> x in s.vals[k].vals)
      && (x in d ==> d[x] == hists.vals[x])
  {
    var s0 := Set(s, t, hists);
    Start(s, hists, t);
    OrderFacts(hists);
    ReconcileCommon(s0, t, Order(hists), x);
    if x in InputHistograms(s, hists, t).state.vals[t].vals {
      ReconcileValues(s0, t, Order(hists), t, x);
    }
  }

  /**
   * When `InputHistograms` does not raise, every other type k holds x exactly when it held x
   * before and x is a key of the input naming a working point of some tier; its histograms
   * are unchanged.
   */
  lemma InputHistogramsOtherType(s: Store, hists: HistDict, t: string, k: string, x: Key)
    requires Nested(s) && Valid(hists) && CheckType(t)
    requires InputHistograms(s, hists, t).raised.None? && k in s.vals && k != t
    ensures var d := InputHistograms(s, hists, t).state.vals[k].vals;
      && (x in d <==> x in s.vals[k].vals && x in hists.vals && TierOfKey(x) != Unclassified)
      && (x in d ==> d[x] == s.vals[k].vals[x])
  {
    var s0 := Set(s, t, hists);
    Start(s, hists, t);
    OrderFacts(hists);
    ReconcileOthers(s0, t, Order(hists), k, x);
    if x in InputHistograms(s, hists, t).state.vals[k].vals {
      ReconcileValues(s0, t, Order(hists), k, x);
    }
  }

  /**
   * When every other type holds every key of the input that names a working point, the call
   * does not raise and leaves every type with exactly those keys.
   */
  lemma InputHistogramsAgree(s: Store, hists: HistDict, t: string)
    requires Nested(s) && Valid(hists) && CheckType(t)
    requires forall k, x :: k in s.vals && k != t && x in hists.vals && TierOfKey(x) != Unclassified ==>
      x in s.vals[k].vals
    ensures var o := InputHistograms(s, hists, t);
      && o.raised.None?
      && forall k, x :: k in o.state.vals ==>
           (x in o.state.vals[k].vals <==> x in hists.vals && TierOfKey(x) != Unclassified)
  {
    Start(s, hists, t);
    OrderFacts(hists);
    ReconcileAgree(Set(s, t, hists), t, Order(hists));
  }
}
