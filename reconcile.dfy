/**
 * The reconciliation loop of `InputHistograms`, for any dict of dicts: type `t` has just been
 * stored, `order` is the list of working points computed from its keys, and every stored
 * type, in store order, first loses its keys outside `order`; then every point of `order`
 * that this type lacks is deleted from type `t`, which raises KeyError when `t` no longer
 * holds it.
 */
module Reconciliation {
  import opened Wrappers
  import opened Sequences
  import opened OrderedDicts

  /** The keys of `ks` that are in `order`, in the order of `ks`. */
  function KeptKeys<K(==,!new)>(ks: seq<K>, order: seq<K>): (r: seq<K>)
    ensures forall x :: x in r <==> x in ks && x in order
    ensures Distinct(ks) ==> Distinct(r)
  {
    if ks == [] then []
    else
      var front := ks[..|ks| - 1];
      assert ks == front + [ks[|ks| - 1]];
      var f := KeptKeys(front, order);
      if ks[|ks| - 1] in order then f + [ks[|ks| - 1]] else f
  }

  /** The first inner loop: a dict without its keys that are not in `order`. */
  function Prune<K(==,!new), V>(d: ODict<K, V>, order: seq<K>): (r: ODict<K, V>)
    requires Valid(d)
    ensures Valid(r) && r.keys == KeptKeys(d.keys, order)
    ensures forall x :: x in r.vals <==> x in d.vals && x in order
    ensures forall x :: x in r.vals ==> r.vals[x] == d.vals[x]
  {
    ODict(KeptKeys(d.keys, order), map x | x in d.vals && x in order :: d.vals[x])
  }

  /** The first inner loop after its first j keys: those outside `order` deleted, the others,
      and the keys not reached yet, still there in their places. */
  ghost function PrunedUpTo<K(!new), V>(d: ODict<K, V>, order: seq<K>, j: nat): ODict<K, V>
    requires j <= |d.keys|
  {
    ODict(KeptKeys(d.keys[..j], order) + d.keys[j..],
          map x | x in d.vals && (x in order || x in d.keys[j..]) :: d.vals[x])
  }

  lemma PrunedValid<K(!new), V>(d: ODict<K, V>, order: seq<K>, j: nat)
    requires Valid(d) && j <= |d.keys|
    ensures Valid(PrunedUpTo(d, order, j))
  {
    var a, b := KeptKeys(d.keys[..j], order), d.keys[j..];
    assert d.keys == d.keys[..j] + b;
    assert Distinct(d.keys[..j]);
    forall p, q | 0 <= p < q < |a + b| ensures (a + b)[p] != (a + b)[q] {
      if p < |a| && q >= |a| {
        assert (a + b)[p] in d.keys[..j];
        assert (a + b)[q] == d.keys[j + q - |a|];
      }
    }
  }

  lemma PrunedStart<K(!new), V>(d: ODict<K, V>, order: seq<K>)
    requires Valid(d)
    ensures PrunedUpTo(d, order, 0) == d
  {
    assert d.keys[..0] == [] && d.keys[0..] == d.keys;
  }

  lemma PrunedEnd<K(!new), V>(d: ODict<K, V>, order: seq<K>)
    requires Valid(d)
    ensures PrunedUpTo(d, order, |d.keys|) == Prune(d, order)
  {
    assert d.keys[..|d.keys|] == d.keys;
  }

  /** A key of `order` is kept. */
  lemma PrunedKeep<K(!new), V>(d: ODict<K, V>, order: seq<K>, j: nat)
    requires Valid(d) && j < |d.keys| && d.keys[j] in order
    ensures PrunedUpTo(d, order, j + 1) == PrunedUpTo(d, order, j)
  {
    var ks := d.keys;
    assert ks[..j + 1][..j] == ks[..j];
    assert ks[j..] == [ks[j]] + ks[j + 1..];
  }

  /** A key outside `order` is deleted. */
  lemma PrunedDrop<K(!new), V>(d: ODict<K, V>, order: seq<K>, j: nat)
    requires Valid(d) && j < |d.keys| && d.keys[j] !in order
    ensures Valid(PrunedUpTo(d, order, j)) && d.keys[j] in PrunedUpTo(d, order, j).vals
    ensures PrunedUpTo(d, order, j + 1) == Remove(PrunedUpTo(d, order, j), d.keys[j])
  {
    var ks := d.keys;
    var x := ks[j];
    PrunedValid(d, order, j);
    assert ks[..j + 1][..j] == ks[..j];
    assert ks[j..] == [x] + ks[j + 1..];
    assert ks == ks[..j] + [x] + ks[j + 1..];
    assert x !in ks[..j] && x !in ks[j + 1..];
    var a := KeptKeys(ks[..j], order);
    assert a + ks[j..] == a + [x] + ks[j + 1..];
    WithoutSingle(a, x, ks[j + 1..]);
  }

  /**
   * The second inner loop from position j of `order`: a point missing from type k is deleted
   * from type t, and a KeyError is raised if t no longer holds it.
   */
  function DropMissingFrom<T(==,!new), K(==,!new), V>(s: ODict<T, ODict<K, V>>, t: T, k: T, order: seq<K>, j: nat)
    : (o: Outcome<ODict<T, ODict<K, V>>>)
    requires Nested(s) && t in s.vals && k in s.vals && j <= |order|
    ensures Nested(o.state) && o.state.keys == s.keys && o.state.vals.Keys == s.vals.Keys
    decreases |order| - j
  {
    if j == |order| then Outcome(s, None)
    else if order[j] in s.vals[k].vals then DropMissingFrom(s, t, k, order, j + 1)
    else if order[j] !in s.vals[t].vals then Outcome(s, Some(KeyError))
    else DropMissingFrom(Set(s, t, Remove(s.vals[t], order[j])), t, k, order, j + 1)
  }

  /** The loop over the stored types from position i: prune type k, then drop what it lacks. */
  function ReconcileFrom<T(==,!new), K(==,!new), V>(s: ODict<T, ODict<K, V>>, t: T, order: seq<K>, i: nat)
    : (o: Outcome<ODict<T, ODict<K, V>>>)
    requires Nested(s) && t in s.vals && i <= |s.keys|
    ensures Nested(o.state) && o.state.keys == s.keys && o.state.vals.Keys == s.vals.Keys
    decreases |s.keys| - i
  {
    if i == |s.keys| then Outcome(s, None)
    else
      var k := s.keys[i];
      var o := DropMissingFrom(Set(s, k, Prune(s.vals[k], order)), t, k, order, 0);
      if o.raised.Some? then o else ReconcileFrom(o.state, t, order, i + 1)
  }

  /** Every point of `ws` that type k lacks can still be deleted from type t. */
  ghost predicate Covered<T(!new), K(!new), V>(s: ODict<T, ODict<K, V>>, t: T, k: T, ws: seq<K>)
    requires Nested(s) && t in s.vals && k in s.vals
  {
    forall w :: w in ws ==> w in s.vals[k].vals || (k != t && w in s.vals[t].vals)
  }

  /** s2 is s1 with the points of `ws` that type k lacks deleted from type t. */
  ghost predicate Dropped<T(!new), K(!new), V>(s1: ODict<T, ODict<K, V>>, s2: ODict<T, ODict<K, V>>, t: T, k: T, ws: seq<K>)
    requires Nested(s1) && t in s1.vals && k in s1.vals
    requires Nested(s2) && s2.vals.Keys == s1.vals.Keys
  {
    && (forall k' :: k' in s1.vals && k' != t ==> s2.vals[k'] == s1.vals[k'])
    && (forall x :: x in s2.vals[t].vals <==> x in s1.vals[t].vals && !(x in ws && x !in s1.vals[k].vals))
    && (forall x :: x in s2.vals[t].vals ==> s2.vals[t].vals[x] == s1.vals[t].vals[x])
  }

  /** The second inner loop: it raises exactly when a lacking point is gone from type t,
      and otherwise deletes from t exactly the points that k lacks. */
  lemma {:induction false} DropMissingFacts<T(!new), K(!new), V>(s: ODict<T, ODict<K, V>>, t: T, k: T, order: seq<K>, j: nat)
    requires Nested(s) && t in s.vals && k in s.vals && j <= |order| && Distinct(order)
    ensures var o := DropMissingFrom(s, t, k, order, j);
      && (o.raised.None? <==> Covered(s, t, k, order[j..]))
      && (o.raised.None? ==> Dropped(s, o.state, t, k, order[j..]))
    decreases |order| - j
  {
    if j < |order| {
      var w := order[j];
      assert order[j..] == [w] + order[j + 1..];
      assert w !in order[j + 1..];
      if w in s.vals[k].vals {
        DropMissingFacts(s, t, k, order, j + 1);
      } else if w in s.vals[t].vals {
        DropMissingFacts(Set(s, t, Remove(s.vals[t], w)), t, k, order, j + 1);
      }
    }
  }

  /** What the loop over the stored types can rely on: t holds every point of `order`. */
  ghost predicate Setting<T(!new), K(!new), V>(s0: ODict<T, ODict<K, V>>, t: T, order: seq<K>)
  {
    Nested(s0) && t in s0.vals && Distinct(order) && forall w :: w in order ==> w in s0.vals[t].vals
  }

  /** The points of `order` that type k lacks. */
  ghost function Miss<T(!new), K(!new), V>(s0: ODict<T, ODict<K, V>>, k: T, order: seq<K>): set<K>
    requires Nested(s0) && k in s0.vals
  {
    set w | w in order && w !in s0.vals[k].vals
  }

  /** The points deleted from type t by the first i types of the store, when none raised. */
  ghost function Missed<T(!new), K(!new), V>(s0: ODict<T, ODict<K, V>>, t: T, order: seq<K>, i: nat): (m: set<K>)
    requires Nested(s0) && i <= |s0.keys|
    ensures forall w :: w in m ==> w in order
  {
    if i == 0 then {}
    else
      var k := s0.keys[i - 1];
      Missed(s0, t, order, i - 1) + if k == t then {} else Miss(s0, k, order)
  }

  /** Position i of the store does not raise: an other type lacks no point already deleted,
      and type t itself finds none deleted. */
  ghost predicate StepOk<T(!new), K(!new), V>(s0: ODict<T, ODict<K, V>>, t: T, order: seq<K>, i: nat)
    requires Nested(s0) && i < |s0.keys|
  {
    var k := s0.keys[i];
    if k == t then Missed(s0, t, order, i) == {} else Miss(s0, k, order) * Missed(s0, t, order, i) == {}
  }

  /** No position from i on raises. */
  ghost predicate OkFrom<T(!new), K(!new), V>(s0: ODict<T, ODict<K, V>>, t: T, order: seq<K>, i: nat)
    requires Nested(s0) && i <= |s0.keys|
    decreases |s0.keys| - i
  {
    i == |s0.keys| || (StepOk(s0, t, order, i) && OkFrom(s0, t, order, i + 1))
  }

  /** Whether type `s0.keys[j]` still holds x once the first p types are pruned and the points
      `gone` are deleted from t. */
  ghost predicate Alive<T(!new), K(!new), V>(s0: ODict<T, ODict<K, V>>, t: T, order: seq<K>, p: nat, gone: set<K>, j: nat, x: K)
    requires Nested(s0) && j < |s0.keys|
  {
    && x in s0.vals[s0.keys[j]].vals
    && (j < p ==> x in order)
    && (s0.keys[j] == t ==> x !in gone)
  }

  /** Every type keeps the histograms it started with, on the keys still alive. */
  ghost predicate Holds<T(!new), K(!new), V>(s0: ODict<T, ODict<K, V>>, s: ODict<T, ODict<K, V>>, t: T, order: seq<K>, p: nat, gone: set<K>)
    requires Nested(s0)
  {
    && Nested(s) && s.keys == s0.keys && s.vals.Keys == s0.vals.Keys
    && (forall k, x :: k in s.vals && x in s.vals[k].vals ==>
          x in s0.vals[k].vals && s.vals[k].vals[x] == s0.vals[k].vals[x])
    && (forall j, x :: 0 <= j < |s0.keys| ==> (x in s.vals[s0.keys[j]].vals <==> Alive(s0, t, order, p, gone, j, x)))
  }

  /** Pruning type i moves the store from p = i to p = i + 1. */
  lemma PruneStep<T(!new), K(!new), V>(s0: ODict<T, ODict<K, V>>, s: ODict<T, ODict<K, V>>, t: T, order: seq<K>, i: nat)
    requires Setting(s0, t, order) && i < |s0.keys| && Holds(s0, s, t, order, i, Missed(s0, t, order, i))
    ensures var k := s0.keys[i];
      Holds(s0, Set(s, k, Prune(s.vals[k], order)), t, order, i + 1, Missed(s0, t, order, i))
  {
    var k := s0.keys[i];
    var s1 := Set(s, k, Prune(s.vals[k], order));
    forall kk, x | kk in s1.vals && x in s1.vals[kk].vals
      ensures x in s0.vals[kk].vals && s1.vals[kk].vals[x] == s0.vals[kk].vals[x]
    {
      if kk == k {
        assert s1.vals[kk].vals[x] == s.vals[k].vals[x];
      } else {
        assert s1.vals[kk] == s.vals[kk];
      }
    }
    forall j, x | 0 <= j < |s0.keys|
      ensures x in s1.vals[s0.keys[j]].vals <==> Alive(s0, t, order, i + 1, Missed(s0, t, order, i), j, x)
    {
      assert Alive(s0, t, order, i, Missed(s0, t, order, i), j, x) <==> x in s.vals[s0.keys[j]].vals;
      if j != i {
        assert s0.keys[j] != k;
      }
    }
  }

  /** Once type i is pruned, its pass raises exactly when position i is not `StepOk`. */
  lemma StepRaises<T(!new), K(!new), V>(s0: ODict<T, ODict<K, V>>, s1: ODict<T, ODict<K, V>>, t: T, order: seq<K>, i: nat)
    requires Setting(s0, t, order) && i < |s0.keys| && Holds(s0, s1, t, order, i + 1, Missed(s0, t, order, i))
    ensures Covered(s1, t, s0.keys[i], order) <==> StepOk(s0, t, order, i)
  {
    var k := s0.keys[i];
    var m := Missed(s0, t, order, i);
    assert t in s0.keys;
    var it :| 0 <= it < |s0.keys| && s0.keys[it] == t;
    if k == t {
      if m != {} {
        var w :| w in m;
        assert !Alive(s0, t, order, i + 1, Missed(s0, t, order, i), i, w);
      } else {
        forall w | w in order ensures w in s1.vals[k].vals {
          assert Alive(s0, t, order, i + 1, Missed(s0, t, order, i), i, w);
        }
      }
    } else {
      var mk := Miss(s0, k, order);
      if mk * m != {} {
        var w :| w in mk * m;
        assert !Alive(s0, t, order, i + 1, Missed(s0, t, order, i), i, w);
        assert !Alive(s0, t, order, i + 1, Missed(s0, t, order, i), it, w);
      } else {
        forall w | w in order ensures w in s1.vals[k].vals || w in s1.vals[t].vals {
          if w !in s1.vals[k].vals {
            assert !Alive(s0, t, order, i + 1, Missed(s0, t, order, i), i, w);
            assert w in mk && w !in mk * m;
            assert Alive(s0, t, order, i + 1, Missed(s0, t, order, i), it, w);
          }
        }
      }
    }
  }

  /** A pass that did not raise deletes from t the points that type i lacks. */
  lemma StepHolds<T(!new), K(!new), V>(s0: ODict<T, ODict<K, V>>, s1: ODict<T, ODict<K, V>>, s2: ODict<T, ODict<K, V>>, t: T, order: seq<K>, i: nat)
    requires Setting(s0, t, order) && i < |s0.keys| && Holds(s0, s1, t, order, i + 1, Missed(s0, t, order, i))
    requires Nested(s2) && s2.keys == s0.keys && s2.vals.Keys == s0.vals.Keys
    requires Covered(s1, t, s0.keys[i], order) && Dropped(s1, s2, t, s0.keys[i], order)
    ensures Holds(s0, s2, t, order, i + 1, Missed(s0, t, order, i + 1))
  {
    var k := s0.keys[i];
    forall j, x | 0 <= j < |s0.keys|
      ensures x in s2.vals[s0.keys[j]].vals <==> Alive(s0, t, order, i + 1, Missed(s0, t, order, i + 1), j, x)
    {
      assert Alive(s0, t, order, i + 1, Missed(s0, t, order, i), j, x) <==> x in s1.vals[s0.keys[j]].vals;
      if s0.keys[j] == t {
        assert x in order && x !in s1.vals[k].vals <==> k != t && x in Miss(s0, k, order) by {
          assert Alive(s0, t, order, i + 1, Missed(s0, t, order, i), i, x) <==> x in s1.vals[k].vals;
        }
      }
    }
  }

  /** One pass of the loop over the stored types. */
  lemma ReconcileStep<T(!new), K(!new), V>(s0: ODict<T, ODict<K, V>>, s: ODict<T, ODict<K, V>>, t: T, order: seq<K>, i: nat)
    requires Setting(s0, t, order) && i < |s0.keys| && Holds(s0, s, t, order, i, Missed(s0, t, order, i))
    ensures var k := s0.keys[i];
      var o := DropMissingFrom(Set(s, k, Prune(s.vals[k], order)), t, k, order, 0);
      && (o.raised.None? <==> StepOk(s0, t, order, i))
      && (o.raised.None? ==> Holds(s0, o.state, t, order, i + 1, Missed(s0, t, order, i + 1)))
  {
    var k := s0.keys[i];
    var s1 := Set(s, k, Prune(s.vals[k], order));
    PruneStep(s0, s, t, order, i);
    DropMissingFacts(s1, t, k, order, 0);
    assert order[0..] == order;
    StepRaises(s0, s1, t, order, i);
    var o := DropMissingFrom(s1, t, k, order, 0);
    if o.raised.None? {
      StepHolds(s0, s1, o.state, t, order, i);
    }
  }

  /** One turn of the loop over the stored types. */
  lemma ReconcileUnfold<T(!new), K(!new), V>(s: ODict<T, ODict<K, V>>, t: T, order: seq<K>, i: nat)
    requires Nested(s) && t in s.vals && i < |s.keys|
    ensures var k := s.keys[i];
      var o := DropMissingFrom(Set(s, k, Prune(s.vals[k], order)), t, k, order, 0);
      ReconcileFrom(s, t, order, i) == if o.raised.Some? then o else ReconcileFrom(o.state, t, order, i + 1)
  {
  }

  /** The loop over the stored types from position i: when it raises, and what it leaves. */
  lemma {:induction false} ReconcileFacts<T(!new), K(!new), V>(s0: ODict<T, ODict<K, V>>, s: ODict<T, ODict<K, V>>, t: T, order: seq<K>, i: nat)
    requires Setting(s0, t, order) && i <= |s0.keys| && Holds(s0, s, t, order, i, Missed(s0, t, order, i))
    ensures var o := ReconcileFrom(s, t, order, i);
      && (o.raised.None? <==> OkFrom(s0, t, order, i))
      && (o.raised.None? ==> Holds(s0, o.state, t, order, |s0.keys|, Missed(s0, t, order, |s0.keys|)))
    decreases |s0.keys| - i
  {
    if i < |s0.keys| {
      var k := s0.keys[i];
      var o := DropMissingFrom(Set(s, k, Prune(s.vals[k], order)), t, k, order, 0);
      ReconcileStep(s0, s, t, order, i);
      if o.raised.None? {
        ReconcileFacts(s0, o.state, t, order, i + 1);
      }
      ReconcileUnfold(s, t, order, i);
    }
  }

  /** The points deleted from t so far are those of `order` that an earlier other type lacks. */
  lemma {:induction false} MissedMeans<T(!new), K(!new), V>(s0: ODict<T, ODict<K, V>>, t: T, order: seq<K>, i: nat, w: K)
    requires Nested(s0) && i <= |s0.keys|
    ensures w in Missed(s0, t, order, i) <==>
      w in order && exists j :: 0 <= j < i && s0.keys[j] != t && w !in s0.vals[s0.keys[j]].vals
  {
    if i > 0 {
      MissedMeans(s0, t, order, i - 1, w);
    }
  }

  /** The whole loop, started on the store where t has just been set. */
  lemma Reconcile<T(!new), K(!new), V>(s0: ODict<T, ODict<K, V>>, t: T, order: seq<K>)
    requires Setting(s0, t, order)
    ensures var o := ReconcileFrom(s0, t, order, 0);
      && (o.raised.None? <==> OkFrom(s0, t, order, 0))
      && (o.raised.None? ==> Holds(s0, o.state, t, order, |s0.keys|, Missed(s0, t, order, |s0.keys|)))
  {
    ReconcileFacts(s0, s0, t, order, 0);
  }

  /**
   * The type at position j2 finds a point already deleted from t by an earlier other type:
   * it lacks that point too, or it is t itself.
   */
  ghost predicate ClashAt<T(!new), K(!new), V>(s0: ODict<T, ODict<K, V>>, t: T, order: seq<K>, j2: nat)
    requires Nested(s0) && j2 < |s0.keys|
  {
    exists w, j1 :: 0 <= j1 < j2 && s0.keys[j1] != t && w in order && w !in s0.vals[s0.keys[j1]].vals &&
      (s0.keys[j2] == t || w !in s0.vals[s0.keys[j2]].vals)
  }

  lemma StepOkMeans<T(!new), K(!new), V>(s0: ODict<T, ODict<K, V>>, t: T, order: seq<K>, i: nat)
    requires Setting(s0, t, order) && i < |s0.keys|
    ensures StepOk(s0, t, order, i) <==> !ClashAt(s0, t, order, i)
  {
    var k := s0.keys[i];
    var m := Missed(s0, t, order, i);
    if !StepOk(s0, t, order, i) {
      var w :| w in m && (k == t || w in Miss(s0, k, order));
      MissedMeans(s0, t, order, i, w);
      var j1 :| 0 <= j1 < i && s0.keys[j1] != t && w !in s0.vals[s0.keys[j1]].vals;
      assert ClashAt(s0, t, order, i);
    }
    if ClashAt(s0, t, order, i) {
      var w, j1 :| 0 <= j1 < i && s0.keys[j1] != t && w in order && w !in s0.vals[s0.keys[j1]].vals &&
        (k == t || w !in s0.vals[k].vals);
      MissedMeans(s0, t, order, i, w);
      assert w in m;
      if k != t {
        assert w in Miss(s0, k, order) * m;
      }
    }
  }

  /** No position from i on raises exactly when no position from i on clashes. */
  lemma {:induction false} OkFromMeans<T(!new), K(!new), V>(s0: ODict<T, ODict<K, V>>, t: T, order: seq<K>, i: nat)
    requires Setting(s0, t, order) && i <= |s0.keys|
    ensures OkFrom(s0, t, order, i) <==> forall j :: i <= j < |s0.keys| ==> !ClashAt(s0, t, order, j)
    decreases |s0.keys| - i
  {
    if i < |s0.keys| {
      StepOkMeans(s0, t, order, i);
      OkFromMeans(s0, t, order, i + 1);
    }
  }

  /** The loop raises exactly when some position clashes. */
  lemma ReconcileRaises<T(!new), K(!new), V>(s0: ODict<T, ODict<K, V>>, t: T, order: seq<K>)
    requires Setting(s0, t, order)
    ensures ReconcileFrom(s0, t, order, 0).raised.Some? <==>
      exists j2 :: 0 <= j2 < |s0.keys| && ClashAt(s0, t, order, j2)
  {
    Reconcile(s0, t, order);
    OkFromMeans(s0, t, order, 0);
  }

  /** When the loop does not raise, every other type keeps just its keys that are in `order`. */
  lemma ReconcileOthers<T(!new), K(!new), V>(s0: ODict<T, ODict<K, V>>, t: T, order: seq<K>, k: T, x: K)
    requires Setting(s0, t, order) && k in s0.vals && k != t
    requires ReconcileFrom(s0, t, order, 0).raised.None?
    ensures x in ReconcileFrom(s0, t, order, 0).state.vals[k].vals <==> x in s0.vals[k].vals && x in order
  {
    var n := |s0.keys|;
    Reconcile(s0, t, order);
    assert k in s0.keys;
    var j :| 0 <= j < n && s0.keys[j] == k;
    assert x in ReconcileFrom(s0, t, order, 0).state.vals[k].vals <==>
      Alive(s0, t, order, n, Missed(s0, t, order, n), j, x);
  }

  /** When the loop does not raise, t keeps the points of `order` that every other type holds. */
  lemma ReconcileCommon<T(!new), K(!new), V>(s0: ODict<T, ODict<K, V>>, t: T, order: seq<K>, x: K)
    requires Setting(s0, t, order)
    requires ReconcileFrom(s0, t, order, 0).raised.None?
    ensures x in ReconcileFrom(s0, t, order, 0).state.vals[t].vals <==>
      x in order && forall k :: k in s0.vals && k != t ==> x in s0.vals[k].vals
  {
    var n := |s0.keys|;
    var gone := Missed(s0, t, order, n);
    Reconcile(s0, t, order);
    assert t in s0.keys;
    var it :| 0 <= it < n && s0.keys[it] == t;
    assert x in ReconcileFrom(s0, t, order, 0).state.vals[t].vals <==> Alive(s0, t, order, n, gone, it, x);
    MissedMeans(s0, t, order, n, x);
    if x in order && x !in gone {
      forall k | k in s0.vals && k != t ensures x in s0.vals[k].vals {
        assert k in s0.keys;
        var j :| 0 <= j < n && s0.keys[j] == k;
      }
    }
  }

  /** When the loop does not raise, no value is changed. */
  lemma ReconcileValues<T(!new), K(!new), V>(s0: ODict<T, ODict<K, V>>, t: T, order: seq<K>, k: T, x: K)
    requires Setting(s0, t, order)
    requires ReconcileFrom(s0, t, order, 0).raised.None?
    requires k in s0.vals && x in ReconcileFrom(s0, t, order, 0).state.vals[k].vals
    ensures x in s0.vals[k].vals && ReconcileFrom(s0, t, order, 0).state.vals[k].vals[x] == s0.vals[k].vals[x]
  {
    Reconcile(s0, t, order);
  }

  lemma NoClashWhenHeld<T(!new), K(!new), V>(s0: ODict<T, ODict<K, V>>, t: T, order: seq<K>, j2: nat)
    requires Setting(s0, t, order) && j2 < |s0.keys|
    requires forall k, x :: k in s0.vals && k != t && x in order ==> x in s0.vals[k].vals
    ensures !ClashAt(s0, t, order, j2)
  {
    assert forall j1 :: 0 <= j1 < |s0.keys| ==> s0.keys[j1] in s0.vals;
  }

  /** When every other type holds every point of `order`, the loop does not raise and leaves
      every type with exactly the points of `order`. */
  lemma ReconcileAgree<T(!new), K(!new), V>(s0: ODict<T, ODict<K, V>>, t: T, order: seq<K>)
    requires Setting(s0, t, order)
    requires forall k, x :: k in s0.vals && k != t && x in order ==> x in s0.vals[k].vals
    ensures var o := ReconcileFrom(s0, t, order, 0);
      && o.raised.None?
      && forall k, x :: k in o.state.vals ==> (x in o.state.vals[k].vals <==> x in order)
  {
    ReconcileRaises(s0, t, order);
    forall j2 | 0 <= j2 < |s0.keys| ensures !ClashAt(s0, t, order, j2) {
      NoClashWhenHeld(s0, t, order, j2);
    }
    var o := ReconcileFrom(s0, t, order, 0);
    forall k, x | k in o.state.vals ensures x in o.state.vals[k].vals <==> x in order {
      if k == t {
        ReconcileCommon(s0, t, order, x);
      } else {
        ReconcileOthers(s0, t, order, k, x);
      }
    }
  }

  /** The first inner loop: the keys of d outside `order` deleted one by one, in key order. */
  method PruneLoop<K(==,!new), V>(d: ODict<K, V>, order: seq<K>) returns (r: ODict<K, V>)
    requires Valid(d)
    ensures r == Prune(d, order)
  {
    var ks := d.keys;
    r := d;
    PrunedStart(d, order);
    for j := 0 to |ks|
      invariant Valid(PrunedUpTo(d, order, j)) && r == PrunedUpTo(d, order, j)
    {
      if ks[j] !in order {
        PrunedDrop(d, order, j);
        r := Remove(r, ks[j]);
      } else {
        PrunedKeep(d, order, j);
      }
    }
    PrunedEnd(d, order);
  }

  /** The second inner loop: each point of `order` that type k lacks deleted from type t, or
      KeyError when t does not hold it. */
  method DropLoop<T(==,!new), K(==,!new), V>(s: ODict<T, ODict<K, V>>, t: T, k: T, order: seq<K>)
    returns (o: Outcome<ODict<T, ODict<K, V>>>)
    requires Nested(s) && t in s.vals && k in s.vals
    ensures o == DropMissingFrom(s, t, k, order, 0)
  {
    var cur := s;
    for j := 0 to |order|
      invariant Nested(cur) && cur.keys == s.keys && cur.vals.Keys == s.vals.Keys
      invariant DropMissingFrom(cur, t, k, order, j) == DropMissingFrom(s, t, k, order, 0)
    {
      var w := order[j];
      if w !in cur.vals[k].vals {
        if w !in cur.vals[t].vals {
          return Outcome(cur, Some(KeyError));
        }
        NestedSet(cur, t, Remove(cur.vals[t], w));
        cur := Set(cur, t, Remove(cur.vals[t], w));
      }
    }
    return Outcome(cur, None);
  }

  /** The loop over the stored types, in store order: prune each, then drop what it lacks. */
  method ReconcileLoop<T(==,!new), K(==,!new), V>(s: ODict<T, ODict<K, V>>, t: T, order: seq<K>)
    returns (o: Outcome<ODict<T, ODict<K, V>>>)
    requires Nested(s) && t in s.vals
    ensures o == ReconcileFrom(s, t, order, 0)
  {
    var cur := s;
    var ts := s.keys;
    for i := 0 to |ts|
      invariant Nested(cur) && cur.keys == ts && cur.vals.Keys == s.vals.Keys
      invariant ReconcileFrom(cur, t, order, i) == ReconcileFrom(s, t, order, 0)
    {
      var k := ts[i];
      assert k in cur.vals;
      ReconcileUnfold(cur, t, order, i);
      var pruned := PruneLoop(cur.vals[k], order);
      NestedSet(cur, k, pruned);
      var next := Set(cur, k, pruned);
      var step := DropLoop(next, t, k, order);
      if step.raised.Some? {
        return step;
      }
      cur := step.state;
    }
    return Outcome(cur, None);
  }
}
