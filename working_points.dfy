/**
 * Working points (discriminator thresholds named like "VLoose", "Medium", "VVTight") and the
 * canonical loosest-to-tightest order the tool derives from their names.
 */
module WorkingPoints {
  import opened Sequences

  /**
   * A key of a histogram map: a working-point name while the maps are per working point,
   * a kinematic bin [lo, hi] (the source's "<lo>to<hi>" names) once they are per bin.
   */
  datatype Key = Wp(name: string) | Bin(lo: real, hi: real)

  predicate StartsWith(s: string, p: string)
  {
    |p| <= |s| && s[..|p|] == p
  }

  /** Python's `p in s` for strings. */
  predicate Contains(s: string, p: string)
    decreases |s|
  {
    StartsWith(s, p) || (s != [] && Contains(s[1..], p))
  }

  datatype Tier = Loose | Medium | Tight | Unclassified

  /** The first of "Loose", "Medium", "Tight" that occurs in the name decides its tier. */
  function TierOf(name: string): Tier
  {
    if Contains(name, "Loose") then Loose
    else if Contains(name, "Medium") then Medium
    else if Contains(name, "Tight") then Tight
    else Unclassified
  }

  function TierOfKey(k: Key): Tier
  {
    if k.Wp? then TierOf(k.name) else Unclassified
  }

  function Rank(t: Tier): nat
  {
    match t
    case Loose => 0
    case Medium => 1
    case Tight => 2
    case Unclassified => 3
  }

  /** Python's `<` on strings: lexicographic on character codes, a proper prefix first. */
  predicate LexLess(a: string, b: string)
    decreases |a|
  {
    if a == [] then b != []
    else if b == [] then false
    else a[0] < b[0] || (a[0] == b[0] && LexLess(a[1..], b[1..]))
  }

  predicate LexLeq(a: string, b: string)
  {
    a == b || LexLess(a, b)
  }

  lemma {:induction false} LexLessIrreflexive(a: string)
    ensures !LexLess(a, a)
    decreases |a|
  {
    if a != [] {
      LexLessIrreflexive(a[1..]);
    }
  }

  lemma {:induction false} LexLessTransitive(a: string, b: string, c: string)
    requires LexLess(a, b) && LexLess(b, c)
    ensures LexLess(a, c)
    decreases |a|
  {
    if a != [] && a[0] == b[0] && b[0] == c[0] {
      LexLessTransitive(a[1..], b[1..], c[1..]);
    }
  }

  lemma {:induction false} LexLessTotal(a: string, b: string)
    ensures a == b || LexLess(a, b) || LexLess(b, a)
    decreases |a|
  {
    if a != [] && b != [] && a[0] == b[0] {
      LexLessTotal(a[1..], b[1..]);
      if a[1..] == b[1..] {
        assert a == [a[0]] + a[1..] && b == [b[0]] + b[1..];
      }
    }
  }

  predicate Ascending(s: seq<string>)
  {
    forall i, j :: 0 <= i < j < |s| ==> LexLeq(s[i], s[j])
  }

  predicate StrictlyAscending(s: seq<string>)
  {
    forall i, j :: 0 <= i < j < |s| ==> LexLess(s[i], s[j])
  }

  /** Insertion into an ascending list. */
  function Insert(x: string, s: seq<string>): (r: seq<string>)
    ensures |r| == |s| + 1
  {
    if s == [] then [x]
    else if LexLeq(x, s[0]) then [x] + s
    else [s[0]] + Insert(x, s[1..])
  }

  /** Insertion adds x and keeps every element of s. */
  lemma {:induction false} InsertPermutation(x: string, s: seq<string>)
    ensures multiset(Insert(x, s)) == multiset(s) + multiset{x}
  {
    if s != [] && !LexLeq(x, s[0]) {
      assert s == [s[0]] + s[1..];
      InsertPermutation(x, s[1..]);
    }
  }

  lemma {:induction false} InsertAscending(x: string, s: seq<string>)
    requires Ascending(s)
    ensures Ascending(Insert(x, s))
    ensures StrictlyAscending(s) && x !in s ==> StrictlyAscending(Insert(x, s))
  {
    if s == [] {
    } else if LexLeq(x, s[0]) {
      InsertFront(x, s);
    } else {
      assert s == [s[0]] + s[1..];
      InsertAscending(x, s[1..]);
      InsertBehind(x, s);
    }
  }

  /** An element no greater than the head of an ascending list can go first. */
  lemma InsertFront(x: string, s: seq<string>)
    requires Ascending(s) && s != [] && LexLeq(x, s[0])
    ensures Ascending([x] + s)
    ensures StrictlyAscending(s) && x !in s ==> StrictlyAscending([x] + s)
  {
    var r := [x] + s;
    forall j | 1 < j < |r| ensures LexLeq(x, r[j]) && (StrictlyAscending(s) && x !in s ==> LexLess(x, r[j])) {
      assert r[j] == s[j - 1];
      if x != s[0] && s[0] != s[j - 1] {
        LexLessTransitive(x, s[0], s[j - 1]);
      }
      if StrictlyAscending(s) && x !in s {
        LexLessTransitive(x, s[0], s[j - 1]);
      }
    }
  }

  /** An element greater than the head of an ascending list is inserted into its tail. */
  lemma InsertBehind(x: string, s: seq<string>)
    requires Ascending(s) && s != [] && !LexLeq(x, s[0])
    requires Ascending(Insert(x, s[1..]))
    requires StrictlyAscending(s[1..]) && x !in s[1..] ==> StrictlyAscending(Insert(x, s[1..]))
    ensures Ascending(Insert(x, s))
    ensures StrictlyAscending(s) && x !in s ==> StrictlyAscending(Insert(x, s))
  {
    var t := Insert(x, s[1..]);
    assert Insert(x, s) == [s[0]] + t;
    InsertPermutation(x, s[1..]);
    LexLessTotal(x, s[0]);
    forall j | 0 <= j < |t| ensures LexLeq(s[0], t[j]) && (StrictlyAscending(s) ==> LexLess(s[0], t[j])) {
      assert t[j] in multiset(t);
      if t[j] != x {
        var k :| 0 <= k < |s[1..]| && s[1..][k] == t[j];
        assert s[k + 1] == t[j];
      }
    }
  }

  /** Python's `sorted` on a list of strings. */
  function Sort(s: seq<string>): (r: seq<string>)
    ensures |r| == |s|
  {
    if s == [] then [] else Insert(s[0], Sort(s[1..]))
  }

  /** The sorted list is a permutation of the list. */
  lemma {:induction false} SortPermutation(s: seq<string>)
    ensures multiset(Sort(s)) == multiset(s)
  {
    if s != [] {
      assert s == [s[0]] + s[1..];
      SortPermutation(s[1..]);
      InsertPermutation(s[0], Sort(s[1..]));
    }
  }

  lemma {:induction false} SortAscending(s: seq<string>)
    ensures Ascending(Sort(s))
    ensures Distinct(s) ==> StrictlyAscending(Sort(s))
  {
    if s != [] {
      SortAscending(s[1..]);
      var t := Sort(s[1..]);
      SortPermutation(s[1..]);
      if Distinct(s) {
        assert s[0] !in multiset(s[1..]);
        assert s[0] !in t by { assert s[0] !in multiset(t); }
      }
      InsertAscending(s[0], t);
    }
  }

  /** Two positions of the sorted list of distinct names are strictly ordered. */
  lemma SortStrictAt(s: seq<string>, a: nat, b: nat)
    requires Distinct(s) && a < b < |s|
    ensures LexLess(Sort(s)[a], Sort(s)[b])
  {
    SortAscending(s);
  }

  /** The names of the keys of one tier, in input order (the appends of the classification loop). */
  function NamesOfTier(keys: seq<Key>, t: Tier): seq<string>
  {
    if keys == [] then []
    else
      var k := keys[|keys| - 1];
      var front := NamesOfTier(keys[..|keys| - 1], t);
      if k.Wp? && TierOf(k.name) == t then front + [k.name] else front
  }

  lemma {:induction false} NamesOfTierMembers(keys: seq<Key>, t: Tier, w: string)
    ensures w in NamesOfTier(keys, t) <==> Wp(w) in keys && TierOf(w) == t
  {
    if keys != [] {
      var k := keys[|keys| - 1];
      assert keys == keys[..|keys| - 1] + [k];
      NamesOfTierMembers(keys[..|keys| - 1], t, w);
    }
  }

  lemma {:induction false} NamesOfTierDistinct(keys: seq<Key>, t: Tier)
    requires Distinct(keys)
    ensures Distinct(NamesOfTier(keys, t))
  {
    if keys != [] {
      var k := keys[|keys| - 1];
      var init := keys[..|keys| - 1];
      assert keys == init + [k];
      NamesOfTierDistinct(init, t);
      if k.Wp? {
        NamesOfTierMembers(init, t, k.name);
      }
    }
  }

  /** The canonical order: Loose names in reverse-sorted order, Medium names in input order,
      Tight names in sorted order; names of no tier are left out. */
  function SortedWps(keys: seq<Key>): seq<string>
  {
    Reverse(Sort(NamesOfTier(keys, Loose))) + NamesOfTier(keys, Medium) + Sort(NamesOfTier(keys, Tight))
  }

  lemma InSort(s: seq<string>, x: string)
    ensures x in Sort(s) <==> x in s
  {
    SortPermutation(s);
    assert x in Sort(s) <==> x in multiset(Sort(s));
    assert x in s <==> x in multiset(s);
  }

  lemma InReverse<T>(s: seq<T>, x: T)
    ensures x in Reverse(s) <==> x in s
  {
    if x in s {
      var i :| 0 <= i < |s| && s[i] == x;
      assert Reverse(s)[|s| - 1 - i] == x;
    }
  }

  /** A name is in the canonical order exactly when it is a key of some tier. */
  lemma SortedWpsMembers(keys: seq<Key>, w: string)
    ensures w in SortedWps(keys) <==> Wp(w) in keys && TierOf(w) != Unclassified
  {
    var l, m, t := NamesOfTier(keys, Loose), NamesOfTier(keys, Medium), NamesOfTier(keys, Tight);
    var r := SortedWps(keys);
    assert r == Reverse(Sort(l)) + m + Sort(t);
    InSort(l, w);
    InReverse(Sort(l), w);
    InSort(t, w);
    NamesOfTierMembers(keys, Loose, w);
    NamesOfTierMembers(keys, Medium, w);
    NamesOfTierMembers(keys, Tight, w);
    assert w in r <==> w in l || w in m || w in t;
  }

  /** The canonical order is the three tier blocks laid end to end. */
  lemma SortedWpsShape(keys: seq<Key>)
    ensures var l, m, t := NamesOfTier(keys, Loose), NamesOfTier(keys, Medium), NamesOfTier(keys, Tight);
      |SortedWps(keys)| == |l| + |m| + |t| &&
      SortedWps(keys)[..|l|] == Reverse(Sort(l)) &&
      SortedWps(keys)[|l|..|l| + |m|] == m &&
      SortedWps(keys)[|l| + |m|..] == Sort(t)
  {
    var l, m, t := NamesOfTier(keys, Loose), NamesOfTier(keys, Medium), NamesOfTier(keys, Tight);
    var a, c := Reverse(Sort(l)), Sort(t);
    var r := a + m + c;
    assert r[..|a|] == a;
    assert r[|a|..|a| + |m|] == m;
    assert r[|a| + |m|..] == c;
  }

  /** Each block holds names of its own tier only. */
  lemma BlockTiers(keys: seq<Key>, x: string)
    ensures x in Reverse(Sort(NamesOfTier(keys, Loose))) ==> TierOf(x) == Loose
    ensures x in NamesOfTier(keys, Medium) ==> TierOf(x) == Medium
    ensures x in Sort(NamesOfTier(keys, Tight)) ==> TierOf(x) == Tight
  {
    InReverse(Sort(NamesOfTier(keys, Loose)), x);
    InSort(NamesOfTier(keys, Loose), x);
    InSort(NamesOfTier(keys, Tight), x);
    NamesOfTierMembers(keys, Loose, x);
    NamesOfTierMembers(keys, Medium, x);
    NamesOfTierMembers(keys, Tight, x);
  }

  /** The tier of the name at position i of the canonical order, read off its block. */
  lemma TierAt(keys: seq<Key>, i: nat)
    requires i < |SortedWps(keys)|
    ensures var nl, nm := |NamesOfTier(keys, Loose)|, |NamesOfTier(keys, Medium)|;
      TierOf(SortedWps(keys)[i]) == if i < nl then Loose else if i < nl + nm then Medium else Tight
  {
    var nl, nm := |NamesOfTier(keys, Loose)|, |NamesOfTier(keys, Medium)|;
    var r := SortedWps(keys);
    SortedWpsShape(keys);
    BlockTiers(keys, r[i]);
    if i < nl {
      assert r[i] == r[..nl][i];
    } else if i < nl + nm {
      assert r[i] == r[nl..nl + nm][i - nl];
    } else {
      assert r[i] == r[nl + nm..][i - nl - nm];
    }
  }

  /** Loose names come before Medium names, which come before Tight names; every name has a tier. */
  lemma SortedWpsTierOrder(keys: seq<Key>, i: nat, j: nat)
    requires i < j < |SortedWps(keys)|
    ensures TierOf(SortedWps(keys)[i]) != Unclassified
    ensures Rank(TierOf(SortedWps(keys)[i])) <= Rank(TierOf(SortedWps(keys)[j]))
  {
    TierAt(keys, i);
    TierAt(keys, j);
  }

  /** With distinct keys the Loose block, which comes first, is strictly descending. */
  lemma SortedWpsLooseDescending(keys: seq<Key>, i: nat, j: nat)
    requires Distinct(keys)
    requires i < j < |NamesOfTier(keys, Loose)|
    ensures LexLess(SortedWps(keys)[j], SortedWps(keys)[i])
  {
    var l, m, t := NamesOfTier(keys, Loose), NamesOfTier(keys, Medium), NamesOfTier(keys, Tight);
    assert SortedWps(keys) == Reverse(Sort(l)) + m + Sort(t);
    ReversedPrefixAt(Sort(l), m, Sort(t), i);
    ReversedPrefixAt(Sort(l), m, Sort(t), j);
    NamesOfTierDistinct(keys, Loose);
    SortStrictAt(l, |l| - 1 - j, |l| - 1 - i);
  }

  /** Position i of a reversed list followed by others holds the i-th element from its end. */
  lemma ReversedPrefixAt<T>(q: seq<T>, m: seq<T>, c: seq<T>, i: nat)
    requires i < |q|
    ensures (Reverse(q) + m + c)[i] == q[|q| - 1 - i]
  {
    assert (Reverse(q) + m + c)[i] == Reverse(q)[i];
  }

  /** With distinct keys the Tight block, which comes last, is strictly ascending. */
  lemma SortedWpsTightAscending(keys: seq<Key>, i: nat, j: nat)
    requires Distinct(keys)
    requires var n := |NamesOfTier(keys, Loose)| + |NamesOfTier(keys, Medium)|;
      n <= i < j < |SortedWps(keys)|
    ensures LexLess(SortedWps(keys)[i], SortedWps(keys)[j])
  {
    var t := NamesOfTier(keys, Tight);
    var n := |NamesOfTier(keys, Loose)| + |NamesOfTier(keys, Medium)|;
    SortedWpsShape(keys);
    NamesOfTierDistinct(keys, Tight);
    SortAscending(t);
    StrictSuffixAt(SortedWps(keys), n, Sort(t), i, j);
  }

  /** Names of one tier come in the order of their keys in the input. */
  lemma {:induction false} NamesOfTierOrder(keys: seq<Key>, t: Tier, i: nat, j: nat)
    requires i < j < |NamesOfTier(keys, t)|
    ensures var n := NamesOfTier(keys, t);
      exists p, q :: 0 <= p < q < |keys| && keys[p] == Wp(n[i]) && keys[q] == Wp(n[j])
  {
    var k := keys[|keys| - 1];
    var front := keys[..|keys| - 1];
    var n, nf := NamesOfTier(keys, t), NamesOfTier(front, t);
    if j < |nf| {
      assert n[i] == nf[i] && n[j] == nf[j];
      NamesOfTierOrder(front, t, i, j);
      var p, q :| 0 <= p < q < |front| && front[p] == Wp(nf[i]) && front[q] == Wp(nf[j]);
      assert keys[p] == front[p] && keys[q] == front[q];
    } else {
      assert n == nf + [k.name] && n[i] == nf[i];
      NamesOfTierMembers(front, t, nf[i]);
      var p :| 0 <= p < |front| && front[p] == Wp(nf[i]);
      assert keys[p] == front[p] && keys[|keys| - 1] == Wp(n[j]);
    }
  }

  /** The Medium block, between the Loose and the Tight blocks, keeps the names in the order
      of their keys in the input. */
  lemma SortedWpsMediumInputOrder(keys: seq<Key>, i: nat, j: nat)
    requires var nl := |NamesOfTier(keys, Loose)|;
      nl <= i < j < nl + |NamesOfTier(keys, Medium)|
    ensures var r := SortedWps(keys);
      exists p, q :: 0 <= p < q < |keys| && keys[p] == Wp(r[i]) && keys[q] == Wp(r[j])
  {
    var nl, m := |NamesOfTier(keys, Loose)|, NamesOfTier(keys, Medium);
    var r := SortedWps(keys);
    SortedWpsShape(keys);
    assert r[i] == r[nl..nl + |m|][i - nl] == m[i - nl];
    assert r[j] == r[nl..nl + |m|][j - nl] == m[j - nl];
    NamesOfTierOrder(keys, Medium, i - nl, j - nl);
  }

  lemma StrictSuffixAt(r: seq<string>, n: nat, c: seq<string>, i: nat, j: nat)
    requires n <= i < j < |r| && r[n..] == c && StrictlyAscending(c)
    ensures LexLess(r[i], r[j])
  {
    assert r[i] == c[i - n] && r[j] == c[j - n];
  }

  /** With distinct keys every working point appears once in the canonical order. */
  lemma SortedWpsDistinct(keys: seq<Key>)
    requires Distinct(keys)
    ensures Distinct(SortedWps(keys))
  {
    var r := SortedWps(keys);
    forall i, j | 0 <= i < j < |r| ensures r[i] != r[j] {
      TierAt(keys, i);
      TierAt(keys, j);
      var nl, nm := |NamesOfTier(keys, Loose)|, |NamesOfTier(keys, Medium)|;
      if j < nl {
        SortedWpsLooseDescending(keys, i, j);
        LexLessIrreflexive(r[i]);
      } else if nl + nm <= i {
        SortedWpsTightAscending(keys, i, j);
        LexLessIrreflexive(r[i]);
      } else if nl <= i && j < nl + nm {
        SortedWpsShape(keys);
        NamesOfTierDistinct(keys, Medium);
        assert r[i] == r[nl..nl + nm][i - nl] && r[j] == r[nl..nl + nm][j - nl];
      }
    }
  }
}
