/** Failure values: Python's `None` returns and the exceptions the tool can raise. */
module Wrappers {

  datatype Option<+T> = None | Some(value: T)

  /** The exceptions of the tool that the model keeps apart. */
  datatype PyError = KeyError | IndexError

  datatype Result<+T> = Ok(value: T) | Err(error: PyError)

  /** What a call leaves behind in `state`, and the exception it raised on the way, if any:
      Python keeps the changes made before an exception. */
  datatype Outcome<+S> = Outcome(state: S, raised: Option<PyError>)
}

/** Facts about sequences used throughout: sums, order-preserving subsequences, distinctness. */
module Sequences {

  function Sum(s: seq<real>): real
  {
    if s == [] then 0.0 else s[0] + Sum(s[1..])
  }

  lemma {:induction false} SumAppend(a: seq<real>, b: seq<real>)
    ensures Sum(a + b) == Sum(a) + Sum(b)
  {
    if a == [] {
      assert a + b == b;
    } else {
      assert (a + b)[1..] == a[1..] + b;
      SumAppend(a[1..], b);
    }
  }

  /** `a` is obtained from `b` by deleting elements, keeping the order of the rest. */
  predicate IsSubsequence<T(==)>(a: seq<T>, b: seq<T>)
    decreases |b|
  {
    a == [] || (b != [] && ((a[0] == b[0] && IsSubsequence(a[1..], b[1..])) || IsSubsequence(a, b[1..])))
  }

  lemma {:induction false} SubsequenceRefl<T>(a: seq<T>)
    ensures IsSubsequence(a, a)
    decreases |a|
  {
    if a != [] {
      SubsequenceRefl(a[1..]);
    }
  }

  lemma {:induction false} SubsequenceTrans<T>(a: seq<T>, b: seq<T>, c: seq<T>)
    requires IsSubsequence(a, b) && IsSubsequence(b, c)
    ensures IsSubsequence(a, c)
    decreases |c|
  {
    if a == [] {
    } else if b[0] == c[0] && IsSubsequence(b[1..], c[1..]) {
      if a[0] == b[0] && IsSubsequence(a[1..], b[1..]) {
        SubsequenceTrans(a[1..], b[1..], c[1..]);
      } else {
        SubsequenceTrans(a, b[1..], c[1..]);
      }
    } else {
      SubsequenceTrans(a, b, c[1..]);
    }
  }

  /** Deleting the element at position `i` leaves a subsequence. */
  lemma {:induction false} DropOneIsSubsequence<T>(s: seq<T>, i: nat)
    requires i < |s|
    ensures IsSubsequence(s[..i] + s[i + 1..], s)
    decreases i
  {
    if i == 0 {
      assert s[..i] + s[i + 1..] == s[1..];
      SubsequenceRefl(s[1..]);
    } else {
      var r := s[..i] + s[i + 1..];
      assert r[0] == s[0];
      assert r[1..] == s[1..][..i - 1] + s[1..][i..];
      DropOneIsSubsequence(s[1..], i - 1);
    }
  }

  /** Every element of a subsequence is an element of the sequence. */
  lemma {:induction false} SubsequenceElements<T>(a: seq<T>, b: seq<T>, x: T)
    requires IsSubsequence(a, b) && x in a
    ensures x in b
    decreases |b|
  {
    if a[0] == b[0] && IsSubsequence(a[1..], b[1..]) {
      if x != a[0] {
        SubsequenceElements(a[1..], b[1..], x);
      }
    } else {
      SubsequenceElements(a, b[1..], x);
    }
  }

  predicate Distinct<T(==)>(s: seq<T>)
  {
    forall i, j :: 0 <= i < j < |s| ==> s[i] != s[j]
  }

  /** The sequence with every occurrence of `x` removed. */
  function Without<T(==,!new)>(s: seq<T>, x: T): (r: seq<T>)
    ensures forall y :: y in r <==> y in s && y != x
    ensures Distinct(s) ==> Distinct(r)
    ensures |r| <= |s|
  {
    if s == [] then []
    else if s[0] == x then Without(s[1..], x)
    else
      assert Distinct(s) ==> s[0] !in s[1..];
      [s[0]] + Without(s[1..], x)
  }

  lemma {:induction false} WithoutAbsent<T(!new)>(s: seq<T>, x: T)
    requires x !in s
    ensures Without(s, x) == s
  {
    if s != [] {
      WithoutAbsent(s[1..], x);
      assert s == [s[0]] + s[1..];
    }
  }

  lemma {:induction false} WithoutAppend<T(!new)>(a: seq<T>, b: seq<T>, x: T)
    ensures Without(a + b, x) == Without(a, x) + Without(b, x)
  {
    if a == [] {
      assert a + b == b;
    } else {
      assert (a + b)[1..] == a[1..] + b;
      WithoutAppend(a[1..], b, x);
    }
  }

  /** Deleting the only occurrence of an element from the middle of a sequence. */
  lemma WithoutSingle<T(!new)>(a: seq<T>, x: T, b: seq<T>)
    requires x !in a && x !in b
    ensures Without(a + [x] + b, x) == a + b
  {
    var ax := a + [x];
    WithoutAppend(ax, b, x);
    WithoutAppend(a, [x], x);
    WithoutAbsent(a, x);
    WithoutAbsent(b, x);
    assert Without([x], x) == Without([x][1..], x);
    assert Without(ax, x) == a;
  }

  function Reverse<T>(s: seq<T>): (r: seq<T>)
    ensures |r| == |s|
    ensures forall i {:trigger r[i]} :: 0 <= i < |s| ==> r[i] == s[|s| - 1 - i]
  {
    if s == [] then [] else Reverse(s[1..]) + [s[0]]
  }

  /** Every element of `s` has property `p`, checked from the last one back, the way a loop
      over `s` learns it one element at a time. */
  predicate AllOf<T>(s: seq<T>, p: T -> bool)
  {
    s == [] || (AllOf(s[..|s| - 1], p) && p(s[|s| - 1]))
  }

  /** One more element checked. */
  lemma AllOfStep<T>(s: seq<T>, p: T -> bool, i: nat)
    requires i < |s|
    ensures AllOf(s[..i + 1], p) <==> AllOf(s[..i], p) && p(s[i])
  {
    assert s[..i + 1][..i] == s[..i];
  }

  /** AllOf is the quantified statement. */
  lemma {:induction false} AllOfEvery<T>(s: seq<T>, p: T -> bool)
    ensures AllOf(s, p) <==> forall x :: x in s ==> p(x)
  {
    if s != [] {
      var q := s[..|s| - 1];
      AllOfEvery(q, p);
      assert s == q + [s[|s| - 1]];
    }
  }
}

/** Python's `OrderedDict`: the insertion order of the keys plus the mapping. */
module OrderedDicts {
  import opened Sequences

  datatype ODict<K(==,!new), V> = ODict(keys: seq<K>, vals: map<K, V>)

  ghost predicate Valid<K(!new), V>(d: ODict<K, V>)
  {
    Distinct(d.keys) && forall k :: k in d.vals <==> k in d.keys
  }

  /** A dict of dicts whose dicts are all well formed. */
  ghost predicate Nested<T(!new), K(!new), V>(s: ODict<T, ODict<K, V>>)
  {
    Valid(s) && forall t :: t in s.vals ==> Valid(s.vals[t])
  }

  function Empty<K(!new), V>(): (d: ODict<K, V>)
    ensures Valid(d) && d.keys == [] && d.vals == map[]
  {
    ODict([], map[])
  }

  /** `d[k] = v`: an existing key keeps its place, a new key goes last. */
  function Set<K(!new), V>(d: ODict<K, V>, k: K, v: V): (r: ODict<K, V>)
    requires Valid(d)
    ensures Valid(r)
    ensures r.vals == d.vals[k := v]
    ensures r.keys == if k in d.vals then d.keys else d.keys + [k]
  {
    if k in d.vals then ODict(d.keys, d.vals[k := v]) else ODict(d.keys + [k], d.vals[k := v])
  }

  /** Storing a well-formed dict keeps a dict of dicts well formed. */
  lemma NestedSet<T(!new), K(!new), V>(s: ODict<T, ODict<K, V>>, t: T, d: ODict<K, V>)
    requires Nested(s) && Valid(d)
    ensures Nested(Set(s, t, d))
  {
  }

  /** Setting a key twice keeps the second value only. */
  lemma SetTwice<K(!new), V>(d: ODict<K, V>, k: K, a: V, b: V)
    requires Valid(d)
    ensures Set(Set(d, k, a), k, b) == Set(d, k, b)
  {
  }

  /** `del d[k]` for a key that is present. */
  function Remove<K(!new), V>(d: ODict<K, V>, k: K): (r: ODict<K, V>)
    requires Valid(d) && k in d.vals
    ensures Valid(r)
    ensures r.vals == d.vals - {k}
    ensures r.keys == Without(d.keys, k)
  {
    ODict(Without(d.keys, k), d.vals - {k})
  }

  /** First-occurrence order of the elements of `s`. */
  function Dedup<K(==,!new)>(s: seq<K>): (r: seq<K>)
    ensures Distinct(r)
    ensures forall k :: k in r <==> k in s
  {
    if s == [] then []
    else
      var d := Dedup(s[..|s| - 1]);
      if s[|s| - 1] in s[..|s| - 1] then d else d + [s[|s| - 1]]
  }

  /** The ordered dict built by `for k in ks: d[k] = f(k)` starting from an empty one. */
  function Tabulate<K(!new), V>(ks: seq<K>, f: K -> V): (d: ODict<K, V>)
    ensures Valid(d)
    ensures d.keys == Dedup(ks)
    ensures forall k :: k in d.vals <==> k in ks
    ensures forall k :: k in d.vals ==> d.vals[k] == f(k)
  {
    if ks == [] then Empty() else Set(Tabulate(ks[..|ks| - 1], f), ks[|ks| - 1], f(ks[|ks| - 1]))
  }

  /** Storing the next key of `src` into a dict holding the keys before it, in order. */
  lemma SetNext<K(!new), V, W>(out: ODict<K, W>, src: ODict<K, V>, i: nat, v: W)
    requires Valid(out) && Valid(src) && i < |src.keys| && out.keys == src.keys[..i]
    ensures Set(out, src.keys[i], v).keys == src.keys[..i + 1]
  {
    assert src.keys[i] !in out.keys;
    assert src.keys[..i + 1] == src.keys[..i] + [src.keys[i]];
  }

  /** One more round of the loop that builds a `Tabulate`. */
  lemma TabulateStep<K(!new), V>(ks: seq<K>, f: K -> V, i: nat)
    requires i < |ks|
    ensures Tabulate(ks[..i + 1], f) == Set(Tabulate(ks[..i], f), ks[i], f(ks[i]))
  {
    assert ks[..i + 1][..i] == ks[..i];
  }

  /** Without repetitions, Dedup changes nothing. */
  lemma {:induction false} DedupDistinct<K(!new)>(s: seq<K>)
    requires Distinct(s)
    ensures Dedup(s) == s
  {
    if s != [] {
      var p := s[..|s| - 1];
      assert Distinct(p) by {
        forall i, j | 0 <= i < j < |p| ensures p[i] != p[j] {
          assert p[i] == s[i] && p[j] == s[j];
        }
      }
      DedupDistinct(p);
      assert s[|s| - 1] !in p by {
        forall i | 0 <= i < |p| ensures p[i] != s[|s| - 1] {
          assert p[i] == s[i];
        }
      }
      assert s == p + [s[|s| - 1]];
    }
  }

  /** Building a dict over the keys of another built from the same keys gives the same dict:
      going over the keys once each, in first-occurrence order, is enough. */
  lemma TabulateDedup<K(!new), V>(ks: seq<K>, f: K -> V)
    ensures Tabulate(Dedup(ks), f) == Tabulate(ks, f)
  {
    DedupDistinct(Dedup(ks));
  }

  /** The dict that `for k, v in d.items(): out[k] = f(k, v)` has built after its first i
      rounds, starting from an empty one. */
  function MapPrefix<K(!new), V, W>(d: ODict<K, V>, f: (K, V) -> W, i: nat): (r: ODict<K, W>)
    requires Valid(d) && i <= |d.keys|
    ensures Valid(r) && r.keys == d.keys[..i]
    ensures forall k :: k in r.vals ==> k in d.vals && r.vals[k] == f(k, d.vals[k])
  {
    if i == 0 then Empty()
    else
      var k := d.keys[i - 1];
      assert d.keys[..i] == d.keys[..i - 1] + [k];
      Set(MapPrefix(d, f, i - 1), k, f(k, d.vals[k]))
  }

  /** One more round of that loop sets the next key. */
  lemma MapPrefixStep<K(!new), V, W>(d: ODict<K, V>, f: (K, V) -> W, i: nat)
    requires Valid(d) && i < |d.keys|
    ensures MapPrefix(d, f, i + 1) == Set(MapPrefix(d, f, i), d.keys[i], f(d.keys[i], d.vals[d.keys[i]]))
  {
  }

  /** After all rounds, the loop has set every key of `d`. */
  lemma MapPrefixDomain<K(!new), V, W>(d: ODict<K, V>, f: (K, V) -> W)
    requires Valid(d)
    ensures MapPrefix(d, f, |d.keys|).keys == d.keys
    ensures MapPrefix(d, f, |d.keys|).vals.Keys == d.vals.Keys
  {
    assert d.keys[..|d.keys|] == d.keys;
  }

  /** Before the loop the dict is empty; after it, it is the mapped dict. */
  lemma MapPrefixEnds<K(!new), V, W>(d: ODict<K, V>, f: (K, V) -> W)
    requires Valid(d)
    ensures MapPrefix(d, f, 0) == Empty()
    ensures MapPrefix(d, f, |d.keys|) == MapValues(d, f)
  {
    var r, m := MapPrefix(d, f, |d.keys|), MapValues(d, f);
    MapPrefixDomain(d, f);
    assert r.vals == m.vals;
  }

  /** A new dict over the keys of `d`, in the same order, with `f` applied to every value. */
  function MapValues<K(!new), V, W>(d: ODict<K, V>, f: (K, V) -> W): (r: ODict<K, W>)
    requires Valid(d)
    ensures Valid(r) && r.keys == d.keys
    ensures forall k :: k in r.vals ==> k in d.vals && r.vals[k] == f(k, d.vals[k])
  {
    ODict(d.keys, map k | k in d.vals :: f(k, d.vals[k]))
  }
}
