/**
 * The rebinning step of `ConvertToWPBinnedHistograms`. For one bin of the variable, the
 * working points in order give cumulative efficiencies (the data efficiency of passing each
 * working point); the exclusive value of a working point is its efficiency minus that of the
 * next one, and the last keeps its own. While some slice is below the rebin threshold, the
 * first such slice absorbs the next one and the next working point is dropped.
 */
module Rebinning {
  import opened Wrappers
  import opened Sequences

  /** The exclusive values of the cumulative values `cs`: each minus the next, the last as is. */
  function Diffs(cs: seq<real>): (r: seq<real>)
    ensures |r| == |cs|
  {
    seq(|cs|, i requires 0 <= i < |cs| => if i + 1 < |cs| then cs[i] - cs[i + 1] else cs[i])
  }

  /** The exclusive values add up to the first cumulative value. */
  lemma {:induction false} DiffsSum(cs: seq<real>)
    requires cs != []
    ensures Sum(Diffs(cs)) == cs[0]
  {
    if |cs| > 1 {
      assert Diffs(cs)[1..] == Diffs(cs[1..]);
      DiffsSum(cs[1..]);
    }
  }

  /** `f` applied to every element. */
  function Apply<L>(f: L -> real, ls: seq<L>): (r: seq<real>)
    ensures |r| == |ls| && forall i :: 0 <= i < |ls| ==> r[i] == f(ls[i])
  {
    seq(|ls|, i requires 0 <= i < |ls| => f(ls[i]))
  }

  predicate AllAtLeast(vs: seq<real>, t: real)
  {
    forall i :: 0 <= i < |vs| ==> vs[i] >= t
  }

  /** The position of the first value below `t`, or |vs| when there is none. */
  function FirstBelow(vs: seq<real>, t: real): (b: nat)
    ensures b <= |vs|
    ensures forall i :: 0 <= i < b ==> vs[i] >= t
    ensures b < |vs| ==> vs[b] < t
  {
    if vs == [] then 0 else if vs[0] < t then 0 else 1 + FirstBelow(vs[1..], t)
  }

  /** `vals[m] += vals[m+1]; del vals[m+1]`. */
  function MergeAt(vs: seq<real>, m: nat): (r: seq<real>)
    requires m + 1 < |vs|
    ensures |r| == |vs| - 1
  {
    vs[..m] + [vs[m] + vs[m + 1]] + vs[m + 2..]
  }

  /** `del s[i]`. */
  function DeleteAt<L>(s: seq<L>, i: nat): (r: seq<L>)
    requires i < |s|
    ensures |r| == |s| - 1
  {
    s[..i] + s[i + 1..]
  }

  /**
   * The rebinning loop as intended: while some slice is below `t` and more than one is left,
   * the first slice below `t` absorbs the next one; when only the last slice is below `t`,
   * it is absorbed by the slice before it. The next label is dropped either way.
   */
  function Merged<L>(vs: seq<real>, ls: seq<L>, t: real): (r: (seq<real>, seq<L>))
    requires |ls| == |vs|
    ensures |r.1| == |r.0| <= |vs|
    decreases |vs|
  {
    if AllAtLeast(vs, t) || |vs| <= 1 then (vs, ls)
    else
      var b := FirstBelow(vs, t);
      var m := if b + 1 < |vs| then b else b - 1;
      Merged(MergeAt(vs, m), DeleteAt(ls, m + 1), t)
  }

  /**
   * The rebinning loop as written: the condition asks that every slice reach `t`, but the
   * merge only looks at the slices before the last, so when the last slice alone is below
   * `t` the loop never ends (None).
   */
  function MergedAsWritten<L>(vs: seq<real>, ls: seq<L>, t: real): (r: Option<(seq<real>, seq<L>)>)
    requires |ls| == |vs|
    ensures r.Some? ==> AllAtLeast(r.value.0, t) && |r.value.1| == |r.value.0|
    decreases |vs|
  {
    if AllAtLeast(vs, t) then Some((vs, ls))
    else
      var b := FirstBelow(vs, t);
      if b + 1 < |vs| then MergedAsWritten(MergeAt(vs, b), DeleteAt(ls, b + 1), t)
      else None
  }

  /** Merging the neighbours at `m` and `m + 1` keeps the total. */
  lemma {:induction false} SumMergeAt(vs: seq<real>, m: nat)
    requires m + 1 < |vs|
    ensures Sum(MergeAt(vs, m)) == Sum(vs)
  {
    var r := MergeAt(vs, m);
    if m == 0 {
      assert r[1..] == vs[2..];
      assert vs[1..][1..] == vs[2..];
    } else {
      assert r[0] == vs[0];
      assert r[1..] == MergeAt(vs[1..], m - 1);
      SumMergeAt(vs[1..], m - 1);
    }
  }

  /** Rebinning keeps the total, keeps the first label, only drops labels, and leaves every
      slice at or above the threshold unless a single slice remains. */
  lemma {:induction false} MergedFacts<L>(vs: seq<real>, ls: seq<L>, t: real)
    requires |ls| == |vs|
    ensures var r := Merged(vs, ls, t);
      && Sum(r.0) == Sum(vs)
      && IsSubsequence(r.1, ls)
      && (vs != [] ==> r.0 != [] && r.1[0] == ls[0])
      && (AllAtLeast(r.0, t) || |r.0| == 1)
    decreases |vs|
  {
    if AllAtLeast(vs, t) || |vs| <= 1 {
      SubsequenceRefl(ls);
    } else {
      var b := FirstBelow(vs, t);
      var m := if b + 1 < |vs| then b else b - 1;
      var vs', ls' := MergeAt(vs, m), DeleteAt(ls, m + 1);
      assert Merged(vs, ls, t) == Merged(vs', ls', t);
      SumMergeAt(vs, m);
      DropOneIsSubsequence(ls, m + 1);
      MergedFacts(vs', ls', t);
      SubsequenceTrans(Merged(vs', ls', t).1, ls', ls);
      assert ls'[0] == ls[0];
    }
  }

  /** Merging two slices of exclusive values is the same as dropping the working point
      between them from the cumulative values. */
  lemma DiffsDeleteAt(cs: seq<real>, m: nat)
    requires m + 1 < |cs|
    ensures Diffs(DeleteAt(cs, m + 1)) == MergeAt(Diffs(cs), m)
  {
    var l, r := Diffs(DeleteAt(cs, m + 1)), MergeAt(Diffs(cs), m);
    forall i | 0 <= i < |l| ensures l[i] == r[i] {
      if i < m {
        assert r[i] == Diffs(cs)[i];
      } else if i > m {
        assert r[i] == Diffs(cs)[i + 1];
      }
    }
  }

  lemma ApplyDeleteAt<L>(f: L -> real, ls: seq<L>, i: nat)
    requires i < |ls|
    ensures Apply(f, DeleteAt(ls, i)) == DeleteAt(Apply(f, ls), i)
  {
  }

  /**
   * When the slices start as the exclusive values of cumulative values `f(l)` of the labels,
   * the rebinned slices are the exclusive values of the surviving labels: each slice is the
   * cumulative value of its working point minus that of the next surviving one.
   */
  lemma {:induction false} MergedDiffs<L>(f: L -> real, ls: seq<L>, t: real)
    ensures var r := Merged(Diffs(Apply(f, ls)), ls, t);
      r.0 == Diffs(Apply(f, r.1))
    decreases |ls|
  {
    var vs := Diffs(Apply(f, ls));
    if !(AllAtLeast(vs, t) || |vs| <= 1) {
      var b := FirstBelow(vs, t);
      var m := if b + 1 < |vs| then b else b - 1;
      DiffsDeleteAt(Apply(f, ls), m);
      ApplyDeleteAt(f, ls, m + 1);
      MergedDiffs(f, DeleteAt(ls, m + 1), t);
    }
  }

  /** Where the loop as written ends, it ends where the intended one does. */
  lemma {:induction false} AsWrittenAgrees<L>(vs: seq<real>, ls: seq<L>, t: real)
    requires |ls| == |vs| && MergedAsWritten(vs, ls, t).Some?
    ensures MergedAsWritten(vs, ls, t).value == Merged(vs, ls, t)
    decreases |vs|
  {
    if !AllAtLeast(vs, t) {
      var b := FirstBelow(vs, t);
      assert b + 1 < |vs|;
      var vs', ls' := MergeAt(vs, b), DeleteAt(ls, b + 1);
      assert MergedAsWritten(vs, ls, t) == MergedAsWritten(vs', ls', t);
      assert Merged(vs, ls, t) == Merged(vs', ls', t);
      AsWrittenAgrees(vs', ls', t);
    }
  }

  predicate NonNegative(vs: seq<real>)
  {
    forall i :: 0 <= i < |vs| ==> vs[i] >= 0.0
  }

  /** The loop as written ends when no slice is negative and the last slice reaches `t`. */
  lemma {:induction false} AsWrittenEnds<L>(vs: seq<real>, ls: seq<L>, t: real)
    requires |ls| == |vs| && NonNegative(vs) && vs != [] && vs[|vs| - 1] >= t
    ensures MergedAsWritten(vs, ls, t).Some?
    decreases |vs|
  {
    if !AllAtLeast(vs, t) {
      var b := FirstBelow(vs, t);
      var vs' := MergeAt(vs, b);
      assert vs'[|vs'| - 1] >= vs[|vs| - 1];
      AsWrittenEnds(vs', DeleteAt(ls, b + 1), t);
    }
  }

  /**
   * Loose, medium and tight working points with data efficiencies 0.9, 0.5 and 0.05 in a bin
   * give slices 0.4, 0.45 and 0.05; with the default threshold 0.1 only the last slice is below
   * it, so the loop as written never ends, while the intended loop folds the tight slice into
   * the medium one.
   */
  lemma LastSliceHangs()
    ensures var cs := [0.9, 0.5, 0.05];
      var ls := ["loose", "medium", "tight"];
      && Diffs(cs) == [0.4, 0.45, 0.05]
      && MergedAsWritten(Diffs(cs), ls, 0.1).None?
      && Merged(Diffs(cs), ls, 0.1) == ([0.4, 0.5], ["loose", "medium"])
  {
    var cs := [0.9, 0.5, 0.05];
    var ls := ["loose", "medium", "tight"];
    var vs := Diffs(cs);
    assert vs == [0.4, 0.45, 0.05];
    assert !AllAtLeast(vs, 0.1) by { assert vs[2] < 0.1; }
    assert FirstBelow(vs, 0.1) == 2 by {
      assert FirstBelow(vs[2..], 0.1) == 0;
      assert vs[1..][1..] == vs[2..];
    }
    assert MergeAt(vs, 1) == [0.4, 0.5];
    assert DeleteAt(ls, 2) == ["loose", "medium"];
    assert AllAtLeast([0.4, 0.5], 0.1);
  }

  /** The loop as written also never ends on a single working point below the threshold. */
  lemma SingleSliceHangs(v: real, l: string, t: real)
    requires v < t
    ensures MergedAsWritten([v], [l], t).None?
    ensures Merged([v], [l], t) == ([v], [l])
  {
    assert !AllAtLeast([v], t) by { assert [v][0] < t; }
  }

  /** Some slice before the last is below `t`, so the first slice below `t` has a right
      neighbour. */
  lemma FirstBelowFront(vs: seq<real>, t: real)
    requires |vs| > 1 && !AllAtLeast(vs[..|vs| - 1], t)
    ensures FirstBelow(vs, t) + 1 < |vs|
  {
    var i :| 0 <= i < |vs| - 1 && vs[..|vs| - 1][i] < t;
    assert vs[i] < t;
  }

  /**
   * The other way to make the loop end: keep its scan over the slices before the last and
   * test only those (`vals[:-1]`) in the `while` condition, so the last slice is exempt from
   * the threshold and is never merged away on its own account.
   */
  function MergedExemptLast<L>(vs: seq<real>, ls: seq<L>, t: real): (r: (seq<real>, seq<L>))
    requires |ls| == |vs|
    ensures |r.1| == |r.0| <= |vs|
    decreases |vs|
  {
    if |vs| <= 1 || AllAtLeast(vs[..|vs| - 1], t) then (vs, ls)
    else
      FirstBelowFront(vs, t);
      var b := FirstBelow(vs, t);
      MergedExemptLast(MergeAt(vs, b), DeleteAt(ls, b + 1), t)
  }

  /** The exempt-last loop keeps the total, keeps the first label, only drops labels, and
      leaves every slice but the last at or above the threshold. */
  lemma {:induction false} ExemptLastFacts<L>(vs: seq<real>, ls: seq<L>, t: real)
    requires |ls| == |vs|
    ensures var r := MergedExemptLast(vs, ls, t);
      && Sum(r.0) == Sum(vs)
      && IsSubsequence(r.1, ls)
      && (vs != [] ==> r.0 != [] && r.1[0] == ls[0])
      && (r.0 != [] ==> AllAtLeast(r.0[..|r.0| - 1], t))
    decreases |vs|
  {
    if |vs| <= 1 || AllAtLeast(vs[..|vs| - 1], t) {
      SubsequenceRefl(ls);
      if |vs| == 1 {
        assert vs[..0] == [];
      }
    } else {
      FirstBelowFront(vs, t);
      var b := FirstBelow(vs, t);
      var vs', ls' := MergeAt(vs, b), DeleteAt(ls, b + 1);
      assert MergedExemptLast(vs, ls, t) == MergedExemptLast(vs', ls', t);
      SumMergeAt(vs, b);
      DropOneIsSubsequence(ls, b + 1);
      ExemptLastFacts(vs', ls', t);
      SubsequenceTrans(MergedExemptLast(vs', ls', t).1, ls', ls);
      assert ls'[0] == ls[0];
    }
  }

  /** Where the loop as written ends, the exempt-last loop ends in the same place: the two
      fixes differ only on the inputs where the source never ends. */
  lemma {:induction false} AsWrittenAgreesExempt<L>(vs: seq<real>, ls: seq<L>, t: real)
    requires |ls| == |vs| && MergedAsWritten(vs, ls, t).Some?
    ensures MergedAsWritten(vs, ls, t).value == MergedExemptLast(vs, ls, t)
    decreases |vs|
  {
    if AllAtLeast(vs, t) {
      if |vs| > 1 {
        assert AllAtLeast(vs[..|vs| - 1], t);
      }
    } else {
      var b := FirstBelow(vs, t);
      assert b + 1 < |vs|;
      assert !AllAtLeast(vs[..|vs| - 1], t) by {
        assert vs[..|vs| - 1][b] < t;
      }
      var vs', ls' := MergeAt(vs, b), DeleteAt(ls, b + 1);
      assert MergedAsWritten(vs, ls, t) == MergedAsWritten(vs', ls', t);
      assert MergedExemptLast(vs, ls, t) == MergedExemptLast(vs', ls', t);
      AsWrittenAgreesExempt(vs', ls', t);
    }
  }

  /** On the slices 0.4, 0.45, 0.05 with threshold 0.1, the exempt-last loop changes nothing:
      the tight slice stays below the threshold on its own. */
  lemma LastSliceExempt()
    ensures var ls := ["loose", "medium", "tight"];
      MergedExemptLast([0.4, 0.45, 0.05], ls, 0.1) == ([0.4, 0.45, 0.05], ls)
  {
    var vs := [0.4, 0.45, 0.05];
    assert vs[..2] == [0.4, 0.45];
    assert AllAtLeast(vs[..2], 0.1);
  }

  /** The rebinning loop on the slices of one bin, in the intended form: the lists are
      updated in place, one merge per pass. */
  method MergeSlices<L>(vals: seq<real>, wps: seq<L>, t: real) returns (vs: seq<real>, ls: seq<L>)
    requires |wps| == |vals|
    ensures (vs, ls) == Merged(vals, wps, t)
  {
    vs, ls := vals, wps;
    while !AllAtLeast(vs, t) && |vs| > 1
      invariant |ls| == |vs|
      invariant Merged(vs, ls, t) == Merged(vals, wps, t)
      decreases |vs|
    {
      var b := 0;
      while b + 1 < |vs| && vs[b] >= t
        invariant 0 <= b < |vs|
        invariant forall i :: 0 <= i < b ==> vs[i] >= t
      {
        b := b + 1;
      }
      if b + 1 == |vs| {
        // only the last slice is below the threshold: the slice before it absorbs it
        b := b - 1;
      }
      vs := vs[..b] + [vs[b] + vs[b + 1]] + vs[b + 2..];
      ls := ls[..b + 1] + ls[b + 2..];
    }
  }

  /** The rebinning loop as written, on inputs where it ends. */
  method MergeSlicesAsWritten<L>(vals: seq<real>, wps: seq<L>, t: real) returns (vs: seq<real>, ls: seq<L>)
    requires |wps| == |vals| && MergedAsWritten(vals, wps, t).Some?
    ensures Some((vs, ls)) == MergedAsWritten(vals, wps, t)
  {
    vs, ls := vals, wps;
    while !AllAtLeast(vs, t)
      invariant |ls| == |vs|
      invariant MergedAsWritten(vs, ls, t) == MergedAsWritten(vals, wps, t)
      decreases |vs|
    {
      var b := 0;
      while b + 1 < |vs| && vs[b] >= t
        invariant 0 <= b <= |vs|
        invariant forall i :: 0 <= i < b ==> vs[i] >= t
      {
        b := b + 1;
      }
      if b + 1 < |vs| {
        vs := vs[..b] + [vs[b] + vs[b + 1]] + vs[b + 2..];
        ls := ls[..b + 1] + ls[b + 2..];
      } else {
        assert false;
      }
    }
  }
}
