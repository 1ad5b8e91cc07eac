/**
 * A one-dimensional ROOT histogram (TH1D) as a value, with ROOT's bin numbering:
 * bin 0 is the underflow, 1..N the regular bins, N+1 the overflow.
 * Errors are kept squared, as ROOT keeps them (its sum of squared weights), so that
 * adding errors in quadrature is exact.
 */
module Histograms {

  /** `edges` are the N+1 bin boundaries; `contents` and `sumw2` have one entry per bin 0..N+1. */
  datatype Histogram = Histogram(edges: seq<real>, contents: seq<real>, sumw2: seq<real>)

  predicate WellFormed(h: Histogram)
  {
    |h.edges| >= 1 && |h.contents| == |h.edges| + 1 && |h.sumw2| == |h.edges| + 1
  }

  type Hist = h: Histogram | WellFormed(h) witness Histogram([0.0], [0.0, 0.0], [0.0, 0.0])

  /** `GetNbinsX()`. */
  function NBins(h: Hist): nat
  {
    |h.edges| - 1
  }

  /** Bin edges that go strictly up, as ROOT expects of a variable-width axis. */
  predicate Increasing(e: seq<real>)
  {
    forall i, j :: 0 <= i < j < |e| ==> e[i] < e[j]
  }

  /** ROOT clamps a bin number that is out of range to the underflow or the overflow. */
  function Clamp(h: Hist, i: int): (b: nat)
    ensures b <= NBins(h) + 1
    ensures 0 <= i <= NBins(h) + 1 ==> b == i
  {
    if i < 0 then 0 else if i > NBins(h) + 1 then NBins(h) + 1 else i
  }

  /** `GetBinContent(i)`. */
  function Content(h: Hist, i: int): real
  {
    h.contents[Clamp(h, i)]
  }

  /** The square of `GetBinError(i)`. */
  function ErrorSq(h: Hist, i: int): real
  {
    h.sumw2[Clamp(h, i)]
  }

  /**
   * `GetBinLowEdge(i)`: the stored edge for a regular bin; otherwise ROOT extrapolates with
   * the average bin width, which gives the upper edge for bin N+1 and a point below the axis
   * for bin 0.
   */
  function LowEdge(h: Hist, i: int): real
  {
    var n := NBins(h);
    if 1 <= i <= n then h.edges[i - 1]
    else if n == 0 then h.edges[0]
    else h.edges[0] + (i - 1) as real * (h.edges[n] - h.edges[0]) / n as real
  }

  /** The largest index j <= top with e[j] <= x, given that e[0] <= x. */
  function LastAtMost(e: seq<real>, x: real, top: nat): (j: nat)
    requires top < |e| && e[0] <= x
    ensures j <= top && e[j] <= x
    ensures forall k :: j < k <= top ==> e[k] > x
  {
    if e[top] <= x then top else LastAtMost(e, x, top - 1)
  }

  /** `FindBin(x)`: 0 below the axis, N+1 at or above its upper edge, else the bin holding x. */
  function FindBin(h: Hist, x: real): (b: nat)
    ensures b <= NBins(h) + 1
  {
    var n := NBins(h);
    if x < h.edges[0] then 0
    else if x >= h.edges[n] then n + 1
    else 1 + LastAtMost(h.edges, x, n - 1)
  }

  /** On an increasing axis, FindBin returns the bin [edges[b-1], edges[b]) that holds x. */
  lemma FindBinInRange(h: Hist, x: real)
    requires Increasing(h.edges)
    requires h.edges[0] <= x < h.edges[NBins(h)]
    ensures 1 <= FindBin(h, x) <= NBins(h)
    ensures h.edges[FindBin(h, x) - 1] <= x < h.edges[FindBin(h, x)]
  {
  }

  /** The bin that starts at edge i-1, or holds the midpoint of bin i, is bin i. */
  lemma FindBinOfBin(h: Hist, i: nat, x: real)
    requires Increasing(h.edges)
    requires 1 <= i <= NBins(h)
    requires h.edges[i - 1] <= x < h.edges[i]
    ensures FindBin(h, x) == i
  {
    FindBinInRange(h, x);
  }

  /** `ROOT.TH1D(name, "", n, edges)`: an empty histogram over the given edges. */
  function Fresh(edges: seq<real>): (r: Hist)
    requires |edges| >= 1
    ensures r.edges == edges
    ensures forall i :: 0 <= i <= NBins(r) + 1 ==> Content(r, i) == 0.0 && ErrorSq(r, i) == 0.0
  {
    var m := |edges| + 1;
    Histogram(edges, seq(m, _ => 0.0), seq(m, _ => 0.0))
  }

  /** `SetBinContent(i, v)`: bin i now holds v, every other bin and every error is kept; a bin
      number out of range is ignored. */
  function SetBinContent(h: Hist, i: int, v: real): (r: Hist)
    ensures r.edges == h.edges && r.sumw2 == h.sumw2
    ensures 0 <= i <= NBins(h) + 1 ==> Content(r, i) == v
    ensures forall j :: 0 <= j <= NBins(h) + 1 && j != i ==> Content(r, j) == Content(h, j)
    ensures !(0 <= i <= NBins(h) + 1) ==> r == h
  {
    if 0 <= i < |h.contents| then h.(contents := h.contents[i := v]) else h
  }

  /** `SetBinError(i, e)` given e squared: bin i now has squared error e2, everything else is
      kept; a bin number out of range is ignored. */
  function SetBinErrorSq(h: Hist, i: int, e2: real): (r: Hist)
    ensures r.edges == h.edges && r.contents == h.contents
    ensures 0 <= i <= NBins(h) + 1 ==> ErrorSq(r, i) == e2
    ensures forall j :: 0 <= j <= NBins(h) + 1 && j != i ==> ErrorSq(r, j) == ErrorSq(h, j)
    ensures !(0 <= i <= NBins(h) + 1) ==> r == h
  {
    if 0 <= i < |h.sumw2| then h.(sumw2 := h.sumw2[i := e2]) else h
  }

  /** ROOT's bin-by-bin quotient: a zero denominator gives zero. */
  function Quotient(a: real, b: real): real
  {
    if b == 0.0 then 0.0 else a / b
  }

  /** `a.Divide(b)`: contents divided bin by bin over all N+2 bins, squared errors propagated
      to first order; a histogram with a different number of bins is refused and `a` is kept. */
  function Divide(a: Hist, b: Hist): (r: Hist)
    ensures r.edges == a.edges
  {
    if NBins(a) != NBins(b) then a
    else
      var n := |a.contents|;
      Histogram(
        a.edges,
        seq(n, i requires 0 <= i < n =>
          Quotient(a.contents[i], b.contents[i])),
        seq(n, i requires 0 <= i < n =>
          if b.contents[i] == 0.0 then 0.0
          else (a.sumw2[i] * b.contents[i] * b.contents[i] + b.sumw2[i] * a.contents[i] * a.contents[i])
               / (b.contents[i] * b.contents[i] * b.contents[i] * b.contents[i])))
  }

  /** `a.Multiply(b)`: contents multiplied bin by bin, squared errors propagated to first order. */
  function Multiply(a: Hist, b: Hist): (r: Hist)
    ensures r.edges == a.edges
  {
    if NBins(a) != NBins(b) then a
    else
      var n := |a.contents|;
      Histogram(
        a.edges,
        seq(n, i requires 0 <= i < n => a.contents[i] * b.contents[i]),
        seq(n, i requires 0 <= i < n =>
          a.sumw2[i] * b.contents[i] * b.contents[i] + b.sumw2[i] * a.contents[i] * a.contents[i]))
  }

  predicate NoZeroBins(h: Hist)
  {
    forall i :: 0 <= i < |h.contents| ==> h.contents[i] != 0.0
  }

  /** Real multiplication and division by the same non-zero number cancel. */
  lemma Cancel(x: real, y: real)
    requires y != 0.0
    ensures (x * y) / y == x && (y * x) / y == x
    ensures (x / y) * y == x && y * (x / y) == x
  {
  }

  /** Multiplying by a histogram and dividing by it again restores the contents. */
  lemma MultiplyThenDivide(a: Hist, b: Hist)
    requires NBins(a) == NBins(b) && NoZeroBins(b)
    ensures Divide(Multiply(a, b), b).contents == a.contents
  {
    var p := Multiply(a, b);
    var r := Divide(p, b);
    forall i | 0 <= i < |a.contents| ensures r.contents[i] == a.contents[i] {
      var x, y := a.contents[i], b.contents[i];
      assert p.contents[i] == x * y;
      assert r.contents[i] == Quotient(x * y, y);
      Cancel(x, y);
    }
  }

  /** Dividing by a histogram and multiplying by it again restores the contents. */
  lemma DivideThenMultiply(a: Hist, b: Hist)
    requires NBins(a) == NBins(b) && NoZeroBins(b)
    ensures Multiply(Divide(a, b), b).contents == a.contents
  {
    var q := Divide(a, b);
    var r := Multiply(q, b);
    forall i | 0 <= i < |a.contents| ensures r.contents[i] == a.contents[i] {
      var x, y := a.contents[i], b.contents[i];
      assert q.contents[i] == x / y;
      assert r.contents[i] == (x / y) * y;
      Cancel(x, y);
    }
  }

  /** Dividing a product by one factor gives back the other. */
  lemma ProductOverFactor(m: Hist, s: Hist)
    requires NBins(m) == NBins(s) && NoZeroBins(m)
    ensures Divide(Multiply(m, s), m).contents == s.contents
  {
    var p := Multiply(m, s);
    var r := Divide(p, m);
    forall i | 0 <= i < |s.contents| ensures r.contents[i] == s.contents[i] {
      var x, y := s.contents[i], m.contents[i];
      assert p.contents[i] == y * x;
      assert r.contents[i] == Quotient(y * x, y);
      Cancel(x, y);
    }
  }

  /** Multiplying a histogram by a quotient over it gives back the numerator. */
  lemma FactorTimesQuotient(a: Hist, b: Hist)
    requires NBins(a) == NBins(b) && NoZeroBins(b)
    ensures Multiply(b, Divide(a, b)).contents == a.contents
  {
    var q := Divide(a, b);
    var r := Multiply(b, q);
    forall i | 0 <= i < |a.contents| ensures r.contents[i] == a.contents[i] {
      var x, y := a.contents[i], b.contents[i];
      assert q.contents[i] == x / y;
      assert r.contents[i] == y * (x / y);
      Cancel(x, y);
    }
  }
}
