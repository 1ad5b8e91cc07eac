/**
 * `DumpSFTF2`: the scale factors as one piecewise-constant formula in the variable x and the
 * score y, as ROOT's TF2 reads it. Each key of sf is a rectangle in x, each of its score bins a
 * step in y. Numbers are printed by `num`, which stands for Python's `str` on floats.
 */
module Formula {
  import opened Wrappers
  import opened OrderedDicts
  import opened Histograms
  import opened WorkingPoints
  import opened Stores

  /** "to" starts at position j of s. */
  predicate IsTo(s: string, j: int)
  {
    0 <= j && j + 1 < |s| && s[j] == 't' && s[j + 1] == 'o'
  }

  predicate HasNoTo(s: string)
  {
    forall j :: 0 <= j < |s| ==> !IsTo(s, j)
  }

  /** Where "to" first occurs in s from position `start` on, or |s| when it does not. */
  function FindTo(s: string, start: nat): (i: nat)
    requires start <= |s|
    ensures start <= i <= |s|
    ensures i < |s| ==> IsTo(s, i)
    ensures forall j :: start <= j < i ==> !IsTo(s, j)
    decreases |s| - start
  {
    if start + 1 >= |s| then |s|
    else if IsTo(s, start) then start
    else FindTo(s, start + 1)
  }

  /** Python's `s[start:].split("to")`. */
  function SplitFrom(s: string, start: nat): (parts: seq<string>)
    requires start <= |s|
    ensures |parts| >= 1
    decreases |s| - start
  {
    var i := FindTo(s, start);
    if i == |s| then [s[start..]] else [s[start..i]] + SplitFrom(s, i + 2)
  }

  /** Python's `s.split("to")`. */
  function Split(s: string): (parts: seq<string>)
    ensures |parts| >= 1
  {
    SplitFrom(s, 0)
  }

  /** Python's `sep.join(xs)`. */
  function Join(xs: seq<string>, sep: string): string
  {
    if xs == [] then "" else if |xs| == 1 then xs[0] else xs[0] + sep + Join(xs[1..], sep)
  }

  /** Joining the parts of a split with "to" gives back the string. */
  lemma {:induction false} SplitJoin(s: string, start: nat)
    requires start <= |s|
    ensures Join(SplitFrom(s, start), "to") == s[start..]
    decreases |s| - start
  {
    var i := FindTo(s, start);
    if i < |s| {
      var rest := SplitFrom(s, i + 2);
      SplitJoin(s, i + 2);
      assert SplitFrom(s, start) == [s[start..i]] + rest;
      assert ([s[start..i]] + rest)[1..] == rest;
      assert s[start..] == s[start..i] + "to" + s[i + 2..];
    }
  }

  /** No part of a split holds "to". */
  lemma {:induction false} SplitParts(s: string, start: nat, p: string)
    requires start <= |s| && p in SplitFrom(s, start)
    ensures HasNoTo(p)
    decreases |s| - start
  {
    var i := FindTo(s, start);
    if p == SplitFrom(s, start)[0] {
      forall j | 0 <= j < |p| ensures !IsTo(p, j) {
        assert IsTo(p, j) ==> IsTo(s, start + j);
      }
    } else {
      SplitParts(s, i + 2, p);
    }
  }

  /** The text of a key: `str(lo) + "to" + str(hi)` for a bin, the name for a working point. */
  function KeyText(k: Key, num: real -> string): string
  {
    if k.Bin? then num(k.lo) + "to" + num(k.hi) else k.name
  }

  /** Splitting the text of a bin key on "to" gives back its two numbers, when neither number
      is printed with "to" in it. */
  lemma SplitKey(a: string, b: string)
    requires HasNoTo(a) && HasNoTo(b)
    ensures Split(a + "to" + b) == [a, b]
  {
    var s := a + "to" + b;
    var n := |a|;
    assert IsTo(s, n);
    forall j | 0 <= j < n ensures !IsTo(s, j) {
      if j + 1 < n {
        assert !IsTo(a, j);
      } else {
        assert s[j + 1] == 't';
      }
    }
    assert FindTo(s, 0) == n;
    forall j | n + 2 <= j < |s| ensures !IsTo(s, j) {
      assert !IsTo(b, j - n - 2);
    }
    assert FindTo(s, n + 2) == |s|;
    assert s[0..n] == a && s[n + 2..] == b;
    assert SplitFrom(s, n + 2) == [b];
    assert SplitFrom(s, 0) == [a] + SplitFrom(s, n + 2);
  }

  /** The opening of the clause of key k: `((x>lo && x<=hi)*(`, or `((x>lo)*(` for the last
      key; a key whose text has no "to" raises IndexError unless it is the last one. */
  function Open(k: Key, last: bool, num: real -> string): Result<string>
  {
    var parts := Split(KeyText(k, num));
    if last then Ok("((x>" + parts[0] + ")*(")
    else if |parts| < 2 then Err(IndexError)
    else Ok("((x>" + parts[0] + " && x<=" + parts[1] + ")*(")
  }

  /** What the source appends for score bin j+1 of v out of n: `(c*(y>lo && y<=hi)) + `, or
      `(c*(y>lo)))) + ` for the last, which also closes the clause. */
  function Term(v: Hist, j: nat, n: nat, num: real -> string): string
  {
    if j + 1 != n then "(" + num(Content(v, j + 1)) + "*(y>" + num(LowEdge(v, j + 1)) + " && y<=" + num(LowEdge(v, j + 2)) + ")) + "
    else "(" + num(Content(v, j + 1)) + "*(y>" + num(LowEdge(v, j + 1)) + ")))) + "
  }

  /** The terms of score bins j+1..n, in order. */
  function Terms(v: Hist, j: nat, n: nat, num: real -> string): string
    decreases n - j
  {
    if j >= n then "" else Term(v, j, n, num) + Terms(v, j + 1, n, num)
  }

  /** What key i of sf adds: KeyError when it has no working-point list. */
  function Chunk(sf: HistDict, rebinned: ODict<Key, seq<string>>, num: real -> string, i: nat): Result<string>
    requires Valid(sf) && i < |sf.keys|
  {
    var k := sf.keys[i];
    match Open(k, k == sf.keys[|sf.keys| - 1], num)
    case Err(e) => Err(e)
    case Ok(o) =>
      if k !in rebinned.vals then Err(KeyError)
      else Ok(o + Terms(sf.vals[k], 0, |rebinned.vals[k]|, num))
  }

  /** `func_str[:-3] + ")"`. */
  function Cut(f: string): string
  {
    f[..if |f| >= 3 then |f| - 3 else 0] + ")"
  }

  /** What each key of sf adds, in order. */
  function Chunks(sf: HistDict, rebinned: ODict<Key, seq<string>>, num: real -> string): (cs: seq<Result<string>>)
    requires Valid(sf)
    ensures |cs| == |sf.keys|
  {
    seq(|sf.keys|, i requires 0 <= i < |sf.keys| => Chunk(sf, rebinned, num, i))
  }

  /** The loop over what the keys add, from the i-th on, with `acc` built so far: the first
      exception ends it; otherwise the string is cut at the end. */
  function Fold(cs: seq<Result<string>>, acc: string, i: nat): Result<string>
    requires i <= |cs|
    decreases |cs| - i
  {
    if i == |cs| then Ok(Cut(acc))
    else match cs[i]
      case Err(e) => Err(e)
      case Ok(c) => Fold(cs, acc + c, i + 1)
  }

  /** The formula, or the exception raised on the way (KeyError when there is no sf). */
  function DumpSFTF2(s: Store, rebinned: ODict<Key, seq<string>>, num: real -> string): (r: Result<string>)
    requires Nested(s)
    ensures "sf" !in s.vals ==> r == Err(KeyError)
  {
    if "sf" !in s.vals then Err(KeyError) else Fold(Chunks(s.vals["sf"], rebinned, num), "(", 0)
  }

  lemma AppendAssociative(a: string, b: string, c: string)
    ensures (a + b) + c == a + (b + c)
  {
  }

  /** The inner loop of `DumpSFTF2`: the term of each of the n surviving working points
      appended to `f`. */
  method AppendTerms(f: string, v: Hist, n: nat, num: real -> string) returns (g: string)
    ensures g == f + Terms(v, 0, n, num)
  {
    g := f;
    for j := 0 to n
      invariant g + Terms(v, j, n, num) == f + Terms(v, 0, n, num)
    {
      var t, rest := Term(v, j, n, num), Terms(v, j + 1, n, num);
      assert Terms(v, j, n, num) == t + rest;
      AppendAssociative(g, t, rest);
      g := g + t;
    }
  }

  /** What the loop of `DumpSFTF2` appends for key i of sf: its opening, then one term per
      surviving working point; IndexError or KeyError on the way. */
  method KeyChunk(sf: HistDict, rebinned: ODict<Key, seq<string>>, num: real -> string, i: nat) returns (r: Result<string>)
    requires Valid(sf) && i < |sf.keys|
    ensures r == Chunk(sf, rebinned, num, i)
  {
    var k := sf.keys[i];
    var o := Open(k, k == sf.keys[|sf.keys| - 1], num);
    if o.Err? {
      return Err(o.error);
    }
    if k !in rebinned.vals {
      return Err(KeyError);
    }
    var c := AppendTerms(o.value, sf.vals[k], |rebinned.vals[k]|, num);
    return Ok(c);
  }

  /** The loop of `DumpSFTF2` over the keys of sf, then the last three characters cut and ")"
      appended. */
  method Dump(s: Store, rebinned: ODict<Key, seq<string>>, num: real -> string) returns (r: Result<string>)
    requires Nested(s)
    ensures r == DumpSFTF2(s, rebinned, num)
  {
    if "sf" !in s.vals {
      return Err(KeyError);
    }
    var sf := s.vals["sf"];
    ghost var cs := Chunks(sf, rebinned, num);
    var f := "(";
    for i := 0 to |sf.keys|
      invariant Fold(cs, f, i) == DumpSFTF2(s, rebinned, num)
    {
      var c := KeyChunk(sf, rebinned, num, i);
      assert cs[i] == c;
      if c.Err? {
        return Err(c.error);
      }
      f := f + c.value;
    }
    return Ok(Cut(f));
  }

  // The formula as meant, built by joining instead of appending and trimming.

  /** The step of score bin j+1 of v out of n: `(c*(y>lo && y<=hi))`, or `(c*(y>lo))` for the last. */
  function Step(v: Hist, j: nat, n: nat, num: real -> string): string
  {
    if j + 1 != n then "(" + num(Content(v, j + 1)) + "*(y>" + num(LowEdge(v, j + 1)) + " && y<=" + num(LowEdge(v, j + 2)) + "))"
    else "(" + num(Content(v, j + 1)) + "*(y>" + num(LowEdge(v, j + 1)) + "))"
  }

  function Steps(v: Hist, j: nat, n: nat, num: real -> string): (r: seq<string>)
    ensures |r| == if j >= n then 0 else n - j
    decreases n - j
  {
    if j >= n then [] else [Step(v, j, n, num)] + Steps(v, j + 1, n, num)
  }

  /** The rectangle in x of a bin key: `(x>lo && x<=hi)`, or `(x>lo)` for the last key. */
  function Range(k: Key, last: bool, num: real -> string): string
  {
    var lo := if k.Bin? then num(k.lo) else k.name;
    var hi := if k.Bin? then num(k.hi) else "";
    if last then "(x>" + lo + ")" else "(x>" + lo + " && x<=" + hi + ")"
  }

  /** The clause of key i: its rectangle times the sum of its steps. */
  function Clause(sf: HistDict, rebinned: ODict<Key, seq<string>>, num: real -> string, i: nat): string
    requires Valid(sf) && i < |sf.keys|
  {
    var k := sf.keys[i];
    var n := if k in rebinned.vals then |rebinned.vals[k]| else 0;
    "(" + Range(k, i + 1 == |sf.keys|, num) + "*(" + Join(Steps(sf.vals[k], 0, n, num), " + ") + "))"
  }

  /** The clauses of all keys, in order. */
  function Clauses(sf: HistDict, rebinned: ODict<Key, seq<string>>, num: real -> string): (r: seq<string>)
    requires Valid(sf)
    ensures |r| == |sf.keys|
  {
    seq(|sf.keys|, i requires 0 <= i < |sf.keys| => Clause(sf, rebinned, num, i))
  }

  /** The intended formula: the sum of the clauses of all keys, in parentheses. */
  function Intended(sf: HistDict, rebinned: ODict<Key, seq<string>>, num: real -> string): string
    requires Valid(sf)
  {
    "(" + Join(Clauses(sf, rebinned, num), " + ") + ")"
  }

  /** Appending terms with trailing separators and a closing is joining the steps. */
  lemma {:induction false} TermsJoin(v: Hist, j: nat, n: nat, num: real -> string)
    requires j < n
    ensures Terms(v, j, n, num) == Join(Steps(v, j, n, num), " + ") + ")) + "
    decreases n - j
  {
    if j + 1 < n {
      TermsJoin(v, j + 1, n, num);
    }
  }

  /** With keys that are bins printed without "to" and a nonempty list for each, key i adds
      its clause and a separator. */
  lemma ChunkClause(sf: HistDict, rebinned: ODict<Key, seq<string>>, num: real -> string, i: nat)
    requires Valid(sf) && i < |sf.keys|
    requires sf.keys[i].Bin? && HasNoTo(num(sf.keys[i].lo)) && HasNoTo(num(sf.keys[i].hi))
    requires sf.keys[i] in rebinned.vals && rebinned.vals[sf.keys[i]] != []
    ensures Chunk(sf, rebinned, num, i) == Ok(Clause(sf, rebinned, num, i) + " + ")
  {
    var k := sf.keys[i];
    var last := i + 1 == |sf.keys|;
    var n := |rebinned.vals[k]|;
    var o := "(" + Range(k, last, num) + "*(";
    var ts := Terms(sf.vals[k], 0, n, num);
    var j := Join(Steps(sf.vals[k], 0, n, num), " + ");
    assert Chunk(sf, rebinned, num, i) == Ok(o + ts) by {
      assert (k == sf.keys[|sf.keys| - 1]) == last;
      OpenBin(k, last, num);
    }
    assert ts == j + ")) + " by {
      TermsJoin(sf.vals[k], 0, n, num);
    }
    assert ")) + " == "))" + " + ";
    Regroup4(o, j, "))", " + ");
  }

  /** The opening of a bin key printed without "to" is its rectangle. */
  lemma OpenBin(k: Key, last: bool, num: real -> string)
    requires k.Bin? && HasNoTo(num(k.lo)) && HasNoTo(num(k.hi))
    ensures Open(k, last, num) == Ok("(" + Range(k, last, num) + "*(")
  {
    var a, b := num(k.lo), num(k.hi);
    SplitKey(a, b);
    assert Split(KeyText(k, num)) == [a, b];
    OpenRange(a, b);
  }

  lemma OpenRange(lo: string, hi: string)
    ensures "((x>" + lo + " && x<=" + hi + ")*(" == "(" + ("(x>" + lo + " && x<=" + hi + ")") + "*("
    ensures "((x>" + lo + ")*(" == "(" + ("(x>" + lo + ")") + "*("
  {
    assert "((x>" == "(" + "(x>";
    assert ")*(" == ")" + "*(";
  }

  /** The loop stops at the first key that raises, with that key's exception. */
  lemma {:induction false} FoldRaises(cs: seq<Result<string>>, acc: string, i: nat, m: nat)
    requires i <= m < |cs|
    requires forall j :: i <= j < m ==> cs[j].Ok?
    requires cs[m].Err?
    ensures Fold(cs, acc, i) == Err(cs[m].error)
    decreases m - i
  {
    if i < m {
      FoldRaises(cs, acc + cs[i].value, i + 1, m);
    }
  }

  /** The formula is the exception of the first key that raises one. */
  lemma DumpRaises(s: Store, rebinned: ODict<Key, seq<string>>, num: real -> string, m: nat)
    requires Nested(s) && "sf" in s.vals && m < |s.vals["sf"].keys|
    requires forall j :: 0 <= j < m ==> Chunk(s.vals["sf"], rebinned, num, j).Ok?
    requires Chunk(s.vals["sf"], rebinned, num, m).Err?
    ensures DumpSFTF2(s, rebinned, num) == Err(Chunk(s.vals["sf"], rebinned, num, m).error)
  {
    var sf := s.vals["sf"];
    var cs := Chunks(sf, rebinned, num);
    forall j | 0 <= j < m ensures cs[j].Ok? {
      assert cs[j] == Chunk(sf, rebinned, num, j);
    }
    assert cs[m] == Chunk(sf, rebinned, num, m);
    FoldRaises(cs, "(", 0, m);
  }

  /** With an empty sf nothing is appended and the cut leaves only the closing parenthesis. */
  lemma DumpEmpty(s: Store, rebinned: ODict<Key, seq<string>>, num: real -> string)
    requires Nested(s) && "sf" in s.vals && s.vals["sf"].keys == []
    ensures DumpSFTF2(s, rebinned, num) == Ok(")")
  {
    assert Fold(Chunks(s.vals["sf"], rebinned, num), "(", 0) == Ok(Cut("("));
    assert "("[..0] + ")" == ")";
  }

  /** A key without a list of working points raises KeyError. */
  lemma ChunkMissing(sf: HistDict, rebinned: ODict<Key, seq<string>>, num: real -> string, i: nat)
    requires Valid(sf) && i < |sf.keys| && sf.keys[i] !in rebinned.vals
    requires sf.keys[i].Bin? && HasNoTo(num(sf.keys[i].lo)) && HasNoTo(num(sf.keys[i].hi))
    ensures Chunk(sf, rebinned, num, i) == Err(KeyError)
  {
    OpenBin(sf.keys[i], i + 1 == |sf.keys| || sf.keys[i] == sf.keys[|sf.keys| - 1], num);
  }

  /** A key whose text has no "to" (a working-point name) raises IndexError unless it is the
      last key, which only reads the part before "to". */
  lemma OpenName(name: string, num: real -> string)
    requires HasNoTo(name)
    ensures Open(Wp(name), false, num) == Err(IndexError)
    ensures Open(Wp(name), true, num) == Ok("((x>" + name + ")*(")
  {
    assert FindTo(name, 0) == |name|;
    assert name[0..] == name;
  }

  /** A key of sf that is a bin printed without "to", with a nonempty working-point list. */
  predicate Printable(sf: HistDict, rebinned: ODict<Key, seq<string>>, num: real -> string, k: Key)
  {
    k.Bin? && HasNoTo(num(k.lo)) && HasNoTo(num(k.hi)) &&
    k in rebinned.vals && rebinned.vals[k] != []
  }

  /** When every key adds its clause and a separator, the loop appends them all. */
  lemma {:induction false} FoldClauses(cs: seq<Result<string>>, xs: seq<string>, acc: string, i: nat)
    requires |cs| == |xs| && i <= |cs|
    requires forall j :: i <= j < |cs| ==> cs[j] == Ok(xs[j] + " + ")
    ensures Fold(cs, acc, i) == Ok(Loop(xs[i..], acc))
    decreases |cs| - i
  {
    if i < |cs| {
      FoldClauses(cs, xs, acc + (xs[i] + " + "), i + 1);
      Regroup3(acc, xs[i], " + ");
      assert xs[i..][1..] == xs[i + 1..];
    }
  }

  /** The loop over the keys, seen on the list of what each key adds. */
  function Loop(cs: seq<string>, acc: string): string
  {
    if cs == [] then Cut(acc) else Loop(cs[1..], acc + cs[0] + " + ")
  }

  /** Appending each clause with a separator, then cutting the last separator, joins them. */
  lemma {:induction false} LoopJoin(cs: seq<string>, acc: string)
    requires cs != []
    ensures Loop(cs, acc) == acc + Join(cs, " + ") + ")"
  {
    var f := acc + cs[0] + " + ";
    if |cs| == 1 {
      assert Loop(cs[1..], f) == Cut(f);
      assert f[..|f| - 3] == acc + cs[0];
    } else {
      LoopJoin(cs[1..], f);
      Regroup(acc, cs[0], " + ", Join(cs[1..], " + "), ")");
    }
  }

  lemma Regroup4<T>(a: seq<T>, b: seq<T>, c: seq<T>, d: seq<T>)
    ensures a + (b + (c + d)) == a + b + c + d
  {
  }

  lemma Regroup3<T>(a: seq<T>, b: seq<T>, c: seq<T>)
    ensures a + (b + c) == a + b + c
  {
  }

  lemma Regroup<T>(a: seq<T>, b: seq<T>, c: seq<T>, d: seq<T>, e: seq<T>)
    ensures a + b + c + d + e == a + (b + c + d) + e
  {
  }

  /**
   * When every key of sf is a kinematic bin whose bounds print without "to" and has a nonempty
   * list of working points, the formula is the intended one: the clauses of the keys joined
   * by " + ", each its x rectangle times the sum of its score steps, the x range of the last
   * key and the score range of each last step open above.
   */
  lemma DumpIsIntended(s: Store, rebinned: ODict<Key, seq<string>>, num: real -> string)
    requires Nested(s) && "sf" in s.vals && s.vals["sf"].keys != []
    requires forall k :: k in s.vals["sf"].vals ==> Printable(s.vals["sf"], rebinned, num, k)
    ensures DumpSFTF2(s, rebinned, num) == Ok(Intended(s.vals["sf"], rebinned, num))
  {
    var sf := s.vals["sf"];
    var cs, xs := Chunks(sf, rebinned, num), Clauses(sf, rebinned, num);
    forall j | 0 <= j < |sf.keys| ensures cs[j] == Ok(xs[j] + " + ") {
      assert sf.keys[j] in sf.vals;
      ChunkClause(sf, rebinned, num, j);
    }
    FoldClauses(cs, xs, "(", 0);
    assert xs[0..] == xs;
    LoopJoin(xs, "(");
  }
}
