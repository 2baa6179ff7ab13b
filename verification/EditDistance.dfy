/**
 Levenshtein distance (crates/rocket-surgeon/src/dispatch.rs, `edit_distance`): the two-row
 loop, the recursion it fills in, and the shortest chain of single-character edits it measures.
 */
module EditDistance {
  import opened Prelude

  function Cost(x: char, y: char): nat { if x == y then 0 else 1 }

  /** The recursion on last characters. */
  function Lev(a: string, b: string): nat
    decreases |a| + |b|
  {
    if a == [] then |b|
    else if b == [] then |a|
    else
      var a', b' := a[..|a| - 1], b[..|b| - 1];
      Min(Min(Lev(a', b) + 1, Lev(a, b') + 1), Lev(a', b') + Cost(a[|a| - 1], b[|b| - 1]))
  }

  /** The value row `i`, column `j` of the table is to hold. */
  function Cell(a: string, b: string, i: nat, j: nat): nat
    requires i <= |a| && j <= |b|
  {
    Lev(a[..i], b[..j])
  }

  /** `edit_distance`, swapping two rows. */
  method EditDistance(a: string, b: string) returns (d: nat)
    ensures d == Lev(a, b)
  {
    var prev := new nat[|b| + 1](j => j);
    var curr := new nat[|b| + 1](_ => 0);
    FirstRow(a, b);
    for i := 0 to |a|
      invariant prev.Length == curr.Length == |b| + 1 && prev != curr
      invariant fresh(prev) && fresh(curr)
      invariant forall j :: 0 <= j <= |b| ==> prev[j] == Cell(a, b, i, j)
    {
      FillRow(a, b, i, prev, curr);
      prev, curr := curr, prev;
    }
    assert a[..|a|] == a && b[..|b|] == b;
    d := prev[|b|];
  }

  /** One pass of the outer loop. */
  method FillRow(a: string, b: string, i: nat, prev: array<nat>, curr: array<nat>)
    requires i < |a| && prev.Length == curr.Length == |b| + 1 && prev != curr
    requires forall j :: 0 <= j <= |b| ==> prev[j] == Cell(a, b, i, j)
    modifies curr
    ensures forall j :: 0 <= j <= |b| ==> curr[j] == Cell(a, b, i + 1, j)
  {
    curr[0] := i + 1;
    FirstColumn(a, b, i + 1);
    for j := 0 to |b|
      invariant forall k :: 0 <= k <= |b| ==> prev[k] == Cell(a, b, i, k)
      invariant forall k :: 0 <= k <= j ==> curr[k] == Cell(a, b, i + 1, k)
    {
      CellStep(a, b, i, j);
      curr[j + 1] := Min(Min(prev[j + 1] + 1, curr[j] + 1), prev[j] + Cost(a[i], b[j]));
    }
  }

  lemma FirstRow(a: string, b: string)
    ensures forall j :: 0 <= j <= |b| ==> Cell(a, b, 0, j) == j
  {
  }

  lemma FirstColumn(a: string, b: string, i: nat)
    requires i <= |a|
    ensures Cell(a, b, i, 0) == i
  {
  }

  lemma CellStep(a: string, b: string, i: nat, j: nat)
    requires i < |a| && j < |b|
    ensures Cell(a, b, i + 1, j + 1)
         == Min(Min(Cell(a, b, i, j + 1) + 1, Cell(a, b, i + 1, j) + 1), Cell(a, b, i, j) + Cost(a[i], b[j]))
  {
    var a', b' := a[..i + 1], b[..j + 1];
    assert a'[..i] == a[..i] && b'[..j] == b[..j];
  }

  // ----- a metric -----

  lemma {:induction false} LengthGap(a: string, b: string)
    ensures |a| <= |b| + Lev(a, b) && |b| <= |a| + Lev(a, b) && Lev(a, b) <= |a| + |b|
    decreases |a| + |b|
  {
    if a != [] && b != [] {
      LengthGap(a[..|a| - 1], b);
      LengthGap(a, b[..|b| - 1]);
      LengthGap(a[..|a| - 1], b[..|b| - 1]);
    }
  }

  lemma {:induction false} ZeroIffEqual(a: string, b: string)
    ensures Lev(a, b) == 0 <==> a == b
    decreases |a| + |b|
  {
    if a != [] && b != [] {
      var a', b', x, y := a[..|a| - 1], b[..|b| - 1], a[|a| - 1], b[|b| - 1];
      ZeroIffEqual(a', b');
      assert a == a' + [x] && b == b' + [y];
    }
  }

  lemma {:induction false} Symmetric(a: string, b: string)
    ensures Lev(a, b) == Lev(b, a)
    decreases |a| + |b|
  {
    if a != [] && b != [] {
      Symmetric(a[..|a| - 1], b);
      Symmetric(a, b[..|b| - 1]);
      Symmetric(a[..|a| - 1], b[..|b| - 1]);
    }
  }

  lemma {:induction false} Triangle(a: string, b: string, c: string)
    ensures Lev(a, c) <= Lev(a, b) + Lev(b, c)
    decreases |a| + |b| + |c|
  {
    if a == [] || b == [] || c == [] {
      LengthGap(a, b);
      LengthGap(b, c);
      LengthGap(a, c);
    } else {
      var a', b', c' := a[..|a| - 1], b[..|b| - 1], c[..|c| - 1];
      Triangle(a', b, c);
      Triangle(a, b, c');
      Triangle(a, b', c);
      Triangle(a, b', c');
      Triangle(a', b', c);
      Triangle(a', b', c');
    }
  }

  // ----- chains of single edits -----

  /** `t` is `s` with one character inserted, removed or replaced at position `i`. */
  predicate EditAt(s: string, t: string, i: nat) {
    i <= |s| && (
      || (|t| == |s| + 1 && t[..i] == s[..i] && t[i + 1..] == s[i..])
      || (i < |s| && |t| == |s| - 1 && t[..i] == s[..i] && t[i..] == s[i + 1..])
      || (i < |s| && |t| == |s| && t[..i] == s[..i] && t[i + 1..] == s[i + 1..]))
  }

  ghost predicate OneEdit(s: string, t: string) {
    exists i :: EditAt(s, t, i)
  }

  /** A chain of single edits from `a` to `b`. */
  ghost predicate Chain(path: seq<string>, a: string, b: string) {
    && path != [] && path[0] == a && path[|path| - 1] == b
    && forall k :: 0 <= k < |path| - 1 ==> OneEdit(path[k], path[k + 1])
  }

  lemma {:induction false} CommonSuffix(p: string, q: string, s: string)
    ensures Lev(p + s, q + s) <= Lev(p, q)
    decreases |s|
  {
    if s == [] {
      assert p + s == p && q + s == q;
    } else {
      var s' := s[..|s| - 1];
      assert (p + s)[..|p + s| - 1] == p + s' && (q + s)[..|q + s| - 1] == q + s';
      CommonSuffix(p, q, s');
    }
  }

  lemma OneEditCostsOne(s: string, t: string, i: nat)
    requires EditAt(s, t, i)
    ensures Lev(s, t) <= 1
  {
    var p := s[..i];
    ZeroIffEqual(p, p);
    if |t| == |s| + 1 {
      var q := p + [t[i]];
      assert q[..|q| - 1] == p;
      assert s == p + s[i..] && t == q + s[i..];
      LevLast(p, t[i]);
      CommonSuffix(p, q, s[i..]);
    } else if |t| == |s| - 1 {
      var q := p + [s[i]];
      assert s == q + s[i + 1..] && t == p + s[i + 1..];
      LevLast(p, s[i]);
      CommonSuffix(q, p, s[i + 1..]);
    } else {
      var q, r := p + [s[i]], p + [t[i]];
      assert q[..|q| - 1] == p && r[..|r| - 1] == p;
      assert s == q + s[i + 1..] && t == r + s[i + 1..];
      CommonSuffix(q, r, s[i + 1..]);
    }
  }

  lemma LevLast(p: string, x: char)
    ensures Lev(p, p + [x]) <= 1 && Lev(p + [x], p) <= 1
  {
    ZeroIffEqual(p, p);
    assert (p + [x])[..|p|] == p;
  }

  /** No chain is shorter than the distance. */
  lemma {:induction false} ChainsAreLongEnough(path: seq<string>, a: string, b: string)
    requires Chain(path, a, b)
    ensures Lev(a, b) <= |path| - 1
    decreases |path|
  {
    if |path| == 1 {
      ZeroIffEqual(a, b);
    } else {
      var front, mid := path[..|path| - 1], path[|path| - 2];
      assert OneEdit(path[|path| - 2], path[|path| - 1]);
      var i :| EditAt(mid, b, i);
      ChainsAreLongEnough(front, a, mid);
      OneEditCostsOne(mid, b, i);
      Triangle(a, mid, b);
    }
  }

  /** Every string of the chain, with `x` appended. */
  function AppendAll(path: seq<string>, x: char): seq<string> {
    seq(|path|, k requires 0 <= k < |path| => path[k] + [x])
  }

  lemma AppendAllChain(path: seq<string>, a: string, b: string, x: char)
    requires Chain(path, a, b)
    ensures Chain(AppendAll(path, x), a + [x], b + [x])
  {
    forall k | 0 <= k < |path| - 1 ensures OneEdit(path[k] + [x], path[k + 1] + [x]) {
      var s, t := path[k], path[k + 1];
      assert OneEdit(s, t);
      var i :| EditAt(s, t, i);
      AppendEdit(s, t, i, x);
    }
  }

  lemma AppendEdit(s: string, t: string, i: nat, x: char)
    requires EditAt(s, t, i)
    ensures EditAt(s + [x], t + [x], i)
  {
    assert (s + [x])[..i] == s[..i] && (s + [x])[i..] == s[i..] + [x];
    if i < |s| {
      assert (s + [x])[i + 1..] == s[i + 1..] + [x];
    }
    if i <= |t| {
      assert (t + [x])[..i] == t[..i] && (t + [x])[i..] == t[i..] + [x];
    }
    if i < |t| {
      assert (t + [x])[i + 1..] == t[i + 1..] + [x];
    }
  }

  lemma InsertLast(front: seq<string>, a: string, b: string)
    requires b != [] && Chain(front, a, b[..|b| - 1])
    ensures Chain(front + [b], a, b)
  {
    assert EditAt(b[..|b| - 1], b, |b| - 1);
    assert OneEdit(b[..|b| - 1], b);
  }

  lemma RemoveLast(rest: seq<string>, a: string, b: string)
    requires a != [] && Chain(rest, a[..|a| - 1], b)
    ensures Chain([a] + rest, a, b)
  {
    assert EditAt(a, a[..|a| - 1], |a| - 1);
    assert OneEdit(a, a[..|a| - 1]);
  }

  lemma ReplaceLast(front: seq<string>, a: string, b: string) returns (path: seq<string>)
    requires a != [] && b != [] && Chain(front, a[..|a| - 1], b[..|b| - 1])
    ensures Chain(path, a, b) && |path| == |front| + Cost(a[|a| - 1], b[|b| - 1])
  {
    var a', b', x, y := a[..|a| - 1], b[..|b| - 1], a[|a| - 1], b[|b| - 1];
    AppendAllChain(front, a', b', x);
    path := AppendAll(front, x);
    assert a == a' + [x] && b == b' + [y];
    if x != y {
      var mid := b' + [x];
      assert mid[..|b'|] == b' && b[..|b'|] == b';
      assert EditAt(mid, b, |b'|);
      assert OneEdit(mid, b);
      path := path + [b];
    }
  }

  /** Some chain is exactly as long as the distance. */
  lemma {:induction false} ShortestChain(a: string, b: string) returns (path: seq<string>)
    ensures Chain(path, a, b) && |path| - 1 == Lev(a, b)
    decreases |a| + |b|
  {
    if a == [] && b == [] {
      path := [a];
    } else if a == [] || (b != [] && Lev(a, b) == Lev(a, b[..|b| - 1]) + 1) {
      var front := ShortestChain(a, b[..|b| - 1]);
      InsertLast(front, a, b);
      path := front + [b];
    } else if b == [] || Lev(a, b) == Lev(a[..|a| - 1], b) + 1 {
      var rest := ShortestChain(a[..|a| - 1], b);
      RemoveLast(rest, a, b);
      path := [a] + rest;
    } else {
      var front := ShortestChain(a[..|a| - 1], b[..|b| - 1]);
      path := ReplaceLast(front, a, b);
    }
  }

  /** The distance is the length of a shortest chain of single edits. */
  lemma DistanceIsShortest(a: string, b: string, n: nat)
    ensures (exists path :: Chain(path, a, b) && |path| - 1 == n) ==> Lev(a, b) <= n
    ensures exists path :: Chain(path, a, b) && |path| - 1 == Lev(a, b)
  {
    forall path | Chain(path, a, b) ensures Lev(a, b) <= |path| - 1 {
      ChainsAreLongEnough(path, a, b);
    }
    var path := ShortestChain(a, b);
  }
}
