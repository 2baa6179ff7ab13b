/** "Did you mean": the ranking of crates/rocket-surgeon/src/dispatch.rs, `nearest_components`. */
module NearestComponents {
  import opened Prelude
  import opened Sorting
  import opened EditDistance

  const CANONICAL_COMPONENTS: seq<string> := [
    "embed", "q_proj", "k_proj", "v_proj", "o_proj", "scores", "mlp", "gate_proj", "up_proj", "down_proj",
    "router", "residual_pre", "residual_post", "ln1", "ln2", "ln_final", "lm_head"]

  /** String comparison. */
  predicate LexLe(a: string, b: string) {
    a == [] || (b != [] && (a[0] < b[0] || (a[0] == b[0] && LexLe(a[1..], b[1..]))))
  }

  /** The two strings agree up to position `i`, and there the first has the smaller character. */
  predicate SmallerAt(a: string, b: string, i: nat) {
    i < |a| && i < |b| && a[..i] == b[..i] && a[i] < b[i]
  }

  /** Dictionary order: a beginning comes before the whole, and else the first difference decides. */
  ghost predicate InDictionary(a: string, b: string) {
    a <= b || exists i: nat :: SmallerAt(a, b, i)
  }

  lemma SmallerNext(a: string, b: string, i: nat)
    requires a != [] && b != [] && a[0] == b[0]
    ensures SmallerAt(a[1..], b[1..], i) <==> SmallerAt(a, b, i + 1)
  {
    if i < |a| - 1 && i < |b| - 1 {
      assert a[..i + 1] == [a[0]] + a[1..][..i] && b[..i + 1] == [b[0]] + b[1..][..i];
    }
  }

  lemma {:induction false} LexIsDictionary(a: string, b: string)
    ensures LexLe(a, b) <==> InDictionary(a, b)
  {
    if a != [] && b != [] {
      if a[0] == b[0] {
        LexIsDictionary(a[1..], b[1..]);
        assert a <= b <==> a[1..] <= b[1..];
        if LexLe(a, b) && !(a <= b) {
          var i: nat :| SmallerAt(a[1..], b[1..], i);
          SmallerNext(a, b, i);
          assert SmallerAt(a, b, i + 1);
        }
        if i: nat :| SmallerAt(a, b, i) {
          SmallerNext(a, b, i - 1);
          assert SmallerAt(a[1..], b[1..], i - 1);
        }
      } else {
        assert SmallerAt(a, b, 0) <==> a[0] < b[0];
        forall i: nat ensures SmallerAt(a, b, i) ==> i == 0 {
          if i > 0 && i < |a| && i < |b| {
            assert a[..i][0] != b[..i][0];
          }
        }
      }
    }
  }

  type Scored = (nat, string)

  predicate ScoreLe(x: Scored, y: Scored) {
    x.0 < y.0 || (x.0 == y.0 && LexLe(x.1, y.1))
  }

  lemma {:induction false} LexTotal(a: string, b: string)
    ensures LexLe(a, b) || LexLe(b, a)
  {
    if a != [] && b != [] {
      LexTotal(a[1..], b[1..]);
    }
  }

  lemma {:induction false} LexTransitive(a: string, b: string, c: string)
    requires LexLe(a, b) && LexLe(b, c)
    ensures LexLe(a, c)
  {
    if a != [] && a[0] == b[0] == c[0] {
      LexTransitive(a[1..], b[1..], c[1..]);
    }
  }

  lemma ScoreOrder()
    ensures TotalPreorder(ScoreLe)
  {
    forall x: Scored, y: Scored ensures ScoreLe(x, y) || ScoreLe(y, x) {
      LexTotal(x.1, y.1);
    }
    forall x: Scored, y: Scored, z: Scored | ScoreLe(x, y) && ScoreLe(y, z) ensures ScoreLe(x, z) {
      if x.0 == y.0 == z.0 {
        LexTransitive(x.1, y.1, z.1);
      }
    }
  }

  /** `nearest_components` over any vocabulary. */
  function Nearest(vocabulary: seq<string>, attempted: string): seq<string> {
    var ranking := Ranking(vocabulary, attempted);
    if ranking == [] then [] else Map(Take(Close(ranking), 5), (s: Scored) => s.1)
  }

  /** `x` ranks at or before `y`: closer, or as close and not later in the dictionary. */
  ghost predicate Ranks(attempted: string, x: string, y: string) {
    Lev(attempted, x) < Lev(attempted, y) || (Lev(attempted, x) == Lev(attempted, y) && InDictionary(x, y))
  }

  lemma RanksIf(attempted: string, x: string, y: string)
    requires ScoreLe((Lev(attempted, x), x), (Lev(attempted, y), y))
    ensures Ranks(attempted, x, y)
  {
    LexIsDictionary(x, y);
  }

  /** The vocabulary with its scores, best first. */
  function Ranking(vocabulary: seq<string>, attempted: string): seq<Scored> {
    Sort(Map(vocabulary, (c: string) => (Lev(attempted, c), c)), ScoreLe)
  }

  lemma RankingHolds(vocabulary: seq<string>, attempted: string)
    ensures var r := Ranking(vocabulary, attempted);
            && |r| == |vocabulary| && Sorted(r, ScoreLe)
            && (forall s :: s in r <==> s.1 in vocabulary && s.0 == Lev(attempted, s.1))
  {
    var scored := Map(vocabulary, (c: string) => (Lev(attempted, c), c));
    ScoreOrder();
    SortSorted(scored, ScoreLe);
    SortPermutes(scored, ScoreLe);
    SameElements(Ranking(vocabulary, attempted), scored);
    forall c | c in vocabulary ensures (Lev(attempted, c), c) in scored {
      var i :| 0 <= i < |vocabulary| && vocabulary[i] == c;
      assert scored[i] == (Lev(attempted, c), c);
    }
  }

  /** The entries within reach of the best. */
  function Close(ranking: seq<Scored>): (close: seq<Scored>)
    requires ranking != []
  {
    var best := ranking[0].0;
    Filter(ranking, (s: Scored) => s.0 <= best + 2)
  }

  lemma CloseHolds(ranking: seq<Scored>)
    requires ranking != [] && Sorted(ranking, ScoreLe)
    ensures var close := Close(ranking);
            && close != [] && Sorted(close, ScoreLe) && close[0].0 == ranking[0].0
            && (forall s :: s in close <==> s in ranking && s.0 <= ranking[0].0 + 2)
            && (forall s :: s in ranking ==> ScoreLe(close[0], s))
  {
    var best := ranking[0].0;
    var close := Close(ranking);
    FilterSorted(ranking, (s: Scored) => s.0 <= best + 2, ScoreLe);
    assert ranking[0] in close;
    ScoreOrder();
    forall s | s in ranking ensures ScoreLe(ranking[0], s) {
      if s == ranking[0] {
        LexTotal(s.1, s.1);
      }
    }
    assert ScoreLe(close[0], ranking[0]) by {
      if close[0] == ranking[0] {
        LexTotal(close[0].1, close[0].1);
      }
    }
  }

  /** The suggestions are the words of the first five close entries. */
  lemma NearestShape(vocabulary: seq<string>, attempted: string)
    requires vocabulary != []
    ensures var r, ranking := Nearest(vocabulary, attempted), Ranking(vocabulary, attempted);
            && ranking != [] && |r| == Min(|Close(ranking)|, 5)
            && forall i :: 0 <= i < |r| ==> Close(ranking)[i] == (Lev(attempted, r[i]), r[i])
  {
    var ranking := Ranking(vocabulary, attempted);
    RankingHolds(vocabulary, attempted);
    CloseHolds(ranking);
    var close, r := Close(ranking), Nearest(vocabulary, attempted);
    forall i | 0 <= i < |r| ensures close[i] == (Lev(attempted, r[i]), r[i]) {
      assert close[i] in close;
    }
  }

  /** A word within reach of the best has a place among the close ones. */
  lemma PlaceOf(vocabulary: seq<string>, attempted: string, c: string) returns (k: nat)
    requires c in vocabulary
    requires var ranking := Ranking(vocabulary, attempted);
             ranking != [] && Lev(attempted, c) <= ranking[0].0 + 2
    ensures var close := Close(Ranking(vocabulary, attempted));
            k < |close| && close[k] == (Lev(attempted, c), c)
  {
    var ranking, s := Ranking(vocabulary, attempted), (Lev(attempted, c), c);
    RankingHolds(vocabulary, attempted);
    CloseHolds(ranking);
    assert s in ranking;
    assert s in Close(ranking);
    k :| 0 <= k < |Close(ranking)| && Close(ranking)[k] == s;
  }

  lemma CloseSorted(vocabulary: seq<string>, attempted: string)
    requires vocabulary != []
    ensures var ranking := Ranking(vocabulary, attempted);
            && ranking != [] && Close(ranking) != [] && Close(ranking)[0].0 == ranking[0].0
            && Sorted(Close(ranking), ScoreLe)
  {
    RankingHolds(vocabulary, attempted);
    CloseHolds(Ranking(vocabulary, attempted));
  }

  /** A word left off is too far, or five others rank before it. */
  lemma LeftOff(vocabulary: seq<string>, attempted: string, c: string)
    requires c in vocabulary && c !in Nearest(vocabulary, attempted)
    ensures var r := Nearest(vocabulary, attempted);
            && r != []
            && (|| Lev(attempted, c) > Lev(attempted, r[0]) + 2
                || (|r| == 5 && forall i :: 0 <= i < 5 ==> Ranks(attempted, r[i], c)))
  {
    var ranking, r := Ranking(vocabulary, attempted), Nearest(vocabulary, attempted);
    CloseSorted(vocabulary, attempted);
    NearestShape(vocabulary, attempted);
    if Lev(attempted, c) <= ranking[0].0 + 2 {
      var k := PlaceOf(vocabulary, attempted, c);
      assert k >= |r|;
      forall i | 0 <= i < |r| ensures Ranks(attempted, r[i], c) {
        RanksIf(attempted, r[i], c);
      }
    }
  }

  lemma BestFirst(vocabulary: seq<string>, attempted: string, c: string)
    requires c in vocabulary
    ensures var r := Nearest(vocabulary, attempted); r != [] && Ranks(attempted, r[0], c)
  {
    RankingHolds(vocabulary, attempted);
    CloseHolds(Ranking(vocabulary, attempted));
    NearestShape(vocabulary, attempted);
    assert (Lev(attempted, c), c) in Ranking(vocabulary, attempted);
    RanksIf(attempted, Nearest(vocabulary, attempted)[0], c);
  }

  lemma SuggestedClose(vocabulary: seq<string>, attempted: string, i: nat)
    requires vocabulary != [] && i < |Nearest(vocabulary, attempted)|
    ensures var r := Nearest(vocabulary, attempted);
            r[i] in vocabulary && Lev(attempted, r[i]) <= Lev(attempted, r[0]) + 2
  {
    var close := Close(Ranking(vocabulary, attempted));
    RankingHolds(vocabulary, attempted);
    CloseHolds(Ranking(vocabulary, attempted));
    NearestShape(vocabulary, attempted);
    assert close[i] in close;
  }

  /**
   `r` is non-empty, in rank order, at most five long and headed by a best match. A word is left
   off only for being more than two edits worse than the best, or because five others all rank
   before it.
   */
  ghost predicate Suggests(vocabulary: seq<string>, attempted: string, r: seq<string>) {
    && 1 <= |r| <= 5
    && (forall i :: 0 <= i < |r| ==> r[i] in vocabulary && Lev(attempted, r[i]) <= Lev(attempted, r[0]) + 2)
    && (forall i, j :: 0 <= i < j < |r| ==> Ranks(attempted, r[i], r[j]))
    && (forall c :: c in vocabulary ==> Ranks(attempted, r[0], c))
    && (forall c :: c in vocabulary && c !in r ==>
          || Lev(attempted, c) > Lev(attempted, r[0]) + 2
          || (|r| == 5 && forall i :: 0 <= i < 5 ==> Ranks(attempted, r[i], c)))
  }

  lemma NearestHolds(vocabulary: seq<string>, attempted: string)
    requires vocabulary != []
    ensures Suggests(vocabulary, attempted, Nearest(vocabulary, attempted))
  {
    var r := Nearest(vocabulary, attempted);
    CloseSorted(vocabulary, attempted);
    NearestShape(vocabulary, attempted);
    forall i | 0 <= i < |r| ensures r[i] in vocabulary && Lev(attempted, r[i]) <= Lev(attempted, r[0]) + 2 {
      SuggestedClose(vocabulary, attempted, i);
    }
    forall c | c in vocabulary && c !in r
      ensures || Lev(attempted, c) > Lev(attempted, r[0]) + 2
              || (|r| == 5 && forall i :: 0 <= i < 5 ==> Ranks(attempted, r[i], c))
    {
      LeftOff(vocabulary, attempted, c);
    }
    forall i, j | 0 <= i < j < |r| ensures Ranks(attempted, r[i], r[j]) {
      RanksIf(attempted, r[i], r[j]);
    }
    forall c | c in vocabulary ensures Ranks(attempted, r[0], c) {
      BestFirst(vocabulary, attempted, c);
    }
  }

  lemma CloseDistinct(vocabulary: seq<string>, attempted: string)
    requires Distinct(vocabulary) && vocabulary != []
    ensures var ranking := Ranking(vocabulary, attempted); ranking != [] && Distinct(Close(ranking))
  {
    var scored := Map(vocabulary, (c: string) => (Lev(attempted, c), c));
    var ranking := Ranking(vocabulary, attempted);
    SortPermutes(scored, ScoreLe);
    SameElements(ranking, scored);
    assert Distinct(ranking) by {
      assert Distinct(scored);
      DistinctPermutes(scored, ranking);
    }
    var best := ranking[0].0;
    FilterDistinct(ranking, (s: Scored) => s.0 <= best + 2);
  }

  /** No word is suggested twice. */
  lemma NearestDistinct(vocabulary: seq<string>, attempted: string)
    requires Distinct(vocabulary)
    ensures Distinct(Nearest(vocabulary, attempted))
  {
    if vocabulary != [] {
      CloseDistinct(vocabulary, attempted);
      NearestShape(vocabulary, attempted);
      var r := Nearest(vocabulary, attempted);
      forall i, j | 0 <= i < j < |r| ensures r[i] != r[j] {
        var close := Close(Ranking(vocabulary, attempted));
        assert close[i] != close[j];
      }
    }
  }

  /** A word that is in the vocabulary is its own first suggestion. */
  lemma ExactMatchFirst(vocabulary: seq<string>, attempted: string)
    requires attempted in vocabulary
    ensures Nearest(vocabulary, attempted) != [] && Nearest(vocabulary, attempted)[0] == attempted
  {
    NearestHolds(vocabulary, attempted);
    ZeroIffEqual(attempted, attempted);
    ZeroIffEqual(attempted, Nearest(vocabulary, attempted)[0]);
  }

  /** No component name is listed twice. */
  lemma ComponentsDistinct()
    ensures CANONICAL_COMPONENTS != [] && Distinct(CANONICAL_COMPONENTS)
  {
  }

  /** `nearest_components` itself: there is always a suggestion, and never the same one twice. */
  lemma ComponentsSuggested(attempted: string)
    ensures var r := Nearest(CANONICAL_COMPONENTS, attempted);
            && Suggests(CANONICAL_COMPONENTS, attempted, r) && Distinct(r)
            && (attempted in CANONICAL_COMPONENTS ==> r[0] == attempted)
  {
    ComponentsDistinct();
    NearestHolds(CANONICAL_COMPONENTS, attempted);
    NearestDistinct(CANONICAL_COMPONENTS, attempted);
    if attempted in CANONICAL_COMPONENTS {
      ExactMatchFirst(CANONICAL_COMPONENTS, attempted);
    }
  }
}
