/**
 Square-root checkpoint placement (crates/rocket-surgeon-protocol/src/lib.rs), over exact
 reals instead of `f64`.
 */
module CheckpointLayers {
  import opened Bits

  /** The least integer whose square is at least `n`, searched from `k` on. */
  function CeilSqrtFrom(n: nat, k: nat): (s: nat)
    requires k > 0 ==> (k - 1) * (k - 1) < n
    ensures n <= s * s && (s > 0 ==> (s - 1) * (s - 1) < n)
    decreases n - k
  {
    if n <= k * k then k else Below(k, n); CeilSqrtFrom(n, k + 1)
  }

  lemma Below(k: nat, n: nat)
    requires k * k < n
    ensures k < n
  {
  }

  /** `(n as f64).sqrt().ceil()`. */
  function CeilSqrt(n: nat): (s: nat)
    ensures n <= s * s && (s > 0 ==> (s - 1) * (s - 1) < n)
  {
    CeilSqrtFrom(n, 0)
  }

  lemma SqrtBounds(n: nat)
    requires n >= 2
    ensures 2 <= CeilSqrt(n) <= n
  {
    var s := CeilSqrt(n);
    if s > n {
      MulMono(n, s - 1, s - 1);
      MulMono(1, n, s - 1);
    }
  }

  /** `checkpoint_layers`. */
  function Layers(numLayers: nat): seq<int> {
    if numLayers <= 1 then []
    else
      SqrtBounds(numLayers);
      var s := CeilSqrt(numLayers);
      var interval := numLayers as real / s as real;
      seq(s - 1, i requires 0 <= i < s - 1 => ((i + 1) as real * interval).Floor)
  }

  lemma SignOfFactor(t: real, s: real)
    requires s > 0.0
    ensures (t * s >= 0.0 ==> t >= 0.0) && (t * s > 0.0 ==> t > 0.0)
  {
    if t < 0.0 {
      assert t * s < 0.0;
    }
  }

  lemma QuotientBetween(m: real, s: real, q: real)
    requires s > 0.0 && q * s <= m < (q + 1.0) * s
    ensures q <= m / s < q + 1.0
  {
    var x := m / s;
    assert x * s == m;
    assert (x - q) * s == x * s - q * s;
    assert (q + 1.0 - x) * s == (q + 1.0) * s - x * s;
    SignOfFactor(x - q, s);
    SignOfFactor(q + 1.0 - x, s);
  }

  lemma ProductOfQuotient(a: real, b: real, c: real, m: real)
    requires c != 0.0 && a * b == m
    ensures a * (b / c) == m / c
  {
    var x, y := b / c, m / c;
    assert x * c == b && y * c == m;
    assert (a * x) * c == a * (x * c);
    assert (a * x - y) * c == (a * x) * c - y * c;
  }

  lemma RealProduct(a: int, b: int)
    ensures (a * b) as real == a as real * b as real
  {
  }

  lemma DivisionBounds(m: nat, s: nat)
    requires s > 0
    ensures m / s * s <= m < (m / s + 1) * s
  {
    assert m == s * (m / s) + m % s;
    assert (m / s + 1) * s == s * (m / s) + s;
  }

  lemma FloorOfRatio(m: nat, s: nat, q: nat)
    requires s > 0 && q * s <= m < (q + 1) * s
    ensures (m as real / s as real).Floor == q
  {
    RealProduct(q, s);
    RealProduct(q + 1, s);
    QuotientBetween(m as real, s as real, q as real);
    FloorIs(m as real / s as real, q);
  }

  lemma FloorOfProduct(i: nat, n: nat, s: nat, m: nat, q: nat)
    requires s > 0 && m == i * n && q * s <= m < (q + 1) * s
    ensures (i as real * (n as real / s as real)).Floor == q
  {
    FloorOfRatio(m, s, q);
    RealProduct(i, n);
    ProductOfQuotient(i as real, n as real, s as real, m as real);
  }

  lemma FloorIs(x: real, q: int)
    requires q as real <= x < q as real + 1.0
    ensures x.Floor == q
  {
  }

  /** Position `i` of the placement, the two ends of the model included. */
  function Boundary(n: nat, s: nat, i: nat): nat
    requires s > 0
  {
    i * n / s
  }

  lemma BoundaryBounds(n: nat, s: nat, i: nat)
    requires s > 0
    ensures Boundary(n, s, i) * s <= i * n < (Boundary(n, s, i) + 1) * s
  {
    DivisionBounds(i * n, s);
  }

  lemma PositiveFactor(s: nat, d: int)
    requires s * d > 0
    ensures d >= 1
  {
  }

  lemma SmallFactor(s: nat, d: int)
    requires s > 0 && s * d < s * s + s
    ensures d <= s
  {
    assert (s + 1) * s == s * s + s;
    if d > s {
      MulMono(s + 1, d, s);
    }
  }

  lemma Gap(n: nat, s: nat, i: nat)
    requires 0 < s <= n <= s * s
    ensures 1 <= Boundary(n, s, i + 1) - Boundary(n, s, i) <= s
  {
    var a, b := i * n, (i + 1) * n;
    assert b == a + n;
    var qa, qb, d := a / s, b / s, b / s - a / s;
    assert a == s * qa + a % s && b == s * qb + b % s;
    assert s * d == s * qb - s * qa;
    PositiveFactor(s, d);
    SmallFactor(s, d);
  }

  /**
   `ceil(sqrt L) - 1` layers, strictly increasing inside `1..L`, and no stretch between two of
   them, or between one and an end of the model, longer than `ceil(sqrt L)`.
   */
  lemma LayersHold(n: nat)
    requires n >= 2
    ensures var r, s := Layers(n), CeilSqrt(n);
            && |r| == s - 1 && r != []
            && (forall i :: 0 <= i < |r| ==> 1 <= r[i] < n)
            && (forall i :: 0 <= i < |r| - 1 ==> r[i] < r[i + 1] <= r[i] + s)
            && r[0] <= s && n - r[|r| - 1] <= s
  {
    SqrtBounds(n);
    LayersAreBoundaries(n);
    var r, s := Layers(n), CeilSqrt(n);
    LastBoundary(n, s);
    Gap(n, s, 0);
    Gap(n, s, s - 1);
    forall i | 0 <= i < |r| - 1 ensures r[i] < r[i + 1] <= r[i] + s {
      Gap(n, s, i + 1);
    }
    forall i | 0 <= i < |r| ensures 1 <= r[i] < n {
      Increasing(n, s, 0, i + 1);
      Increasing(n, s, i + 1, s);
    }
  }

  lemma FloorIsBoundary(n: nat, s: nat, i: nat)
    requires s > 0
    ensures (i as real * (n as real / s as real)).Floor == Boundary(n, s, i)
  {
    BoundaryBounds(n, s, i);
    FloorOfProduct(i, n, s, i * n, Boundary(n, s, i));
  }

  lemma LayersAreBoundaries(n: nat)
    requires n >= 2
    ensures var s := CeilSqrt(n);
            s >= 2 && |Layers(n)| == s - 1 && forall i :: 0 <= i < s - 1 ==> Layers(n)[i] == Boundary(n, s, i + 1)
  {
    SqrtBounds(n);
    var r, s := Layers(n), CeilSqrt(n);
    forall i | 0 <= i < |r| ensures r[i] == Boundary(n, s, i + 1) {
      FloorIsBoundary(n, s, i + 1);
    }
  }

  lemma LastBoundary(n: nat, s: nat)
    requires s > 0
    ensures Boundary(n, s, 0) == 0 && Boundary(n, s, s) == n
  {
    ModUnique(s * n, s, n, 0);
  }

  lemma {:induction false} Increasing(n: nat, s: nat, i: nat, j: nat)
    requires 0 < s <= n <= s * s && i < j
    ensures Boundary(n, s, i) < Boundary(n, s, j)
    decreases j - i
  {
    Gap(n, s, j - 1);
    if i < j - 1 {
      Increasing(n, s, i, j - 1);
    }
  }
}
