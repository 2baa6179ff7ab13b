/** Powers of two, bit masks on naturals, and little-endian byte strings. */
module Bits {

  type Byte = b: int | 0 <= b < 256

  const U32_LIMIT: nat := 0x1_0000_0000
  const U64_LIMIT: nat := 0x1_0000_0000_0000_0000

  type U32 = n: nat | n < 0x1_0000_0000

  function Pow2(k: nat): (p: nat)
    ensures p > 0
  {
    if k == 0 then 1 else 2 * Pow2(k - 1)
  }

  /** Bitwise `a & b`. */
  function And(a: nat, b: nat): nat {
    if a == 0 || b == 0 then 0 else (if a % 2 == 1 && b % 2 == 1 then 1 else 0) + 2 * And(a / 2, b / 2)
  }

  /** Bitwise `a & !b`. */
  function AndNot(a: nat, b: nat): nat {
    if a == 0 then 0 else (if a % 2 == 1 && b % 2 == 0 then 1 else 0) + 2 * AndNot(a / 2, b / 2)
  }

  ghost predicate IsPow2(n: nat) {
    exists k: nat :: n == Pow2(k)
  }

  lemma ModUnique(a: nat, m: nat, q: nat, r: nat)
    requires m > 0 && a == m * q + r && r < m
    ensures a / m == q && a % m == r
  {
    var d := a / m - q;
    assert m * (a / m) - m * q == m * d;
    assert m * d == r - a % m;
  }

  lemma DoubleProduct(p: nat, q: nat)
    ensures (2 * p) * q == 2 * (p * q)
  {
  }

  lemma AndOdd(a: nat, c: nat)
    ensures And(a, 2 * c + 1) == a % 2 + 2 * And(a / 2, c)
  {
    assert (2 * c + 1) / 2 == c && (2 * c + 1) % 2 == 1;
  }

  /** Masking with `2^k - 1` takes off a multiple of `2^k` and leaves less than that. */
  lemma {:induction false} MaskSplits(a: nat, k: nat) returns (q: nat)
    ensures a == Pow2(k) * q + And(a, Pow2(k) - 1) && And(a, Pow2(k) - 1) < Pow2(k)
  {
    if k == 0 {
      q := a;
    } else {
      var p := Pow2(k - 1);
      q := MaskSplits(a / 2, k - 1);
      DoubleProduct(p, q);
      AndOdd(a, p - 1);
    }
  }

  /** Masking with `2^k - 1` is the remainder by `2^k`. */
  lemma MaskIsMod(a: nat, k: nat)
    ensures And(a, Pow2(k) - 1) == a % Pow2(k)
  {
    var q := MaskSplits(a, k);
    ModUnique(a, Pow2(k), q, And(a, Pow2(k) - 1));
  }

  /** The bits of `a` are those in `b` and those that are not. */
  lemma {:induction false} AndSplits(a: nat, b: nat)
    ensures And(a, b) + AndNot(a, b) == a
  {
    if a > 0 {
      AndSplits(a / 2, b / 2);
      if b == 0 {
        AndNone(a / 2);
      }
    }
  }

  lemma AndNone(a: nat)
    ensures And(a, 0) == 0
  {
  }

  /** Clearing the low `k` bits rounds down to a multiple of `2^k`. */
  lemma ClearIsRound(a: nat, k: nat)
    ensures AndNot(a, Pow2(k) - 1) == a - a % Pow2(k)
  {
    MaskIsMod(a, k);
    AndSplits(a, Pow2(k) - 1);
  }

  /** The test `n & (n - 1) == 0` is exactly the test for a power of two. */
  lemma {:induction false} PowerOfTwoTest(n: nat)
    requires n > 0
    ensures And(n, n - 1) == 0 <==> IsPow2(n)
  {
    if n == 1 {
      assert n == Pow2(0);
    } else if n % 2 == 1 {
      assert (n - 1) / 2 == n / 2 && n / 2 > 0;
      AndSelf(n / 2);
      forall k: nat ensures n != Pow2(k) {}
    } else {
      PowerOfTwoTest(n / 2);
      assert (n - 1) / 2 == n / 2 - 1;
      if IsPow2(n / 2) {
        var k: nat :| n / 2 == Pow2(k);
        assert n == Pow2(k + 1);
      }
      if IsPow2(n) {
        var k: nat :| n == Pow2(k);
        assert n / 2 == Pow2(k - 1);
      }
    }
  }

  lemma {:induction false} AndSelf(n: nat)
    ensures And(n, n) == n
  {
    if n > 0 {
      AndSelf(n / 2);
    }
  }

  lemma MulMono(i: nat, j: nat, s: nat)
    requires i <= j
    ensures i * s <= j * s
  {
  }

  /** Numbers less than `b` apart have different remainders by `b`. */
  lemma ModDiffers(m: nat, n: nat, b: nat)
    requires m < n < m + b
    ensures m % b != n % b
  {
    var d := n / b - m / b;
    assert b * (n / b) - b * (m / b) == b * d;
    if m % b == n % b {
      assert n - m == b * d;
      if d >= 1 {
        MulMono(1, d, b);
      }
      assert false;
    }
  }

  /** Taking the remainder off leaves a multiple. */
  lemma RoundDown(m: nat, p: nat)
    requires p > 0
    ensures m % p < p && m % p <= m && (m - m % p) % p == 0
  {
    assert m == p * (m / p) + m % p;
    ModUnique(m - m % p, p, m / p, 0);
  }

  // ----- little-endian numbers -----

  function Pow256(k: nat): (p: nat)
    ensures p > 0
  {
    if k == 0 then 1 else 256 * Pow256(k - 1)
  }

  /** `to_le_bytes` of a `k`-byte integer. */
  function ToLe(n: nat, k: nat): (s: seq<Byte>)
    ensures |s| == k
  {
    if k == 0 then [] else [n % 256] + ToLe(n / 256, k - 1)
  }

  /** `from_le_bytes`. */
  function FromLe(s: seq<Byte>): nat {
    if s == [] then 0 else s[0] + 256 * FromLe(s[1..])
  }

  lemma {:induction false} LeRoundTrip(n: nat, k: nat)
    requires n < Pow256(k)
    ensures FromLe(ToLe(n, k)) == n
  {
    if k > 0 {
      LeRoundTrip(n / 256, k - 1);
      assert ToLe(n, k)[1..] == ToLe(n / 256, k - 1);
    }
  }

  lemma Widths()
    ensures Pow256(2) == 0x1_0000 && Pow256(4) == U32_LIMIT && Pow256(8) == U64_LIMIT
  {
    assert Pow256(1) == 256;
    assert Pow256(3) == 256 * Pow256(2);
    assert Pow256(5) == 256 * Pow256(4);
    assert Pow256(6) == 256 * Pow256(5);
    assert Pow256(7) == 256 * Pow256(6);
  }

  lemma {:induction false} FromLeBound(s: seq<Byte>)
    ensures FromLe(s) < Pow256(|s|)
  {
    if s != [] {
      FromLeBound(s[1..]);
    }
  }

  /** Integers of `k` bytes each, laid end to end. */
  function LeInts(ns: seq<nat>, k: nat): (s: seq<Byte>)
    ensures |s| == k * |ns|
  {
    if ns == [] then [] else ToLe(ns[0], k) + LeInts(ns[1..], k)
  }

  /** `n` integers of `k` bytes each. */
  function ReadInts(s: seq<Byte>, n: nat, k: nat): (ns: seq<nat>)
    requires |s| == k * n
    ensures |ns| == n
  {
    if n == 0 then [] else [FromLe(s[..k])] + ReadInts(s[k..], n - 1, k)
  }

  lemma {:induction false} LeIntsSnoc(ns: seq<nat>, x: nat, k: nat)
    ensures LeInts(ns + [x], k) == LeInts(ns, k) + ToLe(x, k)
  {
    if ns == [] {
      assert LeInts([x], k) == ToLe(x, k) + LeInts([], k);
    } else {
      assert (ns + [x])[1..] == ns[1..] + [x];
      LeIntsSnoc(ns[1..], x, k);
    }
  }

  lemma {:induction false} IntsRoundTrip(ns: seq<nat>, k: nat)
    requires forall i :: 0 <= i < |ns| ==> ns[i] < Pow256(k)
    ensures ReadInts(LeInts(ns, k), |ns|, k) == ns
  {
    if ns != [] {
      var s := LeInts(ns, k);
      LeRoundTrip(ns[0], k);
      IntsRoundTrip(ns[1..], k);
      assert s[..k] == ToLe(ns[0], k);
      assert s[k..] == LeInts(ns[1..], k);
    }
  }

  lemma {:induction false} ReadIntsBound(s: seq<Byte>, n: nat, k: nat)
    requires |s| == k * n
    ensures forall i :: 0 <= i < n ==> ReadInts(s, n, k)[i] < Pow256(k)
  {
    if n > 0 {
      FromLeBound(s[..k]);
      ReadIntsBound(s[k..], n - 1, k);
    }
  }

  /** Zero padding, `[0u8; n]`. */
  function Zeros(n: nat): (s: seq<Byte>)
    ensures |s| == n && forall i :: 0 <= i < n ==> s[i] == 0
  {
    seq(n, _ => 0)
  }
}
