/** Products, quotients and sums that several components need. */
module Arithmetic {
  /** How many values a 64-bit word has. */
  const MODULUS: nat := 0x1_0000_0000_0000_0000

  lemma WrapAdd(x: int, d: int)
    ensures (x % MODULUS + d) % MODULUS == (x + d) % MODULUS
  {
  }

  lemma MulMono(a: nat, b: int, c: nat, d: nat)
    requires a <= b && c <= d
    ensures a * c <= b * d
  {
    assert a * c <= a * d <= b * d by {
      assert a * (d - c) >= 0 && (b - a) * d >= 0;
    }
  }

  lemma MulBound(d: nat, k: int)
    requires d > 0
    ensures k >= 1 ==> d * k >= d
    ensures k <= -1 ==> d * k <= 0 - d
  {
  }

  lemma DivUnique(x: int, d: nat, q: int, r: nat)
    requires d > 0 && r < d && x == d * q + r
    ensures x / d == q && x % d == r
  {
    assert x == d * (x / d) + x % d;
    assert d * (q - x / d) == x % d - r;
    MulBound(d, q - x / d);
  }

  lemma Exact(b: nat, d: nat)
    requires d > 0 && b % d == 0
    ensures b == d * (b / d)
  {
  }

  function Sum(s: seq<int>): int {
    if s == [] then 0 else Sum(s[..|s| - 1]) + s[|s| - 1]
  }

  lemma {:induction false} SumUpdate(s: seq<int>, i: nat, v: int)
    requires i < |s|
    ensures Sum(s[i := v]) == Sum(s) - s[i] + v
  {
    var n := |s| - 1;
    if i < n {
      assert s[i := v][..n] == s[..n][i := v];
      SumUpdate(s[..n], i, v);
    } else {
      assert s[i := v][..n] == s[..n];
    }
  }

  lemma {:induction false} SumOfZeros(s: seq<int>)
    requires forall i :: 0 <= i < |s| ==> s[i] == 0
    ensures Sum(s) == 0
  {
    if s != [] {
      SumOfZeros(s[..|s| - 1]);
    }
  }
}
