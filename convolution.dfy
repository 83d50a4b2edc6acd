/** Polynomial multiplication on coefficient sequences: entry `k` of the
    product of `a` (degree `|a| - 1`) and `b` is the sum of `a[i] * b[j]`
    over all `i + j == k`. Arithmetic is on unbounded integers. */
module Convolution {

  /** The contribution of coefficient `a[i]` to product coefficient `k`. */
  function Term(a: seq<int>, b: seq<int>, i: nat, k: int): int
    requires i < |a|
  {
    if 0 <= k - i < |b| then a[i] * b[k - i] else 0
  }

  /** The contributions to coefficient `k` of the coefficients `a[lo..hi)`,
      i.e. the sum of `a[i] * b[j]` over `lo <= i < hi` and `i + j == k`. */
  function ConvRange(a: seq<int>, b: seq<int>, lo: nat, hi: nat, k: int): int
    requires hi <= |a|
    decreases hi
  {
    if hi <= lo then 0 else ConvRange(a, b, lo, hi - 1, k) + Term(a, b, hi - 1, k)
  }

  /** Coefficient `k` of the product polynomial. */
  function Coeff(a: seq<int>, b: seq<int>, k: int): int
  {
    ConvRange(a, b, 0, |a|, k)
  }

  /** Splitting the `a`-range at `mid` splits the sum. */
  lemma {:induction false} ConvSplit(a: seq<int>, b: seq<int>, lo: nat, mid: nat, hi: nat, k: int)
    requires lo <= mid <= hi <= |a|
    ensures ConvRange(a, b, lo, hi, k) == ConvRange(a, b, lo, mid, k) + ConvRange(a, b, mid, hi, k)
    decreases hi
  {
    if mid < hi {
      ConvSplit(a, b, lo, mid, hi - 1, k);
    }
  }

  /** No `a`-coefficient above `k` reaches coefficient `k`. */
  lemma {:induction false} ConvAbove(a: seq<int>, b: seq<int>, lo: nat, hi: nat, k: int)
    requires hi <= |a| && k < lo
    ensures ConvRange(a, b, lo, hi, k) == 0
    decreases hi
  {
    if lo < hi {
      ConvAbove(a, b, lo, hi - 1, k);
    }
  }

  /** The constant coefficient of the product is `a[0] * b[0]`. */
  lemma CoeffFirst(a: seq<int>, b: seq<int>)
    requires 0 < |a| && 0 < |b|
    ensures Coeff(a, b, 0) == a[0] * b[0]
  {
    ConvSplit(a, b, 0, 1, |a|, 0);
    ConvAbove(a, b, 1, |a|, 0);
  }

  /** No `a`-coefficient below `k - (|b| - 1)` reaches coefficient `k`. */
  lemma {:induction false} ConvBelow(a: seq<int>, b: seq<int>, lo: nat, hi: nat, k: int)
    requires hi <= |a| && hi + |b| <= k + 1
    ensures ConvRange(a, b, lo, hi, k) == 0
    decreases hi
  {
    if lo < hi {
      ConvBelow(a, b, lo, hi - 1, k);
    }
  }

  /** The leading coefficient of the product, at index `n + m` for degrees
      `n` and `m`, is the product of the leading coefficients. */
  lemma CoeffLast(a: seq<int>, b: seq<int>)
    requires 0 < |a| && 0 < |b|
    ensures Coeff(a, b, |a| + |b| - 2) == a[|a| - 1] * b[|b| - 1]
  {
    ConvBelow(a, b, 0, |a| - 1, |a| + |b| - 2);
  }

  /** Beyond index `n + m` every coefficient is zero. */
  lemma CoeffBeyondDegree(a: seq<int>, b: seq<int>, k: int)
    requires |a| + |b| - 1 <= k
    ensures Coeff(a, b, k) == 0
  {
    ConvBelow(a, b, 0, |a|, k);
  }
}
