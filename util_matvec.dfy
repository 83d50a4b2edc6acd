/** The result comparator: the number of positions at which two vectors differ. */
module UtilMatvec {

  /** Number of indices `i < n` with `a[i] != b[i]`, counted from the front. */
  function DiffCount(a: seq<int>, b: seq<int>, n: nat): (c: nat)
    requires n <= |a| && n <= |b|
    ensures c <= n
  {
    if n == 0 then 0 else DiffCount(a, b, n - 1) + (if a[n - 1] != b[n - 1] then 1 else 0)
  }

  /** No mismatches exactly when the vectors agree on every index below `n`. */
  lemma {:induction false} DiffCountZeroIff(a: seq<int>, b: seq<int>, n: nat)
    requires n <= |a| && n <= |b|
    ensures DiffCount(a, b, n) == 0 <==> a[..n] == b[..n]
  {
    if n > 0 {
      DiffCountZeroIff(a, b, n - 1);
      assert a[..n] == a[..n - 1] + [a[n - 1]];
      assert b[..n] == b[..n - 1] + [b[n - 1]];
      if a[..n] == b[..n] {
        assert a[..n - 1] == a[..n][..n - 1];
        assert b[..n - 1] == b[..n][..n - 1];
        assert a[n - 1] == a[..n][n - 1];
      }
    }
  }

  /** The count does not depend on the order of the two vectors. */
  lemma {:induction false} DiffCountSymmetric(a: seq<int>, b: seq<int>, n: nat)
    requires n <= |a| && n <= |b|
    ensures DiffCount(a, b, n) == DiffCount(b, a, n)
  {
    if n > 0 {
      DiffCountSymmetric(a, b, n - 1);
    }
  }

  /** Every position differs exactly when the count is `n`. */
  lemma {:induction false} DiffCountFull(a: seq<int>, b: seq<int>, n: nat)
    requires n <= |a| && n <= |b|
    ensures DiffCount(a, b, n) == n <==> forall i :: 0 <= i < n ==> a[i] != b[i]
  {
    if n > 0 {
      DiffCountFull(a, b, n - 1);
    }
  }

  /** The counting loop: neither vector is written, and the result is the
      mismatch count over the first `size` positions (none when `size <= 0`). */
  method VectorsDiffs(vecA: array<int>, vecB: array<int>, size: int) returns (numErrors: int)
    requires size <= vecA.Length && size <= vecB.Length
    ensures numErrors == if size <= 0 then 0 else DiffCount(vecA[..], vecB[..], size)
    ensures 0 <= numErrors && (size > 0 ==> numErrors <= size)
  {
    numErrors := 0;
    var i := 0;
    while i < size
      invariant 0 <= i <= (if size <= 0 then 0 else size)
      invariant numErrors == DiffCount(vecA[..], vecB[..], i)
    {
      if vecA[i] != vecB[i] {
        numErrors := numErrors + 1;
      }
      i := i + 1;
    }
  }
}
