/** `m_serial`: polynomial multiplication by the schoolbook double loop
    over a zero-initialised result array. */
module MSerial {
  import opened Convolution

  /** The double loop `R[i + j] += A[i] * B[j]` for `i` in `[lo, hi)` and `j`
      in `[0, m]`: each cell `R[k]` gains the contributions to coefficient
      `k` of `A[lo..hi)`. Only `R` is written; `A` and `B` are read. */
  method Accumulate(A: array<int>, n: nat, B: array<int>, m: nat, lo: nat, hi: nat, R: array<int>)
    requires n < A.Length && m < B.Length && lo <= hi <= n + 1
    requires R.Length == n + m + 1 && R != A && R != B
    modifies R
    ensures forall k :: 0 <= k < R.Length ==> R[k] == old(R[k]) + ConvRange(A[..n + 1], B[..m + 1], lo, hi, k)
  {
    ghost var a, b := A[..n + 1], B[..m + 1];
    for i := lo to hi
      invariant forall k :: 0 <= k < R.Length ==> R[k] == old(R[k]) + ConvRange(a, b, lo, i, k)
    {
      AccumulateRow(A, n, B, m, i, R);
    }
  }

  /** The inner loop for one `i`: `R[i + j] += A[i] * B[j]` for `j` in
      `[0, m]`, so each `R[k]` gains the term of `A[i]` for coefficient `k`. */
  method AccumulateRow(A: array<int>, n: nat, B: array<int>, m: nat, i: nat, R: array<int>)
    requires n < A.Length && m < B.Length && i <= n
    requires R.Length == n + m + 1 && R != A && R != B
    modifies R
    ensures forall k :: 0 <= k < R.Length ==> R[k] == old(R[k]) + Term(A[..n + 1], B[..m + 1], i, k)
  {
    ghost var a, b := A[..n + 1], B[..m + 1];
    for j := 0 to m + 1
      invariant forall k :: 0 <= k < R.Length ==> R[k] == old(R[k]) + (if i <= k < i + j then Term(a, b, i, k) else 0)
    {
      R[i + j] := R[i + j] + A[i] * B[j];
    }
  }

  /** `m_serial`: a fresh `R` of `n + m + 1` cells, zeroed, holding
      afterwards coefficient `k` of the product of `A[0..n]` and `B[0..m]`
      in every cell `k`. */
  method Multiply(A: array<int>, n: nat, B: array<int>, m: nat) returns (R: array<int>)
    requires n < A.Length && m < B.Length
    ensures fresh(R) && R.Length == n + m + 1
    ensures forall k :: 0 <= k < R.Length ==> R[k] == Coeff(A[..n + 1], B[..m + 1], k)
  {
    R := new int[n + m + 1](_ => 0);
    Accumulate(A, n, B, m, 0, n + 1, R);
  }
}
