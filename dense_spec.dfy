/** Dense integer matrices and vectors, and the mathematical meaning of one
    matrix-vector product and of `k` repeated products. Arithmetic is on
    unbounded integers. */
module DenseSpec {

  /** A square `n` by `n` row-major matrix. */
  ghost predicate IsSquare(a: seq<seq<int>>, n: nat)
  {
    |a| == n && forall i :: 0 <= i < n ==> |a[i]| == n
  }

  /** The dot product of `row` with the first `|row|` entries of `v`, summed
      left to right as the source's inner loops do. */
  function Dot(row: seq<int>, v: seq<int>): int
    requires |row| <= |v|
  {
    if row == [] then 0 else Dot(row[..|row| - 1], v) + row[|row| - 1] * v[|row| - 1]
  }

  /** One matrix-vector product: entry `i` is the dot product of row `i` with `v`. */
  function MatVec(a: seq<seq<int>>, v: seq<int>): (r: seq<int>)
    requires forall i :: 0 <= i < |a| ==> |a[i]| == |v|
    ensures |r| == |a|
  {
    if a == [] then [] else MatVec(a[..|a| - 1], v) + [Dot(a[|a| - 1], v)]
  }

  /** Entry `i` of one product is the dot product of row `i` with the vector. */
  lemma {:induction false} MatVecAt(a: seq<seq<int>>, v: seq<int>, i: nat)
    requires forall j :: 0 <= j < |a| ==> |a[j]| == |v|
    requires i < |a|
    ensures MatVec(a, v)[i] == Dot(a[i], v)
  {
    if i < |a| - 1 {
      MatVecAt(a[..|a| - 1], v, i);
    }
  }

  /** `k` repeated products: `a` applied to `v`, then to the result, `k` times
      in sequence (not a matrix power). */
  function Apply(a: seq<seq<int>>, v: seq<int>, k: nat): (r: seq<int>)
    requires IsSquare(a, |v|)
    ensures |r| == |v|
  {
    if k == 0 then v else MatVec(a, Apply(a, v, k - 1))
  }

  /** The iteration count the source actually performs: `iters < 1` means none. */
  function Rounds(iters: int): nat
  {
    if iters < 1 then 0 else iters
  }

}
