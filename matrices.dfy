/**
 * The arithmetic the blocked multiply relies on: the inner sum of one output
 * cell, restricted to a slice of the shared dimension, and the fact that the
 * slices given by the chunks of `[0, k)` add up to the whole sum. Matrices are
 * exact integers, so the blocked and the unblocked sums agree exactly.
 */
module Matrices {
  import opened Tiling

  /** Both operands are big enough for the inner sum of cell `(r, c)` over `[lo, hi)`. */
  predicate DotDefined(A: array2<int>, B: array2<int>, r: nat, c: nat, lo: nat, hi: nat) {
    r < A.Length0 && c < B.Length1 && lo <= hi <= A.Length1 && hi <= B.Length0
  }

  /** `Σ_{p ∈ [lo, hi)} A[r, p] * B[p, c]`, the part of cell `(r, c)` of `A @ B` that `[lo, hi)` contributes. */
  function Dot(A: array2<int>, B: array2<int>, r: nat, c: nat, lo: nat, hi: nat): int
    reads A, B
    requires DotDefined(A, B, r, c, lo, hi)
    decreases hi - lo
  {
    if lo == hi then 0 else Dot(A, B, r, c, lo, hi - 1) + A[r, hi - 1] * B[hi - 1, c]
  }

  /** The inner sum splits at any point of its range. */
  lemma {:induction false} DotSplit(A: array2<int>, B: array2<int>, r: nat, c: nat, lo: nat, mid: nat, hi: nat)
    requires lo <= mid <= hi
    requires DotDefined(A, B, r, c, lo, hi)
    ensures Dot(A, B, r, c, lo, hi) == Dot(A, B, r, c, lo, mid) + Dot(A, B, r, c, mid, hi)
    decreases hi - mid
  {
    if mid < hi {
      DotSplit(A, B, r, c, lo, mid, hi - 1);
    }
  }

  /**
   * The sum of the partial inner sums over a sequence of spans. A span that
   * does not fit the operands contributes nothing; the chunks of `[0, k)`
   * always fit.
   */
  function ChunkSum(A: array2<int>, B: array2<int>, r: nat, c: nat, spans: seq<Span>): int
    reads A, B
  {
    if spans == [] then 0
    else
      (if DotDefined(A, B, r, c, spans[0].lo, spans[0].hi) then Dot(A, B, r, c, spans[0].lo, spans[0].hi) else 0)
      + ChunkSum(A, B, r, c, spans[1..])
  }

  /**
   * Adding up the partial products over the chunks `range(lo, k, step)`
   * gives the inner sum over the whole of `[lo, k)`, whatever the step.
   */
  lemma {:induction false} ChunkedDot(A: array2<int>, B: array2<int>, r: nat, c: nat, lo: nat, k: nat, step: nat)
    requires step > 0
    requires DotDefined(A, B, r, c, lo, k)
    ensures ChunkSum(A, B, r, c, Chunks(lo, k, step)) == Dot(A, B, r, c, lo, k)
    decreases k - lo
  {
    if lo < k {
      var s := Chunks(lo, k, step);
      var rest := Chunks(lo + step, k, step);
      assert s == [Span(lo, Min(lo + step, k))] + rest;
      assert s[1..] == rest;
      if lo + step < k {
        ChunkedDot(A, B, r, c, lo + step, k, step);
        DotSplit(A, B, r, c, lo, lo + step, k);
      }
    }
  }
}
