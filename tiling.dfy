/**
 * The index arithmetic of the blocked multiply: a dimension `[lo, n)` is cut
 * into the half-open spans that Python's `range(lo, n, step)` produces, each
 * clipped at `n` with `min`. The row tiles of the output are `Chunks(0, m,
 * block_m)`, its column tiles `Chunks(0, n, block_n)`, and the chunks of the
 * shared dimension `Chunks(0, k, block_m)`.
 */
module Tiling {

  /** A half-open index interval `[lo, hi)`. */
  datatype Span = Span(lo: nat, hi: nat)

  /** Python's `min` on integers. */
  function Min(a: int, b: int): int {
    if a < b then a else b
  }

  /** Index `x` lies in span `s`. */
  predicate InSpan(x: int, s: Span) {
    s.lo <= x < s.hi
  }

  /**
   * The spans visited by `for start in range(lo, n, step)` with
   * `end = min(start + step, n)`: there are none exactly when the range is
   * empty, and each one is non-empty, lies inside `[lo, n)` and is at most
   * `step` wide. ChunksPartition adds how they fit together.
   */
  function Chunks(lo: nat, n: nat, step: nat): (s: seq<Span>)
    requires step > 0
    ensures |s| == 0 <==> lo >= n
    ensures forall t :: 0 <= t < |s| ==> lo <= s[t].lo < s[t].hi <= n && s[t].hi - s[t].lo <= step
    decreases n - lo
  {
    if lo >= n then []
    else
      var rest := Chunks(lo + step, n, step);
      var s := [Span(lo, Min(lo + step, n))] + rest;
      assert forall t :: 1 <= t < |s| ==> s[t] == rest[t - 1];
      s
  }

  /**
   * The spans partition `[lo, n)` in order: the first starts at `lo`, each
   * ends where the next begins, the last ends at `n`, and every span but the
   * last is exactly `step` wide, so only the last one is clipped.
   */
  lemma {:induction false} ChunksPartition(lo: nat, n: nat, step: nat)
    requires step > 0
    ensures var s := Chunks(lo, n, step);
      && (|s| > 0 ==> s[0].lo == lo && s[|s| - 1].hi == n)
      && (forall t :: 0 <= t < |s| - 1 ==> s[t].hi == s[t + 1].lo && s[t].hi - s[t].lo == step)
    decreases n - lo
  {
    if lo < n {
      var s := Chunks(lo, n, step);
      var rest := Chunks(lo + step, n, step);
      assert s == [Span(lo, Min(lo + step, n))] + rest;
      ChunksPartition(lo + step, n, step);
      if rest == [] {
        assert s == [Span(lo, n)];
      } else {
        forall t | 0 <= t < |s| - 1
          ensures s[t].hi == s[t + 1].lo && s[t].hi - s[t].lo == step
        {
          if t > 0 {
            assert s[t] == rest[t - 1] && s[t + 1] == rest[t];
          }
        }
      }
    }
  }

  /**
   * Loop bookkeeping for a walk over `range(lo, n, step)` that has visited
   * `done` and now stands at `x`: visiting the span at `x` moves it from the
   * spans still to come to the spans visited.
   */
  lemma ChunksNext(lo: nat, x: nat, n: nat, step: nat, done: seq<Span>)
    requires step > 0 && x < n
    requires Chunks(lo, n, step) == done + Chunks(x, n, step)
    ensures Chunks(lo, n, step) == (done + [Span(x, Min(x + step, n))]) + Chunks(x + step, n, step)
  {
    assert Chunks(x, n, step) == [Span(x, Min(x + step, n))] + Chunks(x + step, n, step);
  }

  /** The `t`-th span starts at `lo + t * step`: the spans follow the stride of `range`. */
  lemma {:induction false} ChunksStart(lo: nat, n: nat, step: nat, t: nat)
    requires step > 0
    requires t < |Chunks(lo, n, step)|
    ensures Chunks(lo, n, step)[t].lo == lo + t * step
    decreases n - lo
  {
    if t > 0 {
      var rest := Chunks(lo + step, n, step);
      assert Chunks(lo, n, step)[t] == rest[t - 1];
      ChunksStart(lo + step, n, step, t - 1);
      assert lo + step + (t - 1) * step == lo + t * step;
    }
  }

  /** Spans come in increasing order and do not overlap. */
  lemma {:induction false} ChunksOrdered(lo: nat, n: nat, step: nat, t1: nat, t2: nat)
    requires step > 0
    requires t1 < t2 < |Chunks(lo, n, step)|
    ensures Chunks(lo, n, step)[t1].hi <= Chunks(lo, n, step)[t2].lo
    decreases n - lo
  {
    var s := Chunks(lo, n, step);
    var rest := Chunks(lo + step, n, step);
    assert s == [Span(lo, Min(lo + step, n))] + rest;
    assert s[t2] == rest[t2 - 1];
    if t1 > 0 {
      assert s[t1] == rest[t1 - 1];
      ChunksOrdered(lo + step, n, step, t1 - 1, t2 - 1);
    }
  }

  /**
   * Every index of `[lo, n)` lies in exactly one span: `t` is the span that
   * holds `x`, and no other span does. (That no index outside `[lo, n)` lies
   * in any span is part of the contract of `Chunks`.)
   */
  lemma {:induction false} ChunkOf(lo: nat, n: nat, step: nat, x: int) returns (t: nat)
    requires step > 0
    requires lo <= x < n
    ensures t < |Chunks(lo, n, step)| && InSpan(x, Chunks(lo, n, step)[t])
    ensures forall t' :: 0 <= t' < |Chunks(lo, n, step)| && InSpan(x, Chunks(lo, n, step)[t']) ==> t' == t
    decreases n - lo
  {
    var s := Chunks(lo, n, step);
    var rest := Chunks(lo + step, n, step);
    assert s == [Span(lo, Min(lo + step, n))] + rest;
    if x < s[0].hi {
      t := 0;
    } else {
      var t1 := ChunkOf(lo + step, n, step, x);
      assert s[t1 + 1] == rest[t1];
      t := t1 + 1;
    }
    forall t': nat | t' < |s| && InSpan(x, s[t']) ensures t' == t {
      if t' < t {
        ChunksOrdered(lo, n, step, t', t);
      } else if t < t' {
        ChunksOrdered(lo, n, step, t, t');
      }
    }
  }

  /**
   * When the step reaches the end of the range, `range` yields one start
   * and the range is a single unclipped span.
   */
  lemma SingleChunk(lo: nat, n: nat, step: nat)
    requires step > 0
    requires lo < n <= lo + step
    ensures Chunks(lo, n, step) == [Span(lo, n)]
  {
  }
}
