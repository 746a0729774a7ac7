/**
 * The blocked (tiled) matrix multiply produced by the `block(block_m, block_n)`
 * decorator. The output is cut into row tiles of height `block_m` and column
 * tiles of width `block_n`; for each tile an accumulator is filled chunk by
 * chunk along the shared dimension, whose chunks are `block_m` wide, and is
 * then copied into its region of the result.
 */
module Block {
  import opened Tiling
  import opened Matrices

  /** The outcome of a multiply: the product, or the rejection of operands whose inner dimensions differ. */
  datatype MultiplyResult = Product(C: array2<int>) | IncompatibleDimensions

  /**
   * `C_block += A[i:, kStart:kEnd] @ B[kStart:kEnd, j:]`, the accumulator
   * being `acc` and its cell `(r, c)` standing for cell `(i + r, j + c)` of
   * the output: every accumulator cell gains the partial inner sum over
   * `[kStart, kEnd)` and nothing else changes.
   */
  method AccumulateChunk(acc: array2<int>, A: array2<int>, B: array2<int>, i: nat, j: nat, kStart: nat, kEnd: nat)
    requires acc != A && acc != B
    requires i + acc.Length0 <= A.Length0 && j + acc.Length1 <= B.Length1
    requires kStart <= kEnd <= A.Length1 && kEnd <= B.Length0
    modifies acc
    ensures forall r, c :: 0 <= r < acc.Length0 && 0 <= c < acc.Length1 ==>
              acc[r, c] == old(acc[r, c]) + Dot(A, B, i + r, j + c, kStart, kEnd)
  {
    var r := 0;
    while r < acc.Length0
      invariant 0 <= r <= acc.Length0
      invariant forall r', c :: 0 <= r' < acc.Length0 && 0 <= c < acc.Length1 ==>
                  acc[r', c] == old(acc[r', c]) + if r' < r then Dot(A, B, i + r', j + c, kStart, kEnd) else 0
    {
      var c := 0;
      while c < acc.Length1
        invariant 0 <= c <= acc.Length1
        invariant forall r', c' :: 0 <= r' < acc.Length0 && 0 <= c' < acc.Length1 ==>
                    acc[r', c'] == old(acc[r', c']) +
                      if r' < r || (r' == r && c' < c) then Dot(A, B, i + r', j + c', kStart, kEnd) else 0
      {
        acc[r, c] := acc[r, c] + Dot(A, B, i + r, j + c, kStart, kEnd);
        c := c + 1;
      }
      r := r + 1;
    }
  }

  /**
   * `C[i:i_end, j:j_end] = C_block`: the cells of the tile at `(i, j)` take
   * the accumulator's values and every other cell of `C` keeps its value.
   */
  method WriteTile(C: array2<int>, acc: array2<int>, i: nat, j: nat)
    requires C != acc
    requires i + acc.Length0 <= C.Length0 && j + acc.Length1 <= C.Length1
    modifies C
    ensures forall r, c :: 0 <= r < C.Length0 && 0 <= c < C.Length1 ==>
              C[r, c] == if i <= r < i + acc.Length0 && j <= c < j + acc.Length1
                         then acc[r - i, c - j] else old(C[r, c])
  {
    var r := 0;
    while r < acc.Length0
      invariant 0 <= r <= acc.Length0
      invariant forall r', c :: 0 <= r' < C.Length0 && 0 <= c < C.Length1 ==>
                  C[r', c] == if i <= r' < i + r && j <= c < j + acc.Length1
                              then acc[r' - i, c - j] else old(C[r', c])
    {
      var c := 0;
      while c < acc.Length1
        invariant 0 <= c <= acc.Length1
        invariant forall r', c' :: 0 <= r' < C.Length0 && 0 <= c' < C.Length1 ==>
                    C[r', c'] == if (i <= r' < i + r && j <= c' < j + acc.Length1) || (r' == i + r && j <= c' < j + c)
                                 then acc[r' - i, c' - j] else old(C[r', c'])
      {
        C[i + r, j + c] := acc[r, c];
        c := c + 1;
      }
      r := r + 1;
    }
  }

  /**
   * The chunk loop `for k_start in range(0, k, blockM)` over the zero
   * accumulator of the tile at `(i, j)`: one partial product is added per
   * chunk, so each cell ends up holding the full inner sum of its output
   * cell. The chunks visited are exactly `Chunks(0, k, blockM)`, whose width
   * is `blockM`.
   */
  method AccumulateTile(acc: array2<int>, A: array2<int>, B: array2<int>, i: nat, j: nat, blockM: int)
    requires acc != A && acc != B
    requires A.Length1 == B.Length0
    requires i + acc.Length0 <= A.Length0 && j + acc.Length1 <= B.Length1
    requires blockM > 0
    requires forall r, c :: 0 <= r < acc.Length0 && 0 <= c < acc.Length1 ==> acc[r, c] == 0
    modifies acc
    ensures forall r, c :: 0 <= r < acc.Length0 && 0 <= c < acc.Length1 ==>
              acc[r, c] == Dot(A, B, i + r, j + c, 0, A.Length1)
  {
    var k := A.Length1;
    var kStart := 0;
    ghost var visited := [];
    while kStart < k
      invariant Chunks(0, k, blockM) == visited + Chunks(kStart, k, blockM)
      invariant forall r, c :: 0 <= r < acc.Length0 && 0 <= c < acc.Length1 ==>
                  acc[r, c] == Dot(A, B, i + r, j + c, 0, Min(kStart, k))
    {
      var kEnd := Min(kStart + blockM, k);
      AccumulateChunk(acc, A, B, i, j, kStart, kEnd);
      forall r, c | 0 <= r < acc.Length0 && 0 <= c < acc.Length1
        ensures acc[r, c] == Dot(A, B, i + r, j + c, 0, kEnd)
      {
        DotSplit(A, B, i + r, j + c, 0, kStart, kEnd);
      }
      ChunksNext(0, kStart, k, blockM, visited);
      visited := visited + [Span(kStart, kEnd)];
      kStart := kStart + blockM;
    }
  }

  /**
   * The accumulator of the tile `[i, iEnd) × [j, jEnd)`: zero-initialised,
   * then filled by the chunk loop. Each cell ends up holding the full inner
   * sum of its output cell, which is the sum of the partial products over
   * the chunks `Chunks(0, k, blockM)`.
   */
  method ComputeTile(A: array2<int>, B: array2<int>, i: nat, iEnd: nat, j: nat, jEnd: nat, blockM: int)
    returns (acc: array2<int>)
    requires A.Length1 == B.Length0
    requires i <= iEnd <= A.Length0 && j <= jEnd <= B.Length1
    requires blockM > 0
    ensures fresh(acc)
    ensures acc.Length0 == iEnd - i && acc.Length1 == jEnd - j
    ensures forall r, c :: 0 <= r < acc.Length0 && 0 <= c < acc.Length1 ==>
              acc[r, c] == Dot(A, B, i + r, j + c, 0, A.Length1)
    ensures forall r, c :: 0 <= r < acc.Length0 && 0 <= c < acc.Length1 ==>
              acc[r, c] == ChunkSum(A, B, i + r, j + c, Chunks(0, A.Length1, blockM))
  {
    acc := new int[iEnd - i, jEnd - j]((_, _) => 0);
    AccumulateTile(acc, A, B, i, j, blockM);
    TileAsChunkSums(acc, A, B, i, j, blockM);
  }

  /**
   * A finished accumulator is the sum, chunk by chunk, of the partial
   * products of the chunks `range(0, k, blockM)`.
   */
  lemma TileAsChunkSums(acc: array2<int>, A: array2<int>, B: array2<int>, i: nat, j: nat, blockM: int)
    requires blockM > 0 && A.Length1 == B.Length0
    requires i + acc.Length0 <= A.Length0 && j + acc.Length1 <= B.Length1
    requires forall r, c :: 0 <= r < acc.Length0 && 0 <= c < acc.Length1 ==>
               acc[r, c] == Dot(A, B, i + r, j + c, 0, A.Length1)
    ensures forall r, c :: 0 <= r < acc.Length0 && 0 <= c < acc.Length1 ==>
              acc[r, c] == ChunkSum(A, B, i + r, j + c, Chunks(0, A.Length1, blockM))
  {
    forall r, c | 0 <= r < acc.Length0 && 0 <= c < acc.Length1
      ensures acc[r, c] == ChunkSum(A, B, i + r, j + c, Chunks(0, A.Length1, blockM))
    {
      ChunkedDot(A, B, i + r, j + c, 0, A.Length1, blockM);
    }
  }

  /**
   * One pass of the row loop: the column tiles `range(0, n, blockN)` of the
   * row tile `[i, iEnd)`, each computed and written back in turn. The rows of
   * the band end up holding the full inner sums and no other row changes.
   */
  method FillRowBand(C: array2<int>, A: array2<int>, B: array2<int>, i: nat, iEnd: nat, blockM: int, blockN: int)
    requires C != A && C != B
    requires A.Length1 == B.Length0 && C.Length0 == A.Length0 && C.Length1 == B.Length1
    requires i <= iEnd <= C.Length0
    requires blockM > 0 && blockN > 0
    modifies C
    ensures forall r, c :: 0 <= r < C.Length0 && 0 <= c < C.Length1 ==>
              C[r, c] == if i <= r < iEnd then Dot(A, B, r, c, 0, A.Length1) else old(C[r, c])
  {
    var n := C.Length1;
    var j := 0;
    ghost var colTiles := [];
    while j < n
      invariant Chunks(0, n, blockN) == colTiles + Chunks(j, n, blockN)
      invariant forall r, c :: 0 <= r < C.Length0 && 0 <= c < n ==>
                  C[r, c] == if i <= r < iEnd && c < j then Dot(A, B, r, c, 0, A.Length1) else old(C[r, c])
    {
      var jEnd := Min(j + blockN, n);
      var acc := ComputeTile(A, B, i, iEnd, j, jEnd, blockM);
      WriteTile(C, acc, i, j);
      ChunksNext(0, j, n, blockN, colTiles);
      colTiles := colTiles + [Span(j, jEnd)];
      j := j + blockN;
    }
  }

  /**
   * The multiply that `block(blockM, blockN)` wraps around any function.
   * Operands whose inner dimensions differ are rejected; otherwise the
   * result is a new `m × n` matrix whose every cell is the full inner sum of
   * `A @ B`, whichever positive block sizes are used.
   */
  method MultiplyBlocked(A: array2<int>, B: array2<int>, blockM: int, blockN: int) returns (res: MultiplyResult)
    requires blockM > 0 && blockN > 0
    ensures res.IncompatibleDimensions? <==> A.Length1 != B.Length0
    ensures res.Product? ==> fresh(res.C) && res.C.Length0 == A.Length0 && res.C.Length1 == B.Length1
    ensures res.Product? ==> forall r, c :: 0 <= r < res.C.Length0 && 0 <= c < res.C.Length1 ==>
              res.C[r, c] == Dot(A, B, r, c, 0, A.Length1)
  {
    var m, k := A.Length0, A.Length1;
    var kCheck, n := B.Length0, B.Length1;
    if k != kCheck {
      return IncompatibleDimensions;
    }
    var C := new int[m, n]((_, _) => 0);
    var i := 0;
    ghost var rowTiles := [];
    while i < m
      invariant Chunks(0, m, blockM) == rowTiles + Chunks(i, m, blockM)
      invariant forall r, c :: 0 <= r < m && 0 <= c < n ==>
                  C[r, c] == if r < i then Dot(A, B, r, c, 0, k) else 0
    {
      var iEnd := Min(i + blockM, m);
      FillRowBand(C, A, B, i, iEnd, blockM, blockN);
      ChunksNext(0, i, m, blockM, rowTiles);
      rowTiles := rowTiles + [Span(i, iEnd)];
      i := i + blockM;
    }
    return Product(C);
  }

  /**
   * With `blockM >= max(m, k)` and `blockN >= n` the multiply degenerates to
   * a single tile covering the whole output and a single chunk covering the
   * whole shared dimension.
   */
  lemma SingleTile(m: nat, n: nat, k: nat, blockM: int, blockN: int)
    requires 0 < m <= blockM && 0 < k <= blockM && 0 < n <= blockN
    ensures Chunks(0, m, blockM) == [Span(0, m)]
    ensures Chunks(0, n, blockN) == [Span(0, n)]
    ensures Chunks(0, k, blockM) == [Span(0, k)]
  {
    SingleChunk(0, m, blockM);
    SingleChunk(0, n, blockN);
    SingleChunk(0, k, blockM);
  }

  /**
   * Every cell of the `m × n` output lies in exactly one tile, a row tile of
   * `range(0, m, blockM)` crossed with a column tile of `range(0, n, blockN)`,
   * so the tile loop of MultiplyBlocked writes each cell once and only once.
   */
  lemma CellInOneTile(m: nat, n: nat, blockM: int, blockN: int, r: nat, c: nat) returns (ti: nat, tj: nat)
    requires blockM > 0 && blockN > 0
    requires r < m && c < n
    ensures ti < |Chunks(0, m, blockM)| && InSpan(r, Chunks(0, m, blockM)[ti])
    ensures tj < |Chunks(0, n, blockN)| && InSpan(c, Chunks(0, n, blockN)[tj])
    ensures forall ti', tj' ::
              0 <= ti' < |Chunks(0, m, blockM)| && InSpan(r, Chunks(0, m, blockM)[ti']) &&
              0 <= tj' < |Chunks(0, n, blockN)| && InSpan(c, Chunks(0, n, blockN)[tj']) ==>
                ti' == ti && tj' == tj
  {
    ti := ChunkOf(0, m, blockM, r);
    tj := ChunkOf(0, n, blockN, c);
  }
}
