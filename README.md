# Blocked matrix multiplication

This project models the tiled matrix multiply of `simple_blocks/block.py`:
the `wrapper` that the `block(block_m, block_n)` decorator puts in place of a
multiplication function. The wrapper never calls the function it wraps. It
first checks that `A` has as many columns as `B` has rows. It then allocates a
zero `m × n` result and walks the output in row tiles of height `block_m` and
column tiles of width `block_n`, clipping the last tile of each dimension with
`min`. For each tile it fills a zero accumulator by adding one sub-block product
per chunk of the shared dimension `k`. These chunks are `block_m` wide, not
`block_n` wide. Finally it copies the accumulator into the tile's region of
the result.

The model has three modules:

- `Tiling` (`tiling.dfy`) covers the index arithmetic. `Chunks(lo, n, step)` is
  the sequence of spans `[start, min(start + step, n))` for
  `start in range(lo, n, step)`. The lemmas show that these spans partition
  `[lo, n)` in order and that each index lies in exactly one span.
- `Matrices` (`matrices.dfy`) defines `Dot(A, B, r, c, lo, hi)`, the inner sum
  `Σ_{p ∈ [lo, hi)} A[r, p] * B[p, c]`. It is the specification of one cell of
  `A @ B` restricted to part of the shared dimension. The lemmas show that it
  splits at any point and that the chunks of `[0, k)` add up to the full sum.
- `Block` (`block.dfy`) holds the multiply itself, as imperative methods on
  `array2<int>`. `MultiplyBlocked` runs the row-tile loop over a fresh zero
  result, and `FillRowBand` is one pass of it: the column-tile loop for one row
  tile. `ComputeTile` allocates a fresh zero accumulator, and `AccumulateTile`
  runs the chunk loop over it.
  `AccumulateChunk` is the in-place `C_block += A_block @ B_block`, and
  `WriteTile` is the slice assignment `C[i:i_end, j:j_end] = C_block`.

Matrix entries are exact integers. As a result, the blocked result equals the
full product exactly, not only within a floating-point tolerance.

The error outcome follows the code. Operands with different inner dimensions
give `IncompatibleDimensions`, which stands for the `AssertionError` at line 32.
The code does not check the block sizes. A `block_m` of zero makes `range`
raise `ValueError` at line 38. A `block_n` of zero raises at line 42, but only
when a row tile is entered, that is when `m > 0` and `block_m > 0`. Every other
combination with a non-positive block size leaves the loops empty and returns
the zero `m × n` matrix. The model therefore requires both block sizes to be
positive. It does not report an invalid-block-size error, because the code has
none.

## Model

| member | source | states |
|---|---|---|
| `Block.MultiplyBlocked` | simple_blocks/block.py:26-63 | Operands are rejected exactly when the columns of `A` differ from the rows of `B`. Otherwise the result is a new matrix with the rows of `A` and the columns of `B`, and every cell `(r, c)` equals the full inner sum over `[0, k)`, which is the unblocked `A @ B`. The block sizes do not appear in this postcondition, so every choice of positive `block_m` and `block_n` gives the same matrix. The loop invariants also show that the row loop visits exactly `Chunks(0, m, block_m)`, and that every cell of a row not yet reached is still zero. |
| `Block.FillRowBand` | simple_blocks/block.py:42-61 | For one row tile `[i, i_end)`, the column tiles of `range(0, n, block_n)` are computed and written back in turn. Afterwards every cell in the band's rows holds its full inner sum, and every row outside the band keeps its previous values. The loop visits exactly `Chunks(0, n, block_n)`. |
| `Block.ComputeTile` | simple_blocks/block.py:47-58 | The tile accumulator is new, has shape `(i_end - i, j_end - j)`, and each cell ends up holding the full inner sum of its output cell. The same cell is also the sum of the partial products over the chunks `Chunks(0, k, block_m)`, so the tile is the sum of its `block_m`-wide chunk products. |
| `Block.AccumulateTile` | simple_blocks/block.py:50-58 | Starting from the zero accumulator, the chunk loop leaves each cell holding the full inner sum of its output cell. Its loop invariant says that after the chunks below `k_start` each cell holds the sum over `[0, min(k_start, k))`. The loop visits exactly `Chunks(0, k, block_m)`, so the chunks are `block_m` wide. |
| `Block.TileAsChunkSums` | simple_blocks/block.py:50-58 | When each accumulator cell holds the full inner sum, it equals the sum of the partial products over `Chunks(0, k, block_m)`. `ComputeTile` applies it through `ChunkedDot` to state its chunk-sum postcondition. |
| `Block.AccumulateChunk` | simple_blocks/block.py:51-58 | Each accumulator cell gains the partial inner sum of its output cell over `[k_start, k_end)`, and nothing else changes. |
| `Block.WriteTile` | simple_blocks/block.py:61 | Cells inside `[i, i_end) × [j, j_end)` take the accumulator's values. Every other cell of `C` keeps its previous value. |
| `Block.SingleTile` | simple_blocks/block.py:38-51 | When `block_m >= max(m, k)` and `block_n >= n`, with all dimensions positive, there is exactly one row tile, one column tile and one inner chunk, and each covers its whole dimension. |
| `Block.CellInOneTile` | simple_blocks/block.py:38-44 | Every output cell `(r, c)` lies in exactly one pair of a row tile and a column tile, so no cell is left out and no cell is written twice. |
| `Tiling.Chunks` | simple_blocks/block.py:38-44 | `range(lo, n, step)` with `min`-clipped ends yields no span exactly when `[lo, n)` is empty. Each span is non-empty, lies inside `[lo, n)` and is at most `step` wide. |
| `Tiling.ChunksPartition` | simple_blocks/block.py:38-44 | The spans partition `[lo, n)` in order. The first span starts at `lo`, each span ends where the next one begins, and the last one ends at `n`. Every span except the last is exactly `step` wide, so only the last one is clipped. |
| `Tiling.ChunksStart` | simple_blocks/block.py:38 | The `t`-th span starts at `lo + t * step`, which is the `t`-th value that `range` yields. |
| `Tiling.ChunksOrdered` | simple_blocks/block.py:38-44 | An earlier span ends at or before the start of a later one, so spans never overlap. |
| `Tiling.ChunkOf` | simple_blocks/block.py:50-51 | Each index of `[lo, n)` lies in one span, and no other span contains it. This applies to the row tiles, the column tiles and the inner chunks alike. |
| `Tiling.SingleChunk` | simple_blocks/block.py:38-40 | When `lo < n <= lo + step`, `range` produces the single span `[lo, n)`. |
| `Matrices.DotSplit` | simple_blocks/block.py:50-58 | The inner sum over `[lo, hi)` is the sum over `[lo, mid)` plus the sum over `[mid, hi)`. |
| `Matrices.ChunkedDot` | simple_blocks/block.py:50-58 | For any positive chunk width, the partial inner sums over the chunks of `[lo, k)` add up to the inner sum over the whole of `[lo, k)`. |

## Left out

- `example.py` is not part of this model. `simple_matmul` is a one-line call to numpy's `@`, and `Dot` over `[0, k)` stands in for it as the reference product. `benchmark_matmul` and the `__main__` block do timing with a wall clock, compare with a floating-point tolerance, generate random matrices and print results.
- Floating point is not modelled. Entries are exact `int`s, so there is no rounding and no tolerance.
- The `dtype` that the result and the accumulator copy from `A` (block.py:35, 47) is not modelled. Two consequences are lost. With an integer dtype, numpy wraps sums and products at the width of `A`'s integer dtype (64 bits for int64), while the model's `int` is exact. With an integer `A` and a floating-point `B`, the in-place `C_block += …` at block.py:58 raises a casting error when the chunk loop body runs, that is when `m`, `n` and `k` are all positive, while the model has only one element type.
- The numpy kernel behind `A_block @ B_block` is not modelled. Its result is specified by `Dot` over the chunk. The slices `A[i:i_end, k_start:k_end]` and `B[k_start:k_end, j:j_end]` are not built as separate arrays. `AccumulateChunk` reads the same cells through index offsets.
- Decorator plumbing is not modelled. This covers `functools.wraps`, `cast`, the `TypeVar` and the wrapped function, which is never called. The multiply is the plain method `Block.MultiplyBlocked(A, B, blockM, blockN)`.
- Block sizes that are zero or negative are excluded by a precondition. What the code does for each combination of non-positive sizes is described above: `block_m == 0` raises at line 38, `block_n == 0` raises at line 42 only when `m > 0` and `block_m > 0`, and every other combination returns the zero matrix.
- Python drops `assert` statements under `python -O`, and the dimension check is one. In that mode, mismatched operands would instead fail inside numpy or multiply a truncated range. The model always performs the check.
- Operands that are not two-dimensional, which make the tuple unpacking of `.shape` fail, cannot be expressed, because the operands are `array2`.
- Parallel execution of tiles is not modelled. The code runs sequentially.
