# Blocked transpose and OpenMP work partitioning, modelled in Dafny

This project models the two pieces of sequential index logic in the lab
exercises and proves them correct:

- `lab07/transpose.c`: transposing an `n*n` int matrix held row-major in a
  flat buffer. `transpose_naive` is the reference. `transpose_blocking` does the
  same work in `blocksize*blocksize` tiles and clips the partial tiles at the
  right and bottom edges with a bounds check.
- `lab09/omp_apps.c`: the vector-add and dot-product exercises. The oracle
  `verify` is modelled, and so are the three vector-add strategies (every
  thread does everything, adjacent indices, contiguous chunks plus a serial
  tail). On the dot-product side there is the serial sum and the manual
  reduction (private partial sums per chunk, one guarded add per thread, then
  the tail).

Files:

- `arith.dfy` (module `Arith`): multiplication and division facts used by
  the index arithmetic.
- `transpose.dfy` (module `Transpose`): `Cell` is the flat offset
  `col + row*n`. `Transposed` is the reference transpose of a sequence. The
  three transpose methods over `array<int>` are proved equal to it, and lemmas
  cover the tile loops and the bounds check.
- `omp_apps.dfy` (module `OmpApps`): the vector-add methods over `array<int>`,
  with ghost write counters and writer ids. `SumProd` is the left-to-right
  serial dot product. The chunk-decomposition lemmas and the two dot-product
  methods complete the module.

Threads are simulated one after another. The thread count `threads` is a
parameter, and the body each thread runs inside a parallel region is one
iteration of a loop over thread ids `0 .. threads-1`. Element values are
`int` rather than `double`, so sums are exact and the 0.001 tolerance becomes
equality. `ARRAY_SIZE` is defined in `omp_apps.h`, which is not part of this
model. It becomes the parameter `arraySize`, and each buffer holds exactly
that many elements.

Two points about the code itself:

- The chunk strategy partitions by `size = ARRAY_SIZE / total_thread` and has
  a serial tail loop for the indices from `total_thread * size` on
  (`lab09/omp_apps.c:69-88`).
- The `>` bounds check of `transpose_blocking` lets a store run past the
  buffer whenever `n % blocksize != 0` (see Findings).

## Model

| member | source | states |
|---|---|---|
| `Transpose.Cell` | lab07/transpose.c:10 | the offset `y + x*n` of an in-range cell lies in `[0, n*n)`, and its quotient and remainder by `n` give back the row and column, so distinct cells never share an offset |
| `Transpose.Transposed` | lab07/transpose.c:6-11 | the reference transpose has `n*n` cells, and cell (r, c) of it is cell (c, r) of the source |
| `Transpose.TransposedFromCells` | lab07/transpose.c:6-11 | a buffer that satisfies `dst[y + x*n] == src[x + y*n]` for every in-range x and y is exactly the transpose: the per-cell relation fixes every cell |
| `Transpose.TransposedTwice` | lab07/transpose.c:10 | transposing the transpose gives back the original matrix |
| `Transpose.TransposeNaive` | lab07/transpose.c:4-13 | given distinct `n*n` buffers, the naive loops leave `dst` equal to the transpose of `src` and change nothing but `dst` |
| `Transpose.TransposeBlocking` | lab07/transpose.c:17-37 | for every blocksize >= 1, divisor of n or not, the tiled loops with the check `i >= n \|\| j >= n` leave `dst` equal to the transpose of `src`, and the ghost counter shows each cell is stored exactly once |
| `Transpose.TransposeBlockingAsWritten` | lab07/transpose.c:17-37 | with the check `i > n \|\| j > n` exactly as written, every store stays in bounds and the result is the transpose when blocksize divides n |
| `Transpose.ReachedIffInTile` | lab07/transpose.c:20-27 | position p is reached by the tile loops (x from 0 in steps of blocksize while below n, then i over the tile) exactly when the tile that holds p starts below n |
| `Transpose.TileEndsByN` | lab07/transpose.c:20-24 | when blocksize divides n, every position the tile loops reach is below n |
| `Transpose.AsWrittenInBoundsIff` | lab07/transpose.c:20-32 | with the check as written, every position that is reached and admitted has both of its accesses inside the `n*n` buffers exactly when `n % blocksize == 0` |
| `Transpose.AsWrittenOverruns` | lab07/transpose.c:28-32 | for n = 3 and blocksize = 2 the loops reach i = 3 and the check admits (3, 0), whose store `dst[0 + 3*3]` lies past the 9-cell buffer |
| `Transpose.SingleTile` | lab07/transpose.c:20-27 | when blocksize >= n >= 1 the loops reach exactly the positions of the single tile (0, 0) |
| `Transpose.BlockingMatchesNaive` | lab07/transpose.c:4-37 | on the same source, the naive and tiled routines produce the same buffer, which is the transpose |
| `Transpose.BlockingRoundTrip` | lab07/transpose.c:17-37 | a tiled transpose into a scratch buffer followed by a tiled transpose back gives the source again |
| `Transpose.FiveByFiveInTwos` | lab07/transpose.c:17-37 | the 5*5 matrix 1..25 transposed in 2*2 tiles (uneven 2+2+1 split) comes out as 1, 6, 11, 16, 21, 2, 7, ... |
| `OmpApps.CompareWithOracle` | lab09/omp_apps.c:14-26 | the oracle-and-scan part of `verify` returns 0 or 1, and returns 1 exactly when every `z[i] == x[i] + y[i]` for `i < ARRAY_SIZE` |
| `OmpApps.Verify` | lab09/omp_apps.c:12-27 | `verify` run on any of the three vector-add functions, for any thread count >= 1, returns 1 |
| `OmpApps.VAddNaive` | lab09/omp_apps.c:30-37 | every thread rewrites the whole vector: each `z[i]` is stored `threads` times, always with `x[i] + y[i]`, so the result does not depend on the thread count |
| `OmpApps.VAddAdjacent` | lab09/omp_apps.c:40-58 | each index i is stored exactly once, by thread `i % threads`, and holds `x[i] + y[i]` afterwards |
| `OmpApps.ChunkLayout` | lab09/omp_apps.c:70-72 | with `size = n / threads`, chunk t (t < threads) ends by `threads*size`, and `threads*size <= n` |
| `OmpApps.StoreChunk` | lab09/omp_apps.c:78-81 | the inner loop over one thread's chunk `[t*size, (t+1)*size)` stores `x[j] + y[j]` once at each index of the chunk, with writer t, and leaves every `z[k]` outside the chunk unchanged |
| `OmpApps.VAddChunksThread` | lab09/omp_apps.c:68-82 | thread t walks the chunk starts and stores exactly its own chunk `[t*size, (t+1)*size)`: it extends the finished prefix from `t*size` to `(t+1)*size` and leaves every `z[k]` outside its chunk unchanged |
| `OmpApps.VAddChunks` | lab09/omp_apps.c:61-89 | every index is stored exactly once and holds `x[i] + y[i]`; an index below `threads*size` is stored by the thread whose chunk holds it, and the rest by the serial tail; with fewer elements than threads the tail stores everything |
| `OmpApps.SumProdSplit` | lab09/omp_apps.c:120-126 | a serial sum of products splits at any midpoint into the sums of the two parts |
| `OmpApps.ChunkTotalIsPrefix` | lab09/omp_apps.c:119-131 | the partial sums of the first k chunks add up to the serial sum over `[0, k*size)` |
| `OmpApps.ChunksPlusTail` | lab09/omp_apps.c:113-138 | the chunk partial sums plus the tail sum over `[threads*size, n)` equal the serial sum over `[0, n)`, and `threads*size <= n` |
| `OmpApps.AddPartial` | lab09/omp_apps.c:127-131 | skipping a zero partial sum leaves the same global sum as adding it |
| `OmpApps.DotpNaive` | lab09/omp_apps.c:92-103 | the per-element accumulation yields `SumProd(x, y, 0, arr_size)`, the left-to-right serial sum of `x[i]*y[i]` that `compute_dotp` computes as its reference at lab09/omp_apps.c:167-170 |
| `OmpApps.DotpThreadSum` | lab09/omp_apps.c:115-126 | the private partial sum of thread t, for t < threads and `size = arr_size / threads`, is the serial sum over its chunk `[t*size, (t+1)*size)`, and that chunk ends by `arr_size` |
| `OmpApps.DotpManualOptimized` | lab09/omp_apps.c:106-139 | for every thread count >= 1 the manual reduction yields exactly the serial sum of `x[i]*y[i]` over `[0, arr_size)`, reading only indices below `arr_size` |

## Left out

- OpenMP itself. `omp_get_num_threads`, `omp_get_thread_num`,
  `omp_set_num_threads`, `omp_get_max_threads`, `omp_get_wtime` and the
  `parallel`, `for`, `critical` and `reduction` pragmas are not modelled,
  because concurrency is not modelled. The thread count and thread id are
  parameters, and threads run one after another.
- The race on the shared `total_thread` and `size`
  (`lab09/omp_apps.c:69-70`, `115-116`) is absent from the sequential model.
  Every thread assigns the same values, and the model keeps those
  assignments.
- `OmpApps.DotpManualOptimized`: the `omp for` at `lab09/omp_apps.c:119`
  is modelled as a static schedule that gives thread t the single iteration
  `i = t*size`. The loop has `threads` iterations when
  `arr_size >= threads` (one per thread) and none otherwise (`size == 0`). Other schedules are not modelled, although over ints
  the sum is the same for any assignment of chunks to threads.
- `OmpApps.DotpNaive`: each element's addition runs in whatever order the
  work-sharing loop gives it. The model adds left to right, which gives the
  same sum over ints.
- `dotp_reduction_optimized` is left out. Its only content beyond the serial
  loop is the runtime's reduction, whose order of combination cannot be seen.
  `DotpNaive` stands in as the serial-sum reference.
- `gen_array` is left out: it uses `drand48` randomness and `malloc`.
- `compute_dotp` is left out. It does wall-clock timing, `sprintf` into the
  fixed `BUF_SIZE` report buffer, the `fabs` tolerance check and the thread
  sweep, which are benchmarking and I/O.
- Double-precision arithmetic is not modelled. Elements are unbounded ints,
  so rounding and the 0.001 tolerance have no counterpart.
- C `int` overflow is not modelled. `n*n`, `x + blocksize` and
  `total_thread*size` use unbounded integers. A negative `n` (for which the C
  loops do nothing) is excluded by `n: nat`.
- `OmpApps.Verify`: the function pointer `funct` ranges only over the three
  vector-add strategies (`VAddFunct`). The unfreed buffers are irrelevant to
  the model.
- `OmpApps.CompareWithOracle`: it returns an int, so the fact that the scan
  stops at the first mismatch is not visible in the result. Only "1 exactly
  when all match" is stated.
- `Transpose.TransposeBlockingAsWritten`: the method requires
  `n % blocksize == 0`, because a store past the buffer (undefined behaviour
  in C) cannot be executed in the model. What the `>` check does otherwise is
  stated by `AsWrittenInBoundsIff` and `AsWrittenOverruns`.
- `Transpose.TransposeBlocking` and `Transpose.TransposeBlockingAsWritten`
  require `blocksize >= 1`. For `blocksize <= 0` and `n >= 1` the C loops
  never end (`x += blocksize` makes no progress), so a caller must pass a
  positive block size.
- All buffers are required to be distinct (`dst != src`, `z != x`,
  `z != y`), as the callers pass them. Overlapping buffers are not modelled.

## Findings

| source | as written | input that shows it | evidently intended | confidence | as-written member | corrected member |
|---|---|---|---|---|---|---|
| lab07/transpose.c:28 | `if (i > n \|\| j > n) continue;` admits `i == n` and `j == n` | n = 3, blocksize = 2: tile x = 2 runs i up to 3, and (3, 0) stores to `dst[0 + 3*3]`, one past the 9-cell buffer; in general an overrun happens exactly when `n % blocksize != 0` | `if (i >= n \|\| j >= n) continue;` | high (not executed) | `Transpose.AsWrittenOverruns` | `Transpose.TransposeBlocking` |
