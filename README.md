# Row-parallel matrix multiplication, modelled in Dafny

The program multiplies two square D×D matrices of `size_t` words. The matrices
are stored as flat row-major buffers. The kernel `multiMatrix` is the classic
triple loop, and an OpenMP `omp for schedule(static)` hands its outer loop over
rows to TH threads. For each cell (i, j), the kernel walks a pointer `pA` along
row i of A and a pointer `pB` down column j of B. It adds the products into an
unsigned accumulator `Suma`, which wraps modulo 2^64, and stores the sum at
`mC[i*D+j]`. `iniMatrix` fills A with `2*x` and B with `x+2` at every position
x < D*D. `main` validates its arguments, allocates the three buffers, fills
them, multiplies and exits with status 0, 1 or 2.

The model has five modules:

- `Words` covers the C integer types. `int` is the newtype `Int32`, so every
  arithmetic step on an `int` must be proved free of signed overflow, which C
  leaves undefined. `size_t` is `Word64`, a 64-bit unsigned word with explicit
  wrap-around (`WrapAdd`, `WrapMul`).
- `Matrix` holds the meaning of the kernel: row-major positions (`RowMajor`),
  the exact dot product (`Dot`), and the product reduced modulo 2^64
  (`Product`). It also defines the two matrices the initializer produces.
- `Schedule` describes how rows are shared out among threads. `RowBlock` is one
  thread's range of rows. `IsRowPartition` says a list of blocks covers every
  row exactly once. `StaticSchedule` is one near-equal split of the kind
  `schedule(static)` makes:
  ⌊D/TH⌋ rows per thread, plus one row for each of the first D mod TH threads.
- `Kernel` holds `iniMatrix` and `multiMatrix` as methods over arrays. The C
  pointers are integer offsets into those arrays.
  - `DotProduct` is the innermost loop.
  - `RowIteration` is one iteration of the outer loop: the loop over columns.
  - `MultiRows` is one thread's share of the rows.
  - `MultiMatrix` is the loop over all rows.
  - `MultiMatrixBlocks` runs the rows as any partition into blocks, taken in
    any order.
  - `MultiMatrixThreads` runs the rows as the static schedule for TH threads.
  - `Run` is the part of `main` that allocates, fills and multiplies.
- `Driver` holds the argument and allocation checks of `main` and the exit
  status each outcome leads to.

Threads are not modelled. The parallel loop is correct for three reasons:

- The dot product takes only A and B (`DotProduct` has no C parameter), and C
  is a buffer distinct from A and B. So the rows a block writes equal the
  product of A and B whatever C held before (`MultiRows`).
- A block writes only the cells of its own rows (`MultiRows`).
- The cells of distinct blocks are disjoint (`BlockCellsDisjoint`).

`MultiMatrixBlocks` proves the consequence: every partition of the rows, taken
in any order, leaves the same C as the plain loop over rows 0 .. D-1.

The inner loop keeps `pA == i*D + k` and `pB == k*D + j`, so every dereference
lies below D*D. After the last step `pB` holds `mB + D*D + j`. For j > 0 that
is more than one past the end of the buffer. It is never dereferenced, but
forming it is undefined behaviour in ISO C (see "## Left out").

## Model

| member | source | states |
|---|---|---|
| `Words.WrapAdd` | multiMatrizOpenMP.c:92 | adding to the size_t accumulator gives the exact sum when it is below 2^64 and the sum minus 2^64 otherwise |
| `Words.WrapMul` | multiMatrizOpenMP.c:92 | the size_t product of two elements is the word congruent to their exact product modulo 2^64 |
| `Words.AccumulateStep` | multiMatrizOpenMP.c:88-93 | if `Suma` holds the running total modulo 2^64, then after `Suma += *pA * *pB` it holds the new total modulo 2^64 |
| `Matrix.RowMajor` | multiMatrizOpenMP.c:94 | the position `i*D+j` of a cell lies inside the D*D buffer |
| `Matrix.RowMajorSplit` | multiMatrizOpenMP.c:94 | dividing the position `i*D+j` by D gives back row i, and the remainder is column j, so distinct cells have distinct positions |
| `Matrix.ProductCell` | multiMatrizOpenMP.c:84-94 | cell (i, j) of the product is Σ_{k<D} A[i*D+k]·B[k*D+j] reduced modulo 2^64 |
| `Matrix.DotReadsRowAndColumn` | multiMatrizOpenMP.c:86-92 | the dot product for cell (i, j) depends only on row i of A and column j of B |
| `Matrix.ProductRowReadsOnlyRowOfA` | multiMatrizOpenMP.c:84-95 | row i of C is the same for any two left operands that agree on row i: an outer-loop iteration needs only its own row of A |
| `Matrix.SingleCell` | multiMatrizOpenMP.c:84-94 | for D = 1 the result is the single cell A[0]·B[0], wrapped |
| `Matrix.InitialTwo` | multiMatrizOpenMP.c:63-67 | for D = 2 the initializer gives A = [0,2,4,6] and B = [2,3,4,5] |
| `Matrix.ProductOfInitialTwo` | multiMatrizOpenMP.c:84-94 | for D = 2 the product of the initial matrices is [8,10,32,42] |
| `Schedule.StaticScheduleIsPartition` | multiMatrizOpenMP.c:83 | for every D and every TH ≥ 1, including TH > D, the static split is a partition of rows [0, D) into contiguous blocks of ⌊D/TH⌋ or ⌈D/TH⌉ rows |
| `Kernel.IniMatrix` | multiMatrizOpenMP.c:63-67 | every slot x < D*D of the first buffer holds 2x and of the second holds x+2; slots from D*D on are untouched; `int` arithmetic never overflows under the size bound |
| `Kernel.DotProduct` | multiMatrizOpenMP.c:86-93 | with `pA == i*D+k` and `pB == k*D+j` at step k, all reads stay in the buffers and the returned `Suma` is the dot product of row i and column j modulo 2^64 |
| `Kernel.RowIteration` | multiMatrizOpenMP.c:85-95 | one iteration i of the outer loop stores row i of the product in C and changes no cell outside row i |
| `Kernel.MultiRows` | multiMatrizOpenMP.c:84-95 | rows lo .. hi-1 of C receive the product of A and B, and every other cell of C keeps its value |
| `Kernel.MultiMatrix` | multiMatrizOpenMP.c:80-98 | the first D*D cells of C hold A·B (modulo 2^64) whatever C held before; cells beyond D*D, A and B are unchanged |
| `Kernel.BlockCellsDisjoint` | multiMatrizOpenMP.c:83-94 | two distinct blocks of a row partition write no common cell of C |
| `Kernel.MultiMatrixBlocks` | multiMatrizOpenMP.c:81-97 | running the rows as any partition into blocks, in any order, leaves A·B in C, the same result as the sequential loop over rows |
| `Kernel.MultiMatrixThreads` | multiMatrizOpenMP.c:81-97 | under the static schedule the result is A·B for every thread count TH ≥ 1 |
| `Kernel.Run` | multiMatrizOpenMP.c:128-151 | allocating zeroed N×N buffers, initializing and multiplying with TH threads yields the product of the two initial matrices |
| `Driver.MainOutcome` | multiMatrizOpenMP.c:109-162 | fewer than 3 arguments or a non-positive size or thread count gives status 1 with nothing allocated; a failed allocation gives status 2 with nothing multiplied; otherwise status 0 after the multiplication |

## Left out

- OpenMP threads (`#pragma omp parallel`, `omp_set_num_threads`) are not modelled as concurrency. The parallel loop is captured by running row blocks one after another. The model proves that the blocks' write sets are disjoint and that the rows a block writes equal the product whatever C held before. No contract states a read set. That C is never read rests on `DotProduct` taking no C and on C being distinct from A and B.
- Schedule.StaticScheduleIsPartition: OpenMP leaves the exact chunk boundaries of `schedule(static)` to the implementation. The model fixes one near-equal split, and `MultiMatrixBlocks` covers every other partition.
- The timer (`InicioMuestra`, `FinMuestra`), `impMatrix` and every `printf` are console and clock I/O, so they are left out.
- `atoi`, `calloc`, `free` and `srand(time(NULL))` are library calls. The parsed integers and whether each allocation succeeded are inputs to `Driver.MainOutcome`. The seed is never used by the fill.
- Signed `int` overflow in `i*D`, `D*D`, `i*2` and `N*N` is undefined behaviour. The model excludes it by preconditions: `SquareFits` (D*D ≤ 2^31−1) for the kernel and `FillFits` (2·(D*D−1) ≤ 2^31−1) for the initializer.
- Kernel.Run: requires `FillFits(N)`, which `main` itself never checks before computing `N*N`. For larger N the behaviour is undefined once the three allocations succeed, through `i*2` in the fill. For N ≥ 46341 it is undefined already at `N*N` (multiMatrizOpenMP.c:128). For 32769 ≤ N ≤ 46340, `N*N` fits in `int`, and a failed `calloc` ends with status 2, as `Driver.MainOutcome` states.
- Negative dimensions are not modelled (D is non-negative), because `main` rejects N ≤ 0 before calling either routine.
- The kernel requires C to be a different buffer from A and from B, and `Kernel.IniMatrix` requires its two buffers to be different. The program always passes separate allocations, so overlapping buffers are not modelled.
- Kernel.DotProduct: the C code keeps the dot-product loop inline in `multiMatrix`. Here it is a method of its own that returns `Suma`, with the same loop and pointer steps.
- Kernel.DotProduct: pointers are unbounded integer offsets, so pointer-arithmetic undefined behaviour is not modelled. After the last `pB += D` (multiMatrizOpenMP.c:91), `pB` is `mB + D*D + j`. The loop invariant `pB == k*D + j` at k = D shows this. For every D ≥ 2 and every column j ≥ 1 that pointer lies more than one past the end of the `calloc` block, and ISO C (C11 section 6.5.6, paragraph 8) leaves forming it undefined even though it is never dereferenced.
- Kernel.RowIteration: the C code keeps the loop over columns inline in `multiMatrix`. Here it is a method of its own for one row i, with the same loop and store.
