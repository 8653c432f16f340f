# Distributed tutorial kernels, modelled in Dafny

The tutorial programs of the parallel-profiling repository are small MPI,
CUDA and OpenMP benchmarks. This project models their index bookkeeping and
integer arithmetic and proves what each one computes. All ranks of a run
are simulated together, and floating-point values become integers. The
programs modelled are:

- the ring panel-rotation matrix multiply
  (`tutorial/languages/python/profiling/mpi/test.py`);
- the AXPY-and-dot benchmark, host and CuPy variants
  (`tutorial/python/mpi/test.py`,
  `tutorial/languages/python/profiling/mpi+cuda/test.py`);
- the MPI+CUDA vector addition with a `Gatherv` at the root
  (`tutorial/languages/fortran/code_samples/mpi+cuda/main.c`);
- the CUDA shared-memory tiled matrix multiply
  (`tutorial/languages/fortran/code_samples/cuda/main.c`);
- the MPI+OpenMP dot product's blocks
  (`tutorial/languages/c/profiling/mpi+openmp/main.c`).

All of them share one block distribution. With `base = n / p` and
`rem = n % p`, rank `i` holds `base + 1` items when `i < rem` and `base`
otherwise, and starts at `i*base + min(i, rem)`. The `Partition` module
defines that rule once. It proves three things about it:

- it agrees with the prefix-sum table of `split_sizes`;
- the ranges tile `[0, n)`;
- `RankOf` is its inverse.

Modules, one per file:

| file | module | what |
|---|---|---|
| common.dfy | `Common` | `Option`/`Result`, `Sum`, Euclidean division facts, `FlatIndex`, `CeilDiv`, `(int)` narrowing |
| numeric.dfy | `Numeric` | Python `int(text)`, C `strtol`/`atoll` as functions on strings |
| partition.dfy | `Partition` | the block distribution, `split_sizes`, gather layout |
| matrices.dfy | `Matrices` | integer matrices, `@`, column slices |
| ring_topology.dfy | `RingTopology` | ring neighbours, panel owners per round |
| ring_matmul.dfy | `RingMatMul` | the ring multiply and its verification harness |
| axpy_dot.dfy | `AxpyDot`, `AxpyDotDevice` | the AXPY/dot benchmark, host and device |
| vector_add.dfy | `VectorAdd` | the `vadd` kernel, per-rank blocks, `Gatherv`, the sample check |
| tiled_matmul.dfy | `TiledMatMul` | the tiled kernel, launch grid, host initialisation, argument narrowing |
| hybrid_dot.dfy | `HybridDot` | argument handling and per-rank index ranges |

Python's `//` and `%` with a positive divisor agree with Dafny's Euclidean
`/` and `%`, so `(rank - 1) % size` and `n // size` are written as in the
programs. The C `%` and `/` in the models only see non-negative operands.

## Model

Source paths are relative to the repository root. Definitions that only
name a quantity (count tables, chunks, matrix builders, the Fortran operands)
are cited in the row of the lemma that gives them their meaning.

| member | source | states |
|---|---|---|
| Common.FlatIndex | tutorial/languages/fortran/code_samples/cuda/main.c:74-76 | the row-major index `row*N + col` of an in-range cell lies below N*N, and dividing and reducing it by N gives back row and col |
| Common.SplitFlatIndex | tutorial/languages/fortran/code_samples/cuda/main.c:74-76 | every index below N*N is the row-major index of the cell (idx / N, idx % N): the inverse of FlatIndex |
| Common.CeilDiv | tutorial/languages/fortran/code_samples/mpi+cuda/main.c:92-93 | `(n + d - 1) / d` blocks of d cover n items, one block fewer would not, and 0 items give 0 blocks |
| Common.ModOneWrap | tutorial/languages/python/profiling/mpi/test.py:56-57 | Python's `%` of a value at most one period below zero wraps it into [0, p) by adding p once |
| Common.ToInt32 | tutorial/languages/fortran/code_samples/cuda/main.c:88 | `(int)v` lands in the 32-bit range, is congruent to v modulo 2^32, and is v itself when v already fits |
| Numeric.StrictParsesShown | tutorial/languages/python/profiling/mpi/test.py:33-35 | Python `int`, without the digit limit of CPython 3.11 and later, reads back the decimal numeral of every integer, negative ones included |
| Numeric.StrictParsesDigits | tutorial/languages/python/profiling/mpi/test.py:34 | a bare run of digits (of any length: the 4300-digit limit is not modelled) parses to its value |
| Numeric.StrictParsesSigned | tutorial/languages/python/profiling/mpi/test.py:34 | '-' followed by digits (of any length) parses to the negated value |
| Numeric.StrictRejectsNonNumerals | tutorial/languages/python/profiling/mpi/test.py:33-39 | one character that is not ASCII white space, an ASCII digit or a sign (underscores between digits are not modelled) anywhere in the text makes `int` fail (the ValueError path) |
| Numeric.LeadingParsesShown | tutorial/languages/fortran/code_samples/cuda/main.c:83 | `strtol` reads back the numeral of every integer when the text after it does not continue the digits |
| Numeric.LeadingWithoutDigitsIsZero | tutorial/languages/fortran/code_samples/cuda/main.c:83 | text whose first character after the blanks and the sign is not a digit reads as 0 |
| Numeric.StrToLong | tutorial/languages/c/profiling/mpi+openmp/main.c:23 | `atoll`/`strtol` yield a value inside the 64-bit long range |
| Partition.Count | tutorial/languages/python/profiling/mpi/test.py:14-17 | every rank holds base or base + 1 items, and base + 1 exactly when its rank is below n % p |
| Partition.EndIsNextStart | tutorial/languages/c/profiling/mpi+openmp/main.c:28-30 | the closed-form ranges abut: rank i ends where rank i + 1 starts |
| Partition.StartBounds | tutorial/languages/python/profiling/mpi/test.py:18-20 | rank 0 starts at 0 and one past the last rank starts at n |
| Partition.StartIsPrefixSum | tutorial/languages/python/profiling/mpi/test.py:18-20 | the closed-form start `i*base + min(i, rem)` equals the sum of the counts of ranks below i, i.e. the `offs` recurrence |
| Partition.CountsSumToN | tutorial/languages/python/profiling/mpi/test.py:13-17 | the counts of all ranks add up to exactly n; the count table `Counts` is the comprehension of `split_sizes` |
| Partition.StartMonotone | tutorial/languages/python/profiling/mpi/test.py:18-20 | starts never decrease with the rank |
| Partition.RangeInside | tutorial/languages/python/profiling/mpi/test.py:68-69 | every rank's range `[ks, ke)` lies inside `[0, n)` |
| Partition.LargerCountGoesToLowRanks | tutorial/languages/python/profiling/mpi/test.py:16-17 | among ranks below k exactly min(k, n % p) hold the larger count, and they are precisely the lowest ones |
| Partition.LargeRanksAreLow | tutorial/languages/python/profiling/mpi/test.py:16-17 | a rank below k holds the larger count if and only if it is below min(k, n % p) |
| Partition.RankOf | tutorial/languages/c/profiling/mpi+openmp/main.c:26-30 | the owner of item g is a rank whose range contains g: the inverse of the distribution |
| Partition.RankFrom | tutorial/languages/c/profiling/mpi+openmp/main.c:26-30 | searching upwards from a rank that starts at or before g finds a rank whose range contains g |
| Partition.RangesTile | tutorial/languages/c/profiling/mpi+openmp/main.c:26-30 | g lies in rank r's range if and only if r is RankOf(g): the ranges are disjoint and cover `[0, n)` |
| Partition.Flatten | tutorial/languages/fortran/code_samples/mpi+cuda/main.c:131-134 | rank chunks laid end to end have as many items as the chunks' lengths add up to |
| Partition.SumFlatten | tutorial/python/mpi/test.py:31-32 | the total of the concatenated chunks is the sum of the per-chunk totals |
| Partition.FlattenChunks | tutorial/languages/fortran/code_samples/mpi+cuda/main.c:131-134 | the chunks of the first m ranks, laid end to end, are f over the global indices `[0, Start(m))`: each index once, in order; `Chunk(r)` is rank r's block, f over its global indices |
| Partition.SplitSizes | tutorial/languages/python/profiling/mpi/test.py:13-21 | `split_sizes` returns p counts of base or base + 1 (the larger for ranks below rem) adding up to n, and offsets that follow the prefix recurrence, equal the closed-form starts and keep each range inside n; it is built from the count loop `CountTable` and the offset loop `PrefixOffsets` |
| Partition.PrefixOffsets | tutorial/languages/python/profiling/mpi/test.py:18-20 | the offset loop yields offs[0] = 0 and offs[i] = offs[i-1] + counts[i-1], which is the closed-form start |
| Matrices.MatMul | tutorial/languages/python/profiling/mpi/test.py:74 | `a @ b` of an m x K and a K x N matrix is m x N |
| Matrices.RowColSumSplit | tutorial/languages/python/profiling/mpi/test.py:68-74 | inner products over adjacent index ranges add up to the inner product over their union |
| Matrices.RowColSumShift | tutorial/languages/python/profiling/mpi/test.py:72-74 | the inner product of a column slice with a panel equals the inner product of the full operands over the slice's shifted range; `ColSlice` is `A[:, ks:ke]` |
| Matrices.RowColSumOfOnes | tutorial/languages/python/profiling/mpi/test.py:92 | with all-ones operands an inner product counts its range, so every entry of ones @ ones is N; `Constant` builds `np.ones` and `np.zeros` |
| RingTopology.Left | tutorial/languages/python/profiling/mpi/test.py:56 | the left neighbour `(rank - 1) % size` is a rank of the communicator |
| RingTopology.Right | tutorial/languages/python/profiling/mpi/test.py:57 | the right neighbour `(rank + 1) % size` is a rank of the communicator |
| RingTopology.NextOwner | tutorial/languages/python/profiling/mpi/test.py:78 | the owner of the next panel `(owner - 1) % size` is a rank of the communicator |
| RingTopology.OwnerAt | tutorial/languages/python/profiling/mpi/test.py:60-86 | the owner held by a rank at round t, `(rank - t) % size`, is a rank of the communicator |
| RingTopology.StepOf | tutorial/languages/python/profiling/mpi/test.py:66-86 | the round at which a rank holds a given owner's panel is one of the size rounds |
| RingTopology.NeighbourArithmetic | tutorial/languages/python/profiling/mpi/test.py:56-57 | `(rank - 1) % size` is rank - 1, or the last rank for rank 0, and `(rank + 1) % size` is rank + 1, or 0 for the last rank |
| RingTopology.NeighboursPair | tutorial/languages/python/profiling/mpi/test.py:56-57 | the right neighbour of the left neighbour is the rank itself, and the other way round, so every send has a matching receive |
| RingTopology.OwnerAtClosedForm | tutorial/languages/python/profiling/mpi/test.py:60-86 | within one cycle the owner held at round t counts down from the rank and wraps once |
| RingTopology.OwnerCycle | tutorial/languages/python/profiling/mpi/test.py:60 | each rank starts with its own panel and holds it again after size rounds |
| RingTopology.OwnerAdvance | tutorial/languages/python/profiling/mpi/test.py:78-86 | `next_owner` is the owner of the following round, and it is also the owner the left neighbour holds now, so the received panel is the one the rank needs next |
| RingTopology.VisitsEachOwnerOnce | tutorial/languages/python/profiling/mpi/test.py:66-86 | over the size rounds a rank holds each owner's panel at exactly one round |
| RingTopology.RotSumBeforeWrap | tutorial/languages/python/profiling/mpi/test.py:66-74 | before the owner wraps, the terms of the visited owners are a contiguous stretch of owners ending at the rank |
| RingTopology.RotSumAfterWrap | tutorial/languages/python/profiling/mpi/test.py:66-74 | after the wrap, they are the owners up to the rank plus a stretch at the top |
| RingTopology.RotationCoversAll | tutorial/languages/python/profiling/mpi/test.py:66-74 | summed over all size rounds, every owner's term is added exactly once, whichever rank starts |
| RingMatMul.Multiply | tutorial/languages/python/profiling/mpi/test.py:68-74 | the local GEMM keeps the block shapes, the A block, the panel and the owner, and does nothing when the rank or the panel has no rows |
| RingMatMul.FirstMisfit | tutorial/languages/python/profiling/mpi/test.py:79-84 | finds a rank whose receive buffer does not match the arriving panel, and finds none exactly when every buffer fits |
| RingMatMul.Exchange | tutorial/languages/python/profiling/mpi/test.py:76-86 | a successful exchange leaves a single rank alone and otherwise gives every rank its left neighbour's panel tagged with the next owner |
| RingMatMul.ExchangeFailsOnMisfit | tutorial/languages/python/profiling/mpi/test.py:79-84 | the `Sendrecv` round fails exactly when some receive buffer's size differs from the arriving panel's, and then names the round (the tag) and such a rank |
| RingMatMul.ExchangeKeepsShape | tutorial/languages/python/profiling/mpi/test.py:78-86 | after a successful exchange every panel is sized for its new owner |
| RingMatMul.Round | tutorial/languages/python/profiling/mpi/test.py:66-86 | one multiply-then-rotate round keeps every rank's block shapes |
| RingMatMul.RunRounds | tutorial/languages/python/profiling/mpi/test.py:66-86 | the loop over rounds stops at the first failure and otherwise keeps the shapes |
| RingMatMul.InitialState | tutorial/languages/python/profiling/mpi/test.py:47-60 | rank k starts with its own rows of A and of B, owner k and a zero C block, all shaped for k |
| RingMatMul.InitialStates | tutorial/languages/python/profiling/mpi/test.py:47-60 | the initial distribution is shaped for every rank |
| RingMatMul.RingMultiply | tutorial/languages/python/profiling/mpi/test.py:66-86 | a completed ring multiply leaves every rank's blocks shaped |
| RingMatMul.BlockTermsTelescope | tutorial/languages/python/profiling/mpi/test.py:68-74 | the per-owner terms of the first m owners add up to the inner product over `[0, Start(m))`, and over all owners to the entry of A*B; `BlockTerms` lists the terms by owner |
| RingMatMul.InitialInvariant | tutorial/languages/python/profiling/mpi/test.py:47-60 | before round 0 every rank holds its own panel and a C block that has summed nothing |
| RingMatMul.MultiplyEntry | tutorial/languages/python/profiling/mpi/test.py:70-74 | an entry of the local GEMM adds the partial inner product of the global row over the held panel's range; `MatAdd` is the in-place `C_local +=` |
| RingMatMul.MultiplyAddsOwnerTerm | tutorial/languages/python/profiling/mpi/test.py:68-74 | the GEMM of round s adds exactly the term of the owner held at round s |
| RingMatMul.MultiplyAdvancesSum | tutorial/languages/python/profiling/mpi/test.py:68-74 | after the GEMM of round s a rank's C block has summed the terms of rounds 0 .. s |
| RingMatMul.ReceiveAdvancesOwner | tutorial/languages/python/profiling/mpi/test.py:78-86 | when every rank holds the panel of round s, each receive buffer fits and the received panel is the one of round s + 1 |
| RingMatMul.RoundStep | tutorial/languages/python/profiling/mpi/test.py:66-86 | a round started in the round-s state succeeds and ends in the round-(s+1) state |
| RingMatMul.RunKeeps | tutorial/languages/python/profiling/mpi/test.py:66 | a property every round keeps, and that no round breaks by failing, holds after the remaining rounds |
| RingMatMul.RoundsKeepInvariant | tutorial/languages/python/profiling/mpi/test.py:66-86 | every round maps the invariant of round t to that of round t + 1 without failing; `RoundFn` is Round as a function value and `Stage` the invariant indexed by round |
| RingMatMul.FinalEntry | tutorial/languages/python/profiling/mpi/test.py:66-74 | after size rounds each C entry has summed every owner's term once, which is the entry of A*B |
| RingMatMul.FinalBlockIsProduct | tutorial/languages/python/profiling/mpi/test.py:66-86 | after size rounds rank k holds its own panel again and its C block is its row block of A*B |
| RingMatMul.RingMultiplyComputesProduct | tutorial/languages/python/profiling/mpi/test.py:43-86 | for any square A, B and any number of ranks no exchange fails and every rank's C block is its row block of A*B |
| RingMatMul.SingleRankIsPlainProduct | tutorial/languages/python/profiling/mpi/test.py:76-77 | on one rank, with no communication, C is A*B |
| RingMatMul.ParseSize | tutorial/languages/python/profiling/mpi/test.py:28-39 | a bad command line exits with status 1, and an accepted N is at least 1 |
| RingMatMul.ParseSizeAcceptsExactlyPositive | tutorial/languages/python/profiling/mpi/test.py:28-39 | a numeral of any length is accepted exactly when it is at least 1, and then as its value; a missing or extra argument is rejected |
| RingMatMul.RowError | tutorial/languages/python/profiling/mpi/test.py:94 | the row error bounds every deviation in the row and is one of them (or 0) |
| RingMatMul.BlockError | tutorial/languages/python/profiling/mpi/test.py:94 | the block error bounds every deviation in the block and is one of them (or 0) |
| RingMatMul.LocalError | tutorial/languages/python/profiling/mpi/test.py:93-96 | the local error bounds every deviation from N and is 0 exactly when every entry is N, an empty block giving 0 |
| RingMatMul.AllreduceMax | tutorial/languages/python/profiling/mpi/test.py:97 | the MAX reduction bounds every rank's value and is one of them (or 0) |
| RingMatMul.OnesBlockHasNoError | tutorial/languages/python/profiling/mpi/test.py:92-96 | a C block that is a row block of ones @ ones has local error 0 |
| RingMatMul.AllOnesHasNoError | tutorial/languages/python/profiling/mpi/test.py:92-97 | for every accepted N and number of ranks the reported maximum error is 0 |
| TiledMatMul.PaddedDotInRange | tutorial/languages/fortran/code_samples/cuda/main.c:46-69 | inside the matrix the sum of the guarded tile products is the plain inner product |
| TiledMatMul.PaddingAddsNothing | tutorial/languages/fortran/code_samples/cuda/main.c:50-61 | the zero-padded K indices past N add nothing |
| TiledMatMul.OutsideSumsToZero | tutorial/languages/fortran/code_samples/cuda/main.c:50-61 | a thread outside the matrix loads only zeros on its own side, so its sum is 0 |
| TiledMatMul.ThreadValue | tutorial/languages/fortran/code_samples/cuda/main.c:38-76 | a thread's sum is entry (row, col) of A*B when the cell exists, and 0 otherwise |
| TiledMatMul.ThreadValueFacts | tutorial/languages/fortran/code_samples/cuda/main.c:44-69 | the sum over all tiles is the entry of A*B in range and 0 out of range |
| TiledMatMul.ThreadResult | tutorial/languages/fortran/code_samples/cuda/main.c:33-72 | the tile loop and the TILE-step inner loop compute entry (row, col) of A*B for an in-range thread, and 0 for an out-of-range one |
| TiledMatMul.ThreadFor | tutorial/languages/fortran/code_samples/cuda/main.c:38-39 | the thread whose `by*TILE + ty` and `bx*TILE + tx` are the given row and column |
| TiledMatMul.WriteTarget | tutorial/languages/fortran/code_samples/cuda/main.c:74-76 | a thread stores exactly when its cell is in range, and then to the row-major index of that cell |
| TiledMatMul.LaunchWritesEachCellOnce | tutorial/languages/fortran/code_samples/cuda/main.c:124-128 | the grid of `(N + TILE - 1)/TILE` blocks per axis contains the thread of every cell, and a thread of the grid stores to a cell if and only if it is that thread |
| TiledMatMul.GridCovers | tutorial/languages/fortran/code_samples/cuda/main.c:126 | every index below N falls in a block of the grid |
| TiledMatMul.Launch | tutorial/languages/fortran/code_samples/cuda/main.c:125-130 | after the launch every cell of C holds entry (row, col) of the product of the buffers read row-major |
| TiledMatMul.ParseSizeAsWritten | tutorial/languages/fortran/code_samples/cuda/main.c:81-89 | as written, no argument means N = 512, and a rejection has status 3 and needs an argument |
| TiledMatMul.ParseSizeAsWrittenOnNumeral | tutorial/languages/fortran/code_samples/cuda/main.c:81-89 | as written, a numeral x <= 0 is rejected with status 3 and every positive x runs with its long value narrowed by `(int)`, which is x itself for 1 .. INT_MAX |
| TiledMatMul.ParseSizeWraps | tutorial/languages/fortran/code_samples/cuda/main.c:83-88 | a positive argument above INT_MAX is accepted and runs with a narrowed N different from it |
| TiledMatMul.WrapExamples | tutorial/languages/fortran/code_samples/cuda/main.c:88 | 2^32 + 1 narrows to 1 and 2^31 to a negative N |
| TiledMatMul.ParseSize | tutorial/languages/fortran/code_samples/cuda/main.c:81-89 | with the range guarded, an accepted N lies in 1 .. INT_MAX, a rejection is status 3, and no argument means 512 |
| TiledMatMul.ParseSizeAcceptsExactlyIntRange | tutorial/languages/fortran/code_samples/cuda/main.c:81-89 | with the range guarded, a numeral is accepted exactly when it lies in 1 .. INT_MAX, and then as its value |
| TiledMatMul.ColumnMajor | tutorial/languages/fortran/code_samples/cuda/main.c:107-111 | the host loops store entry (i, j) at `i + j*N` |
| TiledMatMul.RowMajor | tutorial/languages/fortran/code_samples/cuda/main.c:52-58 | a row-major buffer, read back by the kernel, is the matrix itself |
| TiledMatMul.ColumnMajorReadsTranspose | tutorial/languages/fortran/code_samples/cuda/main.c:107-111 | the kernel reads a column-major buffer as the transpose |
| TiledMatMul.TransposedRowColSum | tutorial/languages/fortran/code_samples/cuda/main.c:65-69 | an inner product of transposed operands is the inner product of the originals in the other order |
| TiledMatMul.ColumnMajorInitSwapsProduct | tutorial/languages/fortran/code_samples/cuda/main.c:107-128 | as written, cell (r, c) of the result is entry (c, r) of B*A instead of entry (r, c) of A*B |
| TiledMatMul.PrintedCornerAsWritten | tutorial/languages/fortran/code_samples/cuda/main.c:135-139 | for N = 2 the value printed as C(1,1) is -3 while the Fortran product has C(1,1) = 3 |
| TiledMatMul.CornerEntries | tutorial/languages/fortran/code_samples/cuda/main.c:104-110 | for N = 2, entry (1,1) of B*A is -3 and of A*B is 3 |
| TiledMatMul.RowMajorInitComputesProduct | tutorial/languages/fortran/code_samples/cuda/main.c:104-128 | with the operands stored row-major every cell of the result is the entry of the Fortran A*B; `FortranA` and `FortranB` are the operands A(i,j) = i + j and B(i,j) = i - j, and `Unflatten` is the kernel's row-major reading |
| VectorAdd.StrToULong | tutorial/languages/fortran/code_samples/mpi+cuda/main.c:55 | `strtoull` yields a value below 2^64 |
| VectorAdd.TotalSize | tutorial/languages/fortran/code_samples/mpi+cuda/main.c:55 | N_total fits a size_t and is `1 << 22` without an argument |
| VectorAdd.TotalSizeOfNumeral | tutorial/languages/fortran/code_samples/mpi+cuda/main.c:55 | a numeral in size_t range is read as itself, a negative one above -2^64 wraps modulo 2^64, and anything else clamps to ULLONG_MAX |
| VectorAdd.Vadd | tutorial/languages/fortran/code_samples/mpi+cuda/main.c:26-29 | the launch writes a[i] + b[i] at every index a thread reaches and leaves the rest untouched, and a grid covering n computes the whole sum, with the thread index computed exactly; `AddVectors` is the element-wise sum |
| VectorAdd.RankStepAsWritten | tutorial/languages/fortran/code_samples/mpi+cuda/main.c:92-94 | the only failure of a rank as written is its launch |
| VectorAdd.RankStepAsWrittenFailsOnEmptyRanks | tutorial/languages/fortran/code_samples/mpi+cuda/main.c:58-60 | a rank's launch fails exactly when the rank holds no elements, which happens exactly for ranks at or past N_total when N_total < ranks; otherwise its block is 3*gi |
| VectorAdd.RankStep | tutorial/languages/fortran/code_samples/mpi+cuda/main.c:74-99 | with the empty launch skipped, every rank's `h_c` is 3 times its global indices |
| VectorAdd.LaunchCoversLocalElements | tutorial/languages/fortran/code_samples/mpi+cuda/main.c:92-93 | the block count covers the local elements and is 0 exactly for an empty rank |
| VectorAdd.Displacements | tutorial/languages/fortran/code_samples/mpi+cuda/main.c:115-121 | `displs[r]` is the running total of the counts below r |
| VectorAdd.DisplacementsAreOffsets | tutorial/languages/fortran/code_samples/mpi+cuda/main.c:63 | the displacements of the partition's counts are the ranks' closed-form offsets |
| VectorAdd.SlotOf | tutorial/languages/fortran/code_samples/mpi+cuda/main.c:131-134 | finds the first receive slot holding a position and its offset there, and finds none exactly when no slot holds it |
| VectorAdd.FirstMismatch | tutorial/languages/fortran/code_samples/mpi+cuda/main.c:131-134 | finds a rank whose block length differs from its count, and none exactly when all agree |
| VectorAdd.Gatherv | tutorial/languages/fortran/code_samples/mpi+cuda/main.c:131-134 | the gather fails exactly when some rank sends a block whose length is not its count, names such a rank, and otherwise fills the root buffer |
| VectorAdd.GathervOfPartition | tutorial/languages/fortran/code_samples/mpi+cuda/main.c:131-134 | gathering the partition's blocks with its counts and offsets yields f at every global index, whatever the buffer held; `GatheredCounts` and `OffsetTable` are the root's count and displacement tables |
| VectorAdd.Int32View | tutorial/languages/fortran/code_samples/mpi+cuda/main.c:133 | a size_t array read through `int*` is its low and high 32-bit words in turn |
| VectorAdd.GatherAsWrittenMisreadsCounts | tutorial/languages/fortran/code_samples/mpi+cuda/main.c:131-134 | as written, with two or more ranks and 2 <= N_total <= INT_MAX, the count read for rank 1 is 0 while rank 1 sends at least one element, so the gather fails |
| VectorAdd.Stride | tutorial/languages/fortran/code_samples/mpi+cuda/main.c:139 | the sample stride `N_total / 7 + 1` is at least 1 |
| VectorAdd.CheckSamples | tutorial/languages/fortran/code_samples/mpi+cuda/main.c:137-143 | the sampling loop reports OK exactly when every multiple of the stride below N_total holds 3*i |
| VectorAdd.FirstFailedRank | tutorial/languages/fortran/code_samples/mpi+cuda/main.c:92-96 | finds a rank whose launch fails, and none exactly when every launch succeeds |
| VectorAdd.ProgramAsWrittenFails | tutorial/languages/fortran/code_samples/mpi+cuda/main.c:55-143 | as written, a run on two or more ranks with 2 <= N_total <= INT_MAX never reports OK |
| VectorAdd.ProgramReportsOK | tutorial/languages/fortran/code_samples/mpi+cuda/main.c:55-143 | with the launch skipped on empty ranks and int count tables, the run reports OK for every N_total and number of ranks |
| HybridDot.ParseSize | tutorial/languages/c/profiling/mpi+openmp/main.c:19-24 | a missing argument or an `atoll` value that is not positive exits with status 1; an accepted n lies in 1 .. LLONG_MAX |
| HybridDot.ParseSizeAcceptsExactlyPositive | tutorial/languages/c/profiling/mpi+openmp/main.c:19-24 | a numeral in long long range is accepted exactly when it is positive, and then as its value |
| HybridDot.TouchedIndices | tutorial/languages/c/profiling/mpi+openmp/main.c:26-43 | the rank's loop visits local_n indices, start + i in order, all inside `[start, end)` within n |
| HybridDot.EachIndexTouchedOnce | tutorial/languages/c/profiling/mpi+openmp/main.c:38-49 | over all ranks the visited indices are 0, 1, ..., n-1, each once, and g is visited by rank r exactly when r is RankOf(g) |
| HybridDot.BlocksAbut | tutorial/languages/c/profiling/mpi+openmp/main.c:26-30 | rank 0 starts at 0, each block ends where the next begins, the last ends at n, and the sizes add up to n |
| AxpyDot.BlocksTile | tutorial/python/mpi/test.py:17-21 | for n >= 0, local_n and start are the partition's count and start, blocks abut, and g lies in rank r's block exactly when r is RankOf(g) |
| AxpyDot.NegativeSizeReachesLastRank | tutorial/python/mpi/test.py:17-19 | every local_n is non-negative when n is, and the last rank's local_n is negative exactly when n is |
| AxpyDot.Axpy | tutorial/python/mpi/test.py:28 | `2.0 * x + y` has the length of x |
| AxpyDot.DotWithOnes | tutorial/python/mpi/test.py:31 | dotting with ones adds the entries up |
| AxpyDot.SumOfFill | tutorial/python/mpi/test.py:31 | m entries of v add up to m*v; `Fill` is `np.full(m, v)` |
| AxpyDot.RankStep | tutorial/python/mpi/test.py:17-31 | a rank fails exactly when its local_n is negative (numpy's negative-dimension error) |
| AxpyDot.RankStepResult | tutorial/python/mpi/test.py:24-31 | otherwise y is rank + 3 everywhere and the local dot is local_n * (rank + 3), 0 for an empty rank |
| AxpyDot.FirstFailure | tutorial/python/mpi/test.py:17-25 | finds a failing rank, and none exactly when every rank succeeds |
| AxpyDot.LocalDots | tutorial/python/mpi/test.py:31-32 | one local dot per rank |
| AxpyDot.GlobalDot | tutorial/python/mpi/test.py:31-32 | the global reduction fails exactly when n is negative |
| AxpyDot.NoFailureIffNonNegative | tutorial/python/mpi/test.py:17-25 | no rank fails exactly when n >= 0 |
| AxpyDot.BlockOfGlobalY | tutorial/python/mpi/test.py:24-28 | rank r's block of the global y is rank + 3 throughout |
| AxpyDot.BlocksFormGlobalY | tutorial/python/mpi/test.py:17-28 | the ranks' y blocks laid end to end are the global y, which holds RankOf(g) + 3 at index g |
| AxpyDot.LocalDotIsBlockSum | tutorial/python/mpi/test.py:31 | a rank's local dot is the sum of its block of the global y |
| AxpyDot.GlobalDotIsDotOfGlobalVectors | tutorial/python/mpi/test.py:28-32 | the reduced dot is ones(n) dotted with the global y, the sum of RankOf(g) + 3 over all g |
| AxpyDot.Program | tutorial/python/mpi/test.py:37-43 | a missing argument, a non-numeral or a failing rank exits with status 1 |
| AxpyDot.ProgramOnNumeral | tutorial/python/mpi/test.py:37-43 | a numeral x of any length runs to the global dot exactly when x >= 0, and without an argument the program exits with 1 |
| AxpyDotDevice.DeviceRankStep | tutorial/languages/python/profiling/mpi+cuda/test.py:17-35 | the device rank fails exactly when its local_n is negative |
| AxpyDotDevice.GuardedDotAgrees | tutorial/languages/python/profiling/mpi+cuda/test.py:32-35 | the guarded device dot computes exactly what the host rank does, local_n * (rank + 3) |
| AxpyDotDevice.DeviceGlobalDotAgrees | tutorial/languages/python/profiling/mpi+cuda/test.py:40-44 | the CUDA-aware Allreduce reports the host program's global dot, and for n >= 0 the dot of the global vectors |

## Left out

- Floating point: every float64/float value is an integer. So are the `1e-3` tolerance of the `vadd` check and the `%.6e` printing. The error values of the ring harness are exact.
- Timing: `MPI.Wtime`, `clock_gettime`, the gflops figure and the printed result lines are not modelled.
- MPI semantics: `Barrier`, `Comm_split_type`, tags other than as the round number, and deadlock freedom of `Sendrecv` are not modelled. The collectives are functions of all ranks' contributions.
- CUDA runtime: device selection, `cudaMalloc`/`cudaMemcpy`, streams and synchronisation are not modelled. Shared memory and `__syncthreads` appear only through the guarded loads each tile cell holds.
- OpenMP: the `parallel for` loops and their reduction are not modelled. Only the indices each rank's loops touch are.
- The MPI+OpenMP dot's values `A[i] = g` and `B[i] = 1/(g+1)`, and their floating-point sum, are not modelled.
- Allocation failures (`malloc` returning NULL, exit statuses 2 and 4) are not modelled.
- Numeric.ParseStrictInt: Python `int` also accepts underscores between digits and Unicode white space and digits, and CPython 3.11 and later reject numerals of more than 4300 digits. Only ASCII digits and the six C white-space characters are modelled, with no length limit.
- Numeric.StrictParsesShown: CPython 3.11 and later (and the security releases of 3.7 to 3.10) raise ValueError for a numeral of more than 4300 digits, the default `sys.int_max_str_digits`. The model has no digit limit, so it reads such numerals back. The limit depends on the interpreter and its configuration.
- Numeric.StrictParsesDigits: a run of more than 4300 digits is a ValueError in CPython 3.11 and later. The model parses it.
- Numeric.StrictParsesSigned: a signed numeral of more than 4300 digits is a ValueError in CPython 3.11 and later. The model parses it.
- Numeric.StrictRejectsNonNumerals: Python `int` accepts single underscores between digits (`int("1_000") == 1000`) and non-ASCII digits and white space. The model rejects them, so the lemma covers ASCII text without underscores.
- RingMatMul.ParseSizeAcceptsExactlyPositive: a numeral of more than 4300 digits makes `int` raise under CPython 3.11 and later, and the program exits 1. The model accepts it.
- AxpyDot.ProgramOnNumeral: a numeral of more than 4300 digits makes `int` raise under CPython 3.11 and later, and the program exits 1. The model runs it to the global dot.
- VectorAdd.Vadd: `blockIdx.x * blockDim.x` is an unsigned 32-bit product that wraps before the index widens to size_t. The model computes the index exactly, so its contract describes launches where blocks * 256 is at most 2^32 (n_local up to 2^32). Past that, the wrapped block rewrites low cells and the top cells stay unwritten.
- Numeric.StrToLong: C `atoll` overflow is undefined behaviour. It is modelled as `strtol`'s clamping.
- TiledMatMul.Launch: the kernel's `int` index `row * N + col` overflows for N > 46340. The model uses unbounded indices.
- VectorAdd.Gatherv: the `(int)n_local` send count narrows a size_t. The model uses the exact count, so it applies to N_total per rank below 2^31. The finding about the count tables is stated for N_total up to INT_MAX.
- VectorAdd.TotalSize: a huge N_total is read exactly. The `n_local * sizeof(float)` byte counts that would overflow are not modelled.
- RingTopology.Left: states only that the neighbour is a rank. Its closed form is in NeighbourArithmetic and its pairing with Right in NeighboursPair.
- RingTopology.Right: states only that the neighbour is a rank. Its closed form is in NeighbourArithmetic and its pairing with Left in NeighboursPair.
- RingTopology.NextOwner: states only that the result is a rank. OwnerAdvance proves that it is the owner of the following round.
- RingTopology.OwnerAt: states only that the result is a rank. Its closed form is in OwnerAtClosedForm.
- RingTopology.StepOf: states only that the result is a round. VisitsEachOwnerOnce proves that it is the one round at which the owner is held.
- Partition.RankOf: the programs never compute a rank from an index. RankOf is a reference definition, a linear search, used to state that the ranges tile `[0, n)`.
- RingMatMul.Exchange: a panel shorter than its receive buffer is modelled as a failure. `Sendrecv` would accept it and leave the tail of `np.empty` uninitialised; only a longer panel is an error there. ReceiveAdvancesOwner proves that every buffer matches its panel exactly, so the difference never arises in a run.
- RingMatMul.RunRounds takes the round as a function value. RingMultiply passes Round itself, so the loop is the program's `for step in range(size)`.
- The profiling tooling under `src/python/paraprof` and the other context programs are not part of this model.

In the ring multiply `split_sizes` performs no check of its own, and N >= 1 is enforced by the argument check in `main` (RingMatMul.ParseSize). Partition accepts any n >= 0, and an empty range is a valid block.

The AXPY benchmark's `int(sys.argv[1])` accepts a negative n. Python's `//` then gives a negative local_n to the last rank (and possibly others), and numpy rejects that array. AxpyDot models this as a failing rank that ends the run (NegativeSizeReachesLastRank, GlobalDot).

## Findings

| source | as written | input that shows it | evidently intended | confidence | as-written member | corrected member |
|---|---|---|---|---|---|---|
| tutorial/languages/fortran/code_samples/mpi+cuda/main.c:131-134 | the size_t `recv_counts` and `displs` arrays are cast to `int*` for `MPI_Gatherv`, which then reads the low and high 32-bit words of the first entries as p counts | N_total = 4 on 2 ranks: the root reads counts [2, 0], but rank 1 sends 2 elements | int count and displacement tables filled from the gathered sizes | not executed | VectorAdd.GatherAsWrittenMisreadsCounts | VectorAdd.ProgramReportsOK |
| tutorial/languages/fortran/code_samples/mpi+cuda/main.c:92-94 | a rank with no elements launches `vadd` with `(0 + 255)/256 = 0` blocks, an invalid launch configuration that the error check turns into an abort | N_total = 1 on 2 ranks: rank 1 has n_local = 0 | skip the launch (or launch one block) when n_local is 0 | not executed | VectorAdd.RankStepAsWrittenFailsOnEmptyRanks | VectorAdd.RankStep |
| tutorial/languages/fortran/code_samples/cuda/main.c:107-112 | the host stores A and B column-major (`i + j*N`) while the kernel reads them row-major (`row*N + col`), so the result buffer holds (B*A) transposed rather than A*B | N = 2: the value printed as C(1,1) is -3, while the Fortran A*B has C(1,1) = 3 | operands stored row-major, or the kernel indexing column-major | not executed | TiledMatMul.PrintedCornerAsWritten | TiledMatMul.RowMajorInitComputesProduct |
| tutorial/languages/fortran/code_samples/cuda/main.c:83-88 | `strtol` yields a long that is range-checked only against 0 and then narrowed with `(int)v` | argument 4294967297 runs with N = 1; 2147483648 gives a negative N | reject values above INT_MAX | not executed | TiledMatMul.ParseSizeWraps | TiledMatMul.ParseSizeAcceptsExactlyIntRange |
