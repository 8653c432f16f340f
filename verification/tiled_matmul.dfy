/** The shared-memory tiled matrix multiply of
    tutorial/languages/fortran/code_samples/cuda/main.c.  One thread of the
    launch computes one cell (row, col) of C = A*B: it walks the K dimension
    tile by tile, and within a tile adds the products of the guarded
    (zero-padded) loads of A and B.  The tile cells a thread reads from
    shared memory are the ones its neighbours in the block loaded, so the
    model writes each of them as the guarded load that neighbour performs;
    the barriers only order those loads and are not modelled.  The flat
    device buffers are row-major: entry (r, c) sits at r*N + c. */
module TiledMatMul {
  import opened Common
  import opened Matrices
  import Numeric

  /** Tile edge and thread-block edge (`TILE`). */
  const Tile: nat := 32

  /** The row-major reading of a flat N*N buffer. */
  function Unflatten(m: seq<int>, n: nat): (g: Matrix)
    requires |m| == n * n
    ensures IsMatrix(g, n, n)
    ensures forall r, c :: 0 <= r < n && 0 <= c < n ==> g[r][c] == m[FlatIndex(r, c, n)]
  {
    seq(n, r requires 0 <= r < n => seq(n, c requires 0 <= c < n => m[FlatIndex(r, c, n)]))
  }

  /** Guarded load of A into the tile: the entry when it exists, else 0. */
  function LoadA(a: Matrix, n: nat, row: nat, aCol: nat): int
    requires IsMatrix(a, n, n)
  {
    if row < n && aCol < n then a[row][aCol] else 0
  }

  /** Guarded load of B into the tile: the entry when it exists, else 0. */
  function LoadB(b: Matrix, n: nat, bRow: nat, col: nat): int
    requires IsMatrix(b, n, n)
  {
    if bRow < n && col < n then b[bRow][col] else 0
  }

  /** The products of the guarded loads for K-indices [0, kk). */
  function PaddedDot(a: Matrix, b: Matrix, n: nat, row: nat, col: nat, kk: nat): int
    requires IsMatrix(a, n, n) && IsMatrix(b, n, n)
  {
    if kk == 0 then 0
    else PaddedDot(a, b, n, row, col, kk - 1) + LoadA(a, n, row, kk - 1) * LoadB(b, n, kk - 1, col)
  }

  /** Inside the matrix the padded sum is the plain inner product. */
  lemma {:induction false} PaddedDotInRange(a: Matrix, b: Matrix, n: nat, row: nat, col: nat, kk: nat)
    requires IsMatrix(a, n, n) && IsMatrix(b, n, n) && row < n && col < n && kk <= n
    ensures PaddedDot(a, b, n, row, col, kk) == RowColSum(a, row, b, col, 0, kk)
  {
    if kk > 0 {
      PaddedDotInRange(a, b, n, row, col, kk - 1);
    }
  }

  /** Padded K-indices at or past N add nothing. */
  lemma {:induction false} PaddingAddsNothing(a: Matrix, b: Matrix, n: nat, row: nat, col: nat, kk: nat)
    requires IsMatrix(a, n, n) && IsMatrix(b, n, n) && kk >= n
    ensures PaddedDot(a, b, n, row, col, kk) == PaddedDot(a, b, n, row, col, n)
  {
    if kk > n {
      PaddingAddsNothing(a, b, n, row, col, kk - 1);
    }
  }

  /** A thread outside the matrix only ever loads zeros into its own row or column. */
  lemma {:induction false} OutsideSumsToZero(a: Matrix, b: Matrix, n: nat, row: nat, col: nat, kk: nat)
    requires IsMatrix(a, n, n) && IsMatrix(b, n, n) && (row >= n || col >= n)
    ensures PaddedDot(a, b, n, row, col, kk) == 0
  {
    if kk > 0 {
      OutsideSumsToZero(a, b, n, row, col, kk - 1);
    }
  }

  /** Block and thread coordinates of one CUDA thread. */
  datatype Thread = Thread(blockX: nat, blockY: nat, threadX: nat, threadY: nat)

  /** `row = by * TILE + ty`. */
  function RowOf(th: Thread): nat
  {
    th.blockY * Tile + th.threadY
  }

  /** `col = bx * TILE + tx`. */
  function ColOf(th: Thread): nat
  {
    th.blockX * Tile + th.threadX
  }

  /** Blocks per grid axis, `(N + TILE - 1) / TILE`; also the tile count of
      the K loop. */
  function GridSize(n: nat): nat
  {
    CeilDiv(n, Tile)
  }

  /** A thread of the launch `grid(GridSize, GridSize) x block(TILE, TILE)`. */
  predicate InLaunch(th: Thread, n: nat)
  {
    th.blockX < GridSize(n) && th.blockY < GridSize(n) && th.threadX < Tile && th.threadY < Tile
  }

  /** The value a thread has accumulated after the tile loop. */
  function ThreadValue(a: Matrix, b: Matrix, n: nat, th: Thread): (v: int)
    requires IsMatrix(a, n, n) && IsMatrix(b, n, n)
    ensures RowOf(th) < n && ColOf(th) < n ==> v == MatMul(a, b, n)[RowOf(th)][ColOf(th)]
    ensures RowOf(th) >= n || ColOf(th) >= n ==> v == 0
  {
    var row, col := RowOf(th), ColOf(th);
    ThreadValueFacts(a, b, n, row, col);
    PaddedDot(a, b, n, row, col, GridSize(n) * Tile)
  }

  lemma ThreadValueFacts(a: Matrix, b: Matrix, n: nat, row: nat, col: nat)
    requires IsMatrix(a, n, n) && IsMatrix(b, n, n)
    ensures row < n && col < n ==>
              PaddedDot(a, b, n, row, col, GridSize(n) * Tile) == MatMul(a, b, n)[row][col]
    ensures row >= n || col >= n ==> PaddedDot(a, b, n, row, col, GridSize(n) * Tile) == 0
  {
    if row < n && col < n {
      PaddingAddsNothing(a, b, n, row, col, GridSize(n) * Tile);
      PaddedDotInRange(a, b, n, row, col, n);
    } else {
      OutsideSumsToZero(a, b, n, row, col, GridSize(n) * Tile);
    }
  }

  /** The body of `matmul_tiled` for one thread: the loop over tiles, each
      adding TILE products of guarded loads.  In range, the result is the
      (row, col) entry of A*B; out of range it is 0 (and is not stored). */
  method ThreadResult(a: Matrix, b: Matrix, n: nat, th: Thread) returns (sum: int)
    requires IsMatrix(a, n, n) && IsMatrix(b, n, n) && th.threadX < Tile && th.threadY < Tile
    ensures sum == ThreadValue(a, b, n, th)
    ensures RowOf(th) < n && ColOf(th) < n ==> sum == MatMul(a, b, n)[RowOf(th)][ColOf(th)]
    ensures RowOf(th) >= n || ColOf(th) >= n ==> sum == 0
  {
    var row := th.blockY * Tile + th.threadY;
    var col := th.blockX * Tile + th.threadX;
    sum := 0;
    var numTiles := (n + Tile - 1) / Tile;
    var t := 0;
    while t < numTiles
      invariant 0 <= t <= numTiles
      invariant sum == PaddedDot(a, b, n, row, col, t * Tile)
    {
      var k := 0;
      while k < Tile
        invariant 0 <= k <= Tile
        invariant sum == PaddedDot(a, b, n, row, col, t * Tile + k)
      {
        // As[ty][k] was loaded by thread (k, ty), Bs[k][tx] by thread (tx, k).
        var aTile := LoadA(a, n, row, t * Tile + k);
        var bTile := LoadB(b, n, t * Tile + k, col);
        sum := sum + aTile * bTile;
        k := k + 1;
      }
      t := t + 1;
    }
  }

  /** The thread that owns cell (row, col). */
  function ThreadFor(row: nat, col: nat): (th: Thread)
    ensures th.threadX < Tile && th.threadY < Tile
    ensures RowOf(th) == row && ColOf(th) == col
  {
    Thread(col / Tile, row / Tile, col % Tile, row % Tile)
  }

  /** The flat index the thread stores to, or None when the store is guarded off. */
  function WriteTarget(th: Thread, n: nat): (w: Option<nat>)
    ensures w.Some? <==> RowOf(th) < n && ColOf(th) < n
    ensures w.Some? ==> w.value < n * n && w.value / n == RowOf(th) && w.value % n == ColOf(th)
  {
    if RowOf(th) < n && ColOf(th) < n then Some(FlatIndex(RowOf(th), ColOf(th), n)) else None
  }

  /** The launch grid stores every cell of C exactly once: the thread
      ThreadFor(row, col) is in the launch, and a thread of the launch
      stores to cell idx exactly when it is that thread. */
  lemma LaunchWritesEachCellOnce(n: nat, idx: nat, th: Thread)
    requires idx < n * n
    ensures InLaunch(ThreadFor(idx / n, idx % n), n)
    ensures InLaunch(th, n) && WriteTarget(th, n) == Some(idx) <==> th == ThreadFor(idx / n, idx % n)
  {
    SplitFlatIndex(idx, n);
    var row, col := idx / n, idx % n;
    GridCovers(n, row);
    GridCovers(n, col);
    if InLaunch(th, n) && WriteTarget(th, n) == Some(idx) {
      DivModUnique(row, Tile, th.blockY, th.threadY);
      DivModUnique(col, Tile, th.blockX, th.threadX);
    }
  }

  /** An index below N lies in a block of the grid. */
  lemma GridCovers(n: nat, x: nat)
    requires x < n
    ensures x / Tile < GridSize(n)
  {
    var q := x / Tile;
    assert x == q * Tile + x % Tile;
    if q >= GridSize(n) {
      MulMonotone(GridSize(n), q, Tile);
    }
  }

  /** Device buffer C after the launch: every cell holds what its one
      owning thread stores. */
  function Launch(a: seq<int>, b: seq<int>, n: nat): (c: seq<int>)
    requires |a| == n * n && |b| == n * n
    ensures |c| == n * n
    ensures forall row, col :: 0 <= row < n && 0 <= col < n ==>
              c[FlatIndex(row, col, n)] == MatMul(Unflatten(a, n), Unflatten(b, n), n)[row][col]
  {
    var ga, gb := Unflatten(a, n), Unflatten(b, n);
    seq(n * n, idx requires 0 <= idx < n * n => ThreadValue(ga, gb, n, ThreadFor(idx / n, idx % n)))
  }

  // ----- Command line -----

  /** The argument handling as written: N defaults to 512; a value <= 0 is
      rejected with status 3; anything else is narrowed with `(int)v`. */
  function ParseSizeAsWritten(argv: seq<string>): (r: Result<int, nat>)
    ensures r.Err? ==> r.error == 3 && |argv| >= 2
    ensures |argv| < 2 ==> r == Ok(512)
  {
    if |argv| >= 2 then
      var v := Numeric.StrToLong(argv[1]);
      if v <= 0 then Err(3) else Ok(ToInt32(v))
    else Ok(512)
  }

  /** A positive argument above INT_MAX is not rejected: it runs with the
      narrowed N, which differs from the argument. */
  lemma ParseSizeWraps(prog: string, x: int)
    requires IntMax < x <= Numeric.LongMax
    ensures ParseSizeAsWritten([prog, Numeric.ShowInt(x)]) == Ok(ToInt32(x))
    ensures ToInt32(x) != x
  {
    Numeric.StrToLongOfShown(x);
  }

  /** On a numeral x the handling as written rejects x <= 0 with status 3 and
      runs every positive x with its clamped long value narrowed to int; for
      x in 1 .. INT_MAX that is x itself. */
  lemma ParseSizeAsWrittenOnNumeral(prog: string, x: int)
    ensures ParseSizeAsWritten([prog, Numeric.ShowInt(x)])
              == (if x <= 0 then Err(3) else Ok(ToInt32(Min(x, Numeric.LongMax))))
    ensures 1 <= x <= IntMax ==> ParseSizeAsWritten([prog, Numeric.ShowInt(x)]) == Ok(x)
  {
    Numeric.StrToLongOfShown(x);
  }

  /** 2^32 + 1 narrows to N = 1, and 2^31 to a negative N. */
  lemma WrapExamples()
    ensures ToInt32(0x1_0000_0001) == 1
    ensures ToInt32(0x8000_0000) == -0x8000_0000
  {
    DivModUnique(0x1_0000_0001, 0x1_0000_0000, 1, 1);
    DivModUnique(0x8000_0000, 0x1_0000_0000, 0, 0x8000_0000);
  }

  /** The argument handling with the narrowing guarded: values outside
      1 .. INT_MAX are rejected with status 3. */
  function ParseSize(argv: seq<string>): (r: Result<nat, nat>)
    ensures r.Err? ==> r.error == 3 && |argv| >= 2
    ensures r.Ok? ==> 1 <= r.value <= IntMax
    ensures |argv| < 2 ==> r == Ok(512)
  {
    if |argv| >= 2 then
      var v := Numeric.StrToLong(argv[1]);
      if v <= 0 || v > IntMax then Err(3) else Ok(v)
    else Ok(512)
  }

  /** A numeral is accepted as N exactly when its value is in 1 .. INT_MAX,
      and then N is that value. */
  lemma ParseSizeAcceptsExactlyIntRange(prog: string, x: int)
    ensures ParseSize([prog, Numeric.ShowInt(x)]) == (if 1 <= x <= IntMax then Ok(x) else Err(3))
  {
    Numeric.StrToLongOfShown(x);
  }

  // ----- Host initialisation -----

  /** The Fortran operands with 1-based i, j: A(i,j) = i + j, B(i,j) = i - j,
      written here with 0-based indices. */
  function FortranA(n: nat): (m: Matrix)
    ensures IsMatrix(m, n, n)
    ensures forall i, j :: 0 <= i < n && 0 <= j < n ==> m[i][j] == (i + 1) + (j + 1)
  {
    seq(n, i => seq(n, j => (i + 1) + (j + 1)))
  }

  function FortranB(n: nat): (m: Matrix)
    ensures IsMatrix(m, n, n)
    ensures forall i, j :: 0 <= i < n && 0 <= j < n ==> m[i][j] == (i + 1) - (j + 1)
  {
    seq(n, i => seq(n, j => (i + 1) - (j + 1)))
  }

  /** A matrix laid out column-major, entry (i, j) at i + j*N, as the host
      loops store it. */
  function ColumnMajor(m: Matrix, n: nat): (flat: seq<int>)
    requires IsMatrix(m, n, n)
    ensures |flat| == n * n
    ensures forall i, j :: 0 <= i < n && 0 <= j < n ==> flat[FlatIndex(j, i, n)] == m[i][j]
  {
    seq(n * n, idx requires 0 <= idx < n * n => SplitFlatIndex(idx, n); m[idx % n][idx / n])
  }

  /** A matrix laid out row-major, entry (i, j) at i*N + j, as the kernel reads it. */
  function RowMajor(m: Matrix, n: nat): (flat: seq<int>)
    requires IsMatrix(m, n, n)
    ensures |flat| == n * n
    ensures Unflatten(flat, n) == m
  {
    var flat := seq(n * n, idx requires 0 <= idx < n * n => SplitFlatIndex(idx, n); m[idx / n][idx % n]);
    EqualByEntries(Unflatten(flat, n), m, n, n);
    flat
  }

  /** The row-major kernel reads a column-major buffer as the transpose. */
  lemma ColumnMajorReadsTranspose(m: Matrix, n: nat)
    requires IsMatrix(m, n, n)
    ensures forall r, c :: 0 <= r < n && 0 <= c < n ==> Unflatten(ColumnMajor(m, n), n)[r][c] == m[c][r]
  {
  }

  /** An inner product of two transposed operands is the inner product of
      the originals taken in the other order. */
  lemma {:induction false} TransposedRowColSum(ga: Matrix, gb: Matrix, fa: Matrix, fb: Matrix,
                                               n: nat, r: nat, c: nat, kk: nat)
    requires IsMatrix(ga, n, n) && IsMatrix(gb, n, n) && IsMatrix(fa, n, n) && IsMatrix(fb, n, n)
    requires r < n && c < n && kk <= n
    requires forall i, j :: 0 <= i < n && 0 <= j < n ==> ga[i][j] == fa[j][i] && gb[i][j] == fb[j][i]
    ensures RowColSum(ga, r, gb, c, 0, kk) == RowColSum(fb, c, fa, r, 0, kk)
  {
    if kk > 0 {
      TransposedRowColSum(ga, gb, fa, fb, n, r, c, kk - 1);
      assert ga[r][kk - 1] * gb[kk - 1][c] == fb[c][kk - 1] * fa[kk - 1][r];
    }
  }

  /** As written, the host stores the operands column-major while the kernel
      reads them row-major, so the cell (r, c) of the result is entry (c, r)
      of B*A rather than entry (r, c) of A*B. */
  lemma ColumnMajorInitSwapsProduct(n: nat, r: nat, c: nat)
    requires r < n && c < n
    ensures Launch(ColumnMajor(FortranA(n), n), ColumnMajor(FortranB(n), n), n)[FlatIndex(r, c, n)]
         == MatMul(FortranB(n), FortranA(n), n)[c][r]
  {
    var ga := Unflatten(ColumnMajor(FortranA(n), n), n);
    var gb := Unflatten(ColumnMajor(FortranB(n), n), n);
    ColumnMajorReadsTranspose(FortranA(n), n);
    ColumnMajorReadsTranspose(FortranB(n), n);
    TransposedRowColSum(ga, gb, FortranA(n), FortranB(n), n, r, c, n);
  }

  /** For N = 2 the value printed as C(1,1) is -3, while the Fortran
      product A*B has C(1,1) = 3. */
  lemma PrintedCornerAsWritten(n: nat)
    requires n == 2
    ensures Launch(ColumnMajor(FortranA(n), n), ColumnMajor(FortranB(n), n), n)[0] == -3
    ensures MatMul(FortranA(n), FortranB(n), n)[0][0] == 3
  {
    ColumnMajorInitSwapsProduct(n, 0, 0);
    assert FlatIndex(0, 0, n) == 0;
    CornerEntries(n);
  }

  /** Entry (1,1) of B*A and of A*B for N = 2: -3 and 3. */
  lemma CornerEntries(n: nat)
    requires n == 2
    ensures MatMul(FortranB(n), FortranA(n), n)[0][0] == -3
    ensures MatMul(FortranA(n), FortranB(n), n)[0][0] == 3
  {
    var fa, fb := FortranA(n), FortranB(n);
    assert fa[0][0] == 2 && fa[0][1] == 3 && fa[1][0] == 3;
    assert fb[0][0] == 0 && fb[0][1] == -1 && fb[1][0] == 1;
    assert RowColSum(fb, 0, fa, 0, 0, 1) == 0;
    assert RowColSum(fa, 0, fb, 0, 0, 1) == 0;
    assert MatMul(fb, fa, n)[0][0] == RowColSum(fb, 0, fa, 0, 0, 2);
    assert MatMul(fa, fb, n)[0][0] == RowColSum(fa, 0, fb, 0, 0, 2);
  }

  /** With the operands stored row-major, every cell of the launch result is
      the matching entry of the Fortran product A*B. */
  lemma RowMajorInitComputesProduct(n: nat)
    ensures var c := Launch(RowMajor(FortranA(n), n), RowMajor(FortranB(n), n), n);
            forall r, cl :: 0 <= r < n && 0 <= cl < n ==>
              c[FlatIndex(r, cl, n)] == MatMul(FortranA(n), FortranB(n), n)[r][cl]
  {
  }
}
