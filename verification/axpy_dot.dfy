/** The AXPY-and-dot benchmark of tutorial/python/mpi/test.py: every rank
    takes its block of the n global indices with Python's floor division,
    builds x = 1 and y = rank + 1 over its block, computes y = 2x + y and the
    local dot product x.y, and the sum of the local dots over all ranks is
    the result.  Ranks are simulated one after the other; entries are
    integers instead of float64. */
module AxpyDot {
  import opened Common
  import opened Partition
  import Numeric

  /** `local_n = n // size + (1 if rank < n % size else 0)`, for any integer
      n; Python's `//` and `%` with a positive divisor are Dafny's. */
  function LocalSize(n: int, size: nat, rank: nat): int
    requires size >= 1
  {
    n / size + (if rank < n % size then 1 else 0)
  }

  /** `start = rank * base + min(rank, rem)`. */
  function LocalStart(n: int, size: nat, rank: nat): int
    requires size >= 1
  {
    rank * (n / size) + Min(rank, n % size)
  }

  /** For n >= 0 the blocks are those of the partition: consecutive blocks
      abut, and g lies in the block [start, stop) of rank r exactly when r
      is RankOf(g). */
  lemma BlocksTile(n: int, size: nat, rank: nat, g: nat)
    requires size >= 1 && n >= 0 && rank < size
    ensures LocalSize(n, size, rank) == Count(n, size, rank)
    ensures LocalStart(n, size, rank) == Start(n, size, rank)
    ensures LocalStart(n, size, rank) + LocalSize(n, size, rank) == LocalStart(n, size, rank + 1)
    ensures g < n ==> (LocalStart(n, size, rank) <= g < LocalStart(n, size, rank) + LocalSize(n, size, rank)
                       <==> rank == RankOf(n, size, g))
  {
    EndIsNextStart(n, size, rank);
    if g < n {
      RangesTile(n, size, g, rank);
    }
  }

  /** Every block size is non-negative exactly when n is; for a negative n
      the last rank's size is negative. */
  lemma NegativeSizeReachesLastRank(n: int, size: nat, rank: nat)
    requires size >= 1 && rank < size
    ensures n >= 0 ==> LocalSize(n, size, rank) >= 0
    ensures n < 0 <==> LocalSize(n, size, size - 1) < 0
  {
    var q, r := n / size, n % size;
    assert n == size * q + r;
  }

  /** `np.full(m, v)` (and `np.ones(m)` for v = 1). */
  function Fill(m: nat, v: int): (s: seq<int>)
    ensures |s| == m && forall i :: 0 <= i < m ==> s[i] == v
  {
    seq(m, _ => v)
  }

  /** `alpha * x + y`, entry by entry. */
  function Axpy(alpha: int, x: seq<int>, y: seq<int>): (z: seq<int>)
    requires |x| == |y|
    ensures |z| == |x|
  {
    seq(|x|, i requires 0 <= i < |x| => alpha * x[i] + y[i])
  }

  /** `np.dot(x, y)`. */
  function Dot(x: seq<int>, y: seq<int>): int
    requires |x| == |y|
  {
    if |x| == 0 then 0 else Dot(x[..|x| - 1], y[..|y| - 1]) + x[|x| - 1] * y[|y| - 1]
  }

  /** Dotting with all ones adds the entries up. */
  lemma {:induction false} DotWithOnes(y: seq<int>)
    ensures Dot(Fill(|y|, 1), y) == Sum(y)
  {
    if |y| > 0 {
      DotWithOnes(y[..|y| - 1]);
      assert Fill(|y|, 1)[..|y| - 1] == Fill(|y| - 1, 1);
    }
  }

  lemma {:induction false} SumOfFill(m: nat, v: int)
    ensures Sum(Fill(m, v)) == m * v
  {
    if m > 0 {
      SumOfFill(m - 1, v);
      assert Fill(m, v)[..m - 1] == Fill(m - 1, v);
    }
  }

  /** What stops a rank: numpy refuses an array of negative length. */
  datatype Failure = NegativeDimension(rank: nat)

  /** One rank: its y after the AXPY and its local dot, or the error. */
  function RankStep(n: int, size: nat, rank: nat): (res: Result<(seq<int>, int), Failure>)
    requires size >= 1
    ensures res.Err? <==> LocalSize(n, size, rank) < 0
  {
    var localN := LocalSize(n, size, rank);
    if localN < 0 then Err(NegativeDimension(rank))
    else
      var x := Fill(localN, 1);
      var y := Axpy(2, x, Fill(localN, rank + 1));
      Ok((y, Dot(x, y)))
  }

  /** A rank fails exactly when its size is negative; otherwise every entry
      of y is rank + 3 and the local dot is local_n * (rank + 3), which is
      0 for an empty rank. */
  lemma RankStepResult(n: int, size: nat, rank: nat)
    requires size >= 1
    ensures RankStep(n, size, rank).Err? <==> LocalSize(n, size, rank) < 0
    ensures RankStep(n, size, rank).Ok? ==>
              var (y, dot) := RankStep(n, size, rank).value;
              |y| == LocalSize(n, size, rank) &&
              (forall i :: 0 <= i < |y| ==> y[i] == rank + 3) &&
              dot == LocalSize(n, size, rank) * (rank + 3)
    ensures RankStep(n, size, rank).Ok? && LocalSize(n, size, rank) == 0 ==> RankStep(n, size, rank).value.1 == 0
  {
    var localN := LocalSize(n, size, rank);
    if localN >= 0 {
      var x := Fill(localN, 1);
      var y := Axpy(2, x, Fill(localN, rank + 1));
      assert y == Fill(localN, rank + 3);
      DotWithOnes(y);
      SumOfFill(localN, rank + 3);
    }
  }

  /** The lowest rank, from r on, that fails. */
  function FirstFailure(n: int, size: nat, r: nat): (m: Option<nat>)
    requires size >= 1 && r <= size
    ensures m.Some? ==> r <= m.value < size && RankStep(n, size, m.value).Err?
    ensures m.None? <==> forall q :: r <= q < size ==> RankStep(n, size, q).Ok?
    decreases size - r
  {
    if r == size then None
    else if RankStep(n, size, r).Err? then Some(r)
    else FirstFailure(n, size, r + 1)
  }

  /** The local dots of all ranks. */
  function LocalDots(n: int, size: nat): (ds: seq<int>)
    requires size >= 1 && FirstFailure(n, size, 0).None?
    ensures |ds| == size
  {
    seq(size, r requires 0 <= r < size => RankStep(n, size, r).value.1)
  }

  /** `allreduce(local_dot, op=SUM)` over all ranks, or the first failure. */
  function GlobalDot(n: int, size: nat): (res: Result<int, Failure>)
    requires size >= 1
    ensures res.Err? <==> n < 0
  {
    NoFailureIffNonNegative(n, size);
    match FirstFailure(n, size, 0)
    case Some(r) => Err(NegativeDimension(r))
    case None => Ok(Sum(LocalDots(n, size)))
  }

  lemma NoFailureIffNonNegative(n: int, size: nat)
    requires size >= 1
    ensures FirstFailure(n, size, 0).None? <==> n >= 0
  {
    NegativeSizeReachesLastRank(n, size, size - 1);
    forall q | 0 <= q < size
      ensures n >= 0 ==> RankStep(n, size, q).Ok?
    {
      NegativeSizeReachesLastRank(n, size, q);
    }
    if n < 0 {
      assert RankStep(n, size, size - 1).Err?;
    }
  }

  /** The entry of the global y at global index g: rank + 3 of the rank
      that holds g. */
  function GlobalY(n: nat, size: nat): int -> int
    requires size >= 1
  {
    g => if 0 <= g < n then RankOf(n, size, g) + 3 else 0
  }

  /** Rank r's block of the global y is rank + 3 throughout. */
  lemma BlockOfGlobalY(n: nat, size: nat, r: nat)
    requires size >= 1 && r < size
    ensures Chunk(n, size, r, GlobalY(n, size)) == Fill(Count(n, size, r), r + 3)
  {
    RangeInside(n, size, r);
    forall i | 0 <= i < Count(n, size, r)
      ensures Chunk(n, size, r, GlobalY(n, size))[i] == r + 3
    {
      RangesTile(n, size, Start(n, size, r) + i, r);
    }
  }

  /** Laid end to end, the ranks' blocks of y are the global y. */
  lemma BlocksFormGlobalY(n: nat, size: nat)
    requires size >= 1
    ensures Flatten(seq(size, r requires 0 <= r < size => Chunk(n, size, r, GlobalY(n, size))))
         == seq(n, g requires 0 <= g < n => RankOf(n, size, g) + 3)
  {
    var f := GlobalY(n, size);
    FlattenChunks(n, size, size, f);
    StartBounds(n, size);
    var all := Flatten(seq(size, r requires 0 <= r < size => Chunk(n, size, r, f)));
    forall g | 0 <= g < n
      ensures all[g] == RankOf(n, size, g) + 3
    {
      assert all[g] == f(g);
    }
  }

  /** Rank r's local dot is the sum of its block of the global y. */
  lemma LocalDotIsBlockSum(n: nat, size: nat, r: nat)
    requires size >= 1 && r < size
    ensures RankStep(n, size, r).Ok?
    ensures RankStep(n, size, r).value.1 == Sum(Chunk(n, size, r, GlobalY(n, size)))
  {
    BlocksTile(n, size, r, 0);
    RankStepResult(n, size, r);
    BlockOfGlobalY(n, size, r);
    SumOfFill(Count(n, size, r), r + 3);
  }

  /** The distributed result is the dot product of the global vectors:
      ones(n) against y, where y holds rank + 3 at every index of a rank's
      block. */
  lemma GlobalDotIsDotOfGlobalVectors(n: nat, size: nat)
    requires size >= 1
    ensures GlobalDot(n, size) == Ok(Sum(seq(n, g requires 0 <= g < n => RankOf(n, size, g) + 3)))
  {
    NoFailureIffNonNegative(n, size);
    var chunks := seq(size, r requires 0 <= r < size => Chunk(n, size, r, GlobalY(n, size)));
    var ds := LocalDots(n, size);
    forall r | 0 <= r < size
      ensures Sum(chunks[r]) == ds[r]
    {
      LocalDotIsBlockSum(n, size, r);
    }
    SumFlatten(chunks);
    assert seq(|chunks|, r requires 0 <= r < |chunks| => Sum(chunks[r])) == ds;
    BlocksFormGlobalY(n, size);
  }

  /** The command line: a missing argument, or text that Python's `int`
      rejects, ends the program with status 1 (an uncaught ValueError); so
      does a negative size, through the failing rank. */
  function Program(argv: seq<string>, size: nat): (res: Result<int, nat>)
    requires size >= 1
    ensures res.Err? ==> res.error == 1
  {
    if |argv| < 2 then Err(1)
    else
      match Numeric.ParseStrictInt(argv[1])
      case None => Err(1)
      case Some(n) =>
        match GlobalDot(n, size)
        case Err(_) => Err(1)
        case Ok(d) => Ok(d)
  }

  /** A numeral x runs to the global dot exactly when x >= 0. */
  lemma ProgramOnNumeral(prog: string, x: int, size: nat)
    requires size >= 1
    ensures Program([prog, Numeric.ShowInt(x)], size).Ok? <==> x >= 0
    ensures x >= 0 ==> Program([prog, Numeric.ShowInt(x)], size)
                       == Ok(Sum(seq(x, g requires 0 <= g < x => RankOf(x, size, g) + 3)))
    ensures Program([prog], size) == Err(1)
  {
    Numeric.StrictParsesShown(x);
    if x >= 0 {
      GlobalDotIsDotOfGlobalVectors(x, size);
    }
  }
}

/** The CuPy variant of the benchmark,
    tutorial/languages/python/profiling/mpi+cuda/test.py: the same blocks and
    AXPY on the device, with the local dot guarded so that an empty rank
    contributes an explicit 0. */
module AxpyDotDevice {
  import opened Common
  import opened AxpyDot

  /** One rank on the device: y after the AXPY and the guarded local dot. */
  function DeviceRankStep(n: int, size: nat, rank: nat): (res: Result<(seq<int>, int), Failure>)
    requires size >= 1
    ensures res.Err? <==> LocalSize(n, size, rank) < 0
  {
    var localN := LocalSize(n, size, rank);
    if localN < 0 then Err(NegativeDimension(rank))
    else
      var x := Fill(localN, 1);
      var y := Axpy(2, x, Fill(localN, rank + 1));
      Ok((y, if localN > 0 then Dot(x, y) else 0))
  }

  /** The guard changes nothing: the device rank computes exactly what the
      host rank does, an empty rank's dot being 0 either way. */
  lemma GuardedDotAgrees(n: int, size: nat, rank: nat)
    requires size >= 1
    ensures DeviceRankStep(n, size, rank) == RankStep(n, size, rank)
    ensures DeviceRankStep(n, size, rank).Ok? ==> DeviceRankStep(n, size, rank).value.1 == LocalSize(n, size, rank) * (rank + 3)
  {
    RankStepResult(n, size, rank);
  }

  /** The CUDA-aware `Allreduce` of the guarded local dots. */
  function DeviceGlobalDot(n: int, size: nat): (res: Result<int, Failure>)
    requires size >= 1
  {
    match FirstFailure(n, size, 0)
    case Some(r) => Err(NegativeDimension(r))
    case None =>
      Ok(Sum(seq(size, r requires 0 <= r < size =>
        assert RankStep(n, size, r).Ok?; DeviceRankStep(n, size, r).value.1)))
  }

  /** The device run reports the same global dot as the host run. */
  lemma DeviceGlobalDotAgrees(n: int, size: nat)
    requires size >= 1
    ensures DeviceGlobalDot(n, size) == GlobalDot(n, size)
    ensures n >= 0 ==> DeviceGlobalDot(n, size) == Ok(Sum(seq(n, g requires 0 <= g < n => Partition.RankOf(n, size, g) + 3)))
  {
    if FirstFailure(n, size, 0).None? {
      forall r | 0 <= r < size
        ensures RankStep(n, size, r).Ok? && DeviceRankStep(n, size, r) == RankStep(n, size, r)
      {
        GuardedDotAgrees(n, size, r);
      }
      assert seq(size, r requires 0 <= r < size => DeviceRankStep(n, size, r).value.1) == LocalDots(n, size);
    }
    if n >= 0 {
      GlobalDotIsDotOfGlobalVectors(n, size);
    }
  }
}
