/** The index bookkeeping of the MPI+OpenMP dot product of
    tutorial/languages/c/profiling/mpi+openmp/main.c: the size argument, each
    rank's block [start, end) of the n global indices, and the global
    indices its loops touch.  The floating-point values and the reduction
    are not modelled. */
module HybridDot {
  import opened Common
  import opened Partition
  import Numeric

  /** The command line: a missing argument, or an `atoll` value that is not
      positive, ends the program with status 1. */
  function ParseSize(argv: seq<string>): (r: Result<nat, nat>)
    ensures r.Err? ==> r.error == 1
    ensures r.Ok? ==> 1 <= r.value <= Numeric.LongMax
    ensures |argv| < 2 ==> r.Err?
  {
    if |argv| < 2 then Err(1)
    else
      var n := Numeric.StrToLong(argv[1]);
      if n <= 0 then Err(1) else Ok(n)
  }

  /** A numeral in long long range, followed by anything that does not
      continue it, is accepted exactly when it is positive. */
  lemma ParseSizeAcceptsExactlyPositive(prog: string, x: int, rest: string)
    requires Numeric.LongMin <= x <= Numeric.LongMax
    requires |rest| == 0 || !Numeric.IsDigit(rest[0])
    ensures ParseSize([prog, Numeric.ShowInt(x) + rest]) == (if x >= 1 then Ok(x) else Err(1))
    ensures ParseSize([prog]) == Err(1)
  {
    Numeric.LeadingParsesShown(x, rest);
  }

  /** The global indices `g = start + i` the rank's loops visit, in order. */
  method TouchedIndices(n: nat, size: nat, rank: nat) returns (gs: seq<int>)
    requires size >= 1 && rank < size
    ensures |gs| == Count(n, size, rank)
    ensures forall i :: 0 <= i < |gs| ==> Start(n, size, rank) <= gs[i] < End(n, size, rank) <= n
    ensures gs == Chunk(n, size, rank, Identity)
  {
    var chunk := n / size;
    var r := n % size;
    var localN := chunk + (if rank < r then 1 else 0);
    var start := rank * chunk + (if rank < r then rank else r);
    RangeInside(n, size, rank);
    gs := [];
    var i := 0;
    while i < localN
      invariant 0 <= i <= localN
      invariant |gs| == i
      invariant forall j :: 0 <= j < i ==> gs[j] == start + j
    {
      gs := gs + [start + i];
      i := i + 1;
    }
  }

  /** Over all ranks every index of [0, n) is touched exactly once: the
      rank blocks laid end to end list 0, 1, ..., n-1, and g falls in the
      block of rank r exactly when r is RankOf(g). */
  lemma EachIndexTouchedOnce(n: nat, size: nat, g: nat, r: nat)
    requires size >= 1
    ensures var all := Flatten(seq(size, q requires 0 <= q < size => Chunk(n, size, q, Identity)));
            |all| == n && forall k :: 0 <= k < n ==> all[k] == k
    ensures g < n && r < size ==> (Start(n, size, r) <= g < End(n, size, r) <==> r == RankOf(n, size, g))
  {
    FlattenChunks(n, size, size, Identity);
    StartBounds(n, size);
    var all := Flatten(seq(size, q requires 0 <= q < size => Chunk(n, size, q, Identity)));
    forall k | 0 <= k < n
      ensures all[k] == k
    {
      assert all[k] == Identity(k);
    }
    if g < n && r < size {
      RangesTile(n, size, g, r);
    }
  }

  /** Rank 0 starts at 0, each block ends where the next begins, and the last
      ends at n; the block sizes add up to n. */
  lemma BlocksAbut(n: nat, size: nat, rank: nat)
    requires size >= 1
    ensures Start(n, size, 0) == 0 && End(n, size, size - 1) == n
    ensures End(n, size, rank) == Start(n, size, rank + 1)
    ensures Sum(Counts(n, size)) == n
  {
    StartBounds(n, size);
    EndIsNextStart(n, size, size - 1);
    EndIsNextStart(n, size, rank);
    CountsSumToN(n, size);
  }
}
