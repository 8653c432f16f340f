/** The distributed vector addition of
    tutorial/languages/fortran/code_samples/mpi+cuda/main.c.  Each rank takes
    its block of the N_total indices, fills a[i] = gi and b[i] = 2*gi for its
    global indices gi, adds them with the `vadd` kernel, and the root gathers
    every rank's block into one vector and checks a few samples against 3*i.
    Ranks are simulated one after the other; the gather is a function of all
    ranks' blocks.  C's size_t is 64 bits and int 32 bits, little-endian. */
module VectorAdd {
  import opened Common
  import opened Partition
  import Numeric

  /** 2^64, one past the largest size_t. */
  const SizeMod: int := 0x1_0000_0000_0000_0000

  /** Default problem size, `1ULL << 22`. */
  const DefaultSize: nat := 0x40_0000

  /** Threads per block of the `vadd` launch (`TPB`). */
  const ThreadsPerBlock: nat := 256

  /** `strtoull(text, NULL, 10)`: a leading '-' negates modulo 2^64, and a
      magnitude that does not fit clamps to ULLONG_MAX. */
  function StrToULong(s: string): (v: nat)
    ensures v < SizeMod
  {
    var x := Numeric.ParseLeadingInt(s);
    var mag := if x < 0 then -x else x;
    if mag >= SizeMod then SizeMod - 1
    else if x < 0 then SizeMod - mag
    else mag
  }

  /** `N_total`: the first argument read with `strtoull`, else 1 << 22. */
  function TotalSize(argv: seq<string>): (n: nat)
    ensures n < SizeMod
    ensures |argv| <= 1 ==> n == DefaultSize
  {
    if |argv| > 1 then StrToULong(argv[1]) else DefaultSize
  }

  /** A numeral in size_t range is read as itself, a small negative one
      wraps around 2^64, and anything larger clamps. */
  lemma TotalSizeOfNumeral(prog: string, x: int)
    ensures TotalSize([prog, Numeric.ShowInt(x)])
         == (if 0 <= x < SizeMod then x
             else if -SizeMod < x < 0 then SizeMod + x
             else SizeMod - 1)
  {
    Numeric.LeadingParsesShown(x, "");
    assert Numeric.ShowInt(x) + "" == Numeric.ShowInt(x);
  }

  // ----- The kernel -----

  /** Element-wise sum, what `c[i] = a[i] + b[i]` produces for every index. */
  function AddVectors(a: seq<int>, b: seq<int>): (c: seq<int>)
    requires |a| == |b|
    ensures |c| == |a|
    ensures forall i :: 0 <= i < |a| ==> c[i] == a[i] + b[i]
  {
    seq(|a|, i requires 0 <= i < |a| => a[i] + b[i])
  }

  /** The `vadd` launch with `blocks` blocks of `tpb` threads: thread
      `blockIdx.x * blockDim.x + threadIdx.x` writes its index when it is
      below n.  Cells no thread reaches keep their old contents. */
  method Vadd(a: seq<int>, b: seq<int>, c0: seq<int>, n: nat, blocks: nat, tpb: nat) returns (c: seq<int>)
    requires |a| == n && |b| == n && |c0| == n
    ensures |c| == n
    ensures forall i :: 0 <= i < n && i < blocks * tpb ==> c[i] == a[i] + b[i]
    ensures forall i :: 0 <= i < n && i >= blocks * tpb ==> c[i] == c0[i]
    ensures blocks * tpb >= n ==> c == AddVectors(a, b)
  {
    c := c0;
    var bid := 0;
    while bid < blocks
      invariant 0 <= bid <= blocks
      invariant |c| == n
      invariant forall i :: 0 <= i < n && i < bid * tpb ==> c[i] == a[i] + b[i]
      invariant forall i :: 0 <= i < n && i >= bid * tpb ==> c[i] == c0[i]
    {
      var tid := 0;
      while tid < tpb
        invariant 0 <= tid <= tpb
        invariant |c| == n
        invariant forall i :: 0 <= i < n && i < bid * tpb + tid ==> c[i] == a[i] + b[i]
        invariant forall i :: 0 <= i < n && i >= bid * tpb + tid ==> c[i] == c0[i]
      {
        var i := bid * tpb + tid;
        if i < n {
          c := c[i := a[i] + b[i]];
        }
        tid := tid + 1;
      }
      assert (bid + 1) * tpb == bid * tpb + tpb;
      bid := bid + 1;
    }
    if blocks * tpb >= n {
      assert c == AddVectors(a, b);
    }
  }

  // ----- One rank -----

  function Doubled(g: int): int
  {
    2 * g
  }

  function Tripled(g: int): int
  {
    3 * g
  }

  /** What can stop the run: a kernel launch rejected by the runtime, or a
      rank whose gathered block does not have the size the root expects. */
  datatype Failure = InvalidLaunch(rank: nat) | CountMismatch(rank: nat)

  /** Rank r's `h_c` as written: the launch uses `(n_local + TPB - 1) / TPB`
      blocks, and a launch with no blocks is an invalid configuration, which
      aborts the run. */
  function RankStepAsWritten(n: nat, p: nat, r: nat): (res: Result<seq<int>, Failure>)
    requires p >= 1
    ensures res.Err? ==> res.error == InvalidLaunch(r)
  {
    var nLocal := Count(n, p, r);
    var blocks := CeilDiv(nLocal, ThreadsPerBlock);
    if blocks == 0 then Err(InvalidLaunch(r))
    else Ok(AddVectors(Chunk(n, p, r, Identity), Chunk(n, p, r, Doubled)))
  }

  /** A rank's launch fails exactly when the rank holds no elements, which
      happens exactly when there are fewer elements than ranks and the rank
      is not among the first N_total; otherwise it yields 3*gi. */
  lemma RankStepAsWrittenFailsOnEmptyRanks(n: nat, p: nat, r: nat)
    requires p >= 1
    ensures RankStepAsWritten(n, p, r).Err? <==> Count(n, p, r) == 0
    ensures Count(n, p, r) == 0 <==> n < p && r >= n
    ensures RankStepAsWritten(n, p, r).Ok? ==> RankStepAsWritten(n, p, r).value == Chunk(n, p, r, Tripled)
  {
    if n < p {
      DivModUnique(n, p, 0, n);
    } else {
      assert n == p * (n / p) + n % p;
    }
  }

  /** Rank r's `h_c` with the launch skipped for an empty rank. */
  function RankStep(n: nat, p: nat, r: nat): (c: seq<int>)
    requires p >= 1
    ensures c == Chunk(n, p, r, Tripled)
  {
    var nLocal := Count(n, p, r);
    if nLocal == 0 then []
    else AddVectors(Chunk(n, p, r, Identity), Chunk(n, p, r, Doubled))
  }

  /** The launch size covers every local element, and an empty rank gets
      an empty grid. */
  lemma LaunchCoversLocalElements(nLocal: nat)
    ensures CeilDiv(nLocal, ThreadsPerBlock) * ThreadsPerBlock >= nLocal
    ensures CeilDiv(nLocal, ThreadsPerBlock) == 0 <==> nLocal == 0
  {
  }

  // ----- Gather at the root -----

  /** The root's displacement table: `displs[r]` is the running total of
      the counts of ranks below r. */
  method Displacements(counts: seq<int>) returns (displs: seq<int>)
    ensures |displs| == |counts|
    ensures forall r :: 0 <= r < |counts| ==> displs[r] == Sum(counts[..r])
  {
    displs := [];
    var running := 0;
    var r := 0;
    while r < |counts|
      invariant 0 <= r <= |counts|
      invariant |displs| == r
      invariant running == Sum(counts[..r])
      invariant forall q :: 0 <= q < r ==> displs[q] == Sum(counts[..q])
    {
      displs := displs + [running];
      SumPrefixStep(counts, r);
      running := running + counts[r];
      r := r + 1;
    }
  }

  /** The displacements of the partition's counts are the ranks' offsets. */
  lemma DisplacementsAreOffsets(n: nat, p: nat, displs: seq<int>)
    requires p >= 1 && |displs| == p
    requires forall r :: 0 <= r < p ==> displs[r] == Sum(Counts(n, p)[..r])
    ensures forall r :: 0 <= r < p ==> displs[r] == Start(n, p, r)
  {
    forall r | 0 <= r < p
      ensures displs[r] == Start(n, p, r)
    {
      StartIsPrefixSum(n, p, r);
    }
  }

  /** The rank, from rank r on, whose receive slot
      [displs[q], displs[q] + counts[q]) holds position g, with g's offset
      inside it. */
  function SlotOf(counts: seq<int>, displs: seq<int>, g: int, r: nat): (s: Option<(nat, nat)>)
    requires |counts| == |displs| && r <= |counts|
    ensures s.Some? ==> r <= s.value.0 < |counts|
                        && displs[s.value.0] <= g < displs[s.value.0] + counts[s.value.0]
                        && s.value.1 == g - displs[s.value.0]
    ensures s.Some? ==> forall q :: r <= q < s.value.0 ==> !(displs[q] <= g < displs[q] + counts[q])
    ensures s.None? <==> forall q :: r <= q < |counts| ==> !(displs[q] <= g < displs[q] + counts[q])
    decreases |counts| - r
  {
    if r == |counts| then None
    else if displs[r] <= g < displs[r] + counts[r] then Some((r, g - displs[r]))
    else SlotOf(counts, displs, g, r + 1)
  }

  /** The lowest rank, from r on, whose block size differs from its count. */
  function FirstMismatch(chunks: seq<seq<int>>, counts: seq<int>, r: nat): (m: Option<nat>)
    requires |chunks| == |counts| && r <= |counts|
    ensures m.Some? ==> r <= m.value < |counts| && |chunks[m.value]| != counts[m.value]
    ensures m.None? <==> forall q :: r <= q < |counts| ==> |chunks[q]| == counts[q]
    decreases |counts| - r
  {
    if r == |counts| then None
    else if |chunks[r]| != counts[r] then Some(r)
    else FirstMismatch(chunks, counts, r + 1)
  }

  /** `MPI_Gatherv` at the root: rank r's block lands at displs[r]; a block
      whose length is not the count the root expects from that rank is an
      error.  Positions no slot covers keep the buffer's old contents. */
  function Gatherv(chunks: seq<seq<int>>, counts: seq<int>, displs: seq<int>, buf: seq<int>)
    : (res: Result<seq<int>, Failure>)
    requires |chunks| == |counts| == |displs|
    ensures res.Err? <==> exists r :: 0 <= r < |chunks| && |chunks[r]| != counts[r]
    ensures res.Err? ==> res.error.CountMismatch? && res.error.rank < |chunks|
                         && |chunks[res.error.rank]| != counts[res.error.rank]
    ensures res.Ok? ==> |res.value| == |buf|
  {
    match FirstMismatch(chunks, counts, 0)
    case Some(r) => Err(CountMismatch(r))
    case None =>
      Ok(seq(|buf|, g requires 0 <= g < |buf| =>
        match SlotOf(counts, displs, g, 0)
        case Some((r, i)) => chunks[r][i]
        case None => buf[g]))
  }

  /** Gathering the partition's blocks with its counts and offsets lays
      out f over all N_total indices, whatever the buffer held before. */
  lemma GathervOfPartition(n: nat, p: nat, f: int -> int, counts: seq<int>, displs: seq<int>, buf: seq<int>)
    requires p >= 1 && |counts| == p && |displs| == p && |buf| == n
    requires forall r :: 0 <= r < p ==> counts[r] == Count(n, p, r) && displs[r] == Start(n, p, r)
    ensures var res := Gatherv(seq(p, r requires 0 <= r < p => Chunk(n, p, r, f)), counts, displs, buf);
            res.Ok? && |res.value| == n && forall g :: 0 <= g < n ==> res.value[g] == f(g)
  {
    var chunks := seq(p, r requires 0 <= r < p => Chunk(n, p, r, f));
    var res := Gatherv(chunks, counts, displs, buf);
    assert res.Ok?;
    forall g | 0 <= g < n
      ensures res.value[g] == f(g)
    {
      var o := RankOf(n, p, g);
      RangesTile(n, p, g, o);
      var s := SlotOf(counts, displs, g, 0);
      assert s.Some? by {
        assert displs[o] <= g < displs[o] + counts[o];
      }
      RangesTile(n, p, g, s.value.0);
      assert chunks[o][g - Start(n, p, o)] == f(g);
    }
  }

  /** The 32-bit words of a size_t array in memory order, which is what the
      array is read as when its pointer is cast to `int*`. */
  function Int32View(xs: seq<nat>): (ws: seq<int>)
    ensures |ws| == 2 * |xs|
    ensures forall k :: 0 <= k < |xs| ==>
              ws[2 * k] == ToInt32(xs[k] % 0x1_0000_0000) && ws[2 * k + 1] == ToInt32(xs[k] / 0x1_0000_0000)
  {
    if |xs| == 0 then []
    else
      var last := xs[|xs| - 1];
      Int32View(xs[..|xs| - 1]) + [ToInt32(last % 0x1_0000_0000), ToInt32(last / 0x1_0000_0000)]
  }

  /** The counts of the partition as the root collects them (size_t). */
  function GatheredCounts(n: nat, p: nat): (t: seq<nat>)
    requires p >= 1
    ensures |t| == p && forall r :: 0 <= r < p ==> t[r] == Count(n, p, r)
  {
    seq(p, r requires 0 <= r < p => Count(n, p, r))
  }

  /** The offsets of the partition as the root's loop computes them (size_t). */
  function OffsetTable(n: nat, p: nat): (t: seq<nat>)
    requires p >= 1
    ensures |t| == p && forall r :: 0 <= r < p ==> t[r] == Start(n, p, r)
  {
    seq(p, r requires 0 <= r < p => Start(n, p, r))
  }

  /** The gather as written: the size_t count and displacement tables are
      passed where `MPI_Gatherv` reads int arrays, so it sees their first p
      32-bit words. */
  function GatherAsWritten(n: nat, p: nat, chunks: seq<seq<int>>, buf: seq<int>): Result<seq<int>, Failure>
    requires p >= 1 && |chunks| == p
  {
    Gatherv(chunks, Int32View(GatheredCounts(n, p))[..p], Int32View(OffsetTable(n, p))[..p], buf)
  }

  /** With two or more ranks and 2 <= N_total <= INT_MAX, the root takes the
      upper word of rank 0's count as rank 1's count, 0, while rank 1 sends
      at least one element: the gather fails at rank 1. */
  lemma GatherAsWrittenMisreadsCounts(n: nat, p: nat, buf: seq<int>)
    requires 2 <= p && 2 <= n <= IntMax
    ensures Int32View(GatheredCounts(n, p))[1] == 0 < Count(n, p, 1)
    ensures GatherAsWritten(n, p, seq(p, r requires 0 <= r < p => RankStep(n, p, r)), buf).Err?
  {
    var view := Int32View(GatheredCounts(n, p));
    RangeInside(n, p, 0);
    DivModUnique(Count(n, p, 0), 0x1_0000_0000, 0, Count(n, p, 0));
    assert view[2 * 0 + 1] == ToInt32(0);
    RankStepAsWrittenFailsOnEmptyRanks(n, p, 1);
    var chunks := seq(p, r requires 0 <= r < p => RankStep(n, p, r));
    assert |chunks[1]| != view[..p][1];
  }

  // ----- The root's check and the whole run -----

  /** Distance between sampled indices, `N_total / 7 + 1`. */
  function Stride(n: nat): (s: nat)
    ensures s >= 1
  {
    n / 7 + 1
  }

  /** Every sampled index holds 3*i. */
  predicate SamplesMatch(out: seq<int>, n: nat)
    requires |out| >= n
  {
    forall i :: 0 <= i < n && i % Stride(n) == 0 ==> out[i] == 3 * i
  }

  /** The root's sampling loop: i = 0, Stride, 2*Stride, ... below N_total,
      stopping at the first sample that is not 3*i. */
  method CheckSamples(out: seq<int>, n: nat) returns (ok: bool)
    requires |out| >= n
    ensures ok <==> SamplesMatch(out, n)
  {
    var stride := n / 7 + 1;
    ok := true;
    var i := 0;
    while i < n
      invariant i % stride == 0
      invariant forall k :: 0 <= k < i && k < n && k % stride == 0 ==> out[k] == 3 * k
      decreases n - i
    {
      if out[i] != 3 * i {
        ok := false;
        break;
      }
      forall k | i < k < i + stride && k < n
        ensures k % stride != 0
      {
        NoMultipleInGap(i, stride, k);
      }
      ModAddPeriod(i, stride);
      i := i + stride;
    }
  }

  /** Between two consecutive multiples of s there is no other multiple. */
  lemma NoMultipleInGap(i: nat, s: nat, k: nat)
    requires s >= 1 && i % s == 0 && i < k < i + s
    ensures k % s != 0
  {
    DivModUnique(i, s, i / s, 0);
    DivModUnique(k, s, i / s, k - i);
  }

  lemma ModAddPeriod(i: nat, s: nat)
    requires s >= 1 && i % s == 0
    ensures (i + s) % s == 0
  {
    DivModUnique(i, s, i / s, 0);
    DivModUnique(i + s, s, i / s + 1, 0);
  }

  /** The run as written on p ranks: the first rank whose launch fails
      aborts it; otherwise the root gathers and checks the samples. */
  function ProgramAsWritten(argv: seq<string>, p: nat, buf: seq<int>): Result<bool, Failure>
    requires p >= 1 && |buf| == TotalSize(argv)
  {
    var n := TotalSize(argv);
    match FirstFailedRank(n, p, 0)
    case Some(r) => Err(InvalidLaunch(r))
    case None =>
      var chunks := seq(p, r requires 0 <= r < p => RankStepAsWritten(n, p, r).value);
      match GatherAsWritten(n, p, chunks, buf)
      case Err(e) => Err(e)
      case Ok(out) => Ok(SamplesMatch(out, n))
  }

  /** The lowest rank, from r on, whose launch fails. */
  function FirstFailedRank(n: nat, p: nat, r: nat): (m: Option<nat>)
    requires p >= 1 && r <= p
    ensures m.Some? ==> r <= m.value < p && RankStepAsWritten(n, p, m.value).Err?
    ensures m.None? <==> forall q :: r <= q < p ==> RankStepAsWritten(n, p, q).Ok?
    decreases p - r
  {
    if r == p then None
    else if RankStepAsWritten(n, p, r).Err? then Some(r)
    else FirstFailedRank(n, p, r + 1)
  }

  /** As written, a run on two or more ranks never reports success: with
      fewer elements than ranks a launch fails, and otherwise the gather
      misreads the counts (for N_total up to INT_MAX). */
  lemma ProgramAsWrittenFails(argv: seq<string>, p: nat, buf: seq<int>)
    requires p >= 2 && |buf| == TotalSize(argv) && 2 <= TotalSize(argv) <= IntMax
    ensures ProgramAsWritten(argv, p, buf).Err?
  {
    var n := TotalSize(argv);
    if FirstFailedRank(n, p, 0).None? {
      var chunks := seq(p, r requires 0 <= r < p => RankStepAsWritten(n, p, r).value);
      forall r | 0 <= r < p
        ensures chunks[r] == RankStep(n, p, r)
      {
        RankStepAsWrittenFailsOnEmptyRanks(n, p, r);
      }
      assert chunks == seq(p, r requires 0 <= r < p => RankStep(n, p, r));
      GatherAsWrittenMisreadsCounts(n, p, buf);
    }
  }

  /** The run with empty ranks skipping the launch and int count and
      displacement tables. */
  function Program(argv: seq<string>, p: nat, buf: seq<int>): (res: Result<bool, Failure>)
    requires p >= 1 && |buf| == TotalSize(argv)
  {
    var n := TotalSize(argv);
    var chunks := seq(p, r requires 0 <= r < p => RankStep(n, p, r));
    match Gatherv(chunks, Counts(n, p), OffsetTable(n, p), buf)
    case Err(e) => Err(e)
    case Ok(out) => Ok(SamplesMatch(out, n))
  }

  /** Every index of the gathered vector holds 3*i, so the check passes on
      any number of ranks and any N_total. */
  lemma ProgramReportsOK(argv: seq<string>, p: nat, buf: seq<int>)
    requires p >= 1 && |buf| == TotalSize(argv)
    ensures Program(argv, p, buf) == Ok(true)
  {
    var n := TotalSize(argv);
    var chunks := seq(p, r requires 0 <= r < p => RankStep(n, p, r));
    var chunks' := seq(p, r requires 0 <= r < p => Chunk(n, p, r, Tripled));
    assert chunks == chunks';
    GathervOfPartition(n, p, Tripled, Counts(n, p), OffsetTable(n, p), buf);
    var out := Gatherv(chunks, Counts(n, p), OffsetTable(n, p), buf).value;
    assert SamplesMatch(out, n);
  }
}
