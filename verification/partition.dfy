/** Block row distribution: n items (matrix rows, vector elements) split over
    p ranks so that the first n % p ranks hold one item more than the rest,
    and every rank's range starts where the previous one ends.  Every sample
    program uses this one rule, either as the prefix-sum table of
    `split_sizes` or in the closed form `rank*base + min(rank, rem)`. */
module Partition {
  import opened Common

  /** Items held by rank i. */
  function Count(n: nat, p: nat, i: nat): (c: nat)
    requires p >= 1
    ensures c == n / p || c == n / p + 1
    ensures c == n / p + 1 <==> i < n % p
  {
    n / p + (if i < n % p then 1 else 0)
  }

  /** First item of rank i, in the closed form the C and Python samples use. */
  function Start(n: nat, p: nat, i: nat): nat
    requires p >= 1
  {
    i * (n / p) + Min(i, n % p)
  }

  /** One past the last item of rank i. */
  function End(n: nat, p: nat, i: nat): nat
    requires p >= 1
  {
    Start(n, p, i) + Count(n, p, i)
  }

  /** The per-rank counts as a table, rank 0 first. */
  function Counts(n: nat, p: nat): (cs: seq<int>)
    requires p >= 1
    ensures |cs| == p
    ensures forall i :: 0 <= i < p ==> cs[i] == Count(n, p, i)
  {
    seq(p, i requires 0 <= i => Count(n, p, i))
  }

  /** Consecutive ranges abut: rank i ends where rank i + 1 starts. */
  lemma EndIsNextStart(n: nat, p: nat, i: nat)
    requires p >= 1
    ensures End(n, p, i) == Start(n, p, i + 1)
  {
    assert (i + 1) * (n / p) == i * (n / p) + n / p;
  }

  /** Rank 0 starts at 0 and rank p (one past the last) starts at n. */
  lemma StartBounds(n: nat, p: nat)
    requires p >= 1
    ensures Start(n, p, 0) == 0
    ensures Start(n, p, p) == n
  {
    assert n == p * (n / p) + n % p;
  }

  /** The closed-form start of rank i is the sum of the counts of all lower ranks. */
  lemma {:induction false} StartIsPrefixSum(n: nat, p: nat, i: nat)
    requires p >= 1 && i <= p
    ensures Start(n, p, i) == Sum(Counts(n, p)[..i])
  {
    if i == 0 {
      StartBounds(n, p);
    } else {
      StartIsPrefixSum(n, p, i - 1);
      SumPrefixStep(Counts(n, p), i - 1);
      EndIsNextStart(n, p, i - 1);
    }
  }

  /** The counts of all ranks add up to exactly n. */
  lemma CountsSumToN(n: nat, p: nat)
    requires p >= 1
    ensures Sum(Counts(n, p)) == n
  {
    StartIsPrefixSum(n, p, p);
    StartBounds(n, p);
    assert Counts(n, p)[..p] == Counts(n, p);
  }

  /** Starts never decrease with the rank. */
  lemma {:induction false} StartMonotone(n: nat, p: nat, i: nat, j: nat)
    requires p >= 1 && i <= j
    ensures Start(n, p, i) <= Start(n, p, j)
    decreases j - i
  {
    if i < j {
      EndIsNextStart(n, p, i);
      StartMonotone(n, p, i + 1, j);
    }
  }

  /** Every range lies inside [0, n). */
  lemma RangeInside(n: nat, p: nat, i: nat)
    requires p >= 1 && i < p
    ensures End(n, p, i) <= n
  {
    EndIsNextStart(n, p, i);
    StartMonotone(n, p, i + 1, p);
    StartBounds(n, p);
  }

  /** Ranks below k that hold the larger count. */
  function LargeRanks(n: nat, p: nat, k: nat): set<nat>
    requires p >= 1
  {
    set i: nat | i < k && Count(n, p, i) == n / p + 1
  }

  /** Exactly n % p ranks hold the larger count, and they are the lowest ones. */
  lemma {:induction false} LargerCountGoesToLowRanks(n: nat, p: nat, k: nat)
    requires p >= 1
    ensures |LargeRanks(n, p, k)| == Min(k, n % p)
    ensures forall i: nat :: i in LargeRanks(n, p, k) <==> i < Min(k, n % p)
  {
    LargeRanksAreLow(n, p, k);
    if k > 0 {
      LargerCountGoesToLowRanks(n, p, k - 1);
      LargeRanksAreLow(n, p, k - 1);
      if k - 1 < n % p {
        assert LargeRanks(n, p, k) == LargeRanks(n, p, k - 1) + {k - 1};
      } else {
        assert LargeRanks(n, p, k) == LargeRanks(n, p, k - 1);
      }
    } else {
      assert LargeRanks(n, p, k) == {};
    }
  }

  lemma LargeRanksAreLow(n: nat, p: nat, k: nat)
    requires p >= 1
    ensures forall i: nat :: i in LargeRanks(n, p, k) <==> i < Min(k, n % p)
  {
    forall i: nat
      ensures i in LargeRanks(n, p, k) <==> i < Min(k, n % p)
    {
      assert Count(n, p, i) == n / p + 1 <==> i < n % p;
    }
  }

  /** The rank whose range holds item g: the inverse of the distribution. */
  function RankOf(n: nat, p: nat, g: nat): (r: nat)
    requires p >= 1 && g < n
    ensures r < p
    ensures Start(n, p, r) <= g < End(n, p, r)
  {
    StartBounds(n, p);
    RankFrom(n, p, g, 0)
  }

  /** Search for the owner of g upwards from rank r, whose range starts at
      or before g. */
  function RankFrom(n: nat, p: nat, g: nat, r: nat): (o: nat)
    requires p >= 1 && g < n && r < p && Start(n, p, r) <= g
    ensures r <= o < p
    ensures Start(n, p, o) <= g < End(n, p, o)
    decreases p - r
  {
    EndIsNextStart(n, p, r);
    StartBounds(n, p);
    if g < End(n, p, r) || r + 1 == p then r else RankFrom(n, p, g, r + 1)
  }

  /** Item g lies in the range of rank r exactly when r is RankOf(g): the
      ranges are disjoint and together cover [0, n). */
  lemma RangesTile(n: nat, p: nat, g: nat, r: nat)
    requires p >= 1 && g < n && r < p
    ensures Start(n, p, r) <= g < End(n, p, r) <==> r == RankOf(n, p, g)
  {
    var o := RankOf(n, p, g);
    if r < o {
      EndIsNextStart(n, p, r);
      StartMonotone(n, p, r + 1, o);
    } else if o < r {
      EndIsNextStart(n, p, o);
      StartMonotone(n, p, o + 1, r);
    }
  }

  /** Concatenation of per-rank chunks in rank order, the layout a gather
      with prefix-sum displacements produces. */
  function Flatten(chunks: seq<seq<int>>): (out: seq<int>)
    ensures |out| == Sum(seq(|chunks|, r requires 0 <= r < |chunks| => |chunks[r]|))
  {
    if |chunks| == 0 then []
    else
      var lens := seq(|chunks|, r requires 0 <= r < |chunks| => |chunks[r]|);
      var front := chunks[..|chunks| - 1];
      assert lens[..|chunks| - 1] == seq(|front|, r requires 0 <= r < |front| => |front[r]|);
      Flatten(front) + chunks[|chunks| - 1]
  }

  /** The total of the concatenation is the total of the per-chunk totals. */
  lemma {:induction false} SumFlatten(chunks: seq<seq<int>>)
    ensures Sum(Flatten(chunks)) == Sum(seq(|chunks|, r requires 0 <= r < |chunks| => Sum(chunks[r])))
  {
    var totals := seq(|chunks|, r requires 0 <= r < |chunks| => Sum(chunks[r]));
    if |chunks| > 0 {
      var front := chunks[..|chunks| - 1];
      SumFlatten(front);
      SumConcat(Flatten(front), chunks[|chunks| - 1]);
      assert totals[..|chunks| - 1] == seq(|front|, r requires 0 <= r < |front| => Sum(front[r]));
    }
  }

  /** The global index itself, for blocks that hold their own indices. */
  function Identity(g: int): int
  {
    g
  }

  /** Chunk of rank r when every rank holds f applied to its own global indices. */
  function Chunk(n: nat, p: nat, r: nat, f: int -> int): (c: seq<int>)
    requires p >= 1
    ensures |c| == Count(n, p, r)
    ensures forall i :: 0 <= i < |c| ==> c[i] == f(Start(n, p, r) + i)
  {
    seq(Count(n, p, r), i requires 0 <= i => f(Start(n, p, r) + i))
  }

  /** Laying the chunks of the first m ranks end to end reproduces f over the
      global indices [0, Start(m)): every index appears once, in order. */
  lemma {:induction false} FlattenChunks(n: nat, p: nat, m: nat, f: int -> int)
    requires p >= 1 && m <= p
    ensures Flatten(seq(m, r requires 0 <= r < m => Chunk(n, p, r, f)))
         == seq(Start(n, p, m), g requires 0 <= g => f(g))
  {
    var cs := seq(m, r requires 0 <= r < m => Chunk(n, p, r, f));
    if m == 0 {
      StartBounds(n, p);
    } else {
      FlattenChunks(n, p, m - 1, f);
      assert cs[..m - 1] == seq(m - 1, r requires 0 <= r < m - 1 => Chunk(n, p, r, f));
      EndIsNextStart(n, p, m - 1);
      var whole := seq(Start(n, p, m), g requires 0 <= g => f(g));
      var front := seq(Start(n, p, m - 1), g requires 0 <= g => f(g));
      var last := Chunk(n, p, m - 1, f);
      assert whole == front + last by {
        forall g | 0 <= g < |whole|
          ensures whole[g] == (front + last)[g]
        {
          if g >= |front| {
            assert last[g - |front|] == f(g);
          }
        }
      }
    }
  }

  /** `split_sizes`: the count table and the prefix-sum offset table. */
  method SplitSizes(n: nat, p: nat) returns (counts: seq<int>, offs: seq<int>)
    requires p >= 1
    ensures |counts| == p && |offs| == p
    ensures Sum(counts) == n
    ensures forall i :: 0 <= i < p ==> counts[i] == n / p || counts[i] == n / p + 1
    ensures forall i :: 0 <= i < p ==> (counts[i] == n / p + 1 <==> i < n % p)
    ensures offs[0] == 0
    ensures forall i :: 0 < i < p ==> offs[i] == offs[i - 1] + counts[i - 1]
    ensures forall i :: 0 <= i < p ==> offs[i] == Start(n, p, i)
    ensures forall i :: 0 <= i < p ==> offs[i] + counts[i] <= n
  {
    counts := CountTable(n, p);
    CountsSumToN(n, p);
    offs := PrefixOffsets(n, p, counts);
    forall j | 0 <= j < p
      ensures offs[j] + counts[j] <= n
    {
      RangeInside(n, p, j);
    }
  }

  /** First half of `split_sizes`: base count plus one for the low ranks. */
  method CountTable(n: nat, p: nat) returns (counts: seq<int>)
    requires p >= 1
    ensures counts == Counts(n, p)
  {
    var base := n / p;
    var r := n % p;
    counts := [];
    var i := 0;
    while i < p
      invariant 0 <= i <= p
      invariant |counts| == i
      invariant forall j :: 0 <= j < i ==> counts[j] == Count(n, p, j)
    {
      counts := counts + [if i < r then base + 1 else base];
      i := i + 1;
    }
  }

  /** Second half of `split_sizes`: each offset is the previous offset plus
      the previous count, which lands on the closed-form start. */
  method PrefixOffsets(n: nat, p: nat, counts: seq<int>) returns (offs: seq<int>)
    requires p >= 1 && counts == Counts(n, p)
    ensures |offs| == p && offs[0] == 0
    ensures forall i :: 0 < i < p ==> offs[i] == offs[i - 1] + counts[i - 1]
    ensures forall i :: 0 <= i < p ==> offs[i] == Start(n, p, i)
  {
    offs := seq(p, _ => 0);
    var i := 1;
    StartBounds(n, p);
    while i < p
      invariant 1 <= i <= p
      invariant |offs| == p
      invariant offs[0] == 0
      invariant forall j :: 0 < j < i ==> offs[j] == offs[j - 1] + counts[j - 1]
      invariant forall j :: 0 <= j < i ==> offs[j] == Start(n, p, j)
    {
      EndIsNextStart(n, p, i - 1);
      offs := offs[i := offs[i - 1] + counts[i - 1]];
      i := i + 1;
    }
  }
}
