/** The ring panel-rotation matrix multiply of
    tutorial/languages/python/profiling/mpi/test.py, with all ranks simulated
    together round by round.  Rank k holds rows [Start(k), End(k)) of A and of
    C, and one row panel of B tagged with the rank it came from (its owner).
    In every round each rank multiplies the matching column slice of its A
    block by the panel and adds the result into its C block; then every panel
    moves one rank to the right, which is the simultaneous `Sendrecv` of all
    ranks.  Entries are integers instead of float64. */
module RingMatMul {
  import opened Common
  import opened Matrices
  import opened Partition
  import opened RingTopology
  import Numeric

  /** What one rank holds: its A block, the B panel it currently has with
      that panel's owner, and its C block. */
  datatype RankState = RankState(aLocal: Matrix, panel: Matrix, owner: nat, cLocal: Matrix)

  /** A receive buffer whose size does not match the arriving panel: the
      round (the message tag) and the receiving rank. */
  datatype CommFailure = SizeMismatch(round: nat, rank: nat)

  /** Block shapes of rank k: m x n blocks of A and C, and a panel with as
      many rows as its owner's range. */
  predicate Shaped(w: RankState, k: nat, n: nat, p: nat)
    requires p >= 1
  {
    && w.owner < p
    && IsMatrix(w.aLocal, Count(n, p, k), n)
    && IsMatrix(w.panel, Count(n, p, w.owner), n)
    && IsMatrix(w.cLocal, Count(n, p, k), n)
  }

  predicate AllShaped(ws: seq<RankState>, n: nat, p: nat)
    requires p >= 1
  {
    |ws| == p && forall k :: 0 <= k < p ==> Shaped(ws[k], k, n, p)
  }

  /** The local GEMM of one round (`C_local += A_local[:, ks:ke] @ B_curr`),
      skipped when the rank has no rows or the held panel has none. */
  function Multiply(w: RankState, k: nat, n: nat, p: nat): (w': RankState)
    requires p >= 1 && Shaped(w, k, n, p)
    ensures Shaped(w', k, n, p)
    ensures w'.aLocal == w.aLocal && w'.panel == w.panel && w'.owner == w.owner
    ensures Count(n, p, k) == 0 || Count(n, p, w.owner) == 0 ==> w' == w
  {
    RangeInside(n, p, w.owner);
    var ks := Start(n, p, w.owner);
    var ke := ks + Count(n, p, w.owner);
    var m := Count(n, p, k);
    if m > 0 && Count(n, p, w.owner) > 0 then
      w.(cLocal := MatAdd(w.cLocal, MatMul(ColSlice(w.aLocal, ks, ke), w.panel, n), m, n))
    else
      w
  }

  /** Rank k's receive buffer, sized by its next owner, matches the panel its
      left neighbour sends. */
  predicate RecvFits(ws: seq<RankState>, k: nat, n: nat, p: nat)
    requires p >= 1 && |ws| == p && k < p && ws[k].owner < p
  {
    |ws[Left(k, p)].panel| == Count(n, p, NextOwner(ws[k].owner, p))
  }

  predicate OwnersInRange(ws: seq<RankState>, p: nat)
  {
    forall j :: 0 <= j < |ws| ==> ws[j].owner < p
  }

  /** The lowest rank at or above k whose receive buffer does not fit. */
  function FirstMisfit(ws: seq<RankState>, n: nat, p: nat, k: nat): (r: Option<nat>)
    requires p >= 1 && |ws| == p && k <= p && OwnersInRange(ws, p)
    ensures r.Some? ==> k <= r.value < p && !RecvFits(ws, r.value, n, p)
    ensures r.None? <==> forall j :: k <= j < p ==> RecvFits(ws, j, n, p)
    decreases p - k
  {
    if k == p then None
    else if !RecvFits(ws, k, n, p) then Some(k)
    else FirstMisfit(ws, n, p, k + 1)
  }

  /** The rank after the exchange: the left neighbour's panel, next owner. */
  function Receive(ws: seq<RankState>, k: nat, p: nat): RankState
    requires p >= 1 && |ws| == p && k < p && OwnersInRange(ws, p)
  {
    ws[k].(panel := ws[Left(k, p)].panel, owner := NextOwner(ws[k].owner, p))
  }

  /** One exchange of all ranks at round `step`: every rank sends its panel to
      the right and receives from the left into a buffer sized for its next
      owner; with a single rank nothing is sent.  A size mismatch anywhere is
      fatal for the whole collective. */
  function Exchange(ws: seq<RankState>, n: nat, p: nat, step: nat): (r: Result<seq<RankState>, CommFailure>)
    requires p >= 1 && |ws| == p && OwnersInRange(ws, p)
    ensures r.Ok? && p == 1 ==> r.value == ws
    ensures r.Ok? && p > 1 ==> |r.value| == p && forall k :: 0 <= k < p ==> r.value[k] == Receive(ws, k, p)
  {
    if p == 1 then Ok(ws)
    else
      match FirstMisfit(ws, n, p, 0)
      case Some(k) => Err(SizeMismatch(step, k))
      case None => Ok(seq(p, k requires 0 <= k < p => Receive(ws, k, p)))
  }

  /** The exchange fails exactly when some rank's receive buffer does not
      fit, and then it reports the round and a rank whose buffer does not. */
  lemma ExchangeFailsOnMisfit(ws: seq<RankState>, n: nat, p: nat, step: nat)
    requires p >= 1 && |ws| == p && OwnersInRange(ws, p)
    ensures Exchange(ws, n, p, step).Err? <==> p > 1 && exists k :: 0 <= k < p && !RecvFits(ws, k, n, p)
    ensures Exchange(ws, n, p, step).Err? ==>
              var e := Exchange(ws, n, p, step).error;
              e.round == step && e.rank < p && !RecvFits(ws, e.rank, n, p)
  {
  }

  /** Every exchange that succeeds hands each rank a panel shaped for its new owner. */
  lemma ExchangeKeepsShape(ws: seq<RankState>, n: nat, p: nat, step: nat)
    requires p >= 1 && AllShaped(ws, n, p)
    ensures OwnersInRange(ws, p)
    ensures Exchange(ws, n, p, step).Ok? ==> AllShaped(Exchange(ws, n, p, step).value, n, p)
  {
    var r := Exchange(ws, n, p, step);
    ExchangeFailsOnMisfit(ws, n, p, step);
    if r.Ok? && p > 1 {
      forall k | 0 <= k < p
        ensures Shaped(r.value[k], k, n, p)
      {
        assert RecvFits(ws, k, n, p);
      }
    }
  }

  /** One round: every rank multiplies, then the panels rotate. */
  function Round(ws: seq<RankState>, n: nat, p: nat, step: nat): (r: Result<seq<RankState>, CommFailure>)
    requires p >= 1 && AllShaped(ws, n, p)
    ensures r.Ok? ==> AllShaped(r.value, n, p)
  {
    var mid := seq(p, k requires 0 <= k < p => Multiply(ws[k], k, n, p));
    ExchangeKeepsShape(mid, n, p, step);
    Exchange(mid, n, p, step)
  }

  /** A round function that applies to every state shaped for (n, p) and,
      when it succeeds, leaves the states shaped. */
  ghost predicate KeepsShape(round: (seq<RankState>, nat) --> Result<seq<RankState>, CommFailure>, n: nat, p: nat)
    requires p >= 1
  {
    forall vs: seq<RankState>, t: nat {:trigger round.requires(vs, t)} :: AllShaped(vs, n, p) ==>
      round.requires(vs, t) && (round(vs, t).Ok? ==> AllShaped(round(vs, t).value, n, p))
  }

  /** Round as a function value, so that the loop over the rounds can be
      stated once for any round. */
  function RoundFn(n: nat, p: nat): (f: (seq<RankState>, nat) --> Result<seq<RankState>, CommFailure>)
    requires p >= 1
    ensures KeepsShape(f, n, p)
    ensures forall vs: seq<RankState>, t: nat :: AllShaped(vs, n, p) ==> f.requires(vs, t) && f(vs, t) == Round(vs, n, p, t)
  {
    (vs: seq<RankState>, t: nat) requires AllShaped(vs, n, p) => Round(vs, n, p, t)
  }

  /** `remaining` rounds starting at round `step`, stopping at the first
      failure (the `for step in range(size)` loop). */
  function RunRounds(round: (seq<RankState>, nat) --> Result<seq<RankState>, CommFailure>,
                     ws: seq<RankState>, n: nat, p: nat, step: nat, remaining: nat): (r: Result<seq<RankState>, CommFailure>)
    requires p >= 1 && KeepsShape(round, n, p) && AllShaped(ws, n, p)
    ensures r.Ok? ==> AllShaped(r.value, n, p)
    decreases remaining
  {
    if remaining == 0 then Ok(ws)
    else
      assert round.requires(ws, step);
      match round(ws, step)
      case Err(e) => Err(e)
      case Ok(next) => RunRounds(round, next, n, p, step + 1, remaining - 1)
  }

  /** Rank k before round 0: its own rows of A and B, owner k, C all zero. */
  function InitialState(a: Matrix, b: Matrix, n: nat, p: nat, k: nat): (w: RankState)
    requires p >= 1 && k < p && IsMatrix(a, n, n) && IsMatrix(b, n, n)
    ensures Shaped(w, k, n, p)
  {
    RangeInside(n, p, k);
    RankState(a[Start(n, p, k)..End(n, p, k)], b[Start(n, p, k)..End(n, p, k)], k,
              Constant(Count(n, p, k), n, 0))
  }

  function InitialStates(a: Matrix, b: Matrix, n: nat, p: nat): (ws: seq<RankState>)
    requires p >= 1 && IsMatrix(a, n, n) && IsMatrix(b, n, n)
    ensures AllShaped(ws, n, p)
  {
    seq(p, k requires 0 <= k < p => InitialState(a, b, n, p, k))
  }

  /** The whole ring multiply: `size` rounds from the initial distribution. */
  function RingMultiply(a: Matrix, b: Matrix, n: nat, p: nat): (r: Result<seq<RankState>, CommFailure>)
    requires p >= 1 && IsMatrix(a, n, n) && IsMatrix(b, n, n)
    ensures r.Ok? ==> AllShaped(r.value, n, p)
  {
    RunRounds(RoundFn(n, p), InitialStates(a, b, n, p), n, p, 0, p)
  }

  // ----- Correctness of the rotation -----

  /** The partial inner product of entry (row, j) of A*B over owner o's range. */
  function BlockTerm(a: Matrix, b: Matrix, n: nat, p: nat, row: nat, j: nat, o: nat): int
    requires p >= 1 && IsMatrix(a, n, n) && IsMatrix(b, n, n) && row < n && j < n && o < p
  {
    RangeInside(n, p, o);
    RowColSum(a, row, b, j, Start(n, p, o), End(n, p, o))
  }

  /** Entry (row, j) of A*B split into one term per owner range. */
  function BlockTerms(a: Matrix, b: Matrix, n: nat, p: nat, row: nat, j: nat): (gs: seq<int>)
    requires p >= 1 && IsMatrix(a, n, n) && IsMatrix(b, n, n) && row < n && j < n
    ensures |gs| == p
    ensures forall o :: 0 <= o < p ==> gs[o] == BlockTerm(a, b, n, p, row, j, o)
  {
    seq(p, o requires 0 <= o < p => BlockTerm(a, b, n, p, row, j, o))
  }

  /** The per-owner terms of the first m owners add up to the inner product
      over [0, Start(m)); over all owners, to the full entry of A*B. */
  lemma {:induction false} BlockTermsTelescope(a: Matrix, b: Matrix, n: nat, p: nat, row: nat, j: nat, m: nat)
    requires p >= 1 && IsMatrix(a, n, n) && IsMatrix(b, n, n) && row < n && j < n && m <= p
    ensures Start(n, p, m) <= n
    ensures Sum(BlockTerms(a, b, n, p, row, j)[..m]) == RowColSum(a, row, b, j, 0, Start(n, p, m))
  {
    StartMonotone(n, p, m, p);
    StartBounds(n, p);
    if m > 0 {
      BlockTermsTelescope(a, b, n, p, row, j, m - 1);
      SumPrefixStep(BlockTerms(a, b, n, p, row, j), m - 1);
      EndIsNextStart(n, p, m - 1);
      RowColSumSplit(a, row, b, j, 0, Start(n, p, m - 1), Start(n, p, m));
    }
  }

  /** What rank k holds, given the global A and B: the panel of the owner
      of round t, and a C block that has summed the terms of rounds 0 .. s-1.
      At the start of round s both t and s are s. */
  predicate Holds(w: RankState, k: nat, a: Matrix, b: Matrix, n: nat, p: nat, t: nat, s: nat)
    requires p >= 1 && k < p && s <= p && IsMatrix(a, n, n) && IsMatrix(b, n, n)
  {
    RangeInside(n, p, k);
    var o := OwnerAt(k, t, p);
    RangeInside(n, p, o);
    && w.owner == o
    && w.aLocal == a[Start(n, p, k)..End(n, p, k)]
    && w.panel == b[Start(n, p, o)..End(n, p, o)]
    && IsMatrix(w.cLocal, Count(n, p, k), n)
    && forall i, j :: 0 <= i < Count(n, p, k) && 0 <= j < n ==>
         w.cLocal[i][j] == RotSum(BlockTerms(a, b, n, p, Start(n, p, k) + i, j), k, s)
  }

  /** The state of all ranks at the start of round s. */
  predicate Invariant(ws: seq<RankState>, a: Matrix, b: Matrix, n: nat, p: nat, s: nat)
    requires p >= 1 && s <= p && IsMatrix(a, n, n) && IsMatrix(b, n, n)
  {
    AllShaped(ws, n, p) && forall k :: 0 <= k < p ==> Holds(ws[k], k, a, b, n, p, s, s)
  }

  lemma InitialInvariant(a: Matrix, b: Matrix, n: nat, p: nat)
    requires p >= 1 && IsMatrix(a, n, n) && IsMatrix(b, n, n)
    ensures Invariant(InitialStates(a, b, n, p), a, b, n, p, 0)
  {
    forall k | 0 <= k < p
      ensures Holds(InitialStates(a, b, n, p)[k], k, a, b, n, p, 0, 0)
    {
      OwnerCycle(k, p);
    }
  }

  /** The local GEMM of round s adds exactly the term of the owner held at round s. */
  lemma MultiplyAddsOwnerTerm(w: RankState, k: nat, a: Matrix, b: Matrix, n: nat, p: nat, s: nat,
                              i: nat, j: nat)
    requires p >= 1 && k < p && s < p && IsMatrix(a, n, n) && IsMatrix(b, n, n)
    requires Shaped(w, k, n, p) && Holds(w, k, a, b, n, p, s, s)
    requires i < Count(n, p, k) && j < n
    ensures End(n, p, k) <= n
    ensures Multiply(w, k, n, p).cLocal[i][j]
         == RotSum(BlockTerms(a, b, n, p, Start(n, p, k) + i, j), k, s + 1)
  {
    RangeInside(n, p, k);
    RangeInside(n, p, w.owner);
    MultiplyEntry(w, k, a, b, n, p, i, j);
    var gs := BlockTerms(a, b, n, p, Start(n, p, k) + i, j);
    assert RotSum(gs, k, s + 1) == RotSum(gs, k, s) + gs[w.owner];
  }

  /** Entry (i, j) of the local GEMM adds the partial inner product of the
      global row over the held panel's range. */
  lemma MultiplyEntry(w: RankState, k: nat, a: Matrix, b: Matrix, n: nat, p: nat, i: nat, j: nat)
    requires p >= 1 && k < p && IsMatrix(a, n, n) && IsMatrix(b, n, n)
    requires Shaped(w, k, n, p) && End(n, p, k) <= n && End(n, p, w.owner) <= n
    requires w.aLocal == a[Start(n, p, k)..End(n, p, k)]
    requires w.panel == b[Start(n, p, w.owner)..End(n, p, w.owner)]
    requires i < Count(n, p, k) && j < n
    ensures Multiply(w, k, n, p).cLocal[i][j]
         == w.cLocal[i][j] + BlockTerm(a, b, n, p, Start(n, p, k) + i, j, w.owner)
  {
    var o := w.owner;
    var ks := Start(n, p, o);
    var row := Start(n, p, k) + i;
    if Count(n, p, o) > 0 {
      var u := ColSlice(w.aLocal, ks, End(n, p, o));
      assert forall q :: 0 <= q < Count(n, p, o) ==> u[i][q] == a[row][ks + q];
      assert forall q :: 0 <= q < Count(n, p, o) ==> w.panel[q][j] == b[ks + q][j];
      RowColSumShift(u, i, w.panel, a, row, b, j, ks, Count(n, p, o));
      assert MatMul(u, w.panel, n)[i][j] == RowColSum(u, i, w.panel, j, 0, |w.panel|);
    }
  }

  lemma MultiplyAdvancesSum(w: RankState, k: nat, a: Matrix, b: Matrix, n: nat, p: nat, s: nat)
    requires p >= 1 && k < p && s < p && IsMatrix(a, n, n) && IsMatrix(b, n, n)
    requires Shaped(w, k, n, p) && Holds(w, k, a, b, n, p, s, s)
    ensures Holds(Multiply(w, k, n, p), k, a, b, n, p, s, s + 1)
  {
    forall i, j | 0 <= i < Count(n, p, k) && 0 <= j < n
      ensures End(n, p, k) <= n
      ensures Multiply(w, k, n, p).cLocal[i][j]
           == RotSum(BlockTerms(a, b, n, p, Start(n, p, k) + i, j), k, s + 1)
    {
      MultiplyAddsOwnerTerm(w, k, a, b, n, p, s, i, j);
    }
  }

  /** The exchange hands rank k the panel of its owner for the next round. */
  lemma ReceiveAdvancesOwner(mid: seq<RankState>, k: nat, a: Matrix, b: Matrix, n: nat, p: nat, s: nat)
    requires p > 1 && k < p && s < p && IsMatrix(a, n, n) && IsMatrix(b, n, n)
    requires |mid| == p && OwnersInRange(mid, p)
    requires forall j :: 0 <= j < p ==> Holds(mid[j], j, a, b, n, p, s, s + 1)
    ensures RecvFits(mid, k, n, p)
    ensures Holds(Receive(mid, k, p), k, a, b, n, p, s + 1, s + 1)
  {
    OwnerAdvance(k, s, p);
    var l := Left(k, p);
    assert Holds(mid[l], l, a, b, n, p, s, s + 1);
    assert Holds(mid[k], k, a, b, n, p, s, s + 1);
    RangeInside(n, p, OwnerAt(k, s + 1, p));
  }

  /** One round keeps the invariant and advances it by one round; in
      particular no exchange fails. */
  lemma RoundStep(ws: seq<RankState>, a: Matrix, b: Matrix, n: nat, p: nat, s: nat)
    requires p >= 1 && s < p && IsMatrix(a, n, n) && IsMatrix(b, n, n)
    requires Invariant(ws, a, b, n, p, s)
    ensures Round(ws, n, p, s).Ok?
    ensures Invariant(Round(ws, n, p, s).value, a, b, n, p, s + 1)
  {
    var mid := seq(p, k requires 0 <= k < p => Multiply(ws[k], k, n, p));
    forall k | 0 <= k < p
      ensures Holds(mid[k], k, a, b, n, p, s, s + 1)
    {
      MultiplyAdvancesSum(ws[k], k, a, b, n, p, s);
    }
    ExchangeKeepsShape(mid, n, p, s);
    ExchangeFailsOnMisfit(mid, n, p, s);
    if p > 1 {
      forall k | 0 <= k < p
        ensures RecvFits(mid, k, n, p)
        ensures Holds(Receive(mid, k, p), k, a, b, n, p, s + 1, s + 1)
      {
        ReceiveAdvancesOwner(mid, k, a, b, n, p, s);
      }
    } else {
      assert OwnerAt(0, s + 1, p) == 0 == OwnerAt(0, s, p);
    }
  }

  /** Induction over the rounds: a property of the states that every round
      keeps (and that no round breaks by failing) holds after any number of
      rounds.  The property is a parameter so that each step is argued once,
      in RoundStep. */
  lemma {:induction false} RunKeeps(round: (seq<RankState>, nat) --> Result<seq<RankState>, CommFailure>,
                                    ws: seq<RankState>, n: nat, p: nat, s: nat, remaining: nat,
                                    inv: (seq<RankState>, nat) -> bool)
    requires p >= 1 && KeepsShape(round, n, p)
    requires s + remaining == p && AllShaped(ws, n, p) && inv(ws, s)
    requires forall vs: seq<RankState>, t: nat {:trigger round(vs, t)} :: t < p && AllShaped(vs, n, p) && inv(vs, t) ==>
               round.requires(vs, t) && round(vs, t).Ok? && inv(round(vs, t).value, t + 1)
    ensures RunRounds(round, ws, n, p, s, remaining).Ok?
    ensures inv(RunRounds(round, ws, n, p, s, remaining).value, p)
    decreases remaining
  {
    if remaining > 0 {
      assert round.requires(ws, s);
      var r := round(ws, s);
      RunKeeps(round, r.value, n, p, s + 1, remaining - 1, inv);
    }
  }

  /** Every round keeps the invariant, advanced by one round. */
  lemma RoundsKeepInvariant(a: Matrix, b: Matrix, n: nat, p: nat)
    requires p >= 1 && IsMatrix(a, n, n) && IsMatrix(b, n, n)
    ensures forall vs: seq<RankState>, t: nat :: t < p && AllShaped(vs, n, p) && Stage(a, b, n, p)(vs, t) ==>
              RoundFn(n, p).requires(vs, t) && RoundFn(n, p)(vs, t).Ok? &&
              Stage(a, b, n, p)(RoundFn(n, p)(vs, t).value, t + 1)
  {
    forall vs: seq<RankState>, t: nat | t < p && AllShaped(vs, n, p) && Stage(a, b, n, p)(vs, t)
      ensures RoundFn(n, p).requires(vs, t) && RoundFn(n, p)(vs, t).Ok? &&
              Stage(a, b, n, p)(RoundFn(n, p)(vs, t).value, t + 1)
    {
      RoundStep(vs, a, b, n, p, t);
    }
  }

  /** The invariant as a property of (states, round): before round t <= p. */
  function Stage(a: Matrix, b: Matrix, n: nat, p: nat): (inv: (seq<RankState>, nat) -> bool)
    requires p >= 1 && IsMatrix(a, n, n) && IsMatrix(b, n, n)
    ensures forall vs: seq<RankState>, t: nat :: inv(vs, t) <==> t <= p && Invariant(vs, a, b, n, p, t)
  {
    (vs: seq<RankState>, t: nat) => t <= p && Invariant(vs, a, b, n, p, t)
  }

  /** After all rounds the C block of rank k is its row block of A*B. */
  lemma FinalBlockIsProduct(w: RankState, k: nat, a: Matrix, b: Matrix, n: nat, p: nat)
    requires p >= 1 && k < p && IsMatrix(a, n, n) && IsMatrix(b, n, n)
    requires Holds(w, k, a, b, n, p, p, p)
    ensures End(n, p, k) <= n && w.owner == k
    ensures w.cLocal == MatMul(a, b, n)[Start(n, p, k)..End(n, p, k)]
  {
    RangeInside(n, p, k);
    OwnerCycle(k, p);
    var block := MatMul(a, b, n)[Start(n, p, k)..End(n, p, k)];
    forall i, j | 0 <= i < Count(n, p, k) && 0 <= j < n
      ensures w.cLocal[i][j] == block[i][j]
    {
      FinalEntry(w, k, a, b, n, p, i, j);
    }
    EqualByEntries(w.cLocal, block, Count(n, p, k), n);
  }

  /** After all p rounds an entry has summed every owner's term once, which
      is the entry of A*B. */
  lemma FinalEntry(w: RankState, k: nat, a: Matrix, b: Matrix, n: nat, p: nat, i: nat, j: nat)
    requires p >= 1 && k < p && IsMatrix(a, n, n) && IsMatrix(b, n, n)
    requires Holds(w, k, a, b, n, p, p, p)
    requires i < Count(n, p, k) && j < n
    ensures Start(n, p, k) + i < n
    ensures w.cLocal[i][j] == MatMul(a, b, n)[Start(n, p, k) + i][j]
  {
    RangeInside(n, p, k);
    var row := Start(n, p, k) + i;
    var gs := BlockTerms(a, b, n, p, row, j);
    assert w.cLocal[i][j] == RotSum(gs, k, p);
    RotationCoversAll(gs, k);
    BlockTermsTelescope(a, b, n, p, row, j, p);
    StartBounds(n, p);
    assert gs[..p] == gs;
  }

  /** After `size` rounds no exchange has failed, every rank holds its own
      panel again, and every rank's C block equals its row block of A*B. */
  lemma RingMultiplyComputesProduct(a: Matrix, b: Matrix, n: nat, p: nat)
    requires p >= 1 && IsMatrix(a, n, n) && IsMatrix(b, n, n)
    ensures RingMultiply(a, b, n, p).Ok?
    ensures var ws := RingMultiply(a, b, n, p).value;
            |ws| == p &&
            forall k :: 0 <= k < p ==>
              End(n, p, k) <= n && ws[k].owner == k &&
              ws[k].cLocal == MatMul(a, b, n)[Start(n, p, k)..End(n, p, k)]
  {
    InitialInvariant(a, b, n, p);
    RoundsKeepInvariant(a, b, n, p);
    RunKeeps(RoundFn(n, p), InitialStates(a, b, n, p), n, p, 0, p, Stage(a, b, n, p));
    var ws := RingMultiply(a, b, n, p).value;
    forall k | 0 <= k < p
      ensures End(n, p, k) <= n && ws[k].owner == k
      ensures ws[k].cLocal == MatMul(a, b, n)[Start(n, p, k)..End(n, p, k)]
    {
      FinalBlockIsProduct(ws[k], k, a, b, n, p);
    }
  }

  /** With one rank there is no exchange and the result is the plain product. */
  lemma SingleRankIsPlainProduct(a: Matrix, b: Matrix, n: nat)
    requires IsMatrix(a, n, n) && IsMatrix(b, n, n)
    ensures RingMultiply(a, b, n, 1).Ok?
    ensures RingMultiply(a, b, n, 1).value[0].cLocal == MatMul(a, b, n)
  {
    RingMultiplyComputesProduct(a, b, n, 1);
    StartBounds(n, 1);
    assert MatMul(a, b, n)[0..n] == MatMul(a, b, n);
  }

  // ----- Verification harness -----

  /** Command line of the program: exactly one argument, which must read as
      an integer N >= 1; otherwise exit status 1. */
  function ParseSize(argv: seq<string>): (r: Result<nat, nat>)
    ensures r.Err? ==> r.error == 1
    ensures r.Ok? ==> r.value >= 1
  {
    if |argv| != 2 then Err(1)
    else
      match Numeric.ParseStrictInt(argv[1])
      case None => Err(1)
      case Some(v) => if v >= 1 then Ok(v) else Err(1)
  }

  /** A positive numeral is accepted as N; zero or a negative one, or a
      missing or extra argument, is rejected. */
  lemma ParseSizeAcceptsExactlyPositive(prog: string, v: int)
    ensures ParseSize([prog, Numeric.ShowInt(v)]) == (if v >= 1 then Ok(v) else Err(1))
    ensures ParseSize([prog]) == Err(1)
    ensures ParseSize([prog, Numeric.ShowInt(v), Numeric.ShowInt(v)]) == Err(1)
  {
    Numeric.StrictParsesShown(v);
  }

  function Abs(x: int): nat
  {
    if x < 0 then -x else x
  }

  /** Largest |x - expected| over one row, 0 for an empty row. */
  function RowError(row: seq<int>, expected: int): (e: nat)
    ensures forall j :: 0 <= j < |row| ==> Abs(row[j] - expected) <= e
    ensures e == 0 || exists j :: 0 <= j < |row| && Abs(row[j] - expected) == e
  {
    if |row| == 0 then 0
    else
      var e := RowError(row[..|row| - 1], expected);
      assert forall j :: 0 <= j < |row| - 1 ==> row[..|row| - 1][j] == row[j];
      Max(e, Abs(row[|row| - 1] - expected))
  }

  function BlockError(c: Matrix, expected: int): (e: nat)
    ensures forall i, j :: 0 <= i < |c| && 0 <= j < |c[i]| ==> Abs(c[i][j] - expected) <= e
    ensures e == 0 || exists i, j :: 0 <= i < |c| && 0 <= j < |c[i]| && Abs(c[i][j] - expected) == e
  {
    if |c| == 0 then 0
    else
      var e := BlockError(c[..|c| - 1], expected);
      assert forall i :: 0 <= i < |c| - 1 ==> c[..|c| - 1][i] == c[i];
      Max(e, RowError(c[|c| - 1], expected))
  }

  /** The local error of the check: the largest deviation of the C block
      from N, or 0 when the block has no entries. */
  function LocalError(c: Matrix, rows: nat, cols: nat, expected: int): (e: nat)
    requires IsMatrix(c, rows, cols)
    ensures forall i, j :: 0 <= i < rows && 0 <= j < cols ==> Abs(c[i][j] - expected) <= e
    ensures e == 0 <==> forall i, j :: 0 <= i < rows && 0 <= j < cols ==> c[i][j] == expected
  {
    if rows * cols > 0 then BlockError(c, expected)
    else
      assert rows == 0 || cols == 0;
      0
  }

  /** The maximum reduction of one value per rank (`allreduce(op=MAX)`). */
  function AllreduceMax(xs: seq<nat>): (m: nat)
    ensures forall k :: 0 <= k < |xs| ==> xs[k] <= m
    ensures m == 0 || exists k :: 0 <= k < |xs| && xs[k] == m
  {
    if |xs| == 0 then 0
    else
      var m := AllreduceMax(xs[..|xs| - 1]);
      assert forall k :: 0 <= k < |xs| - 1 ==> xs[..|xs| - 1][k] == xs[k];
      Max(m, xs[|xs| - 1])
  }

  /** The program on `size` ranks: read N, multiply the all-ones matrices
      around the ring and report the global maximum error, or the exit
      status. */
  function Program(argv: seq<string>, size: nat): Result<nat, nat>
    requires size >= 1
  {
    match ParseSize(argv)
    case Err(code) => Err(code)
    case Ok(n) =>
      var ones := Constant(n, n, 1);
      match RingMultiply(ones, ones, n, size)
      case Err(_) => Err(1)
      case Ok(ws) =>
        Ok(AllreduceMax(seq(size, k requires 0 <= k < size => LocalError(ws[k].cLocal, Count(n, size, k), n, n))))
  }

  /** A C block that is the matching row block of ones*ones has no error. */
  lemma OnesBlockHasNoError(c: Matrix, k: nat, n: nat, p: nat)
    requires p >= 1 && k < p
    requires End(n, p, k) <= n
    requires c == MatMul(Constant(n, n, 1), Constant(n, n, 1), n)[Start(n, p, k)..End(n, p, k)]
    ensures IsMatrix(c, Count(n, p, k), n)
    ensures LocalError(c, Count(n, p, k), n, n) == 0
  {
    var ones := Constant(n, n, 1);
    forall i, j | 0 <= i < Count(n, p, k) && 0 <= j < n
      ensures c[i][j] == n
    {
      RowColSumOfOnes(ones, Start(n, p, k) + i, ones, j, 0, n);
    }
  }

  /** With all-ones operands every C entry is N, so every rank's error, empty
      ranks included, and the reported maximum are 0. */
  lemma AllOnesHasNoError(argv: seq<string>, size: nat)
    requires size >= 1 && ParseSize(argv).Ok?
    ensures Program(argv, size) == Ok(0)
  {
    var n := ParseSize(argv).value;
    var ones := Constant(n, n, 1);
    RingMultiplyComputesProduct(ones, ones, n, size);
    var ws := RingMultiply(ones, ones, n, size).value;
    var errs := seq(size, k requires 0 <= k < size => LocalError(ws[k].cLocal, Count(n, size, k), n, n));
    forall k | 0 <= k < size
      ensures errs[k] == 0
    {
      OnesBlockHasNoError(ws[k].cLocal, k, n, size);
    }
    assert AllreduceMax(errs) == 0;
  }
}
