/** The logical ring of the panel-rotation multiply: each rank's neighbours,
    and which rank's B panel it holds at each round.  Python's `%` with a
    positive modulus agrees with Dafny's Euclidean `%`, so `(rank - 1) % size`
    is written as in the program. */
module RingTopology {
  import opened Common

  /** Rank that sends to `rank` (`left = (rank - 1) % size`). */
  function Left(rank: nat, size: nat): (l: nat)
    requires size >= 1 && rank < size
    ensures l < size
  {
    (rank - 1) % size
  }

  /** Rank that `rank` sends to (`right = (rank + 1) % size`). */
  function Right(rank: nat, size: nat): (r: nat)
    requires size >= 1 && rank < size
    ensures r < size
  {
    (rank + 1) % size
  }

  /** The wrapped neighbours in closed form: the left of rank 0 is the last
      rank, the right of the last rank is rank 0, and a single rank is its
      own neighbour. */
  lemma NeighbourArithmetic(rank: nat, size: nat)
    requires size >= 1 && rank < size
    ensures (rank - 1) % size == (if rank == 0 then size - 1 else rank - 1)
    ensures (rank + 1) % size == (if rank + 1 == size then 0 else rank + 1)
  {
    ModOneWrap(rank - 1, size);
    ModOneWrap(rank, size);
    if rank + 1 == size {
      DivModUnique(rank + 1, size, 1, 0);
      ModOneWrap(-1, size);
    } else {
      ModOneWrap(rank + 1, size);
    }
    if rank == 0 {
      DivModUnique(size, size, 1, 0);
    }
  }

  /** Sending right and receiving from the left pair up: the left neighbour's
      right neighbour is the rank itself. */
  lemma NeighboursPair(rank: nat, size: nat)
    requires size >= 1 && rank < size
    ensures Right(Left(rank, size), size) == rank
    ensures Left(Right(rank, size), size) == rank
  {
    NeighbourArithmetic(rank, size);
    NeighbourArithmetic(Left(rank, size), size);
    NeighbourArithmetic(Right(rank, size), size);
  }

  /** Owner id after one exchange (`next_owner = (owner - 1) % size`): the
      same step down the ring as the left neighbour, so it is defined as one. */
  function NextOwner(owner: nat, size: nat): (o: nat)
    requires size >= 1 && owner < size
    ensures o < size
  {
    Left(owner, size)
  }

  /** The owner of the panel that `rank` holds at the start of round `step`:
      `(rank - step) % size`. */
  function OwnerAt(rank: nat, step: nat, size: nat): (o: nat)
    requires size >= 1
    ensures o < size
  {
    (rank - step) % size
  }

  /** Within one full cycle the owner counts down from `rank` and wraps once. */
  lemma OwnerAtClosedForm(rank: nat, step: nat, size: nat)
    requires size >= 1 && rank < size && step <= size
    ensures OwnerAt(rank, step, size) == (if step <= rank then rank - step else size + rank - step)
  {
    ModOneWrap(rank - step, size);
  }

  /** Each rank starts with its own panel and holds it again after `size` rounds. */
  lemma OwnerCycle(rank: nat, size: nat)
    requires size >= 1 && rank < size
    ensures OwnerAt(rank, 0, size) == rank
    ensures OwnerAt(rank, size, size) == rank
  {
    OwnerAtClosedForm(rank, 0, size);
    OwnerAtClosedForm(rank, size, size);
  }

  /** One exchange advances the owner by one round, and the panel received
      from the left neighbour is exactly the one the rank should hold next. */
  lemma OwnerAdvance(rank: nat, step: nat, size: nat)
    requires size >= 1 && rank < size && step < size
    ensures NextOwner(OwnerAt(rank, step, size), size) == OwnerAt(rank, step + 1, size)
    ensures OwnerAt(Left(rank, size), step, size) == OwnerAt(rank, step + 1, size)
  {
    OwnerAtClosedForm(rank, step, size);
    OwnerAtClosedForm(rank, step + 1, size);
    NeighbourArithmetic(rank, size);
    NeighbourArithmetic(OwnerAt(rank, step, size), size);
    OwnerAtClosedForm(Left(rank, size), step, size);
  }

  /** The round at which `rank` holds `owner`'s panel. The subtraction has
      the shape of OwnerAt's with the roles of round and owner exchanged:
      owner = rank - t and t = rank - owner, both modulo size. */
  function StepOf(rank: nat, owner: nat, size: nat): (t: nat)
    requires size >= 1
    ensures t < size
  {
    (rank - owner) % size
  }

  /** Over the first `size` rounds every owner id is visited exactly once:
      rank holds owner's panel at round t exactly when t is StepOf(owner). */
  lemma VisitsEachOwnerOnce(rank: nat, size: nat, t: nat, owner: nat)
    requires size >= 1 && rank < size && t < size && owner < size
    ensures OwnerAt(rank, t, size) == owner <==> t == StepOf(rank, owner, size)
  {
    OwnerAtClosedForm(rank, t, size);
    ModOneWrap(rank - owner, size);
  }

  /** Sum of gs over the owners visited by `rank` in rounds 0 .. s-1. */
  function RotSum(gs: seq<int>, rank: nat, s: nat): int
    requires |gs| >= 1 && s <= |gs|
  {
    if s == 0 then 0 else RotSum(gs, rank, s - 1) + gs[OwnerAt(rank, s - 1, |gs|)]
  }

  lemma {:induction false} RotSumBeforeWrap(gs: seq<int>, rank: nat, s: nat)
    requires rank < |gs| && s <= rank + 1
    ensures RotSum(gs, rank, s) == Sum(gs[..rank + 1]) - Sum(gs[..rank + 1 - s])
  {
    if s > 0 {
      RotSumBeforeWrap(gs, rank, s - 1);
      OwnerAtClosedForm(rank, s - 1, |gs|);
      SumPrefixStep(gs, rank + 1 - s);
    }
  }

  lemma {:induction false} RotSumAfterWrap(gs: seq<int>, rank: nat, s: nat)
    requires rank < |gs| && rank + 1 <= s <= |gs|
    ensures RotSum(gs, rank, s) == Sum(gs[..rank + 1]) + Sum(gs) - Sum(gs[..|gs| + rank + 1 - s])
  {
    assert gs[..|gs|] == gs;
    if s == rank + 1 {
      RotSumBeforeWrap(gs, rank, s);
    } else {
      RotSumAfterWrap(gs, rank, s - 1);
      OwnerAtClosedForm(rank, s - 1, |gs|);
      SumPrefixStep(gs, |gs| + rank + 1 - s);
    }
  }

  /** Summing over the owners a rank visits in `size` rounds adds every
      entry exactly once, whatever rank the rotation starts from. */
  lemma RotationCoversAll(gs: seq<int>, rank: nat)
    requires rank < |gs|
    ensures RotSum(gs, rank, |gs|) == Sum(gs)
  {
    RotSumAfterWrap(gs, rank, |gs|);
  }
}
