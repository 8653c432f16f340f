/** Shared vocabulary: failure-carrying results, sums over sequences and the
    small facts about integer division that the index arithmetic of the
    tutorial programs relies on. */
module Common {

  datatype Option<+T> = None | Some(value: T)

  datatype Result<+T, +E> = Ok(value: T) | Err(error: E)

  /** Sum of a sequence, peeled from the back so that a prefix sum grows by
      exactly one element per step. */
  function Sum(s: seq<int>): int
  {
    if |s| == 0 then 0 else Sum(s[..|s| - 1]) + s[|s| - 1]
  }

  lemma SumPrefixStep(s: seq<int>, i: nat)
    requires i < |s|
    ensures Sum(s[..i + 1]) == Sum(s[..i]) + s[i]
  {
    assert s[..i + 1][..i] == s[..i];
  }

  lemma SumConcat(s: seq<int>, t: seq<int>)
    ensures Sum(s + t) == Sum(s) + Sum(t)
    decreases |t|
  {
    if |t| == 0 {
      assert s + t == s;
    } else {
      assert (s + t)[..|s + t| - 1] == s + t[..|t| - 1];
      SumConcat(s, t[..|t| - 1]);
    }
  }

  function Min(a: int, b: int): int
  {
    if a <= b then a else b
  }

  function Max(a: int, b: int): int
  {
    if a >= b then a else b
  }

  /** The quotient and remainder of Euclidean division are determined by the
      defining equation and the range of the remainder. */
  lemma DivModUnique(x: int, d: int, q: int, r: int)
    requires d > 0 && 0 <= r < d && x == q * d + r
    ensures x / d == q && x % d == r
  {
    var q', r' := x / d, x % d;
    assert x == q' * d + r';
    if q > q' {
      assert (q - q') * d == q * d - q' * d;
      MulAtLeast(q - q', d);
    } else if q < q' {
      assert (q' - q) * d == q' * d - q * d;
      MulAtLeast(q' - q, d);
    }
  }

  lemma MulAtLeast(m: int, d: int)
    requires m >= 1 && d >= 0
    ensures m * d >= d
  {
    assert m * d == (m - 1) * d + d;
  }

  lemma MulMonotone(a: int, b: int, c: int)
    requires 0 <= a <= b && c >= 0
    ensures a * c <= b * c
  {
    assert b * c == a * c + (b - a) * c;
  }

  /** A row-major flat index of an in-range cell stays inside the n*n buffer. */
  lemma FlatIndexInRange(row: int, col: int, n: int)
    requires 0 <= row < n && 0 <= col < n
    ensures 0 <= row * n + col < n * n
  {
    MulMonotone(row, n - 1, n);
    assert (n - 1) * n == n * n - n;
  }

  /** Row-major flat index of cell (row, col) of an n x n buffer. */
  function FlatIndex(row: nat, col: nat, n: nat): (idx: nat)
    requires row < n && col < n
    ensures idx < n * n
    ensures idx / n == row && idx % n == col
  {
    FlatIndexInRange(row, col, n);
    DivModUnique(row * n + col, n, row, col);
    row * n + col
  }

  /** Every index of an n x n buffer is the flat index of exactly one cell. */
  lemma SplitFlatIndex(idx: nat, n: nat)
    requires idx < n * n
    ensures idx / n < n && idx % n < n
    ensures FlatIndex(idx / n, idx % n, n) == idx
  {
    assert n > 0;
    var q := idx / n;
    assert idx == q * n + idx % n;
    if q >= n {
      MulMonotone(n, q, n);
    }
  }

  /** Remainder by a positive modulus of a value at most one period below
      zero, as both Python's `%` and Dafny's Euclidean `%` define it. */
  lemma ModOneWrap(x: int, p: int)
    requires p >= 1 && -p <= x < p
    ensures x % p == (if x >= 0 then x else x + p)
  {
    if x >= 0 {
      DivModUnique(x, p, 0, x);
    } else {
      DivModUnique(x, p, -1, x + p);
    }
  }

  /** Rounded-up quotient `(n + d - 1) / d`, the block and tile counts of the
      CUDA launches. */
  function CeilDiv(n: nat, d: nat): (q: nat)
    requires d >= 1
    ensures q * d >= n
    ensures n >= 1 ==> (q - 1) * d < n
    ensures n == 0 ==> q == 0
  {
    var q := (n + d - 1) / d;
    assert n + d - 1 == q * d + (n + d - 1) % d;
    assert (q - 1) * d == q * d - d;
    q
  }

  /** `INT_MAX` of a 32-bit C int. */
  const IntMax: int := 0x7FFF_FFFF

  /** `(int)v`: the conversion to a 32-bit int keeps the low 32 bits, read
      in two's complement. */
  function ToInt32(v: int): (r: int)
    ensures -IntMax - 1 <= r <= IntMax
    ensures (r - v) % 0x1_0000_0000 == 0
    ensures -IntMax - 1 <= v <= IntMax ==> r == v
  {
    Int32RangeIsOnePeriod(v);
    var low := v % 0x1_0000_0000;
    if low > IntMax then low - 0x1_0000_0000 else low
  }

  lemma Int32RangeIsOnePeriod(v: int)
    ensures -IntMax - 1 <= v <= IntMax ==> v % 0x1_0000_0000 == (if v >= 0 then v else v + 0x1_0000_0000)
  {
    if -IntMax - 1 <= v <= IntMax {
      ModOneWrap(v, 0x1_0000_0000);
    }
  }
}
