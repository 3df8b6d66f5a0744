/** Square numbering and neighbourhoods on an N x N board: rows and columns
    run from 1 to N, square numbers from 0 to N*N - 1 in row-major order. */
module Geometry {
  import opened JavaInts

  /** The row of square #n. */
  function Row(N: nat, n: int): int
    requires N > 0
  {
    JavaDiv(n, N) + 1
  }

  /** The column of square #n. */
  function Col(N: nat, n: int): int
    requires N > 0
  {
    JavaRem(n, N) + 1
  }

  /** The square number of row r, column c. */
  function SqNum(N: nat, r: int, c: int): int
  {
    (c - 1) + (r - 1) * N
  }

  /** Row r, column c denotes a square of the board. */
  predicate Exists(N: nat, r: int, c: int)
  {
    1 <= r <= N && 1 <= c <= N
  }

  /** s is a square number of the board. */
  predicate ExistsSq(N: nat, s: int)
  {
    0 <= s < N * N
  }

  /** The number of neighbours of row r, column c: one for each of the four
      directions in which the board continues. */
  function NeighborsAt(N: nat, r: int, c: int): int
  {
    (if r > 1 then 1 else 0) + (if c > 1 then 1 else 0)
      + (if r < N then 1 else 0) + (if c < N then 1 else 0)
  }

  /** The number of neighbours of square #n. */
  function Neighbors(N: nat, n: int): int
    requires N > 0
  {
    NeighborsAt(N, Row(N, n), Col(N, n))
  }

  /** Rows r and r' with columns c and c' are orthogonally adjacent. */
  predicate Adjacent(r: int, c: int, r': int, c': int)
  {
    (r == r' && (c' == c - 1 || c' == c + 1)) || (c == c' && (r' == r - 1 || r' == r + 1))
  }

  lemma MulMono(a: int, b: int, c: int)
    requires a <= b && c >= 0
    ensures a * c <= b * c
  {
  }

  lemma ZeroMultiple(N: int, k: int)
    requires N > 0 && -N < k * N < N
    ensures k == 0
  {
    if k >= 1 {
      MulMono(1, k, N);
    } else if k <= -1 {
      MulMono(k, -1, N);
    }
  }

  /** Every square number decodes to an existing row and column, and those
      encode back to the same number. */
  lemma SquareRoundTrip(N: nat, n: int)
    requires ExistsSq(N, n)
    ensures N > 0
    ensures Exists(N, Row(N, n), Col(N, n))
    ensures SqNum(N, Row(N, n), Col(N, n)) == n
  {
    assert N > 0;
    var q, m := n / N, n % N;
    assert n == q * N + m && 0 <= m < N;
    if q >= N {
      MulMono(N, q, N);
    }
    if q < 0 {
      MulMono(q, -1, N);
    }
    assert 0 <= q < N;
    assert Row(N, n) == q + 1 && Col(N, n) == m + 1;
  }

  /** Every existing row and column encodes to a square number that decodes
      back to them. */
  lemma CoordRoundTrip(N: nat, r: int, c: int)
    requires Exists(N, r, c)
    ensures ExistsSq(N, SqNum(N, r, c))
    ensures Row(N, SqNum(N, r, c)) == r && Col(N, SqNum(N, r, c)) == c
  {
    var s := SqNum(N, r, c);
    var k := r - 1;
    MulMono(0, k, N);
    MulMono(k, N - 1, N);
    assert (N - 1) * N + N == N * N;
    assert 0 <= s < N * N;
    var q, m := s / N, s % N;
    assert s == q * N + m && 0 <= m < N;
    assert (q - k) * N == q * N - k * N;
    ZeroMultiple(N, q - k);
    assert q == k && m == c - 1;
  }

  /** The neighbour count classified: none on a 1 x 1 board; otherwise 2 at
      the corners, 3 elsewhere on the edge and 4 inside. */
  lemma NeighborCounts(N: nat, r: int, c: int)
    requires Exists(N, r, c)
    ensures N == 1 ==> NeighborsAt(N, r, c) == 0
    ensures N >= 2 && (r == 1 || r == N) && (c == 1 || c == N) ==> NeighborsAt(N, r, c) == 2
    ensures N >= 2 && ((r == 1 || r == N) != (c == 1 || c == N)) ==> NeighborsAt(N, r, c) == 3
    ensures N >= 2 && 1 < r < N && 1 < c < N ==> NeighborsAt(N, r, c) == 4
  {
  }

  /** The neighbour count is the number of existing squares adjacent to row r,
      column c, taken in the order up, left, down, right. */
  lemma NeighborsAreInBounds(N: nat, r: int, c: int)
    requires Exists(N, r, c)
    ensures NeighborsAt(N, r, c)
      == (if Exists(N, r - 1, c) then 1 else 0) + (if Exists(N, r, c - 1) then 1 else 0)
       + (if Exists(N, r + 1, c) then 1 else 0) + (if Exists(N, r, c + 1) then 1 else 0)
  {
  }

  /** The four neighbours of row r, column c are the squares N before, one
      before, N after and one after it. */
  lemma NeighborIndex(N: nat, r: int, c: int)
    ensures SqNum(N, r - 1, c) == SqNum(N, r, c) - N && SqNum(N, r + 1, c) == SqNum(N, r, c) + N
    ensures SqNum(N, r, c - 1) == SqNum(N, r, c) - 1 && SqNum(N, r, c + 1) == SqNum(N, r, c) + 1
  {
  }

  /** Square i is orthogonally adjacent to square s exactly when it is the
      square above, to the left, below or to the right of s, as far as the
      board reaches. */
  lemma AdjacentIndex(N: nat, s: int, i: int)
    requires ExistsSq(N, s) && ExistsSq(N, i)
    ensures N > 0
    ensures Adjacent(Row(N, s), Col(N, s), Row(N, i), Col(N, i)) <==>
      (Row(N, s) > 1 && i == s - N) || (Col(N, s) > 1 && i == s - 1) ||
      (Row(N, s) < N && i == s + N) || (Col(N, s) < N && i == s + 1)
  {
    SquareRoundTrip(N, s);
    SquareRoundTrip(N, i);
    var r, c := Row(N, s), Col(N, s);
    NeighborIndex(N, r, c);
    if Row(N, s) > 1 && i == s - N { CoordRoundTrip(N, r - 1, c); }
    if Col(N, s) > 1 && i == s - 1 { CoordRoundTrip(N, r, c - 1); }
    if Row(N, s) < N && i == s + N { CoordRoundTrip(N, r + 1, c); }
    if Col(N, s) < N && i == s + 1 { CoordRoundTrip(N, r, c + 1); }
  }
}
