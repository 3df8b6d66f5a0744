/** The board's rules as functions on its row-major list of squares: spot
    totals, counts, the winner, whose move it is, legality, storing a square,
    the cascade of jumps and the move itself. The class Boards.Board runs
    these rules in place; the functions here are what its methods are proved
    against. */
module Rules {
  import opened JavaInts
  import opened Wrappers
  import opened Squares
  import opened Geometry

  /** The nesting depth allowed to a cascade of jumps (the source's recursion
      is bounded only by the call stack). */
  const MaxJumpDepth: nat := 10000

  /** The squares of a fresh board with k squares: all WHITE with one spot. */
  function Initial(k: nat): (b: seq<Square>)
    ensures |b| == k && forall i :: 0 <= i < k ==> b[i] == Square(WHITE, 1)
  {
    seq(k, _ => Square(WHITE, 1))
  }

  /** Every square holds at least one spot. */
  predicate AllPositive(b: seq<Square>)
  {
    forall i :: 0 <= i < |b| ==> b[i].spots >= 1
  }

  /** A list of squares that can be the contents of an N x N board. */
  predicate WellFormed(N: nat, b: seq<Square>)
  {
    |b| == N * N && AllPositive(b)
  }

  /** The total number of spots (numPieces). */
  function TotalSpots(b: seq<Square>): int
  {
    if b == [] then 0 else TotalSpots(b[..|b| - 1]) + b[|b| - 1].spots
  }

  /** The number of squares owned by side s (numOfSide). */
  function CountSide(b: seq<Square>, s: Side): int
  {
    if b == [] then 0 else CountSide(b[..|b| - 1], s) + (if b[|b| - 1].side == s then 1 else 0)
  }

  predicate AnySide(b: seq<Square>, s: Side)
  {
    exists i :: 0 <= i < |b| && b[i].side == s
  }

  predicate AllSide(b: seq<Square>, s: Side)
  {
    forall i :: 0 <= i < |b| ==> b[i].side == s
  }

  /** The scan getWinner runs over squares i.. with its two flags. */
  function WinFrom(b: seq<Square>, i: nat, redWin: bool, blueWin: bool): Option<Side>
    requires i <= |b|
    decreases |b| - i
  {
    if i == |b| then
      (if redWin then Some(RED) else if blueWin then Some(BLUE) else None)
    else if b[i].side == RED then WinFrom(b, i + 1, redWin, false)
    else if b[i].side == BLUE then WinFrom(b, i + 1, false, blueWin)
    else None
  }

  /** The winner of the position (getWinner), None standing for null. */
  function WinnerOf(b: seq<Square>): Option<Side>
  {
    WinFrom(b, 0, true, true)
  }

  /** The side to move, derived from the parity of spots plus size. */
  function SideToMove(N: nat, b: seq<Square>): Side
  {
    if (TotalSpots(b) + N) % 2 == 0 then RED else BLUE
  }

  /** isLegal(player): nobody has won and it is player's turn. */
  predicate LegalSide(N: nat, b: seq<Square>, p: Side)
  {
    WinnerOf(b) == None && p == SideToMove(N, b)
  }

  /** isLegal(player, n). */
  predicate Legal(N: nat, b: seq<Square>, p: Side, n: int)
    requires |b| == N * N
  {
    if n < 0 || n >= N * N || WinnerOf(b) != None then false
    else (b[n].side == WHITE || b[n].side == p) && LegalSide(N, b, p)
  }

  /** The square internalSet stores for a count and a player. */
  function Stored(num: int, p: Side): Square
  {
    if num <= 0 then Square(WHITE, 1) else Square(p, num)
  }

  /** internalSet(n, num, p) on a list of squares. */
  function SetF(b: seq<Square>, n: int, num: int, p: Side): seq<Square>
    requires 0 <= n < |b|
  {
    b[n := Stored(num, p)]
  }

  /** jump(s): discharge square s to its neighbours (up, left, down, right),
      each of which may jump in turn; nothing happens once a side has won or
      the depth bound is spent. */
  function JumpF(N: nat, b: seq<Square>, s: int, fuel: nat): (r: seq<Square>)
    requires |b| == N * N && 0 <= s < |b|
    ensures |r| == |b|
    decreases fuel, 3
  {
    if WinnerOf(b) != None || fuel == 0 then b
    else
      SquareRoundTrip(N, s);
      var p := b[s].side;
      Spread(N, SetF(b, s, b[s].spots - Neighbors(N, s), p), p, Row(N, s), Col(N, s), fuel)
  }

  /** The four branches of jump from row r, column c, in the source's order. */
  function Spread(N: nat, b: seq<Square>, p: Side, r: int, c: int, fuel: nat): (res: seq<Square>)
    requires |b| == N * N && Exists(N, r, c) && fuel > 0
    ensures |res| == |b|
    decreases fuel, 2
  {
    var b1 := Branch(N, b, p, r - 1, c, fuel, r > 1);
    var b2 := Branch(N, b1, p, r, c - 1, fuel, c > 1);
    var b3 := Branch(N, b2, p, r + 1, c, fuel, r < N);
    Branch(N, b3, p, r, c + 1, fuel, c < N)
  }

  /** One branch of jump, taken when cond holds. */
  function Branch(N: nat, b: seq<Square>, p: Side, r: int, c: int, fuel: nat, cond: bool): (res: seq<Square>)
    requires |b| == N * N && fuel > 0 && (cond ==> Exists(N, r, c))
    ensures |res| == |b|
    decreases fuel, 1
  {
    if cond then Spill(N, b, p, r, c, fuel) else b
  }

  /** One branch of jump: simpleAdd one spot of p to row r, column c and jump
      from there if that square is now over-full. */
  function Spill(N: nat, b: seq<Square>, p: Side, r: int, c: int, fuel: nat): (res: seq<Square>)
    requires |b| == N * N && Exists(N, r, c) && fuel > 0
    ensures |res| == |b|
    decreases fuel, 0
  {
    CoordRoundTrip(N, r, c);
    var t := SqNum(N, r, c);
    var b' := SetF(b, t, 1 + b[t].spots, p);
    if b'[t].spots > NeighborsAt(N, r, c) then JumpF(N, b', t, fuel - 1) else b'
  }

  /** addSpot(p, n) on a list of squares, before the history is updated. */
  function AddSpotF(N: nat, b: seq<Square>, p: Side, n: int): (r: seq<Square>)
    requires |b| == N * N && 0 <= n < |b|
    ensures |r| == |b|
  {
    SquareRoundTrip(N, n);
    var b1 := SetF(b, n, b[n].spots + 1, p);
    if Neighbors(N, n) < b1[n].spots && WinnerOf(b1) == None then JumpF(N, b1, n, MaxJumpDepth) else b1
  }

  // ---- Totals and counts

  /** Replacing one square changes the total by the difference of the two. */
  lemma {:induction false} TotalSpotsUpdate(b: seq<Square>, i: int, x: Square)
    requires 0 <= i < |b|
    ensures TotalSpots(b[i := x]) == TotalSpots(b) - b[i].spots + x.spots
  {
    var b' := b[i := x];
    var n := |b| - 1;
    if i == n {
      assert b'[..n] == b[..n];
    } else {
      assert b'[..n] == b[..n][i := x];
      TotalSpotsUpdate(b[..n], i, x);
    }
  }

  /** A count of squares lies between 0 and the number of squares. */
  lemma {:induction false} CountSideBounds(b: seq<Square>, s: Side)
    ensures 0 <= CountSide(b, s) <= |b|
  {
    if b != [] {
      CountSideBounds(b[..|b| - 1], s);
    }
  }

  /** A fresh board with k squares holds k spots. */
  lemma {:induction false} InitialTotal(k: nat)
    ensures TotalSpots(Initial(k)) == k
  {
    if k > 0 {
      assert Initial(k)[..k - 1] == Initial(k - 1);
      InitialTotal(k - 1);
    }
  }

  // ---- The winner

  predicate AnyFrom(b: seq<Square>, i: nat, s: Side)
  {
    exists j :: i <= j < |b| && b[j].side == s
  }

  lemma AnyFromStep(b: seq<Square>, i: nat, s: Side)
    requires i < |b|
    ensures AnyFrom(b, i, s) <==> b[i].side == s || AnyFrom(b, i + 1, s)
  {
    if AnyFrom(b, i, s) && b[i].side != s {
      var j :| i <= j < |b| && b[j].side == s;
      assert i + 1 <= j;
    }
  }

  /** What the scan of getWinner returns from square i on, with the flags
      it has gathered so far. */
  lemma {:induction false} WinFromSpec(b: seq<Square>, i: nat, redWin: bool, blueWin: bool)
    requires i <= |b|
    ensures WinFrom(b, i, redWin, blueWin)
      == if AnyFrom(b, i, WHITE) then None
         else if redWin && !AnyFrom(b, i, BLUE) then Some(RED)
         else if blueWin && !AnyFrom(b, i, RED) then Some(BLUE)
         else None
    decreases |b| - i
  {
    if i < |b| {
      AnyFromStep(b, i, WHITE);
      AnyFromStep(b, i, RED);
      AnyFromStep(b, i, BLUE);
      if b[i].side == RED {
        WinFromSpec(b, i + 1, redWin, false);
      } else if b[i].side == BLUE {
        WinFromSpec(b, i + 1, false, blueWin);
      }
    }
  }

  /** getWinner is null exactly when some square is WHITE or both colours are
      present; it is RED exactly when every square is RED, and BLUE exactly
      when there are squares and every one is BLUE. */
  lemma WinnerCases(b: seq<Square>)
    ensures WinnerOf(b) == Some(RED) <==> AllSide(b, RED)
    ensures WinnerOf(b) == Some(BLUE) <==> |b| > 0 && AllSide(b, BLUE)
    ensures WinnerOf(b) == None <==> AnySide(b, WHITE) || (AnySide(b, RED) && AnySide(b, BLUE))
    ensures WinnerOf(b) != Some(WHITE)
  {
    WinFromSpec(b, 0, true, true);
    assert forall s :: AnyFrom(b, 0, s) == AnySide(b, s);
  }

  // ---- Turns and legality

  /** A fresh N x N board has N*N spots, so RED moves first. */
  lemma FreshBoardRedToMove(N: nat)
    ensures SideToMove(N, Initial(N * N)) == RED
  {
    InitialTotal(N * N);
    SquarePlusRootEven(N);
  }

  lemma {:induction false} SquarePlusRootEven(N: nat)
    ensures (N * N + N) % 2 == 0
  {
    if N > 0 {
      var k := N - 1;
      SquarePlusRootEven(k);
      var q := (k * k + k) / 2;
      assert k * k + k == 2 * q;
      assert N * N == k * k + 2 * k + 1;
      assert N * N + N == 2 * (q + N);
    }
  }

  /** Adding exactly one spot hands the turn to the other colour. */
  lemma TurnFlipsOnOneSpot(N: nat, b: seq<Square>, b': seq<Square>)
    requires TotalSpots(b') == TotalSpots(b) + 1
    ensures SideToMove(N, b') == Opposite(SideToMove(N, b))
    ensures SideToMove(N, b) != WHITE
  {
  }

  /** isLegal(p, n) spelled out: n is a square, it is WHITE or p's, it is p's
      turn, and the game is undecided (a WHITE square or both colours). */
  lemma LegalIff(N: nat, b: seq<Square>, p: Side, n: int)
    requires |b| == N * N
    ensures Legal(N, b, p, n) <==>
      0 <= n < N * N && (b[n].side == WHITE || b[n].side == p) && p == SideToMove(N, b)
      && (AnySide(b, WHITE) || (AnySide(b, RED) && AnySide(b, BLUE)))
  {
    WinnerCases(b);
  }

  /** Once a side has won, no move is legal for anybody and a jump changes
      nothing. */
  lemma WonIsFinal(N: nat, b: seq<Square>)
    requires |b| == N * N && WinnerOf(b) != None
    ensures forall p: Side, n: int :: !Legal(N, b, p, n)
    ensures forall s: int, f: nat :: 0 <= s < |b| ==> JumpF(N, b, s, f) == b
  {
  }

  /** While nobody has won, the side to move has a legal square. */
  lemma MoverHasLegalMove(N: nat, b: seq<Square>) returns (n: int)
    requires |b| == N * N && WinnerOf(b) == None
    ensures Legal(N, b, SideToMove(N, b), n)
  {
    WinnerCases(b);
    var p := SideToMove(N, b);
    if AnySide(b, WHITE) {
      n :| 0 <= n < |b| && b[n].side == WHITE;
    } else {
      n :| 0 <= n < |b| && b[n].side == p;
    }
  }
}
