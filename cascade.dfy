/** What a cascade of jumps and a whole move do to the squares: spots are
    conserved by every jump, so a move adds exactly one spot and hands the
    turn over; the discharging side only captures; a discharge that makes no
    neighbour over-full is exactly "the square loses one spot per neighbour,
    each neighbour gains one and changes hands". */
module Cascade {
  import opened Wrappers
  import opened Squares
  import opened Geometry
  import opened Rules

  // ---- Conservation

  /** A jump from an over-full square keeps every square positive and the
      total number of spots unchanged. */
  lemma {:induction false} JumpConserves(N: nat, b: seq<Square>, s: int, fuel: nat)
    requires |b| == N * N && 0 <= s < |b| && AllPositive(b)
    requires b[s].spots > Neighbors(N, s)
    ensures AllPositive(JumpF(N, b, s, fuel))
    ensures TotalSpots(JumpF(N, b, s, fuel)) == TotalSpots(b)
    decreases fuel, 4
  {
    if WinnerOf(b) == None && fuel > 0 {
      SquareRoundTrip(N, s);
      var p := b[s].side;
      var b0 := SetF(b, s, b[s].spots - Neighbors(N, s), p);
      TotalSpotsUpdate(b, s, Stored(b[s].spots - Neighbors(N, s), p));
      SpreadAddsNeighbors(N, b0, p, Row(N, s), Col(N, s), fuel);
    }
  }

  /** The four branches of a jump add one spot per neighbour in all. */
  lemma {:induction false} SpreadAddsNeighbors(N: nat, b: seq<Square>, p: Side, r: int, c: int, fuel: nat)
    requires |b| == N * N && Exists(N, r, c) && fuel > 0 && AllPositive(b)
    ensures AllPositive(Spread(N, b, p, r, c, fuel))
    ensures TotalSpots(Spread(N, b, p, r, c, fuel)) == TotalSpots(b) + NeighborsAt(N, r, c)
    decreases fuel, 3
  {
    TwoBranchesAdd(N, b, p, r - 1, c, r > 1, r, c - 1, c > 1, fuel);
    var b2 := Branch(N, Branch(N, b, p, r - 1, c, fuel, r > 1), p, r, c - 1, fuel, c > 1);
    TwoBranchesAdd(N, b2, p, r + 1, c, r < N, r, c + 1, c < N, fuel);
  }

  /** Two branches of a jump in turn add one spot for each taken. */
  lemma TwoBranchesAdd(N: nat, b: seq<Square>, p: Side, r: int, c: int, cond: bool,
                       r': int, c': int, cond': bool, fuel: nat)
    requires |b| == N * N && fuel > 0 && AllPositive(b) && (cond ==> Exists(N, r, c)) && (cond' ==> Exists(N, r', c'))
    ensures AllPositive(Branch(N, Branch(N, b, p, r, c, fuel, cond), p, r', c', fuel, cond'))
    ensures TotalSpots(Branch(N, Branch(N, b, p, r, c, fuel, cond), p, r', c', fuel, cond')) ==
            TotalSpots(b) + (if cond then 1 else 0) + (if cond' then 1 else 0)
    decreases fuel, 2
  {
    BranchAdds(N, b, p, r, c, fuel, cond);
    BranchAdds(N, Branch(N, b, p, r, c, fuel, cond), p, r', c', fuel, cond');
  }

  /** One branch of a jump, taken when cond holds, adds one spot if taken. */
  lemma BranchAdds(N: nat, b: seq<Square>, p: Side, r: int, c: int, fuel: nat, cond: bool)
    requires |b| == N * N && fuel > 0 && AllPositive(b) && (cond ==> Exists(N, r, c))
    ensures AllPositive(Branch(N, b, p, r, c, fuel, cond))
    ensures TotalSpots(Branch(N, b, p, r, c, fuel, cond)) == TotalSpots(b) + (if cond then 1 else 0)
    decreases fuel, 1
  {
    if cond { SpillAddsOne(N, b, p, r, c, fuel); }
  }

  /** One branch of a jump adds exactly one spot in all, however far the
      cascade it starts goes. */
  lemma {:induction false} SpillAddsOne(N: nat, b: seq<Square>, p: Side, r: int, c: int, fuel: nat)
    requires |b| == N * N && Exists(N, r, c) && fuel > 0 && AllPositive(b)
    ensures AllPositive(Spill(N, b, p, r, c, fuel))
    ensures TotalSpots(Spill(N, b, p, r, c, fuel)) == TotalSpots(b) + 1
    decreases fuel, 0
  {
    CoordRoundTrip(N, r, c);
    var t := SqNum(N, r, c);
    var b' := SetF(b, t, 1 + b[t].spots, p);
    TotalSpotsUpdate(b, t, Stored(1 + b[t].spots, p));
    if b'[t].spots > NeighborsAt(N, r, c) {
      JumpConserves(N, b', t, fuel - 1);
    }
  }

  /** addSpot adds exactly one spot to the board, keeps it well formed, and
      so passes the turn to the other colour. */
  lemma AddSpotAddsOne(N: nat, b: seq<Square>, p: Side, n: int)
    requires WellFormed(N, b) && 0 <= n < N * N
    ensures WellFormed(N, AddSpotF(N, b, p, n))
    ensures TotalSpots(AddSpotF(N, b, p, n)) == TotalSpots(b) + 1
    ensures SideToMove(N, AddSpotF(N, b, p, n)) == Opposite(SideToMove(N, b))
  {
    var b1 := SetF(b, n, b[n].spots + 1, p);
    TotalSpotsUpdate(b, n, Stored(b[n].spots + 1, p));
    if Neighbors(N, n) < b1[n].spots && WinnerOf(b1) == None {
      JumpConserves(N, b1, n, MaxJumpDepth);
    }
    TurnFlipsOnOneSpot(N, b, AddSpotF(N, b, p, n));
  }

  // ---- Ownership

  /** Going from b to b', every square keeps its owner or passes to p, and
      p keeps every square it had. */
  predicate KeepsOrCaptures(b: seq<Square>, b': seq<Square>, p: Side)
  {
    |b'| == |b| &&
    forall i :: 0 <= i < |b| ==>
      (b'[i].side == b[i].side || b'[i].side == p) && (b[i].side == p ==> b'[i].side == p)
  }

  lemma KeepsTrans(b: seq<Square>, b': seq<Square>, b'': seq<Square>, p: Side)
    requires KeepsOrCaptures(b, b', p) && KeepsOrCaptures(b', b'', p)
    ensures KeepsOrCaptures(b, b'', p)
  {
  }

  /** Square i exists and belongs to p. */
  predicate OwnedBy(b: seq<Square>, i: int, p: Side)
  {
    0 <= i < |b| && b[i].side == p
  }

  /** A jump from an over-full square only ever captures for its owner p; if
      it fires, the square itself and each of its in-bounds orthogonal
      neighbours belong to p afterwards. */
  lemma {:induction false} JumpOwnership(N: nat, b: seq<Square>, s: int, fuel: nat)
    requires |b| == N * N && 0 <= s < |b| && AllPositive(b)
    requires b[s].spots > Neighbors(N, s)
    ensures KeepsOrCaptures(b, JumpF(N, b, s, fuel), b[s].side)
    ensures WinnerOf(b) == None && fuel > 0 ==>
      OwnedBy(JumpF(N, b, s, fuel), s, b[s].side) &&
      forall r', c' :: Exists(N, r', c') && Adjacent(Row(N, s), Col(N, s), r', c') ==>
        OwnedBy(JumpF(N, b, s, fuel), SqNum(N, r', c'), b[s].side)
    decreases fuel, 4
  {
    if WinnerOf(b) == None && fuel > 0 {
      SquareRoundTrip(N, s);
      var p := b[s].side;
      var r, c := Row(N, s), Col(N, s);
      var b0 := SetF(b, s, b[s].spots - Neighbors(N, s), p);
      assert KeepsOrCaptures(b, b0, p);
      var res := Spread(N, b0, p, r, c, fuel);
      assert JumpF(N, b, s, fuel) == res;
      assert KeepsOrCaptures(b, res, p) && OwnedBy(res, s, p) by {
        SpreadOwnership(N, b0, p, r, c, fuel);
        KeepsTrans(b, b0, res, p);
        assert b0[s].side == p;
      }
      assert forall r', c' :: Exists(N, r', c') && Adjacent(r, c, r', c') ==>
          OwnedBy(res, SqNum(N, r', c'), p) by {
        SpreadOwnership(N, b0, p, r, c, fuel);
        FourNeighborsOwned(N, res, p, r, c);
      }
    }
  }

  lemma FourNeighborsOwned(N: nat, b: seq<Square>, p: Side, r: int, c: int)
    requires r > 1 ==> OwnedBy(b, SqNum(N, r - 1, c), p)
    requires c > 1 ==> OwnedBy(b, SqNum(N, r, c - 1), p)
    requires r < N ==> OwnedBy(b, SqNum(N, r + 1, c), p)
    requires c < N ==> OwnedBy(b, SqNum(N, r, c + 1), p)
    ensures forall r', c' :: Exists(N, r', c') && Adjacent(r, c, r', c') ==> OwnedBy(b, SqNum(N, r', c'), p)
  {
  }

  /** The four branches of a jump only capture for p, and leave every
      in-bounds neighbour of row r, column c with p. */
  lemma {:induction false} SpreadOwnership(N: nat, b: seq<Square>, p: Side, r: int, c: int, fuel: nat)
    requires |b| == N * N && Exists(N, r, c) && fuel > 0 && AllPositive(b)
    ensures KeepsOrCaptures(b, Spread(N, b, p, r, c, fuel), p)
    ensures r > 1 ==> OwnedBy(Spread(N, b, p, r, c, fuel), SqNum(N, r - 1, c), p)
    ensures c > 1 ==> OwnedBy(Spread(N, b, p, r, c, fuel), SqNum(N, r, c - 1), p)
    ensures r < N ==> OwnedBy(Spread(N, b, p, r, c, fuel), SqNum(N, r + 1, c), p)
    ensures c < N ==> OwnedBy(Spread(N, b, p, r, c, fuel), SqNum(N, r, c + 1), p)
    decreases fuel, 3
  {
    TwoBranchesOwn(N, b, p, r - 1, c, r > 1, r, c - 1, c > 1, fuel);
    var b2 := Branch(N, Branch(N, b, p, r - 1, c, fuel, r > 1), p, r, c - 1, fuel, c > 1);
    TwoBranchesOwn(N, b2, p, r + 1, c, r < N, r, c + 1, c < N, fuel);
    var b4 := Spread(N, b, p, r, c, fuel);
    KeepsTrans(b, b2, b4, p);
  }

  /** Two branches of a jump in turn only capture for p and leave each
      square they spill into with p. */
  lemma TwoBranchesOwn(N: nat, b: seq<Square>, p: Side, r: int, c: int, cond: bool,
                       r': int, c': int, cond': bool, fuel: nat)
    requires |b| == N * N && fuel > 0 && AllPositive(b) && (cond ==> Exists(N, r, c)) && (cond' ==> Exists(N, r', c'))
    ensures KeepsOrCaptures(b, Branch(N, Branch(N, b, p, r, c, fuel, cond), p, r', c', fuel, cond'), p)
    ensures AllPositive(Branch(N, Branch(N, b, p, r, c, fuel, cond), p, r', c', fuel, cond'))
    ensures cond ==> OwnedBy(Branch(N, Branch(N, b, p, r, c, fuel, cond), p, r', c', fuel, cond'), SqNum(N, r, c), p)
    ensures cond' ==> OwnedBy(Branch(N, Branch(N, b, p, r, c, fuel, cond), p, r', c', fuel, cond'), SqNum(N, r', c'), p)
    decreases fuel, 2
  {
    var b1 := Branch(N, b, p, r, c, fuel, cond);
    BranchOwnership(N, b, p, r, c, fuel, cond);
    BranchOwnership(N, b1, p, r', c', fuel, cond');
    KeepsTrans(b, b1, Branch(N, b1, p, r', c', fuel, cond'), p);
  }

  /** One branch of a jump, taken when cond holds, only captures for p and,
      if taken, leaves its square with p. */
  lemma BranchOwnership(N: nat, b: seq<Square>, p: Side, r: int, c: int, fuel: nat, cond: bool)
    requires |b| == N * N && fuel > 0 && AllPositive(b) && (cond ==> Exists(N, r, c))
    ensures KeepsOrCaptures(b, Branch(N, b, p, r, c, fuel, cond), p)
    ensures AllPositive(Branch(N, b, p, r, c, fuel, cond))
    ensures cond ==> OwnedBy(Branch(N, b, p, r, c, fuel, cond), SqNum(N, r, c), p)
    decreases fuel, 1
  {
    if cond { SpillOwnership(N, b, p, r, c, fuel); }
  }

  /** One branch of a jump captures the square it spills into and, through
      the cascade it may start, only ever captures for p. */
  lemma {:induction false} SpillOwnership(N: nat, b: seq<Square>, p: Side, r: int, c: int, fuel: nat)
    requires |b| == N * N && Exists(N, r, c) && fuel > 0 && AllPositive(b)
    ensures KeepsOrCaptures(b, Spill(N, b, p, r, c, fuel), p)
    ensures AllPositive(Spill(N, b, p, r, c, fuel))
    ensures OwnedBy(Spill(N, b, p, r, c, fuel), SqNum(N, r, c), p)
    decreases fuel, 0
  {
    CoordRoundTrip(N, r, c);
    var t := SqNum(N, r, c);
    var b' := SetF(b, t, 1 + b[t].spots, p);
    assert KeepsOrCaptures(b, b', p);
    SpillAddsOne(N, b, p, r, c, fuel);
    if b'[t].spots > NeighborsAt(N, r, c) {
      JumpOwnership(N, b', t, fuel - 1);
      KeepsTrans(b, b', JumpF(N, b', t, fuel - 1), p);
    }
  }

  // ---- A discharge that starts no further jump

  /** The board after square s discharges once: s keeps its owner and loses
      one spot per neighbour; each in-bounds orthogonal neighbour gains one
      spot and passes to the owner of s; nothing else changes. */
  function Discharged(N: nat, b: seq<Square>, s: int): (d: seq<Square>)
    requires |b| == N * N && 0 <= s < |b|
    ensures |d| == |b|
  {
    SquareRoundTrip(N, s);
    seq(|b|, i requires 0 <= i < |b| =>
      if i == s then Square(b[s].side, b[s].spots - Neighbors(N, s))
      else if Adjacent(Row(N, s), Col(N, s), Row(N, i), Col(N, i)) then Square(b[s].side, b[i].spots + 1)
      else b[i])
  }

  /** A spill that leaves its square within capacity starts no jump. */
  lemma SpillQuiet(N: nat, b: seq<Square>, p: Side, r: int, c: int, fuel: nat)
    requires |b| == N * N && Exists(N, r, c) && fuel > 0
    requires 0 <= SqNum(N, r, c) < |b|
    requires 0 <= b[SqNum(N, r, c)].spots < Neighbors(N, SqNum(N, r, c))
    ensures Spill(N, b, p, r, c, fuel) == b[SqNum(N, r, c) := Square(p, b[SqNum(N, r, c)].spots + 1)]
  {
    CoordRoundTrip(N, r, c);
  }

  /** One spot of p added to square i when cond holds. */
  function Bump(b: seq<Square>, i: int, p: Side, cond: bool): (r: seq<Square>)
    ensures |r| == |b|
    ensures forall j :: 0 <= j < |b| ==> r[j] == if cond && j == i then Square(p, b[j].spots + 1) else b[j]
  {
    if cond && 0 <= i < |b| then b[i := Square(p, b[i].spots + 1)] else b
  }

  /** A jump on an undecided board is the discharge of s followed by its
      four branches. */
  lemma JumpUnfold(N: nat, b: seq<Square>, s: int, fuel: nat)
    requires |b| == N * N && 0 <= s < |b| && WinnerOf(b) == None && fuel > 0
    ensures N > 0 && Exists(N, Row(N, s), Col(N, s))
    ensures JumpF(N, b, s, fuel) ==
      Spread(N, SetF(b, s, b[s].spots - Neighbors(N, s), b[s].side), b[s].side, Row(N, s), Col(N, s), fuel)
  {
    SquareRoundTrip(N, s);
  }

  /** addSpot on a square that does not become over-full only stores the
      extra spot for p. */
  lemma AddSpotQuiet(N: nat, b: seq<Square>, p: Side, n: int)
    requires |b| == N * N && 0 <= n < |b|
    requires N > 0 && b[n].spots + 1 <= Neighbors(N, n)
    ensures AddSpotF(N, b, p, n) == SetF(b, n, b[n].spots + 1, p)
  {
  }

  /** addSpot on a square that becomes over-full, on a board still
      undecided, jumps from it. */
  lemma AddSpotJumps(N: nat, b: seq<Square>, p: Side, n: int)
    requires |b| == N * N && 0 <= n < |b|
    requires N > 0 && b[n].spots + 1 > Neighbors(N, n) && WinnerOf(SetF(b, n, b[n].spots + 1, p)) == None
    ensures AddSpotF(N, b, p, n) == JumpF(N, SetF(b, n, b[n].spots + 1, p), n, MaxJumpDepth)
  {
  }

  /** JumpUnfold for square s given by its row r and column c, with its
      owner p and the discharged board d. */
  lemma JumpUnfoldAt(N: nat, b: seq<Square>, s: int, fuel: nat, r: int, c: int, p: Side, d: seq<Square>)
    requires |b| == N * N && Exists(N, r, c) && s == SqNum(N, r, c) && 0 <= s < |b|
    requires WinnerOf(b) == None && fuel > 0 && p == b[s].side
    requires d == SetF(b, s, b[s].spots - NeighborsAt(N, r, c), p)
    ensures |d| == |b|
    ensures JumpF(N, b, s, fuel) == Spread(N, d, p, r, c, fuel)
  {
    CoordRoundTrip(N, r, c);
    JumpUnfold(N, b, s, fuel);
  }

  /** Spread is its four branches applied in turn. */
  lemma SpreadUnfold(N: nat, b: seq<Square>, p: Side, r: int, c: int, fuel: nat,
                     b1: seq<Square>, b2: seq<Square>, b3: seq<Square>, b4: seq<Square>)
    requires |b| == N * N && Exists(N, r, c) && fuel > 0
    requires b1 == if r > 1 then Spill(N, b, p, r - 1, c, fuel) else b
    requires b2 == if c > 1 then Spill(N, b1, p, r, c - 1, fuel) else b1
    requires b3 == if r < N then Spill(N, b2, p, r + 1, c, fuel) else b2
    requires b4 == if c < N then Spill(N, b3, p, r, c + 1, fuel) else b3
    ensures Spread(N, b, p, r, c, fuel) == b4
  {
  }

  /** The four branches of a jump from row r, column c (square s) when none
      of them starts another one are four single-spot additions. */
  lemma QuietSpreadSteps(N: nat, b: seq<Square>, p: Side, r: int, c: int, s: int, fuel: nat)
    requires |b| == N * N && Exists(N, r, c) && s == SqNum(N, r, c) && fuel > 0
    requires r > 1 ==> 0 <= s - N < |b| && 0 <= b[s - N].spots < Neighbors(N, s - N)
    requires c > 1 ==> 0 <= s - 1 < |b| && 0 <= b[s - 1].spots < Neighbors(N, s - 1)
    requires r < N ==> 0 <= s + N < |b| && 0 <= b[s + N].spots < Neighbors(N, s + N)
    requires c < N ==> 0 <= s + 1 < |b| && 0 <= b[s + 1].spots < Neighbors(N, s + 1)
    ensures Spread(N, b, p, r, c, fuel) ==
      Bump(Bump(Bump(Bump(b, s - N, p, r > 1), s - 1, p, c > 1), s + N, p, r < N), s + 1, p, c < N)
  {
    NeighborIndex(N, r, c);
    assert r > 1 || c > 1 || r < N || c < N ==> N >= 2;
    QuietTwo(N, b, p, r - 1, c, s - N, r > 1, r, c - 1, s - 1, c > 1, fuel);
    var b2 := Bump(Bump(b, s - N, p, r > 1), s - 1, p, c > 1);
    assert r < N ==> b2[s + N] == b[s + N];
    assert c < N ==> b2[s + 1] == b[s + 1];
    QuietTwo(N, b2, p, r + 1, c, s + N, r < N, r, c + 1, s + 1, c < N, fuel);
    SpreadHalves(N, b, p, r, c, fuel, b2);
  }

  /** Spread is its first two branches followed by its last two. */
  lemma SpreadHalves(N: nat, b: seq<Square>, p: Side, r: int, c: int, fuel: nat, b2: seq<Square>)
    requires |b| == N * N && Exists(N, r, c) && fuel > 0
    requires b2 == Branch(N, Branch(N, b, p, r - 1, c, fuel, r > 1), p, r, c - 1, fuel, c > 1)
    ensures Spread(N, b, p, r, c, fuel) == Branch(N, Branch(N, b2, p, r + 1, c, fuel, r < N), p, r, c + 1, fuel, c < N)
  {
  }

  /** Two branches of a jump onto distinct squares below capacity are two
      single-spot additions. */
  lemma QuietTwo(N: nat, b: seq<Square>, p: Side, r: int, c: int, t: int, cond: bool,
                 r': int, c': int, t': int, cond': bool, fuel: nat)
    requires |b| == N * N && fuel > 0 && t == SqNum(N, r, c) && t' == SqNum(N, r', c') && (cond && cond' ==> t != t')
    requires cond ==> (Exists(N, r, c) && 0 <= t < |b| && 0 <= b[t].spots < Neighbors(N, t))
    requires cond' ==> (Exists(N, r', c') && 0 <= t' < |b| && 0 <= b[t'].spots < Neighbors(N, t'))
    ensures Branch(N, Branch(N, b, p, r, c, fuel, cond), p, r', c', fuel, cond') == Bump(Bump(b, t, p, cond), t', p, cond')
  {
    QuietStep(N, b, p, r, c, t, fuel, cond);
    QuietStep(N, Bump(b, t, p, cond), p, r', c', t', fuel, cond');
  }

  /** One branch of a jump onto a square t below capacity is a single-spot
      addition. */
  lemma QuietStep(N: nat, b: seq<Square>, p: Side, r: int, c: int, t: int, fuel: nat, cond: bool)
    requires |b| == N * N && fuel > 0 && t == SqNum(N, r, c)
    requires cond ==> (Exists(N, r, c) && 0 <= t < |b| && 0 <= b[t].spots < Neighbors(N, t))
    ensures Branch(N, b, p, r, c, fuel, cond) == Bump(b, t, p, cond)
  {
    if cond { SpillQuiet(N, b, p, r, c, fuel); }
  }

  /** Square i after the four single-spot additions around s. */
  lemma BumpsAt(N: nat, b: seq<Square>, p: Side, s: int, i: int, up: bool, left: bool, down: bool, right: bool)
    requires 0 <= i < |b|
    requires (up || down) ==> N >= 2
    requires left || right ==> N >= 2
    ensures Bump(Bump(Bump(Bump(b, s - N, p, up), s - 1, p, left), s + N, p, down), s + 1, p, right)[i] ==
      if (up && i == s - N) || (left && i == s - 1) || (down && i == s + N) || (right && i == s + 1)
      then Square(p, b[i].spots + 1) else b[i]
  {
  }

  /** A square orthogonally adjacent to s is below capacity when every
      square adjacent to s is. */
  lemma QuietAt(N: nat, b: seq<Square>, s: int, r': int, c': int, t: int)
    requires |b| == N * N && 0 <= s < |b|
    requires forall i :: 0 <= i < |b| && i != s && Adjacent(Row(N, s), Col(N, s), Row(N, i), Col(N, i)) ==>
      0 <= b[i].spots < Neighbors(N, i)
    requires Exists(N, r', c') && Adjacent(Row(N, s), Col(N, s), r', c') && t == SqNum(N, r', c')
    ensures 0 <= t < |b| && 0 <= b[t].spots < Neighbors(N, t)
  {
    CoordRoundTrip(N, r', c');
    SquareRoundTrip(N, s);
  }

  /** The four branches of a jump when none of them starts another one: the
      squares adjacent to s gain a spot of p and nothing else changes. */
  lemma QuietSpread(N: nat, b: seq<Square>, p: Side, s: int, fuel: nat)
    requires |b| == N * N && 0 <= s < |b| && fuel > 0
    requires forall i :: 0 <= i < |b| && i != s && Adjacent(Row(N, s), Col(N, s), Row(N, i), Col(N, i)) ==>
      0 <= b[i].spots < Neighbors(N, i)
    ensures N > 0 && Exists(N, Row(N, s), Col(N, s))
    ensures forall i :: 0 <= i < |b| ==>
      Spread(N, b, p, Row(N, s), Col(N, s), fuel)[i] ==
        if i != s && Adjacent(Row(N, s), Col(N, s), Row(N, i), Col(N, i)) then Square(p, b[i].spots + 1) else b[i]
  {
    SquareRoundTrip(N, s);
    QuietNeighbours(N, b, s);
    QuietSpreadSteps(N, b, p, Row(N, s), Col(N, s), s, fuel);
    BumpsAround(N, b, p, s);
  }

  /** The squares above, left of, below and right of s, as far as the board
      reaches, are below capacity when every square adjacent to s is. */
  lemma QuietNeighbours(N: nat, b: seq<Square>, s: int)
    requires |b| == N * N && 0 <= s < |b|
    requires forall i :: 0 <= i < |b| && i != s && Adjacent(Row(N, s), Col(N, s), Row(N, i), Col(N, i)) ==>
      0 <= b[i].spots < Neighbors(N, i)
    ensures Row(N, s) > 1 ==> 0 <= s - N < |b| && 0 <= b[s - N].spots < Neighbors(N, s - N)
    ensures Col(N, s) > 1 ==> 0 <= s - 1 < |b| && 0 <= b[s - 1].spots < Neighbors(N, s - 1)
    ensures Row(N, s) < N ==> 0 <= s + N < |b| && 0 <= b[s + N].spots < Neighbors(N, s + N)
    ensures Col(N, s) < N ==> 0 <= s + 1 < |b| && 0 <= b[s + 1].spots < Neighbors(N, s + 1)
  {
    SquareRoundTrip(N, s);
    var r, c := Row(N, s), Col(N, s);
    NeighborIndex(N, r, c);
    if r > 1 { QuietAt(N, b, s, r - 1, c, s - N); }
    if c > 1 { QuietAt(N, b, s, r, c - 1, s - 1); }
    if r < N { QuietAt(N, b, s, r + 1, c, s + N); }
    if c < N { QuietAt(N, b, s, r, c + 1, s + 1); }
  }

  /** The four single-spot additions around s touch exactly the squares
      adjacent to s. */
  lemma BumpsAround(N: nat, b: seq<Square>, p: Side, s: int)
    requires |b| == N * N && 0 <= s < |b|
    ensures N > 0
    ensures forall i :: 0 <= i < |b| ==>
      Bump(Bump(Bump(Bump(b, s - N, p, Row(N, s) > 1), s - 1, p, Col(N, s) > 1), s + N, p, Row(N, s) < N),
           s + 1, p, Col(N, s) < N)[i] ==
        if i != s && Adjacent(Row(N, s), Col(N, s), Row(N, i), Col(N, i)) then Square(p, b[i].spots + 1) else b[i]
  {
    SquareRoundTrip(N, s);
    var r, c := Row(N, s), Col(N, s);
    forall i | 0 <= i < |b|
      ensures Bump(Bump(Bump(Bump(b, s - N, p, r > 1), s - 1, p, c > 1), s + N, p, r < N), s + 1, p, c < N)[i] ==
        if i != s && Adjacent(r, c, Row(N, i), Col(N, i)) then Square(p, b[i].spots + 1) else b[i]
    {
      AdjacentIndex(N, s, i);
      BumpsAt(N, b, p, s, i, r > 1, c > 1, r < N, c < N);
    }
  }

  /** When no neighbour of the over-full square s is at capacity, jump(s)
      is exactly one discharge. */
  lemma QuietJump(N: nat, b: seq<Square>, s: int, fuel: nat)
    requires |b| == N * N && 0 <= s < |b| && AllPositive(b)
    requires b[s].spots > Neighbors(N, s) && WinnerOf(b) == None && fuel > 0
    requires forall i :: 0 <= i < |b| && i != s && Adjacent(Row(N, s), Col(N, s), Row(N, i), Col(N, i)) ==>
      b[i].spots < Neighbors(N, i)
    ensures JumpF(N, b, s, fuel) == Discharged(N, b, s)
  {
    SquareRoundTrip(N, s);
    var p := b[s].side;
    var b0 := SetF(b, s, b[s].spots - Neighbors(N, s), p);
    assert b0 == b[s := Square(p, b[s].spots - Neighbors(N, s))];
    QuietSpread(N, b0, p, s, fuel);
    assert JumpF(N, b, s, fuel) == Spread(N, b0, p, Row(N, s), Col(N, s), fuel);
    assert forall i :: 0 <= i < |b| && i != s ==> b0[i] == b[i];
    assert !Adjacent(Row(N, s), Col(N, s), Row(N, s), Col(N, s));
  }
}
