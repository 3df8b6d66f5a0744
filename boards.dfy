/** The Jump61 board as the mutable object the game and the search work on:
    its squares, its undo history of full-board snapshots and its move
    counter. BoardState and the functions on it say what each operation does
    to the whole object; the class Board performs them in place and is
    proved against them. */
module Boards {
  import opened JavaInts
  import opened Wrappers
  import opened Squares
  import opened Geometry
  import opened Rules
  import opened Cascade
  import opened Text

  /** Everything a Board holds that the model keeps: the side length, the
      squares in row-major order, the undo history (None is the null entry
      a fresh or cleared board starts with) and the number of moves made. */
  datatype BoardState = BoardState(size: nat, cells: seq<Square>, history: seq<Option<seq<Square>>>, moveNum: nat)

  /** The squares a history entry stands for: null stands for a fresh board. */
  function Snapshot(N: nat, h: Option<seq<Square>>): (b: seq<Square>)
    ensures h.None? ==> b == Initial(N * N)
    ensures h.Some? ==> b == h.value
  {
    match h
    case None => Initial(N * N)
    case Some(b) => b
  }

  /** What internalCopy leaves behind: each square rewritten through
      internalSet with its own spots and side. */
  function Copied(src: seq<Square>): (b: seq<Square>)
    ensures |b| == |src| && AllPositive(b)
    ensures forall i :: 0 <= i < |src| ==> b[i] == Stored(src[i].spots, src[i].side)
  {
    seq(|src|, i requires 0 <= i < |src| => Stored(src[i].spots, src[i].side))
  }

  /** Copying squares that all hold a spot reproduces them exactly, and any
      copy is such a list. */
  lemma CopiedIdentity(src: seq<Square>)
    ensures AllPositive(src) ==> Copied(src) == src
    ensures Copied(Copied(src)) == Copied(src)
  {
    if AllPositive(src) {
      assert forall i :: 0 <= i < |src| ==> Copied(src)[i] == src[i];
    }
  }

  /** The invariant every board the source builds keeps: well-formed
      squares whose size fits a Java int, well-formed snapshots, and no null
      entry after the first. */
  predicate ValidState(st: BoardState)
  {
    WellFormed(st.size, st.cells) && st.size * st.size <= MaxInt &&
    (forall i :: 0 <= i < |st.history| && st.history[i].Some? ==> WellFormed(st.size, st.history[i].value)) &&
    (forall i :: 1 <= i < |st.history| ==> st.history[i].Some?)
  }

  /** The history is the one a constructor or clear set up and addSpot
      extended: one entry per move made plus the starting entry, the last of
      them the current squares. */
  predicate SyncedState(st: BoardState)
  {
    |st.history| == st.moveNum + 1 && Snapshot(st.size, st.history[st.moveNum]) == st.cells
  }

  /** markUndo: count the move and append a copy of the current squares. */
  function MarkUndoS(st: BoardState): BoardState
  {
    st.(moveNum := st.moveNum + 1, history := st.history + [Some(Copied(st.cells))])
  }

  /** addSpot(p, n) on the whole board: the move, then markUndo. */
  function AddSpotS(st: BoardState, p: Side, n: int): BoardState
    requires |st.cells| == st.size * st.size && 0 <= n < |st.cells|
  {
    MarkUndoS(st.(cells := AddSpotF(st.size, st.cells, p, n)))
  }

  /** What undo needs in order not to throw: a move to undo whose entry
      can be removed, and (unless it is the first move after a clear) a
      non-null snapshot of the right size before it. */
  predicate CanUndo(st: BoardState)
  {
    |st.cells| == st.size * st.size && 1 <= st.moveNum < |st.history| &&
    ((st.moveNum == 1 && st.history[0] == None) ||
     (st.history[st.moveNum - 1].Some? && |st.history[st.moveNum - 1].value| == st.size * st.size))
  }

  /** undo on the whole board: restore the snapshot before the last move
      (a fresh board if that entry is the initial null), drop the last
      move's entry and uncount it. */
  function UndoS(st: BoardState): (r: BoardState)
    requires CanUndo(st)
    ensures r.size == st.size && r.moveNum == st.moveNum - 1 && |r.history| == |st.history| - 1
  {
    var restored :=
      if st.moveNum == 1 && st.history[0] == None then Copied(Initial(st.size * st.size))
      else Copied(st.history[st.moveNum - 1].value);
    st.(cells := restored,
        history := st.history[..st.moveNum] + st.history[st.moveNum + 1..],
        moveNum := st.moveNum - 1)
  }

  // ---- Properties of the whole-board operations

  /** A fresh board (the constructor or clear) is valid and its history is
      in step with it. */
  lemma FreshStateSynced(N: nat)
    requires N * N <= MaxInt
    ensures ValidState(BoardState(N, Initial(N * N), [None], 0))
    ensures SyncedState(BoardState(N, Initial(N * N), [None], 0))
  {
  }

  /** addSpot keeps the board valid and its history in step, adds one spot,
      counts one move and passes the turn. */
  lemma AddSpotKeepsValid(st: BoardState, p: Side, n: int)
    requires ValidState(st) && 0 <= n < |st.cells|
    ensures ValidState(AddSpotS(st, p, n))
    ensures SyncedState(st) ==> SyncedState(AddSpotS(st, p, n))
    ensures AddSpotS(st, p, n).moveNum == st.moveNum + 1
    ensures TotalSpots(AddSpotS(st, p, n).cells) == TotalSpots(st.cells) + 1
    ensures SideToMove(st.size, AddSpotS(st, p, n).cells) == Opposite(SideToMove(st.size, st.cells))
  {
    AddSpotAddsOne(st.size, st.cells, p, n);
    CopiedIdentity(AddSpotF(st.size, st.cells, p, n));
  }

  /** undo keeps the board valid. */
  lemma UndoKeepsValid(st: BoardState)
    requires ValidState(st) && CanUndo(st)
    ensures ValidState(UndoS(st))
  {
    var h := st.history;
    var m := st.moveNum;
    var h' := h[..m] + h[m + 1..];
    assert forall i :: 0 <= i < |h'| ==> h'[i] == (if i < m then h[i] else h[i + 1]);
  }

  /** On a board whose history is in step, undo exactly reverses addSpot:
      squares, history and move count all come back. */
  lemma UndoAfterAddSpot(st: BoardState, p: Side, n: int)
    requires ValidState(st) && SyncedState(st) && 0 <= n < |st.cells|
    ensures CanUndo(AddSpotS(st, p, n))
    ensures UndoS(AddSpotS(st, p, n)) == st
  {
    var st1 := AddSpotS(st, p, n);
    AddSpotAddsOne(st.size, st.cells, p, n);
    var m := st.moveNum;
    assert st1.history == st.history + [Some(Copied(st1.cells))];
    assert st1.history[m] == st.history[m];
    assert st1.history[..m + 1] + st1.history[m + 2..] == st.history;
    CopiedIdentity(st.cells);
    if m == 0 && st.history[0] == None {
      assert st.cells == Initial(st.size * st.size);
    } else {
      assert st.history[m].Some?;
      assert st.history[m].value == st.cells;
    }
  }

  /** undo only ever needs a history the board is in step with: after any
      number of addSpots from a synced valid board, each undo is possible. */
  lemma SyncedCanUndo(st: BoardState)
    requires ValidState(st) && SyncedState(st) && st.moveNum >= 1
    ensures CanUndo(st)
    ensures SyncedState(UndoS(st))
  {
    var m := st.moveNum;
    var h := st.history;
    assert m - 1 >= 1 ==> h[m - 1].Some?;
    var st' := UndoS(st);
    assert st'.history == h[..m];
    CopiedIdentity(Initial(st.size * st.size));
    if !(m == 1 && h[0] == None) {
      CopiedIdentity(h[m - 1].value);
    }
  }

  // ---- Equality

  /** equals as written: every square of the first board exists on the
      second and matches it, whatever the second board's size. */
  predicate EqualsAsWrittenF(N: nat, b: seq<Square>, M: nat, b': seq<Square>)
    requires |b| == N * N && |b'| == M * M
  {
    N * N <= M * M && forall i :: 0 <= i < N * N ==> b[i] == b'[i]
  }

  /** Board equality as hashCode needs it: same size and the same square at
      every index. */
  predicate SameBoard(N: nat, b: seq<Square>, M: nat, b': seq<Square>)
    requires |b| == N * N && |b'| == M * M
  {
    N == M && forall i :: 0 <= i < N * N ==> b[i] == b'[i]
  }

  /** For boards of one size, equals as written is exactly square-by-square
      equality. */
  lemma EqualsAsWrittenSameSize(N: nat, b: seq<Square>, b': seq<Square>)
    requires |b| == N * N && |b'| == N * N
    ensures EqualsAsWrittenF(N, b, N, b') <==> b == b'
    ensures EqualsAsWrittenF(N, b, N, b') <==> SameBoard(N, b, N, b')
  {
    if EqualsAsWrittenF(N, b, N, b') {
      assert forall i :: 0 <= i < |b| ==> b[i] == b'[i];
    }
  }

  /** Equal boards (in the corrected sense) are the same list of squares,
      equality is symmetric, and equal boards have equal hash codes. */
  lemma SameBoardSpec(N: nat, b: seq<Square>, M: nat, b': seq<Square>)
    requires |b| == N * N && |b'| == M * M
    ensures SameBoard(N, b, M, b') <==> N == M && b == b'
    ensures SameBoard(N, b, M, b') <==> SameBoard(M, b', N, b)
    ensures SameBoard(N, b, M, b') ==> TotalSpots(b) == TotalSpots(b')
  {
    if SameBoard(N, b, M, b') {
      assert forall i :: 0 <= i < |b| ==> b[i] == b'[i];
    }
  }

  /** equals as written calls a fresh 1 x 1 board equal to a fresh 2 x 2
      one, although their hash codes (1 and 4 spots) differ and the
      comparison the other way round says they are not equal. */
  lemma EqualsAsWrittenCounterexample()
    ensures EqualsAsWrittenF(1, Initial(1), 2, Initial(4))
    ensures TotalSpots(Initial(1)) == 1 && TotalSpots(Initial(4)) == 4
    ensures !EqualsAsWrittenF(2, Initial(4), 1, Initial(1))
  {
    InitialTotal(1);
    InitialTotal(4);
  }

  /** A Java Board object. */
  class Board {
    var size: nat
    var cells: seq<Square>
    var history: seq<Option<seq<Square>>>
    var moveNum: nat

    /** The whole object as a value. */
    function State(): BoardState
      reads this
    {
      BoardState(size, cells, history, moveNum)
    }

    predicate Valid()
      reads this
    {
      ValidState(State())
    }

    predicate Synced()
      reads this
    {
      SyncedState(State())
    }

    /** The N*N white one-spot squares a fresh board is filled with. */
    static method FreshSquares(k: nat) returns (b: seq<Square>)
      ensures b == Initial(k)
    {
      b := [];
      var i := 0;
      while i < k
        invariant 0 <= i <= k && b == Initial(i)
      {
        b := b + [Square(WHITE, 1)];
        i := i + 1;
      }
    }

    /** An N x N board in its initial configuration, with a null history
      entry and no moves. */
    constructor (N: nat)
      ensures State() == BoardState(N, Initial(N * N), [None], 0)
    {
      var b := FreshSquares(N * N);
      size := N;
      cells := b;
      history := [None];
      moveNum := 0;
    }

    /** A board whose squares are copied from board0 and whose history holds
      board0's squares as its only entry. */
    constructor FromBoard(board0: Board)
      requires |board0.cells| == board0.size * board0.size
      ensures State() == BoardState(board0.size, Copied(board0.cells), [Some(board0.cells)], 0)
    {
      var b := FreshSquares(board0.size * board0.size);
      size := board0.size;
      cells := b;
      history := [None];
      moveNum := 0;
      new;
      Copy(board0);
      history := history + [Some(board0.cells)];
    }

    /** Reinitialise to a cleared N x N board with a fresh history. */
    method Clear(N: nat)
      modifies this
      ensures State() == BoardState(N, Initial(N * N), [None], 0)
    {
      size := N;
      cells := FreshSquares(N * N);
      history := [None];
      moveNum := 0;
    }

    /** Copy board's squares into me, clearing my history (which leaves no
      entry at all: only FromBoard goes on to add one). */
    method Copy(board: Board)
      modifies this
      requires board.size == size && |cells| == size * size && |board.cells| == size * size
      ensures State() == BoardState(old(size), Copied(old(board.cells)), [], 0)
    {
      InternalCopy(board);
      history := [];
      moveNum := 0;
    }

    /** Copy board's squares into me, leaving my history alone. */
    method InternalCopy(board: Board)
      modifies this
      requires board.size == size && |cells| == size * size && |board.cells| == size * size
      ensures size == old(size) && history == old(history) && moveNum == old(moveNum)
      ensures cells == Copied(old(board.cells))
    {
      CopyCells(board.cells);
    }

    /** The loop of internalCopy: internalSet each square from src. */
    method CopyCells(src: seq<Square>)
      modifies this
      requires |cells| == size * size && |src| == size * size
      ensures size == old(size) && history == old(history) && moveNum == old(moveNum)
      ensures cells == Copied(src)
    {
      var i := 0;
      while i < size * size
        invariant 0 <= i <= size * size == |cells|
        invariant size == old(size) && history == old(history) && moveNum == old(moveNum)
        invariant cells[..i] == Copied(src)[..i]
      {
        InternalSet(i, src[i].spots, src[i].side);
        i := i + 1;
      }
    }

    /** numPieces: the total number of spots. */
    method NumPieces() returns (result: int)
      ensures result == TotalSpots(cells)
    {
      result := 0;
      var i := 0;
      while i < |cells|
        invariant 0 <= i <= |cells| && result == TotalSpots(cells[..i])
      {
        assert cells[..i + 1][..i] == cells[..i];
        result := result + cells[i].spots;
        i := i + 1;
      }
      assert cells[..|cells|] == cells;
    }

    /** whoseMove: RED when spots plus size is even, otherwise BLUE. */
    method WhoseMove() returns (s: Side)
      ensures s == SideToMove(size, cells)
    {
      var n := NumPieces();
      s := if (n + size) % 2 == 0 then RED else BLUE;
    }

    /** getWinner: scan the squares, giving up at the first WHITE one. */
    method GetWinner() returns (w: Option<Side>)
      ensures w == WinnerOf(cells)
    {
      var redWin, blueWin := true, true;
      var i := 0;
      while i < |cells|
        invariant 0 <= i <= |cells|
        invariant WinFrom(cells, i, redWin, blueWin) == WinnerOf(cells)
      {
        if cells[i].side == RED {
          blueWin := false;
        } else if cells[i].side == BLUE {
          redWin := false;
        } else {
          return None;
        }
        i := i + 1;
      }
      w := if redWin then Some(RED) else if blueWin then Some(BLUE) else None;
    }

    /** numOfSide: the number of squares owned by side. */
    method NumOfSide(side: Side) returns (result: int)
      ensures result == CountSide(cells, side)
    {
      result := 0;
      var i := 0;
      while i < |cells|
        invariant 0 <= i <= |cells| && result == CountSide(cells[..i], side)
      {
        assert cells[..i + 1][..i] == cells[..i];
        if cells[i].side == side {
          result := result + 1;
        }
        i := i + 1;
      }
      assert cells[..|cells|] == cells;
    }

    /** isLegal(player): nobody has won and it is player's turn. */
    method IsLegalSide(player: Side) returns (r: bool)
      ensures r == LegalSide(size, cells, player)
    {
      var w := GetWinner();
      if w != None {
        return false;
      }
      var s := WhoseMove();
      r := player == s;
    }

    /** isLegal(player, n). */
    method IsLegal(player: Side, n: int) returns (r: bool)
      requires |cells| == size * size
      ensures r == Legal(size, cells, player, n)
    {
      if n < 0 || n >= size * size {
        return false;
      }
      var w := GetWinner();
      if w != None {
        return false;
      }
      if cells[n].side == WHITE || cells[n].side == player {
        r := IsLegalSide(player);
      } else {
        r := false;
      }
    }

    /** isLegal(player, r, c). */
    method IsLegalAt(player: Side, r: int, c: int) returns (ok: bool)
      requires |cells| == size * size
      ensures ok == Legal(size, cells, player, SqNum(size, r, c))
    {
      ok := IsLegal(player, SqNum(size, r, c));
    }

    /** internalSet(n, num, player): replace square n, storing (WHITE, 1)
      for a non-positive count. */
    method InternalSet(n: int, num: int, player: Side)
      modifies this
      requires 0 <= n < |cells|
      ensures size == old(size) && history == old(history) && moveNum == old(moveNum)
      ensures |cells| == |old(cells)|
      ensures cells[n] == if num <= 0 then Square(WHITE, 1) else Square(player, num)
      ensures forall i :: 0 <= i < |cells| && i != n ==> cells[i] == old(cells)[i]
      ensures cells == SetF(old(cells), n, num, player)
    {
      var sq := if num <= 0 then Square(WHITE, 1) else Square(player, num);
      cells := cells[..n] + [sq] + cells[n + 1..];
    }

    /** set(r, c, num, player) and its private twin internalSet(r, c, ...). */
    method Set(r: int, c: int, num: int, player: Side)
      modifies this
      requires 0 <= SqNum(size, r, c) < |cells|
      ensures size == old(size) && history == old(history) && moveNum == old(moveNum)
      ensures cells == SetF(old(cells), SqNum(size, r, c), num, player)
    {
      InternalSet(SqNum(size, r, c), num, player);
    }

    /** simpleAdd(player, n, deltaSpots). */
    method SimpleAdd(player: Side, n: int, deltaSpots: int)
      modifies this
      requires 0 <= n < |cells|
      ensures size == old(size) && history == old(history) && moveNum == old(moveNum)
      ensures cells == SetF(old(cells), n, deltaSpots + old(cells)[n].spots, player)
    {
      InternalSet(n, deltaSpots + cells[n].spots, player);
    }

    /** simpleAdd(player, r, c, deltaSpots). */
    method SimpleAddAt(player: Side, r: int, c: int, deltaSpots: int)
      modifies this
      requires 0 <= SqNum(size, r, c) < |cells|
      ensures size == old(size) && history == old(history) && moveNum == old(moveNum)
      ensures cells == SetF(old(cells), SqNum(size, r, c), deltaSpots + old(cells)[SqNum(size, r, c)].spots, player)
    {
      SimpleAdd(player, SqNum(size, r, c), deltaSpots);
    }

    /** jump(s), nested at most fuel deep. */
    method Jump(s: int, fuel: nat)
      modifies this
      requires |cells| == size * size && 0 <= s < |cells|
      ensures size == old(size) && history == old(history) && moveNum == old(moveNum)
      ensures cells == JumpF(size, old(cells), s, fuel)
      decreases fuel, 3
    {
      ghost var b := cells;
      var w := GetWinner();
      if w == None && fuel > 0 {
        SquareRoundTrip(size, s);
        var player := cells[s].side;
        var r, c := Row(size, s), Col(size, s);
        InternalSet(s, cells[s].spots - Neighbors(size, s), player);
        JumpUnfold(size, b, s, fuel);
        Discharge(player, r, c, fuel);
      }
    }

    /** The four branches of jump from row r, column c, in the source's
      order. */
    method Discharge(player: Side, r: int, c: int, fuel: nat)
      modifies this
      requires |cells| == size * size && Exists(size, r, c) && fuel > 0
      ensures size == old(size) && history == old(history) && moveNum == old(moveNum)
      ensures cells == Spread(size, old(cells), player, r, c, fuel)
      decreases fuel, 1
    {
      ghost var b0 := cells;
      if r > 1 { Spill(player, r - 1, c, fuel); }
      ghost var b1 := cells;
      if c > 1 { Spill(player, r, c - 1, fuel); }
      ghost var b2 := cells;
      if r < size { Spill(player, r + 1, c, fuel); }
      ghost var b3 := cells;
      if c < size { Spill(player, r, c + 1, fuel); }
      SpreadUnfold(size, b0, player, r, c, fuel, b1, b2, b3, cells);
    }

    /** One branch of jump: add a spot of player at row r, column c and jump
      from there if that square is now over-full. */
    method Spill(player: Side, r: int, c: int, fuel: nat)
      modifies this
      requires |cells| == size * size && Exists(size, r, c) && fuel > 0
      ensures size == old(size) && history == old(history) && moveNum == old(moveNum)
      ensures cells == Rules.Spill(size, old(cells), player, r, c, fuel)
      decreases fuel, 0
    {
      CoordRoundTrip(size, r, c);
      SimpleAddAt(player, r, c, 1);
      if cells[SqNum(size, r, c)].spots > NeighborsAt(size, r, c) {
        Jump(SqNum(size, r, c), fuel - 1);
      }
    }

    /** addSpot(player, n). */
    method AddSpot(player: Side, n: int)
      modifies this
      requires |cells| == size * size && 0 <= n < |cells|
      ensures State() == AddSpotS(old(State()), player, n)
    {
      SquareRoundTrip(size, n);
      Set(Row(size, n), Col(size, n), cells[n].spots + 1, player);
      if Neighbors(size, n) < cells[n].spots {
        var w := GetWinner();
        if w == None {
          Jump(n, MaxJumpDepth);
        }
      }
      MarkUndo();
    }

    /** addSpot(player, r, c). */
    method AddSpotAt(player: Side, r: int, c: int)
      modifies this
      requires |cells| == size * size && 0 <= SqNum(size, r, c) < |cells|
      ensures State() == AddSpotS(old(State()), player, SqNum(old(size), r, c))
    {
      AddSpot(player, SqNum(size, r, c));
    }

    /** markUndo: count the move and append a copy of the squares. */
    method MarkUndo()
      modifies this
      requires |cells| == size * size
      ensures State() == MarkUndoS(old(State()))
    {
      moveNum := moveNum + 1;
      var newBoard := new Board(size);
      newBoard.InternalCopy(this);
      history := history + [Some(newBoard.cells)];
    }

    /** undo: restore the squares from before the last move. */
    method Undo()
      modifies this
      requires CanUndo(State())
      ensures State() == UndoS(old(State()))
    {
      if moveNum == 1 && history[0] == None {
        var blank := new Board(size);
        InternalCopy(blank);
      } else {
        CopyCells(history[moveNum - 1].value);
      }
      history := history[..moveNum] + history[moveNum + 1..];
      moveNum := moveNum - 1;
    }

    /** equals as written: scan my squares, failing at the first that the
      other board lacks or that differs. */
    method EqualsAsWritten(other: Board?) returns (r: bool)
      requires |cells| == size * size
      requires other != null ==> |other.cells| == other.size * other.size
      ensures r == (other != null && EqualsAsWrittenF(size, cells, other.size, other.cells))
    {
      if other == null {
        return false;
      }
      var i := 0;
      while i < size * size
        invariant 0 <= i <= size * size
        invariant i <= other.size * other.size
        invariant forall j :: 0 <= j < i ==> cells[j] == other.cells[j]
      {
        if i >= other.size * other.size {
          return false;
        }
        if cells[i].side != other.cells[i].side || cells[i].spots != other.cells[i].spots {
          return false;
        }
        i := i + 1;
      }
      r := true;
    }

    /** equals, corrected to compare the sizes first. */
    method Equals(other: Board?) returns (r: bool)
      requires |cells| == size * size
      requires other != null ==> |other.cells| == other.size * other.size
      ensures r == (other != null && SameBoard(size, cells, other.size, other.cells))
    {
      if other == null || other.size != size {
        return false;
      }
      var i := 0;
      while i < size * size
        invariant 0 <= i <= size * size
        invariant forall j :: 0 <= j < i ==> cells[j] == other.cells[j]
      {
        if cells[i].side != other.cells[i].side || cells[i].spots != other.cells[i].spots {
          return false;
        }
        i := i + 1;
      }
      r := true;
    }

    /** toString's loop, with the row test as written or corrected: "===",
      then each square's token, a new indented line where a row starts,
      and "\n===" at the end. */
    method DumpWith(corrected: bool) returns (s: string)
      ensures s == "===" + DumpCells(size, Tokens(cells), |cells|, corrected) + "\n==="
    {
      ghost var t := Tokens(cells);
      var out := "===";
      var i := 1;
      while i <= |cells|
        invariant 1 <= i <= |cells| + 1
        invariant out == "===" + DumpCells(size, t, i - 1, corrected)
      {
        var tok := SquareToken(cells[i - 1]);
        var nl := if RowBreak(size, i, corrected) then "\n    " else "";
        TokensAt(cells, i - 1);
        DumpStep(size, t, i, corrected, out, nl, tok);
        out := out + nl + tok;
        i := i + 1;
      }
      s := out + "\n===";
    }

    /** toString as written. */
    method ToStringAsWritten() returns (s: string)
      requires |cells| == size * size
      ensures s == DumpAsWritten(size, cells)
    {
      s := DumpWith(false);
    }

    /** toString with the corrected row test: the dump is "===", one indented
      line per row and "\n===". */
    method ToString() returns (s: string)
      requires |cells| == size * size
      ensures s == Dump(size, cells)
      ensures s == "===" + RowsText(size, Tokens(cells), size) + "\n==="
    {
      s := DumpWith(true);
      DumpIsRows(size, cells);
    }

    /** hashCode: the number of spots. */
    method HashCode() returns (h: int)
      ensures h == TotalSpots(cells)
    {
      h := NumPieces();
    }
  }
}
