/** The automated player: a depth-4 alpha-beta search run on a scratch copy
    of the game's board, moving spots onto it with addSpot and taking them
    back with undo. Each method is proved against the search functions of
    module Minimax. */
module Players {
  import opened JavaInts
  import opened Wrappers
  import opened Squares
  import opened Rules
  import opened Boards
  import opened Minimax

  /** The search depth searchForMove uses. */
  const SearchDepth: nat := 4

  /** The sense of the search for a player: 1 for RED, -1 otherwise. */
  function SenseOf(side: Side): int
  {
    if side == RED then 1 else -1
  }

  /** An AI player. Its game, colour and random generator are left out;
      the colour is passed to SearchForMove. */
  class AI {
    /** _foundMove: the move the top-level search records. */
    var foundMove: int

    constructor ()
      ensures foundMove == 0
    {
      foundMove := 0;
    }

    /** searchForMove: search a copy of game for side, starting the
        recorded move at -1, and return whatever the search recorded. */
    method SearchForMove(game: Board, side: Side) returns (move: int)
      modifies this
      requires game.Valid()
      ensures move == foundMove
      ensures move == MMNode(game.size, game.cells, SearchDepth, SenseOf(side), -1, MaxInt).move
      ensures side == RED && SideToMove(game.size, game.cells) == RED && WinnerOf(game.cells) == None ==>
              Legal(game.size, game.cells, RED, move)
    {
      move := SearchWith(game, side, MaxInt);
      SquareBelowCorrectedWin(game.size);
      if side == RED && SideToMove(game.size, game.cells) == RED && WinnerOf(game.cells) == None {
        RedSearchFindsMove(game.size, game.cells);
      }
    }

    /** searchForMove with the corrected winning value: from an undecided
        position it returns a legal move for the side to move, whichever
        colour that is. */
    method SearchForMoveCorrected(game: Board, side: Side) returns (move: int)
      modifies this
      requires game.Valid()
      ensures move == foundMove
      ensures move == MMNode(game.size, game.cells, SearchDepth, SenseOf(side), -1, CorrectedWin).move
      ensures side == SideToMove(game.size, game.cells) && WinnerOf(game.cells) == None ==>
              Legal(game.size, game.cells, side, move)
    {
      move := SearchWith(game, side, CorrectedWin);
      if side == SideToMove(game.size, game.cells) && WinnerOf(game.cells) == None {
        CorrectedSearchFindsMove(game.size, game.cells, SenseOf(side));
      }
    }

    /** The body of searchForMove for a given winning value. */
    method SearchWith(game: Board, side: Side, winningValue: int) returns (move: int)
      modifies this
      requires game.Valid() && 0 <= winningValue <= MaxInt
      ensures move == foundMove
      ensures move == MMNode(game.size, game.cells, SearchDepth, SenseOf(side), -1, winningValue).move
    {
      var work := new Board.FromBoard(game);
      CopiedIdentity(game.cells);
      foundMove := -1;
      var value;
      if side == RED {
        value := MinMaxScored(work, SearchDepth, true, 1, MinInt, MaxInt, winningValue);
      } else {
        value := MinMaxScored(work, SearchDepth, true, -1, MinInt, MaxInt, winningValue);
      }
      ABTopAgrees(game.size, game.cells, SearchDepth, SenseOf(side), -1, winningValue);
      move := foundMove;
    }

    /** minMax(board, depth, saveMove, sense, alpha, beta): the search as
        written, scoring won positions with MAX_VALUE. */
    method MinMax(board: Board, depth: nat, saveMove: bool, sense: int, alpha: int, beta: int) returns (v: int)
      modifies this, board
      requires board.Valid() && board.Synced()
      ensures board.State() == old(board.State())
      ensures v == ABNode(board.size, board.cells, depth, sense, alpha, beta, old(foundMove), MaxInt).value
      ensures foundMove ==
              if saveMove then ABNode(board.size, board.cells, depth, sense, alpha, beta, old(foundMove), MaxInt).move
              else old(foundMove)
    {
      v := MinMaxScored(board, depth, saveMove, sense, alpha, beta, MaxInt);
    }

    /** minMax with the winning value staticEval is given as a parameter:
        the board comes back as it was, the value and the recorded move are
        alpha-beta's, and only a call with saveMove writes foundMove. */
    method MinMaxScored(board: Board, depth: nat, saveMove: bool, sense: int, alpha: int, beta: int,
                        winningValue: int) returns (v: int)
      modifies this, board
      requires board.Valid() && board.Synced()
      ensures board.State() == old(board.State())
      ensures v == ABNode(board.size, board.cells, depth, sense, alpha, beta, old(foundMove), winningValue).value
      ensures foundMove ==
              if saveMove then ABNode(board.size, board.cells, depth, sense, alpha, beta, old(foundMove), winningValue).move
              else old(foundMove)
      decreases depth, 1
    {
      var N := board.size;
      ghost var b := board.cells;
      ghost var field := foundMove;
      ghost var target := ABNode(N, b, depth, sense, alpha, beta, field, winningValue);
      var w := board.GetWinner();
      if w != None || depth == 0 {
        v := StaticEval(board, winningValue);
        return;
      }
      var currMove := foundMove;
      var bestSoFar: int;
      var a, bt := alpha, beta;
      var player := if sense == 1 then RED else BLUE;
      bestSoFar := if sense == 1 then MinInt else MaxInt;
      var i := 0;
      while i < N * N
        invariant 0 <= i <= N * N
        invariant board.State() == old(board.State()) && foundMove == field
        invariant ABFold(N, b, depth, sense, field, winningValue, i, a, bt, bestSoFar, currMove) == target
        decreases N * N - i
      {
        var stop;
        a, bt, bestSoFar, currMove, stop := Candidate(board, player, i, depth, sense, a, bt, bestSoFar, currMove,
                                                       winningValue);
        if stop {
          break;
        }
        i := i + 1;
      }
      assert Search(bestSoFar, currMove) == target;
      w := board.GetWinner();
      if saveMove && w == None {
        foundMove := currMove;
      }
      v := bestSoFar;
    }

    /** One pass of minMax's loop over the squares: if square i is legal
        for player, search the reply; a strictly better response becomes
        the best so far and narrows the window, and an empty window stops
        the loop. */
    method Candidate(board: Board, player: Side, i: int, depth: nat, sense: int, alpha: int, beta: int,
                     best: int, currMove: int, winningValue: int)
      returns (alpha': int, beta': int, best': int, currMove': int, stop: bool)
      modifies this, board
      requires board.Valid() && board.Synced() && 0 <= i < |board.cells| && depth >= 1
      requires player == Mover(sense)
      ensures board.State() == old(board.State()) && foundMove == old(foundMove)
      ensures ABFold(board.size, board.cells, depth, sense, old(foundMove), winningValue, i, alpha, beta, best, currMove) ==
              if stop then Search(best', currMove')
              else ABFold(board.size, board.cells, depth, sense, old(foundMove), winningValue, i + 1,
                          alpha', beta', best', currMove')
      decreases depth, 0
    {
      alpha', beta', best', currMove', stop := alpha, beta, best, currMove, false;
      var legal := board.IsLegal(player, i);
      if legal {
        var response := Respond(board, player, i, depth - 1, ChildSense(sense), alpha, beta, winningValue);
        if sense == 1 && response > best {
          currMove' := i;
          best' := response;
          alpha' := Max(alpha, best');
          stop := alpha' >= beta';
        } else if sense != 1 && response < best {
          currMove' := i;
          best' := response;
          beta' := Min(beta, best');
          stop := alpha' >= beta';
        }
      }
    }

    /** One candidate of minMax's loop: play square i for player, search
        the reply without recording it, and take the spot back. */
    method Respond(board: Board, player: Side, i: int, depth: nat, sense: int, alpha: int, beta: int,
                   winningValue: int) returns (response: int)
      modifies this, board
      requires board.Valid() && board.Synced() && 0 <= i < |board.cells|
      ensures board.State() == old(board.State()) && foundMove == old(foundMove)
      ensures response == ABNode(board.size, AddSpotF(board.size, board.cells, player, i), depth, sense,
                                 alpha, beta, old(foundMove), winningValue).value
      decreases depth, 2
    {
      ghost var st := board.State();
      AddSpotKeepsValid(st, player, i);
      UndoAfterAddSpot(st, player, i);
      board.AddSpot(player, i);
      assert board.State() == AddSpotS(st, player, i);
      assert board.Valid() && board.Synced();
      response := MinMaxScored(board, depth, false, sense, alpha, beta, winningValue);
      board.Undo();
    }

    /** staticEval(b, winningValue). */
    method StaticEval(b: Board, winningValue: int) returns (r: int)
      ensures r == Minimax.StaticEval(b.size, b.cells, winningValue)
    {
      var w := b.GetWinner();
      if w == None {
        var red := b.NumOfSide(RED);
        var blue := b.NumOfSide(BLUE);
        r := red - blue;
      } else if w == Some(BLUE) {
        r := -winningValue;
      } else {
        r := winningValue;
      }
    }
  }
}
