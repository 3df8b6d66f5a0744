/** The automated player's game-tree search as functions on the squares:
    the static evaluation, plain minimax over the source's move order (the
    reference), and the alpha-beta search exactly as the source's minMax
    loop runs it, with the lemmas relating the two. Values and moves are
    those minMax returns and records; `field` is the value of _foundMove at
    the call, which a call that records nothing hands back. */
module Minimax {
  import opened JavaInts
  import opened Wrappers
  import opened Squares
  import opened Geometry
  import opened Rules
  import opened Cascade

  /** What a search returns: its value and the move it would record. */
  datatype Search = Search(value: int, move: int)

  /** The side moving at a node: sense 1 is RED (maximising), any other
      sense is BLUE (minimising). */
  function Mover(sense: int): Side
  {
    if sense == 1 then RED else BLUE
  }

  function ChildSense(sense: int): int
  {
    if sense == 1 then -1 else 1
  }

  /** bestSoFar before the first candidate. */
  function InitialBest(sense: int): int
  {
    if sense == 1 then MinInt else MaxInt
  }

  /** v is a strict improvement on best for the side moving. */
  predicate Better(sense: int, v: int, best: int)
  {
    if sense == 1 then v > best else v < best
  }

  function Max(a: int, b: int): int { if a >= b then a else b }
  function Min(a: int, b: int): int { if a <= b then a else b }

  /** staticEval(b, win): the difference in squares owned while nobody has
      won, win for a RED win and -win for a BLUE win. */
  function StaticEval(N: nat, b: seq<Square>, win: int): int
  {
    var w := WinnerOf(b);
    if w == None then CountSide(b, RED) - CountSide(b, BLUE)
    else if w == Some(BLUE) then -win
    else win
  }

  /** The search stops at a decided board or at depth 0. */
  predicate Leaf(b: seq<Square>, depth: nat)
  {
    WinnerOf(b) != None || depth == 0
  }

  // ---- Plain minimax, the reference

  /** Minimax to the given depth over the legal squares in increasing
      order; the move is the first square reaching the best value. */
  function MMNode(N: nat, b: seq<Square>, depth: nat, sense: int, field: int, win: int): Search
    requires |b| == N * N
    decreases depth, 1
  {
    if Leaf(b, depth) then Search(StaticEval(N, b, win), field)
    else MMFold(N, b, depth, sense, field, win, 0, InitialBest(sense), field)
  }

  /** The candidate loop of plain minimax from square i on. */
  function MMFold(N: nat, b: seq<Square>, depth: nat, sense: int, field: int, win: int,
                  i: nat, best: int, move: int): Search
    requires |b| == N * N && depth >= 1 && i <= N * N
    decreases depth, 0, N * N - i
  {
    if i == N * N then Search(best, move)
    else if !Legal(N, b, Mover(sense), i) then MMFold(N, b, depth, sense, field, win, i + 1, best, move)
    else
      var v := MMNode(N, AddSpotF(N, b, Mover(sense), i), depth - 1, ChildSense(sense), field, win).value;
      if Better(sense, v, best) then MMFold(N, b, depth, sense, field, win, i + 1, v, i)
      else MMFold(N, b, depth, sense, field, win, i + 1, best, move)
  }

  // ---- Alpha-beta, as minMax runs it

  /** minMax(board, depth, _, sense, alpha, beta): value and recorded move. */
  function ABNode(N: nat, b: seq<Square>, depth: nat, sense: int, alpha: int, beta: int, field: int, win: int): Search
    requires |b| == N * N
    decreases depth, 1
  {
    if Leaf(b, depth) then Search(StaticEval(N, b, win), field)
    else ABFold(N, b, depth, sense, field, win, 0, alpha, beta, InitialBest(sense), field)
  }

  /** minMax's candidate loop from square i on: a strictly better response
      becomes the best and narrows the window, and the loop stops once the
      window is empty. */
  function ABFold(N: nat, b: seq<Square>, depth: nat, sense: int, field: int, win: int,
                  i: nat, alpha: int, beta: int, best: int, currMove: int): Search
    requires |b| == N * N && depth >= 1 && i <= N * N
    decreases depth, 0, N * N - i
  {
    if i == N * N then Search(best, currMove)
    else if !Legal(N, b, Mover(sense), i) then ABFold(N, b, depth, sense, field, win, i + 1, alpha, beta, best, currMove)
    else
      var v := ABNode(N, AddSpotF(N, b, Mover(sense), i), depth - 1, ChildSense(sense), alpha, beta, field, win).value;
      if !Better(sense, v, best) then ABFold(N, b, depth, sense, field, win, i + 1, alpha, beta, best, currMove)
      else if sense == 1 then
        var a := Max(alpha, v);
        if a >= beta then Search(v, i) else ABFold(N, b, depth, sense, field, win, i + 1, a, beta, v, i)
      else
        var bt := Min(beta, v);
        if alpha >= bt then Search(v, i) else ABFold(N, b, depth, sense, field, win, i + 1, alpha, bt, v, i)
  }

  // ---- Pruning is sound

  /** The fail-soft contract of alpha-beta against minimax m: a value at or
      below alpha bounds m from above, one at or above beta bounds it from
      below, and one strictly inside the window is m itself. */
  predicate FailSoft(v: int, m: int, alpha: int, beta: int)
  {
    (v <= alpha ==> m <= v) && (v >= beta ==> v <= m) && (alpha < v < beta ==> v == m)
  }

  /** Minimax's running best only improves. */
  lemma {:induction false} MMFoldMono(N: nat, b: seq<Square>, depth: nat, sense: int, field: int, win: int,
                                      i: nat, best: int, move: int)
    requires |b| == N * N && depth >= 1 && i <= N * N
    ensures sense == 1 ==> MMFold(N, b, depth, sense, field, win, i, best, move).value >= best
    ensures sense != 1 ==> MMFold(N, b, depth, sense, field, win, i, best, move).value <= best
    decreases N * N - i
  {
    if i < N * N {
      var p := Mover(sense);
      if Legal(N, b, p, i) {
        var v := MMNode(N, AddSpotF(N, b, p, i), depth - 1, ChildSense(sense), field, win).value;
        if Better(sense, v, best) {
          MMFoldMono(N, b, depth, sense, field, win, i + 1, v, i);
        } else {
          MMFoldMono(N, b, depth, sense, field, win, i + 1, best, move);
        }
      } else {
        MMFoldMono(N, b, depth, sense, field, win, i + 1, best, move);
      }
    }
  }

  /** Alpha-beta within any window inside the int range is fail-soft
      against minimax. */
  lemma {:induction false} ABFailSoft(N: nat, b: seq<Square>, depth: nat, sense: int, alpha: int, beta: int, field: int, win: int)
    requires |b| == N * N && MinInt <= alpha < beta <= MaxInt
    ensures FailSoft(ABNode(N, b, depth, sense, alpha, beta, field, win).value, MMNode(N, b, depth, sense, field, win).value, alpha, beta)
    decreases depth, 1
  {
    if !Leaf(b, depth) {
      if sense == 1 {
        ABMaxFold(N, b, depth, sense, field, win, alpha, 0, alpha, beta, MinInt, field, MinInt, field);
      } else {
        ABMinFold(N, b, depth, sense, field, win, beta, 0, alpha, beta, MaxInt, field, MaxInt, field);
      }
    }
  }

  /** The maximising loop: alpha is the larger of the caller's alpha a0 and
      the best so far, and minimax's best never exceeds alpha-beta's, equal
      to it once it has risen above a0. */
  lemma {:induction false} ABMaxFold(N: nat, b: seq<Square>, depth: nat, sense: int, field: int, win: int,
                                     a0: int, i: nat, alpha: int, beta: int, bestA: int, currA: int, bestM: int, moveM: int)
    requires |b| == N * N && depth >= 1 && i <= N * N && sense == 1
    requires MinInt <= a0 && beta <= MaxInt
    requires alpha == Max(a0, bestA) && alpha < beta && bestM <= bestA && (bestA > a0 ==> bestM == bestA)
    ensures FailSoft(ABFold(N, b, depth, sense, field, win, i, alpha, beta, bestA, currA).value,
                     MMFold(N, b, depth, sense, field, win, i, bestM, moveM).value, a0, beta)
    decreases depth, 0, N * N - i
  {
    if i < N * N {
      var p := Mover(sense);
      ABFoldStep(N, b, depth, sense, field, win, i, alpha, beta, bestA, currA);
      MMFoldStep(N, b, depth, sense, field, win, i, bestM, moveM);
      if Legal(N, b, p, i) {
        var child := AddSpotF(N, b, p, i);
        ABFailSoft(N, child, depth - 1, ChildSense(sense), alpha, beta, field, win);
        var v := ABNode(N, child, depth - 1, ChildSense(sense), alpha, beta, field, win).value;
        var m := MMNode(N, child, depth - 1, ChildSense(sense), field, win).value;
        var bestM', moveM' := if m > bestM then m else bestM, if m > bestM then i else moveM;
        if v > bestA {
          if Max(alpha, v) >= beta {
            MMFoldMono(N, b, depth, sense, field, win, i + 1, bestM', moveM');
          } else {
            ABMaxFold(N, b, depth, sense, field, win, a0, i + 1, Max(alpha, v), beta, v, i, bestM', moveM');
          }
        } else {
          ABMaxFold(N, b, depth, sense, field, win, a0, i + 1, alpha, beta, bestA, currA, bestM', moveM');
        }
      } else {
        ABMaxFold(N, b, depth, sense, field, win, a0, i + 1, alpha, beta, bestA, currA, bestM, moveM);
      }
    }
  }

  /** The minimising loop, symmetric to ABMaxFold with beta and b0. */
  lemma {:induction false} ABMinFold(N: nat, b: seq<Square>, depth: nat, sense: int, field: int, win: int,
                                     b0: int, i: nat, alpha: int, beta: int, bestA: int, currA: int, bestM: int, moveM: int)
    requires |b| == N * N && depth >= 1 && i <= N * N && sense != 1
    requires MinInt <= alpha && b0 <= MaxInt
    requires beta == Min(b0, bestA) && alpha < beta && bestM >= bestA && (bestA < b0 ==> bestM == bestA)
    ensures FailSoft(ABFold(N, b, depth, sense, field, win, i, alpha, beta, bestA, currA).value,
                     MMFold(N, b, depth, sense, field, win, i, bestM, moveM).value, alpha, b0)
    decreases depth, 0, N * N - i
  {
    if i < N * N {
      var p := Mover(sense);
      ABFoldStep(N, b, depth, sense, field, win, i, alpha, beta, bestA, currA);
      MMFoldStep(N, b, depth, sense, field, win, i, bestM, moveM);
      if Legal(N, b, p, i) {
        var child := AddSpotF(N, b, p, i);
        ABFailSoft(N, child, depth - 1, ChildSense(sense), alpha, beta, field, win);
        var v := ABNode(N, child, depth - 1, ChildSense(sense), alpha, beta, field, win).value;
        var m := MMNode(N, child, depth - 1, ChildSense(sense), field, win).value;
        var bestM', moveM' := if m < bestM then m else bestM, if m < bestM then i else moveM;
        if v < bestA {
          if alpha >= Min(beta, v) {
            MMFoldMono(N, b, depth, sense, field, win, i + 1, bestM', moveM');
          } else {
            ABMinFold(N, b, depth, sense, field, win, b0, i + 1, alpha, Min(beta, v), v, i, bestM', moveM');
          }
        } else {
          ABMinFold(N, b, depth, sense, field, win, b0, i + 1, alpha, beta, bestA, currA, bestM', moveM');
        }
      } else {
        ABMinFold(N, b, depth, sense, field, win, b0, i + 1, alpha, beta, bestA, currA, bestM, moveM);
      }
    }
  }

  // ---- The full window gives minimax exactly

  /** What staticEval's score means: win exactly for a RED win, -win
      exactly for a BLUE win, and otherwise the difference in squares
      owned, which stays strictly inside (-win, win) when win exceeds the
      number of squares. */
  lemma StaticEvalMeaning(N: nat, b: seq<Square>, win: int)
    requires |b| == N * N && |b| < win
    ensures StaticEval(N, b, win) == win <==> AllSide(b, RED)
    ensures StaticEval(N, b, win) == -win <==> |b| > 0 && AllSide(b, BLUE)
    ensures WinnerOf(b) == None ==> StaticEval(N, b, win) == CountSide(b, RED) - CountSide(b, BLUE)
    ensures -win <= StaticEval(N, b, win) <= win
    ensures WinnerOf(b) == None ==> -win < StaticEval(N, b, win) < win
  {
    WinnerCases(b);
    CountSideBounds(b, RED);
    CountSideBounds(b, BLUE);
  }

  /** Every value of a search lies in the Java int range (the two
      sentinels included), given a board and a winning value that fit. */
  lemma {:induction false} MMBounds(N: nat, b: seq<Square>, depth: nat, sense: int, field: int, win: int)
    requires |b| == N * N && N * N <= MaxInt && 0 <= win <= MaxInt
    ensures MinInt <= MMNode(N, b, depth, sense, field, win).value <= MaxInt
    decreases depth, 1
  {
    if Leaf(b, depth) {
      CountSideBounds(b, RED);
      CountSideBounds(b, BLUE);
    } else {
      MMFoldBounds(N, b, depth, sense, field, win, 0, InitialBest(sense), field);
    }
  }

  lemma {:induction false} MMFoldBounds(N: nat, b: seq<Square>, depth: nat, sense: int, field: int, win: int,
                                        i: nat, best: int, move: int)
    requires |b| == N * N && N * N <= MaxInt && 0 <= win <= MaxInt && depth >= 1 && i <= N * N
    requires MinInt <= best <= MaxInt
    ensures MinInt <= MMFold(N, b, depth, sense, field, win, i, best, move).value <= MaxInt
    decreases depth, 0, N * N - i
  {
    if i < N * N {
      var p := Mover(sense);
      if Legal(N, b, p, i) {
        var child := AddSpotF(N, b, p, i);
        MMBounds(N, child, depth - 1, ChildSense(sense), field, win);
        var v := MMNode(N, child, depth - 1, ChildSense(sense), field, win).value;
        if Better(sense, v, best) {
          MMFoldBounds(N, b, depth, sense, field, win, i + 1, v, i);
        } else {
          MMFoldBounds(N, b, depth, sense, field, win, i + 1, best, move);
        }
      } else {
        MMFoldBounds(N, b, depth, sense, field, win, i + 1, best, move);
      }
    }
  }

  /** Once minimax's best is the extreme int value nothing improves on it. */
  lemma {:induction false} MMSaturated(N: nat, b: seq<Square>, depth: nat, sense: int, field: int, win: int,
                                       i: nat, move: int)
    requires |b| == N * N && N * N <= MaxInt && 0 <= win <= MaxInt && depth >= 1 && i <= N * N
    ensures MMFold(N, b, depth, sense, field, win, i, if sense == 1 then MaxInt else MinInt, move) ==
            Search(if sense == 1 then MaxInt else MinInt, move)
    decreases N * N - i
  {
    if i < N * N {
      var p := Mover(sense);
      if Legal(N, b, p, i) {
        MMBounds(N, AddSpotF(N, b, p, i), depth - 1, ChildSense(sense), field, win);
      }
      MMFoldStep(N, b, depth, sense, field, win, i, if sense == 1 then MaxInt else MinInt, move);
      MMSaturated(N, b, depth, sense, field, win, i + 1, move);
    }
  }

  /** With the full window (MIN_VALUE, MAX_VALUE), as the top call uses,
      alpha-beta returns exactly minimax's value and records exactly
      minimax's move. */
  lemma ABTopAgrees(N: nat, b: seq<Square>, depth: nat, sense: int, field: int, win: int)
    requires |b| == N * N && N * N <= MaxInt && 0 <= win <= MaxInt
    ensures ABNode(N, b, depth, sense, MinInt, MaxInt, field, win) == MMNode(N, b, depth, sense, field, win)
  {
    if !Leaf(b, depth) {
      if sense == 1 {
        ABTopMax(N, b, depth, sense, field, win, 0, MinInt, field);
      } else {
        ABTopMin(N, b, depth, sense, field, win, 0, MaxInt, field);
      }
    }
  }

  /** The maximising top loop: with beta at MAX_VALUE, alpha is the best so
      far and both searches keep the same best and the same move. */
  lemma {:induction false} ABTopMax(N: nat, b: seq<Square>, depth: nat, sense: int, field: int, win: int,
                                    i: nat, best: int, move: int)
    requires |b| == N * N && N * N <= MaxInt && 0 <= win <= MaxInt && depth >= 1 && i <= N * N && sense == 1
    requires MinInt <= best < MaxInt
    ensures ABFold(N, b, depth, sense, field, win, i, best, MaxInt, best, move) ==
            MMFold(N, b, depth, sense, field, win, i, best, move)
    decreases N * N - i
  {
    if i < N * N {
      var p := Mover(sense);
      if Legal(N, b, p, i) {
        var child := AddSpotF(N, b, p, i);
        ABFailSoft(N, child, depth - 1, ChildSense(sense), best, MaxInt, field, win);
        MMBounds(N, child, depth - 1, ChildSense(sense), field, win);
        var v := ABNode(N, child, depth - 1, ChildSense(sense), best, MaxInt, field, win).value;
        if v > best && v >= MaxInt {
          MMSaturated(N, b, depth, sense, field, win, i + 1, i);
        } else if v > best {
          ABTopMax(N, b, depth, sense, field, win, i + 1, v, i);
        } else {
          ABTopMax(N, b, depth, sense, field, win, i + 1, best, move);
        }
      } else {
        ABTopMax(N, b, depth, sense, field, win, i + 1, best, move);
      }
    }
  }

  /** The minimising top loop, with alpha at MIN_VALUE and beta the best. */
  lemma {:induction false} ABTopMin(N: nat, b: seq<Square>, depth: nat, sense: int, field: int, win: int,
                                    i: nat, best: int, move: int)
    requires |b| == N * N && N * N <= MaxInt && 0 <= win <= MaxInt && depth >= 1 && i <= N * N && sense != 1
    requires MinInt < best <= MaxInt
    ensures ABFold(N, b, depth, sense, field, win, i, MinInt, best, best, move) ==
            MMFold(N, b, depth, sense, field, win, i, best, move)
    decreases N * N - i
  {
    if i < N * N {
      var p := Mover(sense);
      if Legal(N, b, p, i) {
        var child := AddSpotF(N, b, p, i);
        ABFailSoft(N, child, depth - 1, ChildSense(sense), MinInt, best, field, win);
        MMBounds(N, child, depth - 1, ChildSense(sense), field, win);
        var v := ABNode(N, child, depth - 1, ChildSense(sense), MinInt, best, field, win).value;
        if v < best && v <= MinInt {
          MMSaturated(N, b, depth, sense, field, win, i + 1, i);
        } else if v < best {
          ABTopMin(N, b, depth, sense, field, win, i + 1, v, i);
        } else {
          ABTopMin(N, b, depth, sense, field, win, i + 1, best, move);
        }
      } else {
        ABTopMin(N, b, depth, sense, field, win, i + 1, best, move);
      }
    }
  }

  // ---- What the recorded move is

  /** The minimax value of the position after the mover plays square j. */
  function ChildValue(N: nat, b: seq<Square>, depth: nat, sense: int, field: int, win: int, j: int): int
    requires |b| == N * N && depth >= 1 && 0 <= j < N * N
  {
    MMNode(N, AddSpotF(N, b, Mover(sense), j), depth - 1, ChildSense(sense), field, win).value
  }

  /** No legal candidate below k beats best. */
  predicate NoneBetter(N: nat, b: seq<Square>, depth: nat, sense: int, field: int, win: int, k: int, best: int)
    requires |b| == N * N && depth >= 1 && 0 <= k <= N * N
  {
    forall j :: 0 <= j < k && Legal(N, b, Mover(sense), j) ==>
      !Better(sense, ChildValue(N, b, depth, sense, field, win, j), best)
  }

  /** move is a legal square below k whose child reaches best, best beats
      the initial value, and every legal square before move is strictly
      worse. */
  predicate FirstReaching(N: nat, b: seq<Square>, depth: nat, sense: int, field: int, win: int,
                          k: int, best: int, move: int)
    requires |b| == N * N && depth >= 1 && 0 <= k <= N * N
  {
    0 <= move < k && Legal(N, b, Mover(sense), move) && Better(sense, best, InitialBest(sense)) &&
    ChildValue(N, b, depth, sense, field, win, move) == best &&
    forall j :: 0 <= j < move && Legal(N, b, Mover(sense), j) ==>
      Better(sense, best, ChildValue(N, b, depth, sense, field, win, j))
  }

  /** After the candidates below k: nothing beats best, and either nothing
      has been recorded (best is still the initial value, move is field) or
      move is the first legal square reaching best. */
  predicate FirstBest(N: nat, b: seq<Square>, depth: nat, sense: int, field: int, win: int,
                      k: int, best: int, move: int)
    requires |b| == N * N && depth >= 1 && 0 <= k <= N * N
  {
    NoneBetter(N, b, depth, sense, field, win, k, best) &&
    ((move == field && best == InitialBest(sense)) || FirstReaching(N, b, depth, sense, field, win, k, best, move))
  }

  /** One candidate of the loop keeps FirstBest. */
  lemma FirstBestStep(N: nat, b: seq<Square>, depth: nat, sense: int, field: int, win: int,
                      k: nat, best: int, move: int)
    requires |b| == N * N && depth >= 1 && k < N * N
    requires FirstBest(N, b, depth, sense, field, win, k, best, move)
    ensures var v := ChildValue(N, b, depth, sense, field, win, k);
            if Legal(N, b, Mover(sense), k) && Better(sense, v, best)
            then FirstBest(N, b, depth, sense, field, win, k + 1, v, k)
            else FirstBest(N, b, depth, sense, field, win, k + 1, best, move)
  {
    var v := ChildValue(N, b, depth, sense, field, win, k);
    if Legal(N, b, Mover(sense), k) && Better(sense, v, best) {
      assert NoneBetter(N, b, depth, sense, field, win, k + 1, v) by {
        forall j | 0 <= j < k + 1 && Legal(N, b, Mover(sense), j)
          ensures !Better(sense, ChildValue(N, b, depth, sense, field, win, j), v)
        {
          if j < k {
            assert !Better(sense, ChildValue(N, b, depth, sense, field, win, j), best);
          }
        }
      }
      assert Better(sense, v, InitialBest(sense)) by {
        if move != field || best != InitialBest(sense) {
          assert FirstReaching(N, b, depth, sense, field, win, k, best, move);
        }
      }
      assert FirstReaching(N, b, depth, sense, field, win, k + 1, v, k) by {
        forall j | 0 <= j < k && Legal(N, b, Mover(sense), j)
          ensures Better(sense, v, ChildValue(N, b, depth, sense, field, win, j))
        {
          assert !Better(sense, ChildValue(N, b, depth, sense, field, win, j), best);
        }
      }
    } else {
      assert NoneBetter(N, b, depth, sense, field, win, k + 1, best) by {
        forall j | 0 <= j < k + 1 && Legal(N, b, Mover(sense), j)
          ensures !Better(sense, ChildValue(N, b, depth, sense, field, win, j), best)
        {
          if j < k {
            assert NoneBetter(N, b, depth, sense, field, win, k, best);
          }
        }
      }
      if !(move == field && best == InitialBest(sense)) {
        assert FirstReaching(N, b, depth, sense, field, win, k, best, move);
        assert FirstReaching(N, b, depth, sense, field, win, k + 1, best, move);
      }
    }
  }

  lemma {:induction false} MMFoldFirstBest(N: nat, b: seq<Square>, depth: nat, sense: int, field: int, win: int,
                                           i: nat, best: int, move: int)
    requires |b| == N * N && depth >= 1 && i <= N * N
    requires FirstBest(N, b, depth, sense, field, win, i, best, move)
    ensures FirstBest(N, b, depth, sense, field, win, N * N,
                      MMFold(N, b, depth, sense, field, win, i, best, move).value,
                      MMFold(N, b, depth, sense, field, win, i, best, move).move)
    decreases N * N - i
  {
    if i < N * N {
      FirstBestStep(N, b, depth, sense, field, win, i, best, move);
      MMFoldStep(N, b, depth, sense, field, win, i, best, move);
      var v := ChildValue(N, b, depth, sense, field, win, i);
      if Legal(N, b, Mover(sense), i) && Better(sense, v, best) {
        MMFoldFirstBest(N, b, depth, sense, field, win, i + 1, v, i);
      } else {
        MMFoldFirstBest(N, b, depth, sense, field, win, i + 1, best, move);
      }
    }
  }

  /** One candidate of minMax's loop. */
  lemma ABFoldStep(N: nat, b: seq<Square>, depth: nat, sense: int, field: int, win: int,
                   i: nat, alpha: int, beta: int, best: int, currMove: int)
    requires |b| == N * N && depth >= 1 && i < N * N
    ensures var v := ABNode(N, AddSpotF(N, b, Mover(sense), i), depth - 1, ChildSense(sense), alpha, beta, field, win).value;
            ABFold(N, b, depth, sense, field, win, i, alpha, beta, best, currMove) ==
            if !Legal(N, b, Mover(sense), i) || !Better(sense, v, best)
            then ABFold(N, b, depth, sense, field, win, i + 1, alpha, beta, best, currMove)
            else if sense == 1 then
              (if Max(alpha, v) >= beta then Search(v, i)
               else ABFold(N, b, depth, sense, field, win, i + 1, Max(alpha, v), beta, v, i))
            else
              (if alpha >= Min(beta, v) then Search(v, i)
               else ABFold(N, b, depth, sense, field, win, i + 1, alpha, Min(beta, v), v, i))
  {
  }

  /** One candidate of plain minimax's loop. */
  lemma MMFoldStep(N: nat, b: seq<Square>, depth: nat, sense: int, field: int, win: int,
                   i: nat, best: int, move: int)
    requires |b| == N * N && depth >= 1 && i < N * N
    ensures var v := ChildValue(N, b, depth, sense, field, win, i);
            MMFold(N, b, depth, sense, field, win, i, best, move) ==
            if Legal(N, b, Mover(sense), i) && Better(sense, v, best)
            then MMFold(N, b, depth, sense, field, win, i + 1, v, i)
            else MMFold(N, b, depth, sense, field, win, i + 1, best, move)
  {
  }

  /** At an undecided node with depth left, minimax's value is the best
      child value for the mover (the initial sentinel if no legal child
      beats it), and the recorded move is either field, when nothing beat
      the sentinel, or the lowest legal square reaching that value: ties go
      to the lowest index. */
  lemma MMChoice(N: nat, b: seq<Square>, depth: nat, sense: int, field: int, win: int)
    requires |b| == N * N && !Leaf(b, depth)
    ensures FirstBest(N, b, depth, sense, field, win, N * N,
                      MMNode(N, b, depth, sense, field, win).value, MMNode(N, b, depth, sense, field, win).move)
  {
    MMFoldFirstBest(N, b, depth, sense, field, win, 0, InitialBest(sense), field);
  }

  // ---- Searches from a position where the mover is the side to move

  /** With win above the number of squares, a search whose sense matches
      the side to move has a value in [-win, win], and at an undecided node
      with depth left it records a legal move for the mover, provided the
      mover is RED or win is below MAX_VALUE. For a BLUE mover with win at
      MAX_VALUE (what minMax uses), a node whose every child is lost for
      BLUE is worth MAX_VALUE and records nothing. */
  lemma {:induction false} ConsistentSearch(N: nat, b: seq<Square>, depth: nat, sense: int, field: int, win: int)
    requires WellFormed(N, b) && N * N < win <= MaxInt && Mover(sense) == SideToMove(N, b)
    ensures -win <= MMNode(N, b, depth, sense, field, win).value <= win
    ensures !Leaf(b, depth) && (sense == 1 || win < MaxInt) ==>
            Legal(N, b, Mover(sense), MMNode(N, b, depth, sense, field, win).move)
    decreases depth, 1
  {
    var r := MMNode(N, b, depth, sense, field, win);
    if Leaf(b, depth) {
      StaticEvalMeaning(N, b, win);
    } else {
      var k := MoverHasLegalMove(N, b);
      ChildBound(N, b, depth, sense, field, win, k);
      if FirstReaching(N, b, depth, sense, field, win, N * N, r.value, r.move) {
        assert -win <= r.value <= win && Legal(N, b, Mover(sense), r.move) by {
          assert r.value == ChildValue(N, b, depth, sense, field, win, r.move);
          ChildBound(N, b, depth, sense, field, win, r.move);
        }
      } else {
        assert sense != 1 && win == MaxInt && r.value == MaxInt by {
          NothingRecorded(N, b, depth, sense, field, win, k);
        }
      }
    }
  }

  /** The value of the child reached by the legal square j lies in
      [-win, win]. */
  lemma ChildBound(N: nat, b: seq<Square>, depth: nat, sense: int, field: int, win: int, j: int)
    requires WellFormed(N, b) && N * N < win <= MaxInt && Mover(sense) == SideToMove(N, b)
    requires depth >= 1 && 0 <= j < N * N
    ensures -win <= ChildValue(N, b, depth, sense, field, win, j) <= win
    decreases depth, 0
  {
    ChildConsistent(N, b, sense, j);
    ConsistentSearch(N, AddSpotF(N, b, Mover(sense), j), depth - 1, ChildSense(sense), field, win);
  }

  /** When no legal square reaches minimax's value, that value is still the
      initial sentinel and the legal square k does not beat it. */
  lemma NothingRecorded(N: nat, b: seq<Square>, depth: nat, sense: int, field: int, win: int, k: int)
    requires |b| == N * N && !Leaf(b, depth) && 0 <= k < N * N && Legal(N, b, Mover(sense), k)
    requires !FirstReaching(N, b, depth, sense, field, win, N * N,
                            MMNode(N, b, depth, sense, field, win).value, MMNode(N, b, depth, sense, field, win).move)
    ensures MMNode(N, b, depth, sense, field, win).value == InitialBest(sense)
    ensures !Better(sense, ChildValue(N, b, depth, sense, field, win, k), InitialBest(sense))
  {
    MMChoice(N, b, depth, sense, field, win);
  }

  /** Playing a square for the side to move keeps the board well formed and
      hands the turn to the side the child search moves for. */
  lemma ChildConsistent(N: nat, b: seq<Square>, sense: int, j: int)
    requires WellFormed(N, b) && Mover(sense) == SideToMove(N, b) && 0 <= j < N * N
    ensures WellFormed(N, AddSpotF(N, b, Mover(sense), j))
    ensures Mover(ChildSense(sense)) == SideToMove(N, AddSpotF(N, b, Mover(sense), j))
  {
    AddSpotAddsOne(N, b, Mover(sense), j);
  }

  /** Every square count a Java int can hold leaves room for the corrected
      winning value: N*N <= MAX_VALUE forces N*N < MAX_VALUE - 1. */
  lemma SquareBelowCorrectedWin(N: nat)
    requires N * N <= MaxInt
    ensures N * N < MaxInt - 1
  {
    if N > 46340 {
      MulMono(46341, N, N);
      MulMono(46341, N, 46341);
    } else {
      MulMono(N, 46340, N);
      MulMono(N, 46340, 46340);
    }
  }

  /** The winning value minMax should pass to staticEval so that a lost
      position still beats the sentinel bestSoFar starts from. */
  const CorrectedWin: int := MaxInt - 1

  /** With the corrected winning value the top search, for either colour,
      returns the minimax value, and from an undecided position it records
      a legal move for the side to move. */
  lemma CorrectedSearchFindsMove(N: nat, b: seq<Square>, sense: int)
    requires WellFormed(N, b) && N * N <= MaxInt && Mover(sense) == SideToMove(N, b) && WinnerOf(b) == None
    ensures ABNode(N, b, 4, sense, MinInt, MaxInt, -1, CorrectedWin) == MMNode(N, b, 4, sense, -1, CorrectedWin)
    ensures Legal(N, b, Mover(sense), MMNode(N, b, 4, sense, -1, CorrectedWin).move)
  {
    SquareBelowCorrectedWin(N);
    ABTopAgrees(N, b, 4, sense, -1, CorrectedWin);
    ConsistentSearch(N, b, 4, sense, -1, CorrectedWin);
  }

  /** As written (win = MAX_VALUE), the top search for RED from an undecided
      position records a legal move. */
  lemma RedSearchFindsMove(N: nat, b: seq<Square>)
    requires WellFormed(N, b) && N * N < MaxInt && SideToMove(N, b) == RED && WinnerOf(b) == None
    ensures ABNode(N, b, 4, 1, MinInt, MaxInt, -1, MaxInt) == MMNode(N, b, 4, 1, -1, MaxInt)
    ensures Legal(N, b, RED, MMNode(N, b, 4, 1, -1, MaxInt).move)
  {
    ABTopAgrees(N, b, 4, 1, -1, MaxInt);
    ConsistentSearch(N, b, 4, 1, -1, MaxInt);
  }

  // ---- A BLUE search that records nothing

  /** A RED node with a reply that wins outright is worth MAX_VALUE under
      win = MAX_VALUE. */
  lemma RedWinningReply(N: nat, c: seq<Square>, depth: nat, field: int, j: int)
    requires |c| == N * N && N * N <= MaxInt && !Leaf(c, depth) && 0 <= j < N * N && Legal(N, c, RED, j)
    requires WinnerOf(AddSpotF(N, c, RED, j)) == Some(RED)
    ensures MMNode(N, c, depth, 1, field, MaxInt).value == MaxInt
  {
    var v := MMNode(N, c, depth, 1, field, MaxInt).value;
    assert ChildValue(N, c, depth, 1, field, MaxInt, j) == MaxInt;
    MMChoice(N, c, depth, 1, field, MaxInt);
    MMBounds(N, c, depth, 1, field, MaxInt);
    assert NoneBetter(N, c, depth, 1, field, MaxInt, N * N, v);
  }

  /** A BLUE node whose every legal move is worth MAX_VALUE is itself worth
      MAX_VALUE and records no move: the strict test response < bestSoFar
      never passes, since bestSoFar starts at MAX_VALUE. */
  lemma BlueAllLostRecordsNothing(N: nat, b: seq<Square>, depth: nat, field: int)
    requires |b| == N * N && N * N <= MaxInt && !Leaf(b, depth)
    requires forall i :: 0 <= i < N * N && Legal(N, b, BLUE, i) ==> ChildValue(N, b, depth, -1, field, MaxInt, i) == MaxInt
    ensures MMNode(N, b, depth, -1, field, MaxInt) == Search(MaxInt, field)
    ensures ABNode(N, b, depth, -1, MinInt, MaxInt, field, MaxInt) == Search(MaxInt, field)
  {
    var r := MMNode(N, b, depth, -1, field, MaxInt);
    MMChoice(N, b, depth, -1, field, MaxInt);
    assert !FirstReaching(N, b, depth, -1, field, MaxInt, N * N, r.value, r.move);
    ABTopAgrees(N, b, depth, -1, field, MaxInt);
  }

  /** Two rows: RED 1, RED 2 / RED 1, BLUE 1. Five spots plus size 2 is
      odd, so BLUE is to move, and nobody has won. */
  function LostForBlue(): seq<Square>
  {
    [Square(RED, 1), Square(RED, 2), Square(RED, 1), Square(BLUE, 1)]
  }

  /** The total of a four-square board. */
  lemma TotalOfFour(q: seq<Square>)
    requires |q| == 4
    ensures TotalSpots(q) == q[0].spots + q[1].spots + q[2].spots + q[3].spots
  {
    assert q[..1][..0] == [];
    assert TotalSpots(q[..1]) == q[0].spots;
    assert q[..2][..1] == q[..1];
    assert TotalSpots(q[..2]) == q[0].spots + q[1].spots;
    assert q[..3][..2] == q[..2];
    assert TotalSpots(q[..3]) == q[0].spots + q[1].spots + q[2].spots;
  }

  /** On a 2 x 2 board every square is a corner with two neighbours. */
  lemma TwoByTwoCorner(s: int)
    requires 0 <= s < 4
    ensures Neighbors(2, s) == 2
  {
  }

  /** q is the four-square board [w, x, y, z]. */
  predicate Four(q: seq<Square>, w: Square, x: Square, y: Square, z: Square)
  {
    |q| == 4 && q[0] == w && q[1] == x && q[2] == y && q[3] == z
  }

  /** A four-square board with a RED and a BLUE square is undecided. */
  lemma MixedUndecided(q: seq<Square>)
    requires |q| == 4 && q[0].side == RED && q[3].side == BLUE
    ensures WinnerOf(q) == None
  {
    WinnerCases(q);
  }

  /** In LostForBlue BLUE may only play square 3, which does not jump. */
  lemma BlueOnlyMove()
    ensures WellFormed(2, LostForBlue()) && WinnerOf(LostForBlue()) == None
    ensures SideToMove(2, LostForBlue()) == BLUE
    ensures forall i :: Legal(2, LostForBlue(), BLUE, i) <==> i == 3
    ensures AddSpotF(2, LostForBlue(), BLUE, 3) == [Square(RED, 1), Square(RED, 2), Square(RED, 1), Square(BLUE, 2)]
  {
    var b := LostForBlue();
    TotalOfFour(b);
    MixedUndecided(b);
    assert Four(b, Square(RED, 1), Square(RED, 2), Square(RED, 1), Square(BLUE, 1));
    BlueChild(b);
  }

  lemma BlueChild(b: seq<Square>)
    requires Four(b, Square(RED, 1), Square(RED, 2), Square(RED, 1), Square(BLUE, 1))
    ensures AddSpotF(2, b, BLUE, 3) == [Square(RED, 1), Square(RED, 2), Square(RED, 1), Square(BLUE, 2)]
  {
    BlueChildSet(b);
    AddSpotQuiet(2, b, BLUE, 3);
  }

  /** BLUE's spot on square 3 of LostForBlue, before any jump. */
  lemma BlueChildSet(b: seq<Square>)
    requires Four(b, Square(RED, 1), Square(RED, 2), Square(RED, 1), Square(BLUE, 1))
    ensures b[3].spots + 1 <= Neighbors(2, 3)
    ensures SetF(b, 3, b[3].spots + 1, BLUE) == [Square(RED, 1), Square(RED, 2), Square(RED, 1), Square(BLUE, 2)]
  {
    TwoByTwoCorner(3);
    var b1 := SetF(b, 3, 2, BLUE);
    assert Four(b1, Square(RED, 1), Square(RED, 2), Square(RED, 1), Square(BLUE, 2));
  }

  /** After BLUE's square 3, RED plays square 1: it holds three spots, more
      than its two neighbours, and the jump (with any depth bound) captures
      squares 0 and 3. */
  lemma RedCapturesAll(c: seq<Square>, fuel: nat)
    requires Four(c, Square(RED, 1), Square(RED, 2), Square(RED, 1), Square(BLUE, 2)) && fuel > 0
    ensures WinnerOf(c) == None && Legal(2, c, RED, 1)
    ensures JumpF(2, SetF(c, 1, 3, RED), 1, fuel) == [Square(RED, 2), Square(RED, 1), Square(RED, 1), Square(RED, 3)]
    ensures Neighbors(2, 1) < SetF(c, 1, 3, RED)[1].spots && WinnerOf(SetF(c, 1, 3, RED)) == None
  {
    assert WinnerOf(c) == None && Legal(2, c, RED, 1) by {
      TotalOfFour(c);
      MixedUndecided(c);
    }
    var b1 := SetF(c, 1, 3, RED);
    assert Four(b1, Square(RED, 1), Square(RED, 3), Square(RED, 1), Square(BLUE, 2));
    assert JumpF(2, b1, 1, fuel) == [Square(RED, 2), Square(RED, 1), Square(RED, 1), Square(RED, 3)] by {
      RedJump(b1, fuel);
    }
    assert Neighbors(2, 1) < b1[1].spots && WinnerOf(b1) == None by {
      TwoByTwoCorner(1);
      MixedUndecided(b1);
    }
  }

  lemma RedJump(b1: seq<Square>, fuel: nat)
    requires Four(b1, Square(RED, 1), Square(RED, 3), Square(RED, 1), Square(BLUE, 2)) && fuel > 0
    ensures JumpF(2, b1, 1, fuel) == [Square(RED, 2), Square(RED, 1), Square(RED, 1), Square(RED, 3)]
  {
    var c0 := SetF(b1, 1, 1, RED);
    assert WinnerOf(b1) == None by { MixedUndecided(b1); }
    JumpFromSecond(b1, fuel);
    assert Spread(2, c0, RED, 1, 2, fuel) == [Square(RED, 2), Square(RED, 1), Square(RED, 1), Square(RED, 3)] by {
      assert c0 == [Square(RED, 1), Square(RED, 1), Square(RED, 1), Square(BLUE, 2)];
      var c2 := SpillLeft(c0, fuel);
      var c3 := SpillDown(c2, fuel);
      SpreadUnfold(2, c0, RED, 1, 2, fuel, c0, c2, c3, c3);
    }
  }

  /** RED's square 1 in the position after BLUE's square 3 wins. */
  lemma RedReply(c: seq<Square>)
    requires c == [Square(RED, 1), Square(RED, 2), Square(RED, 1), Square(BLUE, 2)]
    ensures WinnerOf(c) == None && Legal(2, c, RED, 1)
    ensures AddSpotF(2, c, RED, 1) == [Square(RED, 2), Square(RED, 1), Square(RED, 1), Square(RED, 3)]
  {
    assert Four(c, Square(RED, 1), Square(RED, 2), Square(RED, 1), Square(BLUE, 2));
    RedCapturesAll(c, MaxJumpDepth);
    AddSpotJumps(2, c, RED, 1);
  }

  /** Square 1 of a 2 x 2 board (row 1, column 2) discharging three RED
      spots, as the first step of jump. */
  lemma JumpFromSecond(b1: seq<Square>, fuel: nat)
    requires |b1| == 4 && b1[1] == Square(RED, 3) && WinnerOf(b1) == None && fuel > 0
    ensures JumpF(2, b1, 1, fuel) == Spread(2, SetF(b1, 1, 1, RED), RED, 1, 2, fuel)
  {
    JumpUnfoldAt(2, b1, 1, fuel, 1, 2, RED, SetF(b1, 1, 1, RED));
  }

  lemma SpillLeft(c0: seq<Square>, fuel: nat) returns (c2: seq<Square>)
    requires c0 == [Square(RED, 1), Square(RED, 1), Square(RED, 1), Square(BLUE, 2)] && fuel > 0
    ensures c2 == Spill(2, c0, RED, 1, 1, fuel)
    ensures c2 == [Square(RED, 2), Square(RED, 1), Square(RED, 1), Square(BLUE, 2)]
  {
    c2 := SetF(c0, 0, 2, RED);
    assert c2 == [Square(RED, 2), Square(RED, 1), Square(RED, 1), Square(BLUE, 2)];
  }

  lemma SpillDown(c2: seq<Square>, fuel: nat) returns (c3: seq<Square>)
    requires c2 == [Square(RED, 2), Square(RED, 1), Square(RED, 1), Square(BLUE, 2)] && fuel > 0
    ensures c3 == Spill(2, c2, RED, 2, 2, fuel)
    ensures c3 == [Square(RED, 2), Square(RED, 1), Square(RED, 1), Square(RED, 3)]
  {
    c3 := SetF(c2, 3, 3, RED);
    assert c3 == [Square(RED, 2), Square(RED, 1), Square(RED, 1), Square(RED, 3)];
    assert AllSide(c3, RED);
    WinnerCases(c3);
  }

  /** So minMax as written (win = MAX_VALUE, sense -1, _foundMove = -1,
      depth 4, full window) on LostForBlue records no move: _foundMove
      stays -1, which is no square at all. */
  lemma LostBlueRecordsNoMove()
    ensures WellFormed(2, LostForBlue()) && WinnerOf(LostForBlue()) == None
    ensures SideToMove(2, LostForBlue()) == BLUE
    ensures ABNode(2, LostForBlue(), 4, -1, MinInt, MaxInt, -1, MaxInt) == Search(MaxInt, -1)
    ensures !Legal(2, LostForBlue(), BLUE, -1)
  {
    BlueOnlyMove();
    var c := [Square(RED, 1), Square(RED, 2), Square(RED, 1), Square(BLUE, 2)];
    RedReply(c);
    var g := [Square(RED, 2), Square(RED, 1), Square(RED, 1), Square(RED, 3)];
    WinnerCases(g);
    RedWinningReply(2, c, 3, -1, 1);
    BlueAllLostRecordsNothing(2, LostForBlue(), 4, -1);
  }
}
