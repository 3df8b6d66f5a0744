# Jump61 board and automated player, modelled in Dafny

Jump61 is a two-player game played on an N x N grid of squares. Each square
holds one or more spots and belongs to RED, BLUE or nobody (WHITE). A player
adds a spot to a square that is WHITE or already theirs. A square that then
holds more spots than it has orthogonal neighbours "jumps". It keeps its
owner, gives one spot to each neighbour, takes that neighbour over, and
every neighbour that becomes over-full jumps in its turn. Whose turn it is
follows from the parity of the total spot count plus N. A side wins when
it owns every square. The board keeps an undo history of full-board
snapshots.

The automated player searches four moves deep with alpha-beta minimax. It
works on a scratch copy of the board, playing each candidate with `addSpot`
and taking it back with `undo`. It scores a position by the difference in
squares owned, or by plus or minus a winning value once the game is decided.

The project has eight files:

- `java_ints.dfy` holds the Java int range and Java's truncating `/` and `%`
  (module `JavaInts`), then `Option` (`Wrappers`), and then `Side`/`Square`
  (`Squares`).
- `geometry.dfy` (`Geometry`) holds the square numbering, `row`, `col`,
  `sqNum`, `exists` and `neighbors`, with their round trips.
- `rules.dfy` (`Rules`) holds value-level definitions of every board query
  and of the move. That covers the spot total, the side counts, the winner
  scan, the side to move, legality, `internalSet`, `jump` and `addSpot`.
- `cascade.dfy` (`Cascade`) proves what a jump does: it conserves spots,
  keeps every square occupied, and captures the neighbours.
- `boards.dfy` (`Boards`) holds the whole object as a value (`BoardState`:
  size, squares, history, move number) together with the functions saying
  what each mutating operation does to it. It also holds the class `Board`,
  whose methods perform those operations in place and are proved to match
  them.
- `text.dfy` (`Text`) holds `moveString` and `toString`.
- `minimax.dfy` (`Minimax`) specifies the search. It defines plain minimax
  and the alpha-beta recursion as functions, then proves that the two agree
  under the full window, that pruning is fail-soft, that ties go to the
  lowest square, and that the recorded move is legal for RED, and for
  either side once the winning value is below MAX_VALUE.
- `ai.dfy` (`Players`) holds the class `AI`, whose field `foundMove` is
  written by `minMax` and `searchForMove`. Both are proved against the
  `Minimax` functions.

The jump threshold is strict, as the code has it (`Board.java:219, 300`): a
square jumps only when its spots exceed its neighbour count. A corner
therefore jumps at three spots, not two.

## Model

| member | source | states |
|---|---|---|
| JavaInts.JavaDivRem | jump61/Board.java:130-138 | Java's `/` and `%` on a positive divisor satisfy `a == (a / b) * b + a % b`, with a remainder in `[0, b)` for `a >= 0` and in `(-b, 0]` for `a < 0` |
| Geometry.SquareRoundTrip | jump61/Board.java:125-143 | For `0 <= n < N*N`, `row(n)` and `col(n)` exist and `sqNum(row(n), col(n)) == n` |
| Geometry.CoordRoundTrip | jump61/Board.java:120-143 | For `1 <= r, c <= N`, `sqNum(r, c)` exists and decodes back to `r` and `c` |
| Geometry.NeighborCounts | jump61/Board.java:364-381 | `neighbors(r, c)` is 0 on a 1 x 1 board, and otherwise 2 at a corner, 3 on an edge and 4 inside |
| Geometry.NeighborsAreInBounds | jump61/Board.java:364-381 | `neighbors(r, c)` counts exactly the existing squares up, left, down and right |
| Geometry.AdjacentIndex | jump61/Board.java:298-321 | The squares jump's four guarded branches visit are exactly the squares orthogonally adjacent to `S` |
| Rules.TotalSpotsUpdate | jump61/Board.java:105-111 | Replacing one square changes `numPieces` by the difference in that square's spots |
| Rules.InitialTotal | jump61/Board.java:29-36 | A fresh N x N board holds N*N spots |
| Rules.CountSideBounds | jump61/Board.java:200-208 | `numOfSide` lies between 0 and the number of squares |
| Rules.WinFromSpec | jump61/Board.java:178-197 | The getWinner scan from any position returns null if a WHITE square follows; otherwise it returns RED if no BLUE square remains and redWin holds, BLUE on the symmetric condition, and null otherwise |
| Rules.WinnerCases | jump61/Board.java:178-197 | The winner is RED iff every square is RED; it is BLUE iff the board is non-empty and every square is BLUE; it is null iff some square is WHITE or both colours are present |
| Rules.FreshBoardRedToMove | jump61/Board.java:115-117 | On a fresh board `whoseMove()` is RED, since N*N + N is even |
| Rules.SquarePlusRootEven | jump61/Board.java:115-117 | N*N + N is even for every N |
| Rules.TurnFlipsOnOneSpot | jump61/Board.java:115-117 | One more spot on the board passes the turn to the other side; the side to move is never WHITE |
| Rules.LegalIff | jump61/Board.java:163-174 | `isLegal(p, n)` holds iff `n` is on the board, nobody has won, the square is WHITE or `p`'s, and `p` is to move |
| Rules.WonIsFinal | jump61/Board.java:163-174 | Once there is a winner, no move is legal for any side and `jump` changes nothing (the guard at line 292) |
| Rules.MoverHasLegalMove | jump61/Board.java:163-174 | On an undecided well-formed board the side to move has a legal square |
| Rules.JumpF | jump61/Board.java:291-323 | jump keeps the board's length |
| Rules.Spread | jump61/Board.java:298-321 | The four neighbour branches keep the board's length |
| Rules.Branch | jump61/Board.java:298-321 | A guarded branch of jump, taken or not, keeps the board's length |
| Rules.Spill | jump61/Board.java:298-302 | One neighbour branch keeps the board's length |
| Rules.AddSpotF | jump61/Board.java:217-221 | addSpot's effect on the squares keeps the board's length |
| Cascade.JumpConserves | jump61/Board.java:291-323 | Jumping from an over-full square conserves `numPieces` and leaves every square with at least one spot |
| Cascade.SpreadAddsNeighbors | jump61/Board.java:298-321 | The four branches together add exactly `neighbors(r, c)` spots |
| Cascade.SpillAddsOne | jump61/Board.java:298-302 | One branch adds exactly one spot, whatever jumps it sets off |
| Cascade.AddSpotAddsOne | jump61/Board.java:217-221 | addSpot raises `numPieces` by exactly 1, keeps the board well formed and flips `whoseMove()` |
| Cascade.KeepsTrans | jump61/Board.java:291-323 | "Every square stays with its owner or goes to the jumping side" composes across successive branches |
| Cascade.JumpOwnership | jump61/Board.java:291-323 | Every square keeps its owner or goes to the jumping side; on an undecided board the jumping square and every neighbour of it end up owned by that side |
| Cascade.FourNeighborsOwned | jump61/Board.java:298-321 | Owning the square of each guarded branch means owning every adjacent square |
| Cascade.SpreadOwnership | jump61/Board.java:298-321 | After the four branches each visited neighbour belongs to the jumping side |
| Cascade.SpillOwnership | jump61/Board.java:298-302 | After one branch the bumped neighbour belongs to the jumping side and every square stays occupied |
| Cascade.JumpUnfold | jump61/Board.java:291-297 | On an undecided board jump(S) lowers S by `neighbors(S)` spots, keeps its owner and then runs the four branches from `row(S)`, `col(S)` |
| Cascade.AddSpotQuiet | jump61/Board.java:217-221 | When the square does not become over-full, addSpot only stores one more spot of the player there |
| Cascade.AddSpotJumps | jump61/Board.java:217-221 | When it becomes over-full on an undecided board, addSpot jumps from it |
| Cascade.Discharged | jump61/Board.java:296-321 | The result of a jump that sets off no further jump keeps the board's length |
| Cascade.SpillQuiet | jump61/Board.java:298-302 | A branch whose neighbour does not become over-full just adds one spot of the jumping side there |
| Cascade.QuietSpread | jump61/Board.java:298-321 | With no neighbour becoming over-full, every adjacent square gains one spot and is captured, and every other square is unchanged |
| Cascade.QuietJump | jump61/Board.java:291-323 | Such a jump leaves the jumping square with `neighbors(S)` fewer spots and its owner, and bumps each neighbour once |
| Boards.Copied | jump61/Board.java:79-84 | internalCopy yields a board of the same length on which every square is `internalSet` of the source square |
| Boards.CopiedIdentity | jump61/Board.java:79-84 | Copying a board whose squares all hold spots reproduces it, and copying is idempotent |
| Boards.UndoS | jump61/Board.java:255-263 | undo keeps the size, lowers the move number by one and drops one history entry |
| Boards.FreshStateSynced | jump61/Board.java:29-40 | A fresh board is valid, and its history is in step with its squares |
| Boards.AddSpotKeepsValid | jump61/Board.java:217-223 | addSpot keeps the board valid and in step, counts one move, adds one spot and passes the turn |
| Boards.UndoKeepsValid | jump61/Board.java:255-263 | undo keeps the board valid |
| Boards.UndoAfterAddSpot | jump61/Board.java:217-271 | On a board in step with its history, undo right after addSpot is possible and restores squares, history and move number exactly |
| Boards.SyncedCanUndo | jump61/Board.java:255-263 | On a board in step with its history and with at least one move made, undo is possible and keeps the board in step |
| Boards.EqualsAsWrittenSameSize | jump61/Board.java:389-405 | For two boards of one size, equals holds iff every index has the same side and spot count |
| Boards.SameBoardSpec | jump61/Board.java:389-410 | Corrected equality means same size and same squares; it is symmetric, and equal boards have equal hashCode |
| Boards.EqualsAsWrittenCounterexample | jump61/Board.java:389-410 | As written, a fresh 1 x 1 board equals a fresh 2 x 2 board; the reverse comparison fails and their hash codes (1 and 4) differ |
| Boards.Board.FreshSquares | jump61/Board.java:33-36 | The constructor's loop builds the fresh squares |
| Boards.Board.constructor | jump61/Board.java:29-40 | `Board(N)` yields N*N squares of `(WHITE, 1)`, history `[null]` and move number 0 |
| Boards.Board.FromBoard | jump61/Board.java:44-48 | `Board(board0)` yields a copy of board0's squares, with a history holding board0's squares as its only entry and move number 0 |
| Boards.Board.Clear | jump61/Board.java:58-68 | clear(N) resets the size, the squares, the history (to `[null]`) and the move number |
| Boards.Board.Copy | jump61/Board.java:71-75 | copy copies the squares through internalSet and empties the history |
| Boards.Board.InternalCopy | jump61/Board.java:79-84 | internalCopy copies the squares and leaves size, history and move number alone |
| Boards.Board.CopyCells | jump61/Board.java:81-83 | internalCopy's loop leaves the squares equal to `Copied(src)` |
| Boards.Board.NumPieces | jump61/Board.java:105-111 | numPieces returns the sum of the spots |
| Boards.Board.WhoseMove | jump61/Board.java:115-117 | whoseMove returns the side the spot parity designates |
| Boards.Board.GetWinner | jump61/Board.java:178-197 | getWinner's early-exit loop computes the winner function (characterised by `Rules.WinnerCases`) |
| Boards.Board.NumOfSide | jump61/Board.java:200-208 | numOfSide returns the number of squares of the side |
| Boards.Board.IsLegalSide | jump61/Board.java:172-174 | isLegal(player) holds iff nobody has won and the player is to move |
| Boards.Board.IsLegal | jump61/Board.java:163-169 | isLegal(player, n) decides legality (characterised by `Rules.LegalIff`) |
| Boards.Board.IsLegalAt | jump61/Board.java:157-159 | isLegal(player, r, c) is isLegal of `sqNum(r, c)` |
| Boards.Board.InternalSet | jump61/Board.java:241-250 | internalSet keeps the length and leaves every other square alone; square n becomes `(WHITE, 1)` when `num <= 0` and `(player, num)` otherwise |
| Boards.Board.Set | jump61/Board.java:227-237 | set(r, c, ...) is internalSet at `sqNum(r, c)` |
| Boards.Board.SimpleAdd | jump61/Board.java:281-283 | simpleAdd(player, n, d) stores the old spots plus d for player at n |
| Boards.Board.SimpleAddAt | jump61/Board.java:275-277 | simpleAdd(player, r, c, d) is simpleAdd at `sqNum(r, c)` |
| Boards.Board.Jump | jump61/Board.java:291-323 | jump(S) performs the jump function in place and touches only the squares |
| Boards.Board.Discharge | jump61/Board.java:298-321 | The four guarded branches of jump in place, in the source's order, touch only the squares |
| Boards.Board.Spill | jump61/Board.java:298-302 | One guarded branch of jump in place |
| Boards.Board.AddSpot | jump61/Board.java:217-223 | addSpot(player, n) moves the whole object to `AddSpotS` (see `Boards.AddSpotKeepsValid` and `Boards.UndoAfterAddSpot`) |
| Boards.Board.AddSpotAt | jump61/Board.java:212-214 | addSpot(player, r, c) is addSpot at `sqNum(r, c)` |
| Boards.Board.MarkUndo | jump61/Board.java:266-271 | markUndo counts a move and appends a copy of the squares to the history |
| Boards.Board.Undo | jump61/Board.java:255-263 | undo restores the snapshot before the last move (a fresh board for the null entry), drops the last entry and uncounts the move |
| Boards.Board.EqualsAsWritten | jump61/Board.java:389-405 | equals as written: not null, and every square of this board exists on the other and matches |
| Boards.Board.Equals | jump61/Board.java:389-405 | Corrected equals: not null, same size, and the same squares |
| Boards.Board.DumpWith | jump61/Board.java:327-345 | toString's loop writes "===", each square's token with a line break where a row starts, and "\n===" |
| Boards.Board.ToStringAsWritten | jump61/Board.java:327-345 | toString as written (row test `i % size == 1`) |
| Boards.Board.ToString | jump61/Board.java:327-345 | Corrected toString: "===", then one indented line per row of tokens, then "\n===" |
| Boards.Board.HashCode | jump61/Board.java:408-410 | hashCode is numPieces |
| Text.Digit | jump61/Board.java:146-148 | A digit below ten is written as the digit character |
| Text.NatToDecDigits | jump61/Board.java:146-148 | `%d` of a natural number is a non-empty string of digits |
| Text.IntToDecChars | jump61/Board.java:146-148 | `%d` of an int is non-empty, holds no space, and is digits after an optional leading minus sign |
| Text.NatToDecRoundTrip | jump61/Board.java:146-148 | Reading back the digits of n gives n |
| Text.IntToDecRoundTrip | jump61/Board.java:146-148 | Reading back `%d` of any int gives that int |
| Text.SpaceAt | jump61/Board.java:146-148 | The first-space position of a string lies within it |
| Text.SpaceAfter | jump61/Board.java:146-148 | In "x y" with x free of spaces, the first space follows x |
| Text.MoveStringRoundTrip | jump61/Board.java:146-148 | `moveString(row, col)` parses back to `(row, col)` |
| Text.MoveStringInjective | jump61/Board.java:146-148 | Two moves have the same string iff they have the same row and column |
| Text.MoveStringOfRoundTrip | jump61/Board.java:151-153 | `moveString(n)` of a square parses back to an existing row and column whose `sqNum` is n |
| Text.Tokens | jump61/Board.java:330-342 | The token list has one token per square |
| Text.TokensAt | jump61/Board.java:330-342 | Token i is the `"%d%s "` token of square i, so the tokens follow the squares in order |
| Text.DumpLayout | jump61/Board.java:327-345 | The corrected dump of the first r rows is r indented lines of N tokens each |
| Text.DumpRow | jump61/Board.java:330-342 | Within a row, the corrected dump breaks the line only before the row's first square |
| Text.DumpIsRows | jump61/Board.java:327-345 | The corrected toString is "===", one indented line per row, then "\n===" |
| Text.RowBreakAgrees | jump61/Board.java:332 | For N >= 2 the test as written (`i % N == 1`) starts rows exactly where the corrected test does |
| Text.DumpCellsAgree | jump61/Board.java:330-342 | For N >= 2 the loop as written produces the corrected text at every step |
| Text.DumpAsWrittenAgrees | jump61/Board.java:327-345 | For N >= 2 toString as written equals the corrected toString |
| Text.DumpAsWrittenOneByOne | jump61/Board.java:327-345 | On a fresh 1 x 1 board toString as written is "===1- \n===", with the square on the "===" line; the corrected dump is "===\n    1- \n===" |
| Minimax.MMFoldMono | jump61/AI.java:62-102 | The running best only ever improves for the side moving |
| Minimax.ABFailSoft | jump61/AI.java:55-108 | In any window inside the int range, minMax's value is fail-soft against minimax: exact inside the window, and a bound on the right side outside it |
| Minimax.ABMaxFold | jump61/AI.java:62-81 | RED's candidate loop, with its running alpha and its cut-off at `alpha >= beta`, is fail-soft |
| Minimax.ABMinFold | jump61/AI.java:82-102 | BLUE's candidate loop, with its running beta, is fail-soft |
| Minimax.StaticEvalMeaning | jump61/AI.java:113-121 | staticEval is `win` iff RED owns every square, is `-win` iff BLUE does, is the count difference while undecided, and lies strictly inside `(-win, win)` then |
| Minimax.MMBounds | jump61/AI.java:55-108 | Every search value is an int |
| Minimax.MMFoldBounds | jump61/AI.java:62-102 | The candidate loop keeps the best within the int range |
| Minimax.MMSaturated | jump61/AI.java:71-91 | Once the best is the extreme int no later candidate improves on it |
| Minimax.ABTopAgrees | jump61/AI.java:38-42 | With the full window `(MIN_VALUE, MAX_VALUE)`, minMax's value and recorded move equal plain minimax over the same move order |
| Minimax.ABTopMax | jump61/AI.java:62-81 | RED's loop under beta = MAX_VALUE equals plain minimax's loop |
| Minimax.ABTopMin | jump61/AI.java:82-102 | BLUE's loop under alpha = MIN_VALUE equals plain minimax's loop |
| Minimax.FirstBestStep | jump61/AI.java:71-91 | One candidate keeps "the move is the lowest legal square reaching the best value, and nothing beats it" |
| Minimax.MMFoldFirstBest | jump61/AI.java:62-102 | The whole loop keeps that property |
| Minimax.MMChoice | jump61/AI.java:71-91 | At an undecided node the chosen move is the lowest legal square of best value; ties go to the lowest index |
| Minimax.ConsistentSearch | jump61/AI.java:55-108 | With a winning value above N*N, on a board where the searching side is to move, the value lies in `[-win, win]`; the recorded move is legal for RED always, and for BLUE when `win < MAX_VALUE` |
| Minimax.ChildConsistent | jump61/AI.java:66-89 | Playing for the side to move keeps the board well formed and hands the move to the child's searching side |
| Minimax.SquareBelowCorrectedWin | jump61/AI.java:113-121 | Any square count an int can hold is below `MAX_VALUE - 1` |
| Minimax.CorrectedSearchFindsMove | jump61/AI.java:32-45 | With winning value `MAX_VALUE - 1`, the depth-4 top search from an undecided position equals minimax and records a legal move for whichever side is to move |
| Minimax.RedSearchFindsMove | jump61/AI.java:32-45 | As written, the top search for RED from an undecided position records a legal RED move |
| Minimax.RedWinningReply | jump61/AI.java:62-81 | A RED node with an immediately winning legal reply is worth MAX_VALUE |
| Minimax.BlueAllLostRecordsNothing | jump61/AI.java:82-106 | A BLUE node whose every legal reply is worth MAX_VALUE keeps bestSoFar at MAX_VALUE and records no move |
| Minimax.BlueOnlyMove | jump61/AI.java:84-93 | In the witness position BLUE is to move and its only legal square is 3 |
| Minimax.RedReply | jump61/Board.java:217-223 | In the witness, RED's reply at square 1 jumps and captures the whole board |
| Minimax.LostBlueRecordsNoMove | jump61/AI.java:32-45 | As written, the top search for BLUE on the witness board returns MAX_VALUE and leaves the recorded move at -1, which is not a legal square |
| Players.AI.constructor | jump61/AI.java:15-18 | A new player's recorded move starts at 0 |
| Players.AI.SearchForMove | jump61/AI.java:32-45 | searchForMove returns minimax's recorded move for the side; for RED to move on an undecided board it is legal |
| Players.AI.SearchForMoveCorrected | jump61/AI.java:32-45 | With the corrected winning value, searchForMove returns a legal move for the side to move on any undecided board |
| Players.AI.SearchWith | jump61/AI.java:32-45 | Searching a copy, starting from -1, returns plain minimax's move |
| Players.AI.MinMax | jump61/AI.java:55-108 | minMax leaves the board's squares, history and move number as they were; it returns the alpha-beta value; it writes `_foundMove` only when saveMove is set, and then writes alpha-beta's move |
| Players.AI.MinMaxScored | jump61/AI.java:55-108 | The same with the winning value as a parameter, including the leaf case (lines 57-59) and the save guard (lines 104-106) |
| Players.AI.Candidate | jump61/AI.java:66-99 | One pass of the loop: on a legal square, a strictly better response becomes the best, moves the window and stops the loop once `alpha >= beta`; the board and `_foundMove` are unchanged, and the rest of the loop is alpha-beta's |
| Players.AI.Respond | jump61/AI.java:66-70 | addSpot, a nested search with saveMove false, and undo leave board and `_foundMove` unchanged and give the child's value |
| Players.AI.StaticEval | jump61/AI.java:113-121 | staticEval computes the score function (characterised by `Minimax.StaticEvalMeaning`) |

## Left out

- Notifier callbacks (`setNotifier` and `announce`, including the call in `set`): these are foreign `Consumer` calls. `set` is modelled as `internalSet`.
- `ConstantBoard` and `readonlyBoard`: that class is not part of this model.
- `toDisplayString`: it depends on library regular-expression splitting and `Formatter` padding.
- The unused `_workQueue` field.
- `Game`, `Player`, `getMove`, `reportMove` and the random generator. These classes are not part of this model, so the AI's colour is passed to `SearchForMove`.
- `Display.java`: GUI and concurrency.
- Boards.Board.Jump: the source's recursion has no decreasing measure, so the model bounds the nesting depth with a fuel parameter (`Rules.MaxJumpDepth`, 10000). A cascade nested deeper than that stops early in the model. Conservation, length and ownership are proved for every fuel.
- Int overflow: boards are assumed to satisfy `size * size <= MAX_VALUE` (part of `ValidState`). Spot counts, the spot total and `numOfSide` are unbounded integers. The search values are proved to stay within the int range.
- The history holds value snapshots, not board references. In `Board(board0)` the source stores `board0` itself, so later changes to `board0` would change the history; the model stores board0's squares at the time of copying.
- Boards.Board.Undo: this requires `CanUndo`, which is what the code needs in order not to throw. The path `copy()` followed by `undo()` is excluded because it leaves the history empty.
- Java `assert` statements, such as the side check in `searchForMove` and the size check in `internalCopy`, become preconditions where they matter and are otherwise dropped.
- The model takes the size as a `nat`. The source does not check N in `Board(int N)` or `clear(int N)`; its visible caller, `Display.java:29-37`, offers sizes 2 to 10.

## Findings

| source | as written | input that shows it | evidently intended | confidence | as-written member | corrected member |
|---|---|---|---|---|---|---|
| jump61/Board.java:389-410 | equals compares only this board's N*N squares and never the sizes | a fresh 1 x 1 board equals a fresh 2 x 2 board, not the other way round, and their hash codes are 1 and 4 | equal boards have the same size and squares, equality is symmetric, and equal boards hash alike | not executed | Boards.EqualsAsWrittenCounterexample | Boards.SameBoardSpec |
| jump61/Board.java:332 | the row break test is `i % size() == 1` | a fresh 1 x 1 board dumps as "===1- \n===", with no row line | every row, including a board's only row, starts on a new indented line | not executed | Text.DumpAsWrittenOneByOne | Text.DumpIsRows |
| jump61/AI.java:58-106 | a win scores `Integer.MAX_VALUE`, which is also BLUE's starting `bestSoFar` | the 2 x 2 board RED 1, RED 2 / RED 1, BLUE 1 with BLUE to move: BLUE's only move lets RED capture everything, so no response is below MAX_VALUE and searchForMove returns -1 | a lost position still yields a legal move (a winning value below MAX_VALUE, here `MAX_VALUE - 1`) | not executed | Minimax.LostBlueRecordsNoMove | Minimax.CorrectedSearchFindsMove |
