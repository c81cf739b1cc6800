# Ataxx rules engine and search player, modelled in Dafny

This project models the core of a Java Ataxx program:

- the board state machine of `ataxx/Board.java`, which covers:
  - the 11x11 grid with a two-deep blocked border;
  - piece counters, turn, jump counter, move history and the undo stack;
  - `clear`, the copy constructor, `legalMove`, `canMove` and `gameOver`;
  - `makeMove`, `pass` and `undo`;
  - `legalBlock` and `setBlock`;
- the search player of `ataxx/AI.java`:
  - `legalMoves` and `staticScore`;
  - the alpha-beta `findMove`;
  - `myMove`.

Every operation is a pure function from one immutable `Board` value to the next. The model keeps these choices:

- Squares are integer columns and rows. The playing area is 0..6 (a..g, 1..7); the border is -2, -1, 7 and 8.
- `Index(c, r) = (r + 2) * 11 + (c + 2)`.
- makeMove is a list of logged cell writes, and undo is the unwinding of that log. Undo returns `None` where Java would throw.
- The alpha-beta search threads the board through its loop: after each move, the loop continues on `Undo` of the board the search below returned.
- The minimax value the search approximates is a separate definition, `AI.Minimax`. It plays every move on the true board.

Files and modules:

| file | module | contents |
|---|---|---|
| outcomes.dfy | Outcomes | `Option`, `Result` |
| pieces.dfy | Pieces | `PieceColor`, `IsPiece`, `Opposite` |
| squares.dfy | Squares | coordinates, `Index`, `Neighbor`, `Move`, extend and jump |
| grids.dfy | Grids | the 121-cell grid, the census of the playing area, logged writes |
| board.dfy | Boards | the board and every Board.java operation |
| board_facts.dfy | BoardFacts | clear, copy and setBlock |
| move_facts.dfy | MoveFacts | what makeMove does to cells and counters |
| undo_facts.dfy | UndoFacts | undo inverts makeMove |
| moves.dfy | MoveLists | `legalMoves`: soundness, completeness, order |
| search.dfy | AI | `staticScore`, the search, minimax, `findMove`, `myMove` |
| alphabeta.dfy | AlphaBeta | the window theorem and the bounds on the minimax value |
| ai_facts.dfy | AIFacts | the value and the move the AI reports |

## Model

| member | source | states |
|---|---|---|
| Squares.NeighborOfIndex | ataxx/Board.java:74-82 | moving an index by (dc, dr) with `neighbor` is the index of the square moved by (dc, dr) |
| Squares.IndexInjective | ataxx/Board.java:74-76 | two grid squares have the same linearised index exactly when they are the same square |
| Squares.IndexOnto | ataxx/Board.java:74-76 | every index in [0, 121) is the index of a grid square, and `Col` and `Row` recover that square from it |
| BoardFacts.ClearCells | ataxx/Board.java:86-111 | on the cleared board the border is blocked, Blue is on a1 and g7, Red is on a7 and g1, and every other playing-area square is empty |
| Boards.Clear | ataxx/Board.java:84-114 | clear() leaves Red to move with two pieces a side, no jumps, an empty history and an empty undo stack; the squares it paints are stated by BoardFacts.ClearCells |
| BoardFacts.ClearConsistent | ataxx/Board.java:86-111 | the cleared board is consistent: border blocked, two pieces of each colour, and both counters at 2 |
| BoardFacts.ClearNotOver | ataxx/Board.java:119-127 | in the starting position both sides can move, so gameOver is false |
| BoardFacts.CopyFaithful | ataxx/Board.java:52-71 | the copy has a blocked border, the same playing area and the same other fields; it equals the original when that one's border is blocked, and it keeps consistency |
| Boards.IncrPieces | ataxx/Board.java:149-156 | incrPieces adds k to the counter of a Red or Blue colour, leaves the other counter alone, does nothing for any other colour, and touches no other field |
| BoardFacts.NumPiecesCounts | ataxx/Board.java:139-147 | on a consistent board numPieces(color) is the number of that colour's pieces on the playing area, and 0 for a colour that is not a player's |
| MoveFacts.CanMoveExact | ataxx/Board.java:214-234 | on a bordered board canMove(who) holds exactly when some playing-area square holding who has an empty playing-area square within two columns and two rows of it |
| Boards.Pass | ataxx/Board.java:320-326 | pass changes only the turn and the jump counter (+1); cells, counters, history and undo stack stay as they were |
| Boards.MakeMove | ataxx/Board.java:266-316 | every move flips the turn; a non-pass move sets the jump counter to 0 on an extend and adds 1 otherwise; when the guard fails nothing else changes; when it holds the move is appended to the history |
| Boards.Captures | ataxx/Board.java:281-294 | after the first n of the nine neighbourhood positions are scanned, the squares to flip are exactly those scanned squares next to the destination that hold a piece other than the mover's, each listed once |
| MoveFacts.LegalMoveShape | ataxx/Board.java:193-213 | a legal non-pass move on a bordered board goes between two distinct playing-area squares, from a piece of the side to move, which can therefore move |
| MoveFacts.MoveChangesCells | ataxx/Board.java:276-305 | a guarded move puts the mover's colour on the destination, empties a jump's origin, turns the adjacent enemy pieces, and leaves every other square alone |
| MoveFacts.MoveCounts | ataxx/Board.java:295-302 | with k the adjacent enemy pieces, the mover gains k + 1 on an extend and k on a jump, and the enemy loses k |
| MoveFacts.MoveKeepsBorder | ataxx/Board.java:276-305 | a guarded move leaves the border blocked |
| MoveFacts.MakeMoveKeepsConsistent | ataxx/Board.java:266-326 | makeMove, pass included, keeps the counters equal to the number of pieces on the board |
| UndoFacts.UndoInvertsMove | ataxx/Board.java:329-358 | undo right after a legal non-pass move in a game that is not over restores the grid, both counters, the turn, the history and the undo stack; the jump counter comes back after a jump and is -1 after an extend |
| UndoFacts.UndoIgnoresJumps | ataxx/Board.java:329-358 | undo succeeds or fails alike on boards that differ only in the jump counter, and the results again differ only there |
| UndoFacts.UndoAll | ataxx/Board.java:329-358 | after N guarded moves, N undos all succeed and give back the starting board in everything but the jump counter |
| Boards.Undo | ataxx/Board.java:328-359 | a successful undo removes exactly the last move from the history and hands the turn back; what it restores is stated by UndoFacts.UndoInvertsMove |
| BoardFacts.SetBlockSucceeds | ataxx/Board.java:375-416 | setBlock succeeds exactly when the square and its three reflections are legal block sites; it fails with "illegal block placement" when the square itself is not, and with "illegal block" otherwise |
| BoardFacts.SetBlockCells | ataxx/Board.java:397-416 | after a successful setBlock the four reflected squares are blocked and nothing else changes; on an already-blocked square nothing changes at all |
| BoardFacts.SetBlockKeepsConsistent | ataxx/Board.java:397-416 | setBlock keeps a consistent board consistent |
| BoardFacts.SetBlockIdempotent | ataxx/Board.java:397-416 | placing the same block twice is the same as placing it once |
| Boards.SetBlock | ataxx/Board.java:391-416 | a successful setBlock leaves the square blocked, never overwrites a piece, and changes no field but the grid; the rest is stated by BoardFacts.SetBlockSucceeds and BoardFacts.SetBlockCells |
| MoveLists.LegalMoves | ataxx/AI.java:102-130 | the list is empty on a full board; every listed move is a legal non-pass move from a playing-area square holding who |
| MoveLists.LegalMovesExact | ataxx/AI.java:102-130 | on a consistent board, a move is listed exactly when it is a legal non-pass move from a square holding who; on a full board there is no such move, so the early return at lines 106-108 loses nothing |
| MoveLists.ListedIffLegal | ataxx/AI.java:109-128 | on a bordered board that is not full, the scan lists exactly the legal non-pass moves from a square holding who |
| MoveLists.LegalMovesOrdered | ataxx/AI.java:109-128 | the list is strictly increasing in scan order: origin column, origin row, destination column, destination row |
| MoveLists.FilterIncreasing | ataxx/AI.java:109-128 | the steps of a scan that produce an element come out in strictly increasing order |
| MoveLists.FilterComplete | ataxx/AI.java:109-128 | every step the scan accepts produces an element, at a position the lemma returns |
| MoveLists.SlotOfSlotMove | ataxx/AI.java:109-125 | the scan position of the move tried at step s is s |
| MoveLists.SlotMoveSlotOf | ataxx/AI.java:109-125 | every move from a playing-area square to a square within two columns and two rows is tried at exactly one step |
| MoveLists.OnlyMoverMoves | ataxx/AI.java:102-130 | only the side to move can have listed moves |
| MoveLists.MobilityAgrees | ataxx/AI.java:102-130 | for the side to move on a consistent board, legalMoves is non-empty exactly when canMove holds |
| AI.StaticScore | ataxx/AI.java:133-140 | the score is the player's pieces minus the opponent's for a Red or Blue player, and blues minus reds for any other colour |
| AI.ScoreBounded | ataxx/AI.java:133-140 | the Red and Blue scores are negations of each other, and on a consistent board both lie in [-49, 49] |
| AI.Search | ataxx/AI.java:57-99 | the board the search leaves behind equals the one it was given in everything but the jump counter, which ends no higher than the original or -1 |
| AI.StepBack | ataxx/AI.java:73-76 | undo after the search below a move succeeds and gives back the board the loop started from, apart from the jump counter |
| AlphaBeta.SearchWindow | ataxx/AI.java:52-99 | for alpha < beta with v the minimax value: the search returns v when alpha < v < beta, at most alpha when v <= alpha, and at least beta when v >= beta |
| AlphaBeta.LoopWindow | ataxx/AI.java:67-96 | a maximising loop returns max(alpha, w) when that is below beta and at least beta otherwise, with w the best minimax value of the remaining moves; a minimising loop is the mirror image |
| AlphaBeta.MinimaxIgnoresJumps | ataxx/Board.java:119-127 | far enough below the jump limit, the minimax value does not depend on the jump counter |
| AlphaBeta.MinimaxBounded | ataxx/AI.java:57-99 | on a consistent board the minimax value lies in [-49, 49] |
| AlphaBeta.LeafAgrees | ataxx/AI.java:57-98 | where findMove stops without trying moves it gives the minimax value: at depth 0, with the game over or with no legal move, the static score with the board returned unchanged; at a deeper node with moves but a sense other than 1 and -1, the value 0 with the board unchanged |
| AIFacts.FindMoveValue | ataxx/AI.java:39-47 | the root search with the window (-INFTY, INFTY) returns exactly the minimax value, which lies in [-49, 49] |
| AIFacts.FindMoveChoice | ataxx/AI.java:39-66 | the move findMove reports is the first listed move of the side to move, or the earlier `_lastFoundMove` when the root is a leaf |
| AI.FindMove | ataxx/AI.java:37-47 | the move findMove() reports is either the earlier `_lastFoundMove` or a legal non-pass move on the board it searched; its value is stated by AIFacts.FindMoveValue |
| AIFacts.FirstListedIsFirst | ataxx/AI.java:64-66 | the first listed move is legal, belongs to the side to move, and no legal move of that side comes before it in scan order |
| AIFacts.MyMoveChoice | ataxx/AI.java:28-35 | on the AI's turn, myMove passes exactly when the AI cannot move; otherwise it plays the first legal move in scan order, or the earlier `_lastFoundMove` when the game is over |
| AI.MyMove | ataxx/AI.java:28-35 | myMove() passes, repeats the earlier `_lastFoundMove`, or plays a move that is legal and not a pass on the copy findMove searched; it never passes when the AI can move unless that earlier move was a pass |

## Left out

- ataxx/Game.java, ataxx/Manual.java and ataxx/UnitTest.java are not part of this model. They hold command dispatch, user input and tests.
- `toString`, `equals` and `hashCode` are left out. So are the observer notifications, which have no effect on the state.
- Java `int` overflow is not modelled; integers are unbounded. Piece counts and scores stay within -49..49, and the window bounds of plus and minus `Integer.MAX_VALUE` (`AI.Infinity`) are only compared and passed through max and min, never added to, so no wrap-around arises.
- `Move.java` and `PieceColor.java` are not part of this model. `Move` is `Pass` or a pair of squares. Extend means Chebyshev distance 1 and jump means distance 2. `Opposite` swaps Red and Blue and leaves Empty and Blocked alone.
- A move naming a square off the 11x11 grid, which legalMove rejects through its `null` check (Board.java:194), is modelled by `LegalMove` requiring both squares on the grid.
- Boards.SetBlock and the legalBlock check it makes are stated only for squares on the 11x11 grid (`requires OnGrid(c, r)`). The block command's operands are taken to name such squares; an off-grid character in setBlock (Board.java:397) would index outside the grid or alias another cell.
- The Java `assert`s in makeMove and pass become `requires` clauses. makeMove needs a legal move, and a pass needs a mover with pieces but no move.
- AlphaBeta.SearchWindow: it requires the jump counter to be far enough below the limit that no node of the search tree reaches 25 (`FarFromLimit`). Undo sets the counter to -1 after an extend, so the search's counter drifts below the true one. Nearer the limit, the search may miss a jump-limit game end that the minimax definition sees.
- AlphaBeta.LoopWindow: it has the same jump-counter requirement as SearchWindow, `FarFromLimit(root, d + 1)`, for the same reason: the loop threads the board that undo gives back, whose counter drifts below the true one.
- AIFacts.FindMoveValue: it has the same jump-counter requirement, and a consistent board.
- AIFacts.MyMoveChoice: it is stated for the AI's own turn only (`me == b.turn`), which is how the game calls it. It also describes the move chosen, not its value. The AI plays `legalMoves[0]` whatever the search finds, because `_lastFoundMove` is set once, before the loop.
- The Blue AI starts with sense -1 while `staticScore` is taken from Blue's own point of view, so a Blue AI minimises its own score. The model reproduces this: `AI.RootSense` is -1 for Blue, and `AI.StaticScore` counts from Blue's side.
- AI.Search: it states that the board comes back equal except for the jump counter, not identical. After an extend, undo leaves the counter at -1. That is what the code does.
- Pairing `pass` with `undo` is not modelled. pass records nothing, and the search never generates a pass.
- The `WINNING_VALUE` constant of ataxx/AI.java is declared but never used by the search, so it has no counterpart here.
