/** The AI player: alpha-beta search over a board it makes moves on and
    undoes, a static evaluation, and the choice of the move to play. */
module AI {
  import opened Outcomes
  import opened Pieces
  import opened Squares
  import opened Grids
  import opened Boards
  import opened BoardFacts
  import opened MoveFacts
  import opened UndoFacts
  import opened MoveLists

  /** Depth of the search before the static evaluation takes over. */
  const MaxDepth := 4
  /** Integer.MAX_VALUE, the search's initial window bound. */
  const Infinity := 0x7fff_ffff

  /** The number of playing-area squares, Side * Side: no score exceeds it. */
  const MaxScore := 49

  function Max(a: int, b: int): (m: int)
  {
    if a < b then b else a
  }

  function Min(a: int, b: int): (m: int)
  {
    if a < b then a else b
  }

  /** staticScore(board) for an AI playing me: Red counts red pieces minus
      blue pieces, every other colour counts blue pieces minus red pieces. */
  function StaticScore(b: Board, me: PieceColor): (v: int)
    ensures IsPiece(me) ==> v == NumPieces(b, me) - NumPieces(b, Opposite(me))
    ensures !IsPiece(me) ==> v == b.blues - b.reds
  {
    if me == Red then b.reds - b.blues else b.blues - b.reds
  }

  /** On a consistent board the static score lies between -49 and 49, and the
      two colours score it with opposite signs. */
  lemma ScoreBounded(b: Board, me: PieceColor)
    ensures Consistent(b) ==> -MaxScore <= StaticScore(b, me) <= MaxScore
    ensures StaticScore(b, Red) == -StaticScore(b, Blue)
  {
    CensusTotal(b.cells);
  }

  /** makeMove keeps a consistent board consistent. */
  lemma ChildConsistent(b: Board, m: Move)
    requires BorderBlocked(b) && LegalMove(b, m) && m.Play?
    ensures Consistent(b) ==> Consistent(MakeMove(b, m))
  {
    if Consistent(b) {
      MakeMoveKeepsConsistent(b, m);
    }
  }

  /** makeMove keeps the border blocked, whether or not its guard holds. */
  lemma MakeMoveKeepsBorder(b: Board, m: Move)
    requires BorderBlocked(b) && LegalMove(b, m) && m.Play?
    ensures BorderBlocked(MakeMove(b, m))
  {
    if Guard(b, m) {
      MoveKeepsBorder(b, m);
    } else {
      assert MakeMove(b, m).cells == b.cells;
    }
  }

  /** A board equal to a bordered one in all but the jump counter is bordered,
      allows the same moves, and is over only if that one is (its counter
      being no higher, or below the limit). */
  lemma SameBoardFacts(root: Board, cur: Board, m: Move)
    requires BorderBlocked(root) && !GameOver(root) && LegalMove(root, m)
    requires SameExceptJumps(cur, root) && cur.jumps <= Max(root.jumps, -1)
    ensures BorderBlocked(cur) && LegalMove(cur, m) && !GameOver(cur)
  {
    assert cur.cells == root.cells && cur.turn == root.turn;
    assert cur.reds == root.reds && cur.blues == root.blues;
  }

  /** What undo leaves after a search below move m: undo succeeds, and the
      board equals the one the loop started from in all but the jump counter,
      which has not grown. */
  lemma StepBack(root: Board, cur: Board, m: Move, after: Board)
    requires BorderBlocked(root) && !GameOver(root) && LegalMove(root, m) && m.Play?
    requires SameExceptJumps(cur, root) && cur.jumps <= Max(root.jumps, -1)
    requires BorderBlocked(cur) && LegalMove(cur, m)
    requires SameExceptJumps(after, MakeMove(cur, m)) && after.jumps <= Max(MakeMove(cur, m).jumps, -1)
    ensures Undo(after).Some?
    ensures SameExceptJumps(Undo(after).value, root) && Undo(after).value.jumps <= Max(root.jumps, -1)
  {
    SameBoardFacts(root, cur, m);
    var child := MakeMove(cur, m);
    UndoInvertsMove(cur, m);
    UndoIgnoresJumps(after, child);
    GuardHolds(cur, m);
    assert child.history == cur.history + [m];
    assert after.history == child.history;
    assert after.history[|after.history| - 1] == m;
    assert Undo(after).value.jumps == after.jumps - 1;
  }

  /** The value a search returns and the board it leaves behind. */
  datatype Scored = Scored(value: int, board: Board)

  /** findMove(board, depth, saveMove, sense, alpha, beta) without the saveMove
      side effect (see FindMove). A leaf (depth 0, game over, or no move for
      the side to move) is scored statically; sense 1 maximises and sense -1
      minimises over the moves, searching below each at depth - 1; any other
      sense yields 0. The board that comes back equals the one given in all
      but the jump counter. */
  function Search(b: Board, me: PieceColor, depth: nat, sense: int, alpha: int, beta: int): (s: Scored)
    requires BorderBlocked(b)
    ensures SameExceptJumps(s.board, b) && s.board.jumps <= Max(b.jumps, -1)
    decreases depth, 1, 0
  {
    var moves := LegalMoves(b, b.turn);
    if depth == 0 || GameOver(b) || |moves| == 0 then Scored(StaticScore(b, me), b)
    else if sense == 1 || sense == -1 then Loop(b, me, moves, 0, depth - 1, sense, alpha, beta, b)
    else Scored(0, b)
  }

  /** The loop of findMove from move i on, with d the depth of the searches
      below the moves, the current window and the current board cur: make the
      move, search below it with the opposite sense, fold the value into alpha
      (sense 1) or beta (sense -1), undo, and stop once beta <= alpha. */
  function Loop(root: Board, me: PieceColor, moves: seq<Move>, i: nat, d: nat, sense: int,
                alpha: int, beta: int, cur: Board): (s: Scored)
    requires BorderBlocked(root) && !GameOver(root) && i <= |moves|
    requires sense == 1 || sense == -1
    requires forall k :: 0 <= k < |moves| ==> moves[k].Play? && LegalMove(root, moves[k])
    requires SameExceptJumps(cur, root) && cur.jumps <= Max(root.jumps, -1)
    ensures SameExceptJumps(s.board, root) && s.board.jumps <= Max(root.jumps, -1)
    decreases d + 1, 0, |moves| - i
  {
    if i == |moves| then Scored(if sense == 1 then alpha else beta, cur)
    else
      var m := moves[i];
      SameBoardFacts(root, cur, m);
      MakeMoveKeepsBorder(cur, m);
      var sub := Search(MakeMove(cur, m), me, d, -sense, alpha, beta);
      StepBack(root, cur, m, sub.board);
      var back := Undo(sub.board).value;
      var alpha' := if sense == 1 then Max(alpha, sub.value) else alpha;
      var beta' := if sense == 1 then beta else Min(beta, sub.value);
      if beta' <= alpha' then Scored(if sense == 1 then alpha' else beta', back)
      else Loop(root, me, moves, i + 1, d, sense, alpha', beta', back)
  }

  /** The minimax value the search approximates: the static score at a leaf,
      otherwise the best value over the moves for the side the sense names,
      each move's value being the minimax value at depth - 1 of the board
      after it. */
  function Minimax(b: Board, me: PieceColor, depth: nat, sense: int): (v: int)
    requires BorderBlocked(b)
    decreases depth, 1, 0
  {
    var moves := LegalMoves(b, b.turn);
    if depth == 0 || GameOver(b) || |moves| == 0 then StaticScore(b, me)
    else if sense == 1 || sense == -1 then Best(b, me, moves, 0, depth - 1, sense)
    else 0
  }

  /** The best value at depth d over the boards moves[i..] lead to: the
      largest for sense 1, the smallest for sense -1. */
  function Best(b: Board, me: PieceColor, moves: seq<Move>, i: nat, d: nat, sense: int): (v: int)
    requires BorderBlocked(b) && i < |moves|
    requires sense == 1 || sense == -1
    requires forall k :: 0 <= k < |moves| ==> moves[k].Play? && LegalMove(b, moves[k])
    decreases d + 1, 0, |moves| - i
  {
    MakeMoveKeepsBorder(b, moves[i]);
    var v := Minimax(MakeMove(b, moves[i]), me, d, -sense);
    if i == |moves| - 1 then v
    else if sense == 1 then Max(v, Best(b, me, moves, i + 1, d, sense))
    else Min(v, Best(b, me, moves, i + 1, d, sense))
  }

  /** The sense findMove() starts with: 1 (maximise) for Red, -1 otherwise. */
  function RootSense(me: PieceColor): (s: int)
  {
    if me == Red then 1 else -1
  }

  /** The outcome of findMove(): the value of the root search, and the move it
      reports. */
  datatype Found = Found(value: int, move: Option<Move>)

  /** findMove(): search a copy of the board to MaxDepth with the full window,
      maximising for Red and minimising otherwise. The move reported is
      _lastFoundMove, which the root call sets to the first legal move when
      the root is not a leaf and leaves at its earlier value last otherwise. */
  function FindMove(b: Board, me: PieceColor, last: Option<Move>): (f: Found)
    ensures f.move != last ==> f.move.Some? && f.move.value.Play? && LegalMove(Copy(b), f.move.value)
  {
    CopyFaithful(b);
    var start := Copy(b);
    var moves := LegalMoves(start, start.turn);
    var s := Search(start, me, MaxDepth, RootSense(me), -Infinity, Infinity);
    Found(s.value, if GameOver(start) || |moves| == 0 then last else Some(moves[0]))
  }

  /** myMove(): pass when me cannot move, otherwise the move findMove reports. */
  function MyMove(b: Board, me: PieceColor, last: Option<Move>): (r: Option<Move>)
    ensures r == Some(Pass) || r == last || (r.Some? && r.value.Play? && LegalMove(Copy(b), r.value))
    ensures CanMove(b, me) && last != Some(Pass) ==> r != Some(Pass)
  {
    if !CanMove(b, me) then Some(Pass) else FindMove(b, me, last).move
  }
}
