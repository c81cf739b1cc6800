/** The Ataxx board state machine (Board.java): the bordered grid, piece counts,
    turn, jump counter, move history and undo stack, with the operations that
    read and change them. Every operation is a pure function from one board
    value to the next. */
module Boards {
  import opened Outcomes
  import opened Pieces
  import opened Squares
  import opened Grids

  /** Number of consecutive non-extending moves that ends the game. */
  const JumpLimit: int := 25

  /** One element of the undo stack: the sentinel that opens a move's frame
      (Java pushes `null`), or a square and the colour to restore there. */
  datatype UndoEntry = Mark | Saved(sq: int, prior: PieceColor)

  datatype Board = Board(
    cells: Grid,              // the 11x11 array, border included
    reds: int,                // _numReds
    blues: int,               // _numBlues
    turn: PieceColor,         // _whoseMove
    jumps: int,               // _numJumps
    history: seq<Move>,       // _allMoves
    undo: seq<UndoEntry>)     // _undoI/_undoC, top of stack last

  /** Contents of square (c, r). */
  function At(b: Board, c: int, r: int): (x: PieceColor)
    requires OnGrid(c, r)
  {
    b.cells[Index(c, r)]
  }

  /** The two outer rings of the grid are blocked. */
  ghost predicate BorderBlocked(b: Board)
  {
    forall c, r :: OnGrid(c, r) && !Interior(c, r) ==> At(b, c, r) == Blocked
  }

  /** The piece counters agree with the pieces on the board. */
  ghost predicate Consistent(b: Board)
  {
    BorderBlocked(b)
    && b.reds == Census(b.cells, Red)
    && b.blues == Census(b.cells, Blue)
  }

  /** Contents of square (c, r) right after clear(). */
  function StartCell(c: int, r: int): (x: PieceColor)
  {
    if !Interior(c, r) then Blocked
    else if (c, r) == (0, 0) || (c, r) == (6, 6) then Blue
    else if (c, r) == (0, 6) || (c, r) == (6, 0) then Red
    else Empty
  }

  /** What clear() leaves at index i: its two painting loops make the square
      BLOCKED, then EMPTY if it is on the playing area; then set() puts Blue on
      a1, Red on a7, Red on g1 and Blue on g7, a later write winning. */
  function ClearedAt(i: int): (x: PieceColor)
    requires 0 <= i < GridSize
  {
    var painted := if Interior(Col(i), Row(i)) then Empty else Blocked;
    if i == Index(6, 6) then Blue
    else if i == Index(6, 0) then Red
    else if i == Index(0, 6) then Red
    else if i == Index(0, 0) then Blue
    else painted
  }

  /** clear(): Red to move with two pieces a side, no jumps, no history and an
      empty undo stack; the painted grid gets Blue on a1 and g7, Red on a7 and g1. */
  function Clear(): (b: Board)
    ensures b.turn == Red && b.jumps == 0 && b.history == [] && b.undo == []
    ensures b.reds == 2 && b.blues == 2
  {
    Board(seq(121, i requires 0 <= i < 121 => ClearedAt(i)), 2, 2, Red, 0, [], [])
  }

  /** The copy constructor Board(Board b): clone the array, clear (which
      re-blocks the border), then copy back the playing area and every field. */
  function Copy(b: Board): (r: Board)
  {
    var cleared := Clear();
    b.(cells := seq(121, i requires 0 <= i < 121 =>
                    if Interior(Col(i), Row(i)) then b.cells[i] else cleared.cells[i]))
  }

  /** numPieces(color). */
  function NumPieces(b: Board, color: PieceColor): (n: int)
  {
    if color == Red then b.reds
    else if color == Blue then b.blues
    else 0
  }

  /** incrPieces(color, k); no effect for a colour that is not a player's. */
  function IncrPieces(b: Board, color: PieceColor, k: int): (r: Board)
    ensures r.cells == b.cells && r.turn == b.turn && r.jumps == b.jumps
    ensures r.history == b.history && r.undo == b.undo
    ensures NumPieces(r, color) == NumPieces(b, color) + (if IsPiece(color) then k else 0)
    ensures forall other :: other != color ==> NumPieces(r, other) == NumPieces(b, other)
  {
    if color == Red then b.(reds := b.reds + k)
    else if color == Blue then b.(blues := b.blues + k)
    else b
  }

  /** legalMove(move). legalMove rejects a `null` move; the model stands for
      a move naming a square off the 11x11 grid by requiring both squares on
      the grid. */
  predicate LegalMove(b: Board, m: Move)
  {
    m.Pass?
    || (OnGrid(m.col0, m.row0) && OnGrid(m.col1, m.row1)
        && At(b, m.col1, m.row1) == Empty
        && (IsExtend(m) || IsJump(m))
        && At(b, m.col0, m.row0) != Empty
        && At(b, m.col0, m.row0) != Blocked
        && At(b, m.col0, m.row0) == b.turn)
  }

  /** canMove(who): some playing-area square holding who has an empty square
      within two columns and two rows of it. */
  predicate CanMove(b: Board, who: PieceColor)
  {
    Mobile(b.cells, who)
  }

  /** canMove's scan, which looks at the squares only. */
  predicate Mobile(g: Grid, who: PieceColor)
  {
    exists c, r | 0 <= c < 7 && 0 <= r < 7 ::
      g[Index(c, r)] == who
      && exists dc, dr | -2 <= dc < 3 && -2 <= dr < 3 ::
           g[Neighbor(Index(c, r), dc, dr)] == Empty
  }

  /** gameOver(). */
  predicate GameOver(b: Board)
  {
    b.blues == 0 || b.reds == 0 || b.jumps >= JumpLimit
    || (!CanMove(b, Red) && !CanMove(b, Blue))
  }

  /** The assertion pass() makes: the mover cannot move but still has pieces. */
  predicate PassAllowed(b: Board)
  {
    !CanMove(b, b.turn) && NumPieces(b, b.turn) != 0
  }

  /** pass(): only the jump counter and the turn change; nothing is recorded. */
  function Pass(b: Board): (r: Board)
    requires PassAllowed(b)
    ensures r.cells == b.cells && r.reds == b.reds && r.blues == b.blues
    ensures r.history == b.history && r.undo == b.undo
    ensures r.turn == Opposite(b.turn) && r.jumps == b.jumps + 1
  {
    b.(jumps := b.jumps + 1, turn := Opposite(b.turn))
  }

  /** The squares makeMove flips: scanning the 3x3 block around the destination
      (c1, r1), column offset outer and row offset inner, the first n cells that
      hold a piece other than p. */
  function Captures(g: Grid, c1: int, r1: int, p: PieceColor, n: int): (ts: seq<int>)
    requires Interior(c1, r1) && 0 <= n <= 9
    ensures forall i :: 0 <= i < |ts| ==> 0 <= ts[i] < GridSize && IsPiece(g[ts[i]]) && g[ts[i]] != p
    ensures forall i, j :: 0 <= i < j < |ts| ==> ts[i] != ts[j]
    ensures forall c, r :: OnGrid(c, r) ==>
              (Index(c, r) in ts
               <==> (Abs(c - c1) <= 1 && Abs(r - r1) <= 1 && (c - c1 + 1) * 3 + (r - r1 + 1) < n
                     && IsPiece(g[Index(c, r)]) && g[Index(c, r)] != p))
  {
    if n == 0 then []
    else
      var c := c1 + (n - 1) / 3 - 1;
      var r := r1 + (n - 1) % 3 - 1;
      var sq := Index(c, r);
      var before := Captures(g, c1, r1, p, n - 1);
      forall c', r' | OnGrid(c', r') ensures Index(c', r') == sq <==> c' == c && r' == r {
        IndexInjective(c', r', c, r);
      }
      before + (if IsPiece(g[sq]) && g[sq] != p then [sq] else [])
  }

  /** Writes turning each square of ts to p, each logging the colour it had. */
  function FlipWrites(g: Grid, ts: seq<int>, p: PieceColor): (ws: seq<Write>)
    requires forall i :: 0 <= i < |ts| ==> 0 <= ts[i] < GridSize
    ensures |ws| == |ts| && InBounds(ws)
  {
    seq(|ts|, i requires 0 <= i < |ts| => Write(ts[i], p, g[ts[i]]))
  }

  /** The cell writes of a non-pass move by p, in the order makeMove performs
      them, each with the colour it pushes on the undo stack: every captured
      square (logging the enemy colour), on a jump the origin (logging p), and
      last the destination (logging EMPTY). */
  function MoveWrites(g: Grid, m: Move, p: PieceColor): (ws: seq<Write>)
    requires m.Play? && OnGrid(m.col0, m.row0) && Interior(m.col1, m.row1)
    ensures InBounds(ws)
  {
    FlipWrites(g, Captures(g, m.col1, m.row1, p, 9), p) + TailWrites(m, p)
  }

  /** The writes after the flips: a jump's origin, then the destination. */
  function TailWrites(m: Move, p: PieceColor): (ws: seq<Write>)
    requires m.Play? && OnGrid(m.col0, m.row0) && OnGrid(m.col1, m.row1)
    ensures InBounds(ws)
  {
    (if IsJump(m) then [Write(Index(m.col0, m.row0), Empty, p)] else [])
    + [Write(Index(m.col1, m.row1), p, Empty)]
  }

  /** Undo-stack entries pushed for the writes, in push order. */
  function Logged(ws: seq<Write>): (log: seq<UndoEntry>)
    ensures |log| == |ws|
    ensures forall i :: 0 <= i < |ws| ==> log[i] == Saved(ws[i].sq, ws[i].logged)
  {
    seq(|ws|, i requires 0 <= i < |ws| => Saved(ws[i].sq, ws[i].logged))
  }

  /** The body of makeMove's `canMove(p) && !gameOver()` branch for a move by p:
      record the move, open an undo frame, flip, adjust the counters (k for a
      jump, k + 1 for an extend), vacate the origin of a jump, fill the destination. */
  function Apply(b: Board, m: Move, p: PieceColor): (next: Board)
    requires m.Play? && OnGrid(m.col0, m.row0) && Interior(m.col1, m.row1)
  {
    var k := |Captures(b.cells, m.col1, m.row1, p, 9)|;
    var ws := MoveWrites(b.cells, m, p);
    var counted :=
      if IsJump(m) then IncrPieces(IncrPieces(b, p, k), Opposite(p), -k)
      else if IsExtend(m) then IncrPieces(IncrPieces(b, p, k + 1), Opposite(p), -k)
      else b;
    counted.(cells := ApplyWrites(b.cells, ws),
             history := b.history + [m],
             undo := b.undo + [Mark] + Logged(ws))
  }

  /** What makeMove's guard tests for a non-pass move. */
  predicate Guard(b: Board, m: Move)
    requires m.Play? && OnGrid(m.col0, m.row0)
  {
    CanMove(b, At(b, m.col0, m.row0)) && !GameOver(b)
  }

  /** makeMove(move). A pass is pass(). Otherwise the cells, counters, history and
      undo stack change only when the guard holds, while the jump counter and
      the turn are updated whether or not it does. */
  function MakeMove(b: Board, m: Move): (r: Board)
    requires BorderBlocked(b) && LegalMove(b, m)
    requires m.Pass? ==> PassAllowed(b)
    ensures r.turn == Opposite(b.turn)
    ensures m.Play? ==> r.jumps == (if IsExtend(m) then 0 else b.jumps + 1)
    ensures m.Play? && !Guard(b, m) ==>
              r.cells == b.cells && r.reds == b.reds && r.blues == b.blues
              && r.history == b.history && r.undo == b.undo
    ensures m.Play? && Guard(b, m) ==> r.history == b.history + [m]
  {
    if m.Pass? then Pass(b)
    else
      var p := At(b, m.col0, m.row0);
      var moved := if Guard(b, m) then Apply(b, m, p) else b;
      moved.(jumps := if IsExtend(m) then 0 else b.jumps + 1, turn := Opposite(b.turn))
  }

  /** What undo's loop has restored and counted when it reaches the sentinel. */
  datatype Unwound = Unwound(cells: Grid, rest: seq<UndoEntry>, empties: nat, same: nat, opposing: nat)

  /** undo's loop: pop entries down to the sentinel, restoring each square, and
      count the restored colours that are EMPTY, equal to dst, or equal to its
      opposite. None where Java would throw (stack exhausted, bad index). */
  function Unwind(g: Grid, log: seq<UndoEntry>, dst: PieceColor): (res: Option<Unwound>)
    decreases |log|
  {
    if |log| == 0 then None
    else
      match log[|log| - 1]
      case Mark => Some(Unwound(g, log[..|log| - 1], 0, 0, 0))
      case Saved(sq, prior) =>
        if !(0 <= sq < GridSize) then None
        else
          match Unwind(g[sq := prior], log[..|log| - 1], dst)
          case None => None
          case Some(u) => Some(Tally(u, prior, dst))
  }

  /** undo's classification of one restored colour. */
  function Tally(u: Unwound, prior: PieceColor, dst: PieceColor): (res: Unwound)
  {
    if prior == Empty then u.(empties := u.empties + 1)
    else if prior == dst then u.(same := u.same + 1)
    else if prior == Opposite(dst) then u.(opposing := u.opposing + 1)
    else u
  }

  /** undo(): take back the last recorded move. None where Java would throw:
      empty history, or a history/stack that no recorded move could produce. */
  function Undo(b: Board): (r: Option<Board>)
    ensures r.Some? ==> |b.history| > 0 && r.value.history + [b.history[|b.history| - 1]] == b.history
    ensures r.Some? ==> r.value.turn == Opposite(b.turn)
  {
    if |b.history| == 0 then None
    else
      var m := b.history[|b.history| - 1];
      if m.Pass? || !OnGrid(m.col1, m.row1) then None
      else
        var dst := At(b, m.col1, m.row1);
        match Unwind(b.cells, b.undo, dst)
        case None => None
        case Some(u) =>
          var counted := IncrPieces(IncrPieces(b, dst, u.same - u.opposing - u.empties),
                                    Opposite(dst), u.opposing);
          Some(counted.(cells := u.cells,
                        undo := u.rest,
                        jumps := if IsJump(m) || IsExtend(m) then b.jumps - 1 else b.jumps,
                        turn := Opposite(b.turn),
                        history := b.history[..|b.history| - 1]))
  }

  /** legalBlock(c, r): no piece there, and not one of the four starting corners. */
  predicate LegalBlock(b: Board, c: int, r: int)
    requires OnGrid(c, r)
  {
    var sq := Index(c, r);
    !(IsPiece(At(b, c, r))
      || sq == Index(0, 0) || sq == Index(0, 6) || sq == Index(6, 0) || sq == Index(6, 6))
  }

  /** setBlock(c, r): block (c, r) and its reflections across the middle row and
      column, or fail, leaving the board alone, if any of the four is not a
      legal block site. Does nothing to the cells if (c, r) is already blocked. */
  function SetBlock(b: Board, c: int, r: int): (res: Result<Board>)
    requires OnGrid(c, r)
    ensures res.Ok? ==> res.value.(cells := b.cells) == b && res.value.cells[Index(c, r)] == Blocked
    ensures res.Ok? ==> forall i :: 0 <= i < GridSize && IsPiece(b.cells[i]) ==> res.value.cells[i] == b.cells[i]
  {
    if !LegalBlock(b, c, r) then Err("illegal block placement")
    else
      var newR := Reflect(r);
      var newC := Reflect(c);
      if !LegalBlock(b, c, newR) || !LegalBlock(b, newC, r) || !LegalBlock(b, newC, newR) then
        Err("illegal block")
      else if At(b, c, r) != Blocked then
        Ok(b.(cells := b.cells[Index(c, r) := Blocked][Index(c, newR) := Blocked]
                              [Index(newC, r) := Blocked][Index(newC, newR) := Blocked]))
      else Ok(b)
  }
}
