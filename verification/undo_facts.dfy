/** undo takes back exactly what makeMove did. */
module UndoFacts {
  import opened Outcomes
  import opened Pieces
  import opened Squares
  import opened Grids
  import opened Boards
  import opened MoveFacts

  /** Boards equal in everything but the jump counter. */
  predicate SameExceptJumps(a: Board, b: Board)
  {
    a.(jumps := 0) == b.(jumps := 0)
  }

  /** One iteration of undo's loop. */
  lemma UnwindPop(g: Grid, log: seq<UndoEntry>, dst: PieceColor)
    requires |log| > 0 && log[|log| - 1].Saved? && 0 <= log[|log| - 1].sq < GridSize
    ensures var top := log[|log| - 1];
            Unwind(g, log, dst)
            == match Unwind(g[top.sq := top.prior], log[..|log| - 1], dst)
               case None => None
               case Some(u) => Some(Tally(u, top.prior, dst))
  {
  }

  /** Writing back what the last honest write logged undoes that write. */
  lemma RestoreLastWrite(g: Grid, ws: seq<Write>)
    requires InBounds(ws) && |ws| > 0 && Honest(g, ws)
    ensures var w := ws[|ws| - 1];
            ApplyWrites(g, ws)[w.sq := w.logged] == ApplyWrites(g, ws[..|ws| - 1])
  {
  }

  /** The stack below the top entry of a frame is the frame of the earlier writes. */
  lemma LoggedFront(log0: seq<UndoEntry>, ws: seq<Write>)
    requires |ws| > 0
    ensures var log := log0 + [Mark] + Logged(ws);
            && log[|log| - 1] == Saved(ws[|ws| - 1].sq, ws[|ws| - 1].logged)
            && log[..|log| - 1] == log0 + [Mark] + Logged(ws[..|ws| - 1])
  {
    var log := log0 + [Mark] + Logged(ws);
    assert log[..|log| - 1] == log0 + [Mark] + Logged(ws[..|ws| - 1]);
  }

  /** Popping the entries logged by honest writes, down to the sentinel pushed
      before them, restores the grid and the stack below the sentinel, and counts
      the restored colours by what the writes logged. */
  lemma {:induction false} UnwindWrites(g: Grid, log0: seq<UndoEntry>, ws: seq<Write>, dst: PieceColor)
    requires InBounds(ws) && Honest(g, ws) && IsPiece(dst)
    ensures Unwind(ApplyWrites(g, ws), log0 + [Mark] + Logged(ws), dst)
         == Some(Unwound(g, log0, CountLogged(ws, Empty), CountLogged(ws, dst), CountLogged(ws, Opposite(dst))))
  {
    var log := log0 + [Mark] + Logged(ws);
    if |ws| == 0 {
      assert log == log0 + [Mark];
      assert log[..|log| - 1] == log0;
    } else {
      var front, w := ws[..|ws| - 1], ws[|ws| - 1];
      LoggedFront(log0, ws);
      RestoreLastWrite(g, ws);
      UnwindPop(ApplyWrites(g, ws), log, dst);
      UnwindWrites(g, log0, front, dst);
    }
  }

  /** How undo finishes once its loop has reached the sentinel. */
  lemma UndoStep(x: Board, u: Unwound)
    requires |x.history| > 0
    requires var m := x.history[|x.history| - 1];
             m.Play? && OnGrid(m.col1, m.row1)
             && Unwind(x.cells, x.undo, At(x, m.col1, m.row1)) == Some(u)
    ensures var m := x.history[|x.history| - 1];
            var dst := At(x, m.col1, m.row1);
            Undo(x) == Some(IncrPieces(IncrPieces(x, dst, u.same - u.opposing - u.empties),
                                       Opposite(dst), u.opposing)
                            .(cells := u.cells, undo := u.rest,
                              jumps := if IsJump(m) || IsExtend(m) then x.jumps - 1 else x.jumps,
                              turn := Opposite(x.turn),
                              history := x.history[..|x.history| - 1]))
  {
  }

  /** What a guarded non-pass move records: its writes on the undo stack after a
      sentinel, the move at the end of the history, the mover's colour on the
      destination, and the counter changes. */
  lemma MoveRecord(b: Board, m: Move)
    requires BorderBlocked(b) && LegalMove(b, m) && m.Play? && !GameOver(b)
    ensures Interior(m.col0, m.row0) && Interior(m.col1, m.row1)
    ensures var p := At(b, m.col0, m.row0);
            var ws := MoveWrites(b.cells, m, p);
            var k := |Captures(b.cells, m.col1, m.row1, p, 9)|;
            var after := MakeMove(b, m);
            && IsPiece(p) && p == b.turn
            && after.cells == ApplyWrites(b.cells, ws)
            && Honest(b.cells, ws)
            && after.undo == b.undo + [Mark] + Logged(ws)
            && after.history == b.history + [m]
            && At(after, m.col1, m.row1) == p
            && NumPieces(after, p) == NumPieces(b, p) + k + (if IsExtend(m) then 1 else 0)
            && NumPieces(after, Opposite(p)) == NumPieces(b, Opposite(p)) - k
            && CountLogged(ws, Empty) == 1
            && CountLogged(ws, p) == (if IsJump(m) then 1 else 0)
            && CountLogged(ws, Opposite(p)) == k
  {
    GuardHolds(b, m);
    LegalMoveShape(b, m);
    GuardedMoveCells(b, m);
    var p := At(b, m.col0, m.row0);
    MoveWritesCells(b.cells, m, p);
    MoveChangesCell(b, m, m.col1, m.row1);
    MoveCounts(b, m);
    CapturesCount(b.cells, m.col1, m.row1, p, 9);
    MoveWritesLogged(b.cells, m, p);
  }

  /** Undo of any board that records a move the way MoveRecord describes. */
  lemma UndoRecorded(b: Board, m: Move, p: PieceColor, ws: seq<Write>, k: int, after: Board)
    requires m.Play? && Interior(m.col1, m.row1) && (IsExtend(m) || IsJump(m))
    requires IsPiece(p) && InBounds(ws) && Honest(b.cells, ws)
    requires after.cells == ApplyWrites(b.cells, ws)
    requires after.undo == b.undo + [Mark] + Logged(ws)
    requires after.history == b.history + [m]
    requires after.turn == Opposite(b.turn)
    requires after.jumps == if IsExtend(m) then 0 else b.jumps + 1
    requires At(after, m.col1, m.row1) == p
    requires NumPieces(after, p) == NumPieces(b, p) + k + (if IsExtend(m) then 1 else 0)
    requires NumPieces(after, Opposite(p)) == NumPieces(b, Opposite(p)) - k
    requires CountLogged(ws, Empty) == 1
    requires CountLogged(ws, p) == (if IsJump(m) then 1 else 0)
    requires CountLogged(ws, Opposite(p)) == k
    ensures Undo(after) == Some(b.(jumps := if IsJump(m) then b.jumps else -1))
  {
    UnwindWrites(b.cells, b.undo, ws, p);
    var u := Unwound(b.cells, b.undo, 1, if IsJump(m) then 1 else 0, k);
    assert after.history[|after.history| - 1] == m;
    assert after.history[..|after.history| - 1] == b.history;
    UndoStep(after, u);
    var counted := IncrPieces(IncrPieces(after, p, u.same - u.opposing - u.empties), Opposite(p), u.opposing);
    assert NumPieces(counted, p) == NumPieces(b, p);
    assert NumPieces(counted, Opposite(p)) == NumPieces(b, Opposite(p));
    assert counted.reds == b.reds && counted.blues == b.blues;
    OppositeInvolution(b.turn);
  }

  /** Undo right after a non-pass makeMove whose guard held restores the grid,
      both counters, the turn, the history and the undo stack. The jump counter
      comes back after a jump; after an extend it is left at -1, since makeMove
      reset it to 0 and undo only decrements it. */
  lemma UndoInvertsMove(b: Board, m: Move)
    requires BorderBlocked(b) && LegalMove(b, m) && m.Play? && !GameOver(b)
    ensures Undo(MakeMove(b, m)) == Some(b.(jumps := if IsJump(m) then b.jumps else -1))
  {
    MoveRecord(b, m);
    var p := At(b, m.col0, m.row0);
    UndoRecorded(b, m, p, MoveWrites(b.cells, m, p), |Captures(b.cells, m.col1, m.row1, p, 9)|, MakeMove(b, m));
  }

  /** The jump counter plays no part in what undo restores. */
  lemma UndoIgnoresJumps(a: Board, b: Board)
    requires SameExceptJumps(a, b)
    ensures Undo(a).Some? <==> Undo(b).Some?
    ensures Undo(a).Some? ==> SameExceptJumps(Undo(a).value, Undo(b).value)
  {
    assert a.cells == b.cells && a.undo == b.undo && a.history == b.history;
  }

  /** A sequence of non-pass moves, each legal and guarded where it is played. */
  ghost predicate Playable(b: Board, ms: seq<Move>)
    decreases |ms|
  {
    |ms| == 0
    || (BorderBlocked(b) && ms[0].Play? && LegalMove(b, ms[0]) && !GameOver(b)
        && Playable(MakeMove(b, ms[0]), ms[1..]))
  }

  /** The board after playing the moves in order. */
  function PlayAll(b: Board, ms: seq<Move>): (end: Board)
    requires Playable(b, ms)
    decreases |ms|
  {
    if |ms| == 0 then b else PlayAll(MakeMove(b, ms[0]), ms[1..])
  }

  /** The board after n undos, or None if one of them would throw. */
  function UndoTimes(b: Board, n: nat): (res: Option<Board>)
  {
    if n == 0 then Some(b)
    else
      match UndoTimes(b, n - 1)
      case None => None
      case Some(x) => Undo(x)
  }

  /** N moves followed by N undos give back the starting board in everything
      but the jump counter. */
  lemma {:induction false} UndoAll(b: Board, ms: seq<Move>)
    requires Playable(b, ms)
    ensures UndoTimes(PlayAll(b, ms), |ms|).Some?
    ensures SameExceptJumps(UndoTimes(PlayAll(b, ms), |ms|).value, b)
    decreases |ms|
  {
    if |ms| > 0 {
      var m, rest := ms[0], ms[1..];
      var b1 := MakeMove(b, m);
      assert Playable(b1, rest);
      UndoAll(b1, rest);
      var z := UndoTimes(PlayAll(b1, rest), |rest|);
      assert PlayAll(b, ms) == PlayAll(b1, rest);
      assert UndoTimes(PlayAll(b, ms), |ms|) == Undo(z.value);
      UndoInvertsMove(b, m);
      UndoIgnoresJumps(z.value, b1);
    }
  }
}
