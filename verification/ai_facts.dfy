/** What the AI player reports: the value of its root search and the move it
    plays. */
module AIFacts {
  import opened Outcomes
  import opened Pieces
  import opened Squares
  import opened Boards
  import opened BoardFacts
  import opened MoveLists
  import opened AI
  import opened AlphaBeta

  /** The move findMove() reports on a bordered board: the earlier
      _lastFoundMove when the root is a leaf, otherwise the first move
      legalMoves lists for the side to move, whatever the search found. */
  lemma FindMoveChoice(b: Board, me: PieceColor, last: Option<Move>)
    requires BorderBlocked(b)
    ensures GameOver(b) || |LegalMoves(b, b.turn)| == 0 ==> FindMove(b, me, last).move == last
    ensures !GameOver(b) && |LegalMoves(b, b.turn)| > 0 ==>
              FindMove(b, me, last).move == Some(LegalMoves(b, b.turn)[0])
  {
    CopyFaithful(b);
  }

  /** The value findMove() computes is the minimax value of the board to
      MaxDepth, for the sense it starts with, when the jump counter is far
      enough below the limit that the search cannot reach it. */
  lemma FindMoveValue(b: Board, me: PieceColor, last: Option<Move>)
    requires Consistent(b) && FarFromLimit(b, MaxDepth)
    ensures FindMove(b, me, last).value == Minimax(b, me, MaxDepth, RootSense(me))
    ensures -MaxScore <= FindMove(b, me, last).value <= MaxScore
  {
    CopyFaithful(b);
    MinimaxBounded(b, me, MaxDepth, RootSense(me));
    SearchWindow(b, me, MaxDepth, RootSense(me), -Infinity, Infinity);
  }

  /** m is a legal non-pass move of the side to move, and no legal move of that
      side comes before it in the order legalMoves scans the board. */
  ghost predicate FirstLegal(b: Board, m: Move)
  {
    && m.Play? && LegalMove(b, m) && At(b, m.col0, m.row0) == b.turn
    && forall m': Move :: m'.Play? && LegalMove(b, m') && At(b, m'.col0, m'.row0) == b.turn ==> SlotOf(m) <= SlotOf(m')
  }

  /** The first move legalMoves lists for the side to move is the first legal
      move of that side in scan order. */
  lemma FirstListedIsFirst(b: Board)
    requires BorderBlocked(b) && |LegalMoves(b, b.turn)| > 0
    ensures FirstLegal(b, LegalMoves(b, b.turn)[0])
  {
    LegalMovesOrdered(b, b.turn);
    var ms := LegalMoves(b, b.turn);
    var m := ms[0];
    forall m': Move | m'.Play? && LegalMove(b, m') && At(b, m'.col0, m'.row0) == b.turn
      ensures SlotOf(m) <= SlotOf(m')
    {
      ListedIffLegal(b, b.turn, m');
      var k :| 0 <= k < |ms| && ms[k] == m';
      assert k == 0 || SlotOf(ms[0]) < SlotOf(ms[k]);
    }
  }

  /** myMove() on the AI's turn of a consistent board: pass when it cannot move;
      the earlier _lastFoundMove when it can move but the game is over;
      otherwise the first legal move in scan order. */
  lemma MyMoveChoice(b: Board, me: PieceColor, last: Option<Move>)
    requires Consistent(b) && IsPiece(me) && me == b.turn
    ensures !CanMove(b, me) ==> MyMove(b, me, last) == Some(Pass)
    ensures CanMove(b, me) && GameOver(b) ==> MyMove(b, me, last) == last
    ensures CanMove(b, me) && !GameOver(b) ==>
              MyMove(b, me, last).Some? && FirstLegal(b, MyMove(b, me, last).value)
  {
    FindMoveChoice(b, me, last);
    MobilityAgrees(b);
    if CanMove(b, me) && !GameOver(b) {
      FirstListedIsFirst(b);
    }
  }
}
