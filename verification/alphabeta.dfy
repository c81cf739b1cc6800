/** What the AI's search computes: the alpha-beta window theorem against the
    minimax value, the bounds on that value, and the move the AI plays. */
module AlphaBeta {
  import opened Outcomes
  import opened Pieces
  import opened Squares
  import opened Grids
  import opened Boards
  import opened BoardFacts
  import opened MoveFacts
  import opened UndoFacts
  import opened MoveLists
  import opened AI

  /** The jump counter stays below the limit at every node the search asks
      gameOver() about, however the counter drifts. */
  predicate FarFromLimit(b: Board, depth: nat)
  {
    Max(b.jumps, 0) + depth <= JumpLimit
  }

  /** Below the limit, gameOver() does not look at the jump counter. */
  lemma GameOverIgnoresJumps(a: Board, b: Board)
    requires SameExceptJumps(a, b) && a.jumps < JumpLimit && b.jumps < JumpLimit
    ensures GameOver(a) == GameOver(b)
  {
    assert a.cells == b.cells && a.reds == b.reds && a.blues == b.blues;
  }

  /** makeMove treats boards alike that differ only in the jump counter, as long
      as gameOver() agrees on them. */
  lemma MakeMoveIgnoresJumps(a: Board, b: Board, m: Move)
    requires BorderBlocked(a) && LegalMove(a, m) && m.Play?
    requires SameExceptJumps(a, b) && GameOver(a) == GameOver(b)
    ensures BorderBlocked(b) && LegalMove(b, m)
    ensures SameExceptJumps(MakeMove(a, m), MakeMove(b, m))
  {
    assert a == b.(jumps := a.jumps);
  }

  /** One level of Minimax and of Search above a node that is not a leaf:
      the best value, and the loop, over its moves at the level below. */
  lemma Unfold(b: Board, me: PieceColor, d: nat, sense: int, alpha: int, beta: int)
    requires BorderBlocked(b) && !GameOver(b) && |LegalMoves(b, b.turn)| > 0 && (sense == 1 || sense == -1)
    ensures Minimax(b, me, d + 1, sense) == Best(b, me, LegalMoves(b, b.turn), 0, d, sense)
    ensures Search(b, me, d + 1, sense, alpha, beta) == Loop(b, me, LegalMoves(b, b.turn), 0, d, sense, alpha, beta, b)
  {
  }

  /** Where the search stops without looking at the moves it agrees with the
      minimax value: at depth 0, with the game over or with no move listed
      both are the static score and the board comes back as it was; at a
      deeper node with moves and a sense other than 1 and -1 both are 0. */
  lemma LeafAgrees(b: Board, me: PieceColor, depth: nat, sense: int, alpha: int, beta: int)
    requires BorderBlocked(b)
    ensures depth == 0 || GameOver(b) || |LegalMoves(b, b.turn)| == 0 ==>
              Search(b, me, depth, sense, alpha, beta) == Scored(StaticScore(b, me), b) &&
              Minimax(b, me, depth, sense) == StaticScore(b, me)
    ensures depth > 0 && !GameOver(b) && |LegalMoves(b, b.turn)| > 0 && sense != 1 && sense != -1 ==>
              Search(b, me, depth, sense, alpha, beta) == Scored(0, b) &&
              Minimax(b, me, depth, sense) == 0
  {
  }

  /** The minimax value does not depend on the jump counter while it stays
      far enough from the limit. */
  lemma {:induction false} MinimaxIgnoresJumps(a: Board, b: Board, me: PieceColor, depth: nat, sense: int)
    requires BorderBlocked(a) && BorderBlocked(b) && SameExceptJumps(a, b)
    requires FarFromLimit(a, depth) && FarFromLimit(b, depth)
    ensures Minimax(a, me, depth, sense) == Minimax(b, me, depth, sense)
    decreases depth, 2
  {
    assert a.cells == b.cells && a.reds == b.reds && a.blues == b.blues && a.turn == b.turn;
    LegalMovesIgnoresJumps(a, b, a.turn);
    if depth > 0 {
      AboveIgnoresJumps(a, b, me, depth - 1, sense);
    }
  }

  /** MinimaxIgnoresJumps one level above d. */
  lemma {:induction false} AboveIgnoresJumps(a: Board, b: Board, me: PieceColor, d: nat, sense: int)
    requires BorderBlocked(a) && BorderBlocked(b) && SameExceptJumps(a, b)
    requires FarFromLimit(a, d + 1) && FarFromLimit(b, d + 1)
    ensures Minimax(a, me, d + 1, sense) == Minimax(b, me, d + 1, sense)
    decreases d + 1, 1
  {
    assert a.cells == b.cells && a.reds == b.reds && a.blues == b.blues && a.turn == b.turn;
    LegalMovesIgnoresJumps(a, b, a.turn);
    GameOverIgnoresJumps(a, b);
    var moves := LegalMoves(a, a.turn);
    if !GameOver(a) && |moves| > 0 && (sense == 1 || sense == -1) {
      Unfold(a, me, d, sense, 0, 0);
      Unfold(b, me, d, sense, 0, 0);
      MovesStayLegal(a, b, moves);
      BestIgnoresJumps(a, b, me, moves, 0, d, sense);
    }
  }

  /** One step of Best: the value of move i, folded with the best of the rest. */
  lemma BestStep(b: Board, me: PieceColor, moves: seq<Move>, i: nat, d: nat, sense: int)
    requires BorderBlocked(b) && i < |moves| && (sense == 1 || sense == -1)
    requires forall k :: 0 <= k < |moves| ==> moves[k].Play? && LegalMove(b, moves[k])
    requires BorderBlocked(MakeMove(b, moves[i]))
    ensures Best(b, me, moves, i, d, sense)
            == if i == |moves| - 1 then Minimax(MakeMove(b, moves[i]), me, d, -sense)
               else if sense == 1 then Max(Minimax(MakeMove(b, moves[i]), me, d, -sense),
                                           Best(b, me, moves, i + 1, d, sense))
               else Min(Minimax(MakeMove(b, moves[i]), me, d, -sense),
                        Best(b, me, moves, i + 1, d, sense))
  {
  }

  /** Moves legal on a board stay legal on one that differs only in the jump
      counter. */
  lemma MovesStayLegal(a: Board, b: Board, moves: seq<Move>)
    requires SameExceptJumps(a, b)
    requires forall k :: 0 <= k < |moves| ==> moves[k].Play? && LegalMove(a, moves[k])
    ensures forall k :: 0 <= k < |moves| ==> moves[k].Play? && LegalMove(b, moves[k])
  {
    assert a.cells == b.cells && a.turn == b.turn;
    forall k | 0 <= k < |moves| ensures LegalMove(b, moves[k]) {
      assert LegalMove(a, moves[k]);
    }
  }

  /** Move m played on two boards that differ only in the jump counter, far
      enough from the limit for one more level, leads to boards that differ
      only in the jump counter and are far enough from it for the rest. */
  lemma ChildrenAgree(a: Board, b: Board, m: Move, d: nat)
    requires BorderBlocked(a) && BorderBlocked(b) && SameExceptJumps(a, b)
    requires FarFromLimit(a, d + 1) && FarFromLimit(b, d + 1)
    requires LegalMove(a, m) && m.Play?
    ensures LegalMove(b, m)
    ensures BorderBlocked(MakeMove(a, m)) && BorderBlocked(MakeMove(b, m))
    ensures SameExceptJumps(MakeMove(a, m), MakeMove(b, m))
    ensures FarFromLimit(MakeMove(a, m), d) && FarFromLimit(MakeMove(b, m), d)
  {
    GameOverIgnoresJumps(a, b);
    MakeMoveIgnoresJumps(a, b, m);
    MakeMoveKeepsBorder(a, m);
    MakeMoveKeepsBorder(b, m);
    ChildFarFromLimit(a, m, d);
    ChildFarFromLimit(b, m, d);
  }

  /** Move m has the same minimax value on two boards that differ only in the
      jump counter, far enough from the limit. */
  lemma {:induction false} ChildIgnoresJumps(a: Board, b: Board, m: Move, me: PieceColor, d: nat, sense: int)
    requires BorderBlocked(a) && BorderBlocked(b) && SameExceptJumps(a, b)
    requires FarFromLimit(a, d + 1) && FarFromLimit(b, d + 1)
    requires LegalMove(a, m) && m.Play?
    ensures BorderBlocked(MakeMove(a, m)) && BorderBlocked(MakeMove(b, m))
    ensures Minimax(MakeMove(a, m), me, d, -sense) == Minimax(MakeMove(b, m), me, d, -sense)
    decreases d + 1, 0, 0
  {
    ChildrenAgree(a, b, m, d);
    MinimaxIgnoresJumps(MakeMove(a, m), MakeMove(b, m), me, d, -sense);
  }

  /** Best does not depend on the jump counter while it stays far enough from
      the limit. */
  lemma {:induction false} BestIgnoresJumps(a: Board, b: Board, me: PieceColor, moves: seq<Move>, i: nat, d: nat, sense: int)
    requires BorderBlocked(a) && BorderBlocked(b) && SameExceptJumps(a, b)
    requires FarFromLimit(a, d + 1) && FarFromLimit(b, d + 1)
    requires i < |moves| && (sense == 1 || sense == -1)
    requires forall k :: 0 <= k < |moves| ==> moves[k].Play? && LegalMove(a, moves[k])
    requires forall k :: 0 <= k < |moves| ==> moves[k].Play? && LegalMove(b, moves[k])
    ensures Best(a, me, moves, i, d, sense) == Best(b, me, moves, i, d, sense)
    decreases d + 1, 0, |moves| - i
  {
    ChildIgnoresJumps(a, b, moves[i], me, d, sense);
    BestStep(a, me, moves, i, d, sense);
    BestStep(b, me, moves, i, d, sense);
    if i < |moves| - 1 {
      BestIgnoresJumps(a, b, me, moves, i + 1, d, sense);
    }
  }

  /** One move uses up one level of the room below the limit. */
  lemma ChildFarFromLimit(b: Board, m: Move, d: nat)
    requires BorderBlocked(b) && LegalMove(b, m) && m.Play?
    requires FarFromLimit(b, d + 1)
    ensures FarFromLimit(MakeMove(b, m), d)
  {
  }

  /** r is what a fail-hard search may return for the value v in the window
      (alpha, beta): v itself strictly inside, at most alpha at or below it,
      at least beta at or above it. */
  predicate Window(r: int, alpha: int, beta: int, v: int)
  {
    && (alpha < v < beta ==> r == v)
    && (v <= alpha ==> r <= alpha)
    && (v >= beta ==> r >= beta)
  }

  /** What a maximising loop returns, with w the best value of the moves left:
      max(alpha, w) when it lies below beta, something at least beta otherwise. */
  predicate MaxWindow(r: int, alpha: int, beta: int, w: int)
  {
    && (Max(alpha, w) < beta ==> r == Max(alpha, w))
    && (Max(alpha, w) >= beta ==> r >= beta)
  }

  /** What a minimising loop returns: min(beta, w) when it lies above alpha,
      something at most alpha otherwise. */
  predicate MinWindow(r: int, alpha: int, beta: int, w: int)
  {
    && (Min(beta, w) > alpha ==> r == Min(beta, w))
    && (Min(beta, w) <= alpha ==> r <= alpha)
  }

  /** What a whole maximising loop returns is within the window of w. */
  lemma MaxWindowIsWindow(r: int, alpha: int, beta: int, w: int)
    requires alpha < beta && MaxWindow(r, alpha, beta, w)
    ensures Window(r, alpha, beta, w)
  {
  }

  /** What a whole minimising loop returns is within the window of w. */
  lemma MinWindowIsWindow(r: int, alpha: int, beta: int, w: int)
    requires alpha < beta && MinWindow(r, alpha, beta, w)
    ensures Window(r, alpha, beta, w)
  {
  }

  /** The last move of a maximising loop: alpha becomes max(alpha, cv). */
  lemma MaxFoldLast(alpha: int, beta: int, cv: int, v: int)
    requires alpha < beta && Window(cv, alpha, beta, v)
    ensures MaxWindow(Max(alpha, cv), alpha, beta, v)
  {
  }

  /** A maximising loop with moves after this one: either it stops at the new
      alpha, or the rest of the loop works from it. */
  lemma MaxFoldMore(alpha: int, beta: int, cv: int, v: int, w: int, r: int)
    requires alpha < beta && Window(cv, alpha, beta, v)
    requires Max(alpha, cv) >= beta ==> r == Max(alpha, cv)
    requires Max(alpha, cv) < beta ==> MaxWindow(r, Max(alpha, cv), beta, w)
    ensures MaxWindow(r, alpha, beta, Max(v, w))
  {
  }

  /** The last move of a minimising loop: beta becomes min(beta, cv). */
  lemma MinFoldLast(alpha: int, beta: int, cv: int, v: int)
    requires alpha < beta && Window(cv, alpha, beta, v)
    ensures MinWindow(Min(beta, cv), alpha, beta, v)
  {
  }

  /** A minimising loop with moves after this one. */
  lemma MinFoldMore(alpha: int, beta: int, cv: int, v: int, w: int, r: int)
    requires alpha < beta && Window(cv, alpha, beta, v)
    requires Min(beta, cv) <= alpha ==> r == Min(beta, cv)
    requires Min(beta, cv) > alpha ==> MinWindow(r, alpha, Min(beta, cv), w)
    ensures MinWindow(r, alpha, beta, Min(v, w))
  {
  }

  /** One iteration of the loop: the board after move i, the search below
      it, and the board undo gives back. */
  lemma LoopStep(root: Board, me: PieceColor, moves: seq<Move>, i: nat, d: nat, sense: int,
                 alpha: int, beta: int, cur: Board)
    returns (child: Board, sub: Scored, back: Board)
    requires BorderBlocked(root) && !GameOver(root) && i < |moves|
    requires forall k :: 0 <= k < |moves| ==> moves[k].Play? && LegalMove(root, moves[k])
    requires SameExceptJumps(cur, root) && cur.jumps <= Max(root.jumps, -1)
    ensures BorderBlocked(cur) && LegalMove(cur, moves[i])
    ensures child == MakeMove(cur, moves[i]) && BorderBlocked(child)
    ensures sub == Search(child, me, d, -sense, alpha, beta)
    ensures Undo(sub.board) == Some(back)
    ensures SameExceptJumps(back, root) && back.jumps <= Max(root.jumps, -1)
  {
    SameBoardFacts(root, cur, moves[i]);
    MakeMoveKeepsBorder(cur, moves[i]);
    child := MakeMove(cur, moves[i]);
    sub := Search(child, me, d, -sense, alpha, beta);
    StepBack(root, cur, moves[i], sub.board);
    back := Undo(sub.board).value;
  }

  /** How the loop goes on after move i, given what LoopStep describes: stop
      once the window closes, otherwise continue from the board undo gave back. */
  lemma LoopNext(root: Board, me: PieceColor, moves: seq<Move>, i: nat, d: nat, sense: int,
                 alpha: int, beta: int, cur: Board, sub: Scored, back: Board)
    requires BorderBlocked(root) && !GameOver(root) && i < |moves|
    requires sense == 1 || sense == -1
    requires forall k :: 0 <= k < |moves| ==> moves[k].Play? && LegalMove(root, moves[k])
    requires SameExceptJumps(cur, root) && cur.jumps <= Max(root.jumps, -1)
    requires BorderBlocked(cur) && LegalMove(cur, moves[i]) && BorderBlocked(MakeMove(cur, moves[i]))
    requires sub == Search(MakeMove(cur, moves[i]), me, d, -sense, alpha, beta)
    requires Undo(sub.board) == Some(back)
    requires SameExceptJumps(back, root) && back.jumps <= Max(root.jumps, -1)
    ensures var alpha' := if sense == 1 then Max(alpha, sub.value) else alpha;
            var beta' := if sense == 1 then beta else Min(beta, sub.value);
            Loop(root, me, moves, i, d, sense, alpha, beta, cur)
            == if beta' <= alpha' then Scored(if sense == 1 then alpha' else beta', back)
               else Loop(root, me, moves, i + 1, d, sense, alpha', beta', back)
  {
  }

  /** The search on a board that differs from b only in the jump counter is
      bounded by the minimax value of b. */
  lemma {:induction false} ChildWindow(a: Board, b: Board, me: PieceColor, depth: nat, sense: int,
                                       alpha: int, beta: int)
    requires BorderBlocked(a) && BorderBlocked(b) && SameExceptJumps(a, b)
    requires FarFromLimit(a, depth) && FarFromLimit(b, depth) && alpha < beta
    ensures Window(Search(a, me, depth, sense, alpha, beta).value, alpha, beta, Minimax(b, me, depth, sense))
    decreases depth, 4
  {
    MinimaxIgnoresJumps(a, b, me, depth, sense);
    SearchWindow(a, me, depth, sense, alpha, beta);
  }

  /** Move m played on the drifted board cur and on the root board leads to
      boards that differ only in the jump counter, both still far enough from
      the limit for the levels below. */
  lemma ChildAgrees(root: Board, cur: Board, m: Move, d: nat)
    requires BorderBlocked(root) && !GameOver(root) && LegalMove(root, m) && m.Play?
    requires SameExceptJumps(cur, root) && cur.jumps <= Max(root.jumps, -1)
    requires FarFromLimit(root, d + 1)
    ensures BorderBlocked(cur) && LegalMove(cur, m)
    ensures BorderBlocked(MakeMove(cur, m)) && BorderBlocked(MakeMove(root, m))
    ensures SameExceptJumps(MakeMove(cur, m), MakeMove(root, m))
    ensures FarFromLimit(MakeMove(cur, m), d) && FarFromLimit(MakeMove(root, m), d)
  {
    SameBoardFacts(root, cur, m);
    assert FarFromLimit(cur, d + 1);
    ChildrenAgree(cur, root, m, d);
  }

  /** The search below move m on the drifted board cur is bounded by the
      minimax value below m on the root board. */
  lemma {:induction false} ChildValue(root: Board, cur: Board, m: Move, me: PieceColor, d: nat, sense: int,
                                      alpha: int, beta: int)
    requires BorderBlocked(root) && !GameOver(root) && LegalMove(root, m) && m.Play?
    requires SameExceptJumps(cur, root) && cur.jumps <= Max(root.jumps, -1)
    requires FarFromLimit(root, d + 1) && alpha < beta
    requires BorderBlocked(cur) && LegalMove(cur, m)
    ensures BorderBlocked(MakeMove(cur, m)) && BorderBlocked(MakeMove(root, m))
    ensures Window(Search(MakeMove(cur, m), me, d, -sense, alpha, beta).value, alpha, beta,
                   Minimax(MakeMove(root, m), me, d, -sense))
    decreases d + 1, 0
  {
    ChildAgrees(root, cur, m, d);
    ChildWindow(MakeMove(cur, m), MakeMove(root, m), me, d, -sense, alpha, beta);
  }

  /** The window theorem for the loop from move i on, with w the best minimax
      value over moves[i..]. */
  lemma {:induction false} LoopWindow(root: Board, me: PieceColor, moves: seq<Move>, i: nat, d: nat, sense: int,
                                      alpha: int, beta: int, cur: Board)
    requires BorderBlocked(root) && !GameOver(root) && i < |moves|
    requires sense == 1 || sense == -1
    requires forall k :: 0 <= k < |moves| ==> moves[k].Play? && LegalMove(root, moves[k])
    requires SameExceptJumps(cur, root) && cur.jumps <= Max(root.jumps, -1)
    requires FarFromLimit(root, d + 1) && alpha < beta
    ensures sense == 1 ==> MaxWindow(Loop(root, me, moves, i, d, sense, alpha, beta, cur).value,
                                     alpha, beta, Best(root, me, moves, i, d, sense))
    ensures sense == -1 ==> MinWindow(Loop(root, me, moves, i, d, sense, alpha, beta, cur).value,
                                      alpha, beta, Best(root, me, moves, i, d, sense))
    decreases d + 1, 1, |moves| - i
  {
    var m := moves[i];
    var child, sub, back := LoopStep(root, me, moves, i, d, sense, alpha, beta, cur);
    LoopNext(root, me, moves, i, d, sense, alpha, beta, cur, sub, back);
    ChildValue(root, cur, m, me, d, sense, alpha, beta);
    BestStep(root, me, moves, i, d, sense);
    var v := Minimax(MakeMove(root, m), me, d, -sense);
    var r := Loop(root, me, moves, i, d, sense, alpha, beta, cur).value;
    var alpha' := if sense == 1 then Max(alpha, sub.value) else alpha;
    var beta' := if sense == 1 then beta else Min(beta, sub.value);
    if i == |moves| - 1 {
      if alpha' < beta' {
        assert Loop(root, me, moves, i + 1, d, sense, alpha', beta', back).value
            == if sense == 1 then alpha' else beta';
      }
      if sense == 1 {
        MaxFoldLast(alpha, beta, sub.value, v);
      } else {
        MinFoldLast(alpha, beta, sub.value, v);
      }
    } else {
      var w := Best(root, me, moves, i + 1, d, sense);
      if alpha' < beta' {
        LoopWindow(root, me, moves, i + 1, d, sense, alpha', beta', back);
      }
      if sense == 1 {
        MaxFoldMore(alpha, beta, sub.value, v, w, r);
      } else {
        MinFoldMore(alpha, beta, sub.value, v, w, r);
      }
    }
  }

  /** On a consistent board the minimax value lies between -49 and 49. */
  lemma {:induction false} MinimaxBounded(b: Board, me: PieceColor, depth: nat, sense: int)
    requires Consistent(b)
    ensures -MaxScore <= Minimax(b, me, depth, sense) <= MaxScore
    decreases depth, 2
  {
    ScoreBounded(b, me);
    if depth > 0 {
      AboveBounded(b, me, depth - 1, sense);
    }
  }

  /** MinimaxBounded one level above d. */
  lemma {:induction false} AboveBounded(b: Board, me: PieceColor, d: nat, sense: int)
    requires Consistent(b)
    ensures -MaxScore <= Minimax(b, me, d + 1, sense) <= MaxScore
    decreases d + 1, 1
  {
    var moves := LegalMoves(b, b.turn);
    LeafAgrees(b, me, d + 1, sense, 0, 0);
    ScoreBounded(b, me);
    if !GameOver(b) && |moves| > 0 && (sense == 1 || sense == -1) {
      Unfold(b, me, d, sense, 0, 0);
      BestBounded(b, me, moves, 0, d, sense);
    }
  }

  /** The value below move m of a consistent board lies between -49 and 49. */
  lemma {:induction false} ChildBounded(b: Board, m: Move, me: PieceColor, d: nat, sense: int)
    requires Consistent(b) && LegalMove(b, m) && m.Play?
    ensures BorderBlocked(MakeMove(b, m))
    ensures -MaxScore <= Minimax(MakeMove(b, m), me, d, -sense) <= MaxScore
    decreases d + 1, 0, 0
  {
    ChildConsistent(b, m);
    MinimaxBounded(MakeMove(b, m), me, d, -sense);
  }

  /** The best value over moves[i..] of a consistent board lies between -49
      and 49. */
  lemma {:induction false} BestBounded(b: Board, me: PieceColor, moves: seq<Move>, i: nat, d: nat, sense: int)
    requires Consistent(b) && i < |moves| && (sense == 1 || sense == -1)
    requires forall k :: 0 <= k < |moves| ==> moves[k].Play? && LegalMove(b, moves[k])
    ensures -MaxScore <= Best(b, me, moves, i, d, sense) <= MaxScore
    decreases d + 1, 0, |moves| - i
  {
    ChildBounded(b, moves[i], me, d, sense);
    BestStep(b, me, moves, i, d, sense);
    if i < |moves| - 1 {
      BestBounded(b, me, moves, i + 1, d, sense);
    }
  }

  /** The alpha-beta window theorem: with v the minimax value and alpha < beta,
      the search returns v when v lies strictly inside the window, something
      at most alpha when v is at most alpha, and something at least beta when
      v is at least beta. It holds whenever the jump counter is far enough
      below the limit for the drift undo causes in it not to matter. */
  lemma {:induction false} SearchWindow(b: Board, me: PieceColor, depth: nat, sense: int, alpha: int, beta: int)
    requires BorderBlocked(b) && FarFromLimit(b, depth) && alpha < beta
    ensures Window(Search(b, me, depth, sense, alpha, beta).value, alpha, beta, Minimax(b, me, depth, sense))
    decreases depth, 3
  {
    if depth > 0 {
      AboveWindow(b, me, depth - 1, sense, alpha, beta);
    }
  }

  /** SearchWindow one level above d. */
  lemma {:induction false} AboveWindow(b: Board, me: PieceColor, d: nat, sense: int, alpha: int, beta: int)
    requires BorderBlocked(b) && FarFromLimit(b, d + 1) && alpha < beta
    ensures Window(Search(b, me, d + 1, sense, alpha, beta).value, alpha, beta, Minimax(b, me, d + 1, sense))
    decreases d + 1, 2
  {
    var moves := LegalMoves(b, b.turn);
    if !GameOver(b) && |moves| > 0 && (sense == 1 || sense == -1) {
      Unfold(b, me, d, sense, alpha, beta);
      LoopWindow(b, me, moves, 0, d, sense, alpha, beta, b);
      var r := Loop(b, me, moves, 0, d, sense, alpha, beta, b).value;
      var w := Best(b, me, moves, 0, d, sense);
      if sense == 1 {
        MaxWindowIsWindow(r, alpha, beta, w);
      } else {
        MinWindowIsWindow(r, alpha, beta, w);
      }
    } else {
      LeafAgrees(b, me, d + 1, sense, alpha, beta);
    }
  }
}
