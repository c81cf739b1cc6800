/** The AI's move generator, legalMoves(board, who): every legal move of who,
    in the order the nested loops produce them. */
module MoveLists {
  import opened Pieces
  import opened Squares
  import opened Grids
  import opened Boards
  import opened MoveFacts

  /** legalMoves tries 25 destinations (a 5x5 block, the origin included) for
      each of the 49 playing-area origins. */
  const Slots := 49 * 25

  /** The move legalMoves tries at step s of its scan: origins column by
      column, rows inner; then destinations column offset by column offset,
      row offsets inner. */
  function SlotMove(s: int): (m: Move)
    requires 0 <= s < Slots
    ensures m.Play? && Interior(m.col0, m.row0)
    ensures Abs(m.col1 - m.col0) <= 2 && Abs(m.row1 - m.row0) <= 2
  {
    var o, d := s / 25, s % 25;
    Play(o / 7, o % 7, o / 7 - 2 + d / 5, o % 7 - 2 + d % 5)
  }

  /** Where a move sits in that scan. */
  function SlotOf(m: Move): (s: int)
    requires m.Play?
  {
    (m.col0 * 7 + m.row0) * 25 + (m.col1 - m.col0 + 2) * 5 + (m.row1 - m.row0 + 2)
  }

  /** SlotOf undoes SlotMove. */
  lemma SlotOfSlotMove(s: int)
    requires 0 <= s < Slots
    ensures SlotOf(SlotMove(s)) == s
  {
    var o, d := s / 25, s % 25;
    assert o == (o / 7) * 7 + o % 7;
    assert d == (d / 5) * 5 + d % 5;
  }

  /** SlotMove undoes SlotOf on every move whose origin is on the playing
      area and whose destination is within two columns and two rows. */
  lemma SlotMoveSlotOf(m: Move)
    requires m.Play? && Interior(m.col0, m.row0)
    requires Abs(m.col1 - m.col0) <= 2 && Abs(m.row1 - m.row0) <= 2
    ensures 0 <= SlotOf(m) < Slots && SlotMove(SlotOf(m)) == m
  {
    var o := m.col0 * 7 + m.row0;
    var d := (m.col1 - m.col0 + 2) * 5 + (m.row1 - m.row0 + 2);
    assert 0 <= d < 25;
    assert SlotOf(m) == o * 25 + d;
    assert SlotOf(m) / 25 == o && SlotOf(m) % 25 == d;
    assert o / 7 == m.col0 && o % 7 == m.row0;
    assert d / 5 == m.col1 - m.col0 + 2 && d % 5 == m.row1 - m.row0 + 2;
  }

  /** Whether legalMoves keeps the move it tries at step s: the origin holds
      who, the destination is another square, and the move is legal. */
  predicate Kept(b: Board, who: PieceColor, s: int)
    requires 0 <= s < Slots
  {
    var m := SlotMove(s);
    At(b, m.col0, m.row0) == who && (m.col1, m.row1) != (m.col0, m.row0) && LegalMove(b, m)
  }

  /** The numbers below n that keep accepts, in increasing order: the steps of
      a scan that produce an element. */
  function Filter(keep: int -> bool, n: nat): (ss: seq<int>)
    ensures forall k :: 0 <= k < |ss| ==> 0 <= ss[k] < n && keep(ss[k])
  {
    if n == 0 then []
    else Filter(keep, n - 1) + (if keep(n - 1) then [n - 1] else [])
  }

  /** The listing is strictly increasing: the scan visits each step once, in
      order. */
  lemma {:induction false} FilterIncreasing(keep: int -> bool, n: nat)
    ensures forall k, l :: 0 <= k < l < |Filter(keep, n)| ==> Filter(keep, n)[k] < Filter(keep, n)[l]
  {
    if n > 0 {
      FilterIncreasing(keep, n - 1);
      var front, ss := Filter(keep, n - 1), Filter(keep, n);
      assert ss == front + (if keep(n - 1) then [n - 1] else []);
      forall k, l | 0 <= k < l < |ss| ensures ss[k] < ss[l] {
        assert ss[k] == front[k];
        if l < |front| {
          assert ss[l] == front[l];
        } else {
          assert ss[l] == n - 1;
        }
      }
    }
  }

  /** Every number below n that keep accepts is listed, at the position k
      returned. */
  lemma {:induction false} FilterComplete(keep: int -> bool, n: nat, s: int) returns (k: nat)
    requires 0 <= s < n && keep(s)
    ensures k < |Filter(keep, n)| && Filter(keep, n)[k] == s
  {
    var front := Filter(keep, n - 1);
    var last := if keep(n - 1) then [n - 1] else [];
    assert Filter(keep, n) == front + last;
    if s < n - 1 {
      k := FilterComplete(keep, n - 1, s);
    } else {
      k := |front|;
      assert last == [s];
    }
  }

  /** The listing depends only on what keep says below n. */
  lemma {:induction false} FilterSame(keep: int -> bool, keep': int -> bool, n: nat)
    requires forall s :: 0 <= s < n ==> keep(s) == keep'(s)
    ensures Filter(keep, n) == Filter(keep', n)
  {
    if n > 0 {
      FilterSame(keep, keep', n - 1);
    }
  }

  /** Kept as a test on any integer. */
  function Keeper(b: Board, who: PieceColor): (keep: int -> bool)
  {
    s => 0 <= s < Slots && Kept(b, who, s)
  }

  /** The steps of the whole scan whose move legalMoves keeps. */
  function KeptSlots(b: Board, who: PieceColor): (slots: seq<int>)
  {
    Filter(Keeper(b, who), Slots)
  }

  /** legalMoves(board, who): nothing on a full board; otherwise the kept moves
      of the whole scan, in scan order. */
  function LegalMoves(b: Board, who: PieceColor): (ms: seq<Move>)
    ensures b.reds + b.blues == Side * Side ==> ms == []
    ensures forall k :: 0 <= k < |ms| ==>
              ms[k].Play? && Interior(ms[k].col0, ms[k].row0)
              && LegalMove(b, ms[k]) && At(b, ms[k].col0, ms[k].row0) == who
  {
    if b.blues + b.reds == Side * Side then []
    else
      var ss := KeptSlots(b, who);
      seq(|ss|, k requires 0 <= k < |ss| => SlotMove(ss[k]))
  }

  /** Moves listed at increasing steps of the scan are in scan order. */
  lemma InScanOrder(ms: seq<Move>, ss: seq<int>)
    requires |ms| == |ss|
    requires forall k :: 0 <= k < |ms| ==> ms[k].Play? && SlotOf(ms[k]) == ss[k]
    requires forall k, l :: 0 <= k < l < |ss| ==> ss[k] < ss[l]
    ensures forall k, l :: 0 <= k < l < |ms| ==> SlotOf(ms[k]) < SlotOf(ms[l])
  {
  }

  /** legalMoves lists its moves in scan order, each once. */
  lemma LegalMovesOrdered(b: Board, who: PieceColor)
    ensures forall k, l :: 0 <= k < l < |LegalMoves(b, who)| ==> SlotOf(LegalMoves(b, who)[k]) < SlotOf(LegalMoves(b, who)[l])
  {
    if b.blues + b.reds != Side * Side {
      var ss := KeptSlots(b, who);
      var ms := LegalMoves(b, who);
      assert |ms| == |ss|;
      FilterIncreasing(Keeper(b, who), Slots);
      forall k | 0 <= k < |ms| ensures ms[k].Play? && SlotOf(ms[k]) == ss[k] {
        assert ms[k] == SlotMove(ss[k]);
        SlotOfSlotMove(ss[k]);
      }
      InScanOrder(ms, ss);
    }
  }

  /** legalMoves lists the move of every kept step. */
  lemma LegalMovesHasKept(b: Board, who: PieceColor, s: int)
    requires b.reds + b.blues != Side * Side && 0 <= s < Slots && Kept(b, who, s)
    ensures SlotMove(s) in LegalMoves(b, who)
  {
    var k := FilterComplete(Keeper(b, who), Slots, s);
    assert LegalMoves(b, who)[k] == SlotMove(s);
  }

  /** On a bordered board that is not full, legalMoves(board, who) holds
      exactly the legal non-pass moves from a square holding who. */
  lemma ListedIffLegal(b: Board, who: PieceColor, m: Move)
    requires BorderBlocked(b) && b.reds + b.blues != Side * Side
    ensures m in LegalMoves(b, who)
            <==> m.Play? && LegalMove(b, m) && At(b, m.col0, m.row0) == who
  {
    if m.Play? && LegalMove(b, m) && At(b, m.col0, m.row0) == who {
      LegalMoveShape(b, m);
      SlotMoveSlotOf(m);
      LegalMovesHasKept(b, who, SlotOf(m));
    }
  }

  /** On a consistent board legalMoves(board, who) holds exactly the legal
      non-pass moves from a square holding who; on a full board there are
      none, which is why the early return loses nothing. */
  lemma LegalMovesExact(b: Board, who: PieceColor, m: Move)
    requires Consistent(b)
    ensures m in LegalMoves(b, who)
            <==> m.Play? && LegalMove(b, m) && At(b, m.col0, m.row0) == who
  {
    if b.reds + b.blues != Side * Side {
      ListedIffLegal(b, who, m);
    } else if m.Play? && LegalMove(b, m) {
      LegalMoveShape(b, m);
      NotFull(b, m.col1, m.row1);
    }
  }

  /** Nobody but the side to move has legal moves. */
  lemma OnlyMoverMoves(b: Board, who: PieceColor)
    ensures LegalMoves(b, who) != [] ==> who == b.turn
  {
    var ms := LegalMoves(b, who);
    if |ms| > 0 {
      assert At(b, ms[0].col0, ms[0].row0) == who && LegalMove(b, ms[0]);
    }
  }

  /** The move list depends on the squares, the counters and the turn only. */
  lemma LegalMovesIgnoresJumps(a: Board, b: Board, who: PieceColor)
    requires a.cells == b.cells && a.reds == b.reds && a.blues == b.blues && a.turn == b.turn
    ensures LegalMoves(a, who) == LegalMoves(b, who)
  {
    if a.blues + a.reds != Side * Side {
      FilterSame(Keeper(a, who), Keeper(b, who), Slots);
    }
  }

  /** A side that can move has a legal move to an empty playing-area square
      when it is its turn. */
  lemma MobileMove(b: Board) returns (m: Move)
    requires BorderBlocked(b) && IsPiece(b.turn) && CanMove(b, b.turn)
    ensures m.Play? && LegalMove(b, m) && At(b, m.col0, m.row0) == b.turn
    ensures Interior(m.col1, m.row1)
  {
    var c, r, dc, dr :| 0 <= c < 7 && 0 <= r < 7 && At(b, c, r) == b.turn
                        && -2 <= dc < 3 && -2 <= dr < 3
                        && b.cells[Neighbor(Index(c, r), dc, dr)] == Empty;
    NeighborOfIndex(c, r, dc, dr);
    m := Play(c, r, c + dc, r + dr);
    assert At(b, c + dc, r + dr) == Empty;
  }

  /** A consistent board with an empty playing-area square is not full. */
  lemma NotFull(b: Board, c: int, r: int)
    requires Consistent(b) && Interior(c, r) && At(b, c, r) == Empty
    ensures b.reds + b.blues != Side * Side
  {
    CensusWitness(b.cells, c, r, Empty);
    CensusTotal(b.cells);
  }

  /** For the side to move on a consistent board, legalMoves finds a move
      exactly when canMove says the side can move. */
  lemma MobilityAgrees(b: Board)
    requires Consistent(b) && IsPiece(b.turn)
    ensures |LegalMoves(b, b.turn)| > 0 <==> CanMove(b, b.turn)
  {
    var ms := LegalMoves(b, b.turn);
    if |ms| > 0 {
      LegalMoveShape(b, ms[0]);
    }
    if CanMove(b, b.turn) {
      var m := MobileMove(b);
      NotFull(b, m.col1, m.row1);
      ListedIffLegal(b, b.turn, m);
    }
  }
}
