/** What makeMove does to the cells and to the piece counters. */
module MoveFacts {
  import opened Pieces
  import opened Squares
  import opened Grids
  import opened Boards

  /** Some playing-area square holding who has an empty playing-area square
      within two columns and two rows. */
  ghost predicate HasRoom(b: Board, who: PieceColor)
  {
    exists c, r, c', r' :: Interior(c, r) && Interior(c', r')
      && Abs(c' - c) <= 2 && Abs(r' - r) <= 2
      && At(b, c, r) == who && At(b, c', r') == Empty
  }

  /** canMove(who) on a bordered board holds exactly when who has room to move. */
  lemma CanMoveExact(b: Board, who: PieceColor)
    requires BorderBlocked(b)
    ensures CanMove(b, who) <==> HasRoom(b, who)
  {
    if CanMove(b, who) {
      CanMoveRoom(b, who);
    }
    if HasRoom(b, who) {
      RoomCanMove(b, who);
    }
  }

  /** A square of who with room to move is one canMove's scan finds. */
  lemma RoomCanMove(b: Board, who: PieceColor)
    requires HasRoom(b, who)
    ensures CanMove(b, who)
  {
    var c, r, c', r' :| Interior(c, r) && Interior(c', r')
                        && Abs(c' - c) <= 2 && Abs(r' - r) <= 2
                        && At(b, c, r) == who && At(b, c', r') == Empty;
    var dc, dr := c' - c, r' - r;
    NeighborOfIndex(c, r, dc, dr);
    assert b.cells[Neighbor(Index(c, r), dc, dr)] == Empty;
    assert exists dc, dr | -2 <= dc < 3 && -2 <= dr < 3 :: b.cells[Neighbor(Index(c, r), dc, dr)] == Empty;
  }

  /** The square canMove's scan finds empty lies on the playing area. */
  lemma CanMoveRoom(b: Board, who: PieceColor)
    requires BorderBlocked(b) && CanMove(b, who)
    ensures HasRoom(b, who)
  {
    var c, r, dc, dr :| 0 <= c < 7 && 0 <= r < 7 && b.cells[Index(c, r)] == who
                        && -2 <= dc < 3 && -2 <= dr < 3
                        && b.cells[Neighbor(Index(c, r), dc, dr)] == Empty;
    NeighborOfIndex(c, r, dc, dr);
    var c', r' := c + dc, r + dr;
    assert OnGrid(c', r') && At(b, c', r') == Empty;
    assert Interior(c', r') && Abs(c' - c) <= 2 && Abs(r' - r) <= 2 && At(b, c, r) == who;
  }

  /** A legal non-pass move on a bordered board starts and ends on the playing
      area, starts on a piece of the side to move, and that piece can move. */
  lemma LegalMoveShape(b: Board, m: Move)
    requires BorderBlocked(b) && LegalMove(b, m) && m.Play?
    ensures Interior(m.col0, m.row0) && Interior(m.col1, m.row1)
    ensures IsPiece(At(b, m.col0, m.row0)) && At(b, m.col0, m.row0) == b.turn
    ensures (m.col0, m.row0) != (m.col1, m.row1)
    ensures CanMove(b, At(b, m.col0, m.row0))
  {
    var dc, dr := m.col1 - m.col0, m.row1 - m.row0;
    NeighborOfIndex(m.col0, m.row0, dc, dr);
    assert b.cells[Neighbor(Index(m.col0, m.row0), dc, dr)] == Empty;
  }

  /** While the game is not over, makeMove's guard holds for every legal non-pass move. */
  lemma GuardHolds(b: Board, m: Move)
    requires BorderBlocked(b) && LegalMove(b, m) && m.Play? && !GameOver(b)
    ensures Guard(b, m)
  {
    LegalMoveShape(b, m);
  }

  lemma FlipWritesFront(g: Grid, ts: seq<int>, p: PieceColor)
    requires |ts| > 0 && forall i :: 0 <= i < |ts| ==> 0 <= ts[i] < GridSize
    ensures var ws := FlipWrites(g, ts, p);
            && ws[..|ws| - 1] == FlipWrites(g, ts[..|ts| - 1], p)
            && ws[|ws| - 1] == Write(ts[|ts| - 1], p, g[ts[|ts| - 1]])
  {
    var ws := FlipWrites(g, ts, p);
    assert ws[..|ws| - 1] == FlipWrites(g, ts[..|ts| - 1], p);
  }

  /** Flipping distinct squares logs honestly and paints exactly those squares. */
  lemma {:induction false} FlipWritesCells(g: Grid, ts: seq<int>, p: PieceColor)
    requires forall i :: 0 <= i < |ts| ==> 0 <= ts[i] < GridSize
    requires forall i, j :: 0 <= i < j < |ts| ==> ts[i] != ts[j]
    ensures Honest(g, FlipWrites(g, ts, p))
    ensures forall i :: 0 <= i < GridSize ==>
              ApplyWrites(g, FlipWrites(g, ts, p))[i] == if i in ts then p else g[i]
  {
    if |ts| > 0 {
      var front, t := ts[..|ts| - 1], ts[|ts| - 1];
      FlipWritesCells(g, front, p);
      FlipWritesFront(g, ts, p);
      assert t !in front by {
        forall i | 0 <= i < |front| ensures front[i] != t { }
      }
      forall i | 0 <= i < GridSize
        ensures ApplyWrites(g, FlipWrites(g, ts, p))[i] == if i in ts then p else g[i]
      {
        assert i in ts <==> i in front || i == t;
      }
    }
  }

  /** Flipping k distinct enemy pieces moves k from the enemy's census to p's. */
  lemma {:induction false} FlipWritesCensus(g: Grid, ts: seq<int>, p: PieceColor)
    requires IsPiece(p) && PiecesInside(g)
    requires forall i :: 0 <= i < |ts| ==> 0 <= ts[i] < GridSize && g[ts[i]] == Opposite(p)
    requires forall i, j :: 0 <= i < j < |ts| ==> ts[i] != ts[j]
    ensures Census(ApplyWrites(g, FlipWrites(g, ts, p)), p) == Census(g, p) + |ts|
    ensures Census(ApplyWrites(g, FlipWrites(g, ts, p)), Opposite(p)) == Census(g, Opposite(p)) - |ts|
  {
    if |ts| > 0 {
      var front, t := ts[..|ts| - 1], ts[|ts| - 1];
      FlipWritesCensus(g, front, p);
      FlipWritesFront(g, ts, p);
      FlipWritesCells(g, front, p);
      var x := ApplyWrites(g, FlipWrites(g, front, p));
      assert t !in front by {
        forall i | 0 <= i < |front| ensures front[i] != t { }
      }
      assert x[t] == Opposite(p);
      IndexOnto(t);
      CensusWrite(x, Col(t), Row(t), p, p);
      CensusWrite(x, Col(t), Row(t), p, Opposite(p));
    }
  }

  /** Each flip logs the enemy colour. */
  lemma {:induction false} FlipWritesLogged(g: Grid, ts: seq<int>, p: PieceColor)
    requires IsPiece(p)
    requires forall i :: 0 <= i < |ts| ==> 0 <= ts[i] < GridSize && g[ts[i]] == Opposite(p)
    ensures CountLogged(FlipWrites(g, ts, p), Opposite(p)) == |ts|
    ensures CountLogged(FlipWrites(g, ts, p), p) == 0
    ensures CountLogged(FlipWrites(g, ts, p), Empty) == 0
  {
    if |ts| > 0 {
      FlipWritesLogged(g, ts[..|ts| - 1], p);
      FlipWritesFront(g, ts, p);
    }
  }

  lemma SingleWrite(g: Grid, w: Write)
    requires 0 <= w.sq < GridSize
    ensures InBounds([w])
    ensures ApplyWrites(g, [w]) == g[w.sq := w.value]
    ensures Honest(g, [w]) <==> g[w.sq] == w.logged
    ensures forall x :: CountLogged([w], x) == if w.logged == x then 1 else 0
  {
    assert [w][..0] == [];
  }

  /** The facts about the origin and destination cells the writes after the flips rely on. */
  ghost predicate TailReady(y: Grid, m: Move, p: PieceColor)
  {
    && m.Play? && Interior(m.col0, m.row0) && Interior(m.col1, m.row1)
    && (IsExtend(m) || IsJump(m)) && IsPiece(p)
    && y[Index(m.col0, m.row0)] == p && y[Index(m.col1, m.row1)] == Empty
  }

  /** The writes after the flips: a jump's origin write, then the destination write. */
  lemma TailSplit(m: Move, p: PieceColor)
    requires m.Play? && Interior(m.col0, m.row0) && Interior(m.col1, m.row1)
    ensures TailWrites(m, p)
            == (if IsJump(m) then [Write(Index(m.col0, m.row0), Empty, p)] else [])
               + [Write(Index(m.col1, m.row1), p, Empty)]
  {
  }

  /** The writes after the flips log honestly: the destination, then a jump's
      origin, hold the colours they log when they are written. */
  lemma TailWritesCells(y: Grid, m: Move, p: PieceColor)
    requires TailReady(y, m, p)
    ensures Honest(y, TailWrites(m, p))
    ensures forall i :: 0 <= i < GridSize ==>
              ApplyWrites(y, TailWrites(m, p))[i]
              == if i == Index(m.col1, m.row1) then p
                 else if IsJump(m) && i == Index(m.col0, m.row0) then Empty
                 else y[i]
  {
    TailWritesHonest(y, m, p);
    TailWritesGrid(y, m, p);
  }

  /** The two writes after the flips log the colours they find. */
  lemma TailWritesHonest(y: Grid, m: Move, p: PieceColor)
    requires TailReady(y, m, p)
    ensures Honest(y, TailWrites(m, p))
  {
    var o, d := Index(m.col0, m.row0), Index(m.col1, m.row1);
    IndexInjective(m.col0, m.row0, m.col1, m.row1);
    var ow := if IsJump(m) then [Write(o, Empty, p)] else [];
    var dw := [Write(d, p, Empty)];
    TailSplit(m, p);
    if IsJump(m) {
      SingleWrite(y, Write(o, Empty, p));
    } else {
      assert ApplyWrites(y, ow) == y;
    }
    SingleWrite(ApplyWrites(y, ow), Write(d, p, Empty));
    HonestAppend(y, ow, dw);
  }

  /** The grid after the two writes after the flips. */
  lemma TailWritesGrid(y: Grid, m: Move, p: PieceColor)
    requires TailReady(y, m, p)
    ensures forall i :: 0 <= i < GridSize ==>
              ApplyWrites(y, TailWrites(m, p))[i]
              == if i == Index(m.col1, m.row1) then p
                 else if IsJump(m) && i == Index(m.col0, m.row0) then Empty
                 else y[i]
  {
    var o, d := Index(m.col0, m.row0), Index(m.col1, m.row1);
    IndexInjective(m.col0, m.row0, m.col1, m.row1);
    var ow := if IsJump(m) then [Write(o, Empty, p)] else [];
    var dw := [Write(d, p, Empty)];
    TailSplit(m, p);
    if IsJump(m) {
      SingleWrite(y, Write(o, Empty, p));
    } else {
      assert ApplyWrites(y, ow) == y;
    }
    SingleWrite(ApplyWrites(y, ow), Write(d, p, Empty));
    ApplyWritesAppend(y, ow, dw);
  }

  /** The writes after the flips move the census of p by one for an extend (a
      new piece) and by none for a jump (a moved piece). */
  lemma TailWritesCensus(y: Grid, m: Move, p: PieceColor)
    requires TailReady(y, m, p)
    ensures Census(ApplyWrites(y, TailWrites(m, p)), p) == Census(y, p) + (if IsExtend(m) then 1 else 0)
    ensures Census(ApplyWrites(y, TailWrites(m, p)), Opposite(p)) == Census(y, Opposite(p))
  {
    var o, d := Index(m.col0, m.row0), Index(m.col1, m.row1);
    IndexInjective(m.col0, m.row0, m.col1, m.row1);
    var ow := if IsJump(m) then [Write(o, Empty, p)] else [];
    var dw := [Write(d, p, Empty)];
    TailSplit(m, p);
    var z := ApplyWrites(y, ow);
    if IsJump(m) {
      SingleWrite(y, Write(o, Empty, p));
      CensusWrite(y, m.col0, m.row0, Empty, p);
      CensusWrite(y, m.col0, m.row0, Empty, Opposite(p));
    } else {
      assert z == y;
    }
    SingleWrite(z, Write(d, p, Empty));
    CensusWrite(z, m.col1, m.row1, p, p);
    CensusWrite(z, m.col1, m.row1, p, Opposite(p));
    ApplyWritesAppend(y, ow, dw);
  }

  /** The writes after the flips log EMPTY once and, for a jump, p once. */
  lemma TailWritesLogged(m: Move, p: PieceColor)
    requires m.Play? && Interior(m.col0, m.row0) && Interior(m.col1, m.row1) && IsPiece(p)
    ensures CountLogged(TailWrites(m, p), Empty) == 1
    ensures CountLogged(TailWrites(m, p), p) == (if IsJump(m) then 1 else 0)
    ensures CountLogged(TailWrites(m, p), Opposite(p)) == 0
  {
    var ow := if IsJump(m) then [Write(Index(m.col0, m.row0), Empty, p)] else [];
    var dw := [Write(Index(m.col1, m.row1), p, Empty)];
    TailSplit(m, p);
    if IsJump(m) {
      assert ow[..0] == [];
    }
    assert dw[..0] == [];
    CountLoggedAppend(ow, dw, Empty);
    CountLoggedAppend(ow, dw, p);
    CountLoggedAppend(ow, dw, Opposite(p));
  }

  /** The squares a move flips all hold the enemy colour, and are neither the
      origin nor the destination. */
  lemma CapturesAreEnemies(g: Grid, m: Move, p: PieceColor)
    requires m.Play? && OnGrid(m.col0, m.row0) && Interior(m.col1, m.row1)
    requires IsPiece(p) && g[Index(m.col0, m.row0)] == p && g[Index(m.col1, m.row1)] == Empty
    ensures forall i :: 0 <= i < |Captures(g, m.col1, m.row1, p, 9)| ==>
              g[Captures(g, m.col1, m.row1, p, 9)[i]] == Opposite(p)
    ensures Index(m.col0, m.row0) !in Captures(g, m.col1, m.row1, p, 9)
    ensures Index(m.col1, m.row1) !in Captures(g, m.col1, m.row1, p, 9)
  {
  }

  /** The writes of a non-pass move log honestly, and they flip exactly the
      captured squares, vacate a jump's origin and fill the destination. */
  lemma MoveWritesCells(g: Grid, m: Move, p: PieceColor)
    requires m.Play? && OnGrid(m.col0, m.row0) && Interior(m.col1, m.row1)
    requires IsExtend(m) || IsJump(m)
    requires IsPiece(p) && PiecesInside(g)
    requires g[Index(m.col0, m.row0)] == p && g[Index(m.col1, m.row1)] == Empty
    ensures Honest(g, MoveWrites(g, m, p))
    ensures forall i :: 0 <= i < GridSize ==>
              ApplyWrites(g, MoveWrites(g, m, p))[i]
              == if i == Index(m.col1, m.row1) then p
                 else if IsJump(m) && i == Index(m.col0, m.row0) then Empty
                 else if i in Captures(g, m.col1, m.row1, p, 9) then p
                 else g[i]
  {
    var flips := Captures(g, m.col1, m.row1, p, 9);
    CapturesAreEnemies(g, m, p);
    var fw, tw := FlipWrites(g, flips, p), TailWrites(m, p);
    assert Interior(m.col0, m.row0);
    FlipWritesCells(g, flips, p);
    TailWritesCells(ApplyWrites(g, fw), m, p);
    HonestAppend(g, fw, tw);
    ApplyWritesAppend(g, fw, tw);
  }

  /** The writes of a non-pass move move the census by the amounts makeMove adds
      to the counters: k captured pieces change sides, and an extend adds one. */
  lemma MoveWritesCensus(g: Grid, m: Move, p: PieceColor)
    requires m.Play? && OnGrid(m.col0, m.row0) && Interior(m.col1, m.row1)
    requires IsExtend(m) || IsJump(m)
    requires IsPiece(p) && PiecesInside(g)
    requires g[Index(m.col0, m.row0)] == p && g[Index(m.col1, m.row1)] == Empty
    ensures Census(ApplyWrites(g, MoveWrites(g, m, p)), p)
            == Census(g, p) + |Captures(g, m.col1, m.row1, p, 9)| + (if IsExtend(m) then 1 else 0)
    ensures Census(ApplyWrites(g, MoveWrites(g, m, p)), Opposite(p))
            == Census(g, Opposite(p)) - |Captures(g, m.col1, m.row1, p, 9)|
  {
    var flips := Captures(g, m.col1, m.row1, p, 9);
    CapturesAreEnemies(g, m, p);
    var fw, tw := FlipWrites(g, flips, p), TailWrites(m, p);
    assert Interior(m.col0, m.row0);
    FlipWritesCells(g, flips, p);
    FlipWritesCensus(g, flips, p);
    TailWritesCensus(ApplyWrites(g, fw), m, p);
    ApplyWritesAppend(g, fw, tw);
  }

  /** What a move pushes on the undo stack: one EMPTY (the destination), p once
      for a jump (the origin), and the enemy colour once per captured square. */
  lemma MoveWritesLogged(g: Grid, m: Move, p: PieceColor)
    requires m.Play? && OnGrid(m.col0, m.row0) && Interior(m.col1, m.row1)
    requires IsExtend(m) || IsJump(m)
    requires IsPiece(p) && PiecesInside(g)
    requires g[Index(m.col0, m.row0)] == p && g[Index(m.col1, m.row1)] == Empty
    ensures CountLogged(MoveWrites(g, m, p), Empty) == 1
    ensures CountLogged(MoveWrites(g, m, p), p) == (if IsJump(m) then 1 else 0)
    ensures CountLogged(MoveWrites(g, m, p), Opposite(p)) == |Captures(g, m.col1, m.row1, p, 9)|
  {
    var flips := Captures(g, m.col1, m.row1, p, 9);
    CapturesAreEnemies(g, m, p);
    var fw, tw := FlipWrites(g, flips, p), TailWrites(m, p);
    assert Interior(m.col0, m.row0);
    FlipWritesCells(g, flips, p);
    FlipWritesLogged(g, flips, p);
    TailWritesLogged(m, p);
    CountLoggedAppend(fw, tw, Empty);
    CountLoggedAppend(fw, tw, p);
    CountLoggedAppend(fw, tw, Opposite(p));
  }

  /** Contents of (c, r) after a non-pass move whose guard holds, as the rules of
      the game describe it: the destination takes the mover's colour, a jump
      empties its origin, enemy pieces next to the destination change sides, and
      every other square keeps its contents. */
  function AfterMove(b: Board, m: Move, c: int, r: int): (x: PieceColor)
    requires m.Play? && OnGrid(m.col0, m.row0) && OnGrid(c, r)
  {
    var p := At(b, m.col0, m.row0);
    if (c, r) == (m.col1, m.row1) then p
    else if IsJump(m) && (c, r) == (m.col0, m.row0) then Empty
    else if Abs(c - m.col1) <= 1 && Abs(r - m.row1) <= 1 && At(b, c, r) == Opposite(p) then p
    else At(b, c, r)
  }

  /** The cells after a guarded non-pass move are the grid after its writes. */
  lemma GuardedMoveCells(b: Board, m: Move)
    requires BorderBlocked(b) && LegalMove(b, m) && m.Play? && Guard(b, m)
    ensures Interior(m.col1, m.row1)
    ensures MakeMove(b, m).cells == ApplyWrites(b.cells, MoveWrites(b.cells, m, At(b, m.col0, m.row0)))
  {
    LegalMoveShape(b, m);
  }

  /** One square after the writes of a non-pass move by p, in terms of the grid before. */
  lemma MoveWritesCell(g: Grid, m: Move, p: PieceColor, c: int, r: int)
    requires m.Play? && Interior(m.col0, m.row0) && Interior(m.col1, m.row1)
    requires IsExtend(m) || IsJump(m)
    requires IsPiece(p) && PiecesInside(g) && OnGrid(c, r)
    requires g[Index(m.col0, m.row0)] == p && g[Index(m.col1, m.row1)] == Empty
    ensures ApplyWrites(g, MoveWrites(g, m, p))[Index(c, r)]
            == if (c, r) == (m.col1, m.row1) then p
               else if IsJump(m) && (c, r) == (m.col0, m.row0) then Empty
               else if Abs(c - m.col1) <= 1 && Abs(r - m.row1) <= 1 && g[Index(c, r)] == Opposite(p) then p
               else g[Index(c, r)]
  {
    var flips := Captures(g, m.col1, m.row1, p, 9);
    MoveWritesCells(g, m, p);
    var i := Index(c, r);
    IndexInjective(c, r, m.col1, m.row1);
    IndexInjective(c, r, m.col0, m.row0);
    assert i in flips <==> Abs(c - m.col1) <= 1 && Abs(r - m.row1) <= 1 && g[i] == Opposite(p);
  }

  lemma MoveChangesCell(b: Board, m: Move, c: int, r: int)
    requires BorderBlocked(b) && LegalMove(b, m) && m.Play? && Guard(b, m)
    requires OnGrid(c, r)
    ensures At(MakeMove(b, m), c, r) == AfterMove(b, m, c, r)
  {
    LegalMoveShape(b, m);
    GuardedMoveCells(b, m);
    MoveWritesCell(b.cells, m, At(b, m.col0, m.row0), c, r);
  }

  /** A guarded non-pass move changes the squares exactly as AfterMove says. */
  lemma MoveChangesCells(b: Board, m: Move)
    requires BorderBlocked(b) && LegalMove(b, m) && m.Play? && Guard(b, m)
    ensures forall c, r :: OnGrid(c, r) ==> At(MakeMove(b, m), c, r) == AfterMove(b, m, c, r)
  {
    forall c, r | OnGrid(c, r)
      ensures At(MakeMove(b, m), c, r) == AfterMove(b, m, c, r)
    {
      MoveChangesCell(b, m, c, r);
    }
  }

  /** Number of the first n squares of the 3x3 block around (c1, r1) (column
      offset outer, row offset inner) that hold x. */
  function SurroundingUpTo(g: Grid, c1: int, r1: int, x: PieceColor, n: int): (k: nat)
    requires Interior(c1, r1) && 0 <= n <= 9
  {
    if n == 0 then 0
    else
      SurroundingUpTo(g, c1, r1, x, n - 1)
      + (if g[Index(c1 + (n - 1) / 3 - 1, r1 + (n - 1) % 3 - 1)] == x then 1 else 0)
  }

  /** Number of squares within one step of (c1, r1) that hold x. */
  function Surrounding(b: Board, c1: int, r1: int, x: PieceColor): (k: nat)
    requires Interior(c1, r1)
  {
    SurroundingUpTo(b.cells, c1, r1, x, 9)
  }

  lemma {:induction false} CapturesCount(g: Grid, c1: int, r1: int, p: PieceColor, n: int)
    requires Interior(c1, r1) && 0 <= n <= 9 && IsPiece(p)
    ensures |Captures(g, c1, r1, p, n)| == SurroundingUpTo(g, c1, r1, Opposite(p), n)
  {
    if n > 0 {
      CapturesCount(g, c1, r1, p, n - 1);
    }
  }

  /** A guarded non-pass move by p captures the k enemy pieces next to the
      destination: p gains k + 1 for an extend and k for a jump, the enemy loses k. */
  lemma MoveCounts(b: Board, m: Move)
    requires BorderBlocked(b) && LegalMove(b, m) && m.Play? && Guard(b, m)
    ensures Interior(m.col1, m.row1)
    ensures var p := At(b, m.col0, m.row0);
            var k := Surrounding(b, m.col1, m.row1, Opposite(p));
            && NumPieces(MakeMove(b, m), p) == NumPieces(b, p) + k + (if IsExtend(m) then 1 else 0)
            && NumPieces(MakeMove(b, m), Opposite(p)) == NumPieces(b, Opposite(p)) - k
  {
    LegalMoveShape(b, m);
    CapturesCount(b.cells, m.col1, m.row1, At(b, m.col0, m.row0), 9);
  }

  /** A guarded non-pass move leaves the border blocked. */
  lemma MoveKeepsBorder(b: Board, m: Move)
    requires BorderBlocked(b) && LegalMove(b, m) && m.Play? && Guard(b, m)
    ensures BorderBlocked(MakeMove(b, m))
  {
    LegalMoveShape(b, m);
    forall c, r | OnGrid(c, r) && !Interior(c, r)
      ensures At(MakeMove(b, m), c, r) == Blocked
    {
      MoveChangesCell(b, m, c, r);
    }
  }

  /** The counters of a bordered board agree with the census when the two
      players' counters do, whichever player is named first. */
  lemma CountersMatch(a: Board, p: PieceColor)
    requires BorderBlocked(a) && IsPiece(p)
    requires NumPieces(a, p) == Census(a.cells, p)
    requires NumPieces(a, Opposite(p)) == Census(a.cells, Opposite(p))
    ensures Consistent(a)
  {
  }

  /** A guarded non-pass move keeps the counters equal to the census. */
  lemma GuardedMoveKeepsConsistent(b: Board, m: Move)
    requires Consistent(b) && LegalMove(b, m) && m.Play? && Guard(b, m)
    ensures Consistent(MakeMove(b, m))
  {
    LegalMoveShape(b, m);
    GuardedMoveCells(b, m);
    MoveKeepsBorder(b, m);
    MoveCounts(b, m);
    var p := At(b, m.col0, m.row0);
    CapturesCount(b.cells, m.col1, m.row1, p, 9);
    MoveWritesCensus(b.cells, m, p);
    CountersMatch(MakeMove(b, m), p);
  }

  /** makeMove, pass included, keeps the counters equal to the pieces on the
      board and the border blocked. */
  lemma MakeMoveKeepsConsistent(b: Board, m: Move)
    requires Consistent(b) && LegalMove(b, m)
    requires m.Pass? ==> PassAllowed(b)
    ensures Consistent(MakeMove(b, m))
  {
    if m.Play? && Guard(b, m) {
      GuardedMoveKeepsConsistent(b, m);
    } else {
      var after := MakeMove(b, m);
      assert after.cells == b.cells;
      forall c, r | OnGrid(c, r) ensures At(after, c, r) == At(b, c, r) { }
    }
  }
}
