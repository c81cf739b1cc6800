/** What clear(), the copy constructor and setBlock do to a board. */
module BoardFacts {
  import opened Outcomes
  import opened Pieces
  import opened Squares
  import opened Grids
  import opened Boards

  /** The grid clear() paints before placing the four pieces: every square
      BLOCKED, then every playing-area square EMPTY. */
  function EmptyGrid(): (g: Grid)
    ensures forall c, r :: OnGrid(c, r) ==> g[Index(c, r)] == if Interior(c, r) then Empty else Blocked
  {
    var g: Grid := seq(121, i requires 0 <= i < 121 => if Interior(Col(i), Row(i)) then Empty else Blocked);
    forall c, r | OnGrid(c, r)
      ensures g[Index(c, r)] == if Interior(c, r) then Empty else Blocked
    {
      IndexOnto(Index(c, r));
      IndexInjective(c, r, Col(Index(c, r)), Row(Index(c, r)));
    }
    g
  }

  /** Every square of the cleared board holds its starting contents. */
  lemma ClearCells(c: int, r: int)
    requires OnGrid(c, r)
    ensures At(Clear(), c, r) == StartCell(c, r)
  {
    var i := Index(c, r);
    IndexOnto(i);
    IndexInjective(c, r, Col(i), Row(i));
    IndexInjective(c, r, 0, 0);
    IndexInjective(c, r, 0, 6);
    IndexInjective(c, r, 6, 0);
    IndexInjective(c, r, 6, 6);
  }

  /** A grid holding the starting contents on the playing area has two pieces
      of each colour there: count it as a blocked-border, empty playing-area
      grid e with the four starting pieces placed. */
  lemma StartCensus(e: Grid, g: Grid)
    requires forall c, r :: OnGrid(c, r) ==> e[Index(c, r)] == if Interior(c, r) then Empty else Blocked
    requires forall c, r :: Interior(c, r) ==> g[Index(c, r)] == StartCell(c, r)
    ensures Census(g, Red) == 2 && Census(g, Blue) == 2
  {
    CensusAbsent(e, Red);
    CensusAbsent(e, Blue);
    var g1 := e[Index(0, 0) := Blue];
    var g2 := g1[Index(0, 6) := Red];
    var g3 := g2[Index(6, 0) := Red];
    var g4 := g3[Index(6, 6) := Blue];
    CensusWrite(e, 0, 0, Blue, Red);
    CensusWrite(e, 0, 0, Blue, Blue);
    CensusWrite(g1, 0, 6, Red, Red);
    CensusWrite(g1, 0, 6, Red, Blue);
    CensusWrite(g2, 6, 0, Red, Red);
    CensusWrite(g2, 6, 0, Red, Blue);
    CensusWrite(g3, 6, 6, Blue, Red);
    CensusWrite(g3, 6, 6, Blue, Blue);
    forall c, r | Interior(c, r) ensures g[Index(c, r)] == g4[Index(c, r)] {
      IndexInjective(c, r, 0, 0);
      IndexInjective(c, r, 0, 6);
      IndexInjective(c, r, 6, 0);
      IndexInjective(c, r, 6, 6);
    }
    CensusSame(g, g4, Red);
    CensusSame(g, g4, Blue);
  }

  /** clear() leaves a consistent board: the border blocked, two pieces of each
      colour on the board, and both counters at two. */
  lemma ClearConsistent()
    ensures Consistent(Clear())
    ensures Census(Clear().cells, Red) == 2 && Census(Clear().cells, Blue) == 2
  {
    var g := Clear().cells;
    forall c, r | OnGrid(c, r) ensures g[Index(c, r)] == StartCell(c, r) {
      ClearCells(c, r);
    }
    StartCensus(EmptyGrid(), g);
  }

  /** A piece next to an empty square can move. */
  lemma MobileWitness(b: Board, c: int, r: int, dc: int, dr: int)
    requires 0 <= c < 7 && 0 <= r < 7 && -2 <= dc < 3 && -2 <= dr < 3
    requires b.cells[Neighbor(Index(c, r), dc, dr)] == Empty
    ensures CanMove(b, At(b, c, r))
  {
  }

  /** The piece clear() puts on a1 or a7 can move to the empty square next to it. */
  lemma CornerMobile(r: int)
    requires r == 0 || r == 6
    ensures CanMove(Clear(), StartCell(0, r))
  {
    ClearCells(0, r);
    NextToCornerEmpty(r);
    MobileWitness(Clear(), 0, r, 1, 0);
  }

  /** The square to the right of a1 or a7 is empty after clear(). */
  lemma NextToCornerEmpty(r: int)
    requires r == 0 || r == 6
    ensures Clear().cells[Neighbor(Index(0, r), 1, 0)] == Empty
  {
    ClearCells(1, r);
    NeighborOfIndex(0, r, 1, 0);
  }

  /** In the starting position the game is not over and both sides can move. */
  lemma ClearNotOver()
    ensures CanMove(Clear(), Red) && CanMove(Clear(), Blue)
    ensures !GameOver(Clear())
  {
    CornerMobile(6);
    CornerMobile(0);
  }

  /** One square of the copy: the original's on the playing area, blocked
      elsewhere. */
  lemma CopyAt(b: Board, c: int, r: int)
    requires OnGrid(c, r)
    ensures At(Copy(b), c, r) == if Interior(c, r) then At(b, c, r) else Blocked
  {
    IndexOnto(Index(c, r));
    IndexInjective(c, r, Col(Index(c, r)), Row(Index(c, r)));
    ClearCells(c, r);
  }

  /** The copy constructor keeps every field and every playing-area square of
      the original and re-blocks the border; so it changes nothing on a board
      whose border is already blocked. */
  lemma CopyFaithful(b: Board)
    ensures BorderBlocked(Copy(b))
    ensures forall c, r :: Interior(c, r) ==> At(Copy(b), c, r) == At(b, c, r)
    ensures Copy(b).(cells := b.cells) == b
    ensures BorderBlocked(b) ==> Copy(b) == b
    ensures Consistent(b) ==> Consistent(Copy(b))
  {
    CopyBorder(b);
    if BorderBlocked(b) {
      CopyKeeps(b);
    }
  }

  /** The copy's border is blocked and its playing area is the original's. */
  lemma CopyBorder(b: Board)
    ensures BorderBlocked(Copy(b))
    ensures forall c, r :: Interior(c, r) ==> At(Copy(b), c, r) == At(b, c, r)
  {
    forall c, r | OnGrid(c, r)
      ensures At(Copy(b), c, r) == if Interior(c, r) then At(b, c, r) else Blocked
    {
      CopyAt(b, c, r);
    }
  }

  /** Copying a board whose border is blocked changes nothing. */
  lemma CopyKeeps(b: Board)
    requires BorderBlocked(b)
    ensures Copy(b) == b
  {
    var r := Copy(b);
    forall i | 0 <= i < GridSize ensures r.cells[i] == b.cells[i] {
      IndexOnto(i);
      CopyAt(b, Col(i), Row(i));
    }
  }

  /** numPieces(color) on a consistent board is the number of color's pieces
      on the playing area, and 0 for a colour that is not a player's. */
  lemma NumPiecesCounts(b: Board, color: PieceColor)
    requires Consistent(b)
    ensures NumPieces(b, color) == if IsPiece(color) then Census(b.cells, color) else 0
  {
  }

  /** The four squares setBlock(c, r) blocks. */
  predicate BlockSite(c: int, r: int, c': int, r': int)
  {
    (c' == c || c' == Reflect(c)) && (r' == r || r' == Reflect(r))
  }

  /** setBlock succeeds exactly when (c, r) and its three reflections are all
      legal block sites; it reports the square itself before its reflections. */
  lemma SetBlockSucceeds(b: Board, c: int, r: int)
    requires OnGrid(c, r)
    ensures SetBlock(b, c, r).Ok?
            <==> forall c', r' :: BlockSite(c, r, c', r') ==> OnGrid(c', r') && LegalBlock(b, c', r')
    ensures !LegalBlock(b, c, r) ==> SetBlock(b, c, r) == Err("illegal block placement")
    ensures LegalBlock(b, c, r) && SetBlock(b, c, r).Err? ==> SetBlock(b, c, r) == Err("illegal block")
  {
    if SetBlock(b, c, r).Ok? {
      forall c', r' | BlockSite(c, r, c', r') ensures OnGrid(c', r') && LegalBlock(b, c', r') {
      }
    } else if LegalBlock(b, c, r) {
      var nc, nr := Reflect(c), Reflect(r);
      assert BlockSite(c, r, c, nr) && BlockSite(c, r, nc, r) && BlockSite(c, r, nc, nr);
    } else {
      assert BlockSite(c, r, c, r);
    }
  }

  /** After a successful setBlock: if (c, r) was already blocked nothing changed;
      otherwise exactly the four block sites are blocked, every other square and
      every other field is as before. */
  lemma SetBlockCells(b: Board, c: int, r: int)
    requires OnGrid(c, r) && SetBlock(b, c, r).Ok?
    ensures At(b, c, r) == Blocked ==> SetBlock(b, c, r).value == b
    ensures SetBlock(b, c, r).value.(cells := b.cells) == b
    ensures At(b, c, r) != Blocked ==>
              forall c', r' :: OnGrid(c', r') ==>
                At(SetBlock(b, c, r).value, c', r') == if BlockSite(c, r, c', r') then Blocked else At(b, c', r')
  {
    if At(b, c, r) != Blocked {
      var after := SetBlock(b, c, r).value;
      var nc, nr := Reflect(c), Reflect(r);
      forall c', r' | OnGrid(c', r')
        ensures At(after, c', r') == if BlockSite(c, r, c', r') then Blocked else At(b, c', r')
      {
        IndexInjective(c', r', c, r);
        IndexInjective(c', r', c, nr);
        IndexInjective(c', r', nc, r);
        IndexInjective(c', r', nc, nr);
      }
    }
  }

  /** setBlock never touches a piece, so it keeps a consistent board consistent. */
  lemma SetBlockKeepsConsistent(b: Board, c: int, r: int)
    requires Consistent(b) && OnGrid(c, r) && SetBlock(b, c, r).Ok?
    ensures Consistent(SetBlock(b, c, r).value)
  {
    SetBlockSucceeds(b, c, r);
    SetBlockCells(b, c, r);
    if At(b, c, r) != Blocked {
      var nc, nr := Reflect(c), Reflect(r);
      assert BlockSite(c, r, c, r) && BlockSite(c, r, c, nr) && BlockSite(c, r, nc, r) && BlockSite(c, r, nc, nr);
      var g0 := b.cells;
      var g1 := g0[Index(c, r) := Blocked];
      var g2 := g1[Index(c, nr) := Blocked];
      var g3 := g2[Index(nc, r) := Blocked];
      IndexInjective(c, nr, c, r);
      IndexInjective(nc, r, c, r);
      IndexInjective(nc, r, c, nr);
      IndexInjective(nc, nr, c, r);
      IndexInjective(nc, nr, c, nr);
      IndexInjective(nc, nr, nc, r);
      CensusWrite(g0, c, r, Blocked, Red);
      CensusWrite(g0, c, r, Blocked, Blue);
      CensusWrite(g1, c, nr, Blocked, Red);
      CensusWrite(g1, c, nr, Blocked, Blue);
      CensusWrite(g2, nc, r, Blocked, Red);
      CensusWrite(g2, nc, r, Blocked, Blue);
      CensusWrite(g3, nc, nr, Blocked, Red);
      CensusWrite(g3, nc, nr, Blocked, Blue);
    }
  }

  /** Placing the same block twice is the same as placing it once. */
  lemma SetBlockIdempotent(b: Board, c: int, r: int)
    requires OnGrid(c, r) && SetBlock(b, c, r).Ok?
    ensures SetBlock(SetBlock(b, c, r).value, c, r) == SetBlock(b, c, r)
  {
    var after := SetBlock(b, c, r).value;
    SetBlockSucceeds(b, c, r);
    SetBlockCells(b, c, r);
    if At(b, c, r) != Blocked {
      forall c', r' | BlockSite(c, r, c', r') ensures OnGrid(c', r') && LegalBlock(after, c', r') {
      }
      SetBlockSucceeds(after, c, r);
    }
  }
}
