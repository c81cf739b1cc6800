/** The 121-cell backing grid, the census of its playing area, and logged cell writes. */
module Grids {
  import opened Pieces
  import opened Squares

  /** The board array: one colour per linearised index. */
  type Grid = g: seq<PieceColor> | |g| == 121 witness seq(121, _ => Blocked)

  /** Linearised index of the o-th playing-area square, counting column by column
      (a1, a2, ..., a7, b1, ...), the order every scan of the board uses. */
  function InteriorIndex(o: int): (i: int)
    requires 0 <= o < 49
    ensures 0 <= i < GridSize
  {
    Index(o / 7, o % 7)
  }

  /** Number of the first n playing-area squares that hold x. */
  function CensusUpTo(g: Grid, x: PieceColor, n: int): (k: nat)
    requires 0 <= n <= 49
    ensures k <= n
  {
    if n == 0 then 0
    else CensusUpTo(g, x, n - 1) + (if g[InteriorIndex(n - 1)] == x then 1 else 0)
  }

  /** Number of playing-area squares that hold x. */
  function Census(g: Grid, x: PieceColor): (k: nat)
    ensures k <= 49
  {
    CensusUpTo(g, x, 49)
  }

  /** Pieces stand only on the playing area (the border is all blocked). */
  ghost predicate PiecesInside(g: Grid)
  {
    forall c, r :: OnGrid(c, r) && IsPiece(g[Index(c, r)]) ==> Interior(c, r)
  }

  /** The o-th playing-area square is (c, r) exactly when o == c * 7 + r. */
  lemma InteriorIndexIs(o: int, c: int, r: int)
    requires 0 <= o < 49 && OnGrid(c, r)
    ensures InteriorIndex(o) == Index(c, r) <==> Interior(c, r) && o == c * 7 + r
  {
    IndexInjective(o / 7, o % 7, c, r);
  }

  lemma {:induction false} CensusUpToWrite(g: Grid, c: int, r: int, v: PieceColor, x: PieceColor, n: int)
    requires OnGrid(c, r) && 0 <= n <= 49
    ensures CensusUpTo(g[Index(c, r) := v], x, n)
         == CensusUpTo(g, x, n)
            + (if Interior(c, r) && c * 7 + r < n
               then (if v == x then 1 else 0) - (if g[Index(c, r)] == x then 1 else 0)
               else 0)
  {
    if n > 0 {
      CensusUpToWrite(g, c, r, v, x, n - 1);
      InteriorIndexIs(n - 1, c, r);
    }
  }

  /** Writing v into one cell changes the census of x only if the cell is in the
      playing area, and then by what the cell gains minus what it loses. */
  lemma CensusWrite(g: Grid, c: int, r: int, v: PieceColor, x: PieceColor)
    requires OnGrid(c, r)
    ensures Census(g[Index(c, r) := v], x)
         == Census(g, x)
            + (if Interior(c, r)
               then (if v == x then 1 else 0) - (if g[Index(c, r)] == x then 1 else 0)
               else 0)
  {
    CensusUpToWrite(g, c, r, v, x, 49);
  }

  lemma {:induction false} CensusUpToTotal(g: Grid, n: int)
    requires 0 <= n <= 49
    ensures CensusUpTo(g, Red, n) + CensusUpTo(g, Blue, n)
          + CensusUpTo(g, Empty, n) + CensusUpTo(g, Blocked, n) == n
  {
    if n > 0 {
      CensusUpToTotal(g, n - 1);
    }
  }

  /** Every playing-area square holds exactly one of the four contents. */
  lemma CensusTotal(g: Grid)
    ensures Census(g, Red) + Census(g, Blue) + Census(g, Empty) + Census(g, Blocked) == 49
  {
    CensusUpToTotal(g, 49);
  }

  lemma {:induction false} CensusUpToWitness(g: Grid, c: int, r: int, x: PieceColor, n: int)
    requires Interior(c, r) && g[Index(c, r)] == x
    requires c * 7 + r < n <= 49
    ensures CensusUpTo(g, x, n) >= 1
  {
    InteriorIndexIs(n - 1, c, r);
    if n - 1 != c * 7 + r {
      CensusUpToWitness(g, c, r, x, n - 1);
    }
  }

  /** A playing-area square holding x is counted by the census of x. */
  lemma CensusWitness(g: Grid, c: int, r: int, x: PieceColor)
    requires Interior(c, r) && g[Index(c, r)] == x
    ensures Census(g, x) >= 1
  {
    CensusUpToWitness(g, c, r, x, 49);
  }

  lemma {:induction false} CensusUpToAbsent(g: Grid, x: PieceColor, n: int)
    requires 0 <= n <= 49
    requires forall o :: 0 <= o < n ==> g[InteriorIndex(o)] != x
    ensures CensusUpTo(g, x, n) == 0
  {
    if n > 0 {
      CensusUpToAbsent(g, x, n - 1);
    }
  }

  /** A colour that no playing-area square holds has census zero. */
  lemma CensusAbsent(g: Grid, x: PieceColor)
    requires forall c, r :: Interior(c, r) ==> g[Index(c, r)] != x
    ensures Census(g, x) == 0
  {
    forall o | 0 <= o < 49
      ensures g[InteriorIndex(o)] != x
    {
      assert Interior(o / 7, o % 7);
    }
    CensusUpToAbsent(g, x, 49);
  }

  lemma {:induction false} CensusUpToSame(g: Grid, h: Grid, x: PieceColor, n: int)
    requires 0 <= n <= 49
    requires forall o :: 0 <= o < n ==> g[InteriorIndex(o)] == h[InteriorIndex(o)]
    ensures CensusUpTo(g, x, n) == CensusUpTo(h, x, n)
  {
    if n > 0 {
      CensusUpToSame(g, h, x, n - 1);
    }
  }

  /** Grids that agree on the playing area have the same census. */
  lemma CensusSame(g: Grid, h: Grid, x: PieceColor)
    requires forall c, r :: Interior(c, r) ==> g[Index(c, r)] == h[Index(c, r)]
    ensures Census(g, x) == Census(h, x)
  {
    forall o | 0 <= o < 49
      ensures g[InteriorIndex(o)] == h[InteriorIndex(o)]
    {
      assert Interior(o / 7, o % 7);
    }
    CensusUpToSame(g, h, x, 49);
  }

  // ---------------------------------------------------------------------------
  // Logged writes: makeMove changes cells one at a time and pushes, for each,
  // the square and a colour onto the undo stack; undo pops them in reverse.

  /** One cell write of a move: cell sq becomes value, and logged is pushed for undo. */
  datatype Write = Write(sq: int, value: PieceColor, logged: PieceColor)

  predicate InBounds(ws: seq<Write>)
  {
    forall i :: 0 <= i < |ws| ==> 0 <= ws[i].sq < GridSize
  }

  /** The grid after performing the writes in order. */
  function ApplyWrites(g: Grid, ws: seq<Write>): (g': Grid)
    requires InBounds(ws)
  {
    if |ws| == 0 then g
    else ApplyWrites(g, ws[..|ws| - 1])[ws[|ws| - 1].sq := ws[|ws| - 1].value]
  }

  /** Every write logs the colour the cell held just before it: replaying the log
      backwards then restores the grid. */
  predicate Honest(g: Grid, ws: seq<Write>)
    requires InBounds(ws)
  {
    |ws| == 0
    || (Honest(g, ws[..|ws| - 1])
        && ApplyWrites(g, ws[..|ws| - 1])[ws[|ws| - 1].sq] == ws[|ws| - 1].logged)
  }

  /** Number of writes whose logged colour is x. */
  function CountLogged(ws: seq<Write>, x: PieceColor): (k: nat)
    ensures k <= |ws|
  {
    if |ws| == 0 then 0
    else CountLogged(ws[..|ws| - 1], x) + (if ws[|ws| - 1].logged == x then 1 else 0)
  }

  lemma {:induction false} ApplyWritesAppend(g: Grid, a: seq<Write>, b: seq<Write>)
    requires InBounds(a) && InBounds(b)
    ensures InBounds(a + b)
    ensures ApplyWrites(g, a + b) == ApplyWrites(ApplyWrites(g, a), b)
  {
    if |b| > 0 {
      assert (a + b)[..|a + b| - 1] == a + b[..|b| - 1];
      ApplyWritesAppend(g, a, b[..|b| - 1]);
    } else {
      assert a + b == a;
    }
  }

  lemma {:induction false} HonestAppend(g: Grid, a: seq<Write>, b: seq<Write>)
    requires InBounds(a) && InBounds(b)
    requires Honest(g, a) && Honest(ApplyWrites(g, a), b)
    ensures InBounds(a + b) && Honest(g, a + b)
  {
    if |b| > 0 {
      assert (a + b)[..|a + b| - 1] == a + b[..|b| - 1];
      HonestAppend(g, a, b[..|b| - 1]);
      ApplyWritesAppend(g, a, b[..|b| - 1]);
    } else {
      assert a + b == a;
    }
  }

  lemma {:induction false} CountLoggedAppend(a: seq<Write>, b: seq<Write>, x: PieceColor)
    ensures CountLogged(a + b, x) == CountLogged(a, x) + CountLogged(b, x)
  {
    if |b| > 0 {
      assert (a + b)[..|a + b| - 1] == a + b[..|b| - 1];
      CountLoggedAppend(a, b[..|b| - 1], x);
    } else {
      assert a + b == a;
    }
  }
}
