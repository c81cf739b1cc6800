/** The contents of one cell of the board (Java's PieceColor). */
module Pieces {

  datatype PieceColor = Empty | Red | Blue | Blocked

  /** True exactly for the two players' colours. */
  predicate IsPiece(c: PieceColor)
  {
    c == Red || c == Blue
  }

  /** The other player's colour; EMPTY and BLOCKED have no opponent and map to themselves. */
  function Opposite(c: PieceColor): (r: PieceColor)
    ensures IsPiece(c) <==> IsPiece(r)
    ensures IsPiece(c) ==> r != c
  {
    match c
    case Red => Blue
    case Blue => Red
    case _ => c
  }

  /** Taking the opponent twice gives back the colour. */
  lemma OppositeInvolution(c: PieceColor)
    ensures Opposite(Opposite(c)) == c
  {
  }
}
