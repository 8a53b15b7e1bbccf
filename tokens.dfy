/** Tokens held by the cells of a board, and the two markers the automated
    player's search works with. */
module Tokens {

  datatype Option<+T> = None | Some(value: T)

  /** The two canonical markers of a board prepared for the search:
      Red for the searching player, Blue for everybody else. */
  datatype Marker = Red | Blue

  /** What a cell holds: nothing, one of the search markers, or a player's
      own token, which the game only ever compares for equality. */
  datatype Token = Empty | Mark(marker: Marker) | Piece(id: nat)

  /** The marker a move of the maximising (true) or minimising (false) side
      places during the search. */
  function MarkerFor(maximising: bool): (t: Token)
    ensures t != Empty
    ensures t == Mark(Red) <==> maximising
    ensures t == Mark(Blue) <==> !maximising
  {
    Mark(if maximising then Red else Blue)
  }

  /** One cell of the perspective change: empty stays empty, the searching
      player's token becomes Red and every other token becomes Blue. */
  function NormalizeToken(t: Token, own: Token): Token
  {
    if t == Empty then Empty
    else if t == own then Mark(Red)
    else Mark(Blue)
  }

  /** The perspective change applied to a whole board, cell by cell. */
  function Normalize(s: seq<Token>, own: Token): (r: seq<Token>)
    ensures |r| == |s|
  {
    seq(|s|, i requires 0 <= i < |s| => NormalizeToken(s[i], own))
  }

  /** Normalisation keeps exactly the empty cells empty and leaves nothing
      but the two markers on the board. */
  lemma NormalizeKeepsEmptyCells(s: seq<Token>, own: Token, i: nat)
    requires i < |s|
    ensures Normalize(s, own)[i] == Empty <==> s[i] == Empty
    ensures Normalize(s, own)[i] in {Empty, Mark(Red), Mark(Blue)}
    ensures Normalize(s, own)[i] == Mark(Red) <==> s[i] != Empty && s[i] == own
  {
  }
}
