/** The two sides of the game and their marks on the board. */
module Players {

  /** One of the two sides; X always moves first in a game. */
  datatype Player = X | O {

    /** The opponent of this player. */
    function Toggle(): (r: Player)
      ensures r != this
    {
      match this
      case X => O
      case O => X
    }

    /** The mark this player leaves in a cell: never the empty cell ' '. */
    function AsChar(): (r: char)
      ensures r == 'X' <==> this == X
      ensures r == 'O' <==> this == O
      ensures r != ' '
    {
      match this
      case X => 'X'
      case O => 'O'
    }
  }

  /** Toggling twice gives back the player one started with. */
  lemma ToggleInvolution(p: Player)
    ensures p.Toggle().Toggle() == p
    ensures p.Toggle() != p
  {
  }

  /** Different players leave different marks. */
  lemma AsCharInjective(p: Player, q: Player)
    ensures p.AsChar() == q.AsChar() <==> p == q
  {
  }
}
