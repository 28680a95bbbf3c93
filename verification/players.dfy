/** The two players of a game. The mutual `opponent` links of the two
    player records are represented by seats: seat 0 is player one, seat 1
    is player two, and each seat's opponent is the other one. */
module Players {
  import opened BoardModel

  /** A player's symbol and whether the computer plays it. */
  datatype Player = Player(symbol: char, isAI: bool)

  type Seat = s: int | 0 <= s < 2

  const PlayerOne: Seat := 0
  const PlayerTwo: Seat := 1

  /** The seat the `opponent` link of seat `s` points to. */
  function Opponent(s: Seat): (o: Seat)
    ensures o != s
    ensures s == PlayerOne <==> o == PlayerTwo
  {
    1 - s
  }

  /** Following the opponent link twice leads back to the same player. */
  lemma OpponentIsInvolution(s: Seat)
    ensures Opponent(Opponent(s)) == s
  {
  }

  datatype Roster = Roster(one: Player, two: Player) {

    function At(s: Seat): Player {
      if s == PlayerOne then one else two
    }

    function Symbol(s: Seat): char {
      At(s).symbol
    }

    /** Neither symbol is the empty marker, so placing a symbol really
        takes up a cell. */
    predicate Valid() {
      one.symbol != EmptySpace && two.symbol != EmptySpace
    }
  }
}
