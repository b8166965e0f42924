/** The board as the search sees it.

    The game's board class (legality, dropping a piece, line detection, cell colours) is an
    external collaborator whose implementation is not part of this model. It is represented
    by an arbitrary board type `B` together with the operations the player calls on it, and
    `Valid` collects everything the search relies on about those operations.
 */
module Board {

  /** Number of columns, which is also the number of rows: the grid is 8 by 8. */
  const Size: int := 8

  /** The board operations the player uses.
      - `legal(b, c)`: a piece may be dropped in column `c` (`movpossible`)
      - `play(b, c, color)`: a copy of `b` with a piece of `color` dropped in column `c`
        (copy constructor followed by `afegeix`)
      - `wins(b, c, color)`: the piece last dropped in column `c` completes a line of
        `color` (`solucio`)
      - `canMove(b)`: some column still accepts a piece (`espotmoure`)
      - `cell(b, i, j)`: the colour at row `i`, column `j`, 0 when empty (`getColor`); the
        heuristic is bounded whatever this returns, so nothing is assumed about it
      - `measure(b)`: a natural number that every legal drop lowers, for instance the
        number of empty cells
   */
  datatype Rules<!B> = Rules(
    legal: (B, int) -> bool,
    play: (B, int, int) -> B,
    wins: (B, int, int) -> bool,
    canMove: (B) -> bool,
    cell: (B, int, int) -> int,
    measure: (B) -> nat
  )

  /** `c` is a column of the grid. */
  predicate IsColumn(c: int) {
    0 <= c < Size
  }

  /** `r` is a row of the grid, the first index of `getColor` and of the weight table. */
  predicate IsRow(r: int) {
    0 <= r < Size
  }

  /** Some column in `[lo, hi)` accepts a piece. */
  ghost predicate HasMoveIn<B>(rules: Rules<B>, b: B, lo: int, hi: int) {
    exists c :: lo <= c < hi && rules.legal(b, c)
  }

  /** What the search assumes of the board operations. */
  ghost predicate Valid<B(!new)>(rules: Rules<B>) {
    // a move remains exactly when one of the eight columns is legal
    && (forall b :: rules.canMove(b) <==> HasMoveIn(rules, b, 0, Size))
    // every legal drop, of either colour, makes the board strictly fuller
    && (forall b, c, color :: IsColumn(c) && rules.legal(b, c) ==>
          rules.measure(rules.play(b, c, color)) < rules.measure(b))
  }

  /** The opponent of `color`, written `colorJugador * -1` in the player. */
  function Opponent(color: int): int {
    color * -1
  }
}
