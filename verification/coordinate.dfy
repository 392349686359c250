/** Integer lattice points and the six unit moves defined on them.

    The moves follow the point type's own convention: `Before` raises Z and
    `Behind` lowers it.  The flat-index helpers of the grid (module `Grid`)
    use the opposite naming for the z-axis; `Grid.OffsetsFollowCoordinateMoves`
    states the correspondence.
 */
module Coordinates {

  /** An immutable (X, Y, Z) point. */
  datatype Coordinate = Coordinate(x: int, y: int, z: int) {

    /** One step towards smaller X. */
    function Left(): Coordinate { Coordinate(x - 1, y, z) }

    /** One step towards larger X. */
    function Right(): Coordinate { Coordinate(x + 1, y, z) }

    /** One step towards larger Y. */
    function Up(): Coordinate { Coordinate(x, y + 1, z) }

    /** One step towards smaller Y. */
    function Down(): Coordinate { Coordinate(x, y - 1, z) }

    /** One step towards larger Z. */
    function Before(): Coordinate { Coordinate(x, y, z + 1) }

    /** One step towards smaller Z. */
    function Behind(): Coordinate { Coordinate(x, y, z - 1) }
  }

  /** Each move is undone by the move in the opposite direction. */
  lemma MovesAreInverse(c: Coordinate)
    ensures c.Left().Right() == c && c.Right().Left() == c
    ensures c.Up().Down() == c && c.Down().Up() == c
    ensures c.Before().Behind() == c && c.Behind().Before() == c
  {
  }

  /** Each move shifts exactly one axis by one unit and keeps the other two. */
  lemma MovesChangeOneAxis(c: Coordinate)
    ensures c.Left().x == c.x - 1 && c.Left().y == c.y && c.Left().z == c.z
    ensures c.Right().x == c.x + 1 && c.Right().y == c.y && c.Right().z == c.z
    ensures c.Up().y == c.y + 1 && c.Up().x == c.x && c.Up().z == c.z
    ensures c.Down().y == c.y - 1 && c.Down().x == c.x && c.Down().z == c.z
    ensures c.Before().z == c.z + 1 && c.Before().x == c.x && c.Before().y == c.y
    ensures c.Behind().z == c.z - 1 && c.Behind().x == c.x && c.Behind().y == c.y
  {
  }

  /** Moves along different axes can be applied in either order. */
  lemma MovesOnDifferentAxesCommute(c: Coordinate)
    ensures c.Left().Up() == c.Up().Left() && c.Left().Down() == c.Down().Left()
    ensures c.Right().Up() == c.Up().Right() && c.Right().Down() == c.Down().Right()
    ensures c.Left().Before() == c.Before().Left() && c.Left().Behind() == c.Behind().Left()
    ensures c.Right().Before() == c.Before().Right() && c.Right().Behind() == c.Behind().Right()
    ensures c.Up().Before() == c.Before().Up() && c.Up().Behind() == c.Behind().Up()
    ensures c.Down().Before() == c.Before().Down() && c.Down().Behind() == c.Behind().Down()
  {
  }
}
