/** The flat cell buffer of the automaton, its bounds-checked liveness probe,
    the six flat-index neighbour offsets and the index/coordinate mapping. */
module Grid {
  import opened Coordinates

  /** One cell of the buffer: the engine stores a byte per cell and writes
      only 0 (dead) and 1 (alive). */
  type byte = b: int | 0 <= b < 256

  /** Grid dimensions; the engine uses one fixed instance (`Instance`). */
  datatype Dims = Dims(xSize: int, ySize: int, zSize: int) {

    predicate Valid() { 0 < xSize && 0 < ySize && 0 < zSize }

    /** Cells in one z-plane. */
    function PlaneSize(): int { xSize * ySize }

    /** Cells in the whole buffer. */
    function Size(): int { PlaneSize() * zSize }
  }

  /** The dimensions the engine is built with: 300 x 300 x 1. */
  const Instance: Dims := Dims(300, 300, 1)

  /** The engine state: dimensions and the flat buffer. */
  datatype World = World(dims: Dims, cells: seq<byte>) {
    predicate Valid() { dims.Valid() && |cells| == dims.Size() }
  }

  lemma SizesArePositive(dims: Dims)
    requires dims.Valid()
    ensures dims.xSize <= dims.PlaneSize() && dims.ySize <= dims.PlaneSize()
    ensures dims.PlaneSize() <= dims.Size()
  {
    MulMonotone(1, dims.ySize, dims.xSize);
    MulMonotone(1, dims.xSize, dims.ySize);
    MulMonotone(1, dims.zSize, dims.PlaneSize());
  }

  /** A cell is alive when its index is inside the buffer and it holds 1;
      every index outside `[0, Size)` reads as dead. */
  function IsAlive(w: World, index: int): (alive: bool)
    requires w.Valid()
    ensures alive <==> 0 <= index < |w.cells| && w.cells[index] == 1
    ensures index < 0 || index >= w.dims.Size() ==> !alive
  {
    if index >= 0 then
      if index < w.dims.Size() then w.cells[index] == 1 else false
    else
      false
  }

  // Flat-index neighbour offsets.  None of them is bounds-checked.

  function Left(index: int): int { index - 1 }

  function Right(index: int): int { index + 1 }

  function Up(dims: Dims, index: int): int { index + dims.xSize }

  function Down(dims: Dims, index: int): int { index - dims.xSize }

  /** The previous z-plane (smaller Z). */
  function Before(dims: Dims, index: int): int { index - dims.PlaneSize() }

  /** The next z-plane (larger Z). */
  function Behind(dims: Dims, index: int): int { index + dims.PlaneSize() }

  /** The buffer layout: `x + y*xSize + z*xSize*ySize`.  Defined for every
      point, inside the box or not. */
  function Index(dims: Dims, c: Coordinate): int
  {
    c.x + c.y * dims.xSize + c.z * dims.PlaneSize()
  }

  predicate InBox(dims: Dims, c: Coordinate)
  {
    0 <= c.x < dims.xSize && 0 <= c.y < dims.ySize && 0 <= c.z < dims.zSize
  }

  /** The flat offsets are exactly the coordinate moves seen through the
      buffer layout.  The grid's `Before` (previous plane) corresponds to the
      point type's `Behind` (smaller Z), and the grid's `Behind` to the point
      type's `Before`. */
  lemma OffsetsFollowCoordinateMoves(dims: Dims, c: Coordinate)
    ensures Index(dims, c.Left()) == Left(Index(dims, c))
    ensures Index(dims, c.Right()) == Right(Index(dims, c))
    ensures Index(dims, c.Up()) == Up(dims, Index(dims, c))
    ensures Index(dims, c.Down()) == Down(dims, Index(dims, c))
    ensures Index(dims, c.Behind()) == Before(dims, Index(dims, c))
    ensures Index(dims, c.Before()) == Behind(dims, Index(dims, c))
  {
    assert (c.y + 1) * dims.xSize == c.y * dims.xSize + dims.xSize;
    assert (c.y - 1) * dims.xSize == c.y * dims.xSize - dims.xSize;
    assert (c.z + 1) * dims.PlaneSize() == c.z * dims.PlaneSize() + dims.PlaneSize();
    assert (c.z - 1) * dims.PlaneSize() == c.z * dims.PlaneSize() - dims.PlaneSize();
  }

  /** The two z-plane conventions never agree: stepping to larger Z on a
      point and stepping to the grid's `Before` plane land two planes apart. */
  lemma BeforeConventionsDiffer(dims: Dims, c: Coordinate)
    requires dims.Valid()
    ensures Index(dims, c.Before()) == Before(dims, Index(dims, c)) + 2 * dims.PlaneSize()
    ensures Index(dims, c.Before()) != Before(dims, Index(dims, c))
  {
    OffsetsFollowCoordinateMoves(dims, c);
    SizesArePositive(dims);
  }

  /** Stepping left from the first column lands on the last column of the
      previous row: the x-edges are not hard edges. */
  lemma LeftOfFirstColumnIsPreviousRow(dims: Dims, y: int, z: int)
    ensures Left(Index(dims, Coordinate(0, y, z)))
         == Index(dims, Coordinate(dims.xSize - 1, y - 1, z))
  {
    assert (y - 1) * dims.xSize == y * dims.xSize - dims.xSize;
  }

  /** Stepping right from the last column lands on the first column of the
      next row. */
  lemma RightOfLastColumnIsNextRow(dims: Dims, y: int, z: int)
    ensures Right(Index(dims, Coordinate(dims.xSize - 1, y, z)))
         == Index(dims, Coordinate(0, y + 1, z))
  {
    assert (y + 1) * dims.xSize == y * dims.xSize + dims.xSize;
  }

  // Integer division as C# performs it on `int`: the quotient is truncated
  // toward zero and the remainder takes the sign of the dividend.

  function CsDiv(a: int, b: int): int
    requires b > 0
  {
    if a >= 0 then a / b else -((-a) / b)
  }

  function CsRem(a: int, b: int): int
    requires b > 0
  {
    if a >= 0 then a % b else -((-a) % b)
  }

  lemma CsDivRem(a: int, b: int)
    requires b > 0
    ensures CsDiv(a, b) * b + CsRem(a, b) == a
    ensures 0 <= a ==> 0 <= CsDiv(a, b) && 0 <= CsRem(a, b) < b
  {
    var n := if a >= 0 then a else -a;
    var q, r := n / b, n % b;
    assert n == q * b + r && 0 <= r < b;
    if a < 0 {
      assert CsDiv(a, b) * b == -(q * b);
    }
  }

  /** Splits a flat index into (x, y, z) exactly as box placement does, with
      C#'s truncating `/` and `%`.  The result always recomposes to the index,
      and a buffer index always lands inside the box. */
  function Decompose(dims: Dims, index: int): (c: Coordinate)
    requires dims.Valid()
    ensures Index(dims, c) == index
    ensures 0 <= index < dims.Size() ==> InBox(dims, c)
  {
    SizesArePositive(dims);
    var z := CsDiv(index, dims.PlaneSize());
    var zRest := CsRem(index, dims.PlaneSize());
    var y := CsDiv(zRest, dims.xSize);
    var x := CsRem(zRest, dims.xSize);
    CsDivRem(index, dims.PlaneSize());
    CsDivRem(zRest, dims.xSize);
    DecomposeInBox(dims, index, x, y, z, zRest);
    Coordinate(x, y, z)
  }

  lemma DecomposeInBox(dims: Dims, index: int, x: int, y: int, z: int, zRest: int)
    requires dims.Valid()
    requires z * dims.PlaneSize() + zRest == index
    requires y * dims.xSize + x == zRest
    requires 0 <= index ==> 0 <= z && 0 <= zRest < dims.PlaneSize()
    requires 0 <= zRest ==> 0 <= y && 0 <= x < dims.xSize
    ensures x + y * dims.xSize + z * dims.PlaneSize() == index
    ensures 0 <= index < dims.Size() ==> 0 <= x < dims.xSize && 0 <= y < dims.ySize && 0 <= z < dims.zSize
  {
    if 0 <= index < dims.Size() {
      if z >= dims.zSize {
        MulMonotone(dims.zSize, z, dims.PlaneSize());
      }
      if y >= dims.ySize {
        MulMonotone(dims.ySize, y, dims.xSize);
      }
    }
  }

  /** Composition after decomposition is the identity on the box, so the
      layout is a bijection between the box and `[0, Size)`. */
  lemma DecomposeIndex(dims: Dims, c: Coordinate)
    requires dims.Valid() && InBox(dims, c)
    ensures 0 <= Index(dims, c) < dims.Size()
    ensures Decompose(dims, Index(dims, c)) == c
  {
    IndexInBox(dims, c);
    var i := Index(dims, c);
    var d := Decompose(dims, i);
    var rest := c.x + c.y * dims.xSize;
    RowOffsetInPlane(dims, c.x, c.y);
    DivUnique(i, dims.PlaneSize(), c.z, rest);
    DivUnique(rest, dims.xSize, c.y, c.x);
  }

  /** Within a plane, `x + y*xSize` enumerates `[0, PlaneSize)`. */
  lemma RowOffsetInPlane(dims: Dims, x: int, y: int)
    requires dims.Valid()
    requires 0 <= x < dims.xSize && 0 <= y < dims.ySize
    ensures 0 <= x + y * dims.xSize < dims.PlaneSize()
  {
    MulMonotone(y, dims.ySize - 1, dims.xSize);
    assert (dims.ySize - 1) * dims.xSize == dims.PlaneSize() - dims.xSize;
  }

  /** For a point whose x and y are inside the box, its flat index is inside
      the buffer exactly when its z is inside the box. */
  lemma IndexInRangeIffPlaneInRange(dims: Dims, c: Coordinate)
    requires dims.Valid()
    requires 0 <= c.x < dims.xSize && 0 <= c.y < dims.ySize
    ensures 0 <= Index(dims, c) < dims.Size() <==> 0 <= c.z < dims.zSize
  {
    RowOffsetInPlane(dims, c.x, c.y);
    var p := dims.PlaneSize();
    if c.z < 0 {
      MulMonotone(c.z, -1, p);
    } else if c.z >= dims.zSize {
      MulMonotone(dims.zSize, c.z, p);
    } else {
      MulMonotone(c.z, dims.zSize - 1, p);
      assert (dims.zSize - 1) * p == dims.Size() - p;
    }
  }

  /** The flat index of a point in the box lies in the buffer. */
  lemma IndexInBox(dims: Dims, c: Coordinate)
    requires dims.Valid() && InBox(dims, c)
    ensures 0 <= Index(dims, c) < dims.Size()
  {
    IndexInRangeIffPlaneInRange(dims, c);
  }

  lemma DivUnique(a: int, b: int, q: int, r: int)
    requires 0 <= a && b > 0 && 0 <= r < b && a == q * b + r
    ensures CsDiv(a, b) == q && CsRem(a, b) == r
  {
    var q', r' := a / b, a % b;
    assert a == q' * b + r' && 0 <= r' < b;
    Distribute(q, q', b);
    if q' < q {
      MulMonotone(1, q - q', b);
    } else if q < q' {
      MulMonotone(1, q' - q, b);
    }
  }

  lemma Distribute(q: int, q': int, b: int)
    ensures (q - q') * b == q * b - q' * b
  {
  }

  lemma MulMonotone(a: int, b: int, k: int)
    requires a <= b && 0 <= k
    ensures a * k <= b * k
  {
    assert b * k - a * k == (b - a) * k;
  }

  /** The centre of a live cell's display box: its coordinates shifted so the
      grid is centred on the origin, using C#'s truncating division for the
      half-sizes. */
  function BoxCenter(dims: Dims, index: int): (center: Coordinate)
    requires dims.Valid()
    ensures 0 <= index < dims.Size() ==>
      -(dims.xSize / 2) <= center.x < dims.xSize - dims.xSize / 2 &&
      -(dims.ySize / 2) <= center.y < dims.ySize - dims.ySize / 2 &&
      -(dims.zSize / 2) <= center.z < dims.zSize - dims.zSize / 2
  {
    var c := Decompose(dims, index);
    Coordinate(c.x - CsDiv(dims.xSize, 2), c.y - CsDiv(dims.ySize, 2), c.z - CsDiv(dims.zSize, 2))
  }
}
