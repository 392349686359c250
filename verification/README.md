# Game of Life engine — Dafny model

This project models the cellular-automaton engine of a small WPF Game of Life
application (`World` and `Coordinate`). The engine keeps a flat byte buffer of
`xSize*ySize*zSize` cells, laid out as `x + y*xSize + z*xSize*ySize`. The
application uses 300 × 300 × 1; here the dimensions are a parameter (`Grid.Dims`,
all positive) and `Grid.Instance` is that instance. The engine does these things:

- it probes a cell for liveness with a bounds check against the whole buffer (`IsAlive`);
- it counts live neighbours with 26 flat-index probes: 8 around the cell, 9 around
  `index - xSize*ySize` and 9 around `index + xSize*ySize`;
- it computes the next generation into a zero-filled scratch buffer, under Conway's
  rule (survive on 2 or 3, birth on 3), then takes the scratch buffer over and
  tallies its live cells;
- it lists the live cells in ascending index order;
- it clears the buffer and seeds it from random draws;
- it splits an index into (x, y, z) to place a display box, and picks a display
  shade from the neighbour count.

Modules: `Coordinates` (the point type and its six moves), `Grid` (dimensions,
buffer, `IsAlive`, flat offsets, index layout), `Neighbours` (probe counts and
the hard-edged reference count), `Census` (live tally and enumeration),
`Generation` (the step), `Seeding` (clearing and seeding).

**Flat arithmetic, not hard edges.** The probes are plain index offsets. They
are checked only against `[0, xSize*ySize*zSize)`, so the grid has no hard
edges and a depth-1 grid is not plain 2D Life:

- `Grid.LeftOfFirstColumnIsPreviousRow` and `Grid.RightOfLastColumnIsNextRow`:
  the x-edges wrap onto adjacent rows;
- `Neighbours.TopRowSeesBottomRow`: on the 300 × 300 × 1 grid, a top-row cell
  counts the bottom-row cell in its column;
- `Neighbours.InteriorCountIsMooreCount`: away from the x- and y-borders, on every
  z-plane, the count equals the hard-edged 3D Moore count.

The point type raises Z on `Before`. The grid's `Before` moves to the previous
plane (smaller Z). `Grid.OffsetsFollowCoordinateMoves` keeps the two conventions
apart, and `Grid.BeforeConventionsDiffer` shows that they never agree.

**Seeding.** `Seed` returns the draw count `c`, not the live tally. Draws may
repeat, and the live tally is proved to lie between 1 and `c`.

**State.** The engine updates its buffer field in place. The model passes the
state as an immutable `World` value: each operation returns the new `World`.

## Model

| member | source | states |
|---|---|---|
| Coordinates.MovesAreInverse | WpfApp1/Coordinate.cs:20-25 | Left/Right, Up/Down and Before/Behind undo each other, in both orders |
| Coordinates.MovesChangeOneAxis | WpfApp1/Coordinate.cs:20-25 | Left/Right move X by -1/+1, Up/Down move Y by +1/-1, Before/Behind move Z by +1/-1; the other two components stay the same |
| Coordinates.MovesOnDifferentAxesCommute | WpfApp1/Coordinate.cs:20-25 | moves on different axes can be applied in either order (all twelve pairs) |
| Grid.IsAlive | WpfApp1/World.cs:180-194 | true exactly when the index lies in `[0, Size)` and that cell holds 1; every index outside the buffer reads as dead |
| Grid.OffsetsFollowCoordinateMoves | WpfApp1/World.cs:138-166 | each flat offset is a coordinate move seen through the layout; the grid's Before/Behind match the point type's Behind/Before |
| Grid.BeforeConventionsDiffer | WpfApp1/World.cs:158-161 | the grid's `Before` (previous plane) and the point type's `Before` (larger Z) land two planes apart, so they never agree |
| Grid.LeftOfFirstColumnIsPreviousRow | WpfApp1/World.cs:138-141 | `Left` of an x = 0 cell is the cell (xSize-1, y-1): no hard edge at x = 0 |
| Grid.RightOfLastColumnIsNextRow | WpfApp1/World.cs:143-146 | `Right` of an x = xSize-1 cell is the cell (0, y+1) |
| Grid.IndexInRangeIffPlaneInRange | WpfApp1/World.cs:180-194 | for a point whose x and y are inside the grid, the bounds check passes exactly when its z is inside the grid |
| Grid.Decompose | WpfApp1/World.cs:60-65 | with C#'s truncating `/` and `%`, x + y*xSize + z*xSize*ySize gives back the index for every int; a buffer index gives 0<=x<xSize, 0<=y<ySize, 0<=z<zSize |
| Grid.DecomposeIndex | WpfApp1/World.cs:60-65 | decomposing the flat index of an in-grid point gives that point back, so the layout is a bijection between the grid and `[0, Size)` |
| Grid.BoxCenter | WpfApp1/World.cs:67-69 | the box centre of a buffer index lies in `[-size/2, size - size/2)` on each axis |
| Neighbours.NumberOfLiveNeighboursInThisPlane | WpfApp1/World.cs:168-178 | the eight in-plane probes give a count between 0 and 8 |
| Neighbours.PlaneCountIsProbeCount | WpfApp1/World.cs:168-178 | the in-plane count is the number of live probes among the eight offsets Left, Right, Up, Down, Up∘Left, Down∘Left, Up∘Right, Down∘Right |
| Neighbours.NumberOfLiveNeighbours | WpfApp1/World.cs:129-136 | the 26-probe count is between 0 and 26 |
| Neighbours.NeighbourCountIsProbeCount | WpfApp1/World.cs:129-178 | the count is the number of live probes among the 26 flat indices: 8 around the cell, 8 around Before plus Before, 8 around Behind plus Behind |
| Neighbours.ProbesAreIndicesOfMooreNeighbours | WpfApp1/World.cs:129-178 | for every point `c`, the 26 probes around its flat index are, position by position, the flat indices of `MooreNeighbours(c)` |
| Neighbours.MooreNeighboursAreMoore | WpfApp1/World.cs:129-178 | `MooreNeighbours(c)`, the coordinate counterpart of the 26 probes, lists exactly the 26 points within one step of `c` on every axis, other than `c` itself |
| Neighbours.InteriorCountIsMooreCount | WpfApp1/World.cs:129-194 | for a cell with 1 <= x < xSize-1 and 1 <= y < ySize-1, on any z-plane, the count equals the hard-edged Moore count, where neighbours outside the grid are dead |
| Neighbours.TopRowSeesBottomRow | WpfApp1/World.cs:129-136 | on 300×300×1, with only the bottom cell (x, 0) alive, the top cell (x, 299) counts 1 neighbour, while its hard-edged Moore count is 0 |
| Neighbours.ColorByNeighbours | WpfApp1/World.cs:74-82 | light blue exactly when the count is below 2, red exactly when it is above 3, blue exactly when it is 2 or 3 |
| Generation.NextState | WpfApp1/World.cs:91-111 | the written cell is 0 or 1, and it is 1 exactly when (alive and n ∈ {2,3}) or (dead and n = 3) |
| Generation.WriteNextState | WpfApp1/World.cs:91-111 | the branches for one cell leave the scratch cell equal to its next state (writing 0 or 1, or keeping the initial 0) and touch no other cell |
| Generation.NextGeneration | WpfApp1/World.cs:86-112 | the next generation keeps the dimensions and the buffer length |
| Generation.NextGenerationRule | WpfApp1/World.cs:88-112 | every cell of the next generation is 0 or 1; it is 1 exactly when the rule holds for the old cell and its count on the old buffer |
| Generation.FillNextGen | WpfApp1/World.cs:86-112 | the first pass fills every scratch cell with that cell's next state, computed only from the current buffer |
| Generation.CalculateNextGen | WpfApp1/World.cs:84-126 | the new buffer has the same length, cells in {0,1}, and each cell follows the rule on counts from the old buffer; the returned count is the number of 1s in the new buffer |
| Generation.ExtinctStaysExtinct | WpfApp1/World.cs:88-111 | on a grid with no live cell every count is 0, and the next generation has no live cell |
| Generation.ExtinctForever | WpfApp1/World.cs:84-126 | a grid with no live cell has none after any number of steps |
| Generation.IsolatedCellDies | WpfApp1/World.cs:93-96 | a live cell with no live neighbour is 0 in the next generation |
| Generation.ShadeForetellsSurvival | WpfApp1/World.cs:74-107 | a live cell's shade is blue exactly when the cell survives the next step |
| Census.LiveCountIsCardinality | WpfApp1/World.cs:114-123 | the tally of 1s equals the number of indices holding 1 |
| Census.LiveCells | WpfApp1/World.cs:19-31 | yields exactly the indices holding 1, strictly ascending, as many as the tally |
| Seeding.KillAllCells | WpfApp1/World.cs:50-56 | every cell is 0 afterwards, length unchanged, tally 0 |
| Seeding.Seed | WpfApp1/World.cs:34-48 | returns the draw c with 20 <= c < Size/10 (c = 20 when the bounds meet); cells are in {0,1}; a cell is 1 exactly when its index was drawn; the tally is between 1 and c |
| Seeding.SeededTallyBounds | WpfApp1/World.cs:40-44 | when the live cells are exactly the drawn indices, the tally is at least 1 and at most the number of draws, because repeated draws collapse |

## Left out

- The view model (timer ticking, commands, property-change notification, display collection, generation counter): it is UI plumbing and never calls the engine.
- HelixToolkit/WPF objects in box placement and shading (`BoxVisual3D`, `Point3D`, brushes, colours): only the index decomposition, the integer box centre and a three-valued `Shade` remain. The centre is kept as integers; the conversion to `double` is not modelled.
- `System.Random`: replaced by the sequence of values it returns (`rng`), constrained to the ranges `Next` can produce with its exclusive upper bound. Seeding requires `Size/10 >= 20`, because below that `Next(20, Size/10)` throws; that exception is not modelled.
- Fixed-width `int` overflow: arithmetic is unbounded. For the 300 × 300 × 1 instance every index and probe lies within ±181 000, far from overflow.
- Laziness of the live-cell enumerator: it is modelled as a method returning the whole sequence.
- In-place buffer mutation: modelled as returning a new `World` value; the scratch buffer is a local array.
- Blinker and 2 × 2 block scenarios: not proved. `Neighbours.InteriorCountIsMooreCount` reduces interior cells to the hard-edged count, but no concrete pattern is evaluated.
