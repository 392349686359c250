/** The double-buffered generation step under Conway's rule: a live cell
    survives with two or three live neighbours, a dead cell is born with
    exactly three, every other cell is dead in the next generation. */
module Generation {
  import opened Grid
  import opened Neighbours
  import opened Census

  /** The next state of one cell, branch for branch as the step writes it
      into a zero-filled scratch buffer.  The step's last test on a live
      cell (more than three neighbours) can no longer fail there, so it is
      written as the final `else`. */
  function NextState(alive: bool, n: int): (b: byte)
    ensures b == 0 || b == 1
    ensures b == 1 <==> (alive && (n == 2 || n == 3)) || (!alive && n == 3)
  {
    if alive then
      if n < 2 then 0
      else if n == 2 || n == 3 then 1
      else 0
    else if n == 3 then 1
    else 0
  }

  /** The next state of cell `i`, from its state and neighbour count in
      the current buffer. */
  function NextCell(w: World, i: int): byte
    requires w.Valid() && 0 <= i < |w.cells|
  {
    NextState(w.cells[i] == 1, NumberOfLiveNeighbours(w, i))
  }

  /** The next generation as a whole: every cell's next state computed from
      the current buffer only. */
  function NextGeneration(w: World): (next: World)
    requires w.Valid()
    ensures next.Valid() && next.dims == w.dims
  {
    World(w.dims, seq(|w.cells|, i requires 0 <= i < |w.cells| => NextCell(w, i)))
  }

  /** The rule, cell by cell, for the whole next generation: a cell is 1
      exactly when it was alive with two or three live neighbours or dead
      with exactly three; every other cell is 0. */
  lemma NextGenerationRule(w: World)
    requires w.Valid()
    ensures forall i :: 0 <= i < |w.cells| ==>
      NextGeneration(w).cells[i] == 0 || NextGeneration(w).cells[i] == 1
    ensures forall i :: 0 <= i < |w.cells| ==>
      (NextGeneration(w).cells[i] == 1 <==>
        (w.cells[i] == 1 && NumberOfLiveNeighbours(w, i) in {2, 3}) ||
        (w.cells[i] != 1 && NumberOfLiveNeighbours(w, i) == 3))
  {
    forall i | 0 <= i < |w.cells|
      ensures NextGeneration(w).cells[i] == NextCell(w, i)
    {
    }
  }

  /** One step: fill a scratch buffer from neighbour counts on the current
      buffer, then take it over as the new buffer while tallying its live
      cells. */
  method CalculateNextGen(w: World) returns (next: World, count: nat)
    requires w.Valid()
    ensures next.Valid() && next.dims == w.dims
    ensures forall i :: 0 <= i < |next.cells| ==> next.cells[i] == 0 || next.cells[i] == 1
    ensures forall i :: 0 <= i < |next.cells| ==>
      (next.cells[i] == 1 <==>
        (w.cells[i] == 1 && NumberOfLiveNeighbours(w, i) in {2, 3}) ||
        (w.cells[i] != 1 && NumberOfLiveNeighbours(w, i) == 3))
    ensures next == NextGeneration(w)
    ensures count == LiveCount(next.cells)
  {
    var nextGenCells := FillNextGen(w);
    count := 0;
    for index := 0 to |nextGenCells|
      invariant count == LiveCount(nextGenCells[..index])
    {
      assert nextGenCells[..index + 1][..index] == nextGenCells[..index];
      if nextGenCells[index] == 1 {
        count := count + 1;
      }
    }
    assert nextGenCells[..|nextGenCells|] == nextGenCells;
    next := World(w.dims, nextGenCells);
    assert next == NextGeneration(w);
    NextGenerationRule(w);
  }

  /** The first pass of the step: a zero-filled scratch buffer receives each
      cell's next state, computed against the current buffer. */
  method FillNextGen(w: World) returns (nextGenCells: seq<byte>)
    requires w.Valid()
    ensures |nextGenCells| == |w.cells|
    ensures forall j :: 0 <= j < |w.cells| ==> nextGenCells[j] == NextCell(w, j)
  {
    var size := w.dims.Size();
    var scratch := new byte[size](_ => 0);
    for index := 0 to size
      invariant forall j :: 0 <= j < index ==> scratch[j] == NextCell(w, j)
      invariant forall j :: index <= j < size ==> scratch[j] == 0
    {
      var numberOfLiveNeighbours := NumberOfLiveNeighbours(w, index);
      WriteNextState(scratch, index, w.cells[index] == 1, numberOfLiveNeighbours);
    }
    nextGenCells := scratch[..];
  }

  /** The branches of the step for one cell: they write the cell's next
      state into the zero-filled scratch buffer, or leave its 0 in place. */
  method WriteNextState(scratch: array<byte>, index: int, alive: bool, numberOfLiveNeighbours: int)
    requires 0 <= index < scratch.Length && scratch[index] == 0
    modifies scratch
    ensures scratch[index] == NextState(alive, numberOfLiveNeighbours)
    ensures forall j :: 0 <= j < scratch.Length && j != index ==> scratch[j] == old(scratch[j])
  {
    if alive {
      if numberOfLiveNeighbours < 2 {
        scratch[index] := 0;
      } else if numberOfLiveNeighbours == 2 || numberOfLiveNeighbours == 3 {
        scratch[index] := 1;
      } else if numberOfLiveNeighbours > 3 {
        scratch[index] := 0;
      }
    } else if numberOfLiveNeighbours == 3 {
      scratch[index] := 1;
    }
  }

  /** `k` successive generations. */
  function Iterate(w: World, k: nat): (later: World)
    requires w.Valid()
    ensures later.Valid() && later.dims == w.dims
    decreases k
  {
    if k == 0 then w else Iterate(NextGeneration(w), k - 1)
  }

  /** With no live cell every neighbour count is 0, so nothing is born. */
  lemma ExtinctStaysExtinct(w: World)
    requires w.Valid() && Extinct(w.cells)
    ensures Extinct(NextGeneration(w).cells)
    ensures forall i :: 0 <= i < |w.cells| ==> NumberOfLiveNeighbours(w, i) == 0
  {
    forall i | 0 <= i < |w.cells|
      ensures NumberOfLiveNeighbours(w, i) == 0
    {
      NeighbourCountIsProbeCount(w, i);
      NoProbeAlive(w, NeighbourProbes(w.dims, i));
    }
  }

  lemma {:induction false} NoProbeAlive(w: World, probes: seq<int>)
    requires w.Valid() && Extinct(w.cells)
    ensures CountAlive(w, probes) == 0
  {
    if |probes| > 0 {
      NoProbeAlive(w, probes[1..]);
    }
  }

  /** An extinct grid stays extinct for any number of generations. */
  lemma {:induction false} ExtinctForever(w: World, k: nat)
    requires w.Valid() && Extinct(w.cells)
    ensures Extinct(Iterate(w, k).cells)
    decreases k
  {
    if k > 0 {
      ExtinctStaysExtinct(w);
      ExtinctForever(NextGeneration(w), k - 1);
    }
  }

  /** A live cell with no live neighbour dies of underpopulation. */
  lemma IsolatedCellDies(w: World, i: int)
    requires w.Valid() && 0 <= i < |w.cells| && w.cells[i] == 1
    requires NumberOfLiveNeighbours(w, i) == 0
    ensures NextGeneration(w).cells[i] == 0
  {
  }

  /** The display shade of a live cell foretells its fate: blue cells
      survive the next step, light-blue and red cells die in it. */
  lemma ShadeForetellsSurvival(w: World, i: int)
    requires w.Valid() && 0 <= i < |w.cells| && w.cells[i] == 1
    ensures ColorByNeighbours(w, i) == Blue <==> NextGeneration(w).cells[i] == 1
    ensures ColorByNeighbours(w, i) != Blue ==> NextGeneration(w).cells[i] == 0
  {
  }
}
