/** Clearing the buffer and seeding it with a random pattern.

    The engine's pseudo-random generator is replaced by the sequence of
    values it returns, `rng`: `rng[0]` answers the draw of the pattern size
    and `rng[1..]` the draws of cell indices, in call order. */
module Seeding {
  import opened Grid
  import opened Census

  /** The values `Random.Next(lo, hi)` can return when `lo <= hi`: `lo` when
      the bounds are equal, otherwise `lo <= v < hi` (upper bound exclusive). */
  predicate NextInRange(v: int, lo: int, hi: int)
    requires lo <= hi
  {
    if lo == hi then v == lo else lo <= v < hi
  }

  /** The pattern size draw is `Next(20, Size/10)` and the `c` index draws
      that follow are each `Next(0, Size)`. */
  predicate RandomDraws(dims: Dims, rng: seq<int>)
    requires dims.Valid() && 20 <= dims.Size() / 10
  {
    && 1 <= |rng|
    && NextInRange(rng[0], 20, dims.Size() / 10)
    && rng[0] < |rng|
    && forall k :: 1 <= k <= rng[0] ==> NextInRange(rng[k], 0, dims.Size())
  }

  /** Sets every cell to 0. */
  method KillAllCells(w: World) returns (cleared: World)
    requires w.Valid()
    ensures cleared.Valid() && cleared.dims == w.dims
    ensures forall i :: 0 <= i < |cleared.cells| ==> cleared.cells[i] == 0
    ensures LiveCount(cleared.cells) == 0
  {
    var size := w.dims.Size();
    var cells := new byte[size](i requires 0 <= i < size reads {} => w.cells[i]);
    for i := 0 to size
      invariant forall j :: 0 <= j < i ==> cells[j] == 0
    {
      cells[i] := 0;
    }
    cleared := World(w.dims, cells[..]);
    LiveCountZeroIffNoneLive(cleared.cells);
  }

  /** Clears the buffer, draws the pattern size `c`, then sets `c` drawn
      indices to 1.  Draws may repeat, so the live tally can fall short of
      `c`; the returned value is `c` itself. */
  method Seed(w: World, rng: seq<int>) returns (seeded: World, c: int)
    requires w.Valid() && 20 <= w.dims.Size() / 10
    requires RandomDraws(w.dims, rng)
    ensures seeded.Valid() && seeded.dims == w.dims
    ensures c == rng[0]
    ensures 20 <= c <= w.dims.Size() / 10
    ensures 20 < w.dims.Size() / 10 ==> c < w.dims.Size() / 10
    ensures forall i :: 0 <= i < |seeded.cells| ==> seeded.cells[i] == 0 || seeded.cells[i] == 1
    ensures forall i :: 0 <= i < |seeded.cells| ==> (seeded.cells[i] == 1 <==> i in rng[1..c + 1])
    ensures 1 <= LiveCount(seeded.cells) <= c
  {
    var cleared := KillAllCells(w);
    var size := w.dims.Size();
    var cells := new byte[size](i requires 0 <= i < size reads {} => cleared.cells[i]);
    c := rng[0];
    for i := 0 to c
      invariant forall j :: 0 <= j < size ==> cells[j] == 0 || cells[j] == 1
      invariant forall j :: 0 <= j < size ==> (cells[j] == 1 <==> j in rng[1..i + 1])
    {
      var index := rng[i + 1];
      assert rng[1..i + 2] == rng[1..i + 1] + [index];
      cells[index] := 1;
    }
    seeded := World(w.dims, cells[..]);
    SeededTallyBounds(seeded.cells, rng[1..c + 1]);
  }

  /** When the live cells are exactly the drawn indices, the tally is at
      least one (if anything was drawn) and at most the number of draws. */
  lemma SeededTallyBounds(cells: seq<byte>, draws: seq<int>)
    requires 1 <= |draws|
    requires forall k :: 0 <= k < |draws| ==> 0 <= draws[k] < |cells|
    requires forall i :: 0 <= i < |cells| ==> (cells[i] == 1 <==> i in draws)
    ensures 1 <= LiveCount(cells) <= |draws|
  {
    LiveCountIsCardinality(cells);
    assert LiveSet(cells) == set d | d in draws;
    assert draws[0] in LiveSet(cells);
    DistinctAtMostLength(draws);
  }

  lemma {:induction false} DistinctAtMostLength(s: seq<int>)
    ensures |set d | d in s| <= |s|
  {
    if |s| > 0 {
      var rest := s[1..];
      DistinctAtMostLength(rest);
      assert (set d | d in s) == (set d | d in rest) + {s[0]};
    }
  }
}
