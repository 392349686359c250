/** The 26-probe neighbour count built from flat-index offsets, its relation
    to the hard-edged 3D Moore neighbourhood, and the three-way classification
    of a cell by its neighbour count. */
module Neighbours {
  import opened Coordinates
  import opened Grid

  /** The eight in-plane probes, in the order the engine sums them. */
  function PlaneProbes(dims: Dims, index: int): seq<int>
  {
    [Left(index), Right(index), Up(dims, index), Down(dims, index),
     Up(dims, Left(index)), Down(dims, Left(index)),
     Up(dims, Right(index)), Down(dims, Right(index))]
  }

  /** All 26 probes: the plane around the cell, the plane around the cell's
      `Before` index plus that index itself, then the same for `Behind`. */
  function NeighbourProbes(dims: Dims, index: int): seq<int>
  {
    PlaneProbes(dims, index)
    + PlaneProbes(dims, Before(dims, index)) + [Before(dims, index)]
    + PlaneProbes(dims, Behind(dims, index)) + [Behind(dims, index)]
  }

  function Bit(b: bool): nat { if b then 1 else 0 }

  /** Live cells among the eight in-plane probes around `index`. */
  function NumberOfLiveNeighboursInThisPlane(w: World, index: int): (n: nat)
    requires w.Valid()
    ensures n <= 8
  {
    Bit(IsAlive(w, Left(index))) +
    Bit(IsAlive(w, Right(index))) +
    Bit(IsAlive(w, Up(w.dims, index))) +
    Bit(IsAlive(w, Down(w.dims, index))) +
    Bit(IsAlive(w, Up(w.dims, Left(index)))) +
    Bit(IsAlive(w, Down(w.dims, Left(index)))) +
    Bit(IsAlive(w, Up(w.dims, Right(index)))) +
    Bit(IsAlive(w, Down(w.dims, Right(index))))
  }

  /** Live cells among the 26 probes around `index`. */
  function NumberOfLiveNeighbours(w: World, index: int): (n: nat)
    requires w.Valid()
    ensures n <= 26
  {
    NumberOfLiveNeighboursInThisPlane(w, index) +
    NumberOfLiveNeighboursInThisPlane(w, Before(w.dims, index)) +
    Bit(IsAlive(w, Before(w.dims, index))) +
    NumberOfLiveNeighboursInThisPlane(w, Behind(w.dims, index)) +
    Bit(IsAlive(w, Behind(w.dims, index)))
  }

  /** How many of the given flat indices probe alive. */
  function CountAlive(w: World, probes: seq<int>): (n: nat)
    requires w.Valid()
    ensures n <= |probes|
  {
    if |probes| == 0 then 0
    else Bit(IsAlive(w, probes[0])) + CountAlive(w, probes[1..])
  }

  lemma {:induction false} CountAliveConcat(w: World, a: seq<int>, b: seq<int>)
    requires w.Valid()
    ensures CountAlive(w, a + b) == CountAlive(w, a) + CountAlive(w, b)
  {
    if |a| == 0 {
      assert a + b == b;
    } else {
      assert (a + b)[1..] == a[1..] + b;
      CountAliveConcat(w, a[1..], b);
    }
  }

  lemma CountAliveSingle(w: World, p: int)
    requires w.Valid()
    ensures CountAlive(w, [p]) == Bit(IsAlive(w, p))
  {
    assert [p][1..] == [];
  }

  /** Counting a suffix peels off its first probe. */
  lemma CountAliveSuffix(w: World, probes: seq<int>, k: int)
    requires w.Valid() && 0 <= k < |probes|
    ensures CountAlive(w, probes[k..]) == Bit(IsAlive(w, probes[k])) + CountAlive(w, probes[k + 1..])
  {
    assert probes[k..][1..] == probes[k + 1..];
  }

  /** The in-plane count is the number of live probes among the eight
      in-plane offsets. */
  lemma PlaneCountIsProbeCount(w: World, index: int)
    requires w.Valid()
    ensures NumberOfLiveNeighboursInThisPlane(w, index) == CountAlive(w, PlaneProbes(w.dims, index))
  {
    var ps := PlaneProbes(w.dims, index);
    assert ps[0..] == ps && ps[8..] == [];
    CountAliveSuffix(w, ps, 0);
    CountAliveSuffix(w, ps, 1);
    CountAliveSuffix(w, ps, 2);
    CountAliveSuffix(w, ps, 3);
    CountAliveSuffix(w, ps, 4);
    CountAliveSuffix(w, ps, 5);
    CountAliveSuffix(w, ps, 6);
    CountAliveSuffix(w, ps, 7);
  }

  /** The neighbour count is exactly the number of live probes among the 26
      flat indices of `NeighbourProbes`. */
  lemma NeighbourCountIsProbeCount(w: World, index: int)
    requires w.Valid()
    ensures |NeighbourProbes(w.dims, index)| == 26
    ensures NumberOfLiveNeighbours(w, index) == CountAlive(w, NeighbourProbes(w.dims, index))
  {
    var d := w.dims;
    var b, h := Before(d, index), Behind(d, index);
    PlaneCountIsProbeCount(w, index);
    PlaneCountIsProbeCount(w, b);
    PlaneCountIsProbeCount(w, h);
    CountAliveSingle(w, b);
    CountAliveSingle(w, h);
    CountAliveConcat(w, PlaneProbes(d, index) + PlaneProbes(d, b) + [b] + PlaneProbes(d, h), [h]);
    CountAliveConcat(w, PlaneProbes(d, index) + PlaneProbes(d, b) + [b], PlaneProbes(d, h));
    CountAliveConcat(w, PlaneProbes(d, index) + PlaneProbes(d, b), [b]);
    CountAliveConcat(w, PlaneProbes(d, index), PlaneProbes(d, b));
  }

  // The hard-edged reference: the 3D Moore neighbourhood on coordinates.

  /** The eight in-plane neighbours of a point, in the order of `PlaneProbes`. */
  function PlaneNeighbours(c: Coordinate): seq<Coordinate>
  {
    [c.Left(), c.Right(), c.Up(), c.Down(),
     c.Left().Up(), c.Left().Down(), c.Right().Up(), c.Right().Down()]
  }

  /** The 26 neighbours of a point, in the order of `NeighbourProbes`.  The
      grid's `Before` plane is the plane of smaller Z, reached by the point
      type's `Behind` move. */
  function MooreNeighbours(c: Coordinate): seq<Coordinate>
  {
    PlaneNeighbours(c)
    + PlaneNeighbours(c.Behind()) + [c.Behind()]
    + PlaneNeighbours(c.Before()) + [c.Before()]
  }

  /** `d` differs from `c` by at most one on every axis, and is not `c`. */
  predicate IsMooreNeighbour(c: Coordinate, d: Coordinate)
  {
    -1 <= d.x - c.x <= 1 && -1 <= d.y - c.y <= 1 && -1 <= d.z - c.z <= 1 && d != c
  }

  /** Every point of `c`'s plane within one step on both axes, other than
      `c` itself, is one of its eight plane neighbours. */
  lemma PlaneNeighboursCover(c: Coordinate, d: Coordinate)
    requires d.z == c.z && -1 <= d.x - c.x <= 1 && -1 <= d.y - c.y <= 1 && d != c
    ensures d in PlaneNeighbours(c)
  {
  }

  /** `MooreNeighbours` lists exactly the 26 Moore neighbours of a point. */
  lemma MooreNeighboursAreMoore(c: Coordinate)
    ensures |MooreNeighbours(c)| == 26
    ensures forall d :: d in MooreNeighbours(c) <==> IsMooreNeighbour(c, d)
  {
    var ns := MooreNeighbours(c);
    forall k | 0 <= k < |ns|
      ensures IsMooreNeighbour(c, ns[k])
    {
    }
    forall d | IsMooreNeighbour(c, d)
      ensures d in ns
    {
      var plane := if d.z < c.z then c.Behind() else if d.z == c.z then c else c.Before();
      if d != plane {
        PlaneNeighboursCover(plane, d);
      }
    }
  }

  /** The flat indices of a sequence of points. */
  function Indices(dims: Dims, cs: seq<Coordinate>): (ps: seq<int>)
    ensures |ps| == |cs|
    ensures forall k :: 0 <= k < |cs| ==> ps[k] == Index(dims, cs[k])
  {
    seq(|cs|, k requires 0 <= k < |cs| => Index(dims, cs[k]))
  }

  lemma IndicesOfPlane(dims: Dims, c: Coordinate)
    ensures PlaneProbes(dims, Index(dims, c)) == Indices(dims, PlaneNeighbours(c))
  {
    OffsetsFollowCoordinateMoves(dims, c);
    OffsetsFollowCoordinateMoves(dims, c.Left());
    OffsetsFollowCoordinateMoves(dims, c.Right());
  }

  /** For every point, in the box or not, the 26 probes around its flat index
      are the flat indices of its 26 Moore neighbours, position by position.
      Outside the interior those flat indices may name cells that are not
      neighbours at all; see the wrap-around lemmas below. */
  lemma ProbesAreIndicesOfMooreNeighbours(dims: Dims, c: Coordinate)
    ensures NeighbourProbes(dims, Index(dims, c)) == Indices(dims, MooreNeighbours(c))
  {
    OffsetsFollowCoordinateMoves(dims, c);
    IndicesOfPlane(dims, c);
    IndicesOfPlane(dims, c.Behind());
    IndicesOfPlane(dims, c.Before());
    var b, f := c.Behind(), c.Before();
    assert Indices(dims, MooreNeighbours(c))
        == Indices(dims, PlaneNeighbours(c)) + Indices(dims, PlaneNeighbours(b)) + [Index(dims, b)]
           + Indices(dims, PlaneNeighbours(f)) + [Index(dims, f)];
  }

  /** Hard-edge liveness of a point: inside the box and holding 1. */
  predicate LiveAt(w: World, c: Coordinate)
    requires w.Valid()
  {
    InBox(w.dims, c) && (IndexInBox(w.dims, c); w.cells[Index(w.dims, c)] == 1)
  }

  /** How many of the given points are live under hard edges. */
  function CountLiveAt(w: World, cs: seq<Coordinate>): (n: nat)
    requires w.Valid()
    ensures n <= |cs|
  {
    if |cs| == 0 then 0
    else Bit(LiveAt(w, cs[0])) + CountLiveAt(w, cs[1..])
  }

  /** Probing by flat index agrees with hard-edge liveness for every point
      whose x and y are inside the box: only z can leave the box, and that
      always leaves the buffer too. */
  lemma {:induction false} ProbesAgreeWithinRows(w: World, cs: seq<Coordinate>)
    requires w.Valid()
    requires forall k :: 0 <= k < |cs| ==> 0 <= cs[k].x < w.dims.xSize && 0 <= cs[k].y < w.dims.ySize
    ensures CountAlive(w, Indices(w.dims, cs)) == CountLiveAt(w, cs)
  {
    if |cs| > 0 {
      IndexInRangeIffPlaneInRange(w.dims, cs[0]);
      assert Indices(w.dims, cs)[1..] == Indices(w.dims, cs[1..]);
      ProbesAgreeWithinRows(w, cs[1..]);
    }
  }

  /** Away from the x- and y-borders (and on any z-plane, including the
      first and the last) the engine's count is the hard-edged 3D Moore
      count: neighbours outside the box count as dead. */
  lemma InteriorCountIsMooreCount(w: World, c: Coordinate)
    requires w.Valid() && InBox(w.dims, c)
    requires 1 <= c.x < w.dims.xSize - 1 && 1 <= c.y < w.dims.ySize - 1
    ensures NumberOfLiveNeighbours(w, Index(w.dims, c)) == CountLiveAt(w, MooreNeighbours(c))
  {
    NeighbourCountIsProbeCount(w, Index(w.dims, c));
    ProbesAreIndicesOfMooreNeighbours(w.dims, c);
    MooreNeighboursAreMoore(c);
    var ns := MooreNeighbours(c);
    forall k | 0 <= k < |ns|
      ensures 0 <= ns[k].x < w.dims.xSize && 0 <= ns[k].y < w.dims.ySize
    {
      assert ns[k] in ns;
    }
    ProbesAgreeWithinRows(w, ns);
  }

  /** On the engine's 300 x 300 x 1 grid a top-row cell counts the bottom-row
      cell in its own column: the probe `Up(Before(i))` lands back inside the
      buffer.  With only that bottom cell alive, the top cell's count is 1
      although its hard-edged Moore count is 0. */
  lemma TopRowSeesBottomRow(w: World, x: int)
    requires w.Valid() && w.dims == Instance
    requires 0 <= x < 300
    requires forall j :: 0 <= j < |w.cells| ==> (w.cells[j] == 1 <==> j == x)
    ensures Index(Instance, Coordinate(x, 299, 0)) == 89700 + x
    ensures NumberOfLiveNeighbours(w, 89700 + x) == 1
    ensures CountLiveAt(w, MooreNeighbours(Coordinate(x, 299, 0))) == 0
  {
    var c := Coordinate(x, 299, 0);
    var ns := MooreNeighbours(c);
    MooreNeighboursAreMoore(c);
    forall k | 0 <= k < |ns|
      ensures !LiveAt(w, ns[k])
    {
      assert ns[k] in ns;
      if InBox(Instance, ns[k]) {
        assert Index(Instance, ns[k]) >= 298 * 300;
      }
    }
    NoneLive(w, ns);
  }

  lemma {:induction false} NoneLive(w: World, cs: seq<Coordinate>)
    requires w.Valid()
    requires forall k :: 0 <= k < |cs| ==> !LiveAt(w, cs[k])
    ensures CountLiveAt(w, cs) == 0
  {
    if |cs| > 0 {
      NoneLive(w, cs[1..]);
    }
  }

  /** The display shade of a cell, chosen from its neighbour count. */
  datatype Shade = LightBlue | Blue | Red

  /** Fewer than two neighbours: light blue; more than three: red; two or
      three: blue. */
  function ColorByNeighbours(w: World, index: int): (s: Shade)
    requires w.Valid()
    ensures s == LightBlue <==> NumberOfLiveNeighbours(w, index) < 2
    ensures s == Red <==> NumberOfLiveNeighbours(w, index) > 3
    ensures s == Blue <==> NumberOfLiveNeighbours(w, index) in {2, 3}
  {
    var n := NumberOfLiveNeighbours(w, index);
    if n < 2 then LightBlue
    else if n > 3 then Red
    else Blue
  }
}
