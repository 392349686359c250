/** Counting and enumerating the live cells of a buffer. */
module Census {
  import opened Grid

  /** The number of cells holding 1, counted from the front. */
  function LiveCount(cells: seq<byte>): (n: nat)
    ensures n <= |cells|
  {
    if |cells| == 0 then 0
    else LiveCount(cells[..|cells| - 1]) + (if cells[|cells| - 1] == 1 then 1 else 0)
  }

  /** The indices of the cells holding 1. */
  ghost function LiveSet(cells: seq<byte>): set<int>
  {
    set i | 0 <= i < |cells| && cells[i] == 1
  }

  /** The tally is the size of the live set. */
  lemma {:induction false} LiveCountIsCardinality(cells: seq<byte>)
    ensures LiveCount(cells) == |LiveSet(cells)|
  {
    if |cells| > 0 {
      var n := |cells| - 1;
      var prefix := cells[..n];
      LiveCountIsCardinality(prefix);
      if cells[n] == 1 {
        assert LiveSet(cells) == LiveSet(prefix) + {n};
        assert n !in LiveSet(prefix);
      } else {
        assert LiveSet(cells) == LiveSet(prefix);
      }
    }
  }

  /** No cell of the buffer holds 1. */
  predicate Extinct(cells: seq<byte>)
  {
    forall i :: 0 <= i < |cells| ==> cells[i] != 1
  }

  /** A buffer with no cell holding 1 has tally 0, and conversely. */
  lemma LiveCountZeroIffNoneLive(cells: seq<byte>)
    ensures LiveCount(cells) == 0 <==> Extinct(cells)
  {
    LiveCountIsCardinality(cells);
    if LiveCount(cells) == 0 {
      assert LiveSet(cells) == {};
    } else {
      var i :| i in LiveSet(cells);
    }
  }

  /** The live-cell enumerator: every index holding 1, ascending. */
  method LiveCells(w: World) returns (live: seq<int>)
    requires w.Valid()
    ensures forall a, b :: 0 <= a < b < |live| ==> live[a] < live[b]
    ensures forall i :: i in live <==> 0 <= i < |w.cells| && w.cells[i] == 1
    ensures |live| == LiveCount(w.cells)
  {
    live := [];
    for i := 0 to w.dims.Size()
      invariant forall a, b :: 0 <= a < b < |live| ==> live[a] < live[b]
      invariant forall a :: 0 <= a < |live| ==> live[a] < i
      invariant forall j :: j in live <==> 0 <= j < i && w.cells[j] == 1
      invariant |live| == LiveCount(w.cells[..i])
    {
      assert w.cells[..i + 1][..i] == w.cells[..i];
      if w.cells[i] == 1 {
        live := live + [i];
      }
    }
    assert w.cells[..w.dims.Size()] == w.cells;
  }
}
