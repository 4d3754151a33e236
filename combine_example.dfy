/** A worked case of the max combination: two 3 x 3 grids of cell size 1,
    the first all free with its origin at (0, 0), the second all occupied with
    its origin at (1, 0). */
module CombineExample {
  import opened Occupancy
  import opened MaxPolicy
  import opened Extents
  import opened GridCombination

  const IDENTITY: Quaternion := Quaternion(0.0, 0.0, 0.0, 1.0)

  /** A 3 x 3 grid of cell size 1 with its origin at (x, 0). */
  function SquareAt(x: int): MapInfo
  {
    MapInfo(1, 3, 3, Pose(Point(x, 0, 0), IDENTITY))
  }

  /** The 4 x 3 geometry that covers both grids. */
  const OUT: MapInfo := MapInfo(1, 4, 3, Pose(Point(0, 0, 0), IDENTITY))

  /** `grids` is the free grid followed by the occupied one. */
  predicate IsExample(grids: seq<Grid>)
  {
    && |grids| == 2
    && grids[0].info == SquareAt(0) && |grids[0].data| == 9
    && grids[1].info == SquareAt(1) && |grids[1].data| == 9
    && (forall k :: 0 <= k < 9 ==> grids[0].data[k] == FREE)
    && (forall k :: 0 <= k < 9 ==> grids[1].data[k] == OCCUPIED)
  }

  /** The two grids span 4 x 3 cells from the first grid's origin. */
  lemma ExampleGeometry(grids: seq<Grid>)
    requires IsExample(grids)
    ensures Combinable(grids)
    ensures CombinedInfo(Infos(grids), 1) == OUT
  {
    var infos := Infos(grids);
    assert Edges(infos, Left) == [0, 1];
    assert Edges(infos, Right) == [3, 4];
    assert Edges(infos, Bottom) == [0, 0];
    assert Edges(infos, Top) == [3, 3];
  }

  /** Output cell (col, row) sees cell (a, b) of grid `n` exactly when it lies
      over it. */
  lemma ExampleIntersects(grids: seq<Grid>, n: nat, a: nat, b: nat, col: nat, row: nat)
    requires IsExample(grids)
    requires n < 2 && a < 3 && b < 3 && col < 4 && row < 3
    ensures Contributes(grids, OUT, row * 4 + col, n, b * 3 + a) <==> (col == a + n && row == b)
  {
    assert (b * 3 + a) % 3 == a && (b * 3 + a) / 3 == b;
    assert (row * 4 + col) % 4 == col && (row * 4 + col) / 4 == row;
  }

  /** An output cell that sees an occupied input cell is occupied. */
  lemma SeesOccupied(grids: seq<Grid>, resolution: nat, idx: nat, n: nat, k: nat)
    requires resolution > 0 && Combinable(grids) && grids != []
    requires idx < |CombineGrids(grids, resolution).value.data|
    requires Contributes(grids, CombineGrids(grids, resolution).value.info, idx, n, k)
    requires grids[n].data[k] == OCCUPIED
    ensures CombineGrids(grids, resolution).value.data[idx] == OCCUPIED
  {
    CombinedCellFollowsMaxRule(grids, resolution, idx);
  }

  /** An output cell that sees at least one input cell, all of them free, is
      free. */
  lemma SeesOnlyFree(grids: seq<Grid>, idx: nat, n: nat, k: nat)
    requires Combinable(grids) && grids != []
    requires CombineGrids(grids, 1).value.info == OUT
    requires idx < |CombineGrids(grids, 1).value.data|
    requires Contributes(grids, OUT, idx, n, k)
    requires forall m, j :: Contributes(grids, OUT, idx, m, j) ==> grids[m].data[j] == FREE
    ensures CombineGrids(grids, 1).value.data[idx] == FREE
  {
    CombinedCellFollowsMaxRule(grids, 1, idx);
  }

  /** The occupied grid lies to the right of output column 0. */
  lemma OnlyFreeGridUnderFirstColumn(grids: seq<Grid>, row: nat, m: int, j: int)
    requires IsExample(grids) && row < 3
    requires Contributes(grids, OUT, row * 4, m, j)
    ensures m == 0
  {
    ExampleIntersects(grids, m, j % 3, j / 3, 0, row);
    assert j == j / 3 * 3 + j % 3;
  }

  lemma FirstColumnSeesFreeCells(grids: seq<Grid>, row: nat)
    requires IsExample(grids) && row < 3
    ensures forall m, j :: Contributes(grids, OUT, row * 4, m, j) ==> grids[m].data[j] == FREE
  {
    forall m, j | Contributes(grids, OUT, row * 4, m, j) ensures grids[m].data[j] == FREE {
      OnlyFreeGridUnderFirstColumn(grids, row, m, j);
    }
  }

  /** Output cells in column 0 see only the free grid. */
  lemma FirstColumnCell(grids: seq<Grid>, row: nat)
    requires IsExample(grids) && row < 3
    ensures Combinable(grids)
    ensures |CombineGrids(grids, 1).value.data| == 12
    ensures CombineGrids(grids, 1).value.data[row * 4] == FREE
  {
    ExampleGeometry(grids);
    FirstColumnCellInGeometry(grids, row);
  }

  lemma FirstColumnCellInGeometry(grids: seq<Grid>, row: nat)
    requires IsExample(grids) && row < 3
    requires Combinable(grids) && CombineGrids(grids, 1).value.info == OUT
    ensures |CombineGrids(grids, 1).value.data| == 12
    ensures CombineGrids(grids, 1).value.data[row * 4] == FREE
  {
    var idx := row * 4;
    assert idx < 12 && row * 3 < 9;
    assert Contributes(grids, OUT, idx, 0, row * 3) by {
      ExampleIntersects(grids, 0, 0, row, 0, row);
    }
    assert forall m, j :: Contributes(grids, OUT, idx, m, j) ==> grids[m].data[j] == FREE by {
      FirstColumnSeesFreeCells(grids, row);
    }
    SeesOnlyFree(grids, idx, 0, row * 3);
  }

  /** Every other output cell sees an occupied cell. */
  lemma LaterColumnCell(grids: seq<Grid>, col: nat, row: nat)
    requires IsExample(grids)
    requires 0 < col < 4 && row < 3
    ensures Combinable(grids)
    ensures |CombineGrids(grids, 1).value.data| == 12
    ensures CombineGrids(grids, 1).value.data[row * 4 + col] == OCCUPIED
  {
    ExampleGeometry(grids);
    assert row * 4 + col < 12 && row * 3 + col - 1 < 9;
    ExampleIntersects(grids, 1, col - 1, row, col, row);
    SeesOccupied(grids, 1, row * 4 + col, 1, row * 3 + col - 1);
  }

  /** The combined grid spans 4 x 3 cells; its first column is free, and every
      other column, where the occupied grid lies, is occupied. */
  lemma FreeAndOccupiedGridsCombine(grids: seq<Grid>)
    requires IsExample(grids)
    ensures Combinable(grids)
    ensures var r := CombineGrids(grids, 1);
      && r.Success?
      && r.value.info == OUT
      && |r.value.data| == 12
      && forall idx :: 0 <= idx < 12 ==> r.value.data[idx] == if idx % 4 == 0 then FREE else OCCUPIED
  {
    ExampleGeometry(grids);
    forall idx | 0 <= idx < 12
      ensures CombineGrids(grids, 1).value.data[idx] == if idx % 4 == 0 then FREE else OCCUPIED
    {
      assert idx == idx / 4 * 4 + idx % 4 && idx / 4 < 3;
      if idx % 4 == 0 {
        FirstColumnCell(grids, idx / 4);
      } else {
        LaterColumnCell(grids, idx % 4, idx / 4);
      }
    }
  }
}
