/** The occupancy-grid message as the combination code sees it.

    A grid is a rectangle of square cells, stored row by row (cell (x, y) at
    index y * width + x). Lengths (resolution, origin position) are integers in
    one common length unit, so that cell footprints can be compared exactly. */
module Occupancy {

  /** One cell of a grid: a signed 8-bit value. */
  type CellValue = v: int | -128 <= v <= 127

  /** The cell values the message format gives a meaning to. */
  const UNKNOWN: CellValue := -1
  const FREE: CellValue := 0
  const OCCUPIED: CellValue := 100

  datatype Point = Point(x: int, y: int, z: int)

  datatype Quaternion = Quaternion(x: real, y: real, z: real, w: real)

  /** Pose of cell (0, 0)'s lower corner. Positions are measured along the axes
      of the (common) grid orientation. */
  datatype Pose = Pose(position: Point, orientation: Quaternion)

  datatype MapInfo = MapInfo(resolution: nat, width: nat, height: nat, origin: Pose)

  datatype Grid = Grid(info: MapInfo, data: seq<CellValue>)

  /** The message invariant: positive cell size and one value per cell. */
  predicate WellFormed(g: Grid)
  {
    g.info.resolution > 0 && |g.data| == g.info.width * g.info.height
  }

  /** The grid lies in the xy plane: its origin is at height 0 and it is
      rotated about the z axis only. */
  predicate Planar(p: Pose)
  {
    p.position.z == 0 && p.orientation.x == 0.0 && p.orientation.y == 0.0
  }

  /** The geometry part of every grid of a list. */
  function Infos(grids: seq<Grid>): (infos: seq<MapInfo>)
    ensures |infos| == |grids|
    ensures forall n :: 0 <= n < |grids| ==> infos[n] == grids[n].info
  {
    seq(|grids|, n requires 0 <= n < |grids| => grids[n].info)
  }
}
