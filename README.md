# Combining occupancy grids with the max policy

This project models `combineGrids` from occupancy_grid_utils. The function
merges a list of overlapping occupancy grids (`nav_msgs/OccupancyGrid`
messages) into one new grid. The result lies over all the inputs. Its origin is
grid 1's origin, translated, and its cells have the requested size. Each output
cell is computed from the input cells that intersect it, as follows:

- every contributing value above OCCUPIED (100) is read as UNKNOWN (-1);
- the output cell takes the maximum of these mapped values;
- a cell that no input cell intersects is UNKNOWN.

The second overload uses the first grid's resolution.

The model is functional, as is the documented behaviour of `combineGrids`. The
inputs are values, so the model cannot modify them.

- `occupancy.dfy` (module `Occupancy`) holds the message. It has int8 cells,
  the constants UNKNOWN, FREE and OCCUPIED, and the geometry `MapInfo`: cell
  size, width, height and origin pose. Cells are stored row by row. The module
  also states the message invariant (`|data| == width * height`, positive cell
  size) and the planarity assumption.
- `max_policy.dfy` (module `MaxPolicy`) holds the per-cell rule, `MaxCombine`.
  It also states the rule as a relation, `IsMaxCombination`, and proves that
  the two agree. Further lemmas show that the rule does not depend on order and
  that an over-range value counts as UNKNOWN.
- `extents.dfy` (module `Extents`) holds the output geometry. The output is the
  smallest block of cells of the requested size that covers every input
  footprint. It is anchored at the lowest left edge and the lowest bottom edge.
- `combine_grids.dfy` (module `GridCombination`) holds both overloads. For
  each output cell, the module collects the values of the intersecting input
  cells and applies the rule. The lemmas about the whole operation are here:
  the rule restated over input cells, independence from the order of the
  grids, the range of the output, the effect of an over-range cell, and the
  single-grid case.
- `combine_example.dfy` (module `CombineExample`) works through one concrete
  combination. A free 3 x 3 grid and an occupied 3 x 3 grid, shifted by one
  cell, combine into a 4 x 3 grid. Its first column is free and its other
  columns are occupied.

Geometry is exact integer arithmetic. Cell sizes and origin coordinates are
integers in one common length unit. All grids share grid 1's orientation, so
their cell rows and columns run along the same axes. Two cells intersect when
their footprints overlap in an area of positive size. Footprints that only
touch at an edge or a corner do not intersect.

## Model

| member | source | states |
|---|---|---|
| MaxPolicy.Normalize | include/occupancy_grid_utils/combine_grids.h:53-54 | the mapped value is never above OCCUPIED; values up to OCCUPIED are kept and larger ones become UNKNOWN |
| MaxPolicy.IsMaxCombination | include/occupancy_grid_utils/combine_grids.h:52-54 | the rule as a relation between contributions and cell value: with no contribution the cell is UNKNOWN; otherwise it equals one mapped contribution and is at least all of them |
| MaxPolicy.MaxCombine | include/occupancy_grid_utils/combine_grids.h:52-54 | the computed cell value obeys the rule of `MaxPolicy.IsMaxCombination` |
| MaxPolicy.MaxCombineIsTheRule | include/occupancy_grid_utils/combine_grids.h:52-54 | the rule has exactly one answer: a value obeys it exactly when it is the computed cell value |
| MaxPolicy.MaxCombineSameMappedValues | include/occupancy_grid_utils/combine_grids.h:52-54 | two lists of contributions that are both empty or both not, each of whose mapped values is at most the other's maximum, give the same cell value |
| MaxPolicy.ContainedIsDominated | include/occupancy_grid_utils/combine_grids.h:52-54 | when every value of one list occurs in another list, the other list is not empty when the first is not, and its cell value is at least every mapped value of the first |
| MaxPolicy.MaxCombineSameValues | include/occupancy_grid_utils/combine_grids.h:52-54 | two lists made of the same values, with any repetition, give the same cell value |
| MaxPolicy.MaxCombineOrderIndependent | include/occupancy_grid_utils/combine_grids.h:52-54 | any permutation of the contributions gives the same cell value |
| MaxPolicy.OverflowCountsAsUnknown | include/occupancy_grid_utils/combine_grids.h:53-54 | replacing one contribution above OCCUPIED with UNKNOWN leaves the cell value unchanged |
| MaxPolicy.MaxCombineInRange | include/occupancy_grid_utils/combine_grids.h:52-54 | when no contribution is below UNKNOWN, the cell is UNKNOWN or lies in [FREE, OCCUPIED] |
| Occupancy.WellFormed | include/occupancy_grid_utils/combine_grids.h:57 | an input message has a positive cell size and exactly width * height cell values |
| Occupancy.Planar | include/occupancy_grid_utils/combine_grids.h:56 | a grid lies in the xy plane: its origin has z == 0 and it is rotated about the z axis only |
| Occupancy.Infos | include/occupancy_grid_utils/combine_grids.h:57 | lists the geometry of every input grid, in order |
| Extents.MinOf | include/occupancy_grid_utils/combine_grids.h:50 | the lowest edge is one of the edges and is at most all of them |
| Extents.MaxOf | include/occupancy_grid_utils/combine_grids.h:50 | the highest edge is one of the edges and is at least all of them |
| Extents.CellsToCover | include/occupancy_grid_utils/combine_grids.h:50 | the smallest number of cells of the given size, laid from `lo`, that reach `hi`: they reach it, and one fewer would not |
| Extents.CellsToCoverExact | include/occupancy_grid_utils/combine_grids.h:50 | a span of exactly w cells of size d needs exactly w cells of size d |
| Extents.Edges | include/occupancy_grid_utils/combine_grids.h:50 | lists one edge of every footprint, in grid order |
| Extents.CombinedInfo | include/occupancy_grid_utils/combine_grids.h:50 | the output geometry has the requested resolution; it keeps grid 1's orientation and z coordinate, so its origin is a translation of grid 1's origin; it covers every input footprint; each of its four edges is an input edge or lies within one cell of one |
| Extents.MinOfAtMost | include/occupancy_grid_utils/combine_grids.h:50 | when every edge of t occurs in s, the lowest edge of s is at most the lowest edge of t |
| Extents.MaxOfAtLeast | include/occupancy_grid_utils/combine_grids.h:50 | when every edge of t occurs in s, the highest edge of s is at least the highest edge of t |
| Extents.ExtremeEdgesContained | include/occupancy_grid_utils/combine_grids.h:50 | when every geometry of b occurs in a, a's extreme edges reach at least as far as b's |
| GridCombination.Intersects | include/occupancy_grid_utils/combine_grids.h:52 | an input cell intersects an output cell when their footprints overlap in an area of positive size: the open x intervals overlap and the open y intervals overlap |
| GridCombination.Contributes | include/occupancy_grid_utils/combine_grids.h:52-53 | cell k of grid n is looked at for output cell idx when n and k are valid indices and the cell intersects that output cell |
| GridCombination.Combinable | include/occupancy_grid_utils/combine_grids.h:56-57 | what the combination demands of its inputs: every grid is well-formed, lies in the xy plane, and has grid 1's orientation |
| GridCombination.GridContributions | include/occupancy_grid_utils/combine_grids.h:52-53 | a value is collected from one grid exactly when some cell of that grid, at or after the start index, intersects the output cell and holds that value |
| GridCombination.Contributions | include/occupancy_grid_utils/combine_grids.h:52-53 | a value is collected for an output cell exactly when some cell of some input grid intersects that output cell and holds that value |
| GridCombination.CombineGrids | include/occupancy_grid_utils/combine_grids.h:48-57 | fails exactly on an empty list; otherwise the result is a well-formed grid with the requested resolution, grid 1's orientation and z coordinate, and the covering geometry of `Extents.CombinedInfo` |
| GridCombination.CombineGridsAtFirstResolution | include/occupancy_grid_utils/combine_grids.h:61-62 | is the resolution-taking overload called with the first grid's resolution, so the result has that resolution; an empty list fails |
| GridCombination.CombinedCellFollowsMaxRule | include/occupancy_grid_utils/combine_grids.h:52-54 | each output cell is at least the mapped value of every input cell that intersects it; it equals the mapped value of one such cell; it is UNKNOWN when no input cell intersects it |
| GridCombination.InfosContained | include/occupancy_grid_utils/combine_grids.h:50 | when every grid of b occurs in a (with any repetition), every geometry of b occurs among those of a |
| GridCombination.ExtremeEdgesPermuted | include/occupancy_grid_utils/combine_grids.h:50 | reordering the grids does not move the extreme edges |
| GridCombination.CombinedInfoOrderIndependent | include/occupancy_grid_utils/combine_grids.h:50 | reordering the grids, with the first grid's orientation and z coordinate unchanged, gives the same output geometry |
| GridCombination.ContributionsContained | include/occupancy_grid_utils/combine_grids.h:52-53 | when every grid of b occurs in a (with any repetition), every value b contributes to a cell is also contributed by a |
| GridCombination.CombineGridsOrderIndependent | include/occupancy_grid_utils/combine_grids.h:48-57 | any permutation of acceptable grids is acceptable and gives the same combined grid |
| GridCombination.CombinedCellsInRange | include/occupancy_grid_utils/combine_grids.h:52-54 | when no input cell is below UNKNOWN, every output cell is UNKNOWN or an occupancy in [FREE, OCCUPIED] |
| GridCombination.SameMappedCellsDominated | include/occupancy_grid_utils/combine_grids.h:53-54 | grids that differ only in cells whose mapped values agree contribute to the same cells, with each side's mapped values at most the other's maximum |
| GridCombination.OverflowCellCountsAsUnknown | include/occupancy_grid_utils/combine_grids.h:53-54 | setting one input cell above OCCUPIED to UNKNOWN gives the same combined grid |
| GridCombination.SameSizeCellsOverlap | include/occupancy_grid_utils/combine_grids.h:52 | two cells of the same size on the same lattice overlap exactly when they are the same cell |
| GridCombination.SameGeometryIntersects | include/occupancy_grid_utils/combine_grids.h:52 | on identical geometries, cell k intersects output cell idx exactly when k == idx |
| GridCombination.CombinedInfoOfOneGrid | include/occupancy_grid_utils/combine_grids.h:50 | one grid combined at its own resolution keeps its geometry |
| GridCombination.CombineOneGrid | include/occupancy_grid_utils/combine_grids.h:48-57 | one grid combined at its own resolution keeps its geometry, and every cell becomes its own mapped value |
| GridCombination.CombineOneValidGridIsIdentity | include/occupancy_grid_utils/combine_grids.h:48-57 | one grid with no value above OCCUPIED, combined at its own resolution, is returned unchanged |
| CombineExample.ExampleGeometry | include/occupancy_grid_utils/combine_grids.h:50 | a 3 x 3 grid at (0, 0) and one at (1, 0), both with cells of size 1, are covered by a 4 x 3 grid at (0, 0) |
| CombineExample.ExampleIntersects | include/occupancy_grid_utils/combine_grids.h:52 | in that example, output cell (col, row) sees cell (a, b) of grid n exactly when col == a + n and row == b |
| CombineExample.SeesOccupied | include/occupancy_grid_utils/combine_grids.h:52-54 | at any cell size, an output cell that sees an OCCUPIED input cell is OCCUPIED |
| CombineExample.SeesOnlyFree | include/occupancy_grid_utils/combine_grids.h:52-54 | when the combined geometry is the example's 4 x 3 grid, an output cell that sees at least one input cell, all of them FREE, is FREE |
| CombineExample.FirstColumnCell | include/occupancy_grid_utils/combine_grids.h:52-54 | the output cells of column 0 see only the free grid, so they are FREE |
| CombineExample.FirstColumnCellInGeometry | include/occupancy_grid_utils/combine_grids.h:52-54 | once the combined geometry is known to be the 4 x 3 grid, the column-0 output cells are FREE |
| CombineExample.LaterColumnCell | include/occupancy_grid_utils/combine_grids.h:52-54 | every output cell beyond column 0 sees an occupied cell, so it is OCCUPIED |
| CombineExample.FreeAndOccupiedGridsCombine | include/occupancy_grid_utils/combine_grids.h:48-57 | the example combines into a 4 x 3 grid whose first column is FREE and whose other columns are OCCUPIED |

## Left out

- minCombineGrids, zeroCombineGrids, generousZeroCombineGrids, combineToGrid, floatingCombineToEmptyGrid, binaryCombineToEmptyGrid, informationCombineAlignedGrids, averagePassGrid and getAlignedGrid (combine_grids.h:60, 64-97) are not part of this model. The header documents none of them. Only informationCombineAlignedGrids takes floating-point gains (its six gain_divide parameters, combine_grids.h:87-92).
- Real-valued geometry is not modelled. Resolutions and origin coordinates are integers in one common length unit, so the `double` resolution becomes a positive integer. The exact floating-point behaviour of cell intersection and of rounding the output size is not captured.
- Rotated grids are not modelled. Every input must have grid 1's orientation (`GridCombination.Combinable`), so cell footprints are axis-aligned rectangles in grid 1's frame. Combining grids with different orientations is not modelled.
- Origin positions are read as coordinates along grid 1's axes, not as world-frame positions. When grid 1 has a non-zero yaw, the input positions the model takes, and the output's `origin.position`, are in grid 1's frame and differ from the message's world-frame fields.
- The xy-plane assumption is a precondition (`Occupancy.Planar`: z == 0 and rotation about z only). The behaviour the header leaves undefined for other inputs is not modelled.
- Each input must satisfy the message invariant (`|data| == width * height`, positive cell size) as a precondition. A malformed message is not reported as an error.
- The header does not say what happens when the list is empty. The model returns `Failure(EmptyInput)`.
- Which cells "intersect" is not defined in the header. The model counts two cells as intersecting when their footprints overlap in an area of positive size. Cells that only touch at an edge do not intersect.
- The header does not say how large the output grid is. The model uses the smallest block of whole cells that covers every input, anchored at the lowest left and bottom edges.
- Input values below UNKNOWN (-128 to -2) are kept as they are, since the rule maps only values above OCCUPIED.
- Message headers, frame ids, timestamps, shared pointers and allocation of the new message are left out. The result is a value, and inputs are values that the model cannot modify.
