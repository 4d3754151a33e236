/** The geometry of a combined grid: the smallest rectangle of cells of the
    requested size, anchored at a translation of grid 1's origin, that covers
    the footprint of every input grid. */
module Extents {
  import opened Occupancy

  function MinOf(s: seq<int>): (m: int)
    requires |s| > 0
    ensures exists i :: 0 <= i < |s| && m == s[i]
    ensures forall i :: 0 <= i < |s| ==> m <= s[i]
  {
    if |s| == 1 then s[0]
    else
      var rest := MinOf(s[1..]);
      if s[0] <= rest then s[0] else rest
  }

  function MaxOf(s: seq<int>): (m: int)
    requires |s| > 0
    ensures exists i :: 0 <= i < |s| && m == s[i]
    ensures forall i :: 0 <= i < |s| ==> s[i] <= m
  {
    if |s| == 1 then s[0]
    else
      var rest := MaxOf(s[1..]);
      if s[0] >= rest then s[0] else rest
  }

  lemma DivisionFacts(n: int, d: int)
    requires d > 0
    ensures n == d * (n / d) + n % d && 0 <= n % d < d
  {
  }

  /** The number of cells of size `d`, laid from `lo`, needed to reach `hi`. */
  function CellsToCover(lo: int, hi: int, d: nat): (q: nat)
    requires d > 0 && lo <= hi
    ensures hi <= lo + q * d
    ensures q == 0 || lo + q * d - d < hi
  {
    DivisionFacts(hi - lo + d - 1, d);
    (hi - lo + d - 1) / d
  }

  lemma MulMonotone(p: int, q: int, r: nat)
    requires p <= q
    ensures p * r <= q * r
  {
    assert (q - p) * r >= 0;
  }

  /** A footprint of `w` cells of size `d` is covered by exactly `w` cells of
      size `d`. */
  lemma CellsToCoverExact(lo: int, w: nat, d: nat)
    requires d > 0
    ensures CellsToCover(lo, lo + w * d, d) == w
  {
    var q := CellsToCover(lo, lo + w * d, d);
    if q < w {
      MulMonotone(q + 1, w, d);
    }
    if q > w {
      MulMonotone(w + 1, q, d);
    }
  }

  /** Right and top edge of a grid's footprint (its left and bottom edge are
      its origin). */
  function RightEdge(info: MapInfo): int
  {
    info.origin.position.x + info.width * info.resolution
  }

  function TopEdge(info: MapInfo): int
  {
    info.origin.position.y + info.height * info.resolution
  }

  /** The four edges of a grid's footprint. */
  datatype Edge = Left | Right | Bottom | Top

  function EdgeOf(info: MapInfo, e: Edge): int
  {
    match e
    case Left => info.origin.position.x
    case Right => RightEdge(info)
    case Bottom => info.origin.position.y
    case Top => TopEdge(info)
  }

  /** One edge of every grid's footprint. */
  function Edges(infos: seq<MapInfo>, e: Edge): (s: seq<int>)
    ensures |s| == |infos|
    ensures forall n :: 0 <= n < |infos| ==> s[n] == EdgeOf(infos[n], e)
  {
    seq(|infos|, n requires 0 <= n < |infos| => EdgeOf(infos[n], e))
  }

  lemma ProductNonNegative(a: nat, b: nat)
    ensures a * b >= 0
  {
  }

  /** The geometry of the grid that combines grids with geometries `infos` at
      cell size `resolution`: it has that resolution, grid 1's orientation and
      z coordinate, covers every footprint, and has no spare row or column. */
  function CombinedInfo(infos: seq<MapInfo>, resolution: nat): (out: MapInfo)
    requires |infos| > 0 && resolution > 0
    ensures out.resolution == resolution
    ensures out.origin.orientation == infos[0].origin.orientation
    ensures out.origin.position.z == infos[0].origin.position.z
    ensures forall n :: 0 <= n < |infos| ==>
      && out.origin.position.x <= infos[n].origin.position.x
      && out.origin.position.y <= infos[n].origin.position.y
      && RightEdge(infos[n]) <= RightEdge(out)
      && TopEdge(infos[n]) <= TopEdge(out)
    ensures exists n :: 0 <= n < |infos| && out.origin.position.x == infos[n].origin.position.x
    ensures exists n :: 0 <= n < |infos| && out.origin.position.y == infos[n].origin.position.y
    ensures out.width > 0 ==> exists n :: 0 <= n < |infos| && RightEdge(out) - resolution < RightEdge(infos[n])
    ensures out.height > 0 ==> exists n :: 0 <= n < |infos| && TopEdge(out) - resolution < TopEdge(infos[n])
  {
    var minX, maxX := MinOf(Edges(infos, Left)), MaxOf(Edges(infos, Right));
    var minY, maxY := MinOf(Edges(infos, Bottom)), MaxOf(Edges(infos, Top));
    ProductNonNegative(infos[0].width, infos[0].resolution);
    ProductNonNegative(infos[0].height, infos[0].resolution);
    assert Edges(infos, Left)[0] <= Edges(infos, Right)[0];
    assert Edges(infos, Bottom)[0] <= Edges(infos, Top)[0];
    var origin := Pose(Point(minX, minY, infos[0].origin.position.z), infos[0].origin.orientation);
    MapInfo(resolution, CellsToCover(minX, maxX, resolution), CellsToCover(minY, maxY, resolution), origin)
  }

  lemma MinOfAtMost(s: seq<int>, t: seq<int>)
    requires |s| > 0 && |t| > 0
    requires forall j :: 0 <= j < |t| ==> t[j] in s
    ensures MinOf(s) <= MinOf(t)
  {
    var j :| 0 <= j < |t| && MinOf(t) == t[j];
    assert t[j] in s;
  }

  lemma MaxOfAtLeast(s: seq<int>, t: seq<int>)
    requires |s| > 0 && |t| > 0
    requires forall j :: 0 <= j < |t| ==> t[j] in s
    ensures MaxOf(t) <= MaxOf(s)
  {
    var j :| 0 <= j < |t| && MaxOf(t) == t[j];
    assert t[j] in s;
  }

  /** The extreme edges of the footprints of `a` reach at least as far as
      those of `b` when every geometry of `b` occurs in `a`. */
  lemma ExtremeEdgesContained(a: seq<MapInfo>, b: seq<MapInfo>, e: Edge)
    requires |a| > 0 && |b| > 0
    requires forall j :: 0 <= j < |b| ==> b[j] in a
    ensures MinOf(Edges(a, e)) <= MinOf(Edges(b, e))
    ensures MaxOf(Edges(b, e)) <= MaxOf(Edges(a, e))
  {
    var s, t := Edges(a, e), Edges(b, e);
    forall j | 0 <= j < |t| ensures t[j] in s {
      assert b[j] in a;
      var i :| 0 <= i < |a| && a[i] == b[j];
      assert s[i] == t[j];
    }
    MinOfAtMost(s, t);
    MaxOfAtLeast(s, t);
  }
}
