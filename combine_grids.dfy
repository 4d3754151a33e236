/** Combining a list of overlapping grids into one grid by the max rule.

    Output cell `idx` of a grid with geometry `out` lies at column
    idx % out.width and row idx / out.width; it takes the max-rule value of
    every input cell whose footprint overlaps its own. */
module GridCombination {
  import opened Occupancy
  import opened MaxPolicy
  import opened Extents

  datatype CombineError = EmptyInput

  datatype Result<T> = Success(value: T) | Failure(error: CombineError)

  /** The intervals [lo1, lo1 + len1) and [lo2, lo2 + len2) share more than an
      end point. */
  predicate Overlap(lo1: int, len1: int, lo2: int, len2: int)
  {
    lo1 < lo2 + len2 && lo2 < lo1 + len1
  }

  /** Cell `k` of a grid with geometry `info` intersects cell `idx` of a grid
      with geometry `out`. */
  predicate Intersects(info: MapInfo, k: nat, out: MapInfo, idx: nat)
  {
    && info.width > 0
    && out.width > 0
    && Overlap(info.origin.position.x + (k % info.width) * info.resolution, info.resolution,
               out.origin.position.x + (idx % out.width) * out.resolution, out.resolution)
    && Overlap(info.origin.position.y + (k / info.width) * info.resolution, info.resolution,
               out.origin.position.y + (idx / out.width) * out.resolution, out.resolution)
  }

  /** Cell `k` of grid `n` is one of the cells that output cell `idx` looks at. */
  predicate Contributes(grids: seq<Grid>, out: MapInfo, idx: nat, n: int, k: int)
  {
    0 <= n < |grids| && 0 <= k < |grids[n].data| && Intersects(grids[n].info, k, out, idx)
  }

  /** The values of the cells of `g`, from flat index `k` on, that intersect
      output cell `idx`. */
  function GridContributions(g: Grid, out: MapInfo, idx: nat, k: nat): (vs: seq<CellValue>)
    requires k <= |g.data|
    ensures forall v :: v in vs <==>
      exists j :: k <= j < |g.data| && Intersects(g.info, j, out, idx) && g.data[j] == v
    decreases |g.data| - k
  {
    if k == |g.data| then []
    else (if Intersects(g.info, k, out, idx) then [g.data[k]] else []) + GridContributions(g, out, idx, k + 1)
  }

  /** The values of all input cells, over all grids, that intersect output
      cell `idx`. */
  function Contributions(grids: seq<Grid>, out: MapInfo, idx: nat): (vs: seq<CellValue>)
    ensures forall v :: v in vs <==>
      exists n, k :: Contributes(grids, out, idx, n, k) && grids[n].data[k] == v
  {
    if grids == [] then []
    else
      var rest := Contributions(grids[1..], out, idx);
      assert forall n, k :: Contributes(grids[1..], out, idx, n, k) ==> Contributes(grids, out, idx, n + 1, k);
      assert forall n, k :: 1 <= n && Contributes(grids, out, idx, n, k) ==> Contributes(grids[1..], out, idx, n - 1, k);
      GridContributions(grids[0], out, idx, 0) + rest
  }

  /** What the combination demands of its inputs: well-formed grids lying in
      the xy plane, all with grid 1's orientation. */
  predicate Combinable(grids: seq<Grid>)
  {
    forall n :: 0 <= n < |grids| ==>
      && WellFormed(grids[n])
      && Planar(grids[n].info.origin)
      && grids[n].info.origin.orientation == grids[0].info.origin.orientation
  }

  /** Combines `grids` into one new grid with cells of size `resolution`. */
  function CombineGrids(grids: seq<Grid>, resolution: nat): (r: Result<Grid>)
    requires resolution > 0 && Combinable(grids)
    ensures r.Failure? <==> grids == []
    ensures r.Success? ==>
      && WellFormed(r.value)
      && r.value.info.resolution == resolution
      && r.value.info.origin.orientation == grids[0].info.origin.orientation
      && r.value.info.origin.position.z == grids[0].info.origin.position.z
      && r.value.info == CombinedInfo(Infos(grids), resolution)
  {
    if grids == [] then Failure(EmptyInput)
    else
      var out := CombinedInfo(Infos(grids), resolution);
      ProductNonNegative(out.width, out.height);
      Success(Grid(out, seq(out.width * out.height, idx requires 0 <= idx < out.width * out.height =>
        MaxCombine(Contributions(grids, out, idx)))))
  }

  /** The overload without a resolution: the resolution of the first grid. */
  function CombineGridsAtFirstResolution(grids: seq<Grid>): (r: Result<Grid>)
    requires Combinable(grids)
    ensures grids == [] ==> r == Failure(EmptyInput)
    ensures grids != [] ==>
      && r == CombineGrids(grids, grids[0].info.resolution)
      && r.value.info.resolution == grids[0].info.resolution
  {
    if grids == [] then Failure(EmptyInput) else CombineGrids(grids, grids[0].info.resolution)
  }

  /** The documented per-cell rule, stated over the input cells: each output
      cell is at least the mapped value of every input cell that intersects
      it, equals one of those values, and is UNKNOWN when none intersects it. */
  lemma CombinedCellFollowsMaxRule(grids: seq<Grid>, resolution: nat, idx: nat)
    requires resolution > 0 && Combinable(grids) && grids != []
    requires idx < |CombineGrids(grids, resolution).value.data|
    ensures var g := CombineGrids(grids, resolution).value;
      && (forall n, k :: Contributes(grids, g.info, idx, n, k) ==> Normalize(grids[n].data[k]) <= g.data[idx])
      && ((forall n, k :: !Contributes(grids, g.info, idx, n, k)) ==> g.data[idx] == UNKNOWN)
      && ((exists n, k :: Contributes(grids, g.info, idx, n, k)) ==>
            exists n, k :: Contributes(grids, g.info, idx, n, k) && g.data[idx] == Normalize(grids[n].data[k]))
  {
    var g := CombineGrids(grids, resolution).value;
    var vs := Contributions(grids, g.info, idx);
    assert g.data[idx] == MaxCombine(vs);
    forall n, k | Contributes(grids, g.info, idx, n, k)
      ensures vs != [] && Normalize(grids[n].data[k]) <= g.data[idx]
    {
      assert grids[n].data[k] in vs;
      var i :| 0 <= i < |vs| && vs[i] == grids[n].data[k];
    }
    if vs != [] {
      var i :| 0 <= i < |vs| && g.data[idx] == Normalize(vs[i]);
      assert vs[i] in vs;
      var n, k :| Contributes(grids, g.info, idx, n, k) && grids[n].data[k] == vs[i];
    }
  }

  /** Every geometry of grids `b` occurs among those of grids `a`, when every
      grid of `b` occurs in `a`. */
  lemma InfosContained(a: seq<Grid>, b: seq<Grid>)
    requires forall j :: 0 <= j < |b| ==> b[j] in a
    ensures forall j :: 0 <= j < |b| ==> Infos(b)[j] in Infos(a)
  {
    forall j | 0 <= j < |b| ensures Infos(b)[j] in Infos(a) {
      assert b[j] in a;
      var i :| 0 <= i < |a| && a[i] == b[j];
      assert Infos(a)[i] == Infos(b)[j];
    }
  }

  /** The extreme edges of the footprints do not depend on the order of the
      grids. */
  lemma ExtremeEdgesPermuted(a: seq<Grid>, b: seq<Grid>, e: Edge)
    requires |a| > 0 && multiset(a) == multiset(b)
    ensures |b| == |a|
    ensures MinOf(Edges(Infos(a), e)) == MinOf(Edges(Infos(b), e))
    ensures MaxOf(Edges(Infos(a), e)) == MaxOf(Edges(Infos(b), e))
  {
    assert |b| == |multiset(b)| == |a|;
    assert MinOf(Edges(Infos(a), e)) <= MinOf(Edges(Infos(b), e))
        && MaxOf(Edges(Infos(b), e)) <= MaxOf(Edges(Infos(a), e)) by {
      forall j | 0 <= j < |b| ensures b[j] in a { assert b[j] in multiset(a); }
      InfosContained(a, b);
      ExtremeEdgesContained(Infos(a), Infos(b), e);
    }
    assert MinOf(Edges(Infos(b), e)) <= MinOf(Edges(Infos(a), e))
        && MaxOf(Edges(Infos(a), e)) <= MaxOf(Edges(Infos(b), e)) by {
      forall j | 0 <= j < |a| ensures a[j] in b { assert a[j] in multiset(b); }
      InfosContained(b, a);
      ExtremeEdgesContained(Infos(b), Infos(a), e);
    }
  }

  /** The combined geometry does not depend on the order of the grids when
      they share grid 1's orientation and lie in the plane. */
  lemma CombinedInfoOrderIndependent(a: seq<Grid>, b: seq<Grid>, resolution: nat)
    requires |a| > 0 && resolution > 0 && multiset(a) == multiset(b)
    requires a[0].info.origin.orientation == b[0].info.origin.orientation
    requires a[0].info.origin.position.z == b[0].info.origin.position.z
    ensures CombinedInfo(Infos(a), resolution) == CombinedInfo(Infos(b), resolution)
  {
    ExtremeEdgesPermuted(a, b, Left);
    ExtremeEdgesPermuted(a, b, Right);
    ExtremeEdgesPermuted(a, b, Bottom);
    ExtremeEdgesPermuted(a, b, Top);
  }

  /** Every value that output cell `idx` receives from grids `b` it also
      receives from grids `a`, when every grid of `b` occurs in `a`. */
  lemma ContributionsContained(a: seq<Grid>, b: seq<Grid>, out: MapInfo, idx: nat)
    requires forall j :: 0 <= j < |b| ==> b[j] in a
    ensures forall i :: 0 <= i < |Contributions(b, out, idx)| ==>
      Contributions(b, out, idx)[i] in Contributions(a, out, idx)
  {
    var cb, ca := Contributions(b, out, idx), Contributions(a, out, idx);
    forall i | 0 <= i < |cb| ensures cb[i] in ca {
      assert cb[i] in cb;
      var n, k :| Contributes(b, out, idx, n, k) && b[n].data[k] == cb[i];
      assert b[n] in a;
      var m :| 0 <= m < |a| && a[m] == b[n];
      assert Contributes(a, out, idx, m, k);
    }
  }

  /** The combined grid does not depend on the order in which the grids are
      given: max over the contributions is order-independent, and so is the
      bounding box. */
  lemma CombineGridsOrderIndependent(grids: seq<Grid>, perm: seq<Grid>, resolution: nat)
    requires resolution > 0 && Combinable(grids)
    requires multiset(perm) == multiset(grids)
    ensures Combinable(perm)
    ensures CombineGrids(perm, resolution) == CombineGrids(grids, resolution)
  {
    assert |perm| == |multiset(perm)| == |grids|;
    forall n | 0 <= n < |perm|
      ensures WellFormed(perm[n]) && Planar(perm[n].info.origin)
      ensures perm[n].info.origin.orientation == grids[0].info.origin.orientation
    {
      assert perm[n] in multiset(perm);
      var m :| 0 <= m < |grids| && grids[m] == perm[n];
    }
    if grids != [] {
      CombinedInfoOrderIndependent(grids, perm, resolution);
      var out := CombinedInfo(Infos(grids), resolution);
      var d1, d2 := CombineGrids(grids, resolution).value.data, CombineGrids(perm, resolution).value.data;
      forall idx | 0 <= idx < |d1| ensures d2[idx] == d1[idx] {
        var cg, cp := Contributions(grids, out, idx), Contributions(perm, out, idx);
        assert d1[idx] == MaxCombine(cg) && d2[idx] == MaxCombine(cp);
        assert forall j :: 0 <= j < |perm| ==> perm[j] in grids by {
          forall j | 0 <= j < |perm| ensures perm[j] in grids { assert perm[j] in multiset(grids); }
        }
        assert forall j :: 0 <= j < |grids| ==> grids[j] in perm by {
          forall j | 0 <= j < |grids| ensures grids[j] in perm { assert grids[j] in multiset(perm); }
        }
        ContributionsContained(grids, perm, out, idx);
        ContributionsContained(perm, grids, out, idx);
        MaxCombineSameValues(cp, cg);
      }
      assert d1 == d2;
    }
  }

  /** Range invariant: when every input cell is UNKNOWN or non-negative, every
      combined cell is UNKNOWN or an occupancy in [FREE, OCCUPIED]. */
  lemma CombinedCellsInRange(grids: seq<Grid>, resolution: nat)
    requires resolution > 0 && Combinable(grids) && grids != []
    requires forall n, k :: 0 <= n < |grids| && 0 <= k < |grids[n].data| ==> grids[n].data[k] >= UNKNOWN
    ensures forall idx :: 0 <= idx < |CombineGrids(grids, resolution).value.data| ==>
      var c := CombineGrids(grids, resolution).value.data[idx];
      c == UNKNOWN || FREE <= c <= OCCUPIED
  {
    var g := CombineGrids(grids, resolution).value;
    forall idx | 0 <= idx < |g.data| ensures g.data[idx] == UNKNOWN || FREE <= g.data[idx] <= OCCUPIED {
      var vs := Contributions(grids, g.info, idx);
      forall v | v in vs ensures v >= UNKNOWN {
        var n, k :| Contributes(grids, g.info, idx, n, k) && grids[n].data[k] == v;
      }
      MaxCombineInRange(vs);
    }
  }

  /** Grids with the same geometry whose cells map alike under Normalize
      give contributions that dominate each other. */
  lemma SameMappedCellsDominated(a: seq<Grid>, b: seq<Grid>, out: MapInfo, idx: nat)
    requires |a| == |b|
    requires forall m :: 0 <= m < |a| ==> a[m].info == b[m].info && |a[m].data| == |b[m].data|
    requires forall m, q :: 0 <= m < |a| && 0 <= q < |a[m].data| ==>
      Normalize(a[m].data[q]) == Normalize(b[m].data[q])
    ensures Contributions(a, out, idx) != [] ==> Contributions(b, out, idx) != []
    ensures Dominated(Contributions(a, out, idx), Contributions(b, out, idx))
  {
    var ca, cb := Contributions(a, out, idx), Contributions(b, out, idx);
    forall i | 0 <= i < |ca| ensures cb != [] && Normalize(ca[i]) <= MaxCombine(cb) {
      assert ca[i] in ca;
      var m, q :| Contributes(a, out, idx, m, q) && a[m].data[q] == ca[i];
      assert Contributes(b, out, idx, m, q);
      assert b[m].data[q] in cb;
      var j :| 0 <= j < |cb| && cb[j] == b[m].data[q];
      assert Normalize(ca[i]) == Normalize(cb[j]);
    }
    if ca != [] {
      assert cb != [] && Normalize(ca[0]) <= MaxCombine(cb);
    }
  }

  /** A cell value above OCCUPIED in any input grid gives the same combined
      grid as UNKNOWN in its place. */
  lemma OverflowCellCountsAsUnknown(grids: seq<Grid>, resolution: nat, n: nat, k: nat)
    requires resolution > 0 && Combinable(grids)
    requires n < |grids| && k < |grids[n].data| && grids[n].data[k] > OCCUPIED
    ensures Combinable(grids[n := Grid(grids[n].info, grids[n].data[k := UNKNOWN])])
    ensures CombineGrids(grids[n := Grid(grids[n].info, grids[n].data[k := UNKNOWN])], resolution)
         == CombineGrids(grids, resolution)
  {
    var edited := grids[n := Grid(grids[n].info, grids[n].data[k := UNKNOWN])];
    assert Infos(edited) == Infos(grids);
    var out := CombinedInfo(Infos(grids), resolution);
    var d1, d2 := CombineGrids(grids, resolution).value.data, CombineGrids(edited, resolution).value.data;
    forall idx | 0 <= idx < |d1| ensures d2[idx] == d1[idx] {
      SameMappedCellsDominated(grids, edited, out, idx);
      SameMappedCellsDominated(edited, grids, out, idx);
      MaxCombineSameMappedValues(Contributions(edited, out, idx), Contributions(grids, out, idx));
    }
    assert d1 == d2;
  }

  /** Two cells of the same size laid from the same point overlap exactly
      when they are the same cell. */
  lemma SameSizeCellsOverlap(x: int, a: int, i: int, r: nat)
    requires r > 0
    ensures Overlap(x + a * r, r, x + i * r, r) <==> a == i
  {
    if a < i {
      MulMonotone(a + 1, i, r);
    }
    if i < a {
      MulMonotone(i + 1, a, r);
    }
  }

  /** A grid's cell `k` intersects cell `idx` of a grid with the same geometry
      exactly when they are the same cell. */
  lemma SameGeometryIntersects(info: MapInfo, k: nat, idx: nat)
    requires info.resolution > 0 && info.width > 0
    ensures Intersects(info, k, info, idx) <==> k == idx
  {
    var x, y, r, w := info.origin.position.x, info.origin.position.y, info.resolution, info.width;
    SameSizeCellsOverlap(x, k % w, idx % w, r);
    SameSizeCellsOverlap(y, k / w, idx / w, r);
    DivisionFacts(k, w);
    DivisionFacts(idx, w);
  }

  /** The combined geometry of a single grid at its own resolution is the
      grid's own geometry. */
  lemma CombinedInfoOfOneGrid(g: Grid)
    requires WellFormed(g)
    ensures CombinedInfo(Infos([g]), g.info.resolution) == g.info
  {
    var info := g.info;
    assert Infos([g]) == [info];
    CellsToCoverExact(info.origin.position.x, info.width, info.resolution);
    CellsToCoverExact(info.origin.position.y, info.height, info.resolution);
  }

  /** Combining one grid at its own resolution keeps its geometry and gives
      each cell its own value, mapped by the max rule (values above OCCUPIED
      become UNKNOWN). */
  lemma CombineOneGrid(g: Grid)
    requires WellFormed(g) && Planar(g.info.origin)
    ensures Combinable([g])
    ensures CombineGrids([g], g.info.resolution).Success?
    ensures CombineGrids([g], g.info.resolution).value.info == g.info
    ensures |CombineGrids([g], g.info.resolution).value.data| == |g.data|
    ensures forall k :: 0 <= k < |g.data| ==>
      CombineGrids([g], g.info.resolution).value.data[k] == Normalize(g.data[k])
  {
    CombinedInfoOfOneGrid(g);
    var combined := CombineGrids([g], g.info.resolution).value;
    forall idx | 0 <= idx < |g.data| ensures combined.data[idx] == Normalize(g.data[idx]) {
      var vs := Contributions([g], g.info, idx);
      assert combined.data[idx] == MaxCombine(vs);
      assert g.info.width > 0;
      SameGeometryIntersects(g.info, idx, idx);
      assert Contributes([g], g.info, idx, 0, idx);
      assert g.data[idx] in vs;
      forall i | 0 <= i < |vs| ensures vs[i] == g.data[idx] {
        assert vs[i] in vs;
        var n, k :| Contributes([g], g.info, idx, n, k) && [g][n].data[k] == vs[i];
        SameGeometryIntersects(g.info, k, idx);
      }
      var i :| 0 <= i < |vs| && MaxCombine(vs) == Normalize(vs[i]);
    }
  }

  /** Combining one grid whose cells all hold known-or-unknown occupancies at
      its own resolution gives back that grid. */
  lemma CombineOneValidGridIsIdentity(g: Grid)
    requires WellFormed(g) && Planar(g.info.origin)
    requires forall k :: 0 <= k < |g.data| ==> g.data[k] <= OCCUPIED
    ensures Combinable([g])
    ensures CombineGrids([g], g.info.resolution) == Success(g)
  {
    CombineOneGrid(g);
    assert CombineGrids([g], g.info.resolution).value.data == g.data;
  }
}
