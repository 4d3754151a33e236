/** The per-cell rule of the max combination: every contributing value above
    OCCUPIED counts as UNKNOWN, the cell takes the largest of the mapped values,
    and a cell that nothing contributes to is UNKNOWN. */
module MaxPolicy {
  import opened Occupancy

  /** A contributing value as the max rule sees it: anything above OCCUPIED
      becomes UNKNOWN, everything else is kept. */
  function Normalize(v: CellValue): (r: CellValue)
    ensures r <= OCCUPIED
    ensures r == v || r == UNKNOWN
    ensures v <= OCCUPIED ==> r == v
  {
    if v > OCCUPIED then UNKNOWN else v
  }

  /** The rule stated as a relation between the contributing values and the
      resulting cell value. */
  predicate IsMaxCombination(vs: seq<CellValue>, r: CellValue)
  {
    if vs == [] then r == UNKNOWN
    else
      && (exists i :: 0 <= i < |vs| && r == Normalize(vs[i]))
      && (forall i :: 0 <= i < |vs| ==> Normalize(vs[i]) <= r)
  }

  /** The value of one output cell, given the values of the input cells that
      intersect it. */
  function MaxCombine(vs: seq<CellValue>): (r: CellValue)
    ensures IsMaxCombination(vs, r)
  {
    if |vs| == 0 then UNKNOWN
    else if |vs| == 1 then Normalize(vs[0])
    else
      var rest := MaxCombine(vs[1..]);
      if Normalize(vs[0]) >= rest then Normalize(vs[0]) else rest
  }

  /** The rule has one answer, so MaxCombine is the only value that obeys it. */
  lemma MaxCombineIsTheRule(vs: seq<CellValue>, r: CellValue)
    ensures IsMaxCombination(vs, r) <==> r == MaxCombine(vs)
  {
    if vs != [] && IsMaxCombination(vs, r) {
      var i :| 0 <= i < |vs| && r == Normalize(vs[i]);
      var j :| 0 <= j < |vs| && MaxCombine(vs) == Normalize(vs[j]);
      assert Normalize(vs[i]) <= MaxCombine(vs) && Normalize(vs[j]) <= r;
    }
  }

  /** Every mapped value of `a` is at most the cell value `b` combines to. */
  predicate Dominated(a: seq<CellValue>, b: seq<CellValue>)
  {
    forall i :: 0 <= i < |a| ==> Normalize(a[i]) <= MaxCombine(b)
  }

  /** Two lists of contributions that are both empty or both not, and dominate
      each other, combine to the same cell value. */
  lemma MaxCombineSameMappedValues(a: seq<CellValue>, b: seq<CellValue>)
    requires (a == []) == (b == [])
    requires Dominated(a, b) && Dominated(b, a)
    ensures MaxCombine(a) == MaxCombine(b)
  {
    if a != [] {
      var i :| 0 <= i < |a| && MaxCombine(a) == Normalize(a[i]);
      var j :| 0 <= j < |b| && MaxCombine(b) == Normalize(b[j]);
      assert Normalize(a[i]) <= MaxCombine(b) && Normalize(b[j]) <= MaxCombine(a);
    }
  }

  /** Contributions whose values all occur among other contributions are
      dominated by them. */
  lemma ContainedIsDominated(a: seq<CellValue>, b: seq<CellValue>)
    requires forall i :: 0 <= i < |a| ==> a[i] in b
    ensures a != [] ==> b != []
    ensures Dominated(a, b)
  {
    forall i | 0 <= i < |a| ensures b != [] && Normalize(a[i]) <= MaxCombine(b) {
      assert a[i] in b;
      var j :| 0 <= j < |b| && b[j] == a[i];
    }
    if a != [] {
      assert b != [] && Normalize(a[0]) <= MaxCombine(b);
    }
  }

  /** Contributions made of the same values (in any order, with any
      repetition) combine to the same cell value. */
  lemma MaxCombineSameValues(a: seq<CellValue>, b: seq<CellValue>)
    requires forall i :: 0 <= i < |a| ==> a[i] in b
    requires forall j :: 0 <= j < |b| ==> b[j] in a
    ensures MaxCombine(a) == MaxCombine(b)
  {
    ContainedIsDominated(a, b);
    ContainedIsDominated(b, a);
    MaxCombineSameMappedValues(a, b);
  }

  /** The cell value does not depend on the order in which the contributing
      grids are visited: any permutation of the contributions gives it. */
  lemma MaxCombineOrderIndependent(a: seq<CellValue>, b: seq<CellValue>)
    requires multiset(a) == multiset(b)
    ensures MaxCombine(a) == MaxCombine(b)
  {
    forall i | 0 <= i < |a| ensures a[i] in b {
      assert a[i] in multiset(b);
    }
    forall j | 0 <= j < |b| ensures b[j] in a {
      assert b[j] in multiset(a);
    }
    MaxCombineSameValues(a, b);
  }

  /** A contribution above OCCUPIED counts exactly as an UNKNOWN one would. */
  lemma OverflowCountsAsUnknown(vs: seq<CellValue>, i: nat)
    requires i < |vs| && vs[i] > OCCUPIED
    ensures MaxCombine(vs[i := UNKNOWN]) == MaxCombine(vs)
  {
    var ws := vs[i := UNKNOWN];
    assert forall k :: 0 <= k < |vs| ==> Normalize(ws[k]) == Normalize(vs[k]);
    MaxCombineSameMappedValues(ws, vs);
  }

  /** When every contribution is UNKNOWN or non-negative, the cell is UNKNOWN
      or an occupancy in [FREE, OCCUPIED]. */
  lemma MaxCombineInRange(vs: seq<CellValue>)
    requires forall v :: v in vs ==> v >= UNKNOWN
    ensures MaxCombine(vs) == UNKNOWN || FREE <= MaxCombine(vs) <= OCCUPIED
  {
    if vs != [] {
      var i :| 0 <= i < |vs| && MaxCombine(vs) == Normalize(vs[i]);
      assert vs[i] in vs;
    }
  }
}
