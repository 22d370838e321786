/** The implicit quadtree walked by `SetAreaActiveState`: index ranges
    `[iStart, iEnd) x [jStart, jEnd)` of the cell array, their world rectangles,
    the split into four quadrants, and the order in which the walk reaches each
    cell together with the verdict it applies there. */
module Quadtree {
  import opened Frustum
  import opened Geometry

  /** `[iStart, iEnd) x [jStart, jEnd)` */
  datatype Range = Range(iStart: int, iEnd: int, jStart: int, jEnd: int)
  {
    predicate WellFormed() { iStart <= iEnd && jStart <= jEnd }

    predicate Holds(i: int, j: int) { iStart <= i < iEnd && jStart <= j < jEnd }

    predicate IsEmpty() { iEnd <= iStart || jEnd <= jStart }

    /** Leaf granularity: a single row or column (or nothing). */
    predicate IsLeaf() { iEnd - iStart <= 1 || jEnd - jStart <= 1 }

    /** Perimeter-like measure that every quadrant strictly decreases. */
    function Extent(): nat
      requires WellFormed()
    {
      (iEnd - iStart) + (jEnd - jStart)
    }
  }

  /** The cells of a range, as a set of index pairs. */
  function RangeSet(r: Range): set<(int, int)>
  {
    set i, j | r.iStart <= i < r.iEnd && r.jStart <= j < r.jEnd :: (i, j)
  }

  /** The four quadrants, in the order of the recursive calls: low i and low j,
      high i and low j, low i and high j, high i and high j. The split point is
      `start + (end - start) / 2`. */
  function Quadrants(r: Range): (qs: seq<Range>)
    requires r.WellFormed() && !r.IsLeaf()
    ensures |qs| == 4
    ensures forall a | 0 <= a < 4 :: qs[a].WellFormed() && !qs[a].IsEmpty() && qs[a].Extent() < r.Extent()
    ensures forall i, j :: r.Holds(i, j) <==>
              qs[0].Holds(i, j) || qs[1].Holds(i, j) || qs[2].Holds(i, j) || qs[3].Holds(i, j)
    ensures forall a, b, i, j | 0 <= a < b < 4 && qs[a].Holds(i, j) :: !qs[b].Holds(i, j)
  {
    var iMid := r.iStart + (r.iEnd - r.iStart) / 2;
    var jMid := r.jStart + (r.jEnd - r.jStart) / 2;
    [Range(r.iStart, iMid, r.jStart, jMid), Range(iMid, r.iEnd, r.jStart, jMid),
     Range(r.iStart, iMid, jMid, r.jEnd), Range(iMid, r.iEnd, jMid, r.jEnd)]
  }

  /** A square range whose side is a power of two, `2^(d+1)`, is not a leaf and
      splits into four squares of side `2^d`. */
  lemma QuadrantsOfSquare(r: Range, d: nat)
    requires r.WellFormed()
    requires r.iEnd - r.iStart == Pow2(d + 1) && r.jEnd - r.jStart == Pow2(d + 1)
    ensures !r.IsLeaf()
    ensures forall a | 0 <= a < 4 ::
              Quadrants(r)[a].iEnd - Quadrants(r)[a].iStart == Pow2(d) &&
              Quadrants(r)[a].jEnd - Quadrants(r)[a].jStart == Pow2(d)
  {
  }

  /** The quadrants' cell sets partition the range's cell set. */
  lemma QuadrantSets(r: Range)
    requires r.WellFormed() && !r.IsLeaf()
    ensures var qs := Quadrants(r);
            RangeSet(r) == RangeSet(qs[0]) + RangeSet(qs[1]) + RangeSet(qs[2]) + RangeSet(qs[3])
    ensures var qs := Quadrants(r);
            forall a, b | 0 <= a < b < 4 :: RangeSet(qs[a]) !! RangeSet(qs[b])
  {
    var qs := Quadrants(r);
    forall a, b | 0 <= a < b < 4
      ensures RangeSet(qs[a]) !! RangeSet(qs[b])
    {
      forall c | c in RangeSet(qs[a]) ensures c !in RangeSet(qs[b]) {
        assert qs[a].Holds(c.0, c.1);
      }
    }
  }

  /** Where the walk stands: the container's world position, half the region's
      side and the side of one cell. */
  datatype Frame = Frame(selfWorldX: real, selfWorldZ: real, halfSize: real, blockSize: real)

  /** World x of grid line `i` and world z of grid line `j`. */
  function LineX(f: Frame, i: int): real { f.selfWorldX + f.blockSize * i as real - f.halfSize }
  function LineZ(f: Frame, j: int): real { f.selfWorldZ + f.blockSize * j as real - f.halfSize }

  /** The corners `point00`, `point10`, `point01`, `point11` of a range: an
      axis-aligned rectangle whose first corner is the low-x, low-z one. */
  function Corners(f: Frame, r: Range): (q: Quad)
    ensures q.p00.x == q.p01.x && q.p10.x == q.p11.x && q.p00.z == q.p10.z && q.p01.z == q.p11.z
    ensures f.blockSize > 0.0 && r.WellFormed() ==> q.p00.x <= q.p10.x && q.p00.z <= q.p01.z
  {
    var q := RectQuad(LineX(f, r.iStart), LineX(f, r.iEnd), LineZ(f, r.jStart), LineZ(f, r.jEnd));
    if f.blockSize > 0.0 && r.WellFormed() then
      LineOrder(f, r.iStart, r.iEnd);
      LineOrder(f, r.jStart, r.jEnd);
      q
    else q
  }

  /** One cell reached by the walk, and whether the walk activates (`true`) or
      deactivates (`false`) the live objects in it. */
  datatype Visit = Visit(i: int, j: int, visible: bool)

  function VisitCell(v: Visit): (int, int) { (v.i, v.j) }

  function VisitSet(vs: seq<Visit>): set<(int, int)>
  {
    set k | 0 <= k < |vs| :: VisitCell(vs[k])
  }

  /** No cell is reached twice. */
  predicate Distinct(vs: seq<Visit>)
  {
    forall k, m | 0 <= k < m < |vs| :: VisitCell(vs[k]) != VisitCell(vs[m])
  }

  /** The nested `for (i ...) for (z ...)` loops of the leaf and rejected branches:
      row `i`, columns `jStart` to `jEnd - 1`. */
  function RowVisits(i: int, jStart: int, jEnd: int, visible: bool): seq<Visit>
    decreases jEnd - jStart
  {
    if jEnd <= jStart then [] else RowVisits(i, jStart, jEnd - 1, visible) + [Visit(i, jEnd - 1, visible)]
  }

  /** All cells of a range in row-major order, each with the same verdict. */
  function RangeVisits(r: Range, visible: bool): seq<Visit>
    decreases r.iEnd - r.iStart
  {
    if r.iEnd <= r.iStart then []
    else RangeVisits(r.(iEnd := r.iEnd - 1), visible) + RowVisits(r.iEnd - 1, r.jStart, r.jEnd, visible)
  }

  /** The `k`-th cell of a row walk is column `jStart + k`. */
  lemma {:induction false} RowVisitsAt(i: int, jStart: int, jEnd: int, visible: bool)
    requires jStart <= jEnd
    ensures |RowVisits(i, jStart, jEnd, visible)| == jEnd - jStart
    ensures forall k | 0 <= k < jEnd - jStart :: RowVisits(i, jStart, jEnd, visible)[k] == Visit(i, jStart + k, visible)
    decreases jEnd - jStart
  {
    if jStart < jEnd {
      var e := jEnd - 1;
      RowVisitsAt(i, jStart, e, visible);
    }
  }

  /** The column loop one cell further along. */
  lemma RowVisitsSnoc(i: int, jStart: int, j: int, visible: bool)
    requires jStart <= j
    ensures RowVisits(i, jStart, j + 1, visible) == RowVisits(i, jStart, j, visible) + [Visit(i, j, visible)]
  {
    var k := j + 1;
    assert k - 1 == j;
  }

  /** The row-major loops one row further down. */
  lemma RangeVisitsRow(r: Range, i: int, visible: bool)
    requires r.iStart <= i
    ensures RangeVisits(r.(iEnd := i + 1), visible) == RangeVisits(r.(iEnd := i), visible) + RowVisits(i, r.jStart, r.jEnd, visible)
  {
    var ri := r.(iEnd := i + 1);
    assert ri.(iEnd := ri.iEnd - 1) == r.(iEnd := i);
  }

  /** `SetAreaActiveState`'s trace: the cells it acts on, in order, with the
      verdict applied to each. A rejected range is deactivated whole; a visible
      leaf range is activated whole; a visible larger range is split in four. */
  function Visits(target: Option<Camera>, main: Option<Camera>, f: Frame, r: Range): seq<Visit>
    requires r.WellFormed()
    decreases r.Extent()
  {
    if RectInCamera(target, main, Corners(f, r)) then
      if r.IsLeaf() then RangeVisits(r, true)
      else
        var qs := Quadrants(r);
        Visits(target, main, f, qs[0]) + Visits(target, main, f, qs[1]) +
        Visits(target, main, f, qs[2]) + Visits(target, main, f, qs[3])
    else RangeVisits(r, false)
  }

  lemma VisitSetConcat(a: seq<Visit>, b: seq<Visit>)
    ensures VisitSet(a + b) == VisitSet(a) + VisitSet(b)
  {
    forall c | c in VisitSet(a + b) ensures c in VisitSet(a) + VisitSet(b) {
      var k :| 0 <= k < |a + b| && VisitCell((a + b)[k]) == c;
      if k >= |a| { assert VisitCell(b[k - |a|]) == c; }
    }
    forall c | c in VisitSet(b) ensures c in VisitSet(a + b) {
      var k :| 0 <= k < |b| && VisitCell(b[k]) == c;
      assert VisitCell((a + b)[|a| + k]) == c;
    }
    forall c | c in VisitSet(a) ensures c in VisitSet(a + b) {
      var k :| 0 <= k < |a| && VisitCell(a[k]) == c;
      assert VisitCell((a + b)[k]) == c;
    }
  }

  lemma DistinctConcat(a: seq<Visit>, b: seq<Visit>)
    requires Distinct(a) && Distinct(b) && VisitSet(a) !! VisitSet(b)
    ensures Distinct(a + b)
  {
    forall k, m | 0 <= k < m < |a + b|
      ensures VisitCell((a + b)[k]) != VisitCell((a + b)[m])
    {
      if m >= |a| && k < |a| {
        assert VisitCell((a + b)[k]) in VisitSet(a);
        assert VisitCell((a + b)[m]) == VisitCell(b[m - |a|]);
        assert VisitCell(b[m - |a|]) in VisitSet(b);
      } else if k >= |a| {
        assert VisitCell((a + b)[k]) == VisitCell(b[k - |a|]);
        assert VisitCell((a + b)[m]) == VisitCell(b[m - |a|]);
      }
    }
  }

  lemma {:induction false} RowVisitsCover(i: int, jStart: int, jEnd: int, visible: bool)
    ensures var vs := RowVisits(i, jStart, jEnd, visible);
            VisitSet(vs) == set j | jStart <= j < jEnd :: (i, j)
    ensures Distinct(RowVisits(i, jStart, jEnd, visible))
    ensures forall v | v in RowVisits(i, jStart, jEnd, visible) :: v.visible == visible
    decreases jEnd - jStart
  {
    if jEnd > jStart {
      var front := RowVisits(i, jStart, jEnd - 1, visible);
      RowVisitsCover(i, jStart, jEnd - 1, visible);
      VisitSetConcat(front, [Visit(i, jEnd - 1, visible)]);
      assert VisitSet([Visit(i, jEnd - 1, visible)]) == {(i, jEnd - 1)} by {
        assert VisitCell([Visit(i, jEnd - 1, visible)][0]) == (i, jEnd - 1);
      }
      DistinctConcat(front, [Visit(i, jEnd - 1, visible)]);
    }
  }

  /** The loops of the leaf and rejected branches reach every cell of the range
      exactly once and nothing else. */
  lemma {:induction false} RangeVisitsCover(r: Range, visible: bool)
    ensures VisitSet(RangeVisits(r, visible)) == RangeSet(r)
    ensures Distinct(RangeVisits(r, visible))
    ensures forall v | v in RangeVisits(r, visible) :: v.visible == visible
    decreases r.iEnd - r.iStart
  {
    if r.iEnd > r.iStart {
      var r' := r.(iEnd := r.iEnd - 1);
      var front := RangeVisits(r', visible);
      var row := RowVisits(r.iEnd - 1, r.jStart, r.jEnd, visible);
      RangeVisitsCover(r', visible);
      RowVisitsCover(r.iEnd - 1, r.jStart, r.jEnd, visible);
      VisitSetConcat(front, row);
      DistinctConcat(front, row);
    } else {
      assert RangeSet(r) == {};
    }
  }

  /** Every cell of the starting range is acted on exactly once, and no cell
      outside it is touched: the quadrants partition their parent and the
      recursion bottoms out in loops over whole sub-ranges. */
  lemma {:induction false} VisitsCover(target: Option<Camera>, main: Option<Camera>, f: Frame, r: Range)
    requires r.WellFormed()
    ensures VisitSet(Visits(target, main, f, r)) == RangeSet(r)
    ensures Distinct(Visits(target, main, f, r))
    decreases r.Extent()
  {
    if RectInCamera(target, main, Corners(f, r)) {
      if r.IsLeaf() {
        RangeVisitsCover(r, true);
      } else {
        var qs := Quadrants(r);
        var v0, v1 := Visits(target, main, f, qs[0]), Visits(target, main, f, qs[1]);
        var v2, v3 := Visits(target, main, f, qs[2]), Visits(target, main, f, qs[3]);
        VisitsCover(target, main, f, qs[0]);
        VisitsCover(target, main, f, qs[1]);
        VisitsCover(target, main, f, qs[2]);
        VisitsCover(target, main, f, qs[3]);
        QuadrantSets(r);
        VisitSetConcat(v0, v1);
        DistinctConcat(v0, v1);
        VisitSetConcat(v0 + v1, v2);
        DistinctConcat(v0 + v1, v2);
        VisitSetConcat(v0 + v1 + v2, v3);
        DistinctConcat(v0 + v1 + v2, v3);
      }
    } else {
      RangeVisitsCover(r, false);
    }
  }

  /** With no camera the root rectangle is rejected, so the walk deactivates
      every cell. */
  lemma NoCameraHidesAll(target: Option<Camera>, main: Option<Camera>, f: Frame, r: Range)
    requires r.WellFormed()
    requires ResolveCamera(target, main).None?
    ensures forall v | v in Visits(target, main, f, r) :: !v.visible
  {
    RangeVisitsCover(r, false);
  }

  lemma LineOrder(f: Frame, a: int, b: int)
    requires f.blockSize > 0.0 && a <= b
    ensures LineX(f, a) <= LineX(f, b) && LineZ(f, a) <= LineZ(f, b)
  {
    assert f.blockSize * (b - a) as real >= 0.0;
  }

  /** Conservative culling: a cell whose world rectangle contains a point with
      outcode 0 is activated by the walk, never deactivated. Every range that
      holds the cell holds the point, and the frustum test has no false
      negatives. */
  lemma {:induction false} VisibleCellNeverHidden(target: Option<Camera>, main: Option<Camera>, f: Frame,
                                                  r: Range, a: int, b: int, p: Point)
    requires r.WellFormed() && r.Holds(a, b) && f.blockSize > 0.0
    requires ResolveCamera(target, main).Some?
    requires LineX(f, a) <= p.x <= LineX(f, a + 1) && LineZ(f, b) <= p.z <= LineZ(f, b + 1)
    requires CornerCode(ResolveCamera(target, main).value, p) == 0
    ensures forall v | v in Visits(target, main, f, r) && VisitCell(v) == (a, b) :: v.visible
    decreases r.Extent()
  {
    LineOrder(f, r.iStart, a);
    LineOrder(f, a + 1, r.iEnd);
    LineOrder(f, r.jStart, b);
    LineOrder(f, b + 1, r.jEnd);
    NoFalseNegative(ResolveCamera(target, main).value, LineX(f, r.iStart), LineX(f, r.iEnd), LineZ(f, r.jStart), LineZ(f, r.jEnd), p);
    if r.IsLeaf() {
      RangeVisitsCover(r, true);
    } else {
      var qs := Quadrants(r);
      forall n | 0 <= n < 4
        ensures forall v | v in Visits(target, main, f, qs[n]) && VisitCell(v) == (a, b) :: v.visible
      {
        if qs[n].Holds(a, b) {
          VisibleCellNeverHidden(target, main, f, qs[n], a, b, p);
        } else {
          VisitsCover(target, main, f, qs[n]);
          forall v | v in Visits(target, main, f, qs[n]) ensures VisitCell(v) != (a, b) {
            var vs := Visits(target, main, f, qs[n]);
            var k :| 0 <= k < |vs| && vs[k] == v;
            assert VisitCell(v) in VisitSet(vs);
          }
        }
      }
    }
  }

  /** The ranges `SetAreaActiveState` activates whole with its nested loops: the
      visible leaves of its recursion. */
  function VisibleLeaves(target: Option<Camera>, main: Option<Camera>, f: Frame, r: Range): set<Range>
    requires r.WellFormed()
    decreases r.Extent()
  {
    if RectInCamera(target, main, Corners(f, r)) then
      if r.IsLeaf() then {r}
      else
        var qs := Quadrants(r);
        VisibleLeaves(target, main, f, qs[0]) + VisibleLeaves(target, main, f, qs[1]) +
        VisibleLeaves(target, main, f, qs[2]) + VisibleLeaves(target, main, f, qs[3])
    else {}
  }

  /** Every cell the walk activates lies in one of its visible leaves. */
  lemma {:induction false} VisibleVisitsInLeaves(target: Option<Camera>, main: Option<Camera>, f: Frame, r: Range)
    requires r.WellFormed()
    ensures forall v | v in Visits(target, main, f, r) && v.visible ::
              exists q :: q in VisibleLeaves(target, main, f, r) && q.Holds(v.i, v.j)
    decreases r.Extent()
  {
    var vs := Visits(target, main, f, r);
    if RectInCamera(target, main, Corners(f, r)) {
      if r.IsLeaf() {
        RangeVisitsCover(r, true);
        forall v | v in vs ensures r.Holds(v.i, v.j) {
          var k :| 0 <= k < |vs| && vs[k] == v;
          assert VisitCell(v) in VisitSet(vs);
        }
      } else {
        var qs := Quadrants(r);
        VisibleVisitsInLeaves(target, main, f, qs[0]);
        VisibleVisitsInLeaves(target, main, f, qs[1]);
        VisibleVisitsInLeaves(target, main, f, qs[2]);
        VisibleVisitsInLeaves(target, main, f, qs[3]);
        forall v | v in vs
          ensures v in Visits(target, main, f, qs[0]) || v in Visits(target, main, f, qs[1]) ||
                  v in Visits(target, main, f, qs[2]) || v in Visits(target, main, f, qs[3])
        {
        }
      }
    } else {
      RangeVisitsCover(r, false);
    }
  }

  /** Starting from a square of side `2^d`, such as the `2^depth` grid, every range
      of the recursion is a power-of-two square, so every range the walk
      activates whole is a single cell. */
  lemma {:induction false} SquareLeavesAreCells(target: Option<Camera>, main: Option<Camera>, f: Frame,
                                                r: Range, d: nat)
    requires r.WellFormed()
    requires r.iEnd - r.iStart == Pow2(d) && r.jEnd - r.jStart == Pow2(d)
    ensures forall q | q in VisibleLeaves(target, main, f, r) :: q.iEnd - q.iStart == 1 && q.jEnd - q.jStart == 1
    decreases d
  {
    if d > 0 && RectInCamera(target, main, Corners(f, r)) {
      var qs := Quadrants(r);
      forall a | 0 <= a < 4
        ensures forall q | q in VisibleLeaves(target, main, f, qs[a]) :: q.iEnd - q.iStart == 1 && q.jEnd - q.jStart == 1
      {
        QuadrantsOfSquare(r, d - 1);
        SquareLeavesAreCells(target, main, f, qs[a], d - 1);
      }
    }
  }
}
