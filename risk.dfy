/**
 * The integer geometry kernel of the scorers: half-open cell rectangles,
 * their overlap area, and the fall and head-zone bands next to a footprint.
 */
module Risk {
  import opened Wrappers
  import opened Models

  /** The three-way clamp `max(lo, min(hi, v))`. */
  function Clamp(v: real, lo: real, hi: real): (r: real)
    ensures lo <= hi ==> lo <= r <= hi
    ensures lo <= v <= hi ==> r == v
    ensures v < lo ==> r == lo
    ensures lo <= hi < v ==> r == hi
    ensures hi < lo ==> r == lo
  {
    var m := if v < hi then v else hi;
    if m > lo then m else lo
  }

  /** The half-open rectangle `[x0, x1) x [y0, y1)` of grid cells. */
  datatype Rect = Rect(x0: int, y0: int, x1: int, y1: int)

  predicate WellFormed(r: Rect)
  {
    r.x0 <= r.x1 && r.y0 <= r.y1
  }

  /** Width times depth, as the source computes areas. */
  function Area(r: Rect): int
  {
    (r.x1 - r.x0) * (r.y1 - r.y0)
  }

  /** The cells a rectangle contains. */
  function RectCells(r: Rect): set<Cell>
  {
    set x, y | r.x0 <= x < r.x1 && r.y0 <= y < r.y1 :: (x, y)
  }

  predicate InRect(r: Rect, c: Cell)
  {
    r.x0 <= c.0 < r.x1 && r.y0 <= c.1 < r.y1
  }

  lemma RectCellsIn(r: Rect)
    ensures forall c :: c in RectCells(r) <==> InRect(r, c)
  {
    forall c | InRect(r, c)
      ensures c in RectCells(r)
    {
      var (x, y) := c;
      assert (x, y) in RectCells(r);
    }
  }

  /** The footprint of an item as a rectangle. */
  function RectOf(item: Furniture): (r: Rect)
    ensures RectCells(r) == Cells(item)
  {
    var r := Rect(item.gx, item.gy, item.gx + item.gw, item.gy + item.gd);
    RectCellsIn(r);
    CellsCovers(item);
    r
  }

  function Max(a: int, b: int): int { if a >= b then a else b }
  function Min(a: int, b: int): int { if a <= b then a else b }

  /** The overlap of two rectangles, measured in cells. */
  function IntersectionArea(a: Rect, b: Rect): (r: int)
    ensures r >= 0
    ensures Min(a.x1, b.x1) <= Max(a.x0, b.x0) || Min(a.y1, b.y1) <= Max(a.y0, b.y0) ==> r == 0
  {
    var x0 := Max(a.x0, b.x0);
    var y0 := Max(a.y0, b.y0);
    var x1 := Min(a.x1, b.x1);
    var y1 := Min(a.y1, b.y1);
    if x1 <= x0 || y1 <= y0 then 0 else (x1 - x0) * (y1 - y0)
  }

  /** The cells of one column `x` between rows `y0` and `y1`. */
  function Column(x: int, y0: int, y1: int): set<Cell>
  {
    set y | y0 <= y < y1 :: (x, y)
  }

  lemma {:induction false} ColumnCount(x: int, y0: int, y1: int)
    requires y0 <= y1
    ensures |Column(x, y0, y1)| == y1 - y0
    decreases y1 - y0
  {
    if y0 < y1 {
      ColumnCount(x, y0, y1 - 1);
      assert Column(x, y0, y1) == Column(x, y0, y1 - 1) + {(x, y1 - 1)};
    } else {
      assert Column(x, y0, y1) == {};
    }
  }

  lemma SplitLastColumn(r: Rect)
    requires r.x0 < r.x1
    ensures RectCells(r) == RectCells(Rect(r.x0, r.y0, r.x1 - 1, r.y1)) + Column(r.x1 - 1, r.y0, r.y1)
    ensures RectCells(Rect(r.x0, r.y0, r.x1 - 1, r.y1)) !! Column(r.x1 - 1, r.y0, r.y1)
  {
    var rest := Rect(r.x0, r.y0, r.x1 - 1, r.y1);
    RectCellsIn(r);
    RectCellsIn(rest);
  }

  lemma AreaSplit(r: Rect)
    ensures Area(r) == Area(Rect(r.x0, r.y0, r.x1 - 1, r.y1)) + (r.y1 - r.y0)
  {
    var w, h := r.x1 - r.x0, r.y1 - r.y0;
    assert w * h == (w - 1) * h + h;
  }

  /** A well-formed rectangle contains exactly `Area(r)` cells. */
  lemma {:induction false} CellCount(r: Rect)
    requires WellFormed(r)
    ensures |RectCells(r)| == Area(r)
    decreases r.x1 - r.x0
  {
    if r.x0 == r.x1 {
      RectCellsIn(r);
      assert RectCells(r) == {};
    } else {
      var rest := Rect(r.x0, r.y0, r.x1 - 1, r.y1);
      CellCount(rest);
      ColumnCount(r.x1 - 1, r.y0, r.y1);
      SplitLastColumn(r);
      AreaSplit(r);
    }
  }

  /** The rectangle both `a` and `b` contain, as the source clips it. */
  function Clip(a: Rect, b: Rect): Rect
  {
    Rect(Max(a.x0, b.x0), Max(a.y0, b.y0), Min(a.x1, b.x1), Min(a.y1, b.y1))
  }

  lemma ClipCells(a: Rect, b: Rect)
    ensures RectCells(a) * RectCells(b) == RectCells(Clip(a, b))
  {
    RectCellsIn(a);
    RectCellsIn(b);
    RectCellsIn(Clip(a, b));
  }

  /** The overlap area is the number of cells the two rectangles share. */
  lemma IntersectionAreaCountsSharedCells(a: Rect, b: Rect)
    ensures IntersectionArea(a, b) == |RectCells(a) * RectCells(b)|
  {
    var clip := Clip(a, b);
    ClipCells(a, b);
    if clip.x1 <= clip.x0 || clip.y1 <= clip.y0 {
      RectCellsIn(clip);
      assert RectCells(clip) == {};
    } else {
      CellCount(clip);
    }
  }

  lemma IntersectionAreaSymmetric(a: Rect, b: Rect)
    ensures IntersectionArea(a, b) == IntersectionArea(b, a)
  {
  }

  lemma IntersectionAreaWithin(a: Rect, b: Rect)
    requires WellFormed(a)
    ensures IntersectionArea(a, b) <= Area(a)
  {
    var shared, cells := RectCells(a) * RectCells(b), RectCells(a);
    IntersectionAreaCountsSharedCells(a, b);
    CellCount(a);
    SubsetCount(shared, cells);
  }

  lemma SubsetCount(s: set<Cell>, t: set<Cell>)
    requires s <= t
    ensures |s| <= |t|
  {
    assert s + (t - s) == t;
  }

  /** The overlap never exceeds the area of a well-formed rectangle. */
  lemma IntersectionAreaBounded(a: Rect, b: Rect)
    ensures WellFormed(a) ==> IntersectionArea(a, b) <= Area(a)
    ensures WellFormed(b) ==> IntersectionArea(a, b) <= Area(b)
  {
    if WellFormed(a) {
      IntersectionAreaWithin(a, b);
    }
    if WellFormed(b) {
      IntersectionAreaWithin(b, a);
      IntersectionAreaSymmetric(a, b);
    }
  }

  /** A layout the validator accepts has no two footprints with positive overlap area. */
  lemma AcceptedLayoutHasNoOverlap(room: Room, items: seq<Furniture>)
    requires LayoutOk(room, items)
    ensures forall i, j :: 0 <= i < |items| && 0 <= j < |items| && i != j ==>
      IntersectionArea(RectOf(items[i]), RectOf(items[j])) == 0
  {
    forall i, j | 0 <= i < |items| && 0 <= j < |items| && i != j
      ensures IntersectionArea(RectOf(items[i]), RectOf(items[j])) == 0
    {
      IntersectionAreaCountsSharedCells(RectOf(items[i]), RectOf(items[j]));
      if i < j {
        assert Cells(items[i]) !! Cells(items[j]);
      } else {
        assert Cells(items[j]) !! Cells(items[i]);
      }
      assert RectCells(RectOf(items[i])) * RectCells(RectOf(items[j])) == {};
    }
  }

  /** The band of cells an item covers when it topples: `h_cell` deep beyond the side it falls to. */
  function FallZone(item: Furniture): (r: Option<Rect>)
    ensures r.None? <==> item.fallDir.None?
  {
    match item.fallDir
    case None => None
    case Some(d) =>
      var (gx, gy, gw, gd, h) := (item.gx, item.gy, item.gw, item.gd, item.hCell);
      match d
      case North => Some(Rect(gx, gy + gd, gx + gw, gy + gd + h))
      case East => Some(Rect(gx + gw, gy, gx + gw + h, gy + gd))
      case South => Some(Rect(gx, gy - h, gx + gw, gy))
      case West => Some(Rect(gx - h, gy, gx, gy + gd))
  }

  /** Why a head zone cannot be built. */
  datatype ZoneError = MissingPillowSide(bed: string)

  /** The one-cell band beside a bed's pillow side. */
  function HeadZone(bed: Furniture): (r: Result<Rect, ZoneError>)
    ensures r.Err? <==> bed.pillowSide.None?
    ensures r.Err? ==> r.error == MissingPillowSide(bed.name)
  {
    match bed.pillowSide
    case None => Err(MissingPillowSide(bed.name))
    case Some(d) =>
      var (gx, gy, gw, gd) := (bed.gx, bed.gy, bed.gw, bed.gd);
      match d
      case North => Ok(Rect(gx, gy + gd, gx + gw, gy + gd + 1))
      case South => Ok(Rect(gx, gy - 1, gx + gw, gy))
      case East => Ok(Rect(gx + gw, gy, gx + gw + 1, gy + gd))
      case West => Ok(Rect(gx - 1, gy, gx, gy + gd))
  }

  /** The cell `k` steps back from `c`, against direction `d`. */
  function Back(c: Cell, d: Direction, k: int): Cell
  {
    match d
    case North => (c.0, c.1 - k)
    case East => (c.0 - k, c.1)
    case South => (c.0, c.1 + k)
    case West => (c.0 + k, c.1)
  }

  /**
   * The fall zone is the set of cells outside the footprint that lie at most
   * `h_cell` steps beyond it in the fall direction.
   */
  lemma FallZoneIsReach(item: Furniture, c: Cell)
    requires item.fallDir.Some? && 0 < item.gw && 0 < item.gd
    ensures c in RectCells(FallZone(item).value) <==>
      c !in Cells(item) && exists k :: 1 <= k <= item.hCell && Back(c, item.fallDir.value, k) in Cells(item)
  {
    var z := FallZone(item).value;
    var d := item.fallDir.value;
    RectCellsIn(z);
    CellsCovers(item);
    if c in RectCells(z) {
      var k;
      if d == North {
        k := c.1 - (item.gy + item.gd - 1);
      } else if d == East {
        k := c.0 - (item.gx + item.gw - 1);
      } else if d == South {
        k := item.gy - c.1;
      } else {
        k := item.gx - c.0;
      }
      assert Covers(item, Back(c, d, k));
    }
  }

  /** The head zone is the set of cells outside the bed one step beyond its pillow side. */
  lemma HeadZoneIsNeighbourRow(bed: Furniture, c: Cell)
    requires bed.pillowSide.Some? && 0 < bed.gw && 0 < bed.gd
    ensures c in RectCells(HeadZone(bed).value) <==>
      c !in Cells(bed) && Back(c, bed.pillowSide.value, 1) in Cells(bed)
  {
    RectCellsIn(HeadZone(bed).value);
    CellsCovers(bed);
    assert c in Cells(bed) <==> Covers(bed, c);
    assert Back(c, bed.pillowSide.value, 1) in Cells(bed) <==> Covers(bed, Back(c, bed.pillowSide.value, 1));
  }

  /** A fall zone covers `gw * h_cell` cells (north, south) or `gd * h_cell` cells (east, west). */
  lemma FallZoneCellCount(item: Furniture)
    requires item.fallDir.Some? && 0 <= item.gw && 0 <= item.gd && 0 <= item.hCell
    ensures |RectCells(FallZone(item).value)| ==
      if item.fallDir.value in {North, South} then item.gw * item.hCell else item.gd * item.hCell
  {
    CellCount(FallZone(item).value);
  }

  /** A head zone covers `gw` cells (north, south) or `gd` cells (east, west). */
  lemma HeadZoneCellCount(bed: Furniture)
    requires bed.pillowSide.Some? && 0 <= bed.gw && 0 <= bed.gd
    ensures |RectCells(HeadZone(bed).value)| ==
      if bed.pillowSide.value in {North, South} then bed.gw else bed.gd
  {
    CellCount(HeadZone(bed).value);
  }

  /** Neither band overlaps its own item's footprint, whatever the sizes. */
  lemma ZonesClearOfFootprint(item: Furniture)
    ensures item.fallDir.Some? ==> IntersectionArea(FallZone(item).value, RectOf(item)) == 0
    ensures item.pillowSide.Some? ==> IntersectionArea(HeadZone(item).value, RectOf(item)) == 0
  {
  }

  /** Reflection of a rectangle across the horizontal line `y = axis / 2`. */
  function MirrorY(r: Rect, axis: int): Rect
  {
    Rect(r.x0, axis - r.y1, r.x1, axis - r.y0)
  }

  /** Reflection of a rectangle across the vertical line `x = axis / 2`. */
  function MirrorX(r: Rect, axis: int): Rect
  {
    Rect(axis - r.x1, r.y0, axis - r.x0, r.y1)
  }

  /** The south and west bands are the north and east bands reflected through the footprint's centre lines. */
  lemma ZonesMirror(item: Furniture)
    ensures FallZone(item.(fallDir := Some(South))).value
      == MirrorY(FallZone(item.(fallDir := Some(North))).value, 2 * item.gy + item.gd)
    ensures FallZone(item.(fallDir := Some(West))).value
      == MirrorX(FallZone(item.(fallDir := Some(East))).value, 2 * item.gx + item.gw)
    ensures HeadZone(item.(pillowSide := Some(South))).value
      == MirrorY(HeadZone(item.(pillowSide := Some(North))).value, 2 * item.gy + item.gd)
    ensures HeadZone(item.(pillowSide := Some(West))).value
      == MirrorX(HeadZone(item.(pillowSide := Some(East))).value, 2 * item.gx + item.gw)
  {
  }

  /** The head zone is built like a fall zone of depth one towards the pillow side. */
  lemma HeadZoneIsUnitFallZone(bed: Furniture)
    requires bed.pillowSide.Some?
    ensures HeadZone(bed).value == FallZone(bed.(fallDir := bed.pillowSide, hCell := 1)).value
  {
  }
}
