/**
 * The room and furniture data model and the layout validator.
 * Grid cells are integer pairs (x, y) with the origin at the lower left.
 */
module Models {
  import opened Wrappers

  type Cell = (int, int)

  datatype Direction = North | East | South | West

  datatype FurnitureType = Bed | Tv | TvStand | Storage | Other

  /** Why a footprint was refused by `AssertRectInside`, with the values it reports. */
  datatype RectError =
    | NegativeOrigin(gx: int, gy: int)
    | BadSize(gw: int, gd: int)
    | OutsideRoom(xFirst: int, xLast: int, yFirst: int, yLast: int)

  /** The errors `ValidateLayout` can raise. */
  datatype LayoutError =
    | RectInvalid(name: string, reason: RectError)
    | Overlap(cell: Cell, owner: string, name: string)

  /**
   * One piece of furniture: its grid footprint `[gx, gx+gw) x [gy, gy+gd)`,
   * its height in metres and in grid cells, its category and its
   * optional fall direction and pillow side.
   */
  datatype Furniture = Furniture(
    name: string,
    gx: int, gy: int,
    gw: int, gd: int,
    hM: real,
    hCell: int,
    kind: FurnitureType,
    fallDir: Option<Direction>,
    pillowSide: Option<Direction>)

  /** The grid cells a footprint covers. */
  function Cells(f: Furniture): set<Cell>
  {
    set x, y | f.gx <= x < f.gx + f.gw && f.gy <= y < f.gy + f.gd :: (x, y)
  }

  /** The room's grid size and the exit segment's end points. */
  datatype Room = Room(gridW: int, gridH: int, exitAx: real, exitAy: real, exitBx: real, exitBy: real)
  {
    /**
     * The guard on a footprint: the checks run in order, and the first
     * one that fails decides the error.
     */
    function AssertRectInside(gx: int, gy: int, gw: int, gd: int, name: string): (r: Outcome<LayoutError>)
      ensures r.Pass? <==> 0 <= gx && 0 <= gy && 0 < gw && 0 < gd && gx + gw <= gridW && gy + gd <= gridH
      ensures r == Fail(RectInvalid(name, NegativeOrigin(gx, gy))) <==> gx < 0 || gy < 0
      ensures r == Fail(RectInvalid(name, BadSize(gw, gd))) <==> 0 <= gx && 0 <= gy && (gw <= 0 || gd <= 0)
      ensures r == Fail(RectInvalid(name, OutsideRoom(gx, gx + gw - 1, gy, gy + gd - 1)))
        <==> 0 <= gx && 0 <= gy && 0 < gw && 0 < gd && (gx + gw > gridW || gy + gd > gridH)
    {
      if gx < 0 || gy < 0 then
        Fail(RectInvalid(name, NegativeOrigin(gx, gy)))
      else if gw <= 0 || gd <= 0 then
        Fail(RectInvalid(name, BadSize(gw, gd)))
      else if gx + gw > gridW || gy + gd > gridH then
        Fail(RectInvalid(name, OutsideRoom(gx, gx + gw - 1, gy, gy + gd - 1)))
      else
        Pass
    }
  }

  /** The guard as `validate_layout` applies it to one item. */
  ghost predicate Inside(room: Room, f: Furniture)
  {
    room.AssertRectInside(f.gx, f.gy, f.gw, f.gd, f.name).Pass?
  }

  /** A footprint passes the guard exactly when it covers at least one cell and every cell it covers lies in the room. */
  lemma InsideIffCellsInGrid(room: Room, f: Furniture)
    ensures Inside(room, f) <==>
      Cells(f) != {} && forall c :: c in Cells(f) ==> 0 <= c.0 < room.gridW && 0 <= c.1 < room.gridH
  {
    if Cells(f) != {} && forall c :: c in Cells(f) ==> 0 <= c.0 < room.gridW && 0 <= c.1 < room.gridH {
      var c :| c in Cells(f);
      assert (f.gx, f.gy) in Cells(f);
      assert (f.gx + f.gw - 1, f.gy + f.gd - 1) in Cells(f);
    }
    if Inside(room, f) {
      assert (f.gx, f.gy) in Cells(f);
    }
  }

  ghost predicate AllInside(room: Room, items: seq<Furniture>)
  {
    forall k :: 0 <= k < |items| ==> Inside(room, items[k])
  }

  /** No grid cell belongs to two items' footprints. */
  ghost predicate Disjoint(items: seq<Furniture>)
  {
    forall j, k :: 0 <= j < k < |items| ==> Cells(items[j]) !! Cells(items[k])
  }

  /** What `validate_layout` accepts: every footprint inside the room, no shared cell. */
  ghost predicate LayoutOk(room: Room, items: seq<Furniture>)
  {
    AllInside(room, items) && Disjoint(items)
  }

  /** Some item of `items` covers `c`. */
  ghost predicate Covered(items: seq<Furniture>, c: Cell)
  {
    exists j :: 0 <= j < |items| && c in Cells(items[j])
  }

  /** Cell `a` is visited before cell `b` when x runs in the outer loop and y in the inner one. */
  predicate LexBefore(a: Cell, b: Cell)
  {
    a.0 < b.0 || (a.0 == b.0 && a.1 < b.1)
  }

  /** `c` is the first cell of `f`, in visiting order, that an earlier item already covers. */
  ghost predicate FirstCollision(earlier: seq<Furniture>, f: Furniture, c: Cell)
  {
    && c in Cells(f)
    && Covered(earlier, c)
    && forall c' :: c' in Cells(f) && LexBefore(c', c) ==> !Covered(earlier, c')
  }

  /** The `occupied` dictionary after the given items have all been recorded. */
  function Occupancy(items: seq<Furniture>): map<Cell, string>
  {
    if items == [] then map[]
    else
      var f := items[|items| - 1];
      Occupancy(items[..|items| - 1]) + map c | c in Cells(f) :: f.name
  }

  /** The keys of the occupancy map are exactly the cells of the recorded items. */
  lemma {:induction false} OccupancyKeys(items: seq<Furniture>)
    ensures forall c :: c in Occupancy(items) <==> Covered(items, c)
  {
    if items != [] {
      var n := |items| - 1;
      OccupancyKeys(items[..n]);
      forall c
        ensures c in Occupancy(items) <==> Covered(items, c)
      {
        if Covered(items, c) {
          var j :| 0 <= j < |items| && c in Cells(items[j]);
          if j < n {
            assert items[..n][j] == items[j];
          }
        }
        if c in Occupancy(items[..n]) {
          var j :| 0 <= j < n && c in Cells(items[..n][j]);
          assert items[j] == items[..n][j];
        }
      }
    }
  }

  /** When the recorded items are disjoint, each cell maps to the name of the item that covers it. */
  lemma {:induction false} OccupancyOwner(items: seq<Furniture>)
    requires Disjoint(items)
    ensures forall j, c :: 0 <= j < |items| && c in Cells(items[j]) ==>
      c in Occupancy(items) && Occupancy(items)[c] == items[j].name
  {
    if items != [] {
      var n := |items| - 1;
      assert Disjoint(items[..n]) by {
        forall j, k | 0 <= j < k < n
          ensures Cells(items[..n][j]) !! Cells(items[..n][k])
        {
          assert items[..n][j] == items[j] && items[..n][k] == items[k];
        }
      }
      OccupancyOwner(items[..n]);
      forall j, c | 0 <= j < |items| && c in Cells(items[j])
        ensures c in Occupancy(items) && Occupancy(items)[c] == items[j].name
      {
        if j < n {
          assert items[..n][j] == items[j];
          assert c !in Cells(items[n]);
        }
      }
    }
  }

  /** What recording one footprint into `occupied` produces. */
  datatype Claim = Claimed(occupied: map<Cell, string>) | Collision(cell: Cell, owner: string)

  /** `f`'s footprint contains `c`. */
  predicate Covers(f: Furniture, c: Cell)
  {
    f.gx <= c.0 < f.gx + f.gw && f.gy <= c.1 < f.gy + f.gd
  }

  lemma CellsCovers(f: Furniture)
    ensures forall c :: c in Cells(f) <==> Covers(f, c)
  {
    forall c | Covers(f, c)
      ensures c in Cells(f)
    {
      var (x, y) := c;
      assert (x, y) in Cells(f);
    }
  }

  /** `occ` is `occupied` with every cell of `f` before `(x, y)` recorded under `f.name`. */
  ghost predicate RecordedUpTo(occ: map<Cell, string>, occupied: map<Cell, string>, f: Furniture, x: int, y: int)
  {
    && (forall c :: c in occ <==> c in occupied || (Covers(f, c) && LexBefore(c, (x, y))))
    && (forall c :: c in occ ==> occ[c] == if c in occupied then occupied[c] else f.name)
    && (forall c :: Covers(f, c) && LexBefore(c, (x, y)) ==> c !in occupied)
  }

  /**
   * The two inner loops of `validate_layout`: visit the cells of `f` with x
   * outer and y inner, stop at the first cell already in `occupied`, and
   * otherwise record each cell under `f.name`.
   */
  method ClaimFootprint(occupied: map<Cell, string>, f: Furniture) returns (r: Claim)
    requires 0 < f.gw && 0 < f.gd
    ensures r.Claimed? <==> Cells(f) !! occupied.Keys
    ensures r.Claimed? ==> r.occupied == occupied + map c | c in Cells(f) :: f.name
    ensures r.Collision? ==>
      && r.cell in Cells(f) && r.cell in occupied && r.owner == occupied[r.cell]
      && forall c :: c in Cells(f) && LexBefore(c, r.cell) ==> c !in occupied
  {
    CellsCovers(f);
    var occ := occupied;
    var x := f.gx;
    while x < f.gx + f.gw
      invariant f.gx <= x <= f.gx + f.gw
      invariant RecordedUpTo(occ, occupied, f, x, f.gy)
    {
      var y := f.gy;
      while y < f.gy + f.gd
        invariant f.gy <= y <= f.gy + f.gd
        invariant RecordedUpTo(occ, occupied, f, x, y)
      {
        var key := (x, y);
        if key in occ {
          return Collision(key, occ[key]);
        }
        occ := occ[key := f.name];
        y := y + 1;
      }
      assert RecordedUpTo(occ, occupied, f, x + 1, f.gy) by {
        forall c ensures Covers(f, c) && LexBefore(c, (x + 1, f.gy)) <==> Covers(f, c) && LexBefore(c, (x, y)) {
        }
      }
      x := x + 1;
    }
    assert occ == occupied + map c | c in Cells(f) :: f.name;
    return Claimed(occ);
  }

  /** Appending an item that passes the guard and claims no recorded cell keeps the layout acceptable. */
  lemma ExtendLayout(room: Room, prev: seq<Furniture>, f: Furniture)
    requires LayoutOk(room, prev) && Inside(room, f) && Cells(f) !! Occupancy(prev).Keys
    ensures LayoutOk(room, prev + [f])
    ensures Occupancy(prev + [f]) == Occupancy(prev) + map c | c in Cells(f) :: f.name
  {
    var next := prev + [f];
    assert next[..|prev|] == prev;
    ClearOfEarlier(prev, f);
    DisjointSnoc(prev, f);
    assert AllInside(room, next) by {
      forall k | 0 <= k < |next|
        ensures Inside(room, next[k])
      {
        if k < |prev| {
          assert next[k] == prev[k];
        }
      }
    }
  }

  /** A footprint that avoids the occupancy map avoids every recorded footprint. */
  lemma ClearOfEarlier(prev: seq<Furniture>, f: Furniture)
    requires Cells(f) !! Occupancy(prev).Keys
    ensures forall j :: 0 <= j < |prev| ==> Cells(prev[j]) !! Cells(f)
  {
    OccupancyKeys(prev);
    forall j, c | 0 <= j < |prev| && c in Cells(prev[j])
      ensures c !in Cells(f)
    {
      assert Covered(prev, c);
    }
  }

  lemma DisjointSnoc(prev: seq<Furniture>, f: Furniture)
    requires Disjoint(prev)
    requires forall j :: 0 <= j < |prev| ==> Cells(prev[j]) !! Cells(f)
    ensures Disjoint(prev + [f])
  {
    var next := prev + [f];
    forall j, k | 0 <= j < k < |next|
      ensures Cells(next[j]) !! Cells(next[k])
    {
      assert next[j] == prev[j];
      if k < |prev| {
        assert next[k] == prev[k];
      } else {
        assert next[k] == f;
      }
    }
  }

  /** Item `i` is the first one the bounds guard refuses, with outcome `r`. */
  ghost predicate RejectedAt(room: Room, items: seq<Furniture>, i: int, r: Outcome<LayoutError>)
  {
    && 0 <= i < |items| && LayoutOk(room, items[..i])
    && r.Fail? && r == room.AssertRectInside(items[i].gx, items[i].gy, items[i].gw, items[i].gd, items[i].name)
  }

  /**
   * Item `i` is the first item that collides, `e.cell` is its first cell in
   * visiting order that an earlier item covers, and that earlier item is `j`.
   */
  ghost predicate CollidesAt(room: Room, items: seq<Furniture>, i: int, j: int, e: LayoutError)
  {
    && 0 <= j < i < |items| && LayoutOk(room, items[..i]) && Inside(room, items[i])
    && e.Overlap?
    && FirstCollision(items[..i], items[i], e.cell)
    && e.cell in Cells(items[j]) && e.owner == items[j].name && e.name == items[i].name
  }

  lemma RejectedNotOk(room: Room, items: seq<Furniture>, i: int, r: Outcome<LayoutError>)
    requires RejectedAt(room, items, i, r)
    ensures !LayoutOk(room, items)
  {
    assert !Inside(room, items[i]);
  }

  /** A collision found against the occupancy of the earlier items is a `CollidesAt` witness. */
  lemma CollisionWitness(room: Room, items: seq<Furniture>, i: int, c: Cell, owner: string)
    requires 0 <= i < |items| && LayoutOk(room, items[..i]) && Inside(room, items[i])
    requires c in Cells(items[i]) && c in Occupancy(items[..i]) && owner == Occupancy(items[..i])[c]
    requires forall c' :: c' in Cells(items[i]) && LexBefore(c', c) ==> c' !in Occupancy(items[..i])
    ensures exists j :: CollidesAt(room, items, i, j, Overlap(c, owner, items[i].name))
    ensures !LayoutOk(room, items)
  {
    var prev := items[..i];
    OccupancyKeys(prev);
    OccupancyOwner(prev);
    assert Covered(prev, c);
    var j :| 0 <= j < i && c in Cells(prev[j]);
    assert prev[j] == items[j];
    assert CollidesAt(room, items, i, j, Overlap(c, owner, items[i].name));
    assert c in Cells(items[j]) && c in Cells(items[i]);
    assert !Disjoint(items);
  }

  /**
   * `validate_layout`: check the items in list order, each first against the
   * room bounds and then cell by cell against the cells already recorded.
   */
  method ValidateLayout(room: Room, items: seq<Furniture>) returns (r: Outcome<LayoutError>)
    ensures r.Pass? <==> LayoutOk(room, items)
    ensures r.Fail? && r.error.RectInvalid? ==> exists i :: RejectedAt(room, items, i, r)
    ensures r.Fail? && r.error.Overlap? ==> exists i, j :: CollidesAt(room, items, i, j, r.error)
  {
    var occupied: map<Cell, string> := map[];
    var i := 0;
    while i < |items|
      invariant 0 <= i <= |items|
      invariant LayoutOk(room, items[..i])
      invariant occupied == Occupancy(items[..i])
    {
      var f := items[i];
      var check := room.AssertRectInside(f.gx, f.gy, f.gw, f.gd, f.name);
      if check.Fail? {
        assert RejectedAt(room, items, i, check);
        RejectedNotOk(room, items, i, check);
        return check;
      }
      var claim := ClaimFootprint(occupied, f);
      if claim.Collision? {
        CollisionWitness(room, items, i, claim.cell, claim.owner);
        return Fail(Overlap(claim.cell, claim.owner, f.name));
      }
      assert items[..i + 1] == items[..i] + [f];
      ExtendLayout(room, items[..i], f);
      occupied := claim.occupied;
      i := i + 1;
    }
    assert items[..i] == items;
    return Pass;
  }
}
