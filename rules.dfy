/**
 * The hazard rules of the scorer. Each rule walks the furniture list with
 * nested loops, adds `1.0 + 0.1 * overlap` (or the exit-distance bonus) to a
 * running score and appends one violation per hit. Each method is proved
 * equal to a specification function, and the lemmas below characterise
 * those functions.
 */
module Rules {
  import opened Wrappers
  import opened Models
  import opened Risk

  /** A detected hazard, in place of the formatted message the source appends. */
  datatype Violation =
    | FallOntoBed(item: string, bed: string, overlap: int)
    | ExitBlocked(item: string, hCell: int, dist: real)
    | ScreenAtBedHead(screen: string, bed: string, overlap: int)

  /** An item at least this many cells tall counts as tall. */
  const TallThreshold: int := 5
  /** An item centre at most this far from the exit counts as near it. */
  const NearExitThreshold: real := 2.0

  /** What one violation adds to its rule's score. */
  function Points(v: Violation): real
  {
    match v
    case FallOntoBed(_, _, o) => 1.0 + 0.1 * o as real
    case ExitBlocked(_, _, d) => 1.0 + (NearExitThreshold - d)
    case ScreenAtBedHead(_, _, o) => 1.0 + 0.1 * o as real
  }

  /** The score a rule reports for the violations it found, summed in order. */
  function Score(vs: seq<Violation>): real
  {
    if vs == [] then 0.0 else Score(vs[..|vs| - 1]) + Points(vs[|vs| - 1])
  }

  lemma ScoreSnoc(vs: seq<Violation>, v: Violation)
    ensures Score(vs + [v]) == Score(vs) + Points(v)
  {
    assert (vs + [v])[..|vs|] == vs;
  }

  function OverlapOf(v: Violation): int
  {
    match v
    case FallOntoBed(_, _, o) => o
    case ExitBlocked(_, _, _) => 0
    case ScreenAtBedHead(_, _, o) => o
  }

  function TotalOverlap(vs: seq<Violation>): int
  {
    if vs == [] then 0 else TotalOverlap(vs[..|vs| - 1]) + OverlapOf(vs[|vs| - 1])
  }

  /** For the two overlap rules the score is the number of violations plus a tenth of the overlapping cells. */
  lemma {:induction false} ScoreIsCountPlusTenthOverlap(vs: seq<Violation>)
    requires forall v :: v in vs ==> !v.ExitBlocked?
    ensures Score(vs) == |vs| as real + 0.1 * TotalOverlap(vs) as real
  {
    if vs != [] {
      var init := vs[..|vs| - 1];
      assert forall v :: v in init ==> v in vs;
      ScoreIsCountPlusTenthOverlap(init);
      assert vs[|vs| - 1] in vs;
    }
  }

  /** A violation as the rules emit it: positive overlap, or an exit distance within the threshold. */
  predicate Emitted(v: Violation)
  {
    match v
    case FallOntoBed(_, _, o) => o > 0
    case ExitBlocked(_, _, d) => d <= NearExitThreshold
    case ScreenAtBedHead(_, _, o) => o > 0
  }

  /** Every violation adds at least one point, so a score is never below its violation count. */
  lemma {:induction false} ScoreAtLeastCount(vs: seq<Violation>)
    requires forall v :: v in vs ==> Emitted(v)
    ensures Score(vs) >= |vs| as real >= 0.0
  {
    if vs != [] {
      var init := vs[..|vs| - 1];
      assert forall v :: v in init ==> v in vs;
      ScoreAtLeastCount(init);
      assert Emitted(vs[|vs| - 1]);
    }
  }

  /** The beds of a layout, in list order. */
  function Beds(items: seq<Furniture>): (r: seq<Furniture>)
    ensures forall f :: f in r <==> f in items && f.kind == Bed
    ensures |r| <= |items|
  {
    if items == [] then []
    else
      var init, f := items[..|items| - 1], items[|items| - 1];
      assert items == init + [f];
      Beds(init) + (if f.kind == Bed then [f] else [])
  }

  predicate IsScreen(f: Furniture)
  {
    f.kind == Tv || f.kind == TvStand
  }

  /** The TVs and TV stands of a layout, in list order. */
  function Screens(items: seq<Furniture>): (r: seq<Furniture>)
    ensures forall f :: f in r <==> f in items && IsScreen(f)
    ensures |r| <= |items|
  {
    if items == [] then []
    else
      var init, f := items[..|items| - 1], items[|items| - 1];
      assert items == init + [f];
      Screens(init) + (if IsScreen(f) then [f] else [])
  }

  /** A single item is kept by the bed filter exactly when it is a bed. */
  lemma BedsOne(f: Furniture)
    ensures Beds([f]) == if f.kind == Bed then [f] else []
  {
    assert [f][..0] == [];
  }

  /** The bed filter keeps list order and duplicates: it distributes over concatenation. */
  lemma {:induction false} BedsAppend(a: seq<Furniture>, b: seq<Furniture>)
    ensures Beds(a + b) == Beds(a) + Beds(b)
    decreases |b|
  {
    if b == [] {
      assert a + b == a;
    } else {
      var init, f := b[..|b| - 1], b[|b| - 1];
      assert (a + b)[..|a + b| - 1] == a + init;
      assert (a + b)[|a + b| - 1] == f;
      BedsAppend(a, init);
      var keep := if f.kind == Bed then [f] else [];
      calc {
        Beds(a + b);
        Beds(a + init) + keep;
        (Beds(a) + Beds(init)) + keep;
        Beds(a) + (Beds(init) + keep);
        Beds(a) + Beds(b);
      }
    }
  }

  /** A single item is kept by the screen filter exactly when it is a TV or a TV stand. */
  lemma ScreensOne(f: Furniture)
    ensures Screens([f]) == if IsScreen(f) then [f] else []
  {
    assert [f][..0] == [];
  }

  /** The screen filter keeps list order and duplicates: it distributes over concatenation. */
  lemma {:induction false} ScreensAppend(a: seq<Furniture>, b: seq<Furniture>)
    ensures Screens(a + b) == Screens(a) + Screens(b)
    decreases |b|
  {
    if b == [] {
      assert a + b == a;
    } else {
      var init, f := b[..|b| - 1], b[|b| - 1];
      assert (a + b)[..|a + b| - 1] == a + init;
      assert (a + b)[|a + b| - 1] == f;
      ScreensAppend(a, init);
      var keep := if IsScreen(f) then [f] else [];
      calc {
        Screens(a + b);
        Screens(a + init) + keep;
        (Screens(a) + Screens(init)) + keep;
        Screens(a) + (Screens(init) + keep);
        Screens(a) + Screens(b);
      }
    }
  }

  // ---------------------------------------------------------------------
  // Rule 1: a toppling item's fall zone reaches a bed.
  // ---------------------------------------------------------------------

  /** The violation `item`'s fall onto `bed` produces. */
  ghost predicate FallHit(item: Furniture, bed: Furniture, v: Violation)
  {
    && item.kind != Bed
    && FallZone(item).Some?
    && var o := IntersectionArea(FallZone(item).value, RectOf(bed));
       o > 0 && v == FallOntoBed(item.name, bed.name, o)
  }

  /** The hits of one fall zone on the beds, in bed order. */
  function BedHits(zone: Rect, item: Furniture, beds: seq<Furniture>): seq<Violation>
  {
    if beds == [] then []
    else BedHits(zone, item, beds[..|beds| - 1]) + BedHit(zone, item, beds[|beds| - 1])
  }

  /** The violation, if any, of one fall zone on one bed. */
  function BedHit(zone: Rect, item: Furniture, bed: Furniture): seq<Violation>
  {
    var o := IntersectionArea(zone, RectOf(bed));
    if o > 0 then [FallOntoBed(item.name, bed.name, o)] else []
  }

  /** What one item contributes to rule 1: nothing for a bed or an item that cannot fall. */
  function ItemFallHits(item: Furniture, beds: seq<Furniture>): seq<Violation>
  {
    if item.kind == Bed then []
    else
      match FallZone(item)
      case None => []
      case Some(zone) => BedHits(zone, item, beds)
  }

  /** Rule 1's violations: items in list order, and for each the beds in list order. */
  function FallViolations(items: seq<Furniture>, beds: seq<Furniture>): seq<Violation>
  {
    if items == [] then []
    else FallViolations(items[..|items| - 1], beds) + ItemFallHits(items[|items| - 1], beds)
  }

  /** The inner loop of `score_fall_hazard_to_bed`: one fall zone tested against every bed. */
  method AddBedHits(zone: Rect, item: Furniture, beds: seq<Furniture>, score0: real, violations0: seq<Violation>)
    returns (score: real, violations: seq<Violation>)
    requires score0 == Score(violations0)
    ensures violations == violations0 + BedHits(zone, item, beds)
    ensures score == Score(violations)
  {
    score, violations := score0, violations0;
    var k := 0;
    while k < |beds|
      invariant 0 <= k <= |beds|
      invariant violations == violations0 + BedHits(zone, item, beds[..k])
      invariant score == Score(violations)
    {
      var bed := beds[k];
      var overlap := IntersectionArea(zone, RectOf(bed));
      assert beds[..k + 1][..k] == beds[..k];
      if overlap > 0 {
        var raw := 1.0 + 0.1 * overlap as real;
        ScoreSnoc(violations, FallOntoBed(item.name, bed.name, overlap));
        score := score + raw;
        violations := violations + [FallOntoBed(item.name, bed.name, overlap)];
      }
      k := k + 1;
    }
    assert beds[..k] == beds;
  }

  /** `score_fall_hazard_to_bed`. The room is not consulted. */
  method ScoreFallHazardToBed(room: Room, items: seq<Furniture>) returns (score: real, violations: seq<Violation>)
    ensures violations == FallViolations(items, Beds(items))
    ensures score == Score(violations)
  {
    score, violations := 0.0, [];
    var beds := Beds(items);
    var i := 0;
    while i < |items|
      invariant 0 <= i <= |items|
      invariant violations == FallViolations(items[..i], beds)
      invariant score == Score(violations)
    {
      var item := items[i];
      assert items[..i + 1][..i] == items[..i];
      if item.kind != Bed {
        var zone := FallZone(item);
        if zone.Some? {
          score, violations := AddBedHits(zone.value, item, beds, score, violations);
        }
      }
      i := i + 1;
    }
    assert items[..i] == items;
  }

  lemma {:induction false} BedHitsMembers(zone: Rect, item: Furniture, beds: seq<Furniture>, v: Violation)
    ensures v in BedHits(zone, item, beds) <==>
      exists bed :: bed in beds && IntersectionArea(zone, RectOf(bed)) > 0
        && v == FallOntoBed(item.name, bed.name, IntersectionArea(zone, RectOf(bed)))
  {
    if beds != [] {
      var init := beds[..|beds| - 1];
      assert beds == init + [beds[|beds| - 1]];
      BedHitsMembers(zone, item, init, v);
    }
  }

  lemma {:induction false} FallViolationsMembers(items: seq<Furniture>, beds: seq<Furniture>, v: Violation)
    ensures v in FallViolations(items, beds) <==>
      exists item, bed :: item in items && bed in beds && FallHit(item, bed, v)
  {
    if items != [] {
      var init, item := items[..|items| - 1], items[|items| - 1];
      assert items == init + [item];
      FallViolationsMembers(init, beds, v);
      assert FallViolations(items, beds) == FallViolations(init, beds) + ItemFallHits(item, beds);
      if v in ItemFallHits(item, beds) {
        BedHitsMembers(FallZone(item).value, item, beds, v);
        var bed :| bed in beds && IntersectionArea(FallZone(item).value, RectOf(bed)) > 0
          && v == FallOntoBed(item.name, bed.name, IntersectionArea(FallZone(item).value, RectOf(bed)));
        assert FallHit(item, bed, v);
      }
      if exists it, bed :: it in items && bed in beds && FallHit(it, bed, v) {
        var it, bed :| it in items && bed in beds && FallHit(it, bed, v);
        if it != item {
          assert it in init;
        } else {
          BedHitsMembers(FallZone(item).value, item, beds, v);
        }
      }
    }
  }

  /**
   * Rule 1 emits exactly the falls of a non-bed item with a fall direction
   * onto a bed of the layout with positive overlap.
   */
  lemma FallRuleFindsExactlyHits(items: seq<Furniture>, v: Violation)
    ensures v in FallViolations(items, Beds(items)) <==>
      exists item, bed :: item in items && bed in items && bed.kind == Bed && FallHit(item, bed, v)
  {
    FallViolationsMembers(items, Beds(items), v);
  }

  lemma {:induction false} BedHitsAppend(zone: Rect, item: Furniture, b1: seq<Furniture>, b2: seq<Furniture>)
    ensures BedHits(zone, item, b1 + b2) == BedHits(zone, item, b1) + BedHits(zone, item, b2)
    decreases |b2|
  {
    if b2 == [] {
      assert b1 + b2 == b1;
    } else {
      var init, bed := b2[..|b2| - 1], b2[|b2| - 1];
      var tail := BedHit(zone, item, bed);
      assert (b1 + b2)[..|b1 + b2| - 1] == b1 + init;
      assert (b1 + b2)[|b1 + b2| - 1] == bed;
      assert BedHits(zone, item, b1 + b2) == BedHits(zone, item, b1 + init) + tail;
      assert BedHits(zone, item, b2) == BedHits(zone, item, init) + tail;
      BedHitsAppend(zone, item, b1, init);
    }
  }

  /** Rule 1 lists every violation of an earlier item before those of a later one. */
  lemma {:induction false} FallViolationsAppend(a: seq<Furniture>, b: seq<Furniture>, beds: seq<Furniture>)
    ensures FallViolations(a + b, beds) == FallViolations(a, beds) + FallViolations(b, beds)
    decreases |b|
  {
    if b == [] {
      assert a + b == a;
    } else {
      var init, item := b[..|b| - 1], b[|b| - 1];
      assert (a + b)[..|a + b| - 1] == a + init;
      assert (a + b)[|a + b| - 1] == item;
      FallViolationsAppend(a, init, beds);
      var hits := ItemFallHits(item, beds);
      calc {
        FallViolations(a + b, beds);
        FallViolations(a + init, beds) + hits;
        (FallViolations(a, beds) + FallViolations(init, beds)) + hits;
        FallViolations(a, beds) + (FallViolations(init, beds) + hits);
        FallViolations(a, beds) + FallViolations(b, beds);
      }
    }
  }

  /** For one item, rule 1 lists the hits on earlier beds before those on later beds. */
  lemma FallViolationsBedOrder(item: Furniture, b1: seq<Furniture>, b2: seq<Furniture>)
    ensures FallViolations([item], b1 + b2) == FallViolations([item], b1) + FallViolations([item], b2)
  {
    assert [item][..0] == [];
    if item.kind != Bed && FallZone(item).Some? {
      BedHitsAppend(FallZone(item).value, item, b1, b2);
    }
  }

  /** One item and one bed produce at most one violation, and it is their hit. */
  lemma FallViolationsPair(item: Furniture, bed: Furniture)
    ensures |FallViolations([item], [bed])| <= 1
    ensures forall v :: v in FallViolations([item], [bed]) <==> FallHit(item, bed, v)
  {
    assert [item][..0] == [];
    assert [bed][..0] == [];
    assert FallViolations([item], [bed]) == FallViolations([], [bed]) + ItemFallHits(item, [bed]);
    if item.kind != Bed && FallZone(item).Some? {
      var zone := FallZone(item).value;
      assert BedHits(zone, item, [bed]) == BedHits(zone, item, []) + BedHit(zone, item, bed);
    }
  }

  /** A bed, or an item without a fall direction, adds nothing to rule 1 wherever it stands in the list. */
  lemma FallSkips(before: seq<Furniture>, item: Furniture, after: seq<Furniture>, beds: seq<Furniture>)
    requires item.kind == Bed || item.fallDir.None?
    ensures FallViolations(before + [item] + after, beds) == FallViolations(before + after, beds)
  {
    assert (before + [item])[..|before|] == before;
    assert FallViolations(before + [item], beds) == FallViolations(before, beds) + [];
    FallViolationsAppend(before + [item], after, beds);
    FallViolationsAppend(before, after, beds);
  }

  /** Without beds, rule 1 finds nothing and scores zero. */
  lemma {:induction false} FallNoBeds(items: seq<Furniture>)
    ensures FallViolations(items, []) == []
    ensures Score(FallViolations(items, [])) == 0.0
  {
    if items != [] {
      FallNoBeds(items[..|items| - 1]);
    }
  }

  /** Rule 1's score is its violation count plus a tenth of the overlapping cells, and so at least the count. */
  lemma FallScore(items: seq<Furniture>)
    ensures var vs := FallViolations(items, Beds(items));
      Score(vs) == |vs| as real + 0.1 * TotalOverlap(vs) as real && Score(vs) >= |vs| as real
  {
    var vs := FallViolations(items, Beds(items));
    forall v | v in vs
      ensures v.FallOntoBed? && v.overlap > 0
    {
      FallViolationsMembers(items, Beds(items), v);
    }
    ScoreIsCountPlusTenthOverlap(vs);
    ScoreAtLeastCount(vs);
  }

  // ---------------------------------------------------------------------
  // Rule 2: a tall item stands near the exit.
  // ---------------------------------------------------------------------

  /**
   * The distance from an item's footprint centre to the room's exit segment,
   * given the point-to-segment distance `segDist(px, py, ax, ay, bx, by)`.
   */
  function ExitDist(room: Room, item: Furniture, segDist: (real, real, real, real, real, real) -> real): real
  {
    var cx := item.gx as real + item.gw as real / 2.0;
    var cy := item.gy as real + item.gd as real / 2.0;
    segDist(cx, cy, room.exitAx, room.exitAy, room.exitBx, room.exitBy)
  }

  /** Rule 2's violations, in item order. */
  function ExitViolations(room: Room, items: seq<Furniture>, segDist: (real, real, real, real, real, real) -> real): seq<Violation>
  {
    if items == [] then []
    else ExitViolations(room, items[..|items| - 1], segDist) + ExitHit(room, items[|items| - 1], segDist)
  }

  /** The violation, if any, of one item under rule 2. */
  function ExitHit(room: Room, item: Furniture, segDist: (real, real, real, real, real, real) -> real): seq<Violation>
  {
    var d := ExitDist(room, item, segDist);
    if item.hCell < TallThreshold || d > NearExitThreshold then [] else [ExitBlocked(item.name, item.hCell, d)]
  }

  lemma ExitViolationsSnoc(room: Room, items: seq<Furniture>, i: nat,
                           segDist: (real, real, real, real, real, real) -> real)
    requires i < |items|
    ensures ExitViolations(room, items[..i + 1], segDist)
      == ExitViolations(room, items[..i], segDist) + ExitHit(room, items[i], segDist)
  {
    assert items[..i + 1][..i] == items[..i];
  }

  /** `score_exit_blocking_by_tall_items`, with the point-to-segment distance as a parameter. */
  method ScoreExitBlockingByTallItems(room: Room, items: seq<Furniture>, segDist: (real, real, real, real, real, real) -> real)
    returns (score: real, violations: seq<Violation>)
    ensures violations == ExitViolations(room, items, segDist)
    ensures score == Score(violations)
  {
    score, violations := 0.0, [];
    var i := 0;
    while i < |items|
      invariant 0 <= i <= |items|
      invariant violations == ExitViolations(room, items[..i], segDist)
      invariant score == Score(violations)
    {
      var item := items[i];
      ExitViolationsSnoc(room, items, i, segDist);
      if item.hCell >= TallThreshold {
        var dist := ExitDist(room, item, segDist);
        if dist <= NearExitThreshold {
          var raw := 1.0 + (NearExitThreshold - dist);
          ScoreSnoc(violations, ExitBlocked(item.name, item.hCell, dist));
          score := score + raw;
          violations := violations + [ExitBlocked(item.name, item.hCell, dist)];
        } else {
          assert violations + ExitHit(room, item, segDist) == violations;
        }
      } else {
        assert violations + ExitHit(room, item, segDist) == violations;
      }
      i := i + 1;
    }
    assert items[..i] == items;
  }

  /** Rule 2 emits exactly the tall items whose centre is within the threshold of the exit. */
  lemma {:induction false} ExitViolationsMembers(room: Room, items: seq<Furniture>,
                                                 segDist: (real, real, real, real, real, real) -> real, v: Violation)
    ensures v in ExitViolations(room, items, segDist) <==>
      exists item :: item in items && item.hCell >= TallThreshold && ExitDist(room, item, segDist) <= NearExitThreshold
        && v == ExitBlocked(item.name, item.hCell, ExitDist(room, item, segDist))
  {
    if items != [] {
      var init := items[..|items| - 1];
      assert items == init + [items[|items| - 1]];
      ExitViolationsMembers(room, init, segDist, v);
    }
  }

  /** One item gives at most one rule 2 violation, exactly when it is tall and near the exit. */
  lemma ExitViolationsOne(room: Room, item: Furniture, segDist: (real, real, real, real, real, real) -> real)
    ensures |ExitViolations(room, [item], segDist)| <= 1
    ensures |ExitViolations(room, [item], segDist)| == 1 <==>
      item.hCell >= TallThreshold && ExitDist(room, item, segDist) <= NearExitThreshold
  {
    assert [item][..0] == [];
  }

  /** Rule 2 lists the violations of earlier items first. */
  lemma {:induction false} ExitViolationsAppend(room: Room, a: seq<Furniture>, b: seq<Furniture>,
                                                segDist: (real, real, real, real, real, real) -> real)
    ensures ExitViolations(room, a + b, segDist) == ExitViolations(room, a, segDist) + ExitViolations(room, b, segDist)
    decreases |b|
  {
    if b == [] {
      assert a + b == a;
    } else {
      var init := b[..|b| - 1];
      assert (a + b)[..|a + b| - 1] == a + init;
      ExitViolationsAppend(room, a, init, segDist);
    }
  }

  /** Each rule 2 violation adds between 1 and 3 points when distances are never negative. */
  lemma {:induction false} ExitScoreBounds(room: Room, items: seq<Furniture>,
                                           segDist: (real, real, real, real, real, real) -> real)
    requires forall px, py, ax, ay, qx, qy :: segDist(px, py, ax, ay, qx, qy) >= 0.0
    ensures var vs := ExitViolations(room, items, segDist);
      |vs| as real <= Score(vs) <= 3.0 * |vs| as real
  {
    if items != [] {
      var init := items[..|items| - 1];
      ExitScoreBounds(room, init, segDist);
      var item := items[|items| - 1];
      var d := ExitDist(room, item, segDist);
      var vs := ExitViolations(room, init, segDist);
      if item.hCell < TallThreshold || d > NearExitThreshold {
        assert ExitViolations(room, items, segDist) == vs + [];
        assert vs + [] == vs;
      } else {
        assert ExitViolations(room, items, segDist) == vs + [ExitBlocked(item.name, item.hCell, d)];
        ScoreSnoc(vs, ExitBlocked(item.name, item.hCell, d));
        assert 0.0 <= d <= 2.0;
      }
    }
  }

  // ---------------------------------------------------------------------
  // Rule 3: a screen stands in a bed's head zone.
  // ---------------------------------------------------------------------

  /** The violation a screen inside `bed`'s head zone produces. */
  ghost predicate ScreenHit(bed: Furniture, tv: Furniture, v: Violation)
  {
    && bed.pillowSide.Some?
    && var o := IntersectionArea(HeadZone(bed).value, RectOf(tv));
       o > 0 && v == ScreenAtBedHead(tv.name, bed.name, o)
  }

  /** The hits of one head zone on the screens, in screen order. */
  function ScreenHits(zone: Rect, bed: Furniture, screens: seq<Furniture>): seq<Violation>
  {
    if screens == [] then []
    else ScreenHits(zone, bed, screens[..|screens| - 1]) + ScreenInZone(zone, bed, screens[|screens| - 1])
  }

  /** The violation, if any, of one head zone on one screen. */
  function ScreenInZone(zone: Rect, bed: Furniture, tv: Furniture): seq<Violation>
  {
    var o := IntersectionArea(zone, RectOf(tv));
    if o > 0 then [ScreenAtBedHead(tv.name, bed.name, o)] else []
  }

  /**
   * Rule 3's violations: beds in list order, and for each the screens in list
   * order; the first bed without a pillow side aborts the rule.
   */
  function ScreenViolations(beds: seq<Furniture>, screens: seq<Furniture>): Result<seq<Violation>, ZoneError>
  {
    if beds == [] then Ok([])
    else ScreenStep(ScreenViolations(beds[..|beds| - 1], screens), beds[|beds| - 1], screens)
  }

  /** One pass of the outer loop of rule 3: abort on an earlier error or a missing pillow side, else add the bed's hits. */
  function ScreenStep(sofar: Result<seq<Violation>, ZoneError>, bed: Furniture, screens: seq<Furniture>): Result<seq<Violation>, ZoneError>
  {
    match sofar
    case Err(e) => Err(e)
    case Ok(vs) =>
      match HeadZone(bed)
      case Err(e) => Err(e)
      case Ok(zone) => Ok(vs + ScreenHits(zone, bed, screens))
  }

  /** Once a prefix of the beds fails, the whole rule fails with the same error. */
  lemma {:induction false} ScreenErrorSticks(beds: seq<Furniture>, screens: seq<Furniture>, k: nat)
    requires k <= |beds| && ScreenViolations(beds[..k], screens).Err?
    ensures ScreenViolations(beds, screens) == ScreenViolations(beds[..k], screens)
    decreases |beds| - k
  {
    if k < |beds| {
      var init := beds[..|beds| - 1];
      assert init[..k] == beds[..k];
      ScreenErrorSticks(init, screens, k);
    } else {
      assert beds[..k] == beds;
    }
  }

  /** The inner loop of `score_tv_hazard_near_bed_head`: one head zone tested against every screen. */
  method AddScreenHits(zone: Rect, bed: Furniture, screens: seq<Furniture>, score0: real, violations0: seq<Violation>)
    returns (score: real, violations: seq<Violation>)
    requires score0 == Score(violations0)
    ensures violations == violations0 + ScreenHits(zone, bed, screens)
    ensures score == Score(violations)
  {
    score, violations := score0, violations0;
    var t := 0;
    while t < |screens|
      invariant 0 <= t <= |screens|
      invariant violations == violations0 + ScreenHits(zone, bed, screens[..t])
      invariant score == Score(violations)
    {
      var tv := screens[t];
      var overlap := IntersectionArea(zone, RectOf(tv));
      assert screens[..t + 1][..t] == screens[..t];
      if overlap > 0 {
        var raw := 1.0 + 0.1 * overlap as real;
        ScoreSnoc(violations, ScreenAtBedHead(tv.name, bed.name, overlap));
        score := score + raw;
        violations := violations + [ScreenAtBedHead(tv.name, bed.name, overlap)];
      }
      t := t + 1;
    }
    assert screens[..t] == screens;
  }

  lemma ScreenViolationsSnoc(beds: seq<Furniture>, k: nat, screens: seq<Furniture>)
    requires k < |beds|
    ensures ScreenViolations(beds[..k + 1], screens) == ScreenStep(ScreenViolations(beds[..k], screens), beds[k], screens)
  {
    assert beds[..k + 1][..k] == beds[..k];
  }

  /** `score_tv_hazard_near_bed_head`. The room is not consulted. */
  method ScoreTvHazardNearBedHead(room: Room, items: seq<Furniture>) returns (r: Result<(real, seq<Violation>), ZoneError>)
    ensures var spec := ScreenViolations(Beds(items), Screens(items));
      && (r.Err? <==> spec.Err?)
      && (r.Err? ==> r.error == spec.error)
      && (r.Ok? ==> r.value == (Score(spec.value), spec.value))
  {
    var score, violations := 0.0, [];
    var beds := Beds(items);
    var tvItems := Screens(items);
    var k := 0;
    while k < |beds|
      invariant 0 <= k <= |beds|
      invariant ScreenViolations(beds[..k], tvItems) == Ok(violations)
      invariant score == Score(violations)
    {
      var bed := beds[k];
      ScreenViolationsSnoc(beds, k, tvItems);
      var headZone := HeadZone(bed);
      if headZone.Err? {
        assert ScreenViolations(beds[..k + 1], tvItems) == Err(headZone.error);
        ScreenErrorSticks(beds, tvItems, k + 1);
        return Err(headZone.error);
      }
      score, violations := AddScreenHits(headZone.value, bed, tvItems, score, violations);
      k := k + 1;
    }
    assert beds[..k] == beds;
    return Ok((score, violations));
  }

  /** Rule 3 fails exactly when some bed lacks a pillow side, and then names the first such bed. */
  lemma {:induction false} ScreenRuleFails(beds: seq<Furniture>, screens: seq<Furniture>)
    ensures ScreenViolations(beds, screens).Err? <==> exists bed :: bed in beds && bed.pillowSide.None?
    ensures ScreenViolations(beds, screens).Err? ==>
      exists k :: 0 <= k < |beds| && beds[k].pillowSide.None?
        && (forall k' :: 0 <= k' < k ==> beds[k'].pillowSide.Some?)
        && ScreenViolations(beds, screens).error == MissingPillowSide(beds[k].name)
  {
    if beds != [] {
      var init, bed := beds[..|beds| - 1], beds[|beds| - 1];
      assert beds == init + [bed];
      ScreenRuleFails(init, screens);
      if ScreenViolations(init, screens).Err? {
        var k :| 0 <= k < |init| && init[k].pillowSide.None?
          && (forall k' :: 0 <= k' < k ==> init[k'].pillowSide.Some?)
          && ScreenViolations(init, screens).error == MissingPillowSide(init[k].name);
        assert beds[k] == init[k];
        assert forall k' :: 0 <= k' < k ==> beds[k'] == init[k'];
      } else if bed.pillowSide.None? {
        assert forall k' :: 0 <= k' < |init| ==> beds[k'] == init[k'] && init[k'] in init;
      }
    }
  }

  lemma {:induction false} ScreenHitsMembers(zone: Rect, bed: Furniture, screens: seq<Furniture>, v: Violation)
    ensures v in ScreenHits(zone, bed, screens) <==>
      exists tv :: tv in screens && IntersectionArea(zone, RectOf(tv)) > 0
        && v == ScreenAtBedHead(tv.name, bed.name, IntersectionArea(zone, RectOf(tv)))
  {
    if screens != [] {
      var init := screens[..|screens| - 1];
      assert screens == init + [screens[|screens| - 1]];
      ScreenHitsMembers(zone, bed, init, v);
    }
  }

  lemma {:induction false} ScreenViolationsMembers(beds: seq<Furniture>, screens: seq<Furniture>, v: Violation)
    requires ScreenViolations(beds, screens).Ok?
    ensures v in ScreenViolations(beds, screens).value <==>
      exists bed, tv :: bed in beds && tv in screens && ScreenHit(bed, tv, v)
  {
    if beds != [] {
      var init, bed := beds[..|beds| - 1], beds[|beds| - 1];
      assert beds == init + [bed];
      assert ScreenViolations(init, screens).Ok?;
      ScreenViolationsMembers(init, screens, v);
      var zone := HeadZone(bed).value;
      assert ScreenViolations(beds, screens).value
        == ScreenViolations(init, screens).value + ScreenHits(zone, bed, screens);
      ScreenHitsMembers(zone, bed, screens, v);
      if v in ScreenHits(zone, bed, screens) {
        var tv :| tv in screens && IntersectionArea(zone, RectOf(tv)) > 0
          && v == ScreenAtBedHead(tv.name, bed.name, IntersectionArea(zone, RectOf(tv)));
        assert ScreenHit(bed, tv, v);
      }
      if exists b, tv :: b in beds && tv in screens && ScreenHit(b, tv, v) {
        var b, tv :| b in beds && tv in screens && ScreenHit(b, tv, v);
        if b != bed {
          assert b in init;
        }
      }
    }
  }

  /**
   * When rule 3 succeeds, it emits exactly the TVs and TV stands of the
   * layout that overlap a bed's head zone, and its score is the violation
   * count plus a tenth of the overlapping cells.
   */
  lemma ScreenRuleFindsExactlyHits(items: seq<Furniture>, v: Violation)
    requires ScreenViolations(Beds(items), Screens(items)).Ok?
    ensures v in ScreenViolations(Beds(items), Screens(items)).value <==>
      exists bed, tv :: bed in items && bed.kind == Bed && tv in items && IsScreen(tv) && ScreenHit(bed, tv, v)
  {
    ScreenViolationsMembers(Beds(items), Screens(items), v);
  }

  /** One bed with a pillow side and one screen give at most one violation, and it is their hit. */
  lemma ScreenViolationsPair(bed: Furniture, tv: Furniture)
    requires bed.pillowSide.Some?
    ensures ScreenViolations([bed], [tv]).Ok?
    ensures |ScreenViolations([bed], [tv]).value| <= 1
    ensures forall v :: v in ScreenViolations([bed], [tv]).value <==> ScreenHit(bed, tv, v)
  {
    assert [bed][..0] == [];
    assert [tv][..0] == [];
    var zone := HeadZone(bed).value;
    assert ScreenHits(zone, bed, [tv]) == ScreenHits(zone, bed, []) + ScreenInZone(zone, bed, tv);
  }

  lemma ScreenScore(items: seq<Furniture>)
    requires ScreenViolations(Beds(items), Screens(items)).Ok?
    ensures var vs := ScreenViolations(Beds(items), Screens(items)).value;
      Score(vs) == |vs| as real + 0.1 * TotalOverlap(vs) as real && Score(vs) >= |vs| as real
  {
    var vs := ScreenViolations(Beds(items), Screens(items)).value;
    forall v | v in vs
      ensures v.ScreenAtBedHead? && v.overlap > 0
    {
      ScreenViolationsMembers(Beds(items), Screens(items), v);
    }
    ScoreIsCountPlusTenthOverlap(vs);
    ScoreAtLeastCount(vs);
  }

  lemma {:induction false} ScreenHitsAppend(zone: Rect, bed: Furniture, s1: seq<Furniture>, s2: seq<Furniture>)
    ensures ScreenHits(zone, bed, s1 + s2) == ScreenHits(zone, bed, s1) + ScreenHits(zone, bed, s2)
    decreases |s2|
  {
    if s2 == [] {
      assert s1 + s2 == s1;
    } else {
      var init := s2[..|s2| - 1];
      assert (s1 + s2)[..|s1 + s2| - 1] == s1 + init;
      ScreenHitsAppend(zone, bed, s1, init);
    }
  }

  lemma ScreenStepOk(sofar: Result<seq<Violation>, ZoneError>, bed: Furniture, screens: seq<Furniture>)
    requires ScreenStep(sofar, bed, screens).Ok?
    ensures sofar.Ok? && bed.pillowSide.Some?
  {
  }

  lemma ScreenStepPrefix(v1: seq<Violation>, vs: seq<Violation>, bed: Furniture, screens: seq<Furniture>)
    requires bed.pillowSide.Some?
    ensures ScreenStep(Ok(v1 + vs), bed, screens) == Ok(v1 + ScreenStep(Ok(vs), bed, screens).value)
  {
    var h := ScreenHits(HeadZone(bed).value, bed, screens);
    assert (v1 + vs) + h == v1 + (vs + h);
  }

  /** Rule 3 takes beds in the outer loop: all hits of an earlier bed come before those of a later one. */
  lemma {:induction false} ScreenViolationsAppend(b1: seq<Furniture>, b2: seq<Furniture>, screens: seq<Furniture>)
    requires ScreenViolations(b1, screens).Ok? && ScreenViolations(b2, screens).Ok?
    ensures ScreenViolations(b1 + b2, screens)
      == Ok(ScreenViolations(b1, screens).value + ScreenViolations(b2, screens).value)
    decreases |b2|
  {
    if b2 == [] {
      assert b1 + b2 == b1;
      assert ScreenViolations(b2, screens).value == [];
      assert ScreenViolations(b1, screens).value + [] == ScreenViolations(b1, screens).value;
    } else {
      var init, bed := b2[..|b2| - 1], b2[|b2| - 1];
      assert (b1 + b2)[..|b1 + b2| - 1] == b1 + init;
      assert (b1 + b2)[|b1 + b2| - 1] == bed;
      var ri := ScreenViolations(init, screens);
      assert ScreenViolations(b2, screens) == ScreenStep(ri, bed, screens);
      ScreenStepOk(ri, bed, screens);
      ScreenViolationsAppend(b1, init, screens);
      var v1 := ScreenViolations(b1, screens).value;
      assert ScreenViolations(b1 + b2, screens) == ScreenStep(Ok(v1 + ri.value), bed, screens);
      ScreenStepPrefix(v1, ri.value, bed, screens);
    }
  }
}
