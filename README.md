# Furniture layout safety scorer: the grid engine

This project models the grid-based core of a furniture-layout safety scorer
in Dafny and proves properties of that model. A room is a grid of cells.
Each piece of furniture covers a rectangle of cells. The core does two jobs:

- **The layout validator** checks that every footprint lies inside the room
  and that no cell is claimed twice. It fails fast at the first problem.
- **Three hazard rules** each walk the furniture list and return a score
  and a list of violations:
  - **Rule 1:** a toppling item's fall zone reaches a bed.
  - **Rule 2:** a tall item stands near the exit segment.
  - **Rule 3:** a TV or TV stand stands in the one-cell band at a bed's
    pillow side.

The model has four modules:

- `Wrappers` holds `Option`, `Result` and `Outcome` (pass or fail).
- `Models` covers `src/models.py`:
  - the `Room` and `Furniture` records;
  - the bounds guard `Room.AssertRectInside`;
  - the validator `ValidateLayout`. It is an imperative method with the
    source's loops and its `occupied` map. It is proved against the
    predicate `LayoutOk` (every footprint inside, footprints pairwise
    disjoint) and against the function `Occupancy`.
- `Risk` covers the geometry kernel of `src/risk.py`:
  - `Clamp`;
  - half-open cell rectangles: `RectOf` and `IntersectionArea`;
  - the fall-zone and head-zone bands: `FallZone` and `HeadZone`.

  Each rectangle is tied to its set of cells. The overlap area is proved to
  be the number of shared cells, and each band is proved to be the set of
  cells it is meant to describe.
- `Rules` covers the three scorers of `src/risk.py`:
  - Each scorer is a method with the source's nested loops, a running score
    and a growing violation list.
  - Each method is proved equal to a specification function:
    `FallViolations`, `ExitViolations` or `ScreenViolations`, with `Score`.
  - Lemmas characterise those functions. They cover which hits are
    reported, in which order, and what the score adds up to.

A violation is a structured value (`Violation`) in place of the formatted
message text. Scores are exact `real` numbers.

The `Furniture` record in `src/models.py` declares only `name, gx, gy, gw,
gd, h_m`. But `src/risk.py` also reads `h_cell`, `fall_dir`, `pillow_side`
and `furniture_type`, and imports `Direction` and `FurnitureType` from that
module. These are not defined in the files modelled here. The model's
`Furniture` therefore carries all of them:

- `hCell` is the height in cells.
- `kind` is one of `Bed | Tv | TvStand | Storage | Other`.
- `fallDir` and `pillowSide` are optional `Direction`s.

`validate_layout` checks only bounds and overlaps. It checks neither
`h_cell` nor `pillow_side`, and no function in these files combines the
three rules into one result. The model does the same. A bed without a
pillow side therefore surfaces only in rule 3, as the error
`MissingPillowSide`.

All inputs are values, so the validator and the rules cannot change the
room or the items. The validator's only state is its local `occupied` map.

## Model

| member | source | states |
|---|---|---|
| Models.Room.AssertRectInside | src/models.py:17-27 | passes exactly when `0 <= gx`, `0 <= gy`, `gw > 0`, `gd > 0`, `gx+gw <= grid_w` and `gy+gd <= grid_h`. Each of the three errors happens exactly when its check is the first to fail: a negative origin, then a non-positive size, then leaving the room. Each error carries the values the source reports, including the last cell `gx+gw-1`, `gy+gd-1` |
| Models.InsideIffCellsInGrid | src/models.py:19-27 | the guard passes exactly when the footprint covers at least one cell and every covered cell lies in the room's grid |
| Models.OccupancyKeys | src/models.py:47-60 | after some items are recorded, the keys of `occupied` are exactly the cells covered by one of them |
| Models.OccupancyOwner | src/models.py:52-60 | when the recorded footprints are disjoint, each covered cell maps to the name of the item that covers it |
| Models.ClaimFootprint | src/models.py:52-60 | the x/y loops over one footprint. They succeed exactly when no cell is already occupied, and the new map is the old one plus every cell of the footprint mapped to the item's name. Otherwise they report the first occupied cell in x-then-y order, with its recorded owner |
| Models.ExtendLayout | src/models.py:49-60 | an item that passes the guard and claims no occupied cell keeps the layout acceptable, and its cells join the occupancy map under its name |
| Models.CollisionWitness | src/models.py:52-59 | a cell found already occupied gives an earlier item that covers it and whose name is the reported owner, and the layout is then not acceptable |
| Models.ValidateLayout | src/models.py:45-60 | succeeds exactly when every item passes the guard and no cell belongs to two footprints. A bounds error comes from the first item the guard refuses, with all items before it acceptable. An overlap error names the first colliding item, its first colliding cell in x-then-y order and the earlier item that owns that cell |
| Risk.Clamp | src/risk.py:4-5 | the result lies in `[lo, hi]` when `lo <= hi` and equals `v` when `v` is already in range. It is `lo` below the range and `hi` above it. When `hi < lo` the result is `lo` |
| Risk.RectOf | src/risk.py:21-23 | the rectangle contains exactly the item's footprint cells |
| Risk.IntersectionArea | src/risk.py:25-37 | the overlap is never negative, and it is 0 when the clipped extents are empty or only touch |
| Risk.CellCount | src/risk.py:37 | a well-formed rectangle contains exactly `(x1-x0)*(y1-y0)` cells |
| Risk.IntersectionAreaCountsSharedCells | src/risk.py:25-37 | the overlap area equals the number of cells both rectangles contain |
| Risk.IntersectionAreaSymmetric | src/risk.py:30-33 | the overlap does not depend on argument order |
| Risk.IntersectionAreaBounded | src/risk.py:25-37 | the overlap is at most the area of each argument that is well formed |
| Risk.AcceptedLayoutHasNoOverlap | src/models.py:52-60 | in a layout the validator accepts, any two distinct items have overlap area 0 |
| Risk.FallZone | src/risk.py:40-57 | there is no fall zone exactly when the item has no fall direction |
| Risk.FallZoneIsReach | src/risk.py:46-55 | a cell is in the fall zone exactly when it is outside the footprint and lies between 1 and `h_cell` steps beyond the footprint in the fall direction |
| Risk.FallZoneCellCount | src/risk.py:48-55 | a fall zone covers `gw*h_cell` cells towards north and south and `gd*h_cell` towards east and west |
| Risk.HeadZone | src/risk.py:59-75 | building the head zone fails exactly when the bed has no pillow side, and the error names that bed |
| Risk.HeadZoneIsNeighbourRow | src/risk.py:64-73 | a cell is in the head zone exactly when it is outside the bed and one step beyond it on the pillow side |
| Risk.HeadZoneCellCount | src/risk.py:66-73 | a head zone covers `gw` cells on the north and south sides and `gd` on the east and west sides |
| Risk.ZonesClearOfFootprint | src/risk.py:48-73 | neither band overlaps its own item's footprint |
| Risk.ZonesMirror | src/risk.py:48-73 | the south and west bands are the north and east bands reflected through the footprint's centre lines |
| Risk.HeadZoneIsUnitFallZone | src/risk.py:64-73 | the head zone is the fall zone of depth 1 towards the pillow side |
| Rules.ScoreIsCountPlusTenthOverlap | src/risk.py:123-126 | for overlap violations, the score is the violation count plus a tenth of the total overlap |
| Rules.ScoreAtLeastCount | src/risk.py:123-126 | every emitted violation adds at least one point, so a score is at least the violation count and never negative |
| Rules.Beds | src/risk.py:108 | keeps exactly the items of kind bed |
| Rules.Screens | src/risk.py:175-179 | keeps exactly the TVs and TV stands |
| Rules.BedsOne | src/risk.py:108 | a single item is kept exactly when it is a bed |
| Rules.BedsAppend | src/risk.py:108 | the bed filter distributes over concatenation, so it keeps the beds in list order, duplicates included |
| Rules.ScreensOne | src/risk.py:175-179 | a single item is kept exactly when it is a TV or a TV stand |
| Rules.ScreensAppend | src/risk.py:175-179 | the screen filter distributes over concatenation, so it keeps the screens in list order, duplicates included |
| Rules.AddBedHits | src/risk.py:118-126 | one fall zone against every bed: appends that zone's hits in bed order and keeps the score equal to the score of the list |
| Rules.ScoreFallHazardToBed | src/risk.py:100-128 | returns the rule 1 violations of the layout in item-then-bed order, and their score |
| Rules.BedHitsMembers | src/risk.py:118-126 | one zone's hits are exactly the beds it overlaps, each with its positive overlap |
| Rules.FallViolationsMembers | src/risk.py:110-126 | rule 1 reports exactly the falls of non-bed items with a fall direction onto a bed, with positive overlap |
| Rules.FallRuleFindsExactlyHits | src/risk.py:108-126 | the same, for the beds the layout itself contains |
| Rules.FallViolationsAppend | src/risk.py:110-126 | the violations of earlier items come before those of later items |
| Rules.FallViolationsBedOrder | src/risk.py:118-126 | for one item, the hits on earlier beds come before the hits on later beds |
| Rules.FallViolationsPair | src/risk.py:119-126 | one item and one bed give at most one violation, and it is their hit |
| Rules.FallSkips | src/risk.py:111-116 | a bed, or an item without a fall direction, adds nothing wherever it stands in the list |
| Rules.FallNoBeds | src/risk.py:108-128 | with no beds, rule 1 reports nothing and scores 0 |
| Rules.FallScore | src/risk.py:123-128 | rule 1's score is its violation count plus a tenth of the total overlap, and so at least the count |
| Rules.ScoreExitBlockingByTallItems | src/risk.py:130-164 | returns the rule 2 violations in item order, and their score |
| Rules.ExitViolationsMembers | src/risk.py:139-162 | rule 2 reports exactly the items with `h_cell >= 5` whose centre is within 2.0 of the exit, each with its height and distance |
| Rules.ExitViolationsAppend | src/risk.py:139-162 | the violations of earlier items come first |
| Rules.ExitViolationsOne | src/risk.py:139-162 | one item gives at most one rule 2 violation, and gives one exactly when `h_cell >= 5` and its distance is at most 2.0 |
| Rules.ExitScoreBounds | src/risk.py:154-159 | when distances are never negative, the rule 2 score lies between the violation count and three times the count |
| Rules.ScreenErrorSticks | src/risk.py:181-182 | once a bed without a pillow side is reached, the rule fails with that error whatever beds follow |
| Rules.AddScreenHits | src/risk.py:184-193 | one head zone against every screen: appends that zone's hits in screen order and keeps the score equal to the score of the list |
| Rules.ScoreTvHazardNearBedHead | src/risk.py:166-195 | fails exactly when the rule 3 specification fails, with the same error. Otherwise it returns the rule 3 violations in bed-then-screen order, and their score |
| Rules.ScreenRuleFails | src/risk.py:181-182 | rule 3 fails exactly when some bed has no pillow side, and the error names the first such bed |
| Rules.ScreenHitsMembers | src/risk.py:184-193 | one head zone's hits are exactly the screens it overlaps, each with its positive overlap |
| Rules.ScreenViolationsMembers | src/risk.py:181-193 | when rule 3 succeeds, it reports exactly the (bed, screen) pairs whose head zone and footprint overlap |
| Rules.ScreenRuleFindsExactlyHits | src/risk.py:174-193 | the same, for the beds and the TVs or TV stands the layout itself contains |
| Rules.ScreenViolationsPair | src/risk.py:184-193 | one bed with a pillow side and one screen give at most one violation, and it is their hit with its overlap |
| Rules.ScreenScore | src/risk.py:189-195 | rule 3's score is its violation count plus a tenth of the total overlap, and so at least the count |
| Rules.ScreenHitsAppend | src/risk.py:184-193 | for one bed, the hits on earlier screens come first |
| Rules.ScreenViolationsAppend | src/risk.py:181-193 | all hits of an earlier bed come before those of a later bed |

## Left out

- `point_to_segment_dist` (src/risk.py:7-19) is not modelled. It uses floating-point projection and `math.hypot`, a square root. Rule 2 takes the distance as a function parameter `segDist`.
- Rules.ExitScoreBounds: assumes the distance function never returns a negative value. The source's `math.hypot` guarantees this, but the model does not define that function.
- `risk_v1` (src/risk.py:79-96) is not modelled. It is the legacy scorer, made of float reciprocals over `h_m`. `h_m` is kept in `Furniture` but no modelled operation reads it.
- Floating-point rounding is not modelled. Scores are exact reals, so `1.0 + 0.1 * overlap` and the running sums carry no rounding error.
- Violations do not carry message text. The model returns structured `Violation` values in place of the formatted strings, including the `{dist:.2f}` formatting.
- The final `raise` of `build_bed_head_zone_rect` (src/risk.py:75) cannot be reached. `Direction` has only four values, so the match in `HeadZone` is complete. The final `return` of `build_fall_zone_rect` (src/risk.py:57) cannot be reached for the same reason.
- Raised exceptions are modelled as values. `AssertRectInside` and `ValidateLayout` return `Fail`, and rule 3 returns `Err`. Only the error's kind and the values its message names are kept.
- The `room` argument of rules 1 and 3 is kept but not read, as in the source (`del room`).
- `src/main.py` is an early float prototype with drawing. It is not part of this model.
- `src/viz.py` is rendering and file output. It is not part of this model.
- `web/src/demo_grid.js` is a browser 3D scene. It is not part of this model.
