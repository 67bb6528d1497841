# Grid layout placement engine, modelled in Dafny

This project models the placement core of a draggable grid layout component:

- **Layout items** are rectangles on an integer grid: column `x`, row `y`, width `w` and height `h`. Each item also carries a transient `moved` flag.
- **Collisions.** Two items collide when they are different objects and their rectangles overlap; touching edges do not count.
- **Compaction.** `compact` sorts the layout by row and then column. It then pulls every item up as far as it can go without colliding with the items already placed before it.
- **Moving.** `moveElement` puts an item where the user dropped it and marks it moved. It then looks at every item it now collides with. It skips an item that is already marked moved, and an item in the deadzone: one the mover is below by more than a quarter of that item's height. Every other collider is pushed out of the way, either up into free space above or one row down. This cascades through further `moveElement` calls.

The model keeps the source's shapes:

- Items are objects updated in place: the class `Items.LayoutItem`.
- The layout is a JavaScript array that is sorted and reversed in place: an `array<LayoutItem>`.
- The loops of `compactItem` are `while` loops.
- The cascade of `moveElement` and `moveElementAwayFromCollision` is a set of mutually recursive methods.

The compaction methods are proved against specification functions, and the properties of compaction are proved as lemmas about those functions:

- the row `compactItem` reaches is `Compaction.CompactRow`;
- the rectangles `compact` produces are `Compaction.Placement`.

The sorts are proved against the row/column order and a permutation. The move cascade has no single specification function. Each call states its effect in its own contract:

- the row a displaced item gets is `Moving.AwayRow`, whose contract says it is one row lower or a free row, and never above row 0 for an item at row 0 or below;
- every collider ends marked moved or is in the deadzone;
- every other item keeps its column and size, and a marked item keeps its row; an item the cascade marks, which happens at most once, ends one row below where it started, or, when the user moved the item it collided with, up against that item's top, but not above row 0 (`Moving.CascadeFrame`).

Files:

- `geometry.dfy`: rectangles and the overlap test.
- `items.dfy`: the item class, `collides`, `getFirstCollision`, `getAllCollisions`, `bottom`, and list helpers.
- `ordering.dfy`: the row/column comparator, the in-place sort and the in-place reversal.
- `compaction.dfy`: `compactItem` and `compact`.
- `moving.dfy`: `moveElement` and `moveElementAwayFromCollision`.

## Model

| member | source | states |
|---|---|---|
| Geometry.Overlap | src/components/util.js:84-87 | No early exit of `collides` is taken exactly when the two half-open intervals overlap on both axes. |
| Geometry.OverlapSymmetric | src/components/util.js:84-88 | The four edge tests of `collides` give the same answer with the arguments swapped. |
| Geometry.TouchingDoNotOverlap | src/components/util.js:84-88 | Rectangles that only share an edge do not overlap. |
| Geometry.OverlapIffSharedCell | src/components/util.js:84-88 | For rectangles of positive size, the edge tests hold exactly when some grid cell lies in both. |
| Items.Collides | src/components/util.js:82-89 | Two items collide exactly when they are different objects whose column and row intervals both overlap. |
| Items.CollidesIrreflexive | src/components/util.js:82-83 | No item collides with itself. |
| Items.CollidesSymmetric | src/components/util.js:82-89 | `collides(a, b)` equals `collides(b, a)`. |
| Items.TouchingItemsDoNotCollide | src/components/util.js:84-87 | Items that only touch along an edge do not collide. |
| Items.CollidesIffSharedCell | src/components/util.js:82-89 | For items of positive size, colliding means being different objects that share a grid cell. |
| Items.FirstCollision | src/components/util.js:69-71 | The result is none exactly when no element collides with the item; otherwise it is an element of the layout that collides with it. |
| Items.AllCollisions | src/components/util.js:73-75 | The result holds exactly the elements of the layout that collide with the item, and is no longer than the layout. |
| Items.AllCollisionsCounts | src/components/util.js:73-75 | Each colliding element occurs in the result as often as in the layout; a non-colliding element does not occur. |
| Items.AllCollisionsAppend | src/components/util.js:73-75 | The filter keeps list order: it distributes over concatenation. |
| Items.FirstCollisionIsHeadOfAll | src/components/util.js:69-75 | `getFirstCollision` is the first element of `getAllCollisions`, and none exactly when that list is empty. |
| Items.FirstProbeCollision | src/components/util.js:146-154 | For the mock item, which is a fresh object, the first collision is none exactly when no item's rectangle overlaps the probe. |
| Items.Bottom | src/components/util.js:92-94 | The result is at least 0 and at least every item's `y + h`, and it is 0 or some item's `y + h`. |
| Items.BottomAttained | src/components/util.js:92-94 | For a non-empty layout of items at row 0 or below with positive height, the bottom is some item's `y + h`. |
| Items.IndexOf | src/components/util.js:27 | `indexOf` gives -1 exactly when the item is absent; otherwise it gives the first index that holds it. |
| Items.DistinctAt | src/components/util.js:27 | In a list without repeated objects, `indexOf` of the item at index `i` is `i`. |
| Items.DistinctIffPairwise | src/components/util.js:27 | A list has no repeated objects exactly when different positions hold different objects. |
| Ordering.CompareRowCol | src/components/util.js:54-58 | The comparator returns -1, 0 or 1. It is 0 exactly for the same `(y, x)`, and positive exactly when `a` lies in a later row, or in the same row further right. |
| Ordering.CompareRowColConsistent | src/components/util.js:53-59 | The comparator is antisymmetric, is zero exactly on equal `(y, x)`, and induces a total, transitive order. |
| Ordering.SortByRowColSorted | src/components/util.js:53-59 | The reference sort returns its input in row/column order. |
| Ordering.SortLayoutItemsByRowCol | src/components/util.js:53-59 | The array is sorted in place: it ends in row/column order as a permutation of its old contents, and the same array is returned. |
| Ordering.SortedConsecutive | src/components/util.js:53-59 | In a sorted list, each item's `(y, x)` is at most the next item's. |
| Ordering.SortedBoxes | src/components/util.js:53-59 | The rectangles of a sorted list have their top-left corners in row-then-column order. |
| Ordering.ReverseInPlace | src/components/util.js:108 | `reverse` leaves the array holding its old contents back to front. |
| Ordering.ReversedPermutation | src/components/util.js:108 | Reversal is a permutation. |
| Ordering.ReversedSortedDescending | src/components/util.js:107-108 | Reversing a sorted list gives descending row/column order. |
| Compaction.NoOverlapIffClear | src/components/util.js:69-71 | The first overlapping rectangle is none exactly when no rectangle overlaps. |
| Compaction.PlacementPrefix | src/components/util.js:18-31 | The placement of a prefix is the prefix of the placement: an item's row never depends on items after it. |
| Compaction.RisenRow | src/components/util.js:41-43 | The first loop never moves an item down, and does not take an item at row 0 or below to a row above 0. |
| Compaction.RisenRowStops | src/components/util.js:41-43 | The first loop stops at row 0 or at a row where the item collides. If it moved, the row below where it stops is free. |
| Compaction.LowestEdgeIsBottom | src/components/util.js:92-94 | The lowest edge used to bound the second loop of `compactItem` is `bottom` of the items compared against. |
| Compaction.LowestEdgeAttained | src/components/util.js:92-94 | The lowest edge is 0 or some rectangle's `y + h`. |
| Compaction.DroppedRow | src/components/util.js:46-50 | The second loop only moves down, never past the lowest bottom edge of the other items, and stops where the item overlaps nothing. |
| Compaction.CompactRow | src/components/util.js:39-51 | The row `compactItem` reaches is free of every other item. |
| Compaction.CompactRowKeepsNonNegative | src/components/util.js:39-51 | An item starting at row 0 or below stays at row 0 or below. |
| Compaction.CompactRowBounded | src/components/util.js:39-51 | The item ends no lower than its start or the lowest edge of the others, whichever is lower; this bound is why the loop ends. |
| Compaction.CompactRowFreeNotLower | src/components/util.js:39-51 | An item that is free where it starts never ends lower. |
| Compaction.DroppedRowRests | src/components/util.js:46-50 | With positive heights, an item the second loop moved would overlap something one row higher. |
| Compaction.CompactRowRests | src/components/util.js:39-51 | With positive heights, the compacted item rests: it is at row 0 or above, or one row higher it would collide. |
| Compaction.FirstCollisionOfOthers | src/components/util.js:69-71 | What `getFirstCollision(compareWith, l)` finds depends only on the rectangles of the items other than `l`. |
| Compaction.RiseWhileFree | src/components/util.js:41-43 | The first loop of `compactItem` leaves the item at `RisenRow` of its start. |
| Compaction.DropBelowCollisions | src/components/util.js:46-50 | The second loop of `compactItem` leaves the item at `DroppedRow` of its start. |
| Compaction.CompactItem | src/components/util.js:39-51 | The item is updated in place and returned. Its new row is `CompactRow` of the other items and its old position, and it collides with nothing in `compareWith`. |
| Compaction.CompactItemFreeNotLower | src/components/util.js:39-51 | An item that fits where it starts is not moved down. |
| Compaction.Placement | src/components/util.js:20-31 | Compaction keeps every item's column, width and height; only rows change. |
| Compaction.PlacementDisjoint | src/components/util.js:20-31 | After compaction no two rectangles overlap. |
| Compaction.PlacementRests | src/components/util.js:20-31 | With positive heights, every compacted rectangle rests on those placed before it, or is at row 0 or above. |
| Compaction.PlacementKeepsNonNegative | src/components/util.js:20-31 | No item starting at row 0 or below ends above row 0. |
| Compaction.CompactAgainstPlaced | src/components/util.js:21 | Compacting the next item against the items already placed puts its rectangle at its placement, leaving the earlier items alone. |
| Compaction.CompactEach | src/components/util.js:20-31 | The `forEach` callback places the next item at its row in the placement, appends it to `compareWith` and to the output, and clears its `moved` flag. |
| Compaction.CompactInOrder | src/components/util.js:18-31 | Over the sorted items, the loop leaves every rectangle at its placement with `moved` cleared, and outputs the items in that order. |
| Compaction.SortForCompaction | src/components/util.js:4 | The sort in `compact` is a permutation of the same items, in row/column order, and changes no item's rectangle. |
| Compaction.Compact | src/components/util.js:1-34 | The output is the array sorted in place, which is a permutation of the input. Its rectangles are `Placement` of their pre-compaction rectangles, which are in row/column order. No item is left marked moved. |
| Compaction.PlacedItemsDoNotCollide | src/components/util.js:1-34 | After `compact`, no two items of the output collide. |
| Compaction.PlacedItemsRest | src/components/util.js:1-34 | After `compact`, with positive heights, each item rests on the items before it or is at row 0 or above. |
| Compaction.CompactRowKeepsResting | src/components/util.js:39-51 | An item that is free where it is and rests on the others is not moved by `compactItem`. |
| Compaction.PlacementFixedPoint | src/components/util.js:18-31 | A list of disjoint rectangles, each resting on those before it, is its own placement. |
| Compaction.PlacementIdempotent | src/components/util.js:18-31 | With positive heights, compacting the placement again in the same order changes nothing. |
| Compaction.SettledRestsAt | src/components/util.js:18-31 | In a disjoint list in row/column order with positive heights, a rectangle blocked one row up by any other rectangle is blocked by one before it. |
| Compaction.SettledFixedPoint | src/components/util.js:1-34 | Disjoint, settled rectangles with positive heights in row/column order are their own placement. |
| Compaction.PlacedItemsSettled | src/components/util.js:1-34 | After `compact`, with positive heights, every item is at row 0 or above or would collide with another item one row higher, whatever the order of the list. |
| Compaction.SettledItemsStay | src/components/util.js:1-34 | Distinct, sorted items that collide with nothing, are settled and have positive heights are not moved by a further `compact`. |
| Moving.InDeadzone | src/components/util.js:116 | The deadzone test holds exactly when the mover is below the collider by more than a quarter of its height, with the division done exactly. |
| Moving.Probe | src/components/util.js:146-152 | The mock item has `itemToMove`'s column and size, is at row 0 or below, and its bottom edge is the top of the mover (`collidesWith`) unless it is clamped to row 0. |
| Moving.AwayRow | src/components/util.js:146-172 | The displaced item goes one row down, or, in a user action, to `max(collidesWith.y - h, 0)` where no item overlaps it. An item at row 0 or below stays there. |
| Moving.ProbeCollisionIffNotFree | src/components/util.js:153-154 | The probe finds no collision exactly when no item overlaps it. |
| Moving.ProbeAboveMover | src/components/util.js:153 | When the row of the mover (`collidesWith`) leaves room above it, the probe ends exactly where the mover begins and does not overlap it; otherwise the probe is at row 0. |
| Moving.MoveElement | src/components/util.js:96-122 | The mover takes the given column and row and is marked moved. Its size is kept and the array is permuted in place and returned. Every other item keeps `x`, `w` and `h`; its row changes only if it becomes marked, a marked item never moves or loses its mark, and an item at row 0 or below stays there. Every item the cascade marks ends one row below its old row, or, in a user action, at `max(l.y - h, 0)` against the mover's top. Every item the mover then collides with is marked moved or is in the deadzone. The unmarked items only become fewer, which ends the cascade. |
| Moving.PlaceAndFindCollisions | src/components/util.js:97-109 | The mover is placed and marked. The array is left sorted, or sorted and then reversed exactly when the mover goes up to a truthy row above it. The collisions are `getAllCollisions` of the array in that order. No other item changes. |
| Moving.OrderForCollisions | src/components/util.js:107-108 | The array is a permutation of its old contents, and either a sorted list or that list reversed. |
| Moving.DisplaceEach | src/components/util.js:112-119 | After the callback has run over the collisions, every collider is marked moved or is in the deadzone. Every item marked on the way ends one row below its old row, or, in a user action, against the mover's top. The mover is kept, the frame of the cascade holds, and the unmarked items only shrink. |
| Moving.DisplaceCollider | src/components/util.js:113-118 | A collider that is already moved, or in the deadzone (`l.y > c.y` and `l.y - c.y > c.h / 4`), is left alone and nothing changes. Any other collider ends marked at `AwayRow`. Every item marked by the call ends one row lower, or, in a user action, against the mover's top. A displaced collider's own collisions are then resolved: every item still colliding with it is marked moved or in its deadzone. |
| Moving.MoveElementAwayFromCollision | src/components/util.js:134-174 | The moved item keeps its column and size and ends marked. Its row is the probe's row, `max(collidesWith.y - h, 0)`, when this is a user action and the probe is free; otherwise it is its old row plus one. The rest of the cascade keeps the frame, and every other item it marks ends one row lower. The nested `moveElement` resolves the moved item's own collisions: every item still colliding with it is marked moved or in its deadzone. |

## Left out

- Only `src/components/util.js` is modelled. The rest of the repository (the components, their rendering, drag and resize events, and `index.js`) is not part of this model.
- The commented-out resizing branch of `compact` (lines 2-16) has no effect and is not modelled.
- Coordinates are unbounded integers. The source's values are JavaScript numbers; fractional or non-finite positions are not modelled.
- The deadzone test divides by 4 in floating point. It is stated multiplied out, `4 * (l.y - c.y) > c.h`, which is exact for integers.
- The mock item of `moveElementAwayFromCollision` is modelled as a bare rectangle. Its `i: "-1"` field is not read by the core. As a fresh object it is never identical to a layout item, so only its rectangle matters.
- The `x` and `y` arguments of `moveElement` are `Option<int>`, with `None` for `undefined`. Other non-number arguments, and the truthiness of `NaN`, are not modelled.
- `Array.prototype.sort` is modelled by a reference insertion sort. Any permutation in row/column order meets the contract. Which order the engine gives to items with equal `(y, x)` is not modelled.
- Compaction.Compact: requires that no item object occurs twice in the array. With a repeated object, `indexOf` would store to the first index only and leave holes in the output; that case is not modelled. The `Array(layout.length)` output is modelled as a list appended in index order, which matches when the items are distinct.
- Moving.MoveElement: states the mover's position, the frame of the cascade, its termination measure, that every remaining collider is marked or in the deadzone, and that every displaced item is one row lower or against the mover's top. It does not say which of the two, which depends on the free-probe test of each nested call, stated per displacement by `Moving.DisplaceCollider`. It also does not claim a collision-free layout, which the source does not guarantee. As in the source, it does not clear the `moved` flags. That each displaced item's own collisions were resolved is stated only per displacement, by `Moving.DisplaceCollider` and `Moving.MoveElementAwayFromCollision`; that this still holds once the whole cascade has finished is not stated, because carrying it through the loop of `forEach` was beyond what the verifier could do within its resource limit.
- Moving.DisplaceEach: states that each collider ends marked or in the deadzone and where every marked item ends. That a displaced collider's own collisions are resolved is stated per collider by `Moving.DisplaceCollider`, not for the whole loop, for the reason given above.
- Compaction.PlacementIdempotent: compacting twice gives the same rectangles, but not the same array order, and this is not claimed. The second `compact` re-sorts by the compacted positions. For example, items B at `(x 1, y 3)` and A at `(x 0, y 5)`, both 1 by 1, compact to B at `(1, 0)` then A at `(0, 0)`; compacting that output again yields A before B. What is proved is that the second compaction moves no item: `Compaction.PlacementIdempotent` in the same order, and `Compaction.SettledItemsStay` for the re-sorted list.
- Moving.MoveElement: the set of items the array holds is passed as a ghost parameter so that the frame and the termination measure can name it.
