/**
 * The move cascade: `moveElement` puts an item where the user dropped it,
 * marks it moved and pushes away every item it then collides with, each of
 * which is moved the same way in turn by `moveElementAwayFromCollision`.
 *
 * The cascade ends because every displacement marks an item that was not
 * yet marked: the measure is the number of unmarked items of the layout.
 * The contracts state what each call does to the item it moves and what it
 * leaves alone (`CascadeFrame`); they do not claim that the layout is free
 * of collisions afterwards, which the cascade does not guarantee.
 */
module Moving {
  import opened Geometry
  import opened Items
  import opened Ordering

  /** The items of `items` whose `moved` flag is not set. */
  ghost function Unmoved(items: set<LayoutItem>): set<LayoutItem>
    reads items`moved
  {
    set c | c in items && !c.moved
  }

  /**
   * What a cascade may do to the items of `items`: their columns and sizes
   * stay; an item already marked moved keeps its row and its mark; an item
   * whose row changed is marked moved; an item at row 0 or below stays at
   * row 0 or below. An item the cascade marks goes one row down or, in a
   * user action, up against row `top`, the top of the item it collided
   * with, but not above row 0.
   */
  twostate predicate CascadeFrame(items: set<LayoutItem>, userAction: bool, top: int)
    reads items
  {
    forall c :: c in items ==> CascadeFrameAt(c, userAction, top)
  }

  /** `CascadeFrame` for one item. */
  twostate predicate CascadeFrameAt(c: LayoutItem, userAction: bool, top: int)
    reads c
  {
    c.x == old(c.x) && c.w == old(c.w) && c.h == old(c.h) &&
    (old(c.moved) ==> c.moved && c.y == old(c.y)) &&
    (c.y != old(c.y) ==> c.moved) &&
    (old(c.y) >= 0 ==> c.y >= 0) &&
    (!old(c.moved) && c.moved ==>
       c.y == old(c.y) + 1 || (userAction && c.y == Max(top - c.h, 0)))
  }

  /**
   * The collisions of `c` are resolved: every item of `items` that still
   * collides with it is marked moved or lies in its deadzone.
   */
  predicate CollisionsResolved(items: set<LayoutItem>, c: LayoutItem)
    reads items, c
  {
    forall d :: d in items && !d.moved && Collides(d, c) ==> InDeadzone(c, d)
  }

  /**
   * The skip applied to a collider when the mover is below it: the mover is
   * past the collider's top by more than a quarter of its height. The
   * division by 4 is multiplied out, which is exact over the integers.
   */
  predicate InDeadzone(l: LayoutItem, c: LayoutItem): (d: bool)
    reads l, c
    ensures d <==> l.y > c.y && (l.y - c.y) as real > c.h as real / 4.0
  {
    l.y > c.y && 4 * (l.y - c.y) > c.h
  }

  /**
   * The mock item of `moveElementAwayFromCollision`: `itemToMove`'s columns
   * and size, placed so that its bottom edge is `collidesWith`'s top, but
   * not above row 0.
   */
  function Probe(collidesWith: LayoutItem, itemToMove: LayoutItem): (p: Rect)
    reads collidesWith, itemToMove
    ensures p == AtRow(itemToMove.Box(), p.y)
    ensures p.y >= 0 && p.y + p.h >= collidesWith.y
    ensures p.y == 0 || p.y + p.h == collidesWith.y
  {
    Rect(itemToMove.x, Max(collidesWith.y - itemToMove.h, 0), itemToMove.w, itemToMove.h)
  }

  /** No item of `layout` overlaps `probe`. */
  predicate ProbeFree(layout: seq<LayoutItem>, probe: Rect)
    reads layout
  {
    forall c :: c in layout ==> !Overlap(c.Box(), probe)
  }

  /**
   * The row `moveElementAwayFromCollision` gives `itemToMove`: the probe's
   * row when the user is moving and the probe is free, otherwise one row
   * lower than now.
   */
  ghost function AwayRow(layout: seq<LayoutItem>, collidesWith: LayoutItem, itemToMove: LayoutItem,
                         isUserAction: bool): (r: int)
    reads layout, collidesWith, itemToMove
    ensures r == itemToMove.y + 1 || (isUserAction && ProbeFree(layout, AtRow(itemToMove.Box(), r)))
    ensures r == itemToMove.y + 1 || (isUserAction && r == Max(collidesWith.y - itemToMove.h, 0))
    ensures itemToMove.y >= 0 ==> r >= 0
  {
    if isUserAction && ProbeFree(layout, Probe(collidesWith, itemToMove))
    then Probe(collidesWith, itemToMove).y
    else itemToMove.y + 1
  }

  /** `getFirstCollision` with the mock item finds nothing exactly when the probe is free. */
  lemma ProbeCollisionIffNotFree(layout: seq<LayoutItem>, probe: Rect)
    ensures FirstProbeCollision(layout, probe).None? <==> ProbeFree(layout, probe)
  {
  }

  /**
   * When the collider fits above the mover, the probe ends where the mover
   * begins, so it does not overlap the mover; otherwise it sits at row 0.
   */
  lemma ProbeAboveMover(collidesWith: LayoutItem, itemToMove: LayoutItem)
    ensures var p := Probe(collidesWith, itemToMove);
            if collidesWith.y >= itemToMove.h
            then p.y + p.h == collidesWith.y && !Overlap(p, collidesWith.Box())
            else p.y == 0
  {
    var p := Probe(collidesWith, itemToMove);
    if collidesWith.y >= itemToMove.h {
      TouchingDoNotOverlap(p, collidesWith.Box());
    }
  }

  /** A subset is no larger than the set it is taken from. */
  lemma SubsetCardinality(a: set<LayoutItem>, b: set<LayoutItem>)
    requires a <= b
    ensures |a| <= |b|
  {
    assert b == a + (b - a);
  }

  /**
   * `moveElement(layout, l, x, y, isUserAction)`: places `l` and finds the
   * items it collides with, then hands each of them to the callback of the
   * `forEach`. The same array is returned. The ghost `items` names the set
   * of items the array holds.
   */
  method MoveElement(layout: array<LayoutItem>, l: LayoutItem, x: Option<int>, y: Option<int>,
                     isUserAction: bool, ghost items: set<LayoutItem>)
    returns (result: array<LayoutItem>)
    requires Members(layout) == items
    modifies layout, items`x, items`y, items`moved, l`x, l`y, l`moved
    decreases |Unmoved(items) - {l}|, 2
    ensures result == layout
    ensures multiset(layout[..]) == old(multiset(layout[..])) && Members(layout) == items
    ensures l.moved && l.w == old(l.w) && l.h == old(l.h)
    ensures l.x == (if x.Some? then x.value else old(l.x))
    ensures l.y == (if y.Some? then y.value else old(l.y))
    ensures CascadeFrame(items - {l}, isUserAction, l.y)
    ensures Unmoved(items) <= old(Unmoved(items)) - {l}
    ensures forall c :: c in items && Collides(c, l) && !c.moved ==> InDeadzone(l, c)
  {
    var collisions, ordered := PlaceAndFindCollisions(layout, l, x, y, items);
    SubsetCardinality(Unmoved(items), old(Unmoved(items)) - {l});
    label Placed:
    DisplaceEach(layout, l, collisions, isUserAction, items);
    forall c | c in items - {l} ensures CascadeFrameAt(c, isUserAction, l.y) {
      assert CascadeFrameAt@Placed(c, isUserAction, l.y);
    }
    result := layout;
  }

  /**
   * The first part of `moveElement`: `l` takes the given column and row
   * and is marked moved; the array is sorted in place by row and column
   * and, when `l` moves up, reversed; the result is `getAllCollisions` of
   * the array so ordered. A row of `None` stands for `undefined`;
   * `movingUp` follows the truthiness of the source, so a target row of 0
   * does not count as moving up.
   */
  method PlaceAndFindCollisions(layout: array<LayoutItem>, l: LayoutItem, x: Option<int>, y: Option<int>,
                                ghost items: set<LayoutItem>)
    returns (collisions: seq<LayoutItem>, ghost ordered: seq<LayoutItem>)
    requires Members(layout) == items
    modifies layout, l`x, l`y, l`moved
    ensures multiset(layout[..]) == old(multiset(layout[..])) && Members(layout) == items
    ensures l.moved && l.w == old(l.w) && l.h == old(l.h)
    ensures l.x == (if x.Some? then x.value else old(l.x))
    ensures l.y == (if y.Some? then y.value else old(l.y))
    ensures Sorted(ordered)
    ensures layout[..] == if y.Some? && y.value != 0 && old(l.y) > y.value then Reversed(ordered) else ordered
    ensures collisions == AllCollisions(layout[..], l)
    ensures forall k :: 0 <= k < |collisions| ==> collisions[k] in items
    ensures unchanged(items - {l})
    ensures Unmoved(items) <= old(Unmoved(items)) - {l}
  {
    var movingUp := y.Some? && y.value != 0 && l.y > y.value;
    if x.Some? {
      l.x := x.value;
    }
    if y.Some? {
      l.y := y.value;
    }
    l.moved := true;
    var sorted;
    sorted, ordered := OrderForCollisions(layout, movingUp);
    MembersOfPermutation(layout[..], old(layout[..]));
    collisions := AllCollisions(sorted[..], l);
  }

  /**
   * The order in which `moveElement` looks for collisions: the array sorted
   * in place by row and column and, when the mover goes up, reversed in
   * place. The same array is returned.
   */
  method OrderForCollisions(layout: array<LayoutItem>, movingUp: bool)
    returns (sorted: array<LayoutItem>, ghost ordered: seq<LayoutItem>)
    modifies layout
    ensures sorted == layout
    ensures multiset(layout[..]) == old(multiset(layout[..]))
    ensures Sorted(ordered)
    ensures layout[..] == if movingUp then Reversed(ordered) else ordered
  {
    sorted := SortLayoutItemsByRowCol(layout);
    ordered := sorted[..];
    if movingUp {
      ReverseInPlace(sorted);
      ReversedPermutation(ordered);
    }
  }

  /**
   * The `forEach` of `moveElement`: the callback runs on each collider in
   * the order `getAllCollisions` found them. The mover, already marked, is
   * left as it is.
   */
  method DisplaceEach(layout: array<LayoutItem>, l: LayoutItem, collisions: seq<LayoutItem>,
                      isUserAction: bool, ghost items: set<LayoutItem>)
    requires Members(layout) == items && l.moved
    requires forall k :: 0 <= k < |collisions| ==> collisions[k] in items
    modifies layout, items`x, items`y, items`moved
    decreases |Unmoved(items)|, 1
    ensures multiset(layout[..]) == old(multiset(layout[..])) && Members(layout) == items
    ensures unchanged(l)
    ensures CascadeFrame(items, isUserAction, l.y)
    ensures Unmoved(items) <= old(Unmoved(items))
    ensures forall k :: 0 <= k < |collisions| ==> collisions[k].moved || InDeadzone(l, collisions[k])
  {
    var i := 0;
    while i < |collisions|
      invariant 0 <= i <= |collisions|
      invariant multiset(layout[..]) == old(multiset(layout[..])) && Members(layout) == items
      invariant CascadeFrame(items, isUserAction, l.y) && unchanged(l)
      invariant Unmoved(items) <= old(Unmoved(items))
      invariant forall k :: 0 <= k < i ==> collisions[k].moved || InDeadzone(l, collisions[k])
    {
      SubsetCardinality(Unmoved(items), old(Unmoved(items)));
      label Before:
      DisplaceCollider(layout, l, collisions[i], isUserAction, items);
      forall c | c in items ensures CascadeFrameAt(c, isUserAction, l.y) {
        assert CascadeFrameAt@Before(c, isUserAction, l.y);
      }
      forall k | 0 <= k <= i ensures collisions[k].moved || InDeadzone(l, collisions[k]) {
        var c := collisions[k];
        if !c.moved {
          assert !old@Before(c.moved) && c.y == old@Before(c.y);
        }
      }
      i := i + 1;
    }
  }

  /**
   * The callback of the `forEach` in `moveElement` for collider `c`: an
   * item already marked moved is left alone, and so is one in the deadzone;
   * any other is moved away by `moveElementAwayFromCollision`, whose result
   * is the same array.
   */
  method DisplaceCollider(layout: array<LayoutItem>, l: LayoutItem, c: LayoutItem, isUserAction: bool,
                          ghost items: set<LayoutItem>)
    requires Members(layout) == items && c in items
    modifies layout, items`x, items`y, items`moved
    decreases |Unmoved(items)|, 0
    ensures multiset(layout[..]) == old(multiset(layout[..])) && Members(layout) == items
    ensures CascadeFrame(items, isUserAction, old(l.y))
    ensures Unmoved(items) <= old(Unmoved(items))
    ensures old(c.moved || InDeadzone(l, c)) ==> layout[..] == old(layout[..]) && unchanged(items)
    ensures !old(c.moved || InDeadzone(l, c)) ==>
              c.moved && c.y == old(AwayRow(layout[..], l, c, isUserAction))
    ensures !old(c.moved || InDeadzone(l, c)) ==> CollisionsResolved(items, c)
  {
    if c.moved {
      return;
    }
    if l.y > c.y && 4 * (l.y - c.y) > c.h {
      return;
    }
    var r := MoveElementAwayFromCollision(layout, l, c, isUserAction, items);
    forall d | d in items ensures CascadeFrameAt(d, isUserAction, old(l.y)) {
      if d != c {
        assert CascadeFrameAt(d, false, 0);
      }
    }
  }

  /**
   * `moveElementAwayFromCollision(layout, collidesWith, itemToMove,
   * isUserAction)`: when the user is moving, try the probe just above
   * `collidesWith` against the whole layout and, if nothing is there, move
   * `itemToMove` to the probe's row; otherwise move it one row down. Either
   * way the nested `moveElement` call does not count as a user action.
   */
  method MoveElementAwayFromCollision(layout: array<LayoutItem>, collidesWith: LayoutItem,
                                      itemToMove: LayoutItem, isUserAction: bool,
                                      ghost items: set<LayoutItem>)
    returns (result: array<LayoutItem>)
    requires Members(layout) == items
    modifies layout, items`x, items`y, items`moved, itemToMove`x, itemToMove`y, itemToMove`moved
    decreases |Unmoved(items) - {itemToMove}|, 3
    ensures result == layout
    ensures multiset(layout[..]) == old(multiset(layout[..])) && Members(layout) == items
    ensures itemToMove.moved && itemToMove.x == old(itemToMove.x)
    ensures itemToMove.w == old(itemToMove.w) && itemToMove.h == old(itemToMove.h)
    ensures itemToMove.y == old(AwayRow(layout[..], collidesWith, itemToMove, isUserAction))
    ensures CascadeFrame(items - {itemToMove}, false, 0)
    ensures Unmoved(items) <= old(Unmoved(items)) - {itemToMove}
    ensures CollisionsResolved(items, itemToMove)
  {
    if isUserAction {
      var probe := Rect(itemToMove.x, Max(collidesWith.y - itemToMove.h, 0), itemToMove.w, itemToMove.h);
      ProbeCollisionIffNotFree(layout[..], probe);
      if FirstProbeCollision(layout[..], probe).None? {
        result := MoveElement(layout, itemToMove, None, Some(probe.y), false, items);
        return;
      }
    }
    result := MoveElement(layout, itemToMove, None, Some(itemToMove.y + 1), false, items);
  }
}
