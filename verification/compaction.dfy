/**
 * Vertical compaction: `compactItem` pulls one item up while it is free and
 * then drops it below each item it still collides with; `compact` runs it
 * over the layout in row/column order, comparing each item only with the
 * items placed before it.
 *
 * The row `compactItem` computes is specified by `CompactRow`, a function
 * of the rectangles of the other items, the item's own rectangle and its
 * starting row; the properties of compaction are lemmas about it.
 */
module Compaction {
  import opened Geometry
  import opened Items
  import opened Ordering

  /** No rectangle of `rs` overlaps `r`. */
  predicate ClearOf(rs: seq<Rect>, r: Rect)
  {
    forall i :: 0 <= i < |rs| ==> !Overlap(rs[i], r)
  }

  /** The first rectangle of `rs`, in list order, that overlaps `r`. */
  function FirstOverlap(rs: seq<Rect>, r: Rect): (o: Option<Rect>)
    ensures o.Some? ==> o.value in rs && Overlap(o.value, r)
  {
    if rs == [] then None
    else if Overlap(rs[0], r) then Some(rs[0])
    else FirstOverlap(rs[1..], r)
  }

  /** `FirstOverlap` finds nothing exactly when no rectangle overlaps `r`. */
  lemma {:induction false} NoOverlapIffClear(rs: seq<Rect>, r: Rect)
    ensures FirstOverlap(rs, r).None? <==> ClearOf(rs, r)
  {
    if rs != [] {
      NoOverlapIffClear(rs[1..], r);
      assert forall i :: 0 < i < |rs| ==> rs[i] == rs[1..][i - 1];
    }
  }

  /** The lowest bottom edge among `rs`, and at least 0. */
  function LowestEdge(rs: seq<Rect>): (b: int)
    ensures b >= 0
    ensures forall r :: r in rs ==> r.y + r.h <= b
  {
    if rs == [] then 0
    else
      assert forall r :: r in rs[1..] ==> r in rs;
      Max(rs[0].y + rs[0].h, LowestEdge(rs[1..]))
  }

  /**
   * `bottom(compareWith)` is the lowest edge of the rectangles of
   * `compareWith`, so the second loop of `compactItem` never takes an item
   * below it.
   */
  lemma LowestEdgeIsBottom(s: seq<LayoutItem>)
    ensures LowestEdge(Boxes(s)) == Bottom(s)
  {
    LowestEdgeAtMostBottom(s);
    var t := Bottom(s);
    if t != 0 {
      var i :| 0 <= i < |s| && t == s[i].y + s[i].h;
      assert Boxes(s)[i] in Boxes(s);
    }
  }

  /** No rectangle of `s` reaches below `bottom(s)`. */
  lemma LowestEdgeAtMostBottom(s: seq<LayoutItem>)
    ensures LowestEdge(Boxes(s)) <= Bottom(s)
  {
    var rs := Boxes(s);
    LowestEdgeAttained(rs);
    if LowestEdge(rs) != 0 {
      var r :| r in rs && LowestEdge(rs) == r.y + r.h;
      var i :| 0 <= i < |rs| && rs[i] == r;
    }
  }

  /** The lowest edge is 0 or the bottom edge of one of the rectangles. */
  lemma {:induction false} LowestEdgeAttained(rs: seq<Rect>)
    ensures LowestEdge(rs) == 0 || exists r :: r in rs && LowestEdge(rs) == r.y + r.h
  {
    if rs != [] {
      LowestEdgeAttained(rs[1..]);
      if LowestEdge(rs) != rs[0].y + rs[0].h && LowestEdge(rs) != 0 {
        var r :| r in rs[1..] && LowestEdge(rs[1..]) == r.y + r.h;
        assert r in rs;
      }
    }
  }

  /**
   * The first loop of `compactItem`: while above row 0 and free of `rs`,
   * move up one row.
   */
  function RisenRow(rs: seq<Rect>, shape: Rect, y: int): (r: int)
    ensures r <= y
    ensures y >= 0 ==> r >= 0
    decreases y
  {
    if y > 0 && FirstOverlap(rs, AtRow(shape, y)).None? then RisenRow(rs, shape, y - 1) else y
  }

  /**
   * Where the first loop stops: at row 0 or at a row where `shape` is not
   * free; and the row below is free if it moved at all.
   */
  lemma {:induction false} RisenRowStops(rs: seq<Rect>, shape: Rect, y: int)
    ensures RisenRow(rs, shape, y) <= 0 || FirstOverlap(rs, AtRow(shape, RisenRow(rs, shape, y))).Some?
    ensures RisenRow(rs, shape, y) < y ==> FirstOverlap(rs, AtRow(shape, RisenRow(rs, shape, y) + 1)).None?
    decreases y
  {
    if y > 0 && FirstOverlap(rs, AtRow(shape, y)).None? {
      RisenRowStops(rs, shape, y - 1);
    }
  }

  /**
   * The second loop of `compactItem`: while `shape` overlaps a rectangle
   * of `rs`, move it to the bottom edge of the first such rectangle. Each
   * step goes strictly down and never past `LowestEdge(rs)`, which is why
   * the loop ends; where it ends, `shape` overlaps nothing.
   */
  function DroppedRow(rs: seq<Rect>, shape: Rect, y: int): (r: int)
    ensures y <= r <= Max(y, LowestEdge(rs))
    ensures FirstOverlap(rs, AtRow(shape, r)).None?
    decreases LowestEdge(rs) - y
  {
    match FirstOverlap(rs, AtRow(shape, y))
    case None => y
    case Some(b) => DroppedRow(rs, shape, b.y + b.h)
  }

  /** One step of the second loop does not change where it ends. */
  lemma DroppedRowStep(rs: seq<Rect>, shape: Rect, y: int, b: Rect, next: int)
    requires FirstOverlap(rs, AtRow(shape, y)) == Some(b) && next == b.y + b.h
    ensures DroppedRow(rs, shape, y) == DroppedRow(rs, shape, next)
  {
  }

  /** The row `compactItem` moves an item with rectangle `shape` at row `y` to. */
  function CompactRow(rs: seq<Rect>, shape: Rect, y: int): (r: int)
    ensures ClearOf(rs, AtRow(shape, r))
  {
    var r := DroppedRow(rs, shape, RisenRow(rs, shape, y));
    NoOverlapIffClear(rs, AtRow(shape, r));
    r
  }

  /** An item that starts at or below row 0 does not end above it. */
  lemma CompactRowKeepsNonNegative(rs: seq<Rect>, shape: Rect, y: int)
    requires y >= 0
    ensures CompactRow(rs, shape, y) >= 0
  {
  }

  /**
   * The item never ends lower than both its starting row and the lowest
   * edge of the others: this is the bound that makes the second loop end.
   */
  lemma CompactRowBounded(rs: seq<Rect>, shape: Rect, y: int)
    ensures CompactRow(rs, shape, y) <= Max(y, LowestEdge(rs))
  {
  }

  /** Dropping from a row whose next row is free goes down at most one row. */
  lemma DroppedAtMostOneRow(rs: seq<Rect>, shape: Rect, y: int)
    requires FirstOverlap(rs, AtRow(shape, y + 1)).None?
    ensures DroppedRow(rs, shape, y) <= y + 1
  {
    match FirstOverlap(rs, AtRow(shape, y))
    case None =>
    case Some(b) =>
      NoOverlapIffClear(rs, AtRow(shape, y + 1));
      var i :| 0 <= i < |rs| && rs[i] == b;
      BlockerEndsAtNextRow(b, shape, y);
      assert DroppedRow(rs, shape, y) == DroppedRow(rs, shape, y + 1);
  }

  /** An item that is free where it starts never ends lower than that. */
  lemma CompactRowFreeNotLower(rs: seq<Rect>, shape: Rect, y: int)
    requires ClearOf(rs, AtRow(shape, y))
    ensures CompactRow(rs, shape, y) <= y
  {
    NoOverlapIffClear(rs, AtRow(shape, y));
    var r := RisenRow(rs, shape, y);
    RisenRowStops(rs, shape, y);
    if r < y {
      DroppedAtMostOneRow(rs, shape, r);
    }
  }

  /**
   * With positive heights, an item the second loop moved rests on what it
   * was moved below: one row higher it would overlap that rectangle.
   */
  lemma {:induction false} DroppedRowRests(rs: seq<Rect>, shape: Rect, y: int)
    requires shape.h > 0 && forall i :: 0 <= i < |rs| ==> rs[i].h > 0
    ensures DroppedRow(rs, shape, y) == y ||
              !ClearOf(rs, AtRow(shape, DroppedRow(rs, shape, y) - 1))
    decreases LowestEdge(rs) - y
  {
    match FirstOverlap(rs, AtRow(shape, y))
    case None =>
    case Some(b) =>
      var next := b.y + b.h;
      DroppedRowStep(rs, shape, y, b, next);
      DroppedRowRests(rs, shape, next);
      if DroppedRow(rs, shape, next) == next {
        var i :| 0 <= i < |rs| && rs[i] == b;
        BlockedJustAbove(b, AtRow(shape, y));
        assert Overlap(rs[i], AtRow(shape, next - 1));
      }
  }

  /**
   * `r` rests on the rectangles `before`: it is at row 0 or above, or one
   * row higher it would overlap one of them.
   */
  predicate RestsOn(before: seq<Rect>, r: Rect)
  {
    r.y <= 0 || !ClearOf(before, AtRow(r, r.y - 1))
  }

  /**
   * With positive heights, compaction leaves the item resting: at row 0 or
   * above, or overlapping some other item one row higher.
   */
  lemma CompactRowRests(rs: seq<Rect>, shape: Rect, y: int)
    requires shape.h > 0 && forall i :: 0 <= i < |rs| ==> rs[i].h > 0
    ensures RestsOn(rs, AtRow(shape, CompactRow(rs, shape, y)))
  {
    var r := RisenRow(rs, shape, y);
    RisenRowStops(rs, shape, y);
    DroppedRowRests(rs, shape, r);
    var row := CompactRow(rs, shape, y);
    assert AtRow(AtRow(shape, row), row - 1) == AtRow(shape, row - 1);
  }

  /**
   * The rectangles of the items of `compareWith` other than `l`, in list
   * order. Only those items are read, so moving `l` leaves this unchanged.
   */
  function OtherBoxes(compareWith: seq<LayoutItem>, l: LayoutItem): (r: seq<Rect>)
    reads set c | c in compareWith && c != l
  {
    var w := Without(compareWith, l);
    assert forall i :: 0 <= i < |w| ==> w[i] in w;
    Boxes(w)
  }

  /**
   * The rectangles of the items of `compareWith` other than `l` tell what
   * `getFirstCollision(compareWith, l)` finds: nothing iff none of them
   * overlaps `l`, and otherwise the item whose rectangle comes first.
   */
  lemma {:induction false} FirstCollisionOfOthers(compareWith: seq<LayoutItem>, l: LayoutItem)
    ensures FirstCollision(compareWith, l).None? <==>
              FirstOverlap(OtherBoxes(compareWith, l), l.Box()).None?
    ensures FirstCollision(compareWith, l).Some? ==>
              FirstCollision(compareWith, l).value.Box() ==
                FirstOverlap(OtherBoxes(compareWith, l), l.Box()).value
  {
    if compareWith != [] {
      var c := compareWith[0];
      var rest := compareWith[1..];
      FirstCollisionOfOthers(rest, l);
      var w := Without(compareWith, l);
      if c == l {
        assert w == Without(rest, l);
      } else {
        assert w == [c] + Without(rest, l);
        assert Boxes(w) == [c.Box()] + Boxes(Without(rest, l));
        assert Boxes(w)[1..] == Boxes(Without(rest, l));
      }
    }
  }

  /** Where the second loop ends depends on the columns and height of `shape`, not on its row. */
  lemma {:induction false} DroppedRowIgnoresRow(rs: seq<Rect>, shape: Rect, row: int, y: int)
    ensures DroppedRow(rs, AtRow(shape, row), y) == DroppedRow(rs, shape, y)
    decreases LowestEdge(rs) - y
  {
    assert AtRow(AtRow(shape, row), y) == AtRow(shape, y);
    match FirstOverlap(rs, AtRow(shape, y))
    case None =>
    case Some(b) =>
      DroppedRowIgnoresRow(rs, shape, row, b.y + b.h);
  }

  /**
   * What `getFirstCollision(compareWith, l)` finds, for `l` with rectangle
   * `shape` moved to its current row, told by the other items' rectangles.
   */
  lemma CollisionAtRow(compareWith: seq<LayoutItem>, l: LayoutItem, others: seq<Rect>, shape: Rect)
    requires others == OtherBoxes(compareWith, l) && l.Box() == AtRow(shape, l.y)
    ensures FirstCollision(compareWith, l).None? <==> FirstOverlap(others, AtRow(shape, l.y)).None?
    ensures FirstCollision(compareWith, l).Some? ==>
              FirstCollision(compareWith, l).value.Box() == FirstOverlap(others, AtRow(shape, l.y)).value
  {
    FirstCollisionOfOthers(compareWith, l);
  }

  /**
   * The first loop of `compactItem`: while `l` is below row 0 and collides
   * with nothing in `compareWith`, move it up one row.
   */
  method RiseWhileFree(compareWith: seq<LayoutItem>, l: LayoutItem, ghost others: seq<Rect>, ghost shape: Rect)
    requires others == OtherBoxes(compareWith, l) && shape == l.Box()
    modifies l`y
    ensures l.y == RisenRow(others, shape, old(l.y))
  {
    ghost var risen := RisenRow(others, shape, l.y);
    while l.y > 0 && FirstCollision(compareWith, l).None?
      invariant OtherBoxes(compareWith, l) == others
      invariant RisenRow(others, shape, l.y) == risen
      decreases l.y
    {
      CollisionAtRow(compareWith, l, others, shape);
      l.y := l.y - 1;
    }
    CollisionAtRow(compareWith, l, others, shape);
  }

  /**
   * The second loop of `compactItem`: while `l` collides with an item of
   * `compareWith`, move it to the bottom edge of the first such item.
   * Where it stops, it collides with nothing in `compareWith`.
   */
  method DropBelowCollisions(compareWith: seq<LayoutItem>, l: LayoutItem, ghost others: seq<Rect>, ghost shape: Rect)
    requires others == OtherBoxes(compareWith, l) && l.Box() == AtRow(shape, l.y)
    modifies l`y
    ensures l.y == DroppedRow(others, shape, old(l.y))
  {
    ghost var dropped := DroppedRow(others, shape, l.y);
    CollisionAtRow(compareWith, l, others, shape);
    var blocker := FirstCollision(compareWith, l);
    while blocker.Some?
      invariant OtherBoxes(compareWith, l) == others
      invariant blocker.None? <==> FirstOverlap(others, AtRow(shape, l.y)).None?
      invariant blocker.Some? ==> blocker.value.Box() == FirstOverlap(others, AtRow(shape, l.y)).value
      invariant DroppedRow(others, shape, l.y) == dropped
      decreases LowestEdge(others) - l.y
    {
      var c := blocker.value;
      ghost var b := FirstOverlap(others, AtRow(shape, l.y)).value;
      ghost var y := l.y;
      l.y := c.y + c.h;
      DroppedRowStep(others, shape, y, b, l.y);
      blocker := FirstCollision(compareWith, l);
      CollisionAtRow(compareWith, l, others, shape);
    }
  }

  /**
   * `compactItem(compareWith, l)`: the two loops in turn; `l` is updated in
   * place and returned. Its new row is `CompactRow` of the other items'
   * rectangles, its own and its old row, and it collides with nothing in
   * `compareWith`.
   */
  method CompactItem(compareWith: seq<LayoutItem>, l: LayoutItem) returns (r: LayoutItem)
    modifies l`y
    ensures r == l
    ensures l.y == CompactRow(old(OtherBoxes(compareWith, l)), old(l.Box()), old(l.y))
    ensures forall c :: c in compareWith ==> !Collides(c, l)
  {
    ghost var others := OtherBoxes(compareWith, l);
    ghost var shape := l.Box();
    RiseWhileFree(compareWith, l, others, shape);
    ghost var risen := l.y;
    DropBelowCollisions(compareWith, l, others, shape);
    DroppedRowIgnoresRow(others, shape, risen, risen);
    r := l;
  }

  /**
   * The rectangles `compact` gives to items with rectangles `shapes`, taken
   * in that order: each is moved to its `CompactRow` against the rectangles
   * already placed before it.
   */
  function Placement(shapes: seq<Rect>): (r: seq<Rect>)
    ensures |r| == |shapes|
    ensures forall i :: 0 <= i < |r| ==> r[i] == AtRow(shapes[i], r[i].y)
  {
    if shapes == [] then []
    else
      var prefix := Placement(shapes[..|shapes| - 1]);
      var last := shapes[|shapes| - 1];
      prefix + [AtRow(last, CompactRow(prefix, last, last.y))]
  }

  /** The placement of a prefix is the prefix of the placement. */
  lemma {:induction false} PlacementPrefix(shapes: seq<Rect>, n: int)
    requires 0 <= n <= |shapes|
    ensures Placement(shapes[..n]) == Placement(shapes)[..n]
    decreases |shapes|
  {
    if n < |shapes| {
      var m := |shapes| - 1;
      assert Placement(shapes) ==
               Placement(shapes[..m]) + [AtRow(shapes[m], CompactRow(Placement(shapes[..m]), shapes[m], shapes[m].y))];
      PlacementPrefix(shapes[..m], n);
      assert shapes[..m][..n] == shapes[..n];
    } else {
      assert shapes[..n] == shapes;
    }
  }

  /**
   * Each item of the placement is its shape moved to the row `compactItem`
   * finds against the placed items before it.
   */
  lemma PlacementAt(shapes: seq<Rect>, i: int)
    requires 0 <= i < |shapes|
    ensures Placement(shapes)[i] ==
              AtRow(shapes[i], CompactRow(Placement(shapes)[..i], shapes[i], shapes[i].y))
  {
    PlacementStep(shapes, i);
    PlacementPrefix(shapes, i);
    PlacementPrefix(shapes, i + 1);
    assert Placement(shapes)[i] == Placement(shapes)[..i + 1][i];
  }

  /** Placing one more item extends the placement of the ones before it. */
  lemma PlacementStep(shapes: seq<Rect>, i: int)
    requires 0 <= i < |shapes|
    ensures Placement(shapes[..i + 1]) ==
              Placement(shapes[..i]) +
                [AtRow(shapes[i], CompactRow(Placement(shapes[..i]), shapes[i], shapes[i].y))]
  {
    assert shapes[..i + 1][..i] == shapes[..i];
  }

  /** No two placed rectangles overlap. */
  predicate Disjoint(rs: seq<Rect>)
  {
    forall p, q :: 0 <= p < q < |rs| ==> !Overlap(rs[p], rs[q])
  }

  /** After compaction no two items overlap. */
  lemma {:induction false} PlacementDisjoint(shapes: seq<Rect>)
    ensures Disjoint(Placement(shapes))
  {
    if shapes != [] {
      var n := |shapes|;
      var prefix := Placement(shapes[..n - 1]);
      PlacementDisjoint(shapes[..n - 1]);
      var r := Placement(shapes);
      var last := r[n - 1];
      assert ClearOf(prefix, last);
      forall p, q | 0 <= p < q < n ensures !Overlap(r[p], r[q]) {
        if q < n - 1 {
          assert r[p] == prefix[p] && r[q] == prefix[q];
        } else {
          assert r[p] == prefix[p];
        }
      }
    }
  }

  /** The `i`th rectangle of `r` rests on the ones before it. */
  predicate RestsAt(r: seq<Rect>, i: int)
    requires 0 <= i < |r|
  {
    RestsOn(r[..i], r[i])
  }

  /** The last rectangle the placement adds rests on the ones before it. */
  lemma PlacementLastRests(shapes: seq<Rect>)
    requires shapes != [] && forall i :: 0 <= i < |shapes| ==> shapes[i].h > 0
    ensures RestsAt(Placement(shapes), |shapes| - 1)
  {
    var n := |shapes|;
    var init := shapes[..n - 1];
    var prefix := Placement(init);
    var last := shapes[n - 1];
    PlacementKeepsHeights(init);
    var row := CompactRow(prefix, last, last.y);
    CompactRowRests(prefix, last, last.y);
    RestsAtEnd(prefix, AtRow(last, row));
    assert Placement(shapes) == prefix + [AtRow(last, row)];
  }

  /** Placed rectangles keep the heights of their shapes, so positive heights stay positive. */
  lemma PlacementKeepsHeights(shapes: seq<Rect>)
    requires forall i :: 0 <= i < |shapes| ==> shapes[i].h > 0
    ensures forall i :: 0 <= i < |shapes| ==> Placement(shapes)[i].h > 0
  {
    var r := Placement(shapes);
    forall i | 0 <= i < |shapes| ensures r[i].h > 0 {
      assert r[i] == AtRow(shapes[i], r[i].y);
    }
  }

  /** The rectangle appended to a list rests on it exactly when it rests on the list. */
  lemma RestsAtEnd(before: seq<Rect>, r: Rect)
    ensures RestsAt(before + [r], |before|) == RestsOn(before, r)
  {
    assert (before + [r])[..|before|] == before;
  }

  /**
   * Every rectangle of a placement of shapes of positive height rests on
   * the rectangles placed before it.
   */
  lemma {:induction false} PlacementRests(shapes: seq<Rect>)
    requires forall i :: 0 <= i < |shapes| ==> shapes[i].h > 0
    ensures forall i :: 0 <= i < |shapes| ==> RestsAt(Placement(shapes), i)
  {
    if shapes != [] {
      var n := |shapes|;
      var prefix := Placement(shapes[..n - 1]);
      PlacementRests(shapes[..n - 1]);
      PlacementLastRests(shapes);
      var r := Placement(shapes);
      assert r[..n - 1] == prefix;
      forall i | 0 <= i < n ensures RestsAt(r, i) {
        if i < n - 1 {
          assert RestsAt(prefix, i);
          assert r[..i] == prefix[..i] && r[i] == prefix[i];
        }
      }
    }
  }

  /**
   * A rectangle that is free of `rs` where it is and rests on them is not
   * moved by `compactItem`: the first loop lifts it by at most one row,
   * into the rectangle it rests on, and the second loop puts it back.
   */
  lemma CompactRowKeepsResting(rs: seq<Rect>, shape: Rect)
    requires ClearOf(rs, shape) && RestsOn(rs, shape)
    ensures CompactRow(rs, shape, shape.y) == shape.y
  {
    var y := shape.y;
    assert AtRow(shape, y) == shape;
    CompactRowFreeNotLower(rs, shape, y);
    NoOverlapIffClear(rs, shape);
    if y > 0 {
      NoOverlapIffClear(rs, AtRow(shape, y - 1));
      assert RisenRow(rs, shape, y - 1) == y - 1;
      assert RisenRow(rs, shape, y) == y - 1;
      var b := FirstOverlap(rs, AtRow(shape, y - 1)).value;
      assert DroppedRow(rs, shape, y - 1) == DroppedRow(rs, shape, b.y + b.h);
    }
  }

  /**
   * Compaction leaves a layout alone when its rectangles are pairwise
   * disjoint and each rests on the ones before it.
   */
  lemma {:induction false} PlacementFixedPoint(rs: seq<Rect>)
    requires Disjoint(rs) && forall i :: 0 <= i < |rs| ==> RestsAt(rs, i)
    ensures Placement(rs) == rs
  {
    if rs != [] {
      var n := |rs|;
      var init := rs[..n - 1];
      var last := rs[n - 1];
      SettledPrefix(rs);
      PlacementFixedPoint(init);
      CompactRowKeepsResting(init, last);
      assert rs == init + [last];
      PlacementAppendFixed(init, last);
    }
  }

  /** A fixed point of compaction stays one when a rectangle that compaction does not move is appended. */
  lemma PlacementAppendFixed(init: seq<Rect>, last: Rect)
    requires Placement(init) == init && CompactRow(init, last, last.y) == last.y
    ensures Placement(init + [last]) == init + [last]
  {
    var rs := init + [last];
    assert rs[..|rs| - 1] == init;
    assert AtRow(last, last.y) == last;
  }

  /**
   * Dropping the last rectangle of a disjoint list that rests on its
   * prefixes leaves such a list, which the last rectangle is free of and
   * rests on.
   */
  lemma SettledPrefix(rs: seq<Rect>)
    requires rs != [] && Disjoint(rs) && forall i :: 0 <= i < |rs| ==> RestsAt(rs, i)
    ensures var init := rs[..|rs| - 1];
            Disjoint(init) && (forall i :: 0 <= i < |init| ==> RestsAt(init, i)) &&
            ClearOf(init, rs[|rs| - 1]) && RestsOn(init, rs[|rs| - 1])
  {
    var n := |rs|;
    var init := rs[..n - 1];
    forall i | 0 <= i < n - 1 ensures RestsAt(init, i) {
      assert RestsAt(rs, i);
      assert init[..i] == rs[..i];
    }
    forall i | 0 <= i < |init| ensures !Overlap(init[i], rs[n - 1]) {
      assert !Overlap(rs[i], rs[n - 1]);
    }
    assert RestsAt(rs, n - 1);
  }

  /**
   * Compacting the output of compaction again, in the same order, moves
   * nothing.
   */
  lemma PlacementIdempotent(shapes: seq<Rect>)
    requires forall i :: 0 <= i < |shapes| ==> shapes[i].h > 0
    ensures Placement(Placement(shapes)) == Placement(shapes)
  {
    PlacementDisjoint(shapes);
    PlacementRests(shapes);
    PlacementFixedPoint(Placement(shapes));
  }

  /**
   * Every rectangle is at row 0 or above, or one row higher it would
   * overlap another rectangle of the list, in any position.
   */
  predicate Settled(rs: seq<Rect>)
  {
    forall i :: 0 <= i < |rs| ==>
      rs[i].y <= 0 || exists j :: 0 <= j < |rs| && j != i && Overlap(rs[j], AtRow(rs[i], rs[i].y - 1))
  }

  /**
   * In a disjoint list in row/column order, with positive heights, what a
   * settled rectangle would hit one row higher comes before it: the list
   * rests on its prefixes.
   */
  lemma SettledRestsAt(rs: seq<Rect>, i: int)
    requires Disjoint(rs) && RowColOrdered(rs) && Settled(rs) && 0 <= i < |rs|
    requires forall k :: 0 <= k < |rs| ==> rs[k].h > 0
    ensures RestsAt(rs, i)
  {
    var r := rs[i];
    if r.y > 0 {
      var j :| 0 <= j < |rs| && j != i && Overlap(rs[j], AtRow(r, r.y - 1));
      if j > i {
        assert false;
      }
      assert rs[..i][j] == rs[j];
    }
  }

  /**
   * A layout whose rectangles are disjoint, settled and of positive
   * height, sorted by row and column, is left alone by compaction. This is
   * the situation of a second `compact`: it re-sorts the items by their
   * compacted positions, and the properties asked here do not depend on
   * the order of the list.
   */
  lemma SettledFixedPoint(rs: seq<Rect>)
    requires Disjoint(rs) && RowColOrdered(rs) && Settled(rs)
    requires forall k :: 0 <= k < |rs| ==> rs[k].h > 0
    ensures Placement(rs) == rs
  {
    forall i | 0 <= i < |rs| ensures RestsAt(rs, i) {
      SettledRestsAt(rs, i);
    }
    PlacementFixedPoint(rs);
  }

  /** Compaction moves no item that starts at or below row 0 above it. */
  lemma {:induction false} PlacementKeepsNonNegative(shapes: seq<Rect>)
    ensures forall i :: 0 <= i < |shapes| && shapes[i].y >= 0 ==> Placement(shapes)[i].y >= 0
  {
    if shapes != [] {
      var n := |shapes|;
      PlacementKeepsNonNegative(shapes[..n - 1]);
      var last := shapes[n - 1];
      if last.y >= 0 {
        CompactRowKeepsNonNegative(Placement(shapes[..n - 1]), last, last.y);
      }
    }
  }

  /**
   * The rectangles in the loop of `compact` after `i` items: those are at
   * their row in `target`, the others still have their original shapes.
   */
  ghost predicate PlacedUpTo(items: seq<LayoutItem>, shapes: seq<Rect>, target: seq<Rect>, i: int)
    reads items`x, items`y, items`w, items`h
  {
    0 <= i <= |items| == |shapes| == |target| &&
    (forall k :: 0 <= k < i ==> items[k].Box() == target[k]) &&
    (forall k :: i <= k < |items| ==> items[k].Box() == shapes[k])
  }

  /** The first `i` items have their `moved` flag cleared. */
  ghost predicate ClearedUpTo(items: seq<LayoutItem>, i: int)
    reads items`moved
  {
    forall k :: 0 <= k < i && k < |items| ==> !items[k].moved
  }

  /** No item of `s` has its `moved` flag set. */
  ghost predicate NoneMoved(s: seq<LayoutItem>)
    reads s`moved
  {
    forall k :: 0 <= k < |s| ==> !s[k].moved
  }

  /**
   * `compactItem` on the `i`th item against the items before it, which are
   * at their placement, moves it to its row in the placement.
   */
  method CompactAgainstPlaced(compareWith: seq<LayoutItem>, l: LayoutItem,
                              ghost items: seq<LayoutItem>, ghost i: int,
                              ghost shapes: seq<Rect>, ghost target: seq<Rect>)
    requires Distinct(items) && 0 <= i < |items| && items[i] == l && compareWith == items[..i]
    requires target == Placement(shapes) && PlacedUpTo(items, shapes, target, i)
    modifies l`y
    ensures PlacedUpTo(items, shapes, target, i + 1)
  {
    DistinctAt(items, i);
    PlacementAt(shapes, i);
    assert Boxes(compareWith) == target[..i];
    assert OtherBoxes(compareWith, l) == target[..i];
    var r := CompactItem(compareWith, l);
  }

  /**
   * The callback of the `forEach` in `compact` for the `i`th item of the
   * sorted layout: compact it against the items before it, append it to
   * them, store it in the output at its index, and clear its `moved` flag.
   * The output so far holds the items before it, so its index is the
   * output's length and the store appends.
   */
  method CompactEach(layout: seq<LayoutItem>, compareWith: seq<LayoutItem>, out: seq<LayoutItem>,
                     l: LayoutItem, ghost i: int, ghost shapes: seq<Rect>, ghost target: seq<Rect>)
    returns (next: seq<LayoutItem>, nextOut: seq<LayoutItem>)
    requires Distinct(layout) && 0 <= i < |layout|
    requires layout[i] == l && compareWith == layout[..i] && out == compareWith
    requires target == Placement(shapes)
    requires PlacedUpTo(layout, shapes, target, i) && ClearedUpTo(layout, i)
    modifies l`y, l`moved
    ensures next == compareWith + [l] == layout[..i + 1] && nextOut == next
    ensures PlacedUpTo(layout, shapes, target, i + 1) && ClearedUpTo(layout, i + 1)
  {
    DistinctAt(layout, i);
    CompactAgainstPlaced(compareWith, l, layout, i, shapes, target);
    next := compareWith + [l];
    var idx := IndexOf(layout, l);
    assert idx == |out|;
    nextOut := out + [l];
    l.moved := false;
  }

  /**
   * The loop of `compact` over the already sorted array. The array itself
   * is not changed; its items end at `Placement` of their rectangles, and
   * the output lists them in the array's order.
   */
  method CompactInOrder(items: seq<LayoutItem>, ghost shapes: seq<Rect>) returns (out: seq<LayoutItem>)
    requires Distinct(items) && shapes == Boxes(items)
    modifies (set c | c in items)`y, (set c | c in items)`moved
    ensures out == items
    ensures Boxes(items) == Placement(shapes)
    ensures NoneMoved(items)
  {
    ghost var target := Placement(shapes);
    var compareWith: seq<LayoutItem> := [];
    out := [];
    var i := 0;
    while i < |items|
      invariant 0 <= i <= |items|
      invariant compareWith == items[..i] && out == compareWith
      invariant PlacedUpTo(items, shapes, target, i) && ClearedUpTo(items, i)
    {
      var l := items[i];
      compareWith, out := CompactEach(items, compareWith, out, l, i, shapes, target);
      i := i + 1;
    }
    assert items[..i] == items;
    PlacedAll(items, shapes, target);
  }

  /** Once every item is placed, the rectangles are the placement. */
  lemma PlacedAll(items: seq<LayoutItem>, shapes: seq<Rect>, target: seq<Rect>)
    requires PlacedUpTo(items, shapes, target, |items|)
    ensures Boxes(items) == target
  {
  }

  /**
   * `compact(layout)`: sorts the array in place by row and column, then
   * compacts the items in that order. The output lists the items in their
   * row/column order from before compaction, and the input array is left
   * in that order too.
   */
  method Compact(layout: array<LayoutItem>) returns (out: seq<LayoutItem>, ghost shapes: seq<Rect>)
    requires Distinct(layout[..])
    modifies layout, Members(layout)`y, Members(layout)`moved
    ensures out == layout[..]
    ensures multiset(out) == old(multiset(layout[..]))
    ensures forall i :: 0 <= i < |out| ==> out[i] in old(layout[..])
    ensures |shapes| == |out| && forall i :: 0 <= i < |out| ==> shapes[i] == old(out[i].Box())
    ensures RowColOrdered(shapes)
    ensures Boxes(out) == Placement(shapes)
    ensures NoneMoved(out)
  {
    var order;
    order, shapes := SortForCompaction(layout);
    out := CompactInOrder(order, shapes);
  }

  /**
   * The first step of `compact`: the sort, with the rectangles the items
   * occupy at that point, which the sort does not change.
   */
  method SortForCompaction(layout: array<LayoutItem>) returns (order: seq<LayoutItem>, ghost shapes: seq<Rect>)
    requires Distinct(layout[..])
    modifies layout
    ensures order == layout[..] && Distinct(order)
    ensures multiset(order) == old(multiset(layout[..]))
    ensures forall i :: 0 <= i < |order| ==> order[i] in old(layout[..])
    ensures (set c | c in order) == Members(layout) == old(Members(layout))
    ensures shapes == Boxes(order)
    ensures |shapes| == |order| && forall i :: 0 <= i < |order| ==> shapes[i] == old(order[i].Box())
    ensures RowColOrdered(shapes)
  {
    var sorted := SortLayoutItemsByRowCol(layout);
    order := sorted[..];
    shapes := Boxes(order);
    forall i | 0 <= i < |order| ensures shapes[i] == old(order[i].Box()) {
      assert shapes[i] == order[i].Box();
    }
    SortedBoxes(order);
    assert Distinct(order);
    MembersOfPermutation(order, old(layout[..]));
  }

  /** `l`, moved to row `row`, collides with no other item of `compareWith`. */
  predicate FitsAt(compareWith: seq<LayoutItem>, l: LayoutItem, row: int)
    reads compareWith, l
  {
    forall c :: c in compareWith && c != l ==> !Overlap(c.Box(), AtRow(l.Box(), row))
  }

  /**
   * `l` rests: it is at row 0 or above, or one row higher it would collide
   * with an item of `compareWith`.
   */
  predicate Resting(compareWith: seq<LayoutItem>, l: LayoutItem)
    reads compareWith, l
  {
    l.y <= 0 || !FitsAt(compareWith, l, l.y - 1)
  }

  /**
   * Items whose rectangles are a placement collide with no other item of
   * the list.
   */
  lemma PlacedItemsDoNotCollide(s: seq<LayoutItem>, shapes: seq<Rect>)
    requires Boxes(s) == Placement(shapes)
    ensures forall i, j :: 0 <= i < |s| && 0 <= j < |s| ==> !Collides(s[i], s[j])
  {
    var r := Placement(shapes);
    PlacementDisjoint(shapes);
    forall i, j | 0 <= i < |s| && 0 <= j < |s| ensures !Collides(s[i], s[j]) {
      if i < j {
        assert !Overlap(r[i], r[j]);
      } else if j < i {
        assert !Overlap(r[j], r[i]);
        OverlapSymmetric(r[i], r[j]);
      }
    }
  }

  /**
   * Distinct items of positive height whose rectangles are a placement
   * each rest on the items before them in the list, or at row 0 or above.
   */
  lemma PlacedItemsRest(s: seq<LayoutItem>, shapes: seq<Rect>)
    requires Distinct(s) && Boxes(s) == Placement(shapes)
    requires forall i :: 0 <= i < |shapes| ==> shapes[i].h > 0
    ensures forall i :: 0 <= i < |s| ==> Resting(s[..i], s[i])
  {
    PlacementRests(shapes);
    forall i | 0 <= i < |s| ensures Resting(s[..i], s[i]) {
      ItemRestsIfBoxRests(s, i);
    }
  }

  /**
   * Every item rests on the others: it is at row 0 or above, or one row
   * higher it would collide with another item of the list. This does not
   * depend on the order of the list.
   */
  predicate ItemsSettled(s: seq<LayoutItem>)
    reads s
  {
    forall c :: c in s ==> Resting(s, c)
  }

  /** After `compact`, with positive heights, the items are settled. */
  lemma PlacedItemsSettled(s: seq<LayoutItem>, shapes: seq<Rect>)
    requires Distinct(s) && Boxes(s) == Placement(shapes)
    requires forall i :: 0 <= i < |shapes| ==> shapes[i].h > 0
    ensures ItemsSettled(s)
  {
    PlacementRests(shapes);
    forall c | c in s ensures Resting(s, c) {
      var i :| 0 <= i < |s| && s[i] == c;
      ItemRestsIfBoxRests(s, i);
      RestingOnMore(s[..i], s, c);
    }
  }

  /** An item resting on some items rests on any list holding them. */
  lemma RestingOnMore(a: seq<LayoutItem>, b: seq<LayoutItem>, l: LayoutItem)
    requires Resting(a, l) && forall c :: c in a ==> c in b
    ensures Resting(b, l)
  {
  }

  /**
   * Items that collide with nothing, are settled and have positive
   * heights are not moved by compaction in row/column order. A second
   * `compact` sorts the items of the first one's output by their new
   * positions; they are still distinct, collide with nothing and are
   * settled, so it moves nothing.
   */
  lemma SettledItemsStay(s: seq<LayoutItem>)
    requires Distinct(s) && Sorted(s)
    requires forall i :: 0 <= i < |s| ==> s[i].h > 0
    requires forall c, d :: c in s && d in s ==> !Collides(c, d)
    requires ItemsSettled(s)
    ensures Placement(Boxes(s)) == Boxes(s)
  {
    ItemsDisjoint(s);
    SortedBoxes(s);
    ItemsSettledBoxes(s);
    SettledFixedPoint(Boxes(s));
  }

  /** The rectangles of distinct items that collide with nothing are disjoint. */
  lemma ItemsDisjoint(s: seq<LayoutItem>)
    requires Distinct(s)
    requires forall c, d :: c in s && d in s ==> !Collides(c, d)
    ensures Disjoint(Boxes(s))
  {
    DistinctIffPairwise(s);
    forall p, q | 0 <= p < q < |s| ensures !Overlap(s[p].Box(), s[q].Box()) {
      assert s[p] in s && s[q] in s;
      ApartItemsDoNotOverlap(s[p], s[q]);
    }
  }

  /** Two different items that do not collide have disjoint rectangles. */
  lemma ApartItemsDoNotOverlap(c: LayoutItem, d: LayoutItem)
    requires c != d && !Collides(c, d)
    ensures !Overlap(c.Box(), d.Box())
  {
  }

  /** The rectangles of settled items are settled. */
  lemma ItemsSettledBoxes(s: seq<LayoutItem>)
    requires ItemsSettled(s)
    ensures Settled(Boxes(s))
  {
    var rs := Boxes(s);
    forall i | 0 <= i < |rs| && rs[i].y > 0
      ensures exists j :: 0 <= j < |rs| && j != i && Overlap(rs[j], AtRow(rs[i], rs[i].y - 1))
    {
      assert Resting(s, s[i]);
      var d :| d in s && d != s[i] && Overlap(d.Box(), AtRow(s[i].Box(), s[i].y - 1));
      var j :| 0 <= j < |s| && s[j] == d;
      assert Overlap(rs[j], AtRow(rs[i], rs[i].y - 1));
    }
  }

  /** An item whose rectangle rests on the rectangles before it rests on those items. */
  lemma ItemRestsIfBoxRests(s: seq<LayoutItem>, i: int)
    requires Distinct(s) && 0 <= i < |s| && RestsAt(Boxes(s), i)
    ensures Resting(s[..i], s[i])
  {
    DistinctAt(s, i);
    BoxesPrefix(s, i);
    FitsAtIffClearOfAll(s[..i], s[i], s[i].y - 1);
  }

  /** For an item not in the list, fitting at a row is being clear of all their rectangles. */
  lemma FitsAtIffClearOfAll(compareWith: seq<LayoutItem>, l: LayoutItem, row: int)
    requires l !in compareWith
    ensures FitsAt(compareWith, l, row) <==> ClearOf(Boxes(compareWith), AtRow(l.Box(), row))
  {
    var rs := Boxes(compareWith);
    var r := AtRow(l.Box(), row);
    if ClearOf(rs, r) {
      forall c | c in compareWith && c != l ensures !Overlap(c.Box(), r) {
        var i :| 0 <= i < |compareWith| && compareWith[i] == c;
        assert rs[i] == c.Box();
      }
    }
  }

  /** `FitsAt` in terms of the rectangles of the other items. */
  lemma FitsAtIffClear(compareWith: seq<LayoutItem>, l: LayoutItem, row: int)
    ensures FitsAt(compareWith, l, row) <==>
              ClearOf(OtherBoxes(compareWith, l), AtRow(l.Box(), row))
  {
    var others := Without(compareWith, l);
    var r := AtRow(l.Box(), row);
    if FitsAt(compareWith, l, row) {
      forall i | 0 <= i < |others| ensures !Overlap(Boxes(others)[i], r) {
        assert others[i] in others;
      }
    }
    if ClearOf(Boxes(others), r) {
      forall c | c in compareWith && c != l ensures !Overlap(c.Box(), r) {
        var i :| 0 <= i < |others| && others[i] == c;
        assert Boxes(others)[i] == c.Box();
      }
    }
  }

  /**
   * An item that fits where it starts is never moved down by `compactItem`.
   */
  lemma CompactItemFreeNotLower(compareWith: seq<LayoutItem>, l: LayoutItem)
    requires FitsAt(compareWith, l, l.y)
    ensures CompactRow(OtherBoxes(compareWith, l), l.Box(), l.y) <= l.y
  {
    FitsAtIffClear(compareWith, l, l.y);
    assert AtRow(l.Box(), l.y) == l.Box();
    CompactRowFreeNotLower(OtherBoxes(compareWith, l), l.Box(), l.y);
  }
}
