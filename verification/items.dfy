/**
 * Layout items and the pure queries over a list of them: the collision
 * predicate with its identity check, first/all collisions, the probe query
 * used when trying to slot an item above the mover, and the bottom row.
 */
module Items {
  import opened Geometry

  datatype Option<T> = None | Some(value: T)

  /**
   * A layout item. Its fields are updated in place by compaction and by the
   * move cascade; `moved` is the transient flag of one cascade.
   */
  class LayoutItem {
    var x: int
    var y: int
    var w: int
    var h: int
    var moved: bool

    constructor (x: int, y: int, w: int, h: int)
      ensures this.x == x && this.y == y && this.w == w && this.h == h
      ensures !moved
    {
      this.x, this.y, this.w, this.h := x, y, w, h;
      moved := false;
    }

    /** The rectangle the item currently occupies. */
    function Box(): Rect
      reads this`x, this`y, this`w, this`h
    {
      Rect(x, y, w, h)
    }
  }

  /**
   * `collides(l1, l2)`: the same object never collides with itself;
   * distinct objects collide when their rectangles overlap.
   */
  predicate Collides(l1: LayoutItem, l2: LayoutItem): (r: bool)
    reads l1, l2
    ensures r <==> l1 != l2 && l1.x < l2.x + l2.w && l2.x < l1.x + l1.w
                             && l1.y < l2.y + l2.h && l2.y < l1.y + l1.h
  {
    if l1 == l2 then false else Overlap(l1.Box(), l2.Box())
  }

  lemma CollidesIrreflexive(a: LayoutItem)
    ensures !Collides(a, a)
  {
  }

  lemma CollidesSymmetric(a: LayoutItem, b: LayoutItem)
    ensures Collides(a, b) == Collides(b, a)
  {
    OverlapSymmetric(a.Box(), b.Box());
  }

  lemma TouchingItemsDoNotCollide(a: LayoutItem, b: LayoutItem)
    requires a.x + a.w == b.x || b.x + b.w == a.x || a.y + a.h == b.y || b.y + b.h == a.y
    ensures !Collides(a, b)
  {
    TouchingDoNotOverlap(a.Box(), b.Box());
  }

  /** For items of positive size, colliding means sharing a grid cell. */
  lemma CollidesIffSharedCell(a: LayoutItem, b: LayoutItem)
    requires a.w > 0 && a.h > 0 && b.w > 0 && b.h > 0
    ensures Collides(a, b) <==>
              a != b && exists cx, cy :: Covers(a.Box(), cx, cy) && Covers(b.Box(), cx, cy)
  {
    OverlapIffSharedCell(a.Box(), b.Box());
  }

  /**
   * `getFirstCollision(layout, item)`: the first element of `layout`, in
   * list order, that collides with `item` (the candidate is the first
   * argument of `Collides`, as in the source).
   */
  function FirstCollision(layout: seq<LayoutItem>, item: LayoutItem): (r: Option<LayoutItem>)
    reads layout, item
    ensures r.None? <==> forall c :: c in layout ==> !Collides(c, item)
    ensures r.Some? ==> r.value in layout && Collides(r.value, item)
  {
    if layout == [] then None
    else if Collides(layout[0], item) then Some(layout[0])
    else FirstCollision(layout[1..], item)
  }

  /**
   * `getAllCollisions(layout, item)`: the elements colliding with `item`,
   * and every element of `layout` that collides with it.
   */
  function AllCollisions(layout: seq<LayoutItem>, item: LayoutItem): (r: seq<LayoutItem>)
    reads layout, item
    ensures forall c :: c in r ==> c in layout && Collides(c, item)
    ensures forall c :: c in layout && Collides(c, item) ==> c in r
    ensures |r| <= |layout|
  {
    if layout == [] then []
    else (if Collides(layout[0], item) then [layout[0]] else []) + AllCollisions(layout[1..], item)
  }

  /** Each colliding element is kept exactly as often as it occurs. */
  lemma {:induction false} AllCollisionsCounts(layout: seq<LayoutItem>, item: LayoutItem, c: LayoutItem)
    ensures multiset(AllCollisions(layout, item))[c] ==
              if Collides(c, item) then multiset(layout)[c] else 0
  {
    if layout != [] {
      assert layout == [layout[0]] + layout[1..];
      AllCollisionsCounts(layout[1..], item, c);
    }
  }

  /** The filter keeps list order: it distributes over concatenation. */
  lemma {:induction false} AllCollisionsAppend(a: seq<LayoutItem>, b: seq<LayoutItem>, item: LayoutItem)
    ensures AllCollisions(a + b, item) == AllCollisions(a, item) + AllCollisions(b, item)
  {
    if a == [] {
      assert a + b == b;
    } else {
      var ab := a + b;
      assert ab[0] == a[0] && ab[1..] == a[1..] + b;
      AllCollisionsAppend(a[1..], b, item);
      var head := if Collides(a[0], item) then [a[0]] else [];
      calc {
        AllCollisions(ab, item);
        head + AllCollisions(a[1..] + b, item);
        head + (AllCollisions(a[1..], item) + AllCollisions(b, item));
        (head + AllCollisions(a[1..], item)) + AllCollisions(b, item);
      }
    }
  }

  /** `getFirstCollision` is the head of `getAllCollisions`, and none iff that is empty. */
  lemma {:induction false} FirstCollisionIsHeadOfAll(layout: seq<LayoutItem>, item: LayoutItem)
    ensures FirstCollision(layout, item) ==
              if AllCollisions(layout, item) == [] then None
              else Some(AllCollisions(layout, item)[0])
  {
    if layout != [] && !Collides(layout[0], item) {
      FirstCollisionIsHeadOfAll(layout[1..], item);
    }
  }

  /**
   * `getFirstCollision(layout, fakeItem)` for the synthetic probe built in
   * `moveElementAwayFromCollision`: the probe is a fresh object, never
   * identical to an element of the layout, so only the rectangles matter.
   */
  function FirstProbeCollision(layout: seq<LayoutItem>, probe: Rect): (r: Option<LayoutItem>)
    reads layout
    ensures r.None? <==> forall c :: c in layout ==> !Overlap(c.Box(), probe)
    ensures r.Some? ==> r.value in layout && Overlap(r.value.Box(), probe)
  {
    if layout == [] then None
    else if Overlap(layout[0].Box(), probe) then Some(layout[0])
    else FirstProbeCollision(layout[1..], probe)
  }

  function Max(a: int, b: int): int
  {
    if a < b then b else a
  }

  /**
   * `bottom(layout)`: `reduce` from the left with `Math.max(item.y + item.h, max)`
   * starting at 0. The result is the least bound that is at least 0 and at
   * least every item's bottom edge.
   */
  function Bottom(layout: seq<LayoutItem>): (r: int)
    reads layout
    ensures r >= 0
    ensures forall i :: 0 <= i < |layout| ==> layout[i].y + layout[i].h <= r
    ensures r == 0 || exists i :: 0 <= i < |layout| && r == layout[i].y + layout[i].h
  {
    if layout == [] then 0
    else
      var last := layout[|layout| - 1];
      Max(last.y + last.h, Bottom(layout[..|layout| - 1]))
  }

  /** For a non-empty layout of placed items, `bottom` is some item's bottom edge. */
  lemma BottomAttained(layout: seq<LayoutItem>)
    requires layout != []
    requires forall i :: 0 <= i < |layout| ==> layout[i].y >= 0 && layout[i].h > 0
    ensures exists i :: 0 <= i < |layout| && Bottom(layout) == layout[i].y + layout[i].h
  {
    assert layout[0].y + layout[0].h > 0;
  }

  /** The list with every occurrence of `x` removed (identity comparison). */
  function Without(s: seq<LayoutItem>, x: LayoutItem): (r: seq<LayoutItem>)
    ensures forall c :: c in r ==> c in s && c != x
    ensures forall c :: c in s && c != x ==> c in r
    ensures x !in s ==> r == s
  {
    if s == [] then []
    else
      assert s == [s[0]] + s[1..];
      (if s[0] == x then [] else [s[0]]) + Without(s[1..], x)
  }

  /** The rectangles the items of `s` occupy, in list order. */
  function Boxes(s: seq<LayoutItem>): (r: seq<Rect>)
    reads s`x, s`y, s`w, s`h
    ensures |r| == |s| && forall i :: 0 <= i < |s| ==> r[i] == s[i].Box()
  {
    if s == [] then [] else [s[0].Box()] + Boxes(s[1..])
  }

  /** The rectangles of a prefix are the prefix of the rectangles. */
  lemma BoxesPrefix(s: seq<LayoutItem>, n: int)
    requires 0 <= n <= |s|
    ensures Boxes(s[..n]) == Boxes(s)[..n]
  {
  }

  /** The set of items held by a layout array. */
  ghost function Members(a: array<LayoutItem>): set<LayoutItem>
    reads a
  {
    set c | c in a[..]
  }

  /** Rearranging a list does not change the set of its items. */
  lemma MembersOfPermutation(a: seq<LayoutItem>, b: seq<LayoutItem>)
    requires multiset(a) == multiset(b)
    ensures (set c | c in a) == (set c | c in b)
  {
    forall c ensures c in a <==> c in b {
      assert c in a <==> c in multiset(a);
      assert c in b <==> c in multiset(b);
    }
  }

  /** No item object occurs twice in the list. */
  predicate Distinct(s: seq<LayoutItem>)
  {
    forall c :: c in multiset(s) ==> multiset(s)[c] == 1
  }

  /** Distinctness is the same as pairwise different positions holding different objects. */
  lemma {:induction false} DistinctIffPairwise(s: seq<LayoutItem>)
    ensures Distinct(s) <==> forall i, j :: 0 <= i < j < |s| ==> s[i] != s[j]
  {
    if s != [] {
      var t := s[1..];
      assert s == [s[0]] + t;
      DistinctIffPairwise(t);
      if forall i, j :: 0 <= i < j < |s| ==> s[i] != s[j] {
        assert s[0] !in t;
        assert forall i, j :: 0 <= i < j < |t| ==> t[i] != t[j] by {
          forall i, j | 0 <= i < j < |t| ensures t[i] != t[j] {
            assert s[i + 1] != s[j + 1];
          }
        }
      }
      if Distinct(s) {
        assert multiset(t)[s[0]] == 0;
        assert forall c :: multiset(t)[c] <= multiset(s)[c];
        forall i, j | 0 <= i < j < |s| ensures s[i] != s[j] {
          if i == 0 {
            assert s[j] == t[j - 1];
          } else {
            assert s[i] == t[i - 1] && s[j] == t[j - 1];
          }
        }
      }
    }
  }

  /** `Array.prototype.indexOf`: the first index of `x`, or -1. */
  function IndexOf(s: seq<LayoutItem>, x: LayoutItem): (r: int)
    ensures -1 <= r < |s|
    ensures r == -1 <==> x !in s
    ensures r >= 0 ==> s[r] == x && x !in s[..r]
  {
    if s == [] then -1
    else if s[0] == x then 0
    else
      var k := IndexOf(s[1..], x);
      if k == -1 then -1
      else
        assert s[..k + 1] == [s[0]] + s[1..][..k];
        k + 1
  }

  /**
   * In a list without repeats, the item at index `i` occurs nowhere else,
   * so `indexOf` finds it at `i`.
   */
  lemma DistinctAt(s: seq<LayoutItem>, i: int)
    requires Distinct(s) && 0 <= i < |s|
    ensures forall k :: 0 <= k < |s| && k != i ==> s[k] != s[i]
    ensures s[i] !in s[..i]
    ensures IndexOf(s, s[i]) == i
  {
    DistinctIffPairwise(s);
    assert forall r :: i < r <= |s| ==> s[..r][i] == s[i];
  }
}
