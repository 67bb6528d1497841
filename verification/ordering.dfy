/**
 * Row/column order of layout items: the comparator of
 * `sortLayoutItemsByRowCol`, the in-place sort of a layout array, and the
 * in-place reversal that `moveElement` applies when the mover goes up.
 */
module Ordering {
  import opened Geometry
  import opened Items

  /**
   * The comparator passed to `layout.sort`: 0 for the same cell, 1 when `a`
   * lies in a later row, or in the same row further right, -1 otherwise.
   */
  function CompareRowCol(a: LayoutItem, b: LayoutItem): (r: int)
    reads a, b
    ensures -1 <= r <= 1
    ensures r == 0 <==> a.y == b.y && a.x == b.x
    ensures r > 0 <==> a.y > b.y || (a.y == b.y && a.x > b.x)
  {
    if a.y == b.y && a.x == b.x then 0
    else if a.y > b.y || (a.y == b.y && a.x > b.x) then 1
    else -1
  }

  /** `a` may stand before `b` in a sorted layout. */
  predicate RowColLe(a: LayoutItem, b: LayoutItem)
    reads a, b
  {
    CompareRowCol(a, b) <= 0
  }

  /**
   * The comparator is consistent, as `Array.prototype.sort` needs: swapping
   * the arguments negates it, it is zero exactly on equal (y, x) keys, and
   * the order it induces is total and transitive.
   */
  lemma CompareRowColConsistent(a: LayoutItem, b: LayoutItem, c: LayoutItem)
    ensures CompareRowCol(a, b) == -CompareRowCol(b, a)
    ensures CompareRowCol(a, b) == 0 <==> a.y == b.y && a.x == b.x
    ensures RowColLe(a, b) || RowColLe(b, a)
    ensures RowColLe(a, b) && RowColLe(b, c) ==> RowColLe(a, c)
  {
  }

  /** Every item stands in row/column order before every later one. */
  predicate Sorted(s: seq<LayoutItem>)
    reads s
  {
    forall i, j :: 0 <= i < j < |s| ==> RowColLe(s[i], s[j])
  }

  /** Every item stands in row/column order after every later one. */
  predicate SortedDescending(s: seq<LayoutItem>)
    reads s
  {
    forall i, j :: 0 <= i < j < |s| ==> RowColLe(s[j], s[i])
  }

  /** In a sorted list, consecutive items satisfy the key order. */
  lemma SortedConsecutive(s: seq<LayoutItem>, i: int)
    requires Sorted(s) && 0 <= i < |s| - 1
    ensures s[i].y < s[i + 1].y || (s[i].y == s[i + 1].y && s[i].x <= s[i + 1].x)
  {
    assert RowColLe(s[i], s[i + 1]);
  }

  /** Rectangles whose top-left corners are in row/column order. */
  predicate RowColOrdered(rs: seq<Rect>)
  {
    forall i, j :: 0 <= i < j < |rs| ==>
      rs[i].y < rs[j].y || (rs[i].y == rs[j].y && rs[i].x <= rs[j].x)
  }

  /** The rectangles of a sorted list are in row/column order. */
  lemma SortedBoxes(s: seq<LayoutItem>)
    requires Sorted(s)
    ensures RowColOrdered(Boxes(s))
  {
    var rs := Boxes(s);
    forall i, j | 0 <= i < j < |rs|
      ensures rs[i].y < rs[j].y || (rs[i].y == rs[j].y && rs[i].x <= rs[j].x)
    {
      assert RowColLe(s[i], s[j]);
    }
  }

  /** Insertion of one item before the first item it may stand before. */
  function Insert(it: LayoutItem, s: seq<LayoutItem>): (r: seq<LayoutItem>)
    reads it, s
    ensures forall i :: 0 <= i < |r| ==> r[i] == it || r[i] in s
    ensures multiset(r) == multiset(s) + multiset{it}
  {
    if s == [] then [it]
    else if RowColLe(it, s[0]) then [it] + s
    else
      assert s == [s[0]] + s[1..];
      [s[0]] + Insert(it, s[1..])
  }

  /** Insertion into a sorted list keeps it sorted. */
  lemma {:induction false} InsertSorted(it: LayoutItem, s: seq<LayoutItem>)
    requires Sorted(s)
    ensures Sorted(Insert(it, s))
  {
    if s != [] && !RowColLe(it, s[0]) {
      var tail := s[1..];
      var rest := Insert(it, tail);
      InsertSorted(it, tail);
      forall k | 0 <= k < |rest|
        ensures RowColLe(s[0], rest[k])
      {
        if rest[k] != it {
          var m :| 0 <= m < |tail| && tail[m] == rest[k];
          assert tail[m] == s[m + 1];
        }
      }
      var r := [s[0]] + rest;
      assert Insert(it, s) == r;
      forall i, j | 0 <= i < j < |r|
        ensures RowColLe(r[i], r[j])
      {
        if i > 0 {
          assert r[i] == rest[i - 1] && r[j] == rest[j - 1];
        }
      }
    }
  }

  /**
   * A permutation of `s` in row/column order, standing for the sort of the
   * JavaScript engine. Which sorted permutation the engine picks among
   * items with equal keys is not modelled; only the properties proved here
   * are used.
   */
  function SortByRowCol(s: seq<LayoutItem>): (r: seq<LayoutItem>)
    reads s
    ensures forall i :: 0 <= i < |r| ==> r[i] in s
    ensures multiset(r) == multiset(s)
  {
    if s == [] then []
    else
      var rest := SortByRowCol(s[1..]);
      assert multiset(s) == multiset{s[0]} + multiset(s[1..]) by {
        assert s == [s[0]] + s[1..];
      }
      Insert(s[0], rest)
  }

  /** The sort puts the items in row/column order. */
  lemma {:induction false} SortByRowColSorted(s: seq<LayoutItem>)
    ensures Sorted(SortByRowCol(s))
  {
    if s != [] {
      SortByRowColSorted(s[1..]);
      InsertSorted(s[0], SortByRowCol(s[1..]));
    }
  }

  /**
   * `sortLayoutItemsByRowCol(layout)`: sorts the array in place and
   * returns that same array.
   */
  method SortLayoutItemsByRowCol(layout: array<LayoutItem>) returns (sorted: array<LayoutItem>)
    modifies layout
    ensures sorted == layout
    ensures Sorted(layout[..])
    ensures multiset(layout[..]) == old(multiset(layout[..]))
    ensures forall i :: 0 <= i < layout.Length ==> layout[i] in old(layout[..])
  {
    var s := SortByRowCol(layout[..]);
    SortByRowColSorted(layout[..]);
    assert |s| == |multiset(s)| == layout.Length;
    forall i | 0 <= i < layout.Length {
      layout[i] := s[i];
    }
    assert layout[..] == s;
    sorted := layout;
  }

  /** The list read back to front. */
  function Reversed(s: seq<LayoutItem>): (r: seq<LayoutItem>)
  {
    seq(|s|, i requires 0 <= i < |s| => s[|s| - 1 - i])
  }

  /** Reversal only rearranges: it is a permutation. */
  lemma {:induction false} ReversedPermutation(s: seq<LayoutItem>)
    ensures multiset(Reversed(s)) == multiset(s)
  {
    if s != [] {
      var n := |s|;
      ReversedPermutation(s[..n - 1]);
      assert Reversed(s) == [s[n - 1]] + Reversed(s[..n - 1]);
      assert s == s[..n - 1] + [s[n - 1]];
    }
  }

  /** Reversing a sorted list gives descending row/column order. */
  lemma ReversedSortedDescending(s: seq<LayoutItem>)
    requires Sorted(s)
    ensures SortedDescending(Reversed(s))
  {
    var r := Reversed(s);
    forall i, j | 0 <= i < j < |r| ensures RowColLe(r[j], r[i]) {
      assert r[j] == s[|s| - 1 - j] && r[i] == s[|s| - 1 - i];
    }
  }

  /** `Array.prototype.reverse`: reverses the array in place. */
  method ReverseInPlace(a: array<LayoutItem>)
    modifies a
    ensures a[..] == Reversed(old(a[..]))
  {
    var n := a.Length;
    var lo, hi := 0, n - 1;
    while lo < hi
      invariant 0 <= lo <= n && hi == n - 1 - lo
      invariant forall k :: 0 <= k < lo || hi < k < n ==> a[k] == old(a[n - 1 - k])
      invariant forall k :: lo <= k <= hi ==> a[k] == old(a[k])
    {
      a[lo], a[hi] := a[hi], a[lo];
      lo, hi := lo + 1, hi - 1;
    }
  }
}
