/**
  The layout cache of the dynamic (virtualised) scroll view: one height per item, `None` until the
  item has been measured, and the arithmetic that picks which items to render for a scroll
  position. Heights are `real`: the `f32` rounding of the sums is not modelled.
*/
module DynamicScrollView {
  import opened Wrappers

  /** The height of an item that has not been measured yet. */
  const DefaultItemHeight: real := 25.0

  // ---------------------------------------------------------------------------------------------
  // Heights as values

  function HeightOr(h: Option<real>, d: real): real {
    match h
    case Some(v) => v
    case None => d
  }

  /** The height used for item `i`: its measured height, or `d` when unmeasured or out of range. */
  function HeightAt(hs: seq<Option<real>>, d: real, i: nat): real {
    if i < |hs| then HeightOr(hs[i], d) else d
  }

  /** The sum over all items, as the total height computes it, front to back. */
  function Sum(hs: seq<Option<real>>, d: real): real {
    if hs == [] then 0.0 else HeightOr(hs[0], d) + Sum(hs[1..], d)
  }

  /** The top of item `n`: the heights of the items before it. */
  function Prefix(hs: seq<Option<real>>, d: real, n: nat): real
    requires n <= |hs|
  {
    if n == 0 then 0.0 else Prefix(hs, d, n - 1) + HeightOr(hs[n - 1], d)
  }

  /** The heights of items `lo` to `hi - 1`, as the overscan offset sums them. */
  function RangeSum(hs: seq<Option<real>>, d: real, lo: nat, hi: nat): real
    requires lo <= hi
    decreases hi - lo
  {
    if lo == hi then 0.0 else HeightAt(hs, d, lo) + RangeSum(hs, d, lo + 1, hi)
  }

  /** `usize::saturating_sub`. */
  function SaturatingSub(a: nat, b: nat): (r: nat)
    ensures r == if a >= b then a - b else 0
  {
    if a >= b then a - b else 0
  }

  function Min(a: nat, b: nat): nat {
    if a <= b then a else b
  }

  /** The first item at or after `k` whose bottom reaches `target` (the top of the viewport). */
  function FirstReaching(hs: seq<Option<real>>, d: real, target: real, k: nat): (r: Option<nat>)
    requires k <= |hs|
    ensures r.Some? ==> k <= r.value < |hs| && Prefix(hs, d, r.value + 1) >= target
    ensures r.Some? ==> forall e :: k < e <= r.value ==> Prefix(hs, d, e) < target
    ensures r.None? ==> forall e :: k < e <= |hs| ==> Prefix(hs, d, e) < target
    decreases |hs| - k
  {
    if k == |hs| then None
    else if Prefix(hs, d, k + 1) >= target then Some(k)
    else FirstReaching(hs, d, target, k + 1)
  }

  /**
    The end (exclusive) of the items that fill `viewport` when stacked from the top of item
    `s`: the first `e >= k` whose items `s..e` are at least `viewport` high, or the item count.
  */
  function ViewportEnd(hs: seq<Option<real>>, d: real, s: nat, viewport: real, k: nat): (r: nat)
    requires s < k <= |hs|
    ensures k <= r <= |hs|
    ensures r == |hs| || Prefix(hs, d, r) - Prefix(hs, d, s) >= viewport
    ensures forall e :: k <= e < r ==> Prefix(hs, d, e) - Prefix(hs, d, s) < viewport
    decreases |hs| - k
  {
    if k == |hs| || Prefix(hs, d, k) - Prefix(hs, d, s) >= viewport then k
    else ViewportEnd(hs, d, s, viewport, k + 1)
  }

  // ---------------------------------------------------------------------------------------------
  // The cache

  /** `LayoutManager`. */
  class LayoutManager {
    var heights: seq<Option<real>>
    var defaultItemHeight: real

    /** `LayoutManager::new`: `length` unmeasured items. */
    constructor(length: nat, defaultItemHeight: real)
      ensures |heights| == length && forall i :: 0 <= i < length ==> heights[i] == None
      ensures this.defaultItemHeight == defaultItemHeight
    {
      heights := seq(length, _ => None);
      this.defaultItemHeight := defaultItemHeight;
    }

    /** `get_item_height`. */
    method GetItemHeight(index: nat) returns (height: real)
      ensures index < |heights| && heights[index].Some? ==> height == heights[index].value
      ensures index >= |heights| || heights[index].None? ==> height == defaultItemHeight
      ensures height == HeightAt(heights, defaultItemHeight, index)
    {
      if index < |heights| && heights[index].Some? {
        height := heights[index].value;
      } else {
        height := defaultItemHeight;
      }
    }

    /** `set_item_height`: records a measured height; an index out of range changes nothing. */
    method SetItemHeight(index: nat, height: real)
      modifies this
      ensures defaultItemHeight == old(defaultItemHeight)
      ensures index < |old(heights)| ==> heights == old(heights)[index := Some(height)]
      ensures index >= |old(heights)| ==> heights == old(heights)
    {
      if index < |heights| {
        heights := heights[index := Some(height)];
      }
    }

    /** `get_total_height`. */
    method GetTotalHeight() returns (total: real)
      ensures total == Sum(heights, defaultItemHeight)
      ensures total == Prefix(heights, defaultItemHeight, |heights|)
    {
      total := Sum(heights, defaultItemHeight);
      SumIsPrefix(heights, defaultItemHeight);
    }

    /**
      `get_visible_range_and_offset`: the items `start..end` to render for a scroll position
      (`scrollY`, zero or negative when scrolled down) and a viewport height, widened by
      `overscan` items on both sides, and the offset of item `start` from the top of the content.
      When no item reaches the viewport, the empty range at 0 with offset 0.
    */
    method GetVisibleRangeAndOffset(scrollY: real, viewportHeight: real, overscan: nat)
      returns (start: nat, end: nat, offset: real)
      ensures FirstReaching(heights, defaultItemHeight, -scrollY, 0).None? ==> start == 0 && end == 0 && offset == 0.0
      ensures FirstReaching(heights, defaultItemHeight, -scrollY, 0).Some? ==>
        var s := FirstReaching(heights, defaultItemHeight, -scrollY, 0).value;
        && start == SaturatingSub(s, overscan)
        && end == Min(ViewportEnd(heights, defaultItemHeight, s, viewportHeight, s + 1) + overscan, |heights|)
        && start < end
      ensures start <= end <= |heights|
      ensures offset == Prefix(heights, defaultItemHeight, start)
    {
      var found, startNode, contentOffset := FindStart(scrollY);
      if !found {
        return 0, 0, 0.0;
      }
      var endNode := FindEnd(startNode, viewportHeight);
      // Widen by the overscan and move the offset up to the new first item.
      start := SaturatingSub(startNode, overscan);
      end := Min(endNode + overscan, |heights|);
      var overscanOffset := RangeSum(heights, defaultItemHeight, start, startNode);
      RangeSumIsDifference(heights, defaultItemHeight, start, startNode);
      offset := contentOffset - overscanOffset;
    }

    /**
      The first loop of `get_visible_range_and_offset`: walks down the items until one's bottom
      reaches the top of the viewport, and reports it with its own top.
    */
    method FindStart(scrollY: real) returns (found: bool, startNode: nat, contentOffset: real)
      ensures found <==> FirstReaching(heights, defaultItemHeight, -scrollY, 0).Some?
      ensures found ==> startNode == FirstReaching(heights, defaultItemHeight, -scrollY, 0).value
      ensures found ==> startNode < |heights| && contentOffset == Prefix(heights, defaultItemHeight, startNode)
    {
      var d := defaultItemHeight;
      var y := 0.0;
      startNode, contentOffset, found := 0, 0.0, false;
      var i := 0;
      while i < |heights|
        invariant 0 <= i <= |heights| && y == Prefix(heights, d, i)
        invariant FirstReaching(heights, d, -scrollY, 0) == FirstReaching(heights, d, -scrollY, i)
      {
        var next := y + HeightOr(heights[i], d);
        if next >= -scrollY {
          contentOffset := y;
          startNode := i;
          found := true;
          return;
        }
        y := next;
        i := i + 1;
      }
    }

    /**
      The second loop of `get_visible_range_and_offset`: stacks items from `startNode` on until
      they are at least the viewport high, and returns the end of that run.
    */
    method FindEnd(startNode: nat, viewportHeight: real) returns (endNode: nat)
      requires startNode < |heights|
      ensures endNode == ViewportEnd(heights, defaultItemHeight, startNode, viewportHeight, startNode + 1)
    {
      var d := defaultItemHeight;
      endNode := startNode;
      var visible := 0.0;
      var k := startNode;
      while k < |heights|
        invariant startNode <= k <= |heights| && endNode == k
        invariant visible == Prefix(heights, d, k) - Prefix(heights, d, startNode)
        invariant k < |heights| ==> ViewportEnd(heights, d, startNode, viewportHeight, startNode + 1) == ViewportEnd(heights, d, startNode, viewportHeight, k + 1)
        invariant k == |heights| ==> ViewportEnd(heights, d, startNode, viewportHeight, startNode + 1) == |heights|
      {
        visible := visible + HeightOr(heights[k], d);
        endNode := k + 1;
        if visible >= viewportHeight {
          return;
        }
        k := k + 1;
      }
    }
  }

  // ---------------------------------------------------------------------------------------------
  // Properties

  /** The total height read front to back is the top of the item past the last. */
  lemma {:induction false} SumIsPrefix(hs: seq<Option<real>>, d: real)
    ensures Sum(hs, d) == Prefix(hs, d, |hs|)
    decreases |hs|
  {
    if hs != [] {
      var n := |hs|;
      assert |hs[..n - 1]| < |hs|;
      SumIsPrefix(hs[..n - 1], d);
      SumSnoc(hs[..n - 1], hs[n - 1], d);
      assert hs[..n - 1] + [hs[n - 1]] == hs;
      PrefixAgree(hs, hs[..n - 1], d, n - 1);
    }
  }

  lemma {:induction false} SumSnoc(hs: seq<Option<real>>, h: Option<real>, d: real)
    ensures Sum(hs + [h], d) == Sum(hs, d) + HeightOr(h, d)
    decreases |hs|
  {
    if hs == [] {
      assert [h][1..] == [];
    } else {
      assert (hs + [h])[1..] == hs[1..] + [h];
      SumSnoc(hs[1..], h, d);
    }
  }

  /** The tops of the first items do not depend on the items after them. */
  lemma {:induction false} PrefixAgree(a: seq<Option<real>>, b: seq<Option<real>>, d: real, n: nat)
    requires n <= |a| && n <= |b| && a[..n] == b[..n]
    ensures Prefix(a, d, n) == Prefix(b, d, n)
  {
    if n > 0 {
      assert a[n - 1] == a[..n][n - 1] && b[n - 1] == b[..n][n - 1];
      assert a[..n - 1] == a[..n][..n - 1] && b[..n - 1] == b[..n][..n - 1];
      PrefixAgree(a, b, d, n - 1);
    }
  }

  /** The overscan offset is the distance between the tops of the two items. */
  lemma {:induction false} RangeSumIsDifference(hs: seq<Option<real>>, d: real, lo: nat, hi: nat)
    requires lo <= hi <= |hs|
    ensures RangeSum(hs, d, lo, hi) == Prefix(hs, d, hi) - Prefix(hs, d, lo)
    decreases hi - lo
  {
    if lo < hi {
      RangeSumIsDifference(hs, d, lo + 1, hi);
    }
  }

  /** A fresh cache is `length` default heights high. */
  lemma {:induction false} NewTotal(length: nat, d: real)
    ensures Sum(seq(length, _ => None), d) == length as real * d
  {
    if length > 0 {
      var hs: seq<Option<real>> := seq(length, _ => None);
      assert hs[1..] == seq(length - 1, _ => None);
      NewTotal(length - 1, d);
      assert (length - 1) as real * d + d == length as real * d;
    }
  }

  /**
    The cache the scroll view creates for its items (`DefaultItemHeight` as the default): every
    item reads as 25 until measured, and the whole list is 25 per item high.
  */
  lemma {:induction false} DefaultCache(length: nat, i: nat)
    ensures HeightAt(seq(length, _ => None), DefaultItemHeight, i) == 25.0
    ensures Sum(seq(length, _ => None), DefaultItemHeight) == 25.0 * length as real
  {
    NewTotal(length, DefaultItemHeight);
  }

  /** After `set_item_height`, reading the item gives the new height and every other item is as before. */
  lemma SetThenGet(hs: seq<Option<real>>, d: real, index: nat, height: real, i: nat)
    requires index < |hs|
    ensures HeightAt(hs[index := Some(height)], d, i) == if i == index then height else HeightAt(hs, d, i)
  {
  }

  /** Measuring an item changes the total height by the difference to its old height. */
  lemma {:induction false} SetTotal(hs: seq<Option<real>>, d: real, index: nat, height: real)
    requires index < |hs|
    ensures Sum(hs[index := Some(height)], d) == Sum(hs, d) - HeightAt(hs, d, index) + height
    decreases |hs|
  {
    if index > 0 {
      assert hs[index := Some(height)][1..] == hs[1..][index - 1 := Some(height)];
      SetTotal(hs[1..], d, index - 1, height);
    }
  }

  /** With no negative heights, an item further down starts no higher. */
  lemma {:induction false} PrefixMonotone(hs: seq<Option<real>>, d: real, a: nat, b: nat)
    requires a <= b <= |hs|
    requires forall i :: 0 <= i < |hs| ==> HeightAt(hs, d, i) >= 0.0
    ensures Prefix(hs, d, a) <= Prefix(hs, d, b)
    decreases b - a
  {
    if a < b {
      PrefixMonotone(hs, d, a, b - 1);
      assert HeightAt(hs, d, b - 1) >= 0.0;
    }
  }

  /**
    With no negative heights, nothing is visible exactly when there are no items or all of
    them end above the viewport.
  */
  lemma NothingVisible(hs: seq<Option<real>>, d: real, scrollY: real)
    requires forall i :: 0 <= i < |hs| ==> HeightAt(hs, d, i) >= 0.0
    ensures FirstReaching(hs, d, -scrollY, 0).None? <==> |hs| == 0 || Sum(hs, d) < -scrollY
  {
    SumIsPrefix(hs, d);
    if |hs| > 0 && Sum(hs, d) < -scrollY {
      forall e | 0 < e <= |hs|
        ensures Prefix(hs, d, e) < -scrollY
      {
        PrefixMonotone(hs, d, e, |hs|);
      }
    }
  }

  /**
    The window the scroll view renders, with no negative heights: item `s` straddles the top of
    the viewport, the rendered items begin at or above it, and the items from `s` on fill at
    least the viewport's height unless they run out.
  */
  lemma RenderedWindow(hs: seq<Option<real>>, d: real, scrollY: real, viewportHeight: real, overscan: nat)
    requires forall i :: 0 <= i < |hs| ==> HeightAt(hs, d, i) >= 0.0
    requires FirstReaching(hs, d, -scrollY, 0).Some?
    ensures var s := FirstReaching(hs, d, -scrollY, 0).value;
      var e := ViewportEnd(hs, d, s, viewportHeight, s + 1);
      && (s == 0 || Prefix(hs, d, s) < -scrollY) && Prefix(hs, d, s + 1) >= -scrollY
      && Prefix(hs, d, SaturatingSub(s, overscan)) <= Prefix(hs, d, s)
      && (e == |hs| || Prefix(hs, d, e) >= Prefix(hs, d, s) + viewportHeight)
  {
    var s := FirstReaching(hs, d, -scrollY, 0).value;
    PrefixMonotone(hs, d, SaturatingSub(s, overscan), s);
  }
}
