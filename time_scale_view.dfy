/**
 * The time axis of the analyser's timeline (`TimeScaleView`, time_scale_view.cpp and the older
 * inline revision in time_scale_view.h): the camera that maps nanoseconds to pixels and back with
 * 64-bit integer arithmetic, dragging the view with the right mouse button, the renderer that
 * merges runs of blocks at most one pixel wide, and the per-item culling and clamping of `Draw`.
 * Drawing calls are modelled by the rectangles they would fill.
 */
module TimeScale {
  import opened Bytes
  import opened Arith
  import Workloads

  const Int64Limit: int := 0x8000_0000_0000_0000
  const Int32Limit: int := 0x8000_0000

  /** A value of `int64_t`. */
  predicate InInt64(v: int)
  {
    -Int64Limit <= v < Int64Limit
  }

  /** A value of `int`. */
  predicate InInt32(v: int)
  {
    -Int32Limit <= v < Int32Limit
  }

  function Abs(v: int): nat
  {
    if v < 0 then -v else v
  }

  function Max(a: int, b: int): int
  {
    if a < b then b else a
  }

  function Min(a: int, b: int): int
  {
    if a < b then a else b
  }

  /**
   * C++ integer division: the quotient rounded toward zero, so its magnitude is the whole number
   * of times `|b|` goes into `|a|` and its sign is the sign of `a / b`.
   */
  function TruncDiv(a: int, b: int): (q: int)
    requires b != 0
    ensures Abs(q) * Abs(b) <= Abs(a) < (Abs(q) + 1) * Abs(b)
    ensures Abs(q) <= Abs(a)
    ensures q > 0 ==> (a > 0) == (b > 0)
    ensures q < 0 ==> (a > 0) != (b > 0)
  {
    var m := Quotient(Abs(a), Abs(b));
    var q: int := if (a >= 0) == (b > 0) then m else -(m as int);
    assert Abs(q) == m && (a == 0 ==> m == 0);
    q
  }

  /** Truncating division by a positive number keeps the order of its dividends. */
  lemma TruncDivMonotone(a: int, b: int, d: int)
    requires a <= b && d > 0
    ensures TruncDiv(a, d) <= TruncDiv(b, d)
  {
    if a >= 0 {
      DivMonotone(a, b, d);
    } else if b < 0 {
      DivMonotone(-b, -a, d);
    }
  }

  /** `Camera::NsToPx`: `(ns - leftNs) * rendererWidth / widthNs` in `int64_t`. */
  function NsToPx(leftNs: int, widthNs: int, rendererWidth: int, ns: int): (px: int)
    requires NsToPxDefined(leftNs, widthNs, rendererWidth, ns)
    ensures InInt64(px)
  {
    TruncDiv((ns - leftNs) * rendererWidth, widthNs)
  }

  /** The camera's width is not zero and neither the difference nor the product overflows. */
  predicate NsToPxDefined(leftNs: int, widthNs: int, rendererWidth: int, ns: int)
  {
    && widthNs != 0 && InInt64(ns - leftNs) && InInt64((ns - leftNs) * rendererWidth)
    && InInt64(TruncDiv((ns - leftNs) * rendererWidth, widthNs))
  }

  /** `Camera::PxToNs`: `leftNs + x * widthNs / rendererWidth` in `int64_t`. */
  function PxToNs(leftNs: int, widthNs: int, rendererWidth: int, x: int): (ns: int)
    requires PxToNsDefined(leftNs, widthNs, rendererWidth, x)
    ensures InInt64(ns)
  {
    leftNs + TruncDiv(x * widthNs, rendererWidth)
  }

  /** The renderer's width is not zero and neither the product nor the sum overflows. */
  predicate PxToNsDefined(leftNs: int, widthNs: int, rendererWidth: int, x: int)
  {
    rendererWidth != 0 && InInt64(x * widthNs) && InInt64(leftNs + TruncDiv(x * widthNs, rendererWidth))
  }

  /** The left edge of the view is pixel 0. */
  lemma NsToPxAtLeft(leftNs: int, widthNs: int, rendererWidth: int)
    requires widthNs != 0 && InInt64(leftNs)
    ensures NsToPxDefined(leftNs, widthNs, rendererWidth, leftNs)
    ensures NsToPx(leftNs, widthNs, rendererWidth, leftNs) == 0
  {
  }

  /** Pixel 0 is the left edge of the view. */
  lemma PxToNsAtZero(leftNs: int, widthNs: int, rendererWidth: int)
    requires rendererWidth != 0 && InInt64(leftNs)
    ensures PxToNsDefined(leftNs, widthNs, rendererWidth, 0)
    ensures PxToNs(leftNs, widthNs, rendererWidth, 0) == leftNs
  {
  }

  /** With a positive camera width, a later time is never left of an earlier one. */
  lemma NsToPxMonotone(leftNs: int, widthNs: int, rendererWidth: int, a: int, b: int)
    requires widthNs > 0 && rendererWidth >= 0 && a <= b
    requires NsToPxDefined(leftNs, widthNs, rendererWidth, a) && NsToPxDefined(leftNs, widthNs, rendererWidth, b)
    ensures NsToPx(leftNs, widthNs, rendererWidth, a) <= NsToPx(leftNs, widthNs, rendererWidth, b)
  {
    MulMonotone(a - leftNs, b - leftNs, rendererWidth);
    TruncDivMonotone((a - leftNs) * rendererWidth, (b - leftNs) * rendererWidth, widthNs);
  }

  /** With a positive renderer width, a pixel further right never shows an earlier time. */
  lemma PxToNsMonotone(leftNs: int, widthNs: int, rendererWidth: int, x: int, y: int)
    requires rendererWidth > 0 && widthNs >= 0 && x <= y
    requires PxToNsDefined(leftNs, widthNs, rendererWidth, x) && PxToNsDefined(leftNs, widthNs, rendererWidth, y)
    ensures PxToNs(leftNs, widthNs, rendererWidth, x) <= PxToNs(leftNs, widthNs, rendererWidth, y)
  {
    MulMonotone(x, y, widthNs);
    TruncDivMonotone(x * widthNs, y * widthNs, rendererWidth);
  }

  /**
   * Both conversions truncate, so going from a pixel right of the left edge to its time and back
   * never lands right of where it started.
   */
  lemma PxToNsToPx(leftNs: int, widthNs: int, rendererWidth: int, x: int)
    requires widthNs > 0 && rendererWidth > 0 && x >= 0
    requires PxToNsDefined(leftNs, widthNs, rendererWidth, x)
    requires NsToPxDefined(leftNs, widthNs, rendererWidth, PxToNs(leftNs, widthNs, rendererWidth, x))
    ensures NsToPx(leftNs, widthNs, rendererWidth, PxToNs(leftNs, widthNs, rendererWidth, x)) <= x
  {
    var p := x * widthNs;
    assert p >= 0 by { MulMonotone(0, x, widthNs); }
    var t := TruncDiv(p, rendererWidth);
    assert t == p / rendererWidth;
    DivBounds(p, rendererWidth);
    assert PxToNs(leftNs, widthNs, rendererWidth, x) - leftNs == t;
    TruncDivMonotone(t * rendererWidth, p, widthNs);
    assert TruncDiv(p, widthNs) == x by {
      MulDiv(x, widthNs);
    }
  }

  /** An unsigned 64-bit time minus the workload's start, as the `int64_t` the camera receives. */
  function Rel(t: nat, startNs: int): (r: int)
    requires t < U64Limit
    ensures InInt64(r)
    ensures 0 <= t - startNs < Int64Limit ==> r == t - startNs
  {
    Workloads.Int64Of((t - startNs) % U64Limit)
  }

  /** The workload's start, where it has one. */
  function StartOf(workload: Workloads.Workload): int
    reads workload
  {
    if workload.startTimeNs.Some? then workload.startTimeNs.value else 0
  }

  /** No item stops more than `w` nanoseconds after `startNs`. */
  predicate StopsWithin(items: seq<Workloads.WorkItem>, startNs: int, w: int)
  {
    forall i :: 0 <= i < |items| && items[i].stopTimeNs < U64Limit ==> Rel(items[i].stopTimeNs, startNs) <= w
  }

  /** Some item stops exactly `w` nanoseconds after `startNs`. */
  predicate StopsAt(items: seq<Workloads.WorkItem>, startNs: int, w: int)
  {
    exists i :: 0 <= i < |items| && items[i].stopTimeNs < U64Limit && Rel(items[i].stopTimeNs, startNs) == w
  }

  lemma StopsWithinGrows(items: seq<Workloads.WorkItem>, startNs: int, w: int, w': int)
    requires StopsWithin(items, startNs, w) && w <= w'
    ensures StopsWithin(items, startNs, w')
  {
  }

  /**
   * The inner loop of `ResetToViewAllWorkload` over one worker's items: the width grows to the
   * latest stop, relative to `startNs`, of the items whose stop fits in 64 bits.
   */
  method WidestStop(workItems: seq<Workloads.WorkItem>, startNs: int, width: int) returns (w: int)
    ensures width <= w && StopsWithin(workItems, startNs, w)
    ensures w == width || StopsAt(workItems, startNs, w)
  {
    w := width;
    var k := 0;
    while k < |workItems|
      invariant k <= |workItems| && width <= w
      invariant StopsWithin(workItems[..k], startNs, w)
      invariant w == width || StopsAt(workItems, startNs, w)
    {
      if workItems[k].stopTimeNs < U64Limit {
        w := Max(w, Rel(workItems[k].stopTimeNs, startNs));
      }
      assert workItems[..k + 1] == workItems[..k] + [workItems[k]];
      k := k + 1;
    }
    assert workItems[..k] == workItems;
  }

  /** `TimeScaleView::Camera`: what the view shows. */
  class Camera {
    var leftNs: int
    var widthNs: int
    var topPx: int
    var rendererWidth: int

    /** The defaults of time_scale_view.h: ten seconds across 800 pixels, scrolled to the top. */
    constructor()
      ensures leftNs == 0 && widthNs == 10_000_000_000 && topPx == 0 && rendererWidth == 800
    {
      leftNs := 0;
      widthNs := 10_000_000_000;
      topPx := 0;
      rendererWidth := 800;
    }

    /**
     * `ResetToViewAllWorkload`: the view starts at time 0 and is as wide as the latest stop of
     * any item relative to the workload's start, or 0 when there is no item or every such
     * difference is negative.
     */
    method ResetToViewAllWorkload(workload: Workloads.Workload)
      modifies this
      ensures leftNs == 0 && topPx == old(topPx) && rendererWidth == old(rendererWidth)
      ensures widthNs >= 0
      ensures forall n :: n in workload.workers ==> StopsWithin(workload.workers[n].workItems, StartOf(workload), widthNs)
      ensures widthNs == 0 || exists n :: n in workload.workers && StopsAt(workload.workers[n].workItems, StartOf(workload), widthNs)
      ensures widthNs == 0 <==> forall n :: n in workload.workers ==> StopsWithin(workload.workers[n].workItems, StartOf(workload), 0)
    {
      leftNs := 0;
      widthNs := 0;
      var startNs := StartOf(workload);
      var remaining := workload.workers.Keys;
      while remaining != {}
        invariant remaining <= workload.workers.Keys
        invariant leftNs == 0 && topPx == old(topPx) && rendererWidth == old(rendererWidth) && widthNs >= 0
        invariant forall n :: n in workload.workers && n !in remaining ==>
          StopsWithin(workload.workers[n].workItems, startNs, widthNs)
        invariant widthNs == 0 || exists n :: n in workload.workers && StopsAt(workload.workers[n].workItems, startNs, widthNs)
        decreases |remaining|
      {
        var name :| name in remaining;
        WidenToWorker(workload, startNs, remaining, name);
        remaining := remaining - {name};
      }
    }

    /** One turn of that loop: the width grows to cover worker `name` and still covers the others done. */
    method WidenToWorker(workload: Workloads.Workload, startNs: int, ghost remaining: set<Text>, name: Text)
      requires name in remaining && remaining <= workload.workers.Keys && widthNs >= 0
      requires forall n :: n in workload.workers && n !in remaining ==>
        StopsWithin(workload.workers[n].workItems, startNs, widthNs)
      requires widthNs == 0 || exists n :: n in workload.workers && StopsAt(workload.workers[n].workItems, startNs, widthNs)
      modifies this
      ensures leftNs == old(leftNs) && topPx == old(topPx) && rendererWidth == old(rendererWidth) && widthNs >= 0
      ensures forall n :: n in workload.workers && n !in remaining - {name} ==>
        StopsWithin(workload.workers[n].workItems, startNs, widthNs)
      ensures widthNs == 0 || exists n :: n in workload.workers && StopsAt(workload.workers[n].workItems, startNs, widthNs)
    {
      var workItems := workload.workers[name].workItems;
      ghost var before := widthNs;
      widthNs := WidestStop(workItems, startNs, widthNs);
      forall n | n in workload.workers && n !in remaining - {name}
        ensures StopsWithin(workload.workers[n].workItems, startNs, widthNs)
      {
        if n != name {
          StopsWithinGrows(workload.workers[n].workItems, startNs, before, widthNs);
        }
      }
    }

    /** Both pixels convert, and so does the shift they give the left edge. */
    predicate DragDefined(x: int, xrel: int)
      reads this
    {
      && PxToNsDefined(leftNs, widthNs, rendererWidth, x - xrel)
      && PxToNsDefined(leftNs, widthNs, rendererWidth, x)
      && InInt64(PxToNs(leftNs, widthNs, rendererWidth, x - xrel) - PxToNs(leftNs, widthNs, rendererWidth, x))
      && InInt64(leftNs + PxToNs(leftNs, widthNs, rendererWidth, x - xrel) - PxToNs(leftNs, widthNs, rendererWidth, x))
    }

    /**
     * A mouse motion in time_scale_view.cpp's `HandleEvent`: with the right button held the view
     * shifts by the time between the cursor's old and new pixels, and scrolls up by `yrel`
     * pixels, never above the top. Nothing changes otherwise.
     */
    method MouseMotion(rightButton: bool, x: int, xrel: int, yrel: int)
      requires rightButton ==> DragDefined(x, xrel) && InInt32(topPx - yrel)
      modifies this
      ensures widthNs == old(widthNs) && rendererWidth == old(rendererWidth)
      ensures !rightButton ==> leftNs == old(leftNs) && topPx == old(topPx)
      ensures rightButton ==>
        && leftNs == old(leftNs + PxToNs(leftNs, widthNs, rendererWidth, x - xrel) - PxToNs(leftNs, widthNs, rendererWidth, x))
        && topPx == Max(old(topPx) - yrel, 0)
    {
      if rightButton {
        var t1 := PxToNs(leftNs, widthNs, rendererWidth, x - xrel);
        var t2 := PxToNs(leftNs, widthNs, rendererWidth, x);
        leftNs := leftNs + (t1 - t2);
        topPx := topPx - yrel;
        topPx := Max(topPx, 0);
      }
    }

    /**
     * A mouse motion in time_scale_view.h's `HandleEvent`: the same horizontal drag, and no
     * vertical scrolling.
     */
    method MouseMotionHorizontal(rightButton: bool, x: int, xrel: int)
      requires rightButton ==> DragDefined(x, xrel)
      modifies this
      ensures widthNs == old(widthNs) && rendererWidth == old(rendererWidth) && topPx == old(topPx)
      ensures !rightButton ==> leftNs == old(leftNs)
      ensures rightButton ==>
        leftNs == old(leftNs + PxToNs(leftNs, widthNs, rendererWidth, x - xrel) - PxToNs(leftNs, widthNs, rendererWidth, x))
    {
      if rightButton {
        var t1 := PxToNs(leftNs, widthNs, rendererWidth, x - xrel);
        var t2 := PxToNs(leftNs, widthNs, rendererWidth, x);
        leftNs := leftNs + (t1 - t2);
      }
    }
  }

  /** The left edge after a right-drag from pixel `x - xrel` to pixel `x`. */
  function Dragged(leftNs: int, widthNs: int, rendererWidth: int, x: int, xrel: int): int
    requires PxToNsDefined(leftNs, widthNs, rendererWidth, x - xrel) && PxToNsDefined(leftNs, widthNs, rendererWidth, x)
  {
    leftNs + PxToNs(leftNs, widthNs, rendererWidth, x - xrel) - PxToNs(leftNs, widthNs, rendererWidth, x)
  }

  /** Dragging keeps the grabbed time under the cursor: pixel `x` now shows what `x - xrel` showed. */
  lemma DragKeepsGrabbedTime(leftNs: int, widthNs: int, rendererWidth: int, x: int, xrel: int)
    requires PxToNsDefined(leftNs, widthNs, rendererWidth, x - xrel) && PxToNsDefined(leftNs, widthNs, rendererWidth, x)
    requires InInt64(Dragged(leftNs, widthNs, rendererWidth, x, xrel))
    ensures PxToNsDefined(Dragged(leftNs, widthNs, rendererWidth, x, xrel), widthNs, rendererWidth, x)
    ensures PxToNs(Dragged(leftNs, widthNs, rendererWidth, x, xrel), widthNs, rendererWidth, x)
      == PxToNs(leftNs, widthNs, rendererWidth, x - xrel)
  {
  }

  /** Dragging back to where the cursor came from restores the left edge exactly. */
  lemma DragBackRestores(leftNs: int, widthNs: int, rendererWidth: int, x: int, xrel: int)
    requires PxToNsDefined(leftNs, widthNs, rendererWidth, x - xrel) && PxToNsDefined(leftNs, widthNs, rendererWidth, x)
    requires InInt64(Dragged(leftNs, widthNs, rendererWidth, x, xrel))
    requires PxToNsDefined(Dragged(leftNs, widthNs, rendererWidth, x, xrel), widthNs, rendererWidth, x - xrel)
    ensures var moved := Dragged(leftNs, widthNs, rendererWidth, x, xrel);
      && PxToNsDefined(moved, widthNs, rendererWidth, x)
      && Dragged(moved, widthNs, rendererWidth, x - xrel, -xrel) == leftNs
  {
  }

  /** `SDL_Rect`. */
  datatype Rect = Rect(x: int, y: int, w: int, h: int)

  /**
   * `PixelWideBlockDeferredRenderer`: blocks at most one pixel wide are collected into a run on
   * one row and filled as one rectangle. `drawn` lists the rectangles filled so far. The block
   * height is 39 in time_scale_view.cpp and 41 in time_scale_view.h.
   */
  class PixelWideBlockDeferredRenderer {
    const blockHeight: int
    /** `m_onset`: a run is pending. */
    var onset: bool
    var leftPx: int
    var rightPx: int
    var topPx: int
    var drawn: seq<Rect>

    /** The constructor leaves `m_onset` and the run uninitialised; `Reset` sets `m_onset`. */
    constructor(blockHeight: int)
      ensures this.blockHeight == blockHeight && drawn == []
    {
      this.blockHeight := blockHeight;
      var pending :| true;
      onset := pending;
      leftPx, rightPx, topPx := 0, 0, 0;
      drawn := [];
    }

    /** `Reset`: drops a pending run without filling it. */
    method Reset()
      modifies this
      ensures !onset && drawn == old(drawn)
      ensures leftPx == old(leftPx) && rightPx == old(rightPx) && topPx == old(topPx)
    {
      onset := false;
    }

    /**
     * `Render`: fills the pending run, if there is one, as one rectangle at least one pixel
     * wide, and closes it.
     */
    method Render()
      modifies this
      ensures !onset
      ensures leftPx == old(leftPx) && rightPx == old(rightPx) && topPx == old(topPx)
      ensures drawn == old(drawn) + if old(onset) then [Rect(leftPx, topPx, Max(rightPx - leftPx + 1, 1), blockHeight)] else []
    {
      if !onset {
        return;
      }
      drawn := drawn + [Rect(leftPx, topPx, Max(rightPx - leftPx + 1, 1), blockHeight)];
      onset := false;
    }

    /**
     * `MarkBlock`: with no run pending, opens one with the block. A block on the run's row that
     * starts at most one pixel after the run's right edge extends the run; any other block first
     * fills the run and then opens a new one with itself.
     */
    method MarkBlock(left: int, right: int, top: int)
      requires left <= right <= left + 1
      requires onset && top == topPx && left - rightPx <= 1 ==> left >= rightPx
      modifies this
      ensures onset
      ensures !old(onset) ==> leftPx == left && rightPx == right && topPx == top && drawn == old(drawn)
      ensures old(onset) && top == old(topPx) && left - old(rightPx) <= 1 ==>
        leftPx == old(leftPx) && rightPx == right && topPx == old(topPx) && drawn == old(drawn)
      ensures old(onset) && (top != old(topPx) || left - old(rightPx) > 1) ==>
        && leftPx == left && rightPx == right && topPx == top
        && drawn == old(drawn) + [Rect(old(leftPx), old(topPx), Max(old(rightPx) - old(leftPx) + 1, 1), blockHeight)]
      decreases if onset then 1 else 0
    {
      if !onset {
        leftPx := left;
        rightPx := right;
        topPx := top;
        onset := true;
      } else if top == topPx && left - rightPx <= 1 {
        rightPx := right;
      } else {
        Render();
        MarkBlock(left, right, top);
      }
    }
  }

  /** Where `Draw` puts an item: nowhere, nowhere and past the right edge, or a clamped block. */
  datatype Placement = Skipped | PastRight | Block(left: int, right: int)

  /**
   * `Draw`'s per-item test on the item's two pixel positions: an item ending left of the view is
   * skipped, one starting at or past the right edge is past it, and any other is clamped to
   * [-1, width + 1].
   */
  function Cull(leftPx: int, rightPx: int, width: int): (p: Placement)
    ensures p == Skipped <==> rightPx < 0
    ensures p == PastRight <==> rightPx >= 0 && leftPx >= width
    ensures p.Block? ==> p.left == Max(leftPx, -1) && p.right == Min(rightPx, width + 1)
  {
    if rightPx < 0 then Skipped
    else if leftPx >= width then PastRight
    else Block(Max(leftPx, -1), Min(rightPx, width + 1))
  }

  /** A clamped block lies on the screen and keeps its ends in order: `Draw`'s assertion holds. */
  lemma CullKeepsOrder(leftPx: int, rightPx: int, width: int)
    requires leftPx <= rightPx && width >= 0 && Cull(leftPx, rightPx, width).Block?
    ensures var p := Cull(leftPx, rightPx, width);
      -1 <= p.left <= p.right <= width + 1 && p.left < width && 0 <= p.right
  {
  }

  /** A block as `Draw` hands it on: its clamped pixels and its row's top. */
  datatype DrawnBlock = DrawnBlock(left: int, right: int, top: int)

  /** The item's two times, relative to `startNs`, convert to pixels. */
  predicate ItemDrawable(leftNs: int, widthNs: int, rendererWidth: int, item: Workloads.WorkItem, startNs: int)
  {
    && item.startTimeNs < U64Limit && item.stopTimeNs < U64Limit
    && NsToPxDefined(leftNs, widthNs, rendererWidth, Rel(item.startTimeNs, startNs))
    && NsToPxDefined(leftNs, widthNs, rendererWidth, Rel(item.stopTimeNs, startNs))
  }

  /** Every item converts to pixels. */
  predicate Drawable(leftNs: int, widthNs: int, rendererWidth: int, items: seq<Workloads.WorkItem>, startNs: int)
  {
    forall i :: 0 <= i < |items| ==> ItemDrawable(leftNs, widthNs, rendererWidth, items[i], startNs)
  }

  /**
   * A witness for the width-0 case of `ResetToViewAllWorkload`: items that all stop at the
   * workload's start meet its condition for width 0, and at that width none of them is drawable.
   */
  lemma ZeroWidthUndrawable(leftNs: int, rendererWidth: int, items: seq<Workloads.WorkItem>, startNs: int)
    requires items != [] && forall i :: 0 <= i < |items| ==> items[i].stopTimeNs == startNs < U64Limit
    ensures StopsWithin(items, startNs, 0)
    ensures !Drawable(leftNs, 0, rendererWidth, items, startNs)
  {
    assert !ItemDrawable(leftNs, 0, rendererWidth, items[0], startNs);
  }

  /** The placement of one item. */
  function Place(leftNs: int, widthNs: int, rendererWidth: int, item: Workloads.WorkItem, startNs: int): Placement
    requires ItemDrawable(leftNs, widthNs, rendererWidth, item, startNs)
  {
    Cull(NsToPx(leftNs, widthNs, rendererWidth, Rel(item.startTimeNs, startNs)),
         NsToPx(leftNs, widthNs, rendererWidth, Rel(item.stopTimeNs, startNs)),
         rendererWidth)
  }

  lemma DrawableTail(leftNs: int, widthNs: int, rendererWidth: int, items: seq<Workloads.WorkItem>, startNs: int, k: nat)
    requires Drawable(leftNs, widthNs, rendererWidth, items, startNs) && k <= |items|
    ensures Drawable(leftNs, widthNs, rendererWidth, items[k..], startNs)
  {
    assert forall i :: 0 <= i < |items| - k ==> items[k..][i] == items[k + i];
  }

  /**
   * The blocks of one worker in time_scale_view.cpp's `Draw`, in item order: items ending left
   * of the view are skipped and the first item starting past the right edge ends the row. Row
   * tops are `baseY + 40 * stackLevel`.
   */
  function RowBlocks(leftNs: int, widthNs: int, rendererWidth: int, items: seq<Workloads.WorkItem>, startNs: int, baseY: int)
    : (r: seq<DrawnBlock>)
    requires Drawable(leftNs, widthNs, rendererWidth, items, startNs)
    ensures |r| <= |items|
  {
    if items == [] then []
    else
      DrawableTail(leftNs, widthNs, rendererWidth, items, startNs, 1);
      match Place(leftNs, widthNs, rendererWidth, items[0], startNs)
      case Skipped => RowBlocks(leftNs, widthNs, rendererWidth, items[1..], startNs, baseY)
      case PastRight => []
      case Block(l, r) =>
        [DrawnBlock(l, r, baseY + 40 * items[0].stackLevel)] + RowBlocks(leftNs, widthNs, rendererWidth, items[1..], startNs, baseY)
  }

  /**
   * The blocks of time_scale_view.h's `Draw`, in item order: items ending left of the view and
   * items starting past its right edge are both skipped, and the loop goes on.
   */
  function AllBlocks(leftNs: int, widthNs: int, rendererWidth: int, items: seq<Workloads.WorkItem>, startNs: int, baseY: int)
    : (r: seq<DrawnBlock>)
    requires Drawable(leftNs, widthNs, rendererWidth, items, startNs)
    ensures |r| <= |items|
  {
    if items == [] then []
    else
      DrawableTail(leftNs, widthNs, rendererWidth, items, startNs, 1);
      match Place(leftNs, widthNs, rendererWidth, items[0], startNs)
      case Block(l, r) =>
        [DrawnBlock(l, r, baseY + 40 * items[0].stackLevel)] + AllBlocks(leftNs, widthNs, rendererWidth, items[1..], startNs, baseY)
      case _ => AllBlocks(leftNs, widthNs, rendererWidth, items[1..], startNs, baseY)
  }

  /** Every item starts no later than it stops, as seen by the camera. */
  predicate InOrder(items: seq<Workloads.WorkItem>, startNs: int)
  {
    forall i :: 0 <= i < |items| ==>
      items[i].startTimeNs < U64Limit && items[i].stopTimeNs < U64Limit &&
      Rel(items[i].startTimeNs, startNs) <= Rel(items[i].stopTimeNs, startNs)
  }

  /** A block lies on screen, its ends in order, and it overlaps the view. */
  predicate OnScreen(b: DrawnBlock, width: int)
  {
    -1 <= b.left <= b.right <= width + 1 && b.left < width && 0 <= b.right
  }

  /**
   * Every block of a row lies on screen with its ends in order, so the assertion of `Draw` holds
   * for every item it draws.
   */
  lemma {:induction false} RowBlocksOnScreen(leftNs: int, widthNs: int, rendererWidth: int,
                                             items: seq<Workloads.WorkItem>, startNs: int, baseY: int)
    requires widthNs > 0 && rendererWidth >= 0
    requires Drawable(leftNs, widthNs, rendererWidth, items, startNs) && InOrder(items, startNs)
    ensures forall k :: 0 <= k < |RowBlocks(leftNs, widthNs, rendererWidth, items, startNs, baseY)| ==>
      OnScreen(RowBlocks(leftNs, widthNs, rendererWidth, items, startNs, baseY)[k], rendererWidth)
  {
    if items != [] {
      DrawableTail(leftNs, widthNs, rendererWidth, items, startNs, 1);
      assert InOrder(items[1..], startNs) by {
        assert forall i :: 0 <= i < |items| - 1 ==> items[1..][i] == items[i + 1];
      }
      RowBlocksOnScreen(leftNs, widthNs, rendererWidth, items[1..], startNs, baseY);
      var a := NsToPx(leftNs, widthNs, rendererWidth, Rel(items[0].startTimeNs, startNs));
      var b := NsToPx(leftNs, widthNs, rendererWidth, Rel(items[0].stopTimeNs, startNs));
      NsToPxMonotone(leftNs, widthNs, rendererWidth, Rel(items[0].startTimeNs, startNs), Rel(items[0].stopTimeNs, startNs));
      if Cull(a, b, rendererWidth).Block? {
        CullKeepsOrder(a, b, rendererWidth);
      }
    }
  }

  /**
   * time_scale_view.cpp's `break` draws a prefix of what time_scale_view.h's `continue` draws:
   * the two agree up to the first item past the right edge.
   */
  lemma {:induction false} RowBlocksPrefix(leftNs: int, widthNs: int, rendererWidth: int,
                                           items: seq<Workloads.WorkItem>, startNs: int, baseY: int)
    requires Drawable(leftNs, widthNs, rendererWidth, items, startNs)
    ensures RowBlocks(leftNs, widthNs, rendererWidth, items, startNs, baseY)
      <= AllBlocks(leftNs, widthNs, rendererWidth, items, startNs, baseY)
  {
    if items != [] {
      DrawableTail(leftNs, widthNs, rendererWidth, items, startNs, 1);
      RowBlocksPrefix(leftNs, widthNs, rendererWidth, items[1..], startNs, baseY);
    }
  }

  /** `RowBlocks` from item `k` on, unfolded by one item whose pixels are `leftPx` and `rightPx`. */
  lemma RowStep(leftNs: int, widthNs: int, rendererWidth: int, items: seq<Workloads.WorkItem>, startNs: int, baseY: int,
                k: nat, leftPx: int, rightPx: int)
    requires Drawable(leftNs, widthNs, rendererWidth, items, startNs) && k < |items|
    requires Place(leftNs, widthNs, rendererWidth, items[k], startNs) == Cull(leftPx, rightPx, rendererWidth)
    ensures Drawable(leftNs, widthNs, rendererWidth, items[k..], startNs)
    ensures Drawable(leftNs, widthNs, rendererWidth, items[k + 1..], startNs)
    ensures rightPx < 0 ==> RowBlocks(leftNs, widthNs, rendererWidth, items[k..], startNs, baseY)
                            == RowBlocks(leftNs, widthNs, rendererWidth, items[k + 1..], startNs, baseY)
    ensures 0 <= rightPx && rendererWidth <= leftPx ==> RowBlocks(leftNs, widthNs, rendererWidth, items[k..], startNs, baseY) == []
    ensures 0 <= rightPx && leftPx < rendererWidth ==>
      RowBlocks(leftNs, widthNs, rendererWidth, items[k..], startNs, baseY)
      == [DrawnBlock(Max(leftPx, -1), Min(rightPx, rendererWidth + 1), baseY + 40 * items[k].stackLevel)]
         + RowBlocks(leftNs, widthNs, rendererWidth, items[k + 1..], startNs, baseY)
  {
    DrawableTail(leftNs, widthNs, rendererWidth, items, startNs, k);
    DrawableTail(leftNs, widthNs, rendererWidth, items, startNs, k + 1);
    assert items[k..][0] == items[k] && items[k..][1..] == items[k + 1..];
  }

  lemma Snoc<T>(a: seq<T>, x: T, b: seq<T>)
    ensures a + ([x] + b) == (a + [x]) + b
  {
  }

  /** `AllBlocks` from item `k` on, unfolded by one item whose pixels are `leftPx` and `rightPx`. */
  lemma AllStep(leftNs: int, widthNs: int, rendererWidth: int, items: seq<Workloads.WorkItem>, startNs: int, baseY: int,
                k: nat, leftPx: int, rightPx: int)
    requires Drawable(leftNs, widthNs, rendererWidth, items, startNs) && k < |items|
    requires Place(leftNs, widthNs, rendererWidth, items[k], startNs) == Cull(leftPx, rightPx, rendererWidth)
    ensures Drawable(leftNs, widthNs, rendererWidth, items[k..], startNs)
    ensures Drawable(leftNs, widthNs, rendererWidth, items[k + 1..], startNs)
    ensures rightPx < 0 || rendererWidth <= leftPx ==>
      AllBlocks(leftNs, widthNs, rendererWidth, items[k..], startNs, baseY)
      == AllBlocks(leftNs, widthNs, rendererWidth, items[k + 1..], startNs, baseY)
    ensures 0 <= rightPx && leftPx < rendererWidth ==>
      AllBlocks(leftNs, widthNs, rendererWidth, items[k..], startNs, baseY)
      == [DrawnBlock(Max(leftPx, -1), Min(rightPx, rendererWidth + 1), baseY + 40 * items[k].stackLevel)]
         + AllBlocks(leftNs, widthNs, rendererWidth, items[k + 1..], startNs, baseY)
  {
    DrawableTail(leftNs, widthNs, rendererWidth, items, startNs, k);
    DrawableTail(leftNs, widthNs, rendererWidth, items, startNs, k + 1);
    assert items[k..][0] == items[k] && items[k..][1..] == items[k + 1..];
  }

  /** The pixels of an item's start and stop, its times taken relative to `startNs`. */
  method ItemPixels(leftNs: int, widthNs: int, rendererWidth: int, items: seq<Workloads.WorkItem>, k: nat, startNs: int)
    returns (leftPx: int, rightPx: int)
    requires Drawable(leftNs, widthNs, rendererWidth, items, startNs) && k < |items|
    ensures Place(leftNs, widthNs, rendererWidth, items[k], startNs) == Cull(leftPx, rightPx, rendererWidth)
  {
    var wi := items[k];
    var startTime := Rel(wi.startTimeNs, startNs);
    var stopTime := Rel(wi.stopTimeNs, startNs);
    leftPx := NsToPx(leftNs, widthNs, rendererWidth, startTime);
    rightPx := NsToPx(leftNs, widthNs, rendererWidth, stopTime);
  }

  /**
   * The per-item loop of time_scale_view.cpp's `Draw` for one worker: converts each item's
   * times to pixels, skips items left of the view, stops at the first item past the right edge,
   * and clamps the rest.
   */
  method DrawRow(camera: Camera, items: seq<Workloads.WorkItem>, startNs: int, workerOffsetY: int)
    returns (blocks: seq<DrawnBlock>)
    requires Drawable(camera.leftNs, camera.widthNs, camera.rendererWidth, items, startNs)
    ensures blocks == RowBlocks(camera.leftNs, camera.widthNs, camera.rendererWidth, items, startNs, workerOffsetY)
  {
    ghost var row := RowBlocks(camera.leftNs, camera.widthNs, camera.rendererWidth, items, startNs, workerOffsetY);
    blocks := [];
    var k := 0;
    assert items[k..] == items;
    while k < |items|
      invariant k <= |items|
      invariant row == blocks + RowBlocks(camera.leftNs, camera.widthNs, camera.rendererWidth, items[k..], startNs, workerOffsetY)
    {
      var past;
      blocks, past := DrawRowItem(camera, items, startNs, workerOffsetY, k, blocks);
      if past {
        return;
      }
      k := k + 1;
    }
    assert items[k..] == [];
  }

  /**
   * One pass of `DrawRow`'s loop: item `k` is skipped, drawn, or found past the right edge,
   * which ends the row.
   */
  method DrawRowItem(camera: Camera, items: seq<Workloads.WorkItem>, startNs: int, workerOffsetY: int,
                     k: nat, blocks: seq<DrawnBlock>)
    returns (next: seq<DrawnBlock>, past: bool)
    requires Drawable(camera.leftNs, camera.widthNs, camera.rendererWidth, items, startNs) && k < |items|
    ensures past ==>
      next == blocks + RowBlocks(camera.leftNs, camera.widthNs, camera.rendererWidth, items[k..], startNs, workerOffsetY)
    ensures !past ==>
      blocks + RowBlocks(camera.leftNs, camera.widthNs, camera.rendererWidth, items[k..], startNs, workerOffsetY)
      == next + RowBlocks(camera.leftNs, camera.widthNs, camera.rendererWidth, items[k + 1..], startNs, workerOffsetY)
  {
    var leftNs, widthNs, rendererWidth := camera.leftNs, camera.widthNs, camera.rendererWidth;
    var leftPx, rightPx := ItemPixels(leftNs, widthNs, rendererWidth, items, k, startNs);
    RowStep(leftNs, widthNs, rendererWidth, items, startNs, workerOffsetY, k, leftPx, rightPx);
    next, past := blocks, false;
    if rightPx < 0 {
      return;
    }
    if leftPx >= rendererWidth {
      assert blocks + [] == blocks;
      past := true;
      return;
    }
    leftPx := Max(leftPx, -1);
    rightPx := Min(rightPx, rendererWidth + 1);
    var block := DrawnBlock(leftPx, rightPx, workerOffsetY + 40 * items[k].stackLevel);
    Snoc(blocks, block, RowBlocks(leftNs, widthNs, rendererWidth, items[k + 1..], startNs, workerOffsetY));
    next := blocks + [block];
  }

  /**
   * The per-item loop of time_scale_view.h's `Draw` over the items of the worker named "Main":
   * the same conversion and clamping, with items past the right edge skipped rather than ending
   * the loop. Rows start at pixel 38, and times are taken relative to the start of the first item,
   * which must exist.
   */
  method DrawAll(camera: Camera, items: seq<Workloads.WorkItem>)
    returns (blocks: seq<DrawnBlock>)
    requires items != []
    requires Drawable(camera.leftNs, camera.widthNs, camera.rendererWidth, items, items[0].startTimeNs)
    ensures blocks == AllBlocks(camera.leftNs, camera.widthNs, camera.rendererWidth, items, items[0].startTimeNs, 38)
  {
    var st := items[0].startTimeNs;
    ghost var all := AllBlocks(camera.leftNs, camera.widthNs, camera.rendererWidth, items, st, 38);
    blocks := [];
    var k := 0;
    assert items[k..] == items;
    while k < |items|
      invariant k <= |items|
      invariant all == blocks + AllBlocks(camera.leftNs, camera.widthNs, camera.rendererWidth, items[k..], st, 38)
    {
      blocks := DrawAllItem(camera, items, st, k, blocks);
      k := k + 1;
    }
    assert items[k..] == [];
  }

  /** One pass of `DrawAll`'s loop: item `k` is skipped or drawn. */
  method DrawAllItem(camera: Camera, items: seq<Workloads.WorkItem>, startNs: int, k: nat, blocks: seq<DrawnBlock>)
    returns (next: seq<DrawnBlock>)
    requires Drawable(camera.leftNs, camera.widthNs, camera.rendererWidth, items, startNs) && k < |items|
    ensures blocks + AllBlocks(camera.leftNs, camera.widthNs, camera.rendererWidth, items[k..], startNs, 38)
      == next + AllBlocks(camera.leftNs, camera.widthNs, camera.rendererWidth, items[k + 1..], startNs, 38)
  {
    var leftNs, widthNs, rendererWidth := camera.leftNs, camera.widthNs, camera.rendererWidth;
    var leftPx, rightPx := ItemPixels(leftNs, widthNs, rendererWidth, items, k, startNs);
    AllStep(leftNs, widthNs, rendererWidth, items, startNs, 38, k, leftPx, rightPx);
    next := blocks;
    if rightPx < 0 || leftPx >= rendererWidth {
      return;
    }
    leftPx := Max(leftPx, -1);
    rightPx := Min(rightPx, rendererWidth + 1);
    var block := DrawnBlock(leftPx, rightPx, 38 + 40 * items[k].stackLevel);
    Snoc(blocks, block, AllBlocks(leftNs, widthNs, rendererWidth, items[k + 1..], startNs, 38));
    next := blocks + [block];
  }
}
