/**
 * The edge quick-jump strip (src/components/edge-nav.js): on touch screens a
 * long press on the right edge reveals the chapter numbers 1..81, sliding
 * the finger picks one, and lifting it scrolls to that chapter.
 *
 * Timers are explicit: arming one appends it to `pending`, `FireTimer` is
 * the event "the oldest pending timer runs", and clearing removes it.
 */
module EdgeNav {
  import opened Wrappers
  import opened Numerals
  import opened Chapter

  /** The strip shows one item per chapter, numbered 1..ChapterCount. */
  const ChapterCount: int := 81
  /** Up to this viewport width (px) the strip is installed on non-touch devices too. */
  const NarrowViewport: int := 768

  /** `Math.max(0, Math.min(index, 80))`. */
  function Clamp(index: int): (r: int)
    ensures 0 <= r <= ChapterCount - 1
    ensures 0 <= index <= ChapterCount - 1 ==> r == index
  {
    if index < 0 then 0 else if index > ChapterCount - 1 then ChapterCount - 1 else index
  }

  /**
   * `updateTargetFromTouch`: the chapter under `y` on a strip whose top
   * edge is at `top` and whose height is `height`, each of the 81 items
   * taking an equal share; positions beyond either end clamp to the end item.
   */
  function TargetChapter(y: real, top: real, height: real): (chapter: int)
    requires height > 0.0
    ensures 1 <= chapter <= ChapterCount
  {
    var relativeY := y - top;
    var itemHeight := height / ChapterCount as real;
    Clamp((relativeY / itemHeight).Floor) + 1
  }

  lemma QuotientMonotone(x1: real, x2: real, c: real)
    requires c > 0.0 && x1 <= x2
    ensures x1 / c <= x2 / c
  {
    assert (x2 / c - x1 / c) * c == x2 - x1;
  }

  lemma QuotientBounds(x: real, c: real, lo: real, hi: real)
    requires c > 0.0 && lo * c <= x < hi * c
    ensures lo <= x / c < hi
  {
    assert (x / c - lo) * c == x - lo * c;
    assert (hi - x / c) * c == hi * c - x;
  }

  /**
   * Item k (1..81) covers the k-th of 81 equal bands of the strip: a touch
   * in that band targets chapter k.
   */
  lemma TargetBand(y: real, top: real, height: real, k: int)
    requires height > 0.0 && 1 <= k <= ChapterCount
    requires (k - 1) as real * (height / 81.0) <= y - top < k as real * (height / 81.0)
    ensures TargetChapter(y, top, height) == k
  {
    QuotientBounds(y - top, height / 81.0, (k - 1) as real, k as real);
  }

  /** A touch at or above the strip's top edge targets chapter 1. */
  lemma TargetAtOrAboveTop(y: real, top: real, height: real)
    requires height > 0.0 && y <= top
    ensures TargetChapter(y, top, height) == 1
  {
    QuotientMonotone(y - top, 0.0, height / 81.0);
  }

  /** A touch at or below the strip's bottom edge targets chapter 81. */
  lemma TargetAtOrBelowBottom(y: real, top: real, height: real)
    requires height > 0.0 && y >= top + height
    ensures TargetChapter(y, top, height) == ChapterCount
  {
    assert 81.0 * (height / 81.0) == height;
    QuotientMonotone(81.0 * (height / 81.0), y - top, height / 81.0);
  }

  /** Sliding the finger down never moves the target up. */
  lemma TargetMonotone(y1: real, y2: real, top: real, height: real)
    requires height > 0.0 && y1 <= y2
    ensures TargetChapter(y1, top, height) <= TargetChapter(y2, top, height)
  {
    QuotientMonotone(y1 - top, y2 - top, height / 81.0);
  }

  /** The middle of the strip is chapter 41, the middle chapter. */
  lemma TargetMidpoint(top: real, height: real)
    requires height > 0.0
    ensures TargetChapter(top + height / 2.0, top, height) == 41
  {
    TargetBand(top + height / 2.0, top, height, 41);
  }

  /** `updateActiveItem`: the item for `chapter` is active ... */
  predicate IsActive(item: int, chapter: int) {
    item == chapter
  }

  /** ... and the items one or two away from it are near. */
  predicate IsNear(item: int, chapter: int) {
    item != chapter && -2 <= item - chapter <= 2
  }

  /** How many of the items 1..n are near `chapter`. */
  function CountNear(n: nat, chapter: int): (count: nat)
    ensures count <= n
  {
    if n == 0 then 0 else CountNear(n - 1, chapter) + (if IsNear(n, chapter) then 1 else 0)
  }

  /** 1 when item `k` is one of the items 1..n, else 0. */
  function OnStrip(k: int, n: nat): (r: nat) {
    if 1 <= k <= n then 1 else 0
  }

  lemma {:induction false} CountNearWindow(n: nat, chapter: int)
    ensures CountNear(n, chapter) ==
      OnStrip(chapter - 2, n) + OnStrip(chapter - 1, n) + OnStrip(chapter + 1, n) + OnStrip(chapter + 2, n)
  {
    if n > 0 {
      CountNearWindow(n - 1, chapter);
    }
  }

  /**
   * The near highlight is the window of neighbours that exist: four items
   * for chapters 3..79, three next to an end, two at an end, none for a
   * chapter number far off the strip.
   */
  lemma NearWindow(chapter: int)
    ensures 3 <= chapter <= ChapterCount - 2 ==> CountNear(81, chapter) == 4
    ensures chapter == 2 || chapter == ChapterCount - 1 ==> CountNear(81, chapter) == 3
    ensures chapter == 1 || chapter == ChapterCount ==> CountNear(81, chapter) == 2
    ensures chapter < -1 || chapter > ChapterCount + 2 ==> CountNear(81, chapter) == 0
  {
    CountNearWindow(81, chapter);
  }

  /** A pending long-press timer: its handle and the touch-start Y its callback closed over. */
  datatype Timer = Timer(handle: nat, y: real)

  /** `clearTimeout(handle)`: the pending timers without that one. */
  function Cleared(pending: seq<Timer>, handle: nat): (rest: seq<Timer>)
    ensures |rest| <= |pending|
    ensures forall t :: t in rest <==> t in pending && t.handle != handle
  {
    if pending == [] then []
    else if pending[0].handle == handle then Cleared(pending[1..], handle)
    else [pending[0]] + Cleared(pending[1..], handle)
  }

  /** One visibility entry of a chapter section: intersecting, and `parseInt` of its `data-chapter` (`None` for NaN). */
  datatype ChapterEntry = ChapterEntry(isIntersecting: bool, chapter: Option<int>)

  predicate Retargets(e: ChapterEntry) {
    e.isIntersecting && e.chapter.Some? && e.chapter.value != 0
  }

  /** The chapter the last retargeting entry of a batch names. */
  function LastChapter(entries: seq<ChapterEntry>): (r: Option<int>)
    ensures r.Some? <==> exists i :: 0 <= i < |entries| && Retargets(entries[i])
    ensures r.Some? ==> r.value != 0
    ensures r.Some? ==>
      exists k :: 0 <= k < |entries| && Retargets(entries[k]) && entries[k].chapter == r &&
        forall j :: k < j < |entries| ==> !Retargets(entries[j])
  {
    if entries == [] then None
    else if Retargets(entries[|entries| - 1]) then entries[|entries| - 1].chapter
    else LastChapter(entries[..|entries| - 1])
  }

  /** The module's state once `initEdgeNav` has installed the strip. */
  class EdgeNav {
    var isActive: bool
    var isLongPress: bool
    /** `longPressTimer`; `None` is null. */
    var longPressTimer: Option<nat>
    var currentChapter: int
    /** The strip carries `edge-nav--active` (it is shown). */
    var shown: bool
    /** Armed timers that have neither run nor been cleared, oldest first. */
    var pending: seq<Timer>
    /** The handle the next `setTimeout` returns; handles are positive. */
    var nextHandle: nat
    /** `edge-nav__item--active` and `edge-nav__item--near` of item i+1. */
    const active: array<bool>
    const near: array<bool>

    /** The item classes are those `updateActiveItem(chapter)` leaves. */
    ghost predicate Highlights(chapter: int)
      reads this, active, near
      requires active.Length == ChapterCount && near.Length == ChapterCount
    {
      forall i :: 0 <= i < ChapterCount ==>
        (active[i] <==> IsActive(i + 1, chapter)) && (near[i] <==> IsNear(i + 1, chapter))
    }

    ghost predicate Unhighlighted()
      reads this, active, near
      requires active.Length == ChapterCount && near.Length == ChapterCount
    {
      forall i :: 0 <= i < ChapterCount ==> !active[i] && !near[i]
    }

    /** Two separate class arrays, one entry per item. */
    ghost predicate Shape()
      reads this
    {
      active.Length == ChapterCount && near.Length == ChapterCount && active != near
    }

    ghost predicate Valid()
      reads this, active, near
    {
      && Shape()
      && nextHandle >= 1
      && (longPressTimer.Some? ==> 0 < longPressTimer.value < nextHandle)
      && (forall t :: t in pending ==> 0 < t.handle < nextHandle)
      && (Unhighlighted() || Highlights(currentChapter))
    }

    /** The strip as `createEdgeNav` builds it: hidden, chapter 1, no item highlighted. */
    constructor ()
      ensures Valid() && fresh(active) && fresh(near)
      ensures !isActive && !isLongPress && longPressTimer == None && currentChapter == 1
      ensures !shown && pending == [] && nextHandle == 1 && Unhighlighted()
    {
      isActive, isLongPress, longPressTimer, currentChapter := false, false, None, 1;
      shown, pending, nextHandle := false, [], 1;
      active := new bool[ChapterCount](_ => false);
      near := new bool[ChapterCount](_ => false);
    }

    /** `initEdgeNav`: the strip is installed unless the device has no touch and the viewport is wider than 768 px. */
    static method Init(touchDevice: bool, viewportWidth: int) returns (nav: Option<EdgeNav>)
      ensures nav.None? <==> !touchDevice && viewportWidth > NarrowViewport
      ensures nav.Some? ==>
        && fresh(nav.value) && nav.value.Valid() && !nav.value.isActive
        && !nav.value.isLongPress && nav.value.longPressTimer == None && nav.value.currentChapter == 1
        && !nav.value.shown && nav.value.pending == []
    {
      if !touchDevice && viewportWidth > NarrowViewport {
        return None;
      }
      var n := new EdgeNav();
      nav := Some(n);
    }

    /** `updateActiveItem(chapter)`: one pass over the 81 items. */
    method UpdateActiveItem(chapter: int)
      requires Shape()
      modifies active, near
      ensures Highlights(chapter)
    {
      var i := 0;
      while i < ChapterCount
        invariant 0 <= i <= ChapterCount
        invariant forall k :: 0 <= k < i ==>
          (active[k] <==> IsActive(k + 1, chapter)) && (near[k] <==> IsNear(k + 1, chapter))
      {
        var itemChapter := i + 1;
        var diff := if itemChapter - chapter < 0 then chapter - itemChapter else itemChapter - chapter;
        active[i] := false;
        near[i] := false;
        if itemChapter == chapter {
          active[i] := true;
        } else if diff <= 2 {
          near[i] := true;
        }
        i := i + 1;
      }
    }

    /** `updateTargetFromTouch`: retarget to the chapter under `y` and highlight it. */
    method UpdateTargetFromTouch(y: real, top: real, height: real)
      requires Valid() && height > 0.0
      modifies this, active, near
      ensures Valid()
      ensures currentChapter == TargetChapter(y, top, height) && Highlights(currentChapter)
      ensures isActive == old(isActive) && isLongPress == old(isLongPress) && shown == old(shown)
      ensures longPressTimer == old(longPressTimer) && pending == old(pending) && nextHandle == old(nextHandle)
    {
      currentChapter := TargetChapter(y, top, height);
      UpdateActiveItem(currentChapter);
    }

    /**
     * `handleTouchStart` at `y`: ignored while the drawer carries its open
     * class; otherwise the gesture starts and a new timer is armed. A timer
     * armed earlier is not cleared: it stays pending.
     */
    method TouchStart(y: real, drawerOpen: bool) returns (prevented: bool)
      requires Valid()
      modifies this
      ensures Valid()
      ensures prevented <==> !drawerOpen
      ensures drawerOpen ==> unchanged(this)
      ensures !drawerOpen ==>
        && isActive && !isLongPress
        && longPressTimer == Some(old(nextHandle)) && nextHandle == old(nextHandle) + 1
        && pending == old(pending) + [Timer(old(nextHandle), y)]
        && currentChapter == old(currentChapter) && shown == old(shown)
    {
      prevented := false;
      if drawerOpen {
        return;
      }
      prevented := true;
      isActive := true;
      isLongPress := false;
      longPressTimer := Some(nextHandle);
      pending := pending + [Timer(nextHandle, y)];
      nextHandle := nextHandle + 1;
    }

    /**
     * The oldest pending timer runs (500 ms after its touchstart): the long
     * press is on, the strip shows, and the target is taken from that
     * timer's touch-start Y, not from where the finger is now. It runs
     * whether or not the gesture is still active.
     */
    method FireTimer(top: real, height: real)
      requires Valid() && pending != [] && height > 0.0
      modifies this, active, near
      ensures Valid()
      ensures pending == old(pending[1..]) && isLongPress && shown
      ensures currentChapter == TargetChapter(old(pending[0].y), top, height) && Highlights(currentChapter)
      ensures isActive == old(isActive) && longPressTimer == old(longPressTimer) && nextHandle == old(nextHandle)
    {
      var timer := pending[0];
      pending := pending[1..];
      isLongPress := true;
      shown := true;
      UpdateTargetFromTouch(timer.y, top, height);
    }

    /** `handleTouchMove` to `y`: retargets only during an active gesture whose long press has fired. */
    method TouchMove(y: real, top: real, height: real) returns (prevented: bool)
      requires Valid() && height > 0.0
      modifies this, active, near
      ensures Valid()
      ensures prevented == old(isActive)
      ensures !(old(isActive) && old(isLongPress)) ==> unchanged(this) && unchanged(active) && unchanged(near)
      ensures old(isActive) && old(isLongPress) ==>
        currentChapter == TargetChapter(y, top, height) && Highlights(currentChapter)
      ensures isActive == old(isActive) && isLongPress == old(isLongPress) && shown == old(shown)
      ensures longPressTimer == old(longPressTimer) && pending == old(pending) && nextHandle == old(nextHandle)
    {
      prevented := false;
      if !isActive {
        return;
      }
      prevented := true;
      if isLongPress {
        UpdateTargetFromTouch(y, top, height);
      }
    }

    /**
     * `handleTouchEnd` (also on touchcancel), given the ids of the
     * document's elements: ends an active gesture, clears the latest timer
     * and hides the strip; returns the section to scroll to when the long
     * press had fired, the chapter is non-zero and `chapter-<n>` exists.
     */
    method TouchEnd(elementIds: seq<string>) returns (scrollTo: Option<string>)
      requires Valid()
      modifies this
      ensures Valid()
      ensures !old(isActive) ==> unchanged(this) && scrollTo == None
      ensures old(isActive) ==>
        && !isActive && !isLongPress && !shown && longPressTimer == None
        && pending == (if old(longPressTimer).Some? then Cleared(old(pending), old(longPressTimer).value) else old(pending))
        && currentChapter == old(currentChapter) && nextHandle == old(nextHandle)
      ensures scrollTo.Some? <==>
        old(isActive) && old(isLongPress) && currentChapter != 0 && SectionPrefix + IntText(currentChapter) in elementIds
      ensures scrollTo.Some? ==> scrollTo.value == SectionPrefix + IntText(currentChapter)
    {
      scrollTo := None;
      if !isActive {
        return;
      }
      if longPressTimer.Some? {
        pending := Cleared(pending, longPressTimer.value);
        longPressTimer := None;
      }
      isActive := false;
      shown := false;
      if isLongPress && currentChapter != 0 {
        var target := SectionPrefix + IntText(currentChapter);
        if target in elementIds {
          scrollTo := Some(target);
        }
      }
      isLongPress := false;
    }

    /**
     * `handleDrawerStateChange`, with `nowOpen` standing for a detail whose
     * `isOpen` is truthy: cancels the latest timer and ends the gesture;
     * any other event changes nothing.
     */
    method DrawerStateChange(nowOpen: bool)
      requires Valid()
      modifies this
      ensures Valid()
      ensures !nowOpen ==> unchanged(this)
      ensures nowOpen ==>
        && !isActive && !isLongPress && !shown && longPressTimer == None
        && pending == (if old(longPressTimer).Some? then Cleared(old(pending), old(longPressTimer).value) else old(pending))
        && currentChapter == old(currentChapter) && nextHandle == old(nextHandle)
    {
      if nowOpen {
        if longPressTimer.Some? {
          pending := Cleared(pending, longPressTimer.value);
          longPressTimer := None;
        }
        isActive := false;
        isLongPress := false;
        shown := false;
      }
    }

    /**
     * The visibility callback of `setupIntersectionObserver`: every
     * intersecting entry with a non-zero parsed chapter retargets, so the
     * last such entry decides; a batch without one changes nothing.
     */
    method ObserveChapters(entries: seq<ChapterEntry>)
      requires Valid()
      modifies this, active, near
      ensures Valid()
      ensures LastChapter(entries).None? ==>
        currentChapter == old(currentChapter) && unchanged(active) && unchanged(near)
      ensures LastChapter(entries).Some? ==>
        currentChapter == LastChapter(entries).value && Highlights(currentChapter)
      ensures isActive == old(isActive) && isLongPress == old(isLongPress) && shown == old(shown)
      ensures longPressTimer == old(longPressTimer) && pending == old(pending) && nextHandle == old(nextHandle)
    {
      var k := 0;
      while k < |entries|
        invariant 0 <= k <= |entries|
        invariant Valid()
        invariant LastChapter(entries[..k]).None? ==>
          currentChapter == old(currentChapter) && unchanged(active) && unchanged(near)
        invariant LastChapter(entries[..k]).Some? ==>
          currentChapter == LastChapter(entries[..k]).value && Highlights(currentChapter)
        invariant isActive == old(isActive) && isLongPress == old(isLongPress) && shown == old(shown)
        invariant longPressTimer == old(longPressTimer) && pending == old(pending) && nextHandle == old(nextHandle)
      {
        assert entries[..k + 1][..k] == entries[..k];
        var entry := entries[k];
        if entry.isIntersecting && entry.chapter.Some? && entry.chapter.value != 0 {
          currentChapter := entry.chapter.value;
          UpdateActiveItem(currentChapter);
        }
        k := k + 1;
      }
      assert entries[..k] == entries;
    }
  }

  /**
   * Two touchstarts before one touchend (a second finger on the edge) leave
   * the first timer armed: when it runs, the long press turns on and the
   * strip shows although no gesture is active.
   */
  method OrphanTimer() returns (isActive: bool, isLongPress: bool, shown: bool)
    ensures !isActive && isLongPress && shown
  {
    var nav := new EdgeNav();
    var _ := nav.TouchStart(100.0, false);
    var _ := nav.TouchStart(200.0, false);
    assert nav.pending == [Timer(1, 100.0), Timer(2, 200.0)] && nav.longPressTimer == Some(2);
    var _ := nav.TouchEnd([]);
    assert Timer(1, 100.0) in nav.pending;
    nav.FireTimer(0.0, 810.0);
    isActive, isLongPress, shown := nav.isActive, nav.isLongPress, nav.shown;
  }

  /**
   * The long press targets where the finger went down: a touch at the top,
   * moved to the bottom before the timer runs, targets chapter 1.
   */
  method TargetFromTouchStart() returns (chapter: int)
    ensures chapter == 1
  {
    var nav := new EdgeNav();
    var _ := nav.TouchStart(5.0, false);
    var _ := nav.TouchMove(800.0, 0.0, 810.0);
    nav.FireTimer(0.0, 810.0);
    TargetBand(5.0, 0.0, 810.0, 1);
    chapter := nav.currentChapter;
  }
}
