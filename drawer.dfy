/**
 * The commentary drawer (src/components/drawer.js): a bottom sheet that is
 * opened for one chapter, closed by its button, the backdrop or Escape, and
 * dismissed on touch screens by dragging it down from its top 60 px.
 */
module Drawer {
  import opened Wrappers
  import opened Chapter
  import opened Annotation

  /** A drag may only start this far (px) below the drawer's top edge. */
  const DragRegion: real := 60.0
  /** The drawer follows the finger at this fraction of its travel. */
  const Resistance: real := 0.6
  /** Released further down than this (px), the drawer closes. */
  const CloseDistance: real := 100.0
  /** Released further down than this (px) and fast enough, the drawer closes. */
  const FlickDistance: real := 50.0
  /** "Fast enough": px per ms. */
  const FlickVelocity: real := 0.5
  /** Up to this viewport width (px) an open drawer locks the page's scrolling. */
  const NarrowViewport: int := 768

  /**
   * The release decision of `touchend`, with `Date.now() - touchStartTime || 1`:
   * an elapsed time of 0 ms counts as 1 ms.
   */
  function ShouldClose(deltaY: real, elapsed: int): (close: bool)
    ensures deltaY > CloseDistance ==> close
    ensures close ==> deltaY > FlickDistance
  {
    var velocity := deltaY / (if elapsed == 0 then 1 else elapsed) as real;
    deltaY > CloseDistance || (deltaY > FlickDistance && velocity > FlickVelocity)
  }

  lemma VelocityAbove(deltaY: real, elapsed: real)
    requires elapsed > 0.0
    ensures deltaY / elapsed > 0.5 <==> deltaY > 0.5 * elapsed
  {
    var v := deltaY / elapsed;
    assert v * elapsed == deltaY;
    if v > 0.5 {
      assert v * elapsed > 0.5 * elapsed;
    } else {
      assert v * elapsed <= 0.5 * elapsed;
    }
  }

  lemma VelocityNegative(deltaY: real, elapsed: real)
    requires elapsed < 0.0 && deltaY > 0.0
    ensures deltaY / elapsed < 0.0
  {
    var v := deltaY / elapsed;
    assert v * elapsed == deltaY;
  }

  /**
   * The decision without division: beyond 100 px always; beyond 50 px when
   * the finger travelled more than half a pixel per elapsed millisecond,
   * which an instant release (0 ms) always counts as; never when the clock
   * went backwards and the travel is at most 100 px.
   */
  lemma ShouldCloseWithoutDivision(deltaY: real, elapsed: int)
    ensures ShouldClose(deltaY, elapsed) <==>
      || deltaY > 100.0
      || (deltaY > 50.0 && (elapsed == 0 || (elapsed > 0 && deltaY > 0.5 * elapsed as real)))
  {
    if elapsed > 0 {
      VelocityAbove(deltaY, elapsed as real);
    } else if elapsed < 0 && deltaY > 0.0 {
      VelocityNegative(deltaY, elapsed as real);
    }
  }

  /**
   * The release cases: 120 px closes; 60 px in 100 ms (0.6 px/ms) closes;
   * 60 px in 300 ms (0.2 px/ms) snaps back; 30 px never closes.
   */
  lemma ReleaseExamples(elapsed: int)
    ensures ShouldClose(120.0, elapsed)
    ensures ShouldClose(60.0, 100)
    ensures !ShouldClose(60.0, 300)
    ensures !ShouldClose(30.0, elapsed)
  {
    ShouldCloseWithoutDivision(120.0, elapsed);
    ShouldCloseWithoutDivision(60.0, 100);
    ShouldCloseWithoutDivision(60.0, 300);
    ShouldCloseWithoutDivision(30.0, elapsed);
  }

  /**
   * The drawer's module state and the parts of its elements the handlers
   * touch. Before `createDrawer` there is no element and every operation
   * is a no-op.
   */
  class Drawer {
    /** `drawerElement` exists. */
    var created: bool
    var isOpen: bool
    var currentChapterId: Option<nat>
    /** The drawer element carries `drawer--open`. */
    var openClass: bool
    /** The backdrop carries `drawer-backdrop--visible`. */
    var backdropVisible: bool
    /** `document.body.style.overflow` is 'hidden'. */
    var bodyScrollLocked: bool
    /** The inline `translateY` (px) left by a drag; `None` when the style is cleared. */
    var transform: Option<real>
    /** The inline transition is switched off while a drag is tracked. */
    var transitionOff: bool
    /** What the content element shows. */
    var content: Content
    var isDragging: bool
    var touchStartY: real
    var touchCurrentY: real
    var touchStartTime: int

    ghost predicate Valid()
      reads this
    {
      && (isOpen <==> currentChapterId.Some?)
      && (isOpen ==> created)
      && (isDragging ==> created)
      && (transform.Some? ==> transform.value > 0.0)
    }

    /** The module's initial state: no element, closed, not dragging. */
    constructor ()
      ensures Valid()
      ensures !created && !isOpen && currentChapterId == None && !isDragging
      ensures !openClass && !backdropVisible && !bodyScrollLocked && transform == None && !transitionOff
      ensures content == Empty && touchStartY == 0.0 && touchCurrentY == 0.0 && touchStartTime == 0
    {
      created, isOpen, currentChapterId, isDragging := false, false, None, false;
      openClass, backdropVisible, bodyScrollLocked, transform, transitionOff := false, false, false, None, false;
      content, touchStartY, touchCurrentY, touchStartTime := Empty, 0.0, 0.0, 0;
    }

    /** `createDrawer`: fresh drawer and backdrop elements, closed and empty. */
    method Create()
      requires Valid() && !created
      modifies this
      ensures Valid() && created
      ensures !openClass && !backdropVisible && transform == None && !transitionOff && content == Empty
      ensures isOpen == old(isOpen) && currentChapterId == old(currentChapterId) && isDragging == old(isDragging)
      ensures bodyScrollLocked == old(bodyScrollLocked)
      ensures touchStartY == old(touchStartY) && touchCurrentY == old(touchCurrentY)
      ensures touchStartTime == old(touchStartTime)
    {
      created := true;
      openClass, backdropVisible, transform, transitionOff, content := false, false, None, false, Empty;
    }

    /**
     * `openDrawer`: with an element and a chapter, the drawer shows that
     * chapter's commentary and is open, and on a narrow viewport the page
     * stops scrolling; otherwise nothing changes. The inline transform is
     * left as it was.
     */
    method Open(chapter: Option<Chapter>, viewportWidth: int)
      requires Valid()
      modifies this
      ensures Valid()
      ensures !(old(created) && chapter.Some?) ==> unchanged(this)
      ensures old(created) && chapter.Some? ==>
        && isOpen && currentChapterId == Some(chapter.value.id)
        && content == RenderAnnotation(chapter.value.annotation)
        && openClass && backdropVisible
        && bodyScrollLocked == (old(bodyScrollLocked) || viewportWidth <= NarrowViewport)
        && created && transform == old(transform) && transitionOff == old(transitionOff)
        && isDragging == old(isDragging) && touchStartY == old(touchStartY)
        && touchCurrentY == old(touchCurrentY) && touchStartTime == old(touchStartTime)
    {
      if !created || chapter.None? {
        return;
      }
      currentChapterId := Some(chapter.value.id);
      isOpen := true;
      content := RenderAnnotation(chapter.value.annotation);
      openClass := true;
      backdropVisible := true;
      if viewportWidth <= NarrowViewport {
        bodyScrollLocked := true;
      }
    }

    /**
     * `updateContent` (`renderAnnotation`): with an element and a chapter,
     * the content shows that chapter's commentary or the placeholder;
     * otherwise nothing changes. Nothing else is touched.
     */
    method UpdateContent(chapter: Option<Chapter>)
      requires Valid()
      modifies this
      ensures Valid()
      ensures !(old(created) && chapter.Some?) ==> unchanged(this)
      ensures old(created) && chapter.Some? ==>
        && content == RenderAnnotation(chapter.value.annotation)
        && created && isOpen == old(isOpen) && currentChapterId == old(currentChapterId)
        && openClass == old(openClass) && backdropVisible == old(backdropVisible)
        && bodyScrollLocked == old(bodyScrollLocked) && transform == old(transform)
        && transitionOff == old(transitionOff) && isDragging == old(isDragging)
        && touchStartY == old(touchStartY) && touchCurrentY == old(touchCurrentY)
        && touchStartTime == old(touchStartTime)
    {
      if !created || chapter.None? {
        return;
      }
      content := RenderAnnotation(chapter.value.annotation);
    }

    /**
     * `closeDrawer`: from any state with an element, the drawer ends closed,
     * with no chapter, no inline transform and the page scrolling again; a
     * drag in progress stays tracked. Without an element nothing changes.
     */
    method Close()
      requires Valid()
      modifies this
      ensures Valid()
      ensures !old(created) ==> unchanged(this)
      ensures old(created) ==>
        && !isOpen && currentChapterId == None && transform == None
        && !openClass && !backdropVisible && !bodyScrollLocked
        && created && content == old(content) && transitionOff == old(transitionOff)
        && isDragging == old(isDragging) && touchStartY == old(touchStartY)
        && touchCurrentY == old(touchCurrentY) && touchStartTime == old(touchStartTime)
    {
      if !created {
        return;
      }
      isOpen := false;
      currentChapterId := None;
      transform := None;
      openClass := false;
      backdropVisible := false;
      bodyScrollLocked := false;
    }

    /** Escape closes the drawer while it is open; any other key, or Escape while closed, does nothing. */
    method KeyDown(key: string) returns (prevented: bool)
      requires Valid()
      modifies this
      ensures Valid()
      ensures prevented <==> key == "Escape" && old(isOpen)
      ensures !prevented ==> unchanged(this)
      ensures prevented ==>
        && !isOpen && currentChapterId == None && transform == None
        && !openClass && !backdropVisible && !bodyScrollLocked
        && created && content == old(content) && transitionOff == old(transitionOff)
        && isDragging == old(isDragging) && touchStartY == old(touchStartY)
        && touchCurrentY == old(touchCurrentY) && touchStartTime == old(touchStartTime)
    {
      prevented := false;
      if key == "Escape" && isOpen {
        prevented := true;
        Close();
      }
    }

    /**
     * `touchstart` at `touchY` while the drawer's top edge is at `rectTop`:
     * a drag starts only while open and within 60 px of the top edge.
     */
    method TouchStart(touchY: real, rectTop: real, now: int)
      requires Valid()
      modifies this
      ensures Valid()
      ensures !(old(isOpen) && touchY - rectTop <= DragRegion) ==> unchanged(this)
      ensures old(isOpen) && touchY - rectTop <= DragRegion ==>
        && isDragging && touchStartY == touchY && touchCurrentY == touchY
        && touchStartTime == now && transitionOff
        && created == old(created) && isOpen == old(isOpen) && currentChapterId == old(currentChapterId)
        && openClass == old(openClass) && backdropVisible == old(backdropVisible)
        && bodyScrollLocked == old(bodyScrollLocked) && transform == old(transform) && content == old(content)
    {
      if !isOpen {
        return;
      }
      if touchY - rectTop > DragRegion {
        return;
      }
      touchStartY := touchY;
      touchCurrentY := touchY;
      touchStartTime := now;
      isDragging := true;
      transitionOff := true;
    }

    /**
     * `touchmove` to `touchY`: while dragging, the position is recorded and
     * a downward travel moves the drawer by 0.6 of it; an upward or zero
     * travel leaves the previous transform in place.
     */
    method TouchMove(touchY: real)
      requires Valid()
      modifies this
      ensures Valid()
      ensures !old(isDragging) ==> unchanged(this)
      ensures old(isDragging) ==>
        && touchCurrentY == touchY
        && transform == (if touchY - touchStartY > 0.0 then Some((touchY - touchStartY) * Resistance) else old(transform))
        && isDragging && touchStartY == old(touchStartY) && touchStartTime == old(touchStartTime)
        && created == old(created) && isOpen == old(isOpen) && currentChapterId == old(currentChapterId)
        && openClass == old(openClass) && backdropVisible == old(backdropVisible)
        && bodyScrollLocked == old(bodyScrollLocked) && transitionOff == old(transitionOff)
        && content == old(content)
    {
      if !isDragging {
        return;
      }
      touchCurrentY := touchY;
      var deltaY := touchCurrentY - touchStartY;
      if deltaY > 0.0 {
        transform := Some(deltaY * Resistance);
      }
    }

    /**
     * `touchend` at time `now`: when dragging, the drag ends and the drawer
     * closes iff `ShouldClose` holds for the travel and the elapsed time;
     * otherwise the open class is re-added and the inline transform is left
     * as it was. Either way the recorded positions go back to 0.
     */
    method TouchEnd(now: int) returns (closed: bool)
      requires Valid()
      modifies this
      ensures Valid()
      ensures !old(isDragging) ==> unchanged(this) && !closed
      ensures old(isDragging) ==>
        && closed == ShouldClose(old(touchCurrentY) - old(touchStartY), now - old(touchStartTime))
        && !isDragging && !transitionOff && touchStartY == 0.0 && touchCurrentY == 0.0
        && touchStartTime == old(touchStartTime) && content == old(content) && created
      ensures old(isDragging) && closed ==>
        && !isOpen && currentChapterId == None && transform == None
        && !openClass && !backdropVisible && !bodyScrollLocked
      ensures old(isDragging) && !closed ==>
        && openClass && isOpen == old(isOpen) && currentChapterId == old(currentChapterId)
        && transform == old(transform) && backdropVisible == old(backdropVisible)
        && bodyScrollLocked == old(bodyScrollLocked)
    {
      closed := false;
      if !isDragging {
        return;
      }
      isDragging := false;
      transitionOff := false;
      var deltaY := touchCurrentY - touchStartY;
      var elapsed := now - touchStartTime;
      if ShouldClose(deltaY, elapsed) {
        closed := true;
        Close();
      } else {
        openClass := true;
      }
      touchStartY := 0.0;
      touchCurrentY := 0.0;
    }

    /** `touchcancel`: when dragging, the drag ends and the drawer snaps back open; it never closes. */
    method TouchCancel()
      requires Valid()
      modifies this
      ensures Valid()
      ensures !old(isDragging) ==> unchanged(this)
      ensures old(isDragging) ==>
        && !isDragging && !transitionOff && openClass && touchStartY == 0.0 && touchCurrentY == 0.0
        && created == old(created) && isOpen == old(isOpen) && currentChapterId == old(currentChapterId)
        && transform == old(transform) && backdropVisible == old(backdropVisible)
        && bodyScrollLocked == old(bodyScrollLocked) && content == old(content)
        && touchStartTime == old(touchStartTime)
    {
      if !isDragging {
        return;
      }
      isDragging := false;
      transitionOff := false;
      openClass := true;
      touchStartY := 0.0;
      touchCurrentY := 0.0;
    }
  }

  /**
   * A short, slow drag snaps back but keeps its inline transform: after
   * 40 px in 300 ms the drawer is open and still shifted down by 24 px.
   */
  method SnapBackKeepsOffset() returns (isOpen: bool, transform: Option<real>)
    ensures isOpen && transform == Some(24.0)
  {
    var d := new Drawer();
    d.Create();
    d.Open(Some(Chapter(1, "", "", "", None)), 1024);
    d.TouchStart(110.0, 100.0, 0);
    d.TouchMove(150.0);
    var closed := d.TouchEnd(300);
    ReleaseExamples(300);
    ShouldCloseWithoutDivision(40.0, 300);
    isOpen, transform := d.isOpen, d.transform;
  }

  /**
   * Escape during a drag closes the drawer but leaves the drag tracked; the
   * release then snaps back and re-adds the open class, so the closed
   * drawer carries `drawer--open` again.
   */
  method EscapeDuringDrag() returns (isOpen: bool, openClass: bool)
    ensures !isOpen && openClass
  {
    var d := new Drawer();
    d.Create();
    d.Open(Some(Chapter(1, "", "", "", None)), 1024);
    d.TouchStart(110.0, 100.0, 0);
    var _ := d.KeyDown("Escape");
    var closed := d.TouchEnd(300);
    ShouldCloseWithoutDivision(0.0, 300);
    isOpen, openClass := d.isOpen, d.openClass;
  }
}
