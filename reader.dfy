/**
 * The drawer and the edge quick-jump side by side, as the page wires them:
 * the quick-jump reads the drawer's open class at touchstart, and nothing
 * else passes between them, because `openDrawer` sends no
 * `drawer-state-change` event.
 */
module Reader {
  import opened Wrappers
  import opened Numerals
  import opened Chapter
  import D = Drawer
  import E = EdgeNav
  import S = Scroll

  /**
   * The section the quick-jump scrolls to, "chapter-" and the printed
   * chapter number, is the id the chapter's section carries, and for
   * chapters 1 to 81 it is one of the page's sections.
   */
  lemma {:induction false} EdgeTargetIsSection(n: nat)
    ensures SectionPrefix + IntText(n) == SectionId(n)
    ensures 1 <= n <= 81 ==> SectionPrefix + IntText(n) in S.ReadingOrder()
  {
    var p := |SectionPrefix|;
    DecimalValueOf(IntText(n));
    DecimalValueOf(SectionId(n)[p..]);
    assert SectionId(n) == SectionId(n)[..p] + SectionId(n)[p..];
    if 1 <= n <= 81 {
      assert S.ReadingOrder()[n] == SectionId(n);
    }
  }

  /**
   * A long press armed before the drawer opens still jumps when the finger
   * lifts: the drawer opening does not reach the quick-jump.
   */
  method JumpAfterDrawerOpens() returns (drawerOpen: bool, scrollTo: Option<string>)
    ensures drawerOpen && scrollTo == Some("chapter-1")
  {
    var drawer := new D.Drawer();
    drawer.Create();
    var nav := new E.EdgeNav();
    var _ := nav.TouchStart(0.0, drawer.openClass);
    nav.FireTimer(0.0, 810.0);
    E.TargetAtOrAboveTop(0.0, 0.0, 810.0);
    drawer.Open(Some(Chapter(5, "", "", "", None)), 400);
    EdgeTargetIsSection(1);
    assert SectionId(1) == "chapter-1";
    assert nav.isActive && nav.isLongPress && nav.currentChapter == 1;
    scrollTo := nav.TouchEnd(["chapter-1"]);
    drawerOpen := drawer.isOpen;
  }

  /**
   * Had the drawer announced its opening, the disarm handler would have
   * ended the gesture and the release would not jump.
   */
  method NoJumpWhenAnnounced() returns (drawerOpen: bool, scrollTo: Option<string>)
    ensures drawerOpen && scrollTo == None
  {
    var drawer := new D.Drawer();
    drawer.Create();
    var nav := new E.EdgeNav();
    var _ := nav.TouchStart(0.0, drawer.openClass);
    nav.FireTimer(0.0, 810.0);
    drawer.Open(Some(Chapter(5, "", "", "", None)), 400);
    nav.DrawerStateChange(drawer.isOpen);
    scrollTo := nav.TouchEnd(["chapter-1"]);
    drawerOpen := drawer.isOpen;
  }

  /** While the drawer carries its open class, a touch on the edge starts nothing. */
  method EdgeIgnoredWhileDrawerOpen() returns (isActive: bool, pending: nat)
    ensures !isActive && pending == 0
  {
    var drawer := new D.Drawer();
    drawer.Create();
    drawer.Open(Some(Chapter(5, "", "", "", None)), 400);
    var nav := new E.EdgeNav();
    var _ := nav.TouchStart(0.0, drawer.openClass);
    isActive, pending := nav.isActive, |nav.pending|;
  }
}
