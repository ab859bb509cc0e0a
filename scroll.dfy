/**
 * The reading-position tracker (src/components/scroll.js): visibility
 * notifications move `currentIndex`, the side index highlight and the URL
 * fragment; ArrowDown/j and ArrowUp/k ask for the adjacent section; on load
 * a fragment naming an existing element is scrolled to once.
 */
module Scroll {
  import opened Wrappers
  import opened Numerals
  import opened Chapter
  import opened Navigation

  // ---------------------------------------------------------------------
  // The pattern /chapter-(\d+)/, searched anywhere in a section id

  /** The pattern matches at position `i`: "chapter-" followed by a digit. */
  predicate MatchesAt(s: string, i: nat) {
    i + |SectionPrefix| + 1 <= |s| && s[i..i + |SectionPrefix|] == SectionPrefix && IsDigit(s[i + |SectionPrefix|])
  }

  /** Where the greedy run of digits that starts at `j` ends. */
  function DigitsEnd(s: string, j: nat): (e: nat)
    requires j <= |s|
    ensures j <= e <= |s| && AllDigits(s[j..e])
    ensures e == |s| || !IsDigit(s[e])
    decreases |s| - j
  {
    if j < |s| && IsDigit(s[j]) then
      var e := DigitsEnd(s, j + 1);
      assert s[j..e] == [s[j]] + s[j + 1..e];
      e
    else j
  }

  /** The leftmost position at or after `from` where the pattern matches. */
  function FirstMatch(s: string, from: nat): (r: Option<nat>)
    ensures r.Some? ==> from <= r.value && MatchesAt(s, r.value)
    ensures r.Some? ==> forall k :: from <= k < r.value ==> !MatchesAt(s, k)
    ensures r.None? ==> forall k :: from <= k ==> !MatchesAt(s, k)
    decreases |s| - from
  {
    if from + |SectionPrefix| + 1 > |s| then None
    else if MatchesAt(s, from) then Some(from)
    else FirstMatch(s, from + 1)
  }

  /** The digits the capture group holds when the match is at `i`. */
  function Captured(s: string, i: nat): (digits: string)
    requires MatchesAt(s, i)
    ensures |digits| >= 1 && AllDigits(digits)
  {
    s[i + |SectionPrefix|..DigitsEnd(s, i + |SectionPrefix|)]
  }

  /** `Number(match[1])` when `id.match(/chapter-(\d+)/)` succeeds, `None` when it fails. */
  function ChapterNumber(id: string): (r: Option<nat>)
    ensures r.None? <==> forall k :: !MatchesAt(id, k)
    ensures r.Some? ==> exists i :: MatchesAt(id, i) && (forall k :: k < i ==> !MatchesAt(id, k)) && r.value == ValueOf(Captured(id, i))
  {
    match FirstMatch(id, 0)
    case None => None
    case Some(i) => Some(ValueOf(Captured(id, i)))
  }

  /** A run of digits that reaches the end of the text is captured whole. */
  lemma {:induction false} DigitsEndAtEnd(s: string, j: nat)
    requires j <= |s| && AllDigits(s[j..])
    ensures DigitsEnd(s, j) == |s|
    decreases |s| - j
  {
    if j < |s| {
      assert s[j..][0] == s[j];
      assert s[j + 1..] == s[j..][1..];
      DigitsEndAtEnd(s, j + 1);
    }
  }

  /** Section ids built by the chapter component parse back to their chapter. */
  lemma ChapterNumberOfSectionId(n: nat)
    ensures ChapterNumber(SectionId(n)) == Some(n)
  {
    var s := SectionId(n);
    var p := |SectionPrefix|;
    assert s[p..][0] == s[p];
    assert MatchesAt(s, 0);
    DigitsEndAtEnd(s, p);
    assert Captured(s, 0) == s[p..];
  }

  /** Ids too short to hold "chapter-" and a digit, such as "title" and "colophon", do not match. */
  lemma ShortIdsDoNotMatch(id: string)
    requires |id| <= |SectionPrefix|
    ensures ChapterNumber(id) == None
  {
  }

  // ---------------------------------------------------------------------
  // What an activation publishes

  /** The chapter number handed to `setActiveNav`: the parsed number, or 0. */
  function ActiveNavId(id: string): (n: nat)
    ensures n != 0 ==> ChapterNumber(id) == Some(n)
    ensures ChapterNumber(id).Some? ==> n == ChapterNumber(id).value
    ensures (forall k :: !MatchesAt(id, k)) ==> n == 0
  {
    match ChapterNumber(id)
    case Some(n) => n
    case None => 0
  }

  /** The fragment handed to `history.replaceState`: "#" and the id, or "#" alone. */
  function Fragment(id: string): (f: string)
    ensures |f| >= 1 && f[0] == '#'
    ensures f == "#" || f[1..] == id
    ensures |f| > 1 <==> ChapterNumber(id).Some?
  {
    if ChapterNumber(id).Some? then
      assert MatchesAt(id, FirstMatch(id, 0).value);
      "#" + id
    else "#"
  }

  /** A chapter section publishes its own number and its own id as fragment. */
  lemma PublishedForSectionId(n: nat)
    ensures ActiveNavId(SectionId(n)) == n
    ensures Fragment(SectionId(n)) == "#" + SectionId(n)
  {
    ChapterNumberOfSectionId(n);
  }

  /**
   * The document's sections in order, as the application builds them: the
   * title page, chapters 1 to 81, the colophon.
   */
  function ReadingOrder(): (ids: seq<string>)
    ensures |ids| == 83
  {
    ["title"] + seq(81, i requires 0 <= i < 81 => SectionId(i + 1)) + ["colophon"]
  }

  /**
   * In the reading order, section i (1..81) publishes chapter i and its own
   * id; the title page and the colophon publish 0 and "#".
   */
  lemma ReadingOrderPublishes(i: nat)
    requires i < 83
    ensures ActiveNavId(ReadingOrder()[i]) == (if 1 <= i <= 81 then i else 0)
    ensures Fragment(ReadingOrder()[i]) == if 1 <= i <= 81 then "#" + SectionId(i) else "#"
  {
    var ids := ReadingOrder();
    if 1 <= i <= 81 {
      assert ids[i] == SectionId(i);
      PublishedForSectionId(i);
    } else {
      assert ids[i] == "title" || ids[i] == "colophon";
      ShortIdsDoNotMatch(ids[i]);
    }
  }

  /** No two sections in the reading order share an id. */
  lemma ReadingOrderDistinct(i: nat, j: nat)
    requires i < j < 83
    ensures ReadingOrder()[i] != ReadingOrder()[j]
  {
    // Sections that publish different chapter numbers have different ids.
    ReadingOrderPublishes(i);
    ReadingOrderPublishes(j);
    if i == 0 && j == 82 {
      assert ReadingOrder()[i] == "title" && ReadingOrder()[j] == "colophon";
    }
  }

  // ---------------------------------------------------------------------
  // Restoring the position on load

  /**
   * The element scrolled to (without animation) on load: the hash minus its
   * leading '#', when the hash is non-empty and an element has that id.
   */
  function RestoreTarget(hash: string, elementIds: seq<string>): (r: Option<string>)
    ensures r.Some? ==> r.value != "" && r.value in elementIds && |hash| == |r.value| + 1 && hash[1..] == r.value
    ensures r.None? ==> |hash| <= 1 || hash[1..] !in elementIds
  {
    if hash != "" && hash[1..] != "" && hash[1..] in elementIds then Some(hash[1..]) else None
  }

  /**
   * The fragment the tracker writes for a section leads back to that
   * section on reload when it names a chapter, and to no scroll otherwise.
   */
  lemma RestoreWrittenFragment(id: string, elementIds: seq<string>)
    requires id in elementIds
    ensures RestoreTarget(Fragment(id), elementIds) == if ChapterNumber(id).Some? then Some(id) else None
  {
    if ChapterNumber(id).Some? {
      var f := Fragment(id);
      assert f[1..] == id;
      assert id != "" by {
        var i := FirstMatch(id, 0).value;
        assert MatchesAt(id, i);
      }
    }
  }

  // ---------------------------------------------------------------------
  // The tracker

  /** One visibility notification: which section, and whether it is now intersecting. */
  datatype Visibility = Visibility(index: nat, isIntersecting: bool)

  /** The section of the last intersecting notification in a batch, if any. */
  function LastIntersecting(entries: seq<Visibility>): (r: Option<nat>)
    ensures r.Some? ==>
      exists k :: 0 <= k < |entries| && entries[k].isIntersecting && entries[k].index == r.value &&
        forall j :: k < j < |entries| ==> !entries[j].isIntersecting
    ensures r.None? <==> forall k :: 0 <= k < |entries| ==> !entries[k].isIntersecting
  {
    if entries == [] then None
    else if entries[|entries| - 1].isIntersecting then Some(entries[|entries| - 1].index)
    else LastIntersecting(entries[..|entries| - 1])
  }

  /** The sections that some notification of the batch reports intersecting. */
  function IntersectingIndices(entries: seq<Visibility>): (r: set<nat>)
  {
    set k | 0 <= k < |entries| && entries[k].isIntersecting :: entries[k].index
  }

  /** Extending a batch by one notification. */
  lemma BatchStep(entries: seq<Visibility>, k: nat)
    requires k < |entries|
    ensures LastIntersecting(entries[..k + 1]) ==
      (if entries[k].isIntersecting then Some(entries[k].index) else LastIntersecting(entries[..k]))
    ensures IntersectingIndices(entries[..k + 1]) ==
      IntersectingIndices(entries[..k]) + (if entries[k].isIntersecting then {entries[k].index} else {})
  {
    assert entries[..k + 1][..k] == entries[..k];
  }

  /** The keys that step through the sections. */
  predicate IsNextKey(key: string) { key == "ArrowDown" || key == "j" }
  predicate IsPreviousKey(key: string) { key == "ArrowUp" || key == "k" }

  class Tracker {
    /** The ids of the observed sections, in document order. */
    const sections: seq<string>
    /** The side index whose highlight the tracker drives. */
    const nav: SideIndex
    var currentIndex: nat
    /** The URL fragment last written (initially the one the page was loaded with). */
    var fragment: string
    /** The sections that have been given `section--visible`. */
    var visible: set<nat>

    ghost predicate Valid()
      reads this, nav
    {
      nav.Valid() && (currentIndex == 0 || currentIndex < |sections|)
    }

    constructor (sections: seq<string>, nav: SideIndex, hash: string)
      requires nav.Valid()
      ensures Valid()
      ensures this.sections == sections && this.nav == nav
      ensures currentIndex == 0 && fragment == hash && visible == {}
    {
      this.sections := sections;
      this.nav := nav;
      currentIndex := 0;
      fragment := hash;
      visible := {};
    }

    /**
     * One visibility notification: an intersecting section is marked
     * visible and becomes current, and its chapter number (0 for a section
     * that is not a chapter) drives the index highlight and the fragment; a
     * non-intersecting one changes nothing.
     */
    method Notify(entry: Visibility)
      requires Valid() && entry.index < |sections|
      modifies this, nav.active
      ensures Valid()
      ensures visible == old(visible) + (if entry.isIntersecting then {entry.index} else {})
      ensures !entry.isIntersecting ==>
        currentIndex == old(currentIndex) && fragment == old(fragment) && nav.active[..] == old(nav.active[..])
      ensures entry.isIntersecting ==>
        && currentIndex == entry.index && fragment == Fragment(sections[entry.index])
        && nav.active[..] == ActiveFlags(nav.items, ActiveNavId(sections[entry.index]))
    {
      if entry.isIntersecting {
        visible := visible + {entry.index};
        var id := sections[entry.index];
        var number := ChapterNumber(id);
        if number.Some? {
          nav.SetActiveNav(number.value);
          fragment := "#" + id;
        } else {
          nav.SetActiveNav(0);
          fragment := "#";
        }
        currentIndex := entry.index;
      }
    }

    /**
     * A batch of visibility notifications, handled in order. Every
     * intersecting section is marked visible; the last intersecting one
     * decides `currentIndex`, the active index item and the fragment;
     * non-intersecting notifications change nothing.
     */
    method Observe(entries: seq<Visibility>)
      requires Valid()
      requires forall k :: 0 <= k < |entries| ==> entries[k].index < |sections|
      modifies this, nav.active
      ensures Valid()
      ensures visible == old(visible) + IntersectingIndices(entries)
      ensures LastIntersecting(entries).None? ==>
        currentIndex == old(currentIndex) && fragment == old(fragment) && nav.active[..] == old(nav.active[..])
      ensures LastIntersecting(entries).Some? ==>
        var j := LastIntersecting(entries).value;
        && currentIndex == j && fragment == Fragment(sections[j])
        && nav.active[..] == ActiveFlags(nav.items, ActiveNavId(sections[j]))
    {
      var k := 0;
      while k < |entries|
        invariant 0 <= k <= |entries|
        invariant Valid()
        invariant visible == old(visible) + IntersectingIndices(entries[..k])
        invariant LastIntersecting(entries[..k]).None? ==>
          currentIndex == old(currentIndex) && fragment == old(fragment) && nav.active[..] == old(nav.active[..])
        invariant LastIntersecting(entries[..k]).Some? ==>
          var j := LastIntersecting(entries[..k]).value;
          && currentIndex == j && fragment == Fragment(sections[j])
          && nav.active[..] == ActiveFlags(nav.items, ActiveNavId(sections[j]))
      {
        BatchStep(entries, k);
        Notify(entries[k]);
        k := k + 1;
      }
      assert entries[..k] == entries;
    }

    /**
     * A key press. ArrowDown/j asks for a smooth scroll to the next section
     * unless the last is current; ArrowUp/k to the previous unless the first
     * is current; both suppress the default action; other keys do nothing.
     * No key changes the tracker's state.
     */
    method KeyDown(key: string) returns (scroll: Option<nat>, prevented: bool)
      requires Valid()
      ensures prevented <==> IsNextKey(key) || IsPreviousKey(key)
      ensures IsNextKey(key) ==>
        (scroll.Some? <==> currentIndex + 1 < |sections|) && (scroll.Some? ==> scroll.value == currentIndex + 1)
      ensures IsPreviousKey(key) ==>
        (scroll.Some? <==> currentIndex > 0) && (scroll.Some? ==> scroll.value == currentIndex - 1)
      ensures !IsNextKey(key) && !IsPreviousKey(key) ==> scroll.None?
      ensures scroll.Some? ==> scroll.value < |sections|
    {
      scroll, prevented := None, false;
      if key == "ArrowDown" || key == "j" {
        prevented := true;
        if currentIndex < |sections| - 1 {
          scroll := Some(currentIndex + 1);
        }
      } else if key == "ArrowUp" || key == "k" {
        prevented := true;
        if currentIndex > 0 {
          scroll := Some(currentIndex - 1);
        }
      }
    }
  }
}
