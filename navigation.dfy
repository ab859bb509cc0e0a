/**
 * The side index (src/components/navigation.js): one item per chapter, with a
 * group label before each chapter whose part differs from the previous one;
 * an open/closed flag for narrow screens; and the "active" highlight that
 * follows the reading position.
 */
module Navigation {
  import opened Wrappers
  import opened Chapter

  /** What the index list holds, in document order. */
  datatype IndexEntry = GroupLabel(part: string) | Item(id: nat)

  /**
   * The entries the label loop appends for `chapters` when the part in force
   * is `currentPart`: a label when the chapter's part changes, then the item.
   */
  function IndexEntries(chapters: seq<Chapter>, currentPart: string): (r: seq<IndexEntry>)
    ensures |chapters| <= |r| <= 2 * |chapters|
  {
    if chapters == [] then []
    else
      var ch := chapters[0];
      (if ch.part != currentPart then [GroupLabel(ch.part)] else [])
      + [Item(ch.id)] + IndexEntries(chapters[1..], ch.part)
  }

  /** What one chapter adds to the index when `currentPart` is in force. */
  function Emitted(ch: Chapter, currentPart: string): (r: seq<IndexEntry>)
  {
    (if ch.part != currentPart then [GroupLabel(ch.part)] else []) + [Item(ch.id)]
  }

  lemma IndexEntriesStep(chapters: seq<Chapter>, i: nat, currentPart: string)
    requires i < |chapters|
    ensures IndexEntries(chapters[i..], currentPart)
      == Emitted(chapters[i], currentPart) + IndexEntries(chapters[i + 1..], chapters[i].part)
  {
    assert chapters[i..][1..] == chapters[i + 1..];
  }

  /** The label loop of `createNavigation`, which carries `currentPart` from '' on. */
  method CreateIndex(chapters: seq<Chapter>) returns (entries: seq<IndexEntry>)
    ensures entries == IndexEntries(chapters, "")
  {
    entries := [];
    var currentPart := "";
    var i := 0;
    while i < |chapters|
      invariant 0 <= i <= |chapters|
      invariant IndexEntries(chapters, "") == entries + IndexEntries(chapters[i..], currentPart)
    {
      var ch := chapters[i];
      AppendStep(chapters, i, currentPart, entries);
      if ch.part != currentPart {
        currentPart := ch.part;
        entries := entries + [GroupLabel(currentPart)];
      }
      entries := entries + [Item(ch.id)];
      i := i + 1;
    }
  }

  /** One turn of the label loop keeps the entries still to come in step. */
  lemma AppendStep(chapters: seq<Chapter>, i: nat, currentPart: string, entries: seq<IndexEntry>)
    requires i < |chapters|
    ensures entries + IndexEntries(chapters[i..], currentPart)
      == (if chapters[i].part != currentPart
          then entries + [GroupLabel(chapters[i].part)] + [Item(chapters[i].id)]
          else entries + [Item(chapters[i].id)])
         + IndexEntries(chapters[i + 1..], chapters[i].part)
  {
    IndexEntriesStep(chapters, i, currentPart);
  }

  /** Reads an index back: each item, with the part of the label last seen before it. */
  function Ungroup(entries: seq<IndexEntry>, currentPart: string): (r: seq<(nat, string)>)
  {
    if entries == [] then []
    else match entries[0]
      case GroupLabel(p) => Ungroup(entries[1..], p)
      case Item(id) => [(id, currentPart)] + Ungroup(entries[1..], currentPart)
  }

  /** The id and part of every chapter, in order. */
  function IdsAndParts(chapters: seq<Chapter>): (r: seq<(nat, string)>)
    ensures |r| == |chapters|
    ensures forall i :: 0 <= i < |r| ==> r[i] == (chapters[i].id, chapters[i].part)
  {
    seq(|chapters|, i requires 0 <= i < |chapters| => (chapters[i].id, chapters[i].part))
  }

  /**
   * No label is superfluous: each names a part different from the one in
   * force and stands immediately before an item.
   */
  predicate NoRedundantLabel(entries: seq<IndexEntry>, currentPart: string)
  {
    if entries == [] then true
    else match entries[0]
      case GroupLabel(p) =>
        p != currentPart && |entries| > 1 && entries[1].Item? && NoRedundantLabel(entries[1..], p)
      case Item(_) => NoRedundantLabel(entries[1..], currentPart)
  }

  /** Every chapter yields exactly one item, in input order, under the right part. */
  lemma {:induction false} UngroupIndexEntries(chapters: seq<Chapter>, currentPart: string)
    ensures Ungroup(IndexEntries(chapters, currentPart), currentPart) == IdsAndParts(chapters)
    decreases |chapters|
  {
    if chapters != [] {
      var ch := chapters[0];
      var rest := IndexEntries(chapters[1..], ch.part);
      UngroupIndexEntries(chapters[1..], ch.part);
      var tail := [Item(ch.id)] + rest;
      assert tail[1..] == rest;
      if ch.part != currentPart {
        assert IndexEntries(chapters, currentPart) == [GroupLabel(ch.part)] + tail;
        assert ([GroupLabel(ch.part)] + tail)[1..] == tail;
      } else {
        assert IndexEntries(chapters, currentPart) == tail;
      }
      assert IdsAndParts(chapters) == [(ch.id, ch.part)] + IdsAndParts(chapters[1..]);
    }
  }

  /** A label is emitted only where the part changes. */
  lemma {:induction false} IndexEntriesNoRedundantLabel(chapters: seq<Chapter>, currentPart: string)
    ensures NoRedundantLabel(IndexEntries(chapters, currentPart), currentPart)
    decreases |chapters|
  {
    if chapters != [] {
      var ch := chapters[0];
      var rest := IndexEntries(chapters[1..], ch.part);
      IndexEntriesNoRedundantLabel(chapters[1..], ch.part);
      var tail := [Item(ch.id)] + rest;
      assert tail[1..] == rest;
      if ch.part != currentPart {
        assert IndexEntries(chapters, currentPart) == [GroupLabel(ch.part)] + tail;
        assert ([GroupLabel(ch.part)] + tail)[1..] == tail;
      } else {
        assert IndexEntries(chapters, currentPart) == tail;
      }
    }
  }

  /**
   * The two properties above determine the index: any list without a
   * superfluous label that reads back to the chapters' ids and parts is the
   * one the loop builds.
   */
  lemma {:induction false} IndexEntriesUnique(entries: seq<IndexEntry>, chapters: seq<Chapter>, currentPart: string)
    requires NoRedundantLabel(entries, currentPart)
    requires Ungroup(entries, currentPart) == IdsAndParts(chapters)
    ensures entries == IndexEntries(chapters, currentPart)
    decreases |entries|, 1
  {
    if entries == [] {
      assert |IdsAndParts(chapters)| == 0;
    } else if entries[0].Item? {
      UniqueFromItem(entries, chapters, currentPart);
    } else {
      UniqueFromLabel(entries, chapters, currentPart);
    }
  }

  /** `IndexEntriesUnique` when the listing starts with an item. */
  lemma {:induction false} UniqueFromItem(entries: seq<IndexEntry>, chapters: seq<Chapter>, currentPart: string)
    requires entries != [] && entries[0].Item?
    requires NoRedundantLabel(entries, currentPart)
    requires Ungroup(entries, currentPart) == IdsAndParts(chapters)
    ensures entries == IndexEntries(chapters, currentPart)
    decreases |entries|, 0
  {
    var id := entries[0].id;
    assert Ungroup(entries, currentPart)[0] == (id, currentPart);
    var ch := chapters[0];
    assert IdsAndParts(chapters)[0] == (ch.id, ch.part);
    assert IdsAndParts(chapters[1..]) == IdsAndParts(chapters)[1..];
    IndexEntriesUnique(entries[1..], chapters[1..], currentPart);
    IndexEntriesStep(chapters, 0, currentPart);
    assert chapters[0..] == chapters;
    assert entries == [Item(ch.id)] + entries[1..];
  }

  /** `IndexEntriesUnique` when the listing starts with a label. */
  lemma {:induction false} UniqueFromLabel(entries: seq<IndexEntry>, chapters: seq<Chapter>, currentPart: string)
    requires entries != [] && entries[0].GroupLabel?
    requires NoRedundantLabel(entries, currentPart)
    requires Ungroup(entries, currentPart) == IdsAndParts(chapters)
    ensures entries == IndexEntries(chapters, currentPart)
    decreases |entries|, 0
  {
    var p := entries[0].part;
    var after := entries[1..];
    assert after[0].Item?;
    var id := after[0].id;
    assert Ungroup(entries, currentPart) == Ungroup(after, p);
    assert Ungroup(after, p)[0] == (id, p);
    var ch := chapters[0];
    assert IdsAndParts(chapters)[0] == (ch.id, ch.part);
    assert IdsAndParts(chapters[1..]) == IdsAndParts(chapters)[1..];
    IndexEntriesUnique(after[1..], chapters[1..], p);
    IndexEntriesStep(chapters, 0, currentPart);
    assert chapters[0..] == chapters;
    assert entries == [GroupLabel(ch.part)] + [Item(ch.id)] + after[1..];
  }

  /** Where a click inside the index landed. */
  datatype ClickTarget = OnItem(id: nat) | OnToolButton | Elsewhere

  /** The `nav` element: its items, its open flag and its active highlight. */
  class SideIndex {
    /** The chapter number of each `.nav__item`, in document order. */
    const items: seq<nat>
    /** Whether each item carries `nav__item--active`. */
    const active: array<bool>
    /** Whether the `nav` carries `nav--open`. */
    var open: bool

    ghost predicate Valid()
      reads this
    {
      active.Length == |items|
    }

    /** The index for `chapters`: one item per chapter, closed, nothing active. */
    constructor (chapters: seq<Chapter>)
      ensures Valid() && fresh(active)
      ensures |items| == |chapters| && forall i :: 0 <= i < |items| ==> items[i] == chapters[i].id
      ensures !open && forall i :: 0 <= i < active.Length ==> !active[i]
      ensures (forall i, j :: 0 <= i < j < |chapters| ==> chapters[i].id != chapters[j].id) ==> Distinct(items)
    {
      items := seq(|chapters|, i requires 0 <= i < |chapters| => chapters[i].id);
      active := new bool[|chapters|](_ => false);
      open := false;
    }

    /** The hamburger toggle flips `nav--open`. */
    method Toggle()
      modifies this
      ensures open == !old(open)
    {
      open := !open;
    }

    /**
     * A click inside the index. On an item, its own listener asks for a
     * smooth scroll to section "chapter-<id>" when that section exists; a
     * click on an item or a tool button then closes the index; any other
     * click leaves it as it was.
     */
    method Click(target: ClickTarget, sectionIds: seq<string>) returns (scroll: Option<string>)
      modifies this
      ensures scroll.Some? <==> target.OnItem? && SectionId(target.id) in sectionIds
      ensures scroll.Some? ==> scroll.value == SectionId(target.id)
      ensures open == if target.Elsewhere? then old(open) else false
    {
      scroll := None;
      if target.OnItem? {
        var id := SectionId(target.id);
        if id in sectionIds {
          scroll := Some(id);
        }
        open := false;
      }
      if target.OnItem? || target.OnToolButton? {
        open := false;
      }
    }

    /** Marks exactly the items whose chapter number equals `chapterId`. */
    method SetActiveNav(chapterId: int)
      requires Valid()
      modifies active
      ensures forall i :: 0 <= i < active.Length ==> (active[i] <==> items[i] == chapterId)
    {
      var i := 0;
      while i < active.Length
        invariant 0 <= i <= active.Length
        invariant forall k :: 0 <= k < i ==> (active[k] <==> items[k] == chapterId)
      {
        active[i] := items[i] == chapterId;
        i := i + 1;
      }
    }
  }

  /** The flags `SetActiveNav(chapterId)` leaves on `items`. */
  function ActiveFlags(items: seq<nat>, chapterId: int): (flags: seq<bool>)
    ensures |flags| == |items|
    ensures chapterId !in items ==> forall i :: 0 <= i < |flags| ==> !flags[i]
    ensures chapterId in items ==> exists i :: 0 <= i < |flags| && flags[i]
  {
    var flags := seq(|items|, i requires 0 <= i < |items| => items[i] == chapterId);
    assert chapterId in items ==> exists i :: 0 <= i < |items| && items[i] == chapterId && flags[i];
    flags
  }

  predicate Distinct(items: seq<nat>) {
    forall i, j :: 0 <= i < j < |items| ==> items[i] != items[j]
  }

  /**
   * With distinct chapter numbers, exactly the item for `chapterId` is
   * active when there is one, and none otherwise (so `setActiveNav(0)`
   * clears the highlight, chapter numbers being positive).
   */
  lemma ActiveFlagsExact(items: seq<nat>, chapterId: int, i: nat)
    requires Distinct(items) && i < |items|
    ensures ActiveFlags(items, chapterId)[i] <==> items[i] == chapterId
    ensures ActiveFlags(items, chapterId)[i] ==>
      forall j :: 0 <= j < |items| && j != i ==> !ActiveFlags(items, chapterId)[j]
  {
    if ActiveFlags(items, chapterId)[i] {
      forall j | 0 <= j < |items| && j != i
        ensures !ActiveFlags(items, chapterId)[j]
      {
        if j < i { assert items[j] != items[i]; } else { assert items[i] != items[j]; }
      }
    }
  }

  /** With distinct chapter numbers at most one item is active. */
  lemma ActiveFlagsAtMostOne(items: seq<nat>, chapterId: int)
    requires Distinct(items)
    ensures forall i, j ::
      0 <= i < |items| && 0 <= j < |items| && ActiveFlags(items, chapterId)[i] && ActiveFlags(items, chapterId)[j] ==> i == j
  {
    forall i, j | 0 <= i < |items| && 0 <= j < |items| && ActiveFlags(items, chapterId)[i] && ActiveFlags(items, chapterId)[j]
      ensures i == j
    {
      ActiveFlagsExact(items, chapterId, i);
    }
  }

  /** With positive chapter numbers, `setActiveNav(0)` leaves no item active. */
  lemma ActiveFlagsZero(items: seq<nat>)
    requires forall i :: 0 <= i < |items| ==> items[i] > 0
    ensures forall i :: 0 <= i < |items| ==> !ActiveFlags(items, 0)[i]
  {
  }
}
