/**
 * One chapter of the text and its section (src/components/chapter.js): the
 * section's id format, and the single replaceable handler that a click or an
 * Enter/Space key press on the chapter text hands the chapter to.
 */
module Chapter {
  import opened Wrappers
  import opened Numerals

  /** A chapter record; `annotation` is the optional commentary. */
  datatype Chapter = Chapter(id: nat, title: string, part: string, text: string, annotation: Option<string>)

  const SectionPrefix: string := "chapter-"

  /** The id of the section that shows chapter `id`: "chapter-" and the decimal id. */
  function SectionId(id: nat): (s: string)
    ensures |s| > |SectionPrefix| && s[..|SectionPrefix|] == SectionPrefix
    ensures AllDigits(s[|SectionPrefix|..]) && ValueOf(s[|SectionPrefix|..]) == id
    ensures s[|SectionPrefix|] != '0' || |s| == |SectionPrefix| + 1
  {
    ValueOfDecimal(id);
    assert (SectionPrefix + Decimal(id))[|SectionPrefix|..] == Decimal(id);
    SectionPrefix + Decimal(id)
  }

  /** Different chapters get different section ids. */
  lemma SectionIdInjective(m: nat, n: nat)
    requires SectionId(m) == SectionId(n)
    ensures m == n
  {
    var p := |SectionPrefix|;
    assert SectionId(m)[p..] == SectionId(n)[p..];
  }

  /** The call a chapter activation makes: the registered handler, given the chapter. */
  datatype Activation<H> = Activation(handler: H, chapter: Chapter)

  /** The keys that activate the chapter text from the keyboard. */
  predicate IsActivationKey(key: string) {
    key == "Enter" || key == " "
  }

  /**
   * The module-level `onChapterClick` slot and the click and keydown
   * listeners that read it.
   */
  class ChapterClicks<H> {
    var onChapterClick: Option<H>

    /** Before any handler is set the slot is empty. */
    constructor ()
      ensures onChapterClick == None
    {
      onChapterClick := None;
    }

    /** The last handler set replaces any earlier one. */
    method SetChapterClickHandler(handler: Option<H>)
      modifies this
      ensures onChapterClick == handler
    {
      onChapterClick := handler;
    }

    /** A click on the chapter text calls the handler with the chapter iff one is set. */
    method Click(chapter: Chapter) returns (call: Option<Activation<H>>)
      ensures call.Some? <==> onChapterClick.Some?
      ensures call.Some? ==> call.value.handler == onChapterClick.value && call.value.chapter == chapter
    {
      call := None;
      if onChapterClick.Some? {
        call := Some(Activation(onChapterClick.value, chapter));
      }
    }

    /**
     * A key press on the chapter text: Enter and Space suppress the default
     * action and call the handler when one is set; other keys do nothing.
     */
    method KeyDown(key: string, chapter: Chapter) returns (call: Option<Activation<H>>, prevented: bool)
      ensures prevented <==> IsActivationKey(key)
      ensures call.Some? <==> IsActivationKey(key) && onChapterClick.Some?
      ensures call.Some? ==> call.value.handler == onChapterClick.value && call.value.chapter == chapter
    {
      call, prevented := None, false;
      if key == "Enter" || key == " " {
        prevented := true;
        if onChapterClick.Some? {
          call := Some(Activation(onChapterClick.value, chapter));
        }
      }
    }
  }
}
