# Tao Te Ching reader: event logic in Dafny

This project models the interactive core of a single-page reader for the 81
chapters of the Tao Te Ching. It has five parts:

- **The commentary drawer** (`Drawer`, with the text pipeline in `Annotation`).
  - A bottom sheet opened for one chapter; it shows that chapter's commentary.
  - It closes from its button, the backdrop or Escape.
  - On touch screens it is dismissed by dragging its top 60 px down. The release decision is `deltaY > 100 || (deltaY > 50 && velocity > 0.5)`.
  - The commentary is escaped as HTML text, split into `<p>` blocks at every run of two or more newlines, and each remaining newline becomes `<br>`. Blank or missing commentary shows a placeholder.
- **The edge quick-jump** (`EdgeNav`): a strip of the numbers 1..81 on the right edge.
  - Holding a finger for 500 ms reveals it.
  - Sliding picks a chapter: the strip is cut into 81 equal bands, clamped at both ends. The picked item is highlighted "active" and its neighbours at distance 1 or 2 "near".
  - Lifting the finger scrolls to the picked chapter.
- **The position tracker** (`Scroll`).
  - Visibility notifications set the current section.
  - `/chapter-(\d+)/` is parsed out of the section id to drive the side index highlight and the URL fragment.
  - ArrowDown/`j` and ArrowUp/`k` step to the adjacent section, bounds-checked.
  - A fragment naming an existing element is scrolled to once on load.
- **The side index** (`Navigation`).
  - The label loop emits a group label whenever a chapter's part changes, then one item per chapter.
  - A toggle opens and closes it, and clicks on an item or tool button close it.
  - `setActiveNav` highlights exactly the matching item.
- **Chapter activation** (`Chapter`).
  - Each section's id is `chapter-<id>`.
  - A single replaceable handler slot is called on click, or on Enter/Space.

`Numerals` prints and reads decimal numbers (`${n}` and `Number(digits)`). `Reader` puts the drawer and the quick-jump side by side. `Wrappers` holds `Option`.

State that the handlers change in place is modelled as a class per component:
- `Drawer.Drawer`
- `EdgeNav.EdgeNav`
- `Scroll.Tracker`
- `Navigation.SideIndex`
- `Chapter.ChapterClicks`

Each handler is a method whose `ensures` gives the whole new state. DOM effects are fields or results:
- class names are booleans;
- item highlights are `array<bool>`;
- scrolls and URL fragments are returned or stored as strings.

Timers are explicit. Arming one appends it to a pending list, `FireTimer` is the event "the oldest pending timer runs", and `clearTimeout` removes it. Clock readings, pixel positions and the set of element ids in the document are parameters.

Behaviour as written, which the model follows:
- `openDrawer` sends no `drawer-state-change` event (src/components/drawer.js:67-82). The quick-jump's disarm handler (src/components/edge-nav.js:200-211) is therefore never triggered by the drawer. A long press armed before the drawer opens still jumps on release (`Reader.JumpAfterDrawerOpens`). The only guard in force is the open-class check at touchstart (`Reader.EdgeIgnoredWhileDrawerOpen`).
- A drag that snaps back re-adds the open class but keeps the inline transform. Only `closeDrawer` clears the transform (`Drawer.SnapBackKeepsOffset`).
- Escape during a drag closes the drawer while the drag stays tracked. A release that does not meet the close rule then re-adds `drawer--open` to the closed drawer (`Drawer.EscapeDuringDrag`); one that meets it calls `closeDrawer` and the class stays off.
- `handleTouchStart` arms a new timer without clearing an earlier one, and touchend clears only the latest. A second touchstart before touchend leaves a timer that later shows the strip with no gesture active (`EdgeNav.OrphanTimer`).
- The timer callback retargets from the touch-start Y, not the finger's latest position (`EdgeNav.TargetFromTouchStart`).
- The stepping keys are handled while the drawer is open too: nothing in src/components/scroll.js:33-45 looks at the drawer.

## Model

| member | source | states |
|---|---|---|
| Numerals.Decimal | src/components/chapter.js:6 | the printed form of a chapter number is a non-empty run of digits, with no leading zero unless it is "0" |
| Numerals.IntText | src/components/edge-nav.js:158 | a non-negative integer prints as digits that read back as it, with no leading zero unless it is "0"; a negative one prints as '-' and digits without a leading zero that read back as its magnitude |
| Numerals.ValueOfDecimal | src/components/scroll.js:16 | reading back the printed digits of n gives n |
| Numerals.DecimalValueOf | src/components/scroll.js:14-16 | a digit run without a leading zero is exactly the printed form of its value |
| Numerals.ValueOfPositive | src/components/scroll.js:16 | a digit run that does not start with '0' reads as at least 1 |
| Numerals.DecimalInjective | src/components/chapter.js:6 | different numbers print differently |
| Chapter.SectionId | src/components/chapter.js:6 | a section id is "chapter-" followed by digits that read back as the chapter's id, with no leading zero unless the id is 0 |
| Chapter.SectionIdInjective | src/components/chapter.js:6 | different chapters get different section ids |
| Chapter.ChapterClicks.constructor | src/components/chapter.js:1 | the handler slot starts empty |
| Chapter.ChapterClicks.SetChapterClickHandler | src/components/chapter.js:37-39 | the slot holds exactly the argument, replacing any earlier handler; `None` (null) empties it |
| Chapter.ChapterClicks.Click | src/components/chapter.js:18-22 | a click calls the registered handler with this chapter iff a handler is set |
| Chapter.ChapterClicks.KeyDown | src/components/chapter.js:25-32 | only Enter and Space are consumed, and they call the handler with this chapter iff one is set; other keys do nothing |
| Navigation.IndexEntries | src/components/navigation.js:29-49 | the listing has at least one and at most two entries per chapter |
| Navigation.CreateIndex | src/components/navigation.js:28-49 | the label loop, carrying the current part from '' on, produces exactly `IndexEntries(chapters, "")` |
| Navigation.UngroupIndexEntries | src/components/navigation.js:29-49 | every chapter yields exactly one item, in input order, under the label of its own part |
| Navigation.IndexEntriesNoRedundantLabel | src/components/navigation.js:31-37 | every label names a part different from the one in force and stands right before an item |
| Navigation.IndexEntriesUnique | src/components/navigation.js:29-49 | any listing with one item per chapter in order, under the right parts and with no redundant label, is the one the loop produces |
| Navigation.SideIndex.constructor | src/components/navigation.js:39-42 | one item per chapter carrying its number, the index closed, no item active; distinct chapter ids give distinct item numbers |
| Navigation.SideIndex.Toggle | src/components/navigation.js:17-19 | the toggle flips the open flag |
| Navigation.SideIndex.Click | src/components/navigation.js:22-47 | an item click scrolls to `chapter-<id>` iff that section exists (lines 43-47); a click on an item or a tool button closes the index, and any other click leaves it as it was (lines 22-26) |
| Navigation.SideIndex.SetActiveNav | src/components/navigation.js:84-93 | an item is active iff its chapter number equals the argument |
| Navigation.ActiveFlags | src/components/navigation.js:84-93 | no item is active when no item carries the argument, and some item is active when one does |
| Navigation.ActiveFlagsAtMostOne | src/components/navigation.js:84-93 | with distinct chapter numbers, no two items are active together |
| Navigation.ActiveFlagsZero | src/components/navigation.js:84-93 | with positive chapter numbers, `setActiveNav(0)` (sent for the title and colophon) leaves no item active |
| Navigation.ActiveFlagsExact | src/components/navigation.js:84-93 | with distinct chapter numbers at most one item is active, and it is the one for the argument |
| Scroll.FirstMatch | src/components/scroll.js:14 | finds the leftmost position where "chapter-" followed by a digit occurs, or reports that there is none |
| Scroll.ChapterNumber | src/components/scroll.js:14-16 | absent iff the pattern matches nowhere in the id; otherwise the value of the digits captured at the leftmost match |
| Scroll.ChapterNumberOfSectionId | src/components/scroll.js:14-16 | the id written for chapter n parses back to n |
| Scroll.ShortIdsDoNotMatch | src/components/scroll.js:14-15 | ids no longer than "chapter-" (such as "title") do not match |
| Scroll.ActiveNavId | src/components/scroll.js:15-20 | a matched id publishes its parsed number; an unmatched one publishes 0 |
| Scroll.Fragment | src/components/scroll.js:18-21 | the fragment starts with '#', and is followed by the id iff the id names a chapter, by nothing otherwise |
| Scroll.PublishedForSectionId | src/components/scroll.js:15-18 | a chapter section publishes its own number to the index and "#" plus its own id as fragment |
| Scroll.ReadingOrderPublishes | src/main.js:19-37 | in the page's section order, positions 1..81 publish chapters 1..81, and the title and colophon publish 0 and "#" |
| Scroll.ReadingOrderDistinct | src/main.js:19-37 | the 83 section ids of the page are pairwise distinct |
| Scroll.RestoreTarget | src/components/scroll.js:48-54 | a restore target is a non-empty existing element id equal to the hash minus its first character; there is none when the hash has at most one character or names no element |
| Scroll.RestoreWrittenFragment | src/components/scroll.js:48-54 | on reload, the fragment written for a chapter section scrolls back to that section, and the bare "#" written for other sections scrolls nowhere |
| Scroll.LastIntersecting | src/components/scroll.js:10-24 | the result is the section of an intersecting notification after which no notification intersects, and it is absent iff no notification intersects |
| Scroll.Tracker.constructor | src/components/scroll.js:5 | the tracker starts at section 0 with the fragment the page was loaded with |
| Scroll.Tracker.Notify | src/components/scroll.js:11-23 | an intersecting section becomes current, is marked visible and sets the highlight and fragment from its id; a non-intersecting one changes nothing |
| Scroll.Tracker.Observe | src/components/scroll.js:9-26 | over a batch, the last intersecting notification decides the current section, highlight and fragment; a batch without one leaves them unchanged |
| Scroll.Tracker.KeyDown | src/components/scroll.js:33-45 | next keys request section `currentIndex+1` iff it exists; previous keys request `currentIndex-1` iff it exists; other keys request nothing; no key changes the tracker |
| Annotation.Trim | src/components/drawer.js:102 | `trim()` gives the part of the text between a blank prefix and a blank suffix, and that part neither starts nor ends with whitespace |
| Annotation.TrimEmptyIffBlank | src/components/drawer.js:102 | `trim()` leaves nothing exactly when every character is ECMAScript whitespace or a line terminator |
| Annotation.Escape | src/components/drawer.js:126-130 | escaped text holds no '<', '>' or U+00A0 and is never shorter than its input |
| Annotation.EscapeRoundTrip | src/components/drawer.js:126-130 | decoding the four character references of escaped text gives back the original |
| Annotation.EscapeConcat | src/components/drawer.js:126-130 | escaping works character by character: it distributes over concatenation |
| Annotation.EscapePlain | src/components/drawer.js:126-130 | text without '&', U+00A0, '<' or '>' is written unchanged |
| Annotation.SplitParagraphs | src/components/drawer.js:121 | `split(/\n\n+/)` yields at least one piece, and the first is a prefix of the text |
| Annotation.SplitNoBreak | src/components/drawer.js:121 | text without a blank line stays one paragraph |
| Annotation.SplitAtBreak | src/components/drawer.js:121 | the text before the first run of two or more newlines is the first paragraph, and the rest is split on |
| Annotation.SplitDecompose | src/components/drawer.js:121 | a text with a blank line is its first paragraph, a newline run of length at least 2, and the rest |
| Annotation.SplitCanonical | src/components/drawer.js:121 | no paragraph holds a blank line; only the last may end, and only the first may start, with a newline; only the first and last may be empty |
| Annotation.SplitJoin | src/components/drawer.js:121 | rejoining canonical paragraphs with blank lines and splitting again gives them back |
| Annotation.SplitEscape | src/components/drawer.js:120-121 | escaping before splitting gives the escaped paragraphs of the original text: escaping never creates or removes a separator |
| Annotation.LineBreaks | src/components/drawer.js:122 | after `replace(/\n/g, '<br>')` no newline is left |
| Annotation.Paragraphs | src/components/drawer.js:122-123 | the joined `<p>` blocks hold no newline |
| Annotation.FormatAnnotation | src/components/drawer.js:118-124 | formatted commentary holds no newline |
| Annotation.ParseParagraphsRoundTrip | src/components/drawer.js:122-123 | the `<p>` blocks written for escaped paragraphs read back to those paragraphs |
| Annotation.FormatRoundTrip | src/components/drawer.js:118-124 | formatted commentary reads back to exactly the paragraphs of the source text, with single newlines kept |
| Annotation.FormatExample | src/components/drawer.js:118-124 | "A\nB\n\nC" becomes two paragraphs, the first with a line break between A and B |
| Annotation.RenderAnnotation | src/components/drawer.js:99-116 | the placeholder shows iff the commentary is missing or blank; otherwise the commentary is shown, formatted so that it reads back to its paragraphs |
| Drawer.ShouldClose | src/components/drawer.js:186-190 | a drag over 100 px always closes, and nothing at or under 50 px closes, whatever the speed |
| Drawer.ShouldCloseWithoutDivision | src/components/drawer.js:186-190 | the release closes iff the drag is over 100 px, or over 50 px and faster than 0.5 px/ms, with an elapsed 0 ms counted as 1 ms |
| Drawer.ReleaseExamples | src/components/drawer.js:186-195 | 120 px closes; 60 px at 0.6 px/ms closes; 60 px at 0.2 px/ms snaps back; 30 px never closes |
| Drawer.Drawer.constructor | src/components/drawer.js:1-11 | no element, closed, no chapter, not dragging, positions 0 |
| Drawer.Drawer.Create | src/components/drawer.js:13-58 | a fresh drawer exists, closed and empty, without inline transform |
| Drawer.Drawer.Open | src/components/drawer.js:67-82 | with an element and a chapter: open, that chapter current, its commentary rendered, the page locked on narrow viewports; otherwise no change |
| Drawer.Drawer.UpdateContent | src/components/drawer.js:99-116 | re-renders the content for a chapter and changes nothing else |
| Drawer.Drawer.Close | src/components/drawer.js:84-97 | from any state with an element it ends closed, with no chapter and no inline transform, and the page scrolls again; so it is idempotent |
| Drawer.Drawer.KeyDown | src/components/drawer.js:60-65 | Escape closes the drawer iff it is open; any other key, or Escape while closed, changes nothing |
| Drawer.Drawer.TouchStart | src/components/drawer.js:144-161 | a drag starts, with its start position and time recorded, iff the drawer is open and the touch is within 60 px of its top; otherwise nothing changes |
| Drawer.Drawer.TouchMove | src/components/drawer.js:164-177 | while dragging, the transform becomes 0.6 × the travel when it is downward, and otherwise stays as it was |
| Drawer.Drawer.TouchEnd | src/components/drawer.js:180-199 | no-op unless dragging; the drawer closes iff `ShouldClose` holds, and otherwise the open class is re-added with the transform kept; the drag ends with both positions 0 |
| Drawer.Drawer.TouchCancel | src/components/drawer.js:202-211 | no-op unless dragging; the drag ends, the drawer snaps back open and never closes |
| Drawer.SnapBackKeepsOffset | src/components/drawer.js:192-195 | after a 40 px drag released in 300 ms the drawer is still open and keeps a 24 px offset |
| Drawer.EscapeDuringDrag | src/components/drawer.js:60-65 | Escape during a drag followed by the release leaves a closed drawer carrying the open class |
| EdgeNav.Clamp | src/components/edge-nav.js:186 | the clamped index lies in 0..80 and an index already in range is kept |
| EdgeNav.TargetChapter | src/components/edge-nav.js:176-187 | the target is always a chapter in 1..81 |
| EdgeNav.TargetBand | src/components/edge-nav.js:181-187 | a touch in the k-th of 81 equal bands of the strip targets chapter k |
| EdgeNav.TargetAtOrAboveTop | src/components/edge-nav.js:186 | a touch at or above the strip's top targets chapter 1 |
| EdgeNav.TargetAtOrBelowBottom | src/components/edge-nav.js:186 | a touch at or below the strip's bottom targets chapter 81 |
| EdgeNav.TargetMonotone | src/components/edge-nav.js:181-187 | moving the finger down never moves the target up |
| EdgeNav.TargetMidpoint | src/components/edge-nav.js:181-187 | the middle of the strip targets chapter 41 |
| EdgeNav.NearWindow | src/components/edge-nav.js:85-93 | the near highlight covers the neighbours that exist at distance 1 or 2: four items for chapters 3..79, three next to an end, two at an end |
| EdgeNav.Cleared | src/components/edge-nav.js:148-150 | clearing a handle removes exactly the pending timers with that handle |
| EdgeNav.LastChapter | src/components/edge-nav.js:62-72 | present iff some entry is intersecting with a non-zero parsed chapter; then it is the chapter of such an entry after which no entry retargets, and non-zero |
| EdgeNav.EdgeNav.constructor | src/components/edge-nav.js:4-8 | the strip starts hidden and inactive, on chapter 1, with no timer and no highlight |
| EdgeNav.EdgeNav.Init | src/components/edge-nav.js:15-24 | the strip is installed unless the device has no touch and the viewport is wider than 768 px |
| EdgeNav.EdgeNav.UpdateActiveItem | src/components/edge-nav.js:79-95 | exactly the item equal to the chapter is active, items at distance 1 or 2 are near, none is both, and the rest have neither |
| EdgeNav.EdgeNav.UpdateTargetFromTouch | src/components/edge-nav.js:176-192 | the current chapter becomes the one under the touch, and the highlight follows it |
| EdgeNav.EdgeNav.TouchStart | src/components/edge-nav.js:117-131 | while the drawer carries its open class nothing changes; otherwise the gesture is active, the long press is off and a new timer is armed while older ones stay pending |
| EdgeNav.EdgeNav.FireTimer | src/components/edge-nav.js:126-130 | the timer turns the long press on, shows the strip and retargets from its own touch-start Y |
| EdgeNav.EdgeNav.TouchMove | src/components/edge-nav.js:133-142 | retargets iff the gesture is active and the long press has fired; nothing else changes |
| EdgeNav.EdgeNav.TouchEnd | src/components/edge-nav.js:144-165 | no-op when inactive; otherwise it clears the latest timer and ends inactive, without long press, strip hidden, and requests `chapter-<n>` iff the long press had fired, n is non-zero and that section exists |
| EdgeNav.EdgeNav.DrawerStateChange | src/components/edge-nav.js:200-211 | an open notification cancels the latest timer and ends the gesture; any other notification changes nothing |
| EdgeNav.EdgeNav.ObserveChapters | src/components/edge-nav.js:62-72 | the last intersecting entry with a non-zero chapter sets the current chapter and the highlight; without one nothing changes |
| EdgeNav.OrphanTimer | src/components/edge-nav.js:126 | after two touchstarts and one touchend, the first timer still runs and shows the strip with no gesture active |
| EdgeNav.TargetFromTouchStart | src/components/edge-nav.js:129 | a touch at the top moved to the bottom before the timer runs still targets chapter 1 |
| Reader.EdgeTargetIsSection | src/components/edge-nav.js:158 | the quick-jump's target `chapter-${n}` is the id of chapter n's section (src/components/chapter.js:6), and for n in 1..81 one of the page's sections |
| Reader.JumpAfterDrawerOpens | src/components/drawer.js:67-82 | a long press armed before the drawer opens still requests its jump on release |
| Reader.NoJumpWhenAnnounced | src/components/edge-nav.js:200-211 | had the opening been announced, the release would request no jump |
| Reader.EdgeIgnoredWhileDrawerOpen | src/components/edge-nav.js:119 | with the drawer open, an edge touch arms nothing |

## Left out

- Creating DOM elements, the markup templates, SVG, ARIA attributes and CSS: class names are modelled as booleans, and the drawer content as the produced string.
- The body of the drawer's commentary markup (the title and wrapper `<div>`s around the paragraphs): `Annotation.RenderAnnotation` yields only the formatted paragraphs.
- IntersectionObserver geometry and its 50% threshold: a visibility notification is an input (section index and whether it intersects).
- `setTimeout`, `clearTimeout`, `Date.now` and `requestAnimationFrame`: timers are events and times are parameters. Timers are modelled as running in the order they were armed, since all share the same 500 ms delay.
- `scrollIntoView` and `history.replaceState`: the requested target or fragment is returned or recorded. The index item's own `scrollIntoView` in `setActiveNav` is not modelled.
- `window.innerWidth` and `isTouchDevice()`: they are parameters.
- The body `overflow` style is a boolean field.
- The mouse enter/leave hover styling of the quick-jump strip and the unused `disableEdgeNav`/`enableEdgeNav` exports.
- The random-chapter button (src/components/navigation.js:64-71): it depends on `Math.random`.
- The title page builder (src/components/title.js) and the wiring in src/main.js, except the section order of src/main.js:19-37 (`Scroll.ReadingOrder`).
- Pixel positions and drag travel are reals, and the clock is in whole milliseconds. Floating-point rounding is not modelled.
- The strip's height must be positive (`EdgeNav.TargetChapter`): a zero height divides by zero in the code, which does not guard it.
- Scroll.ChapterNumber: it reads the captured digits exactly, whereas `Number()` rounds runs of digits beyond 2^53 to a double.
- EdgeNav.EdgeNav.ObserveChapters: it takes `parseInt(data-chapter, 10)` as an input (an integer, or none for NaN) instead of parsing the attribute. No section in the shown files carries `data-chapter`, so `setupIntersectionObserver` returns early and this callback is never installed on the real page.
- Drawer.Drawer.Create: it requires that the drawer was not created before; a second `createDrawer` call, which would leave the old element in the document and register the keyboard listener twice, is not modelled.
- Drawer.Drawer.TouchStart: the touch position and the drawer's top edge are parameters; `getBoundingClientRect` is not modelled.
- EdgeNav.EdgeNav.TouchStart: the drawer's open class is passed in, standing for `isDrawerOpen()`. `Reader` passes the drawer's `openClass` field.
