/**
 * The commentary text pipeline of the drawer (src/components/drawer.js,
 * `renderAnnotation`, `formatAnnotation`, `escapeHtml`): a blank
 * commentary shows a placeholder; otherwise the text is escaped as HTML text
 * content, split into paragraphs at every run of two or more newlines, the
 * remaining single newlines become `<br>`, and each paragraph is wrapped in
 * `<p>…</p>`.
 */
module Annotation {
  import opened Wrappers

  // ---------------------------------------------------------------------
  // String.prototype.trim

  /** The characters `trim()` removes: ECMAScript WhiteSpace and LineTerminator. */
  predicate IsJsWhitespace(c: char) {
    || c == '\t' || c == '\n' || c == '\U{B}' || c == '\U{C}' || c == '\r' || c == ' '
    || c == '\U{A0}' || c == '\U{1680}' || ('\U{2000}' <= c <= '\U{200A}')
    || c == '\U{2028}' || c == '\U{2029}' || c == '\U{202F}' || c == '\U{205F}'
    || c == '\U{3000}' || c == '\U{FEFF}'
  }

  predicate Blank(s: string) {
    forall i :: 0 <= i < |s| ==> IsJsWhitespace(s[i])
  }

  lemma BlankCons(c: char, t: string)
    requires IsJsWhitespace(c) && Blank(t)
    ensures Blank([c] + t)
  {
  }

  function TrimStart(s: string): (r: string)
    ensures |r| <= |s| && r == s[|s| - |r|..]
    ensures Blank(s[..|s| - |r|])
    ensures r != [] ==> !IsJsWhitespace(r[0])
  {
    if s != [] && IsJsWhitespace(s[0]) then
      var r := TrimStart(s[1..]);
      BlankCons(s[0], s[1..][..|s[1..]| - |r|]);
      assert s[..|s| - |r|] == [s[0]] + s[1..][..|s[1..]| - |r|];
      r
    else s
  }

  function TrimEnd(s: string): (r: string)
    ensures |r| <= |s| && r == s[..|r|]
    ensures Blank(s[|r|..])
    ensures r != [] ==> !IsJsWhitespace(r[|r| - 1])
  {
    if s != [] && IsJsWhitespace(s[|s| - 1]) then
      var r := TrimEnd(s[..|s| - 1]);
      assert s[|r|..] == s[..|s| - 1][|r|..] + [s[|s| - 1]];
      r
    else s
  }

  /** `r` sits at position `i` of `s`, with only whitespace before and after it. */
  predicate BetweenBlanks(s: string, r: string, i: nat) {
    i + |r| <= |s| && s[i..i + |r|] == r && Blank(s[..i]) && Blank(s[i + |r|..])
  }

  /** `trim()`: the middle of `s` between a blank prefix and a blank suffix, with no whitespace at either end. */
  function Trim(s: string): (r: string)
    ensures |r| <= |s|
    ensures exists i :: BetweenBlanks(s, r, i)
    ensures r != [] ==> !IsJsWhitespace(r[0]) && !IsJsWhitespace(r[|r| - 1])
  {
    var t := TrimStart(s);
    var r := TrimEnd(t);
    TrimSlice(s, t, r);
    r
  }

  /** Where the two trims cut: `TrimStart` drops a blank prefix, `TrimEnd` a blank suffix. */
  lemma TrimSlice(s: string, t: string, r: string)
    requires |t| <= |s| && t == s[|s| - |t|..] && Blank(s[..|s| - |t|])
    requires |r| <= |t| && r == t[..|r|] && Blank(t[|r|..])
    requires t != [] ==> !IsJsWhitespace(t[0])
    ensures BetweenBlanks(s, r, |s| - |t|)
    ensures r != [] ==> r[0] == t[0]
  {
    var i := |s| - |t|;
    assert s[i..i + |r|] == t[..|r|];
    assert s[i + |r|..] == t[|r|..];
  }

  /** `trim()` leaves nothing exactly when every character is whitespace. */
  lemma TrimEmptyIffBlank(s: string)
    ensures |Trim(s)| == 0 <==> Blank(s)
  {
    var t := TrimStart(s);
    if t == [] {
      assert s[..|s|] == s;
    } else {
      assert !IsJsWhitespace(s[|s| - |t|]);
    }
  }

  // ---------------------------------------------------------------------
  // Escaping text content

  /**
   * How the HTML serialiser writes one character of a text node ("escaping a
   * string" in text mode, section 13.3 of the WHATWG HTML Living Standard):
   * '&', U+00A0, '<' and '>' become entities, everything else is kept.
   */
  function EscapeChar(c: char): (r: string) {
    if c == '&' then "&amp;"
    else if c == '\U{A0}' then "&nbsp;"
    else if c == '<' then "&lt;"
    else if c == '>' then "&gt;"
    else [c]
  }

  /** `escapeHtml`: the `innerHTML` of a `div` whose `textContent` is `s`. */
  function Escape(s: string): (r: string)
    ensures '<' !in r && '>' !in r && '\U{A0}' !in r
    ensures |r| >= |s|
  {
    if s == [] then [] else EscapeChar(s[0]) + Escape(s[1..])
  }

  /** Decodes the four character references that `Escape` writes. */
  function Unescape(r: string): (s: string)
    decreases |r|
  {
    if r == [] then []
    else if "&amp;" <= r then "&" + Unescape(r[5..])
    else if "&nbsp;" <= r then "\U{A0}" + Unescape(r[6..])
    else if "&lt;" <= r then "<" + Unescape(r[4..])
    else if "&gt;" <= r then ">" + Unescape(r[4..])
    else [r[0]] + Unescape(r[1..])
  }

  lemma UnescapeEscapeChar(c: char, rest: string)
    ensures Unescape(EscapeChar(c) + rest) == [c] + Unescape(rest)
  {
    var r := EscapeChar(c) + rest;
    if c == '&' {
      assert "&amp;" <= r && r[5..] == rest;
    } else if c == '\U{A0}' {
      assert r[1] == 'n';
      assert "&nbsp;" <= r && r[6..] == rest;
    } else if c == '<' {
      assert r[1] == 'l';
      assert "&lt;" <= r && r[4..] == rest;
    } else if c == '>' {
      assert r[1] == 'g';
      assert "&gt;" <= r && r[4..] == rest;
    } else {
      assert r[0] == c && r[1..] == rest;
    }
  }

  /** Escaping loses nothing: the escaped text decodes back to the original. */
  lemma {:induction false} EscapeRoundTrip(s: string)
    ensures Unescape(Escape(s)) == s
  {
    if s != [] {
      UnescapeEscapeChar(s[0], Escape(s[1..]));
      EscapeRoundTrip(s[1..]);
      assert s == [s[0]] + s[1..];
    }
  }

  lemma {:induction false} EscapeConcat(a: string, b: string)
    ensures Escape(a + b) == Escape(a) + Escape(b)
  {
    if a != [] {
      assert (a + b)[0] == a[0] && (a + b)[1..] == a[1..] + b;
      EscapeConcat(a[1..], b);
      calc {
        Escape(a + b);
        EscapeChar(a[0]) + Escape(a[1..] + b);
        EscapeChar(a[0]) + (Escape(a[1..]) + Escape(b));
        (EscapeChar(a[0]) + Escape(a[1..])) + Escape(b);
      }
    } else {
      assert a + b == b;
    }
  }

  /** Text without the four special characters is written as it is. */
  lemma {:induction false} EscapePlain(s: string)
    requires forall i :: 0 <= i < |s| ==> s[i] !in {'&', '\U{A0}', '<', '>'}
    ensures Escape(s) == s
  {
    if s != [] {
      EscapePlain(s[1..]);
      assert s == [s[0]] + s[1..];
    }
  }

  // ---------------------------------------------------------------------
  // Splitting at runs of two or more newlines: `split(/\n\n+/)`

  /** Two newlines start at `i`. */
  predicate BreakAt(s: string, i: nat) {
    i + 1 < |s| && s[i] == '\n' && s[i + 1] == '\n'
  }

  predicate NoBreak(s: string) {
    forall i :: 0 <= i < |s| ==> !BreakAt(s, i)
  }

  predicate StartsNewline(s: string) {
    |s| > 0 && s[0] == '\n'
  }

  predicate EndsNewline(s: string) {
    |s| > 0 && s[|s| - 1] == '\n'
  }

  predicate AllNewlines(s: string) {
    forall i :: 0 <= i < |s| ==> s[i] == '\n'
  }

  /** The leftmost position at or after `from` where the separator matches. */
  function FirstBreak(s: string, from: nat): (r: Option<nat>)
    ensures r.Some? ==> from <= r.value && BreakAt(s, r.value)
    ensures r.Some? ==> forall k :: from <= k < r.value ==> !BreakAt(s, k)
    ensures r.None? ==> forall k :: from <= k < |s| ==> !BreakAt(s, k)
    decreases |s| - from
  {
    if from + 1 >= |s| then None
    else if BreakAt(s, from) then Some(from)
    else FirstBreak(s, from + 1)
  }

  /** Where the (greedy) run of newlines starting at `j` ends. */
  function RunEnd(s: string, j: nat): (e: nat)
    requires j <= |s|
    ensures j <= e <= |s| && AllNewlines(s[j..e])
    ensures e == |s| || s[e] != '\n'
    decreases |s| - j
  {
    if j < |s| && s[j] == '\n' then
      var e := RunEnd(s, j + 1);
      assert s[j..e] == [s[j]] + s[j + 1..e];
      e
    else j
  }

  /** A run of newlines that ends where a non-newline (or the text's end) starts. */
  lemma {:induction false} RunEndIs(s: string, j: nat, e: nat)
    requires j <= e <= |s|
    requires forall k :: j <= k < e ==> s[k] == '\n'
    requires e == |s| || s[e] != '\n'
    ensures RunEnd(s, j) == e
    decreases e - j
  {
    if j < e {
      RunEndIs(s, j + 1, e);
    }
  }

  /** The paragraphs of `s`: the text between the runs of two or more newlines. */
  function SplitParagraphs(s: string): (r: seq<string>)
    ensures |r| >= 1 && r[0] <= s
    decreases |s|
  {
    match FirstBreak(s, 0)
    case None => [s]
    case Some(q) => [s[..q]] + SplitParagraphs(s[RunEnd(s, q)..])
  }

  lemma SplitNoBreak(s: string)
    requires NoBreak(s)
    ensures SplitParagraphs(s) == [s]
  {
  }

  /** Splitting a text that has a first separator. */
  lemma SplitAtBreak(a: string, run: string, b: string)
    requires NoBreak(a) && !EndsNewline(a)
    requires |run| >= 2 && AllNewlines(run)
    requires !StartsNewline(b)
    ensures SplitParagraphs(a + run + b) == [a] + SplitParagraphs(b)
  {
    var s := a + run + b;
    FirstBreakAfter(a, run, b);
    assert s[..|a|] == a && s[|a| + |run|..] == b;
  }

  /** In `a + run + b` the first separator is the run, and it is consumed whole. */
  lemma FirstBreakAfter(a: string, run: string, b: string)
    requires NoBreak(a) && !EndsNewline(a)
    requires |run| >= 2 && AllNewlines(run)
    requires !StartsNewline(b)
    ensures FirstBreak(a + run + b, 0) == Some(|a|)
    ensures RunEnd(a + run + b, |a|) == |a| + |run|
  {
    FirstBreakAtRun(a, run + b);
    assert a + run + b == a + (run + b);
    RunEndAtRun(a, run, b);
  }

  /** The run that follows a separator-free prefix not ending in a newline is the first separator. */
  lemma FirstBreakAtRun(a: string, c: string)
    requires NoBreak(a) && !EndsNewline(a)
    requires |c| >= 2 && c[0] == '\n' && c[1] == '\n'
    ensures FirstBreak(a + c, 0) == Some(|a|)
  {
    var s := a + c;
    forall k: nat | k < |a|
      ensures !BreakAt(s, k)
    {
      NoBreakInPrefix(a, c, k);
    }
    FirstBreakIs(s, |a|);
  }

  /** The newline run consumed after `a` is exactly `run`. */
  lemma RunEndAtRun(a: string, run: string, b: string)
    requires AllNewlines(run) && !StartsNewline(b)
    ensures RunEnd(a + run + b, |a|) == |a| + |run|
  {
    var s := a + run + b;
    var q := |a|;
    forall k | q <= k < q + |run|
      ensures s[k] == '\n'
    {
      assert s[k] == run[k - q];
    }
    RunEndIs(s, q, q + |run|);
  }

  /** A text that has no separator and does not end with a newline keeps that prefix free of separators. */
  lemma NoBreakInPrefix(a: string, c: string, k: nat)
    requires NoBreak(a) && !EndsNewline(a) && k < |a|
    ensures !BreakAt(a + c, k)
  {
    if k + 1 < |a| {
      assert !BreakAt(a, k);
    }
  }

  /** A separator with none before it is the first one. */
  lemma FirstBreakIs(s: string, q: nat)
    requires BreakAt(s, q)
    requires forall k :: 0 <= k < q ==> !BreakAt(s, k)
    ensures FirstBreak(s, 0) == Some(q)
  {
  }

  /** The first separator of a text that has one, and what lies around it. */
  lemma SplitDecompose(s: string) returns (a: string, run: string, b: string)
    requires !NoBreak(s)
    ensures s == a + run + b && |b| < |s|
    ensures NoBreak(a) && !EndsNewline(a)
    ensures |run| >= 2 && AllNewlines(run)
    ensures !StartsNewline(b)
    ensures SplitParagraphs(s) == [a] + SplitParagraphs(b)
  {
    var i: nat :| BreakAt(s, i);
    var q := FirstBreak(s, 0).value;
    var e := RunEnd(s, q);
    a, run, b := s[..q], s[q..e], s[e..];
    forall k: nat | k < |a|
      ensures !BreakAt(a, k)
    {
      assert !BreakAt(s, k);
    }
    if EndsNewline(a) {
      assert BreakAt(s, q - 1);
    }
    assert s == a + run + b;
  }

  /** Joins paragraphs with a blank line between each two. */
  function Join(paragraphs: seq<string>): (s: string)
    requires |paragraphs| >= 1
    ensures paragraphs[0] <= s
  {
    if |paragraphs| == 1 then paragraphs[0]
    else paragraphs[0] + "\n\n" + Join(paragraphs[1..])
  }

  /**
   * The paragraph lists `SplitParagraphs` can produce: no paragraph holds a
   * blank line, only the last may end and only the first may start with a
   * newline, and only the first and the last may be empty.
   */
  predicate Canonical(paragraphs: seq<string>) {
    && |paragraphs| >= 1
    && forall i :: 0 <= i < |paragraphs| ==>
      && NoBreak(paragraphs[i])
      && (i + 1 < |paragraphs| ==> !EndsNewline(paragraphs[i]))
      && (0 < i ==> !StartsNewline(paragraphs[i]))
      && (0 < i < |paragraphs| - 1 ==> paragraphs[i] != "")
  }

  /** Splitting always yields a canonical list of paragraphs. */
  lemma {:induction false} SplitCanonical(s: string)
    ensures Canonical(SplitParagraphs(s))
    decreases |s|
  {
    if !NoBreak(s) {
      var a, run, b := SplitDecompose(s);
      SplitCanonical(b);
      var tail := SplitParagraphs(b);
      var r := [a] + tail;
      assert tail[0] <= b;
      if |tail| >= 2 {
        var b', run', c := SplitDecompose(b);
        assert tail[0] == b';
      }
      forall i | 0 <= i < |r|
        ensures NoBreak(r[i])
        ensures i + 1 < |r| ==> !EndsNewline(r[i])
        ensures 0 < i ==> !StartsNewline(r[i])
        ensures 0 < i < |r| - 1 ==> r[i] != ""
      {
        if i > 0 {
          assert r[i] == tail[i - 1];
          if i == 1 && tail[0] != "" {
            assert tail[0][0] == b[0];
          }
        }
      }
    } else {
      SplitNoBreak(s);
    }
  }

  /** Splitting recovers a canonical list of paragraphs from their join. */
  lemma {:induction false} SplitJoin(paragraphs: seq<string>)
    requires Canonical(paragraphs)
    ensures SplitParagraphs(Join(paragraphs)) == paragraphs
    decreases |paragraphs|
  {
    if |paragraphs| == 1 {
      SplitNoBreak(paragraphs[0]);
    } else {
      var tail := paragraphs[1..];
      assert Canonical(tail) by {
        forall i | 0 <= i < |tail|
          ensures NoBreak(tail[i])
          ensures i + 1 < |tail| ==> !EndsNewline(tail[i])
          ensures 0 < i ==> !StartsNewline(tail[i])
          ensures 0 < i < |tail| - 1 ==> tail[i] != ""
        {
          assert tail[i] == paragraphs[i + 1];
        }
      }
      SplitJoin(tail);
      var rest := Join(tail);
      assert !StartsNewline(rest) by {
        assert tail[0] == paragraphs[1];
        if tail[0] != "" {
          assert rest[0] == tail[0][0];
        } else if |tail| > 1 {
          assert false;
        }
      }
      SplitAtBreak(paragraphs[0], "\n\n", rest);
      assert paragraphs == [paragraphs[0]] + tail;
    }
  }

  // ---------------------------------------------------------------------
  // Escaping commutes with splitting

  function EscapeAll(paragraphs: seq<string>): (r: seq<string>)
    ensures |r| == |paragraphs|
    ensures forall i :: 0 <= i < |r| ==> r[i] == Escape(paragraphs[i])
  {
    seq(|paragraphs|, i requires 0 <= i < |paragraphs| => Escape(paragraphs[i]))
  }

  lemma EscapeCharNewline(c: char)
    ensures '\n' in EscapeChar(c) <==> c == '\n'
    ensures EscapeChar(c)[0] == '\n' <==> c == '\n'
    ensures EscapeChar(c)[|EscapeChar(c)| - 1] == '\n' <==> c == '\n'
  {
  }

  lemma EscapeStartsNewline(s: string)
    ensures StartsNewline(Escape(s)) <==> StartsNewline(s)
  {
    if s != [] {
      EscapeCharNewline(s[0]);
      assert Escape(s)[0] == EscapeChar(s[0])[0];
    }
  }

  lemma EscapeEndsNewline(s: string)
    ensures EndsNewline(Escape(s)) <==> EndsNewline(s)
  {
    if s != [] {
      var n := |s|;
      EscapeConcat(s[..n - 1], [s[n - 1]]);
      assert s == s[..n - 1] + [s[n - 1]];
      assert Escape([s[n - 1]]) == EscapeChar(s[n - 1]);
      EscapeCharNewline(s[n - 1]);
    }
  }

  lemma {:induction false} EscapeNewlines(s: string)
    requires AllNewlines(s)
    ensures Escape(s) == s
  {
    if s != [] {
      EscapeNewlines(s[1..]);
      assert s == [s[0]] + s[1..];
    }
  }

  lemma NoBreakConcat(x: string, y: string)
    requires NoBreak(x) && NoBreak(y) && !(EndsNewline(x) && StartsNewline(y))
    ensures NoBreak(x + y)
  {
    var s := x + y;
    forall i: nat
      ensures !BreakAt(s, i)
    {
      if i + 1 < |x| {
        assert !BreakAt(x, i);
      } else if i >= |x| {
        assert !BreakAt(y, i - |x|);
      }
    }
  }

  lemma {:induction false} EscapeNoBreak(s: string)
    requires NoBreak(s)
    ensures NoBreak(Escape(s))
  {
    if s != [] {
      var t := s[1..];
      assert NoBreak(t) by {
        forall i: nat
          ensures !BreakAt(t, i)
        {
          assert !BreakAt(s, i + 1);
        }
      }
      EscapeNoBreak(t);
      EscapeCharNewline(s[0]);
      EscapeStartsNewline(t);
      if StartsNewline(t) {
        assert !BreakAt(s, 0);
      }
      var head := EscapeChar(s[0]);
      assert NoBreak(head);
      NoBreakConcat(head, Escape(t));
    }
  }

  /** Escaping first and splitting, or splitting first and escaping each paragraph, agree. */
  lemma {:induction false} SplitEscape(s: string)
    ensures SplitParagraphs(Escape(s)) == EscapeAll(SplitParagraphs(s))
    decreases |s|
  {
    if NoBreak(s) {
      EscapeNoBreak(s);
      SplitNoBreak(Escape(s));
    } else {
      var a, run, b := SplitDecompose(s);
      EscapeAtBreak(a, run, b);
      SplitEscape(b);
      EscapeAllCons(a, SplitParagraphs(b));
    }
  }

  /** The escaped text splits at the same separator as the text. */
  lemma EscapeAtBreak(a: string, run: string, b: string)
    requires NoBreak(a) && !EndsNewline(a)
    requires |run| >= 2 && AllNewlines(run)
    requires !StartsNewline(b)
    ensures SplitParagraphs(Escape(a + run + b)) == [Escape(a)] + SplitParagraphs(Escape(b))
  {
    EscapeConcat(a + run, b);
    EscapeConcat(a, run);
    EscapeNewlines(run);
    EscapeNoBreak(a);
    EscapeEndsNewline(a);
    EscapeStartsNewline(b);
    SplitAtBreak(Escape(a), run, Escape(b));
  }

  lemma EscapeAllCons(a: string, rest: seq<string>)
    ensures EscapeAll([a] + rest) == [Escape(a)] + EscapeAll(rest)
  {
  }

  // ---------------------------------------------------------------------
  // Line breaks and paragraphs

  /** `para.replace(/\n/g, '<br>')`. */
  function LineBreaks(p: string): (r: string)
    ensures '\n' !in r
  {
    if p == [] then []
    else (if p[0] == '\n' then "<br>" else [p[0]]) + LineBreaks(p[1..])
  }

  function Paragraph(p: string): (html: string) {
    "<p>" + LineBreaks(p) + "</p>"
  }

  /** `.map(para => <p>…</p>).join('')`. */
  function Paragraphs(paragraphs: seq<string>): (html: string)
    ensures '\n' !in html
  {
    if paragraphs == [] then [] else Paragraph(paragraphs[0]) + Paragraphs(paragraphs[1..])
  }

  /** `formatAnnotation`: escape, split, wrap, join. */
  function FormatAnnotation(text: string): (html: string)
    ensures '\n' !in html
  {
    Paragraphs(SplitParagraphs(Escape(text)))
  }

  // ---------------------------------------------------------------------
  // Reading the formatted commentary back

  /** Turns each `<br>` back into a newline. */
  function UnLineBreaks(x: string): (s: string)
    decreases |x|
  {
    if x == [] then []
    else if "<br>" <= x then "\n" + UnLineBreaks(x[4..])
    else [x[0]] + UnLineBreaks(x[1..])
  }

  /** The first `</p>` at or after `from`. */
  function CloseTagAt(html: string, from: nat): (r: Option<nat>)
    ensures r.Some? ==> from <= r.value && r.value + 4 <= |html| && html[r.value..r.value + 4] == "</p>"
    decreases |html| - from
  {
    if from + 4 > |html| then None
    else if html[from..from + 4] == "</p>" then Some(from)
    else CloseTagAt(html, from + 1)
  }

  /** Reads a sequence of `<p>…</p>` blocks back into the paragraphs' text. */
  function ParseParagraphs(html: string): (r: Option<seq<string>>)
    decreases |html|
  {
    if html == [] then Some([])
    else if !("<p>" <= html) then None
    else match CloseTagAt(html, 3)
      case None => None
      case Some(k) =>
        match ParseParagraphs(html[k + 4..])
        case None => None
        case Some(rest) => Some([Unescape(UnLineBreaks(html[3..k]))] + rest)
  }

  /** Every '<' is the start of a `<br>`. */
  predicate OnlyLineBreakTags(x: string) {
    forall i :: 0 <= i < |x| && x[i] == '<' ==> i + 1 < |x| && x[i + 1] == 'b'
  }

  lemma {:induction false} LineBreaksTags(y: string)
    requires '<' !in y
    ensures OnlyLineBreakTags(LineBreaks(y))
    ensures UnLineBreaks(LineBreaks(y)) == y
  {
    if y != [] {
      LineBreaksTags(y[1..]);
      var head := if y[0] == '\n' then "<br>" else [y[0]];
      var rest := LineBreaks(y[1..]);
      var x := head + rest;
      forall i | 0 <= i < |x| && x[i] == '<'
        ensures i + 1 < |x| && x[i + 1] == 'b'
      {
        if i >= |head| {
          assert rest[i - |head|] == '<';
        }
      }
      if y[0] == '\n' {
        assert "<br>" <= x && x[4..] == rest;
      } else {
        assert x[0] == y[0] && x[1..] == rest;
      }
      assert y == [y[0]] + y[1..];
    }
  }

  lemma CloseTagAfterBody(body: string, rest: string)
    requires OnlyLineBreakTags(body)
    ensures CloseTagAt("<p>" + body + "</p>" + rest, 3) == Some(3 + |body|)
  {
    var html := "<p>" + body + "</p>" + rest;
    var r := CloseTagAt(html, 3);
    if r.None? || r.value != 3 + |body| {
      CloseTagFirst(html, 3, 3 + |body|, body);
    }
  }

  lemma {:induction false} CloseTagFirst(html: string, from: nat, k: nat, body: string)
    requires 3 <= from <= k && k == 3 + |body| && OnlyLineBreakTags(body)
    requires k + 4 <= |html| && html == "<p>" + body + html[k..] && html[k..k + 4] == "</p>"
    ensures CloseTagAt(html, from) == Some(k)
    decreases k - from
  {
    if from < k {
      assert html[from] == body[from - 3];
      if html[from] == '<' {
        assert html[from + 1] == body[from - 2];
      }
      assert html[from..from + 4] != "</p>";
      CloseTagFirst(html, from + 1, k, body);
    }
  }

  /** One `<p>` block whose body holds no tag but `<br>` reads back ahead of what follows it. */
  lemma ParseParagraphsStep(body: string, rest: string, parsed: seq<string>)
    requires OnlyLineBreakTags(body) && ParseParagraphs(rest) == Some(parsed)
    ensures ParseParagraphs("<p>" + body + "</p>" + rest) == Some([Unescape(UnLineBreaks(body))] + parsed)
  {
    var html := "<p>" + body + "</p>" + rest;
    CloseTagAfterBody(body, rest);
    var k := 3 + |body|;
    assert "<p>" <= html;
    assert html[3..k] == body && html[k + 4..] == rest;
  }

  /** The `<p>` blocks written for escaped paragraphs read back to the paragraphs. */
  lemma {:induction false} ParseParagraphsRoundTrip(paragraphs: seq<string>)
    ensures ParseParagraphs(Paragraphs(EscapeAll(paragraphs))) == Some(paragraphs)
    decreases |paragraphs|
  {
    if paragraphs != [] {
      var p := paragraphs[0];
      var body := LineBreaks(Escape(p));
      var rest := Paragraphs(EscapeAll(paragraphs[1..]));
      assert EscapeAll(paragraphs)[1..] == EscapeAll(paragraphs[1..]);
      assert Paragraphs(EscapeAll(paragraphs)) == "<p>" + body + "</p>" + rest;
      LineBreaksTags(Escape(p));
      ParseParagraphsRoundTrip(paragraphs[1..]);
      ParseParagraphsStep(body, rest, paragraphs[1..]);
      EscapeRoundTrip(p);
      assert paragraphs == [p] + paragraphs[1..];
    }
  }

  /** The formatted commentary reads back to exactly the paragraphs of the source text. */
  lemma FormatRoundTrip(text: string)
    ensures ParseParagraphs(FormatAnnotation(text)) == Some(SplitParagraphs(text))
  {
    SplitEscape(text);
    ParseParagraphsRoundTrip(SplitParagraphs(text));
  }

  /** "A\nB\n\nC" gives two paragraphs, the first with a line break between A and B. */
  lemma FormatExample()
    ensures FormatAnnotation("A\nB\n\nC") == "<p>A<br>B</p><p>C</p>"
  {
    ExampleSplit();
    ExampleParagraphs();
  }

  lemma ExampleSplit()
    ensures SplitParagraphs(Escape("A\nB\n\nC")) == ["A\nB", "C"]
  {
    ExampleEscape();
    ExampleSplitPlain();
  }

  lemma ExampleEscape()
    ensures Escape("A\nB\n\nC") == "A\nB\n\nC"
  {
    EscapePlain("A\nB\n\nC");
  }

  lemma ExampleSplitPlain()
    ensures SplitParagraphs("A\nB\n\nC") == ["A\nB", "C"]
  {
    var a, run, b := "A\nB", "\n\n", "C";
    assert a + run + b == "A\nB\n\nC";
    assert !BreakAt(a, 0) && !BreakAt(a, 1) && !BreakAt(a, 2);
    SplitAtBreak(a, run, b);
    SplitNoBreak(b);
  }

  lemma ExampleParagraphs()
    ensures Paragraphs(["A\nB", "C"]) == "<p>A<br>B</p><p>C</p>"
  {
    ParagraphsPair("A\nB", "C");
    ExampleParagraphOne();
    ExampleParagraphTwo();
    assert "<p>A<br>B</p>" + "<p>C</p>" == "<p>A<br>B</p><p>C</p>";
  }

  lemma ExampleParagraphOne()
    ensures Paragraph("A\nB") == "<p>A<br>B</p>"
  {
    ExampleLineBreaks();
    assert "<p>" + "A<br>B" + "</p>" == "<p>A<br>B</p>";
  }

  lemma ExampleParagraphTwo()
    ensures Paragraph("C") == "<p>C</p>"
  {
    ExampleLineBreaks();
    assert "<p>" + "C" + "</p>" == "<p>C</p>";
  }

  lemma ParagraphsPair(x: string, y: string)
    ensures Paragraphs([x, y]) == Paragraph(x) + Paragraph(y)
  {
    assert [x, y][1..] == [y] && [y][1..] == [];
    assert Paragraphs([y]) == Paragraph(y) + [];
  }

  lemma ExampleLineBreaks()
    ensures LineBreaks("A\nB") == "A<br>B" && LineBreaks("C") == "C"
  {
    assert "A\nB"[1..] == "\nB" && "\nB"[1..] == "B" && "B"[1..] == [] && "C"[1..] == [];
  }

  // ---------------------------------------------------------------------
  // renderAnnotation

  /** What the drawer's content element shows. */
  datatype Content = Empty | Placeholder | Commentary(html: string)

  /**
   * The content for a chapter's commentary: the placeholder when it is
   * missing or blank, otherwise the formatted commentary, which reads back
   * to the commentary's paragraphs.
   */
  function RenderAnnotation(annotation: Option<string>): (c: Content)
    ensures c.Placeholder? <==> annotation.None? || Blank(annotation.value)
    ensures c.Commentary? ==> ParseParagraphs(c.html) == Some(SplitParagraphs(annotation.value))
    ensures !c.Empty?
  {
    if annotation.Some? && |Trim(annotation.value)| > 0 then
      TrimEmptyIffBlank(annotation.value);
      FormatRoundTrip(annotation.value);
      Commentary(FormatAnnotation(annotation.value))
    else
      (if annotation.Some? then TrimEmptyIffBlank(annotation.value); Placeholder else Placeholder)
  }
}
