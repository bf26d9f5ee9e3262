/** Consequences of the window round trip for callers: clamped ranges, adjacent ranges, and text
    without markers. */
module WindowFacts {
  import opened Wrappers
  import Strings
  import opened PdfText
  import opened PageWindow

  /** Any requested range over such a document, once clamped, is either refused or the blocks of the
      clamped pages. */
  lemma WindowOfDocument(pages: seq<string>, start: int, end: int, s: int, e: int)
    requires AllMarkerFree(pages)
    requires s == ClampedStart(start) && e == ClampedEnd(|pages|, end) && s <= e
    ensures SelectPages(Assemble(pages), |pages|, start, end) == Success(Blocks(pages, s - 1, e))
  {
    SameClampedRange(Assemble(pages), |pages|, start, end, s, e);
    WindowRoundTrip(pages, s, e);
  }

  /** Only the clamped range matters to `SelectPages`. */
  lemma SameClampedRange(text: string, totalPages: int, start: int, end: int, s: int, e: int)
    requires s == ClampedStart(start) && e == ClampedEnd(totalPages, end) && s <= e
    ensures SelectPages(text, totalPages, start, end) == SelectPages(text, totalPages, s, e)
  {
    var ei := WindowEnd(text, e);
    SelectPagesIs(text, totalPages, s, e, Strings.IndexOf(text, Marker(s)), ei);
    SelectPagesIs(text, totalPages, start, end, Strings.IndexOf(text, Marker(s)), ei);
  }

  /** Windows over adjacent ranges are disjoint and in page order: the window of the joined range is
      the window of the first range followed by that of the second. */
  lemma AdjacentWindows(pages: seq<string>, a: int, b: int, c: int)
    requires AllMarkerFree(pages)
    requires 1 <= a <= b < c <= |pages|
    ensures SelectPages(Assemble(pages), |pages|, a, c) == Success(Blocks(pages, a - 1, b) + Blocks(pages, b, c))
  {
    WindowRoundTrip(pages, a, c);
    BlocksSplit(pages, a - 1, b, c);
  }

  /** When neither marker is in the text, the start index -1 reads as 0 and the end as the text's
      length: the window is the whole text rather than an error. */
  lemma MissingMarkersGiveWholeText(text: string, totalPages: int, start: int, end: int)
    requires ClampedStart(start) <= ClampedEnd(totalPages, end)
    requires !Strings.Occurs(text, Marker(ClampedStart(start)))
    requires !Strings.Occurs(text, Marker(ClampedEnd(totalPages, end) + 1))
    ensures SelectPages(text, totalPages, start, end) == Success(text)
  {
    SelectPagesIs(text, totalPages, start, end, -1, |text|);
    assert text[..|text|] == text;
  }

  /** The quiz context of a document over a range that survives clamping: the blocks of the clamped
      pages when they hold at least 100 code units once trimmed, and too little content otherwise. */
  lemma QuizContextOfDocument(pages: seq<string>, start: int, end: int, s: int, e: int)
    requires AllMarkerFree(pages)
    requires s == ClampedStart(start) && e == ClampedEnd(|pages|, end) && s <= e
    ensures var window := Blocks(pages, s - 1, e);
      && (Strings.Utf16Length(Strings.Trim(window)) >= MinContextLength ==>
            QuizContext(Assemble(pages), |pages|, Number(start), Number(end)) == Success(window))
      && (Strings.Utf16Length(Strings.Trim(window)) < MinContextLength ==>
            QuizContext(Assemble(pages), |pages|, Number(start), Number(end)) == Failure(InsufficientContent))
  {
    WindowOfDocument(pages, start, end, s, e);
    assert Assemble(pages) != "" by { AssembleNonEmpty(pages); }
  }

  /** A cleared page box reads as `NaN`, and `[Page NaN]` is nowhere in a document, so such a range
      is never refused. Two cleared boxes give the whole text. */
  lemma ClearedBothBoxes(pages: seq<string>)
    requires AllMarkerFree(pages)
    ensures SelectInput(Assemble(pages), |pages|, NotANumber, NotANumber) == Success(Assemble(pages))
  {
    var text := Assemble(pages);
    NanMarkerMissing(pages);
    assert text[..|text|] == text;
  }

  /** A cleared start box windows from the first page to the clamped end page. */
  lemma ClearedStartBox(pages: seq<string>, end: int)
    requires AllMarkerFree(pages)
    requires 1 <= ClampedEnd(|pages|, end)
    ensures SelectInput(Assemble(pages), |pages|, NotANumber, Number(end)) == Success(Blocks(pages, 0, ClampedEnd(|pages|, end)))
  {
    var text, n, e := Assemble(pages), |pages|, ClampedEnd(|pages|, end);
    var a, b := Blocks(pages, 0, e), Blocks(pages, e, n);
    assert text == a + b by { BlocksSplit(pages, 0, e, n); }
    EndAtBlock(pages, e);
    NanMarkerMissing(pages);
    SelectInputIs(text, n, NotANumber, Number(end), -1, |a|);
    SubstringOfConcat(a, b);
  }

  /** A cleared start box with the end clamped to page 0 gives an empty window: the end searches
      for `[Page 1]`, which opens the text (or the text is empty). */
  lemma ClearedStartBoxEndZero(pages: seq<string>, end: int)
    requires AllMarkerFree(pages)
    requires ClampedEnd(|pages|, end) == 0
    ensures SelectInput(Assemble(pages), |pages|, NotANumber, Number(end)) == Success("")
  {
    var text := Assemble(pages);
    MarkerIndex(pages, 1);
    assert EndIndex(text, |pages|, Number(end)) == 0;
    NanMarkerMissing(pages);
    SelectInputIs(text, |pages|, NotANumber, Number(end), -1, 0);
  }

  /** A cleared start box with the end clamped below page 0 gives the whole document: the end
      searches for `[Page 0]` or `[Page -k]`, which no document holds. */
  lemma ClearedStartBoxEndNegative(pages: seq<string>, end: int)
    requires AllMarkerFree(pages)
    requires ClampedEnd(|pages|, end) < 0
    ensures SelectInput(Assemble(pages), |pages|, NotANumber, Number(end)) == Success(Assemble(pages))
  {
    var text, k := Assemble(pages), ClampedEnd(|pages|, end) + 1;
    if k == 0 {
      MarkerAbsent(pages, 0);
    } else {
      NegativeMarkerMissing(pages, k);
    }
    assert EndIndex(text, |pages|, Number(end)) == |text|;
    NanMarkerMissing(pages);
    SelectInputIs(text, |pages|, NotANumber, Number(end), -1, |text|);
    assert text[..|text|] == text;
  }

  /** A cleared end box with the start clamped past the last page gives the whole document: the
      start marker is missing, and `substring(-1, length)` is everything. */
  lemma ClearedEndBoxStartPast(pages: seq<string>, start: int)
    requires AllMarkerFree(pages)
    requires ClampedStart(start) > |pages|
    ensures SelectInput(Assemble(pages), |pages|, Number(start), NotANumber) == Success(Assemble(pages))
  {
    var text := Assemble(pages);
    MarkerAbsent(pages, ClampedStart(start));
    NanEndIndex(pages);
    SelectInputIs(text, |pages|, Number(start), NotANumber, -1, |text|);
    assert text[..|text|] == text;
  }

  lemma EndAtBlock(pages: seq<string>, e: int)
    requires AllMarkerFree(pages) && 1 <= e <= |pages|
    ensures EndIndex(Assemble(pages), |pages|, Number(e)) == |Blocks(pages, 0, e)|
  {
    MarkerIndex(pages, e + 1);
    if e == |pages| {
      assert Assemble(pages) == Blocks(pages, 0, e);
    }
  }

  /** A cleared end box windows from the clamped start page, page `m + 1`, to the last page. */
  lemma ClearedEndBox(pages: seq<string>, start: int, m: nat)
    requires AllMarkerFree(pages)
    requires m + 1 == ClampedStart(start) <= |pages|
    ensures SelectInput(Assemble(pages), |pages|, Number(start), NotANumber) == Success(Blocks(pages, m, |pages|))
  {
    SuffixOfDocument(pages, m);
    EndBoxCut(pages, start, Blocks(pages, m, |pages|));
  }

  /** With the end box cleared, the window is the cut from where the start page begins to the end. */
  lemma EndBoxCut(pages: seq<string>, start: int, tail: string)
    requires AllMarkerFree(pages)
    requires ClampedStart(start) <= |pages|
    requires Strings.Substring(Assemble(pages), |Blocks(pages, 0, ClampedStart(start) - 1)|, |Assemble(pages)|) == tail
    ensures SelectInput(Assemble(pages), |pages|, Number(start), NotANumber) == Success(tail)
  {
    StartAtBlock(pages, start);
    NanEndIndex(pages);
    SelectInputIs(Assemble(pages), |pages|, Number(start), NotANumber, |Blocks(pages, 0, ClampedStart(start) - 1)|, |Assemble(pages)|);
  }

  lemma AssembleSplit(pages: seq<string>, m: nat)
    requires m <= |pages|
    ensures Assemble(pages) == Blocks(pages, 0, m) + Blocks(pages, m, |pages|)
  {
    BlocksSplit(pages, 0, m, |pages|);
  }

  lemma NanEndIndex(pages: seq<string>)
    requires AllMarkerFree(pages)
    ensures EndIndex(Assemble(pages), |pages|, NotANumber) == |Assemble(pages)|
  {
    NanMarkerMissing(pages);
  }

  lemma StartAtBlock(pages: seq<string>, start: int)
    requires AllMarkerFree(pages) && ClampedStart(start) <= |pages|
    ensures StartIndex(Assemble(pages), Number(start)) == |Blocks(pages, 0, ClampedStart(start) - 1)|
  {
    MarkerIndex(pages, ClampedStart(start));
  }

  /** Cutting an assembled document where page `m + 1` begins leaves the blocks of pages `m + 1` onwards. */
  lemma SuffixOfDocument(pages: seq<string>, m: nat)
    requires m <= |pages|
    ensures Strings.Substring(Assemble(pages), |Blocks(pages, 0, m)|, |Assemble(pages)|) == Blocks(pages, m, |pages|)
  {
    AssembleSplit(pages, m);
    SubstringOfConcat(Blocks(pages, 0, m), Blocks(pages, m, |pages|));
  }

  /** With a cleared box, the window is `substring` between the two searches. */
  lemma SelectInputIs(text: string, totalPages: int, start: PageInput, end: PageInput, si: int, ei: int)
    requires start.NotANumber? || end.NotANumber?
    requires si == StartIndex(text, start) && ei == EndIndex(text, totalPages, end)
    ensures SelectInput(text, totalPages, start, end) == Success(Strings.Substring(text, si, ei))
  {
  }

  lemma SubstringOfConcat(a: string, b: string)
    ensures Strings.Substring(a + b, -1, |a|) == a
    ensures Strings.Substring(a + b, |a|, |a + b|) == b
  {
    assert (a + b)[..|a|] == a;
    assert (a + b)[|a|..] == b;
  }

  lemma AssembleNonEmpty(pages: seq<string>)
    requires |pages| > 0
    ensures |Assemble(pages)| > 0
  {
    var n := |pages|;
    assert Assemble(pages) == Blocks(pages, 0, n - 1) + Block(n, pages[n - 1]);
  }
}
