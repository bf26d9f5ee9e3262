/** Page windows over page-tagged text: the quiz generator clamps a page range, finds the marker of
    the first page and the marker of the page after the last, and takes the text between them with
    JavaScript `substring` semantics. */
module PageWindow {
  import opened Wrappers
  import opened Strings
  import opened PdfText

  /** The text every page marker starts with. */
  const Tag: string := "[Page "

  /** The least trimmed length a quiz context must have. */
  const MinContextLength: nat := 100

  /** A page text in which no page marker can be mistaken for a real one. */
  predicate MarkerFree(t: string) {
    forall q :: 0 <= q <= |t| ==> !OccursAt(t, Tag, q)
  }

  predicate AllMarkerFree(pages: seq<string>) {
    forall i :: 0 <= i < |pages| ==> MarkerFree(pages[i])
  }

  datatype WindowError = NoDocument | InvalidRange | InsufficientContent

  function Max(a: int, b: int): int { if a >= b then a else b }
  function Min(a: int, b: int): int { if a <= b then a else b }

  /** The page range after clamping: start raised to at least 1, end lowered to at most `totalPages`. */
  function ClampedStart(start: int): (s: int)
    ensures s >= 1 && s >= start && (start >= 1 ==> s == start)
  {
    Max(1, start)
  }

  function ClampedEnd(totalPages: int, end: int): (e: int)
    ensures e <= totalPages && e <= end && (end <= totalPages ==> e == end)
  {
    Min(totalPages, end)
  }

  /** The text of pages `start..end` of `text`: clamp the range, refuse an empty one, then cut from the
      first `[Page start]` to the first `[Page end+1]` (or to the end of the text). A missing start
      marker gives index -1, which `substring` reads as 0. */
  function SelectPages(text: string, totalPages: int, start: int, end: int): (r: Result<string, WindowError>)
    ensures r.Failure? <==> ClampedStart(start) > ClampedEnd(totalPages, end)
    ensures r.Failure? ==> r.error == InvalidRange
    ensures totalPages <= 0 ==> r == Failure(InvalidRange)
    ensures r.Success? ==> |r.value| <= |text|
  {
    var s := ClampedStart(start);
    var e := ClampedEnd(totalPages, end);
    if s > e then Failure(InvalidRange)
    else
      Success(Substring(text, IndexOf(text, Marker(s)), WindowEnd(text, e)))
  }

  /** Where the window for pages up to `e` ends: at the first `[Page e+1]`, or at the end of the text. */
  function WindowEnd(text: string, e: nat): int {
    var found := IndexOf(text, Marker(e + 1));
    if found == -1 then |text| else found
  }

  // ----- Page numbers as the page boxes deliver them -----

  /** A page box's value: `parseInt` of what was typed, or `NaN` when the box is cleared (or holds no
      digits). */
  datatype PageInput = Number(n: int) | NotANumber

  /** `${k}` for any integer page number, a negative one with its minus sign. */
  function PageLabel(k: int): (r: string)
    ensures k >= 0 ==> r == NatToString(k)
    ensures k < 0 ==> r == "-" + NatToString(-k)
  {
    if k >= 0 then NatToString(k) else "-" + NatToString(-k)
  }

  function MarkerOf(k: int): (r: string)
    ensures k >= 0 ==> r == Marker(k)
  {
    "[Page " + PageLabel(k) + "]"
  }

  /** The marker both searches look for when their page is `NaN`: `${NaN}` and `${NaN + 1}` print
      alike. */
  const NanMarker: string := "[Page NaN]"

  /** Where the window starts: the first marker of the clamped start page, or of `NaN`. */
  function StartIndex(text: string, start: PageInput): (r: int)
    ensures -1 <= r <= |text|
  {
    match start
    case Number(n) => IndexOf(text, Marker(ClampedStart(n)))
    case NotANumber => IndexOf(text, NanMarker)
  }

  /** Where the window ends: the first marker of the page after the clamped end page, or of `NaN`;
      the end of the text when it is missing. */
  function EndIndex(text: string, totalPages: int, end: PageInput): (r: int)
    ensures 0 <= r <= |text|
  {
    var found := match end
      case Number(n) => IndexOf(text, MarkerOf(ClampedEnd(totalPages, n) + 1))
      case NotANumber => IndexOf(text, NanMarker);
    if found == -1 then |text| else found
  }

  /** The window of the page boxes as typed. Every comparison with `NaN` is false, so a range with a
      cleared box is never refused: its searches read `[Page NaN]`. Two numbers are `SelectPages`. */
  function SelectInput(text: string, totalPages: int, start: PageInput, end: PageInput): (r: Result<string, WindowError>)
    ensures start.Number? && end.Number? ==> r == SelectPages(text, totalPages, start.n, end.n)
    ensures start.NotANumber? || end.NotANumber? ==> r.Success? && |r.value| <= |text|
    ensures r.Failure? <==> start.Number? && end.Number? && ClampedStart(start.n) > ClampedEnd(totalPages, end.n)
  {
    if start.Number? && end.Number? then SelectPages(text, totalPages, start.n, end.n)
    else Success(Substring(text, StartIndex(text, start), EndIndex(text, totalPages, end)))
  }

  /** The context the quiz generator sends: no document, an invalid range, or a window whose trimmed
      length (in UTF-16 code units, as JavaScript counts it) is below `MinContextLength` is refused;
      any other window is the context. */
  function QuizContext(text: string, totalPages: int, start: PageInput, end: PageInput): (r: Result<string, WindowError>)
    ensures text == "" ==> r == Failure(NoDocument)
    ensures r.Success? ==> Utf16Length(Trim(r.value)) >= MinContextLength && SelectInput(text, totalPages, start, end) == r
    ensures r.Failure? && r.error == InsufficientContent ==>
      SelectInput(text, totalPages, start, end).Success? && Utf16Length(Trim(SelectInput(text, totalPages, start, end).value)) < MinContextLength
    ensures text != "" && SelectInput(text, totalPages, start, end).Failure? ==> r == Failure(InvalidRange)
    ensures var window := SelectInput(text, totalPages, start, end);
      text != "" && window.Success? && Utf16Length(Trim(window.value)) >= MinContextLength ==> r == window
  {
    if text == "" then Failure(NoDocument)
    else
      var window :- SelectInput(text, totalPages, start, end);
      if Utf16Length(Trim(window)) < MinContextLength then Failure(InsufficientContent) else Success(window)
  }

  // ----- Where page markers can occur in assembled text -----

  lemma OccursShift(a: string, b: string, pat: string, q: int)
    requires q >= 0
    ensures OccursAt(a + b, pat, |a| + q) <==> OccursAt(b, pat, q)
  {
    if q + |pat| <= |b| {
      assert (a + b)[|a| + q..|a| + q + |pat|] == b[q..q + |pat|];
    }
  }

  lemma OccursChar(s: string, pat: string, p: int, i: int)
    requires OccursAt(s, pat, p) && 0 <= i < |pat|
    ensures s[p + i] == pat[i]
  {
    assert s[p..p + |pat|][i] == s[p + i];
  }

  lemma OccursPrefix(s: string, pat: string, pre: string, p: int)
    requires OccursAt(s, pat, p) && IsPrefix(pre, pat)
    ensures OccursAt(s, pre, p)
  {
    assert s[p..p + |pre|] == s[p..p + |pat|][..|pre|];
  }

  /** Two digit strings each followed by `]` agree when one is a prefix of the other. */
  lemma DigitsBeforeBracket(a: string, b: string, rest: string)
    requires forall i :: 0 <= i < |a| ==> IsDigit(a[i])
    requires forall i :: 0 <= i < |b| ==> IsDigit(b[i])
    requires IsPrefix(a + "]", b + "]" + rest)
    ensures a == b
  {
    var u := b + "]" + rest;
    assert u[..|a| + 1] == a + "]";
    assert u[|a|] == ']';
    assert u[|b|] == ']';
    assert |a| == |b|;
    assert forall i :: 0 <= i < |a| ==> a[i] == (a + "]")[i] == u[i] == b[i];
  }

  /** A block opens with its own marker. */
  lemma BlockOpensWithMarker(k: nat, t: string, rest: string)
    ensures OccursAt(Block(k, t) + rest, Marker(k), 0)
  {
    var u := Block(k, t) + rest;
    assert u == Marker(k) + ("\n" + t + "\n\n" + rest);
    assert u[..|Marker(k)|] == Marker(k);
  }

  /** Inside a block of marker-free page text, a page marker occurs only at the block's start, and only
      the block's own marker. */
  lemma MarkerInBlock(j: nat, t: string, rest: string, k: nat, q: int)
    requires MarkerFree(t)
    requires 0 <= q < |Block(j, t)|
    requires OccursAt(Block(j, t) + rest, Marker(k), q)
    ensures q == 0 && k == j
  {
    var u := Block(j, t) + rest;
    var h := |Marker(j)| + 1;
    BlockLayout(j, t, rest);
    assert Marker(k)[0] == '[';
    OccursChar(u, Marker(k), q, 0);
    assert IsPrefix(Tag, Marker(k));
    OccursPrefix(u, Marker(k), Tag, q);
    if q == 0 {
      MarkerAtBlockStart(j, t, rest, k);
    } else if q < h {
      HeaderHasOneBracket(j, q);
    } else if q < h + |t| {
      NoTagInText(u, t, h, q);
    }
  }

  /** Where the header, the page text and the closing line breaks of a block sit. */
  lemma BlockLayout(j: nat, t: string, rest: string)
    ensures var u, h := Block(j, t) + rest, |Marker(j)| + 1;
      && |Block(j, t)| == h + |t| + 2
      && u[..h] == Marker(j) + "\n"
      && (forall i :: 0 <= i < h ==> u[i] == (Marker(j) + "\n")[i])
      && u[h..h + |t|] == t
      && u[h + |t|] == '\n' && u[h + |t| + 1] == '\n'
  {
    var u, h := Block(j, t) + rest, |Marker(j)| + 1;
    assert u == (Marker(j) + "\n") + t + "\n\n" + rest;
  }

  /** The header `[Page j]` followed by a line break holds `[` only at its start. */
  lemma HeaderHasOneBracket(j: nat, q: int)
    requires 0 < q < |Marker(j)| + 1
    ensures (Marker(j) + "\n")[q] != '['
  {
    var d := NatToString(j);
    var hd := Marker(j) + "\n";
    assert hd == Tag + d + "]\n";
    if 6 <= q < 6 + |d| {
      assert hd[q] == d[q - 6];
    }
  }

  /** Text that starts with `Tag` keeps what follows the tag. */
  lemma StripTag(x: string, v: string)
    requires IsPrefix(Tag + x, Tag + v)
    ensures IsPrefix(x, v)
  {
    assert v[..|x|] == (Tag + v)[..|Tag + x|][6..];
  }

  /** A marker found at the start of block j is the marker of page j. */
  lemma MarkerAtBlockStart(j: nat, t: string, rest: string, k: nat)
    requires OccursAt(Block(j, t) + rest, Marker(k), 0)
    ensures k == j
  {
    var d, dk := NatToString(j), NatToString(k);
    var tail := "\n" + t + "\n\n" + rest;
    var v := d + "]" + tail;
    assert Block(j, t) + rest == Tag + v;
    assert Marker(k) == Tag + (dk + "]");
    StripTag(dk + "]", v);
    DigitsBeforeBracket(dk, d, tail);
    NatToStringInjective(k, j);
  }

  /** No marker tag starts inside marker-free page text, not even one running past the text's end
      into the line break that follows it. */
  lemma NoTagInText(u: string, t: string, h: int, q: int)
    requires MarkerFree(t)
    requires 0 <= h <= q < h + |t| < |u| && u[h..h + |t|] == t && u[h + |t|] == '\n'
    ensures !OccursAt(u, Tag, q)
  {
    var q' := q - h;
    if q' + 6 <= |t| {
      var x, y := u[q..q + 6], t[q'..q' + 6];
      forall i | 0 <= i < 6 ensures x[i] == y[i] {
        assert u[h..h + |t|][q' + i] == u[q + i];
      }
      assert x == y;
      assert !OccursAt(t, Tag, q');
    } else if q + 6 <= |u| {
      assert u[q..q + 6][h + |t| - q] == '\n';
    }
  }

  /** Any page marker inside the first m blocks of marker-free pages names one of pages 1..m. */
  lemma {:induction false} MarkerPositions(pages: seq<string>, m: nat, rest: string, k: nat, p: int)
    requires AllMarkerFree(pages) && m <= |pages|
    requires 0 <= p < |Blocks(pages, 0, m)|
    requires OccursAt(Blocks(pages, 0, m) + rest, Marker(k), p)
    ensures 1 <= k <= m
  {
    var before := Blocks(pages, 0, m - 1);
    var block := Block(m, pages[m - 1]);
    assert Blocks(pages, 0, m) + rest == before + (block + rest);
    if p < |before| {
      MarkerPositions(pages, m - 1, block + rest, k, p);
    } else {
      OccursShift(before, block + rest, Marker(k), p - |before|);
      MarkerInBlock(m, pages[m - 1], rest, k, p - |before|);
    }
  }

  /** A text without `pre` at `p` has nothing starting with `pre` there either. */
  lemma OccursPrefixImplies(s: string, pat: string, pre: string, p: int)
    requires IsPrefix(pre, pat)
    ensures OccursAt(s, pat, p) ==> OccursAt(s, pre, p)
  {
    if OccursAt(s, pat, p) {
      OccursPrefix(s, pat, pre, p);
    }
  }

  /** A tag that is not a page number: `[Page ` followed by something other than a digit, such as
      the `[Page NaN]` of a cleared box or the `[Page -1]` of a negative page. */
  predicate NonNumericTag(pat: string) {
    |pat| > |Tag| && IsPrefix(Tag, pat) && !IsDigit(pat[|Tag|])
  }

  /** No non-numeric tag starts inside a block of marker-free page text: the block's own marker has
      a digit right after the tag, and no other `[` of the block opens a tag. */
  lemma NonNumericNotInBlock(j: nat, t: string, rest: string, q: int, pat: string)
    requires MarkerFree(t) && NonNumericTag(pat)
    requires 0 <= q < |Block(j, t)|
    ensures !OccursAt(Block(j, t) + rest, pat, q)
  {
    var u := Block(j, t) + rest;
    var h := |Marker(j)| + 1;
    var m := |pat|;
    assert pat[0] == Tag[0] == '[';
    BlockLayout(j, t, rest);
    if q + m <= |u| {
      if q == 0 {
        var d := NatToString(j);
        assert Marker(j) + "\n" == Tag + d + "]\n";
        assert u[6] == (Marker(j) + "\n")[6] == d[0];
        assert u[q..q + m][6] == u[6];
      } else if q < h {
        HeaderHasOneBracket(j, q);
        assert u[q..q + m][0] == u[q];
      } else if q < h + |t| {
        NoTagInText(u, t, h, q);
        OccursPrefixImplies(u, pat, Tag, q);
      } else {
        assert u[q] == '\n';
        assert u[q..q + m][0] == u[q];
      }
    }
  }

  /** The first m blocks of marker-free pages hold no non-numeric tag. */
  lemma {:induction false} NonNumericNotInBlocks(pages: seq<string>, m: nat, rest: string, p: int, pat: string)
    requires AllMarkerFree(pages) && m <= |pages| && NonNumericTag(pat)
    requires 0 <= p < |Blocks(pages, 0, m)|
    ensures !OccursAt(Blocks(pages, 0, m) + rest, pat, p)
  {
    var before := Blocks(pages, 0, m - 1);
    var block := Block(m, pages[m - 1]);
    assert Blocks(pages, 0, m) + rest == before + (block + rest);
    if p < |before| {
      NonNumericNotInBlocks(pages, m - 1, block + rest, p, pat);
    } else {
      OccursShift(before, block + rest, pat, p - |before|);
      NonNumericNotInBlock(m, pages[m - 1], rest, p - |before|, pat);
    }
  }

  /** The search for a non-numeric tag in an assembled document finds nothing. */
  lemma NonNumericMissing(pages: seq<string>, pat: string)
    requires AllMarkerFree(pages) && NonNumericTag(pat)
    ensures IndexOf(Assemble(pages), pat) == -1
  {
    var text := Assemble(pages);
    forall p | 0 <= p <= |text| ensures !OccursAt(text, pat, p) {
      if p < |text| {
        NonNumericNotInBlocks(pages, |pages|, "", p, pat);
        assert text + "" == text;
      }
    }
  }

  /** The search for `[Page NaN]` in an assembled document finds nothing. */
  lemma NanMarkerMissing(pages: seq<string>)
    requires AllMarkerFree(pages)
    ensures IndexOf(Assemble(pages), NanMarker) == -1
  {
    assert NanMarker == Tag + "NaN]";
    NonNumericMissing(pages, NanMarker);
  }

  /** The marker of a negative page is `[Page -k]`, which no document holds. */
  lemma NegativeMarkerMissing(pages: seq<string>, k: int)
    requires AllMarkerFree(pages) && k < 0
    ensures IndexOf(Assemble(pages), MarkerOf(k)) == -1
  {
    assert MarkerOf(k) == Tag + ("-" + NatToString(-k) + "]");
    NonNumericMissing(pages, MarkerOf(k));
  }

  /** In text assembled from marker-free pages, the first `[Page k]` is at the start of block k for
      1 <= k <= n, and `[Page n+1]` does not occur. */
  lemma MarkerIndex(pages: seq<string>, k: nat)
    requires AllMarkerFree(pages) && 1 <= k <= |pages| + 1
    ensures k <= |pages| ==> IndexOf(Assemble(pages), Marker(k)) == |Blocks(pages, 0, k - 1)|
    ensures k == |pages| + 1 ==> IndexOf(Assemble(pages), Marker(k)) == -1
  {
    if k <= |pages| {
      MarkerFound(pages, k);
    } else {
      MarkerMissing(pages);
    }
  }

  lemma MarkerFound(pages: seq<string>, k: nat)
    requires AllMarkerFree(pages) && 1 <= k <= |pages|
    ensures IndexOf(Assemble(pages), Marker(k)) == |Blocks(pages, 0, k - 1)|
  {
    var n := |pages|;
    var text := Assemble(pages);
    var before := Blocks(pages, 0, k - 1);
    var after := Block(k, pages[k - 1]) + Blocks(pages, k, n);
    DocumentAtBlock(pages, k);
    BlockOpensWithMarker(k, pages[k - 1], Blocks(pages, k, n));
    OccursShift(before, after, Marker(k), 0);
    forall p | 0 <= p < |before| ensures !OccursAt(text, Marker(k), p) {
      if OccursAt(text, Marker(k), p) {
        MarkerPositions(pages, k - 1, after, k, p);
      }
    }
    IndexOfIs(text, Marker(k), |before|);
  }

  /** An assembled document is the blocks before page k, then block k, then the blocks after it. */
  lemma DocumentAtBlock(pages: seq<string>, k: nat)
    requires 1 <= k <= |pages|
    ensures Assemble(pages) == Blocks(pages, 0, k - 1) + (Block(k, pages[k - 1]) + Blocks(pages, k, |pages|))
  {
    BlocksSplit(pages, 0, k - 1, |pages|);
    BlocksSplit(pages, k - 1, k, |pages|);
  }

  lemma MarkerMissing(pages: seq<string>)
    requires AllMarkerFree(pages)
    ensures IndexOf(Assemble(pages), Marker(|pages| + 1)) == -1
  {
    var n := |pages|;
    var text := Assemble(pages);
    var m := Marker(n + 1);
    assert text + "" == text;
    forall p | 0 <= p <= |text| ensures !OccursAt(text, m, p) {
      if OccursAt(text, m, p) {
        MarkerPositions(pages, n, "", n + 1, p);
      }
    }
    IndexOfAbsent(text, m);
  }

  /** No page marker outside 1..n occurs in a document of n marker-free pages: not `[Page 0]`, and
      not the marker of any page past the last. */
  lemma MarkerAbsent(pages: seq<string>, k: nat)
    requires AllMarkerFree(pages)
    requires k == 0 || k > |pages|
    ensures IndexOf(Assemble(pages), Marker(k)) == -1
  {
    var n := |pages|;
    var text := Assemble(pages);
    var m := Marker(k);
    assert text + "" == text;
    forall p | 0 <= p <= |text| ensures !OccursAt(text, m, p) {
      if OccursAt(text, m, p) {
        MarkerPositions(pages, n, "", k, p);
      }
    }
    IndexOfAbsent(text, m);
  }

  /** `SelectPages` once its two marker searches are known. */
  lemma SelectPagesIs(text: string, totalPages: int, start: int, end: int, si: int, ei: int)
    requires ClampedStart(start) <= ClampedEnd(totalPages, end)
    requires si == IndexOf(text, Marker(ClampedStart(start)))
    requires ei == WindowEnd(text, ClampedEnd(totalPages, end))
    ensures SelectPages(text, totalPages, start, end) == Success(Substring(text, si, ei))
  {
  }

  /** Round trip: windowing text assembled from marker-free pages with 1 <= start <= end <= n gives
      exactly the blocks of pages start..end. */
  lemma WindowRoundTrip(pages: seq<string>, start: int, end: int)
    requires AllMarkerFree(pages)
    requires 1 <= start <= end <= |pages|
    ensures SelectPages(Assemble(pages), |pages|, start, end) == Success(Blocks(pages, start - 1, end))
  {
    var text := Assemble(pages);
    var a, b := |Blocks(pages, 0, start - 1)|, |Blocks(pages, 0, end)|;
    assert IndexOf(text, Marker(start)) == a by { MarkerIndex(pages, start); }
    assert WindowEnd(text, end) == b by { WindowEndOfDocument(pages, end); }
    assert Substring(text, a, b) == Blocks(pages, start - 1, end) by {
      BlocksSlice(pages, start, end);
      assert Substring(text, a, b) == text[a..b];
    }
    SelectPagesIs(text, |pages|, start, end, a, b);
  }

  /** The end of the window for pages ..end: where `[Page end+1]` starts, or the end of the text. */
  lemma WindowEndOfDocument(pages: seq<string>, end: int)
    requires AllMarkerFree(pages) && 1 <= end <= |pages|
    ensures WindowEnd(Assemble(pages), end) == |Blocks(pages, 0, end)|
  {
    MarkerIndex(pages, end + 1);
    if end == |pages| {
      BlocksSplit(pages, 0, end, end);
    }
  }

  /** Blocks start..end sit between the ends of blocks 1..start-1 and 1..end of the full text. */
  lemma BlocksSlice(pages: seq<string>, start: int, end: int)
    requires 1 <= start <= end <= |pages|
    ensures var a, b := |Blocks(pages, 0, start - 1)|, |Blocks(pages, 0, end)|;
      && 0 <= a <= b <= |Assemble(pages)|
      && (end == |pages| ==> b == |Assemble(pages)|)
      && Assemble(pages)[a..b] == Blocks(pages, start - 1, end)
  {
    var n := |pages|;
    BlocksSplit(pages, 0, end, n);
    BlocksSplit(pages, 0, start - 1, end);
    assert Assemble(pages) == Blocks(pages, 0, start - 1) + Blocks(pages, start - 1, end) + Blocks(pages, end, n);
  }
}
