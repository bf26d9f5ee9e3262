/** Text assembly of the document extractor: each page's text items are joined with a single space
    and the pages are concatenated as blocks `"[Page i]\n" + pageText + "\n\n"`, i = 1..n, while a
    rounded percentage is reported after each page. Loading the file and reading pages are I/O:
    the pages' text items arrive as input. */
module PdfText {
  import opened Strings
  import opened Numbers

  /** An entry of a page's text content: a text run, or a marked-content item without a string. */
  datatype TextItem = TextRun(str: string) | MarkedContent

  function ItemText(item: TextItem): string {
    if item.TextRun? then item.str else ""
  }

  function ItemTexts(items: seq<TextItem>): (r: seq<string>)
    ensures |r| == |items|
    ensures forall i :: 0 <= i < |items| ==> r[i] == ItemText(items[i])
  {
    seq(|items|, i requires 0 <= i < |items| => ItemText(items[i]))
  }

  /** A page's text: its items' strings joined with one space, non-text items contributing "". */
  function PageText(items: seq<TextItem>): (r: string)
    ensures |items| == 0 ==> r == ""
    ensures |items| > 0 ==> |r| == SumLengths(ItemTexts(items)) + |items| - 1
    ensures |items| == 1 ==> r == ItemText(items[0])
  {
    if |items| == 0 then ""
    else
      JoinLength(ItemTexts(items), " ");
      Join(ItemTexts(items), " ")
  }

  /** Contents, item by item: the text of all but the last item, one space, then the last item's text. */
  lemma PageTextSnoc(items: seq<TextItem>)
    requires |items| > 1
    ensures PageText(items) == PageText(items[..|items| - 1]) + " " + ItemText(items[|items| - 1])
  {
    assert ItemTexts(items[..|items| - 1]) == ItemTexts(items)[..|items| - 1];
  }

  /** The text of two runs of items is their texts with one space between. */
  lemma PageTextConcat(a: seq<TextItem>, b: seq<TextItem>)
    requires |a| > 0 && |b| > 0
    ensures PageText(a + b) == PageText(a) + " " + PageText(b)
  {
    assert ItemTexts(a + b) == ItemTexts(a) + ItemTexts(b);
    JoinConcat(ItemTexts(a), ItemTexts(b), " ");
  }

  function PageTexts(pages: seq<seq<TextItem>>): (r: seq<string>)
    ensures |r| == |pages|
    ensures forall i :: 0 <= i < |pages| ==> r[i] == PageText(pages[i])
  {
    seq(|pages|, i requires 0 <= i < |pages| => PageText(pages[i]))
  }

  /** The marker that opens page `n`'s block. */
  function Marker(n: nat): string {
    "[Page " + NatToString(n) + "]"
  }

  /** The block of page `n`. */
  function Block(n: nat, text: string): string {
    Marker(n) + "\n" + text + "\n\n"
  }

  /** The blocks of pages lo+1 .. hi, in page order. */
  function Blocks(pages: seq<string>, lo: nat, hi: nat): string
    requires lo <= hi <= |pages|
    decreases hi - lo
  {
    if lo == hi then "" else Blocks(pages, lo, hi - 1) + Block(hi, pages[hi - 1])
  }

  /** The extractor's full text for the given page texts. */
  function Assemble(pages: seq<string>): string {
    Blocks(pages, 0, |pages|)
  }

  /** Adjacent runs of blocks concatenate to the run that spans both. */
  lemma {:induction false} BlocksSplit(pages: seq<string>, lo: nat, mid: nat, hi: nat)
    requires lo <= mid <= hi <= |pages|
    ensures Blocks(pages, lo, hi) == Blocks(pages, lo, mid) + Blocks(pages, mid, hi)
  {
    if mid < hi {
      BlocksSplit(pages, lo, mid, hi - 1);
    }
  }

  /** `Math.round(i / n * 100)` on exact rationals: floor(100 i / n + 1/2). */
  function Progress(i: nat, n: nat): int
    requires n > 0
  {
    (200 * i + n) / (2 * n)
  }

  /** Every reported percentage is in [0, 100], later pages never report less, and page n reports 100. */
  lemma ProgressFacts(i: nat, j: nat, n: nat)
    requires 1 <= i <= j <= n
    ensures 0 <= Progress(i, n) <= Progress(j, n) <= 100
    ensures Progress(n, n) == 100
  {
    DivMonotone(200 * i + n, 200 * j + n, 2 * n);
    DivMonotone(200 * j + n, 200 * n + n, 2 * n);
    DivIs(200 * n + n, 2 * n, 100);
    DivMonotone(0, 200 * i + n, 2 * n);
  }

  /** The percentages reported after pages 1 .. m of an n-page document. */
  function Reports(m: nat, n: nat): (r: seq<int>)
    requires m <= n
    ensures |r| == m
  {
    if m == 0 then [] else Reports(m - 1, n) + [Progress(m, n)]
  }

  lemma {:induction false} ReportsFacts(m: nat, n: nat)
    requires m <= n
    ensures forall a :: 0 <= a < m ==> Reports(m, n)[a] == Progress(a + 1, n)
  {
    if m > 0 {
      ReportsFacts(m - 1, n);
    }
  }

  /** The extraction loop: the full text and the progress reported after each page. */
  method ExtractText(pages: seq<seq<TextItem>>) returns (text: string, progress: seq<int>)
    ensures text == Assemble(PageTexts(pages))
    ensures |pages| == 0 ==> text == ""
    ensures |progress| == |pages|
    ensures forall i :: 0 <= i < |progress| ==> 0 <= progress[i] <= 100
    ensures forall i, j :: 0 <= i <= j < |progress| ==> progress[i] <= progress[j]
    ensures |pages| > 0 ==> progress[|pages| - 1] == 100
  {
    var n := |pages|;
    ghost var texts := PageTexts(pages);
    text := "";
    progress := [];
    var i := 1;
    while i <= n
      invariant 1 <= i <= n + 1
      invariant text == Blocks(texts, 0, i - 1)
      invariant progress == Reports(i - 1, n)
    {
      var pageText := PageText(pages[i - 1]);
      assert pageText == texts[i - 1];
      text := text + Block(i, pageText);
      assert text == Blocks(texts, 0, i);
      progress := progress + [Progress(i, n)];
      i := i + 1;
    }
    ReportsFacts(n, n);
    forall a, b | 0 <= a <= b < n ensures 0 <= progress[a] <= progress[b] <= 100 {
      assert progress[a] == Progress(a + 1, n) && progress[b] == Progress(b + 1, n);
      ProgressFacts(a + 1, b + 1, n);
    }
    if n > 0 {
      ProgressFacts(n, n, n);
    }
  }
}
