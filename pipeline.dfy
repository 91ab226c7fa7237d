/**
 * The script's `main` (main.py:46-125): collect the chapter links, sort them naturally,
 * stop when there are none, and otherwise build the book. Each link in sorted order is
 * chapter i, counting from 1. It gets a page labelled "CHAPTER i" only when its
 * extraction produced a record with at least one paragraph. A failure leaves a gap
 * in the numbering, and nothing is renumbered.
 */
module Pipeline {
  import opened Wrappers
  import opened Seqs
  import opened Text
  import opened NaturalSort
  import opened LinkCollector
  import opened ChapterExtractor

  const BookTitle: string := "SHINE ON ME"
  const BookSubtitle: string := "A Complete Novel Collection"

  /** A chapter page as the book holds it: its label, its title and its paragraphs. */
  datatype ChapterPage = ChapterPage(caption: string, title: string, body: seq<string>)

  /**
   * What a run produces: nothing, a run ended by an exception while drawing a chapter
   * title, or a book with a title page and chapter pages.
   */
  datatype Outcome = NoChapters | Aborted | Book(title: string, subtitle: string, pages: seq<ChapterPage>)

  /**
   * Text the built-in PDF fonts can draw: every character is in Latin-1. Drawing any
   * other character with such a font raises an exception.
   */
  predicate Drawable(s: string) {
    forall i :: 0 <= i < |s| ==> IsLatin1(s[i])
  }

  /** `f"CHAPTER {i}"`. */
  function Label(i: nat): string {
    "CHAPTER " + NatToString(i)
  }

  lemma LabelInjective(i: nat, j: nat)
    ensures Label(i) == Label(j) <==> i == j
  {
    if Label(i) == Label(j) {
      assert NatToString(i) == Label(i)[8..] && NatToString(j) == Label(j)[8..];
      NatToStringInjective(i, j);
    }
  }

  /** A chapter label is plain ASCII, so it can always be drawn. */
  lemma LabelDrawable(i: nat)
    ensures Drawable(Label(i))
  {
    var d := NatToString(i);
    assert forall j :: 0 <= j < |d| ==> IsDigit(d[j]);
    assert forall j :: 8 <= j < |Label(i)| ==> Label(i)[j] == d[j - 8];
  }

  /** `chapter and chapter['content']`: extraction succeeded and kept some paragraph. */
  predicate HasContent(chapter: Option<Chapter>) {
    chapter.Some? && chapter.value.content != []
  }

  /**
   * Every paragraph of a chapter after the Latin-1 round trip: one body paragraph per
   * paragraph, each drawable and made of the original's characters in their order.
   */
  function CleanBody(content: seq<string>): (body: seq<string>)
    ensures |body| == |content|
    ensures forall k :: 0 <= k < |body| ==> Drawable(body[k]) && IsSubsequence(body[k], content[k])
  {
    CleanedParagraphs(content);
    seq(|content|, k requires 0 <= k < |content| => Latin1Clean(content[k]))
  }

  /** Helper for CleanBody: the Latin-1 round trip of each paragraph. */
  lemma CleanedParagraphs(content: seq<string>)
    ensures forall k :: 0 <= k < |content| ==>
      Drawable(Latin1Clean(content[k])) && IsSubsequence(Latin1Clean(content[k]), content[k])
  {
    forall k | 0 <= k < |content|
      ensures Drawable(Latin1Clean(content[k])) && IsSubsequence(Latin1Clean(content[k]), content[k])
    {
      Latin1CleanSpec(content[k]);
    }
  }

  /** The page for chapter `i`. The title is printed as extracted, without the Latin-1 round trip. */
  function PageFor(i: nat, chapter: Chapter): ChapterPage {
    ChapterPage(Label(i), chapter.title, CleanBody(chapter.content))
  }

  /** The extraction results for the links, in order. */
  function Fetched(fetch: string -> Option<ParsedPage>, links: seq<string>): (chapters: seq<Option<Chapter>>)
    ensures |chapters| == |links|
  {
    seq(|links|, i requires 0 <= i < |links| => ExtractChapter(fetch(links[i])))
  }

  /** The chapter pages for the extraction results, chapter i being `chapters[i - 1]`. */
  function Pages(chapters: seq<Option<Chapter>>): seq<ChapterPage> {
    if chapters == [] then []
    else
      var prev := Pages(chapters[..|chapters| - 1]);
      var last := chapters[|chapters| - 1];
      if HasContent(last) then prev + [PageFor(|chapters|, last.value)] else prev
  }

  /** A chapter that gets a page has a title the font can draw. */
  predicate ChapterDrawable(chapter: Option<Chapter>) {
    HasContent(chapter) ==> Drawable(chapter.value.title)
  }

  /** Every chapter that gets a page has a title the font can draw. */
  predicate TitlesDrawable(chapters: seq<Option<Chapter>>) {
    forall i :: 0 <= i < |chapters| ==> ChapterDrawable(chapters[i])
  }

  /** The 1-based numbers of the chapters that get a page, in increasing order. */
  function Numbers(chapters: seq<Option<Chapter>>): seq<nat> {
    if chapters == [] then []
    else
      var prev := Numbers(chapters[..|chapters| - 1]);
      if HasContent(chapters[|chapters| - 1]) then prev + [|chapters|] else prev
  }

  /** The numbers are strictly increasing and are exactly the chapters with content. */
  lemma {:induction false} NumbersSpec(chapters: seq<Option<Chapter>>)
    ensures forall k :: 0 <= k < |Numbers(chapters)| ==> 1 <= Numbers(chapters)[k] <= |chapters|
    ensures forall k, l :: 0 <= k < l < |Numbers(chapters)| ==> Numbers(chapters)[k] < Numbers(chapters)[l]
    ensures forall i :: i in Numbers(chapters) <==> 1 <= i <= |chapters| && HasContent(chapters[i - 1])
  {
    if chapters != [] {
      var init := chapters[..|chapters| - 1];
      NumbersSpec(init);
      assert forall i :: 0 <= i < |init| ==> chapters[i] == init[i];
    }
  }

  /** Page k is the page of chapter `Numbers(chapters)[k]`, built from that chapter's record. */
  lemma {:induction false} PagesNumbered(chapters: seq<Option<Chapter>>)
    ensures |Pages(chapters)| == |Numbers(chapters)|
    ensures forall k :: 0 <= k < |Pages(chapters)| ==>
      var i := Numbers(chapters)[k];
      1 <= i <= |chapters| && HasContent(chapters[i - 1]) && Pages(chapters)[k] == PageFor(i, chapters[i - 1].value)
  {
    if chapters != [] {
      var init := chapters[..|chapters| - 1];
      PagesNumbered(init);
      NumbersSpec(init);
      assert forall i :: 0 <= i < |init| ==> chapters[i] == init[i];
    }
  }

  /**
   * A page labelled "CHAPTER i" exists exactly when chapter i has content, at most one
   * for each i, and the labels appear in increasing order of i.
   */
  lemma LabelsExact(chapters: seq<Option<Chapter>>, i: nat)
    ensures (exists k :: 0 <= k < |Pages(chapters)| && Pages(chapters)[k].caption == Label(i))
      <==> 1 <= i <= |chapters| && HasContent(chapters[i - 1])
    ensures forall k, l :: 0 <= k < l < |Pages(chapters)| ==> Pages(chapters)[k].caption != Pages(chapters)[l].caption
  {
    PagesNumbered(chapters);
    NumbersSpec(chapters);
    var p, n := Pages(chapters), Numbers(chapters);
    if k :| 0 <= k < |p| && p[k].caption == Label(i) {
      LabelInjective(n[k], i);
    }
    if 1 <= i <= |chapters| && HasContent(chapters[i - 1]) {
      assert i in n;
      var k :| 0 <= k < |n| && n[k] == i;
      assert p[k].caption == Label(i);
    }
    forall k, l | 0 <= k < l < |p|
      ensures p[k].caption != p[l].caption
    {
      LabelInjective(n[k], n[l]);
    }
  }

  /** Three chapters whose middle one fails give the pages "CHAPTER 1" and "CHAPTER 3". */
  lemma MiddleChapterFails(c1: Chapter, c2: Option<Chapter>, c3: Chapter)
    requires c1.content != [] && !HasContent(c2) && c3.content != []
    ensures Pages([Some(c1), c2, Some(c3)]) == [PageFor(1, c1), PageFor(3, c3)]
    ensures PageFor(1, c1).caption == "CHAPTER 1" && PageFor(3, c3).caption == "CHAPTER 3"
  {
    var s := [Some(c1), c2, Some(c3)];
    assert s[..2][..1] == [Some(c1)] && s[..2] == [Some(c1), c2];
    assert [Some(c1)][..0] == [];
    assert Pages([Some(c1)]) == [PageFor(1, c1)];
  }

  /** An object of the PDF builder, reduced to the contents it accumulates. */
  class NovelPdf {
    var title: string
    var subtitle: string
    var pages: seq<ChapterPage>

    /** `NovelPDF()` followed by the title page. */
    constructor (title: string, subtitle: string)
      ensures this.title == title && this.subtitle == subtitle && pages == []
    {
      this.title := title;
      this.subtitle := subtitle;
      pages := [];
    }

    /**
     * `add_page()` followed by the label cell and the title cell. When the label or the
     * title holds a character outside Latin-1, drawing it raises and `drawn` is false;
     * the exception ends the run, so nothing of this object is ever written out.
     */
    method AddChapterPage(caption: string, chapterTitle: string) returns (drawn: bool)
      modifies this
      ensures drawn <==> Drawable(caption) && Drawable(chapterTitle)
      ensures drawn ==> pages == old(pages) + [ChapterPage(caption, chapterTitle, [])]
      ensures !drawn ==> pages == old(pages)
      ensures title == old(title) && subtitle == old(subtitle)
    {
      drawn := Drawable(caption) && Drawable(chapterTitle);
      if drawn {
        pages := pages + [ChapterPage(caption, chapterTitle, [])];
      }
    }

    /** A paragraph cell on the current page; the text must be drawable. */
    method AddParagraph(text: string)
      requires pages != [] && Drawable(text)
      modifies this
      ensures |pages| == |old(pages)| && pages[..|pages| - 1] == old(pages)[..|old(pages)| - 1]
      ensures var last := old(pages)[|old(pages)| - 1];
        pages[|pages| - 1] == ChapterPage(last.caption, last.title, last.body + [text])
      ensures title == old(title) && subtitle == old(subtitle)
    {
      var last := pages[|pages| - 1];
      pages := pages[..|pages| - 1] + [ChapterPage(last.caption, last.title, last.body + [text])];
    }
  }

  /** The book for a non-empty run, or the abort when a chapter title cannot be drawn. */
  function Assemble(chapters: seq<Option<Chapter>>): (r: Outcome)
    ensures !r.NoChapters?
  {
    if TitlesDrawable(chapters) then Book(BookTitle, BookSubtitle, Pages(chapters)) else Aborted
  }

  /** What a run produces for the index page's `href`s and a given fetch. */
  function RunResult(fetch: string -> Option<ParsedPage>, hrefs: seq<string>): Outcome {
    var links := SortLinks(Collected(hrefs));
    if links == [] then NoChapters else Assemble(Fetched(fetch, links))
  }

  /**
   * Writes one chapter page: the label, the title and the cleaned paragraphs
   * (main.py:101-120). `drawn` is false when drawing the title raised.
   */
  method WriteChapter(pdf: NovelPdf, i: nat, chapter: Chapter) returns (drawn: bool)
    modifies pdf
    ensures drawn <==> Drawable(chapter.title)
    ensures drawn ==> pdf.pages == old(pdf.pages) + [PageFor(i, chapter)]
    ensures pdf.title == old(pdf.title) && pdf.subtitle == old(pdf.subtitle)
  {
    LabelDrawable(i);
    drawn := pdf.AddChapterPage(Label(i), chapter.title);
    if !drawn {
      return;
    }
    var before := old(pdf.pages);
    assert CleanBody(chapter.content[..0]) == [];
    for j := 0 to |chapter.content|
      invariant pdf.pages == before + [ChapterPage(Label(i), chapter.title, CleanBody(chapter.content[..j]))]
      invariant pdf.title == old(pdf.title) && pdf.subtitle == old(pdf.subtitle)
    {
      var safeText := Latin1Clean(chapter.content[j]);
      Latin1CleanSpec(chapter.content[j]);
      pdf.AddParagraph(safeText);
      assert CleanBody(chapter.content[..j + 1]) == CleanBody(chapter.content[..j]) + [safeText];
    }
    assert chapter.content[..|chapter.content|] == chapter.content;
  }

  /**
   * The chapter loop of `main()` (main.py:96-120): fetch each link in turn and write a
   * page for each chapter with content. `complete` is false when drawing a title raised,
   * which happens exactly when some chapter with content has a title outside Latin-1.
   */
  method WriteChapters(pdf: NovelPdf, fetch: string -> Option<ParsedPage>, links: seq<string>) returns (complete: bool)
    requires pdf.pages == []
    modifies pdf
    ensures complete <==> TitlesDrawable(Fetched(fetch, links))
    ensures complete ==> pdf.pages == Pages(Fetched(fetch, links))
    ensures pdf.title == old(pdf.title) && pdf.subtitle == old(pdf.subtitle)
  {
    RunDrawable(fetch, links);
    for i := 0 to |links|
      invariant pdf.pages == Pages(Fetched(fetch, links[..i]))
      invariant forall j :: 0 <= j < i ==> ChapterDrawable(ExtractChapter(fetch(links[j])))
      invariant pdf.title == old(pdf.title) && pdf.subtitle == old(pdf.subtitle)
    {
      var chapter := FetchChapterContent(fetch, links[i]);
      assert Fetched(fetch, links[..i + 1])[..i] == Fetched(fetch, links[..i]);
      if chapter.Some? && chapter.value.content != [] {
        var drawn := WriteChapter(pdf, i + 1, chapter.value);
        if !drawn {
          return false;
        }
      }
      assert ChapterDrawable(ExtractChapter(fetch(links[i])));
    }
    assert links[..|links|] == links;
    return true;
  }

  /** `main()`, with the index page's `href`s given and every fetch going through `fetch`. */
  method Run(fetch: string -> Option<ParsedPage>, hrefs: seq<string>) returns (outcome: Outcome)
    ensures outcome == RunResult(fetch, hrefs)
  {
    var links := CollectLinks(hrefs);
    links := SortLinks(links);
    if links == [] {
      return NoChapters;
    }
    var pdf := new NovelPdf(BookTitle, BookSubtitle);
    var complete := WriteChapters(pdf, fetch, links);
    if !complete {
      return Aborted;
    }
    return Book(pdf.title, pdf.subtitle, pdf.pages);
  }

  /** Every label, title and paragraph on the pages of drawable chapters can be drawn. */
  lemma PagesDrawable(chapters: seq<Option<Chapter>>)
    requires TitlesDrawable(chapters)
    ensures forall k :: 0 <= k < |Pages(chapters)| ==>
      var page := Pages(chapters)[k];
      Drawable(page.caption) && Drawable(page.title) &&
      forall j :: 0 <= j < |page.body| ==> Drawable(page.body[j])
  {
    PagesNumbered(chapters);
    forall k | 0 <= k < |Pages(chapters)|
      ensures var page := Pages(chapters)[k];
        Drawable(page.caption) && Drawable(page.title) &&
        forall j :: 0 <= j < |page.body| ==> Drawable(page.body[j])
    {
      var i := Numbers(chapters)[k];
      var c := chapters[i - 1].value;
      LabelDrawable(i);
      forall j | 0 <= j < |c.content|
        ensures Drawable(Latin1Clean(c.content[j]))
      {
        Latin1CleanSpec(c.content[j]);
      }
    }
  }

  /**
   * A run ends in an exception exactly when a chapter with content has a title the font
   * cannot draw; when it produces a book, everything in it can be drawn.
   */
  lemma RunDrawable(fetch: string -> Option<ParsedPage>, links: seq<string>)
    ensures TitlesDrawable(Fetched(fetch, links)) <==>
      forall i :: 0 <= i < |links| ==> ChapterDrawable(ExtractChapter(fetch(links[i])))
    ensures TitlesDrawable(Fetched(fetch, links)) ==>
      forall k :: 0 <= k < |Pages(Fetched(fetch, links))| ==>
        Drawable(Pages(Fetched(fetch, links))[k].caption) && Drawable(Pages(Fetched(fetch, links))[k].title) &&
        forall j :: 0 <= j < |Pages(Fetched(fetch, links))[k].body| ==> Drawable(Pages(Fetched(fetch, links))[k].body[j])
  {
    assert forall i :: 0 <= i < |links| ==> Fetched(fetch, links)[i] == ExtractChapter(fetch(links[i]));
    if TitlesDrawable(Fetched(fetch, links)) {
      PagesDrawable(Fetched(fetch, links));
    }
  }

  /** Everything in a book that a run produces can be drawn with the built-in font. */
  lemma BookDrawable(fetch: string -> Option<ParsedPage>, hrefs: seq<string>)
    ensures var outcome := RunResult(fetch, hrefs);
      outcome.Book? ==>
        forall k :: 0 <= k < |outcome.pages| ==>
          Drawable(outcome.pages[k].caption) && Drawable(outcome.pages[k].title) &&
          forall j :: 0 <= j < |outcome.pages[k].body| ==> Drawable(outcome.pages[k].body[j])
  {
    var links := SortLinks(Collected(hrefs));
    if links != [] && TitlesDrawable(Fetched(fetch, links)) {
      PagesDrawable(Fetched(fetch, links));
    }
  }

  /** A run finds no chapters exactly when no `href` normalises to a qualifying URL. */
  lemma NoChaptersIff(fetch: string -> Option<ParsedPage>, hrefs: seq<string>)
    ensures RunResult(fetch, hrefs) == NoChapters <==> forall i :: 0 <= i < |hrefs| ==> !Qualifies(Normalise(hrefs[i]))
  {
    CollectedEmptyIff(hrefs);
    SortLinksSpec(Collected(hrefs));
  }

  /**
   * For the links of a run in sorted order, the page labelled "CHAPTER i" exists exactly
   * when the i-th link yields a chapter with content.
   */
  lemma BookLabels(fetch: string -> Option<ParsedPage>, links: seq<string>, i: nat)
    ensures var pages := Pages(Fetched(fetch, links));
      (exists k :: 0 <= k < |pages| && pages[k].caption == Label(i)) <==>
        1 <= i <= |links| && HasContent(ExtractChapter(fetch(links[i - 1])))
  {
    LabelsExact(Fetched(fetch, links), i);
  }
}
