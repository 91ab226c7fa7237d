/**
 * Extracting one chapter from its page (main.py:15-44). Fetching and HTML parsing are
 * outside the model: a page is given as what the parser yields for it, the stripped text
 * of its first `h1` and first `h2`, if any, and the stripped texts of its `p` elements in
 * document order. A page that could not be fetched is `None`, the exception path.
 */
module ChapterExtractor {
  import opened Wrappers
  import opened Seqs
  import opened Text

  datatype ParsedPage = ParsedPage(h1: Option<string>, h2: Option<string>, paragraphs: seq<string>)

  /** The record `{"title": ..., "content": ...}` the extractor returns. */
  datatype Chapter = Chapter(title: string, content: seq<string>)

  const DefaultTitle: string := "Chapter"

  /**
   * `soup.find('h1') or soup.find('h2')`: a tag found is truthy even when its text is
   * empty, so an `h1` wins whenever the page has one.
   */
  function Title(page: ParsedPage): string {
    match (page.h1, page.h2)
    case (Some(h), _) => h
    case (None, Some(h)) => h
    case (None, None) => DefaultTitle
  }

  /**
   * The title reads "Chapter" exactly when the heading that wins says so, or when there is
   * no heading: an `h2` is consulted only without an `h1`.
   */
  lemma TitleDefaultIff(page: ParsedPage)
    ensures Title(page) == DefaultTitle <==>
      page.h1 == Some(DefaultTitle) ||
      (page.h1.None? && (page.h2.None? || page.h2 == Some(DefaultTitle)))
    ensures page.h1.Some? ==> Title(page) == Title(ParsedPage(page.h1, None, page.paragraphs))
  {
  }

  const ExcludeKeywords: seq<string> := [
    "Previous Chapter", "Next Chapter", "Novel Home", "Read Settings",
    "Translated and Edited", "OpenNovel", "ReadTheDrama",
    "Your source for novels", "All Rights Reserved", "Privacy Policy",
    "Navigation", "Home", "All Novels", "Request Novel"
  ]

  /** Some denylist keyword occurs in the text, ignoring case. */
  predicate IsBoilerplate(text: string) {
    exists i :: 0 <= i < |ExcludeKeywords| && Contains(Lower(text), Lower(ExcludeKeywords[i]))
  }

  /** The two `continue` guards of the paragraph loop, negated. */
  predicate KeepParagraph(text: string) {
    !(text == [] || IsBoilerplate(text)) && !(|text| < 5)
  }

  /** The paragraph loop of main.py:34-39. */
  method CleanParagraphs(paragraphs: seq<string>) returns (clean: seq<string>)
    ensures clean == Filter(KeepParagraph, paragraphs)
  {
    clean := [];
    for i := 0 to |paragraphs|
      invariant clean == Filter(KeepParagraph, paragraphs[..i])
    {
      var text := paragraphs[i];
      assert paragraphs[..i + 1] == paragraphs[..i] + [text];
      FilterAppend(KeepParagraph, paragraphs[..i], [text]);
      assert [text][1..] == [];
      if text == [] || IsBoilerplate(text) {
        continue;
      }
      if |text| < 5 {
        continue;
      }
      clean := clean + [text];
    }
    assert paragraphs[..|paragraphs|] == paragraphs;
  }

  /**
   * The kept paragraphs are an order-preserving subsequence of the page's; each is
   * non-empty, at least five characters long and free of every keyword; and every
   * paragraph that meets all three is kept, as often as it occurs.
   */
  lemma KeptParagraphsSpec(paragraphs: seq<string>)
    ensures IsSubsequence(Filter(KeepParagraph, paragraphs), paragraphs)
    ensures forall i :: 0 <= i < |Filter(KeepParagraph, paragraphs)| ==>
      var text := Filter(KeepParagraph, paragraphs)[i];
      text != [] && |text| >= 5 &&
      forall j :: 0 <= j < |ExcludeKeywords| ==> !Contains(Lower(text), Lower(ExcludeKeywords[j]))
    ensures forall text ::
      multiset(Filter(KeepParagraph, paragraphs))[text] == (if KeepParagraph(text) then multiset(paragraphs)[text] else 0)
  {
    FilterSpec(KeepParagraph, paragraphs);
  }

  /** What `fetch_chapter_content` returns for a page, or for a failed fetch. */
  function ExtractChapter(page: Option<ParsedPage>): (r: Option<Chapter>)
    ensures r.None? <==> page.None?
  {
    match page
    case None => None
    case Some(p) => Some(Chapter(Title(p), Filter(KeepParagraph, p.paragraphs)))
  }

  /** `fetch_chapter_content(client, url)`, with the fetch and parse given as `fetch`. */
  method FetchChapterContent(fetch: string -> Option<ParsedPage>, url: string) returns (chapter: Option<Chapter>)
    ensures chapter == ExtractChapter(fetch(url))
  {
    var response := fetch(url);
    if response.None? {
      return None;
    }
    var page := response.value;
    var title := Title(page);
    var clean := CleanParagraphs(page.paragraphs);
    return Some(Chapter(title, clean));
  }

  /** Navigation text is dropped, and so is a short line. */
  lemma BoilerplateExample()
    ensures !KeepParagraph("Next Chapter")
    ensures !KeepParagraph("Hi")
  {
    assert Lower("Next Chapter") == "next chapter";
    assert ExcludeKeywords[1] == "Next Chapter";
    assert StartsWith(Lower("Next Chapter"), Lower(ExcludeKeywords[1]));
  }

  /** The keyword "Home" matches inside story text too: a sentence with "home" in it is dropped. */
  lemma HomeInStoryTextDropped()
    ensures !KeepParagraph("She walked home.")
  {
    var text := "She walked home.";
    assert Lower(text) == "she walked " + "home" + ".";
    assert ExcludeKeywords[11] == "Home";
    assert Lower("Home") == "home";
    ContainsMiddle("she walked ", "home", ".");
  }

  /** A keyword holding a character that the lowered text lacks does not occur in it. */
  lemma KeywordMissing(lowered: string, j: nat, k: nat, c: char)
    requires j < |ExcludeKeywords| && k < |ExcludeKeywords[j]|
    requires LowerChar(ExcludeKeywords[j][k]) == c && c !in lowered
    ensures !Contains(lowered, Lower(ExcludeKeywords[j]))
  {
    assert Lower(ExcludeKeywords[j])[k] == c;
    NotContainsByChar(lowered, Lower(ExcludeKeywords[j]), c);
  }

  /** Every keyword holds one of the letters p, x, m, y, q or a, in either case. */
  lemma KeywordLetter(j: nat) returns (k: nat)
    requires j < |ExcludeKeywords|
    ensures k < |ExcludeKeywords[j]| && LowerChar(ExcludeKeywords[j][k]) in "pxmyqa"
  {
    k := if j in {1, 3, 4, 6, 11, 13} then 2 else if j == 2 then 8 else if j in {5, 10} then 1 else 0;
  }

  /** Text in which none of p, x, m, y, q and a occurs, in either case, is never boilerplate. */
  lemma NotBoilerplateWithout(text: string)
    requires forall i :: 0 <= i < |text| ==> LowerChar(text[i]) !in "pxmyqa"
    ensures !IsBoilerplate(text)
  {
    var lowered := Lower(text);
    forall j | 0 <= j < |ExcludeKeywords|
      ensures !Contains(lowered, Lower(ExcludeKeywords[j]))
    {
      var k := KeywordLetter(j);
      KeywordMissing(lowered, j, k, LowerChar(ExcludeKeywords[j][k]));
    }
  }

  /**
   * Text of at least five characters in which none of p, x, m, y, q and a occurs, in either
   * case, is kept.
   */
  lemma KeptWithout(text: string)
    requires |text| >= 5
    requires forall i :: 0 <= i < |text| ==> text[i] !in "pPxXmMyYqQaA"
    ensures KeepParagraph(text)
  {
    NotBoilerplateWithout(text);
  }

  /** A paragraph of story text. */
  const StoryText := "The sun rose over the hills."

  /** Helper for StoryTextKept: the letters it avoids. */
  lemma StoryTextLetters()
    ensures forall i :: 0 <= i < |StoryText| ==> StoryText[i] !in "pPxXmMyYqQaA"
  {
  }

  /** A paragraph of story text that mentions no keyword is kept. */
  lemma StoryTextKept()
    ensures KeepParagraph(StoryText)
  {
    StoryTextLetters();
    KeptWithout(StoryText);
  }
}
