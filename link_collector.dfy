/**
 * Collecting chapter links from the novel's index page (main.py:57-69). The links of the
 * page are given as the sequence of their `href` values in document order. Each one is
 * made absolute, kept when it names the novel and is not the index page itself, and
 * appended unless it is already there.
 */
module LinkCollector {
  import opened Seqs
  import opened Text

  const Origin: string := "https://www.readthedrama.com"
  const BaseUrl: string := "https://www.readthedrama.com/novels/shine-on-me"
  const Slug: string := "shine-on-me"

  predicate EndsWith(s: string, suffix: string) {
    |suffix| <= |s| && s[|s| - |suffix|..] == suffix
  }

  /**
   * The absolute URL of an `href`: site-relative and page-relative references are resolved
   * against the site's origin, anything starting with "http" is kept as it is.
   */
  function Normalise(href: string): (url: string)
    ensures StartsWith(url, "http")
    ensures EndsWith(url, href)
    ensures StartsWith(href, "http") ==> url == href
    ensures !StartsWith(href, "http") ==>
      url == Origin + "/" + (if StartsWith(href, "/") then href[1..] else href)
  {
    var url := if StartsWith(href, "/") then Origin + href
      else if !StartsWith(href, "http") then Origin + "/" + href
      else href;
    assert url[..4] == "http";
    assert StartsWith(href, "http") ==> href[0] == 'h';
    assert StartsWith(href, "/") ==> href == "/" + href[1..];
    url
  }

  /** Normalising is idempotent, and leaves an `href` unchanged exactly when it starts with "http". */
  lemma NormaliseFixpoint(href: string)
    ensures Normalise(href) == href <==> StartsWith(href, "http")
    ensures Normalise(Normalise(href)) == Normalise(href)
  {
  }

  /** A URL that names the novel and is not the index page once trailing slashes are dropped. */
  predicate Qualifies(url: string) {
    Contains(Lower(url), Slug) && RStrip(url, '/') != RStrip(BaseUrl, '/')
  }

  /** The index page itself is never a chapter link, with or without trailing slashes. */
  lemma BaseUrlExcluded(n: nat)
    ensures !Qualifies(BaseUrl + seq(n, _ => '/'))
  {
    RStripTrailing(BaseUrl, n, '/');
  }

  /** The absolute URLs of all the `href`s, in order. */
  function Normalised(hrefs: seq<string>): (urls: seq<string>)
    ensures |urls| == |hrefs|
  {
    seq(|hrefs|, i requires 0 <= i < |hrefs| => Normalise(hrefs[i]))
  }

  lemma NormalisedSnoc(hrefs: seq<string>)
    requires hrefs != []
    ensures Normalised(hrefs) == Normalised(hrefs[..|hrefs| - 1]) + [Normalise(hrefs[|hrefs| - 1])]
  {
  }

  /** The links the loop has gathered after the given `href`s. */
  function Collected(hrefs: seq<string>): seq<string> {
    if hrefs == [] then []
    else
      var prev := Collected(hrefs[..|hrefs| - 1]);
      var url := Normalise(hrefs[|hrefs| - 1]);
      if Qualifies(url) && url !in prev then prev + [url] else prev
  }

  /** The link-collection loop of main.py:57-69. */
  method CollectLinks(hrefs: seq<string>) returns (links: seq<string>)
    ensures links == Collected(hrefs)
  {
    links := [];
    for i := 0 to |hrefs|
      invariant links == Collected(hrefs[..i])
    {
      var href := hrefs[i];
      var fullUrl: string;
      if StartsWith(href, "/") {
        fullUrl := Origin + href;
      } else if !StartsWith(href, "http") {
        fullUrl := Origin + "/" + href;
      } else {
        fullUrl := href;
      }
      if Contains(Lower(fullUrl), Slug) && RStrip(fullUrl, '/') != RStrip(BaseUrl, '/') {
        if fullUrl !in links {
          links := links + [fullUrl];
        }
      }
      assert hrefs[..i + 1][..i] == hrefs[..i];
    }
    assert hrefs[..|hrefs|] == hrefs;
  }

  /** The collected links are the qualifying absolute URLs, each exactly once. */
  lemma {:induction false} CollectedMembers(hrefs: seq<string>)
    ensures NoDuplicates(Collected(hrefs))
    ensures forall u :: u in Collected(hrefs) <==> u in Normalised(hrefs) && Qualifies(u)
  {
    if hrefs != [] {
      var init := hrefs[..|hrefs| - 1];
      var url := Normalise(hrefs[|hrefs| - 1]);
      var prev := Collected(init);
      CollectedMembers(init);
      NormalisedSnoc(hrefs);
      assert Normalised(hrefs) == Normalised(init) + [url];
      if Qualifies(url) && url !in prev {
        assert Collected(hrefs) == prev + [url];
      } else {
        assert Collected(hrefs) == prev;
      }
    }
  }

  /** Nothing is collected exactly when no `href` normalises to a qualifying URL. */
  lemma CollectedEmptyIff(hrefs: seq<string>)
    ensures Collected(hrefs) == [] <==> forall i :: 0 <= i < |hrefs| ==> !Qualifies(Normalise(hrefs[i]))
  {
    CollectedMembers(hrefs);
    var c, n := Collected(hrefs), Normalised(hrefs);
    if c != [] {
      assert c[0] in c;
    }
    forall i | 0 <= i < |hrefs| && Qualifies(Normalise(hrefs[i]))
      ensures c != []
    {
      assert n[i] in n;
    }
  }

  /** Every element of `r` occurs in `n`, and they appear in `r` in the order of their first occurrences in `n`. */
  predicate InFirstOccurrenceOrder(r: seq<string>, n: seq<string>) {
    (forall i :: 0 <= i < |r| ==> r[i] in n) &&
    forall i, j :: 0 <= i < j < |r| ==> FirstIndex(n, r[i]) < FirstIndex(n, r[j])
  }

  /** The collected links are in the order of their first occurrence among the page's links. */
  lemma {:induction false} CollectedOrder(hrefs: seq<string>)
    ensures InFirstOccurrenceOrder(Collected(hrefs), Normalised(hrefs))
  {
    if hrefs != [] {
      var init := hrefs[..|hrefs| - 1];
      var url := Normalise(hrefs[|hrefs| - 1]);
      var prev, n := Collected(init), Normalised(init);
      CollectedOrder(init);
      NormalisedSnoc(hrefs);
      OrderedExtend(prev, url, n);
      if Qualifies(url) && url !in prev {
        CollectedMembers(init);
        assert url !in n;
      }
    }
  }

  /** Helper for CollectedOrder: order survives a new last link, and so does appending an unseen one. */
  lemma OrderedExtend(prev: seq<string>, url: string, n: seq<string>)
    requires InFirstOccurrenceOrder(prev, n)
    ensures InFirstOccurrenceOrder(prev, n + [url])
    ensures url !in n ==> InFirstOccurrenceOrder(prev + [url], n + [url])
  {
    forall u | u in n
      ensures FirstIndex(n + [url], u) == FirstIndex(n, u)
    {
      FirstIndexPrefix(n, [url], u);
    }
    if url !in n {
      FirstIndexLast(n, url);
      var r := prev + [url];
      forall i, j | 0 <= i < j < |r|
        ensures FirstIndex(n + [url], r[i]) < FirstIndex(n + [url], r[j])
      {
        assert r[i] == prev[i];
        if j < |prev| {
          assert r[j] == prev[j];
        }
      }
    }
  }

  /** The site-relative path of the novel's index page with a trailing slash; chapter paths extend it. */
  const ChapterPath: string := "/novels/shine-on-me/"

  /** Helper for ChapterHrefKept: a chapter's URL names the novel. */
  lemma ChapterUrlNamesNovel(tail: string)
    ensures Contains(Lower(Origin + ChapterPath + tail), Slug)
  {
    var a, b := Origin + "/novels/", "/" + tail;
    assert Origin + ChapterPath + tail == a + Slug + b;
    LowerAppend(a + Slug, b);
    LowerAppend(a, Slug);
    assert Lower(Slug) == Slug;
    ContainsMiddle(Lower(a), Slug, Lower(b));
  }

  /**
   * A chapter `href` below the novel's index page, site-relative or absolute, yields that
   * chapter's absolute URL, and the URL is kept.
   */
  lemma ChapterHrefKept(tail: string)
    requires tail != [] && tail[|tail| - 1] != '/'
    ensures Normalise(ChapterPath + tail) == Origin + ChapterPath + tail
    ensures Normalise(Origin + ChapterPath + tail) == Origin + ChapterPath + tail
    ensures Qualifies(Origin + ChapterPath + tail)
  {
    var href := ChapterPath + tail;
    var url := Origin + ChapterPath + tail;
    assert href[1..] == "novels/shine-on-me/" + tail;
    assert Origin + "/" + href[1..] == url;
    assert url[..4] == "http";
    ChapterUrlNamesNovel(tail);
    assert RStrip(url, '/') == url;
    assert RStrip(BaseUrl, '/') == BaseUrl;
    assert |url| > |BaseUrl|;
  }

  /**
   * The origin holds no letter i, so a site-relative `href` without one (such as a link to
   * another novel) never names the novel and is dropped.
   */
  lemma OtherHrefDropped(href: string)
    requires StartsWith(href, "/") && 'i' !in href && 'I' !in href
    ensures !Qualifies(Normalise(href))
  {
    var url := Normalise(href);
    assert url == Origin + href;
    assert 'i' !in Origin && 'I' !in Origin;
    assert Slug[2] == 'i';
    NotContainsByChar(Lower(url), Slug, 'i');
  }

  /** The index page's own `href`, with its trailing slash, is dropped. */
  lemma SelfHrefDropped()
    ensures !Qualifies(Normalise(ChapterPath))
  {
    BaseUrlOnOrigin();
    assert seq(1, _ => '/') == "/";
    assert Normalise(ChapterPath) == Origin + ChapterPath;
    assert ChapterPath == "/novels/shine-on-me" + "/";
    AppendAssoc(Origin, "/novels/shine-on-me", "/");
    assert Normalise(ChapterPath) == BaseUrl + seq(1, _ => '/');
    BaseUrlExcluded(1);
  }

  /** The index page lies on the site's origin. */
  lemma BaseUrlOnOrigin()
    ensures BaseUrl == Origin + "/novels/shine-on-me"
  {
  }

  /** One more `href` at the end whose URL does not qualify changes nothing. */
  lemma CollectedSkip(hrefs: seq<string>, href: string)
    requires !Qualifies(Normalise(href))
    ensures Collected(hrefs + [href]) == Collected(hrefs)
  {
    assert (hrefs + [href])[..|hrefs|] == hrefs;
  }

  /** One more `href` at the end whose URL qualifies and is new appends that URL. */
  lemma CollectedAdd(hrefs: seq<string>, href: string)
    requires Qualifies(Normalise(href)) && Normalise(href) !in Collected(hrefs)
    ensures Collected(hrefs + [href]) == Collected(hrefs) + [Normalise(href)]
  {
    assert (hrefs + [href])[..|hrefs|] == hrefs;
  }

  /** Helper for CollectedExample: a kept link followed by two dropped ones. */
  lemma CollectedKeptDropped(h0: string, h1: string, h2: string)
    requires Qualifies(Normalise(h0)) && !Qualifies(Normalise(h1)) && !Qualifies(Normalise(h2))
    ensures Collected([h0] + [h1] + [h2]) == [Normalise(h0)]
  {
    assert [h0][..0] == [];
    CollectedSkip([h0], h1);
    CollectedSkip([h0] + [h1], h2);
  }

  /** Helper for CollectedExample: the first three links yield the first chapter only. */
  lemma ExamplePrefix(t1: string, other: string)
    requires t1 != [] && t1[|t1| - 1] != '/'
    requires StartsWith(other, "/") && 'i' !in other && 'I' !in other
    ensures Collected([ChapterPath + t1] + [other] + [ChapterPath]) == [Origin + ChapterPath + t1]
  {
    ChapterHrefKept(t1);
    OtherHrefDropped(other);
    SelfHrefDropped();
    CollectedKeptDropped(ChapterPath + t1, other, ChapterPath);
  }

  /**
   * An index page linking to a chapter site-relatively, to another novel, to itself and to a
   * second chapter by absolute URL yields the two chapters' URLs, in page order.
   */
  lemma CollectedExample(t1: string, t2: string, other: string)
    requires t1 != [] && t1[|t1| - 1] != '/' && t2 != [] && t2[|t2| - 1] != '/' && t1 != t2
    requires StartsWith(other, "/") && 'i' !in other && 'I' !in other
    ensures Collected([ChapterPath + t1] + [other] + [ChapterPath] + [Origin + ChapterPath + t2]) ==
      [Origin + ChapterPath + t1, Origin + ChapterPath + t2]
  {
    var u1, u2 := Origin + ChapterPath + t1, Origin + ChapterPath + t2;
    var prev := [ChapterPath + t1] + [other] + [ChapterPath];
    ExamplePrefix(t1, other);
    assert u2 != u1 by {
      assert u1[|Origin + ChapterPath|..] == t1 && u2[|Origin + ChapterPath|..] == t2;
    }
    ChapterHrefKept(t2);
    CollectedAdd(prev, u2);
    assert [u1] + [u2] == [u1, u2];
  }
}
