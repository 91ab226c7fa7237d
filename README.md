# Shine On Me to PDF: a verified model of the scraping pipeline

`main.py` downloads the web novel "Shine on Me" chapter by chapter from readthedrama.com
and compiles the chapters into one PDF. This project models the string and sequence logic
of that script in Dafny and proves what it does:

- **Link collection.** Every `href` on the novel's index page is made absolute. A URL is
  kept when it names the novel (`shine-on-me`, ignoring case) and is not the index page
  itself, and a URL already seen is not added again.
- **Natural sort.** Each link is split at its digit runs. Digit runs become integers and
  the other text is lowercased, so "chapter-2" sorts before "chapter-10". The in-place
  sort by this key is modelled as a stable sort.
- **Chapter extraction.** A chapter's title is its first `h1`, else its first `h2`, else
  "Chapter".
- **Paragraph filter.** A paragraph is kept when it is non-empty, at least five characters
  long, and contains none of the fourteen boilerplate keywords, ignoring case.
- **Book assembly.**
  - The sorted links are numbered from 1.
  - Chapter i gets a page labelled "CHAPTER i" only when its extraction succeeded and kept
    at least one paragraph. A failure leaves a gap in the numbering.
  - Each paragraph goes through the Latin-1 round trip, which keeps exactly the characters
    with code point at most 255.
  - The chapter title is drawn as extracted, with the PDF's built-in font. A title holding
    a character above code point 255 makes drawing raise, which ends the run before the
    file is written. The model's outcome is then `Aborted`.

Modules, one per file:

| file | module | contents |
|---|---|---|
| wrappers.dfy | `Wrappers` | `Option` |
| seqs.dfy | `Seqs` | filter, subsequence, first index |
| text.dfy | `Text` | ASCII `lower`, digits, `startswith`, `in`, `rstrip`, decimal conversion, Latin-1 cleaning |
| natural_key.dfy | `NaturalKey` | `re.split('([0-9]+)', s)`, the key, Python's list `<` |
| natural_sort.dfy | `NaturalSort` | the stable sort by a key function |
| link_collector.dfy | `LinkCollector` | the link loop |
| chapter_extractor.dfy | `ChapterExtractor` | `fetch_chapter_content` |
| pipeline.dfy | `Pipeline` | `main` and the PDF builder |

Python's list `<` is modelled exactly: an element comparison of a `str` with an `int`
raises `TypeError` (`None` in the model). The model counts only the ASCII digits `0-9` as
digits. Under that reading, `NaturalSortKeysComparable` shows the comparison never raises
for two natural keys. Links holding other Unicode digits are not covered (see "Left out").

The imperative parts of the script are methods with loops, each proved equal to a
specification function:
- the link loop: `CollectLinks` = `Collected`;
- the paragraph loop: `CleanParagraphs` = `Filter(KeepParagraph, _)`;
- the chapter loop: `WriteChapters` writes into a `NovelPdf` object, and `Run` = `RunResult`.

## Model

| member | source | states |
|---|---|---|
| NaturalKey.Tokens | main.py:73-74 | the list comprehension: one token per piece, in order, each given by `ToToken` |
| NaturalKey.ToToken | main.py:73 | a piece made only of digits becomes its integer value; any other piece becomes its lowercased text |
| NaturalKey.NaturalSortKey | main.py:72-74 | `natural_sort_key(s)`: the tokens of the pieces of `re.split('([0-9]+)', s)`, in order |
| NaturalKey.StrLt | main.py:76 | Python's string `<`: the first differing code point decides, and a proper prefix is smaller |
| NaturalKey.TokenLt | main.py:76 | element `<`: integers by value, strings by string `<`; a string against an integer raises `TypeError` (`None`) |
| NaturalKey.KeyLt | main.py:76 | Python's list `<`: equal leading elements are skipped, then the first differing pair decides, or the shorter list is smaller when it is a prefix |
| NaturalKey.Split | main.py:74 | `re.split` with a capturing group yields an odd number of pieces; for non-empty text, the first is empty exactly when the text starts with a digit |
| NaturalKey.SplitJoin | main.py:74 | joining the pieces back gives the original string |
| NaturalKey.SplitRuns | main.py:74 | even pieces hold no digit, odd pieces are non-empty digit runs, inner even pieces are non-empty |
| NaturalKey.SplitDigitRun | main.py:74 | a string made only of digits splits into `["", d, ""]` |
| NaturalKey.SplitAppend | main.py:74 | splitting two strings that do not meet digit-to-digit gives the two splits with the seam pieces merged |
| NaturalKey.SplitAroundDigitRun | main.py:74 | a digit run between non-digits becomes its own piece between the splits of both sides |
| NaturalKey.NaturalSortKeyShape | main.py:72-74 | every key has odd length, strings at even and integers at odd positions; even tokens are the lowercased pieces, odd tokens the values of the digit runs |
| NaturalKey.KeyLtDefined | main.py:72-76 | Python's list comparison of two keys aligned the same way never compares a string with an integer |
| NaturalKey.NaturalSortKeysComparable | main.py:72-76 | comparing the natural keys of any two strings never raises `TypeError` |
| NaturalKey.StrLtAsym | main.py:76 | Python string `<` is asymmetric |
| NaturalKey.StrLtTrans | main.py:76 | Python string `<` is transitive |
| NaturalKey.StrLtTotal | main.py:76 | any two distinct strings are ordered one way |
| NaturalKey.TokenLtAsym | main.py:76 | two tokens are never each less than the other |
| NaturalKey.LessAsym | main.py:76 | key `<` is asymmetric |
| NaturalKey.LessTrans | main.py:76 | key `<` is transitive on aligned keys |
| NaturalKey.LessTotal | main.py:76 | any two distinct aligned keys are ordered one way |
| NaturalKey.KeyLtCommonPrefix | main.py:76 | a common prefix does not change the list comparison |
| NaturalKey.KeyLtSelf | main.py:76 | a key is not less than itself and the comparison succeeds |
| NaturalKey.KeyLtAroundRun | main.py:72-76 | token lists that differ only in one digit run compare as the runs' values |
| NaturalKey.DigitRunOrder | main.py:71-76 | two strings that differ in one digit run order by the numeric value of the run |
| NaturalKey.ChapterTwoBeforeTen | main.py:71-76 | "chapter-2" sorts before "chapter-10" |
| NaturalSort.SortBy | main.py:76 | `list.sort(key=...)`, as an insertion sort; its properties are the lemmas below |
| NaturalSort.SortLinks | main.py:76 | `links.sort(key=natural_sort_key)` |
| NaturalSort.KeyLessTrans | main.py:76 | ordering by a well-formed key is transitive |
| NaturalSort.KeyLessAsym | main.py:76 | ordering by a key is asymmetric |
| NaturalSort.KeyLessTotal | main.py:76 | two elements either have equal keys or are ordered one way |
| NaturalSort.InsertPermutation | main.py:76 | insertion adds exactly the one element |
| NaturalSort.SortByPermutation | main.py:76 | the sorted list is a permutation of the input |
| NaturalSort.InsertSorted | main.py:76 | inserting into a sorted list keeps it sorted |
| NaturalSort.InsertNotBelow | main.py:76 | inserting an element not below `h` keeps every element not below `h` |
| NaturalSort.SortBySorted | main.py:76 | the sorted list is non-decreasing by key |
| NaturalSort.InsertStable | main.py:76 | insertion puts the new element after all elements of its key and changes no other group |
| NaturalSort.SortByStable | main.py:76 | for every key, the elements with that key keep their original order |
| NaturalSort.SortedGroupsEqual | main.py:76 | two sorted lists with the same groups in the same order are equal |
| NaturalSort.StableSortUnique | main.py:76 | any sorted list holding every key group of the input in input order equals the model's sort, so each stable sort gives the same list |
| NaturalSort.NaturalSortKeyWellKeyed | main.py:72-74 | every natural key is aligned |
| NaturalSort.SortLinksSpec | main.py:76 | after `links.sort(key=natural_sort_key)` the links are a permutation of the collected ones, non-decreasing by natural key, and stable |
| NaturalSort.SortThreeDescending | main.py:76 | three elements with strictly decreasing keys come out reversed |
| NaturalSort.KeyOrderExample | main.py:72-74 | "c2" has a smaller key than "c10", and "c1" a smaller key than "c2" |
| NaturalSort.SortExample | main.py:76 | "c10", "c2", "c1" sort to "c1", "c2", "c10" |
| LinkCollector.Normalise | main.py:60-65 | the result starts with "http" and ends with the href; an href starting with "http" is kept; any other href lands under "https://www.readthedrama.com/" with a leading "/" dropped |
| LinkCollector.NormaliseFixpoint | main.py:60-65 | normalising is idempotent, and leaves an href unchanged exactly when it starts with "http" |
| LinkCollector.BaseUrlExcluded | main.py:67 | the index page URL, with any number of trailing slashes, never qualifies |
| LinkCollector.CollectLinks | main.py:57-69 | the loop yields `Collected(hrefs)` |
| LinkCollector.CollectedMembers | main.py:67-69 | the collected links have no duplicates, and a URL is collected exactly when some href normalises to it and it qualifies |
| LinkCollector.CollectedOrder | main.py:68-69 | the collected links appear in the order of their first occurrence among the normalised hrefs |
| LinkCollector.OrderedExtend | main.py:68-69 | a new href keeps first-occurrence order, and appending an unseen URL keeps it too |
| LinkCollector.CollectedEmptyIff | main.py:57-69 | nothing is collected exactly when no href normalises to a qualifying URL |
| LinkCollector.Qualifies | main.py:67 | a URL is kept when its lowercased form contains "shine-on-me" and, with trailing "/" removed, it differs from the index page URL with trailing "/" removed |
| LinkCollector.Collected | main.py:57-69 | the links after the loop: each href's URL is appended when it qualifies and is not yet in the list |
| LinkCollector.CollectedSkip | main.py:67 | an href whose URL does not qualify leaves the list unchanged |
| LinkCollector.CollectedAdd | main.py:67-69 | an href whose URL qualifies and is new appends that URL |
| LinkCollector.ChapterHrefKept | main.py:60-67 | a chapter href "/novels/shine-on-me/<tail>" (tail non-empty, not ending in "/") and its absolute form both give "https://www.readthedrama.com/novels/shine-on-me/<tail>", which qualifies |
| LinkCollector.OtherHrefDropped | main.py:60-67 | a site-relative href without the letter "i" (such as another novel's page) never qualifies |
| LinkCollector.SelfHrefDropped | main.py:60-67 | the index page's own href "/novels/shine-on-me/" is dropped |
| LinkCollector.CollectedExample | main.py:57-69 | hrefs for chapter 1, another novel, the index page and chapter 2 (absolute) collect to the two chapter URLs, in page order |
| ChapterExtractor.Title | main.py:21-22 | definition: the first h1's text when there is an h1, else the first h2's text, else "Chapter" |
| ChapterExtractor.TitleDefaultIff | main.py:21-22 | the title is "Chapter" exactly when the h1 says "Chapter", or there is no h1 and the h2 is missing or says "Chapter"; with an h1 present, the h2 has no influence |
| ChapterExtractor.CleanParagraphs | main.py:34-39 | the paragraph loop keeps exactly `Filter(KeepParagraph, paragraphs)` |
| ChapterExtractor.KeptParagraphsSpec | main.py:27-39 | kept paragraphs are an order-preserving subsequence; each is non-empty, at least 5 long and free of every keyword ignoring case; each qualifying paragraph is kept as often as it occurs |
| ChapterExtractor.ExtractChapter | main.py:15-44 | extraction yields no record exactly when the fetch failed |
| ChapterExtractor.FetchChapterContent | main.py:15-44 | the method returns `ExtractChapter` of the fetched page |
| ChapterExtractor.BoilerplateExample | main.py:27-38 | "Next Chapter" is dropped as boilerplate and "Hi" as too short |
| ChapterExtractor.HomeInStoryTextDropped | main.py:31-37 | "She walked home." is dropped, because the keyword "Home" matches inside story text |
| ChapterExtractor.IsBoilerplate | main.py:27-36 | some keyword, lowercased, occurs in the lowercased text |
| ChapterExtractor.KeepParagraph | main.py:36-38 | a paragraph survives both `continue`s: non-empty, no keyword, at least five characters |
| ChapterExtractor.KeywordLetter | main.py:27-32 | every keyword holds one of the letters p, x, m, y, q, a |
| ChapterExtractor.NotBoilerplateWithout | main.py:27-36 | text none of whose lowercased characters is p, x, m, y, q or a is not boilerplate |
| ChapterExtractor.KeptWithout | main.py:34-39 | text of at least five characters avoiding those letters in both cases is kept |
| ChapterExtractor.StoryTextKept | main.py:34-39 | "The sun rose over the hills." is kept |
| Text.Lower | main.py:36 | definition: `str.lower()` character by character, on ASCII letters (also used at main.py:67 and 73) |
| Text.StartsWith | main.py:60-62 | definition: `str.startswith`, the prefix equals the first characters |
| Text.Contains | main.py:36 | definition: the substring test `in`, the needle starts here or further on (also used at main.py:67) |
| Text.IsDigitString | main.py:73 | definition: `str.isdigit()` on ASCII, non-empty and only `0-9` |
| Text.DecimalValue | main.py:73 | definition: `int(text)` for a run of decimal digits, leading zeros allowed |
| Text.ContainsIff | main.py:36 | the `in` test holds exactly when the needle occurs at some position |
| Text.RStrip | main.py:67 | `rstrip('/')` gives a prefix without a trailing "/" and drops only "/" characters |
| Text.RStripTrailing | main.py:67 | extra trailing slashes do not change `rstrip('/')` |
| Text.NatToString | main.py:106 | `f"{i}"` is a non-empty digit string without a leading zero |
| Text.DecimalRoundTrip | main.py:106 | `int(f"{n}") == n` |
| Text.NatToStringInjective | main.py:106 | distinct numbers print differently |
| Text.Latin1Clean | main.py:118 | `para.encode('latin-1', 'ignore').decode('latin-1')`: the characters with code point at most 255, in order |
| Text.Latin1CleanSpec | main.py:118 | the Latin-1 round trip yields an order-preserving subsequence of code points at most 255 and keeps every such character as often as it occurs |
| Text.Latin1CleanIdempotent | main.py:118 | Latin-1 text is unchanged, and cleaning twice equals cleaning once |
| Pipeline.Label | main.py:106 | the label of chapter i is "CHAPTER " followed by the decimal digits of i |
| Pipeline.HasContent | main.py:100 | a chapter gets a page when its extraction succeeded and kept at least one paragraph |
| Pipeline.Pages | main.py:96-120 | the pages written for the extraction results, one per chapter with content, in link order, chapter i labelled "CHAPTER i" |
| Pipeline.Numbers | main.py:96-100 | the 1-based positions of the chapters that get a page |
| Pipeline.Drawable | main.py:106-111 | text the built-in font can draw: every character has code point at most 255 |
| Pipeline.TitlesDrawable | main.py:100-111 | every chapter that gets a page has a drawable title |
| Pipeline.LabelDrawable | main.py:106 | every chapter label can be drawn |
| Pipeline.PagesDrawable | main.py:100-119 | when the titles are drawable, every label, title and paragraph on every page can be drawn |
| Pipeline.RunDrawable | main.py:96-119 | the titles are drawable exactly when every link yielding a chapter with content yields a drawable title; then every caption, title and body paragraph on every page can be drawn |
| Pipeline.BookDrawable | main.py:96-124 | when a run produces a book, every label, title and paragraph in it can be drawn |
| Pipeline.LabelInjective | main.py:106 | two chapter labels are equal exactly when their numbers are |
| Pipeline.CleanBody | main.py:116-119 | one body paragraph per chapter paragraph, each drawable and an order-preserving subsequence of the paragraph at the same position |
| Pipeline.PageFor | main.py:101-120 | definition: chapter i's page holds its label, its title and its cleaned paragraphs |
| Pipeline.Fetched | main.py:96-98 | one extraction result per link, in link order |
| Pipeline.Assemble | main.py:84-124 | never "no chapters": the titled book of the pages when every title is drawable, otherwise the abort |
| Pipeline.NumbersSpec | main.py:96-100 | the numbers of the chapters that get a page are strictly increasing and are exactly the 1-based positions with content |
| Pipeline.PagesNumbered | main.py:96-120 | page k belongs to chapter `Numbers[k]` and carries its label, title and cleaned paragraphs |
| Pipeline.LabelsExact | main.py:96-106 | a page labelled "CHAPTER i" exists exactly when chapter i has content, and no label repeats |
| Pipeline.MiddleChapterFails | main.py:96-106 | chapters 1 and 3 with content around a failed chapter 2 give pages "CHAPTER 1" and "CHAPTER 3" |
| Pipeline.NovelPdf.constructor | main.py:84-93 | a new book has the given title and subtitle and no chapter pages |
| Pipeline.NovelPdf.AddChapterPage | main.py:101-111 | drawing succeeds exactly when the label and the title are drawable; then a new page with them is appended, otherwise the pages are unchanged; title and subtitle never change |
| Pipeline.NovelPdf.AddParagraph | main.py:119 | a drawable paragraph is appended to the last page; nothing else changes |
| Pipeline.WriteChapter | main.py:101-120 | drawing succeeds exactly when the chapter's title is drawable, and then exactly one page, the chapter's page, is appended |
| Pipeline.WriteChapters | main.py:96-120 | the chapter loop completes exactly when the titles are drawable, and then the book holds exactly `Pages` of the fetched chapters |
| Pipeline.RunResult | main.py:46-125 | no chapters when no link was collected; else `Aborted` when a chapter with content has an undrawable title; else the titled book of the sorted links' pages |
| Pipeline.Run | main.py:46-125 | `main` produces `RunResult` |
| Pipeline.NoChaptersIff | main.py:78-80 | the run stops with "No chapters found" exactly when no href normalises to a qualifying URL |
| Pipeline.BookLabels | main.py:96-106 | the page "CHAPTER i" exists exactly when the i-th link yields a chapter with content |

## Left out

- HTTP with `httpx`: the client, headers, timeouts, redirects and the index-page request (main.py:49-53). The index page enters as its `href` list. Each chapter fetch is the parameter `fetch`, whose `None` result stands for the exception path of main.py:42-44. Every collected link is fetched once, so a function of the URL captures every outcome.
- BeautifulSoup (main.py:18-24, 35, 54, 58): a page enters as its first `h1` text, its first `h2` text and its stripped paragraph texts. A tag that is present is truthy even when its text is empty, so an empty `h1` still wins over an `h2`.
- FPDF rendering (main.py:7-13, 84-93, 101-120, 124). The header override, fonts, colours, cell geometry, page breaks and file output are not modelled. `NovelPdf` keeps only the text the script puts into the book.
- The `asyncio` scheduling, the `sleep` between chapters and every `print` (main.py:43, 50, 79, 82, 97, 122, 125, 128): no logic.
- Text.DecimalValue: never fails. Python's `int(text)` at main.py:73 raises `ValueError` for a digit run longer than 4300 digits (Python 3.11 and later, and the security releases of 3.7-3.10). The model gives such a link its value instead.
- Text.Lower: `str.lower()` is modelled on ASCII. Non-ASCII letters are not case-folded.
- NaturalKey.NaturalSortKeysComparable: holds for the model's keys, where only `0-9` are digits. It is weaker than Python's behaviour on links with other Unicode digits. `[0-9]` leaves a character such as '١' or '²' inside a text piece, yet `str.isdigit()` accepts a piece made of such characters. Python then turns that piece into an integer at a string position, or fails in `int()`. So `"x1١"` against `"x1a"` raises `TypeError`, and a piece "²" raises `ValueError`. The model keeps every such piece as lowercased text, so it sorts those links instead of failing.
- Sorting algorithm: Python's `list.sort` is timsort. The model is an insertion sort. `StableSortUnique` shows every stable sort by the same key returns the same list.
- Python sorts the list in place. The model sorts a value: the list is a local variable with no aliases.
- Pipeline.Run: a run is modelled as failing only when a chapter title holds a character above code point 255. The script does not pass the title through the Latin-1 round trip (only the paragraphs, main.py:118). The built-in font raises on such a title at main.py:111, nothing catches the exception, and `pdf.output` is never reached. The model returns `Aborted` in that case. It keeps no partial state, and it models no other failure of the PDF library.
