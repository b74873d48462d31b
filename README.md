# El País opinion scraper: the decision procedures, in Dafny

`ElPaisArticleAnalyzer` (`python-selenium-browserstack/tests/test.py`) drives a browser through the
opinion section of elpais.com. It collects article links dated today or yesterday, scrapes up to
five articles, translates their headlines from Spanish to English and reports the words that occur
more than twice. The browser, HTTP client, clock and translator are outside collaborators. This
project models the four procedures that decide what passes between them, with each collaborator
turned into plain input data:

- **Link collection** (`LinkCollector`, `get_article_links`). The listing is the sequence of the
  anchors' `href` attributes (`None` for an anchor without one). Today's and yesterday's dates are
  parameters. `GetArticleLinks` is the loop with its `seen` set and early `break`. It is proved
  equal to `CollectedLinks`: the first `Cap(maxLinks)` of the distinct qualifying hrefs, in
  order of first appearance.
- **Article gating** (`ArticleExtractor`, `scrape_article`). A page is a record with an optional
  title text, an optional list of paragraph texts, an optional image URL and how the image
  download ended. `ScrapeArticle` does the early returns. `Strip` models Python's `str.strip()` with Python's exact whitespace set, and
  `Join` models `"\n".join(...)`. `Split` is the inverse of `Join` and is used to characterise it.
- **Article accumulation** (`ArticleProcessor`, `process_articles`). The scraper is a function from
  link to optional article. `GatherArticles` is the loop with its `break`. It also returns `visited`,
  the number of links it scraped, so that "no link after the one that fills the quota is scraped"
  can be stated. `ProcessArticles` runs collection with the fixed cap of ten and then the loop, on
  the pages a `fetch` function gives, scraping each with `scrape_article` as written
  (`ScrapeArticleAsWritten`).
- **Repeated-word analysis** (`WordFrequency`, `translate_title` and `analyze_translated_headers`).
  The translator is a function that answers `None` when the service fails. Lower-casing plus the
  `\b\w+\b` tokeniser is a function parameter. `CountWords` is the `Counter` as a loop over a map,
  and `RepeatedWords` is the `count > 2` comprehension.

Behaviour of the code that the model keeps as written:

- The cap in `get_article_links` is checked only after a link has been appended. A `max_links`
  below one therefore returns at most one link (none when no href qualifies), which `Cap` captures.
  `process_articles` checks its quota the same way: a `num_articles` below one stops after the
  first link, when there is one.
- A listing on which no anchor appears within the wait returns `[]`. That is the same result the
  loop gives for an empty listing, so the model takes the empty sequence for it.
- The three example headlines `Cat Dog Cat`, `Dog Cat Bird` and `Cat Dog Dog` count `cat` and `dog`
  four times each, not three, and `bird` once. The report holds `cat` and `dog`
  (`RepeatedWordsExample`).
- The paragraph wait returns only once at least one paragraph is present, so an empty paragraph
  list is treated like the timeout, and every article comes from at least one paragraph.
- An article's content is the joined paragraph texts. It is empty exactly when the page has a
  single paragraph and its text is empty (`JoinEmptyIff`), because nothing in the code requires
  paragraph text to be non-empty.

## Model

| member | source | states |
|---|---|---|
| `LinkCollector.GetArticleLinks` | python-selenium-browserstack/tests/test.py:97-109 | the loop returns exactly the first `Cap(maxLinks)` distinct qualifying hrefs in order of first appearance (`CollectedLinks`) |
| `LinkCollector.UniqueQualifyingMembers` | python-selenium-browserstack/tests/test.py:100-104 | a string is kept exactly when it is the href of some anchor, non-empty and carrying an allowed date segment |
| `LinkCollector.UniqueQualifyingDistinct` | python-selenium-browserstack/tests/test.py:102-104 | no href is kept twice (the `seen` set) |
| `LinkCollector.UniqueQualifyingFirstSeenOrder` | python-selenium-browserstack/tests/test.py:100-104 | kept hrefs come in the order of their first occurrence in the listing |
| `LinkCollector.UniqueQualifyingPrefix` | python-selenium-browserstack/tests/test.py:100-106 | what is kept from a prefix of the listing is a prefix of what is kept from all of it, so breaking early returns a prefix of the full result |
| `LinkCollector.UniqueQualifyingCount` | python-selenium-browserstack/tests/test.py:102-104 | the number of hrefs kept equals the number of distinct qualifying hrefs |
| `LinkCollector.CollectedLinksQualify` | python-selenium-browserstack/tests/test.py:87-102 | every returned link is a non-empty href of the listing containing `/opinion/<today>/` or `/opinion/<yesterday>/` |
| `LinkCollector.CollectedLinksDistinctInOrder` | python-selenium-browserstack/tests/test.py:97-106 | returned links are pairwise distinct and ordered by their first occurrence in the listing |
| `LinkCollector.CollectedLinksBound` | python-selenium-browserstack/tests/test.py:105-106 | at most `maxLinks` links for `maxLinks >= 1`, and exactly the smaller of the cap and the number of distinct qualifying hrefs |
| `LinkCollector.CollectedLinksComplete` | python-selenium-browserstack/tests/test.py:100-106 | when there are no more distinct qualifying hrefs than the cap, all of them are returned |
| `Strings.ContainsIffOccurs` | python-selenium-browserstack/tests/test.py:102 | the model of Python's `sub in s` holds exactly when `sub` occurs at some position of `s` |
| `Strings.LeadingSpace` | python-selenium-browserstack/tests/test.py:141 | the count of leading characters `strip()` drops: all of them are whitespace and the next one is not |
| `Strings.TrailingSpace` | python-selenium-browserstack/tests/test.py:141 | the count of trailing characters `strip()` drops: all of them are whitespace and the one before is not |
| `Strings.StripKeepsCore` | python-selenium-browserstack/tests/test.py:141 | `strip()` keeps one contiguous piece of the title with only whitespace around it |
| `Strings.StripEnds` | python-selenium-browserstack/tests/test.py:141 | a non-empty stripped title neither starts nor ends with whitespace |
| `Strings.StripEmptyIffAllSpace` | python-selenium-browserstack/tests/test.py:141-142 | the stripped title is empty exactly when every character is whitespace |
| `Strings.StripIdempotent` | python-selenium-browserstack/tests/test.py:141 | stripping a stripped text changes nothing |
| `Strings.JoinSplit` | python-selenium-browserstack/tests/test.py:191 | joining the pieces of a split on the separator gives back the text |
| `Strings.SplitJoin` | python-selenium-browserstack/tests/test.py:191 | splitting the `"\n"`-join of one or more separator-free paragraphs gives back the paragraphs |
| `Strings.JoinEmptyIff` | python-selenium-browserstack/tests/test.py:191 | the `"\n"`-joined content is empty exactly when there is no paragraph or a single empty one |
| `ArticleExtractor.FolderUrlsSkipped` | python-selenium-browserstack/tests/test.py:131-133 | a URL containing `/opinion/editoriales/` or `/opinion/tribunas/` at any position yields nothing, whatever the page holds |
| `ArticleExtractor.ScrapeArticleSucceedsIff` | python-selenium-browserstack/tests/test.py:131-160 | with best-effort image handling, an article results exactly when the URL is not a folder, the title is present with a non-whitespace character, and at least one paragraph is present |
| `ArticleExtractor.ScrapeArticleAsWrittenSucceedsIff` | python-selenium-browserstack/tests/test.py:131-197 | as written, an article results exactly when, in addition, no download of a non-empty image URL raised |
| `ArticleExtractor.ScrapeArticleAsWrittenDiffers` | python-selenium-browserstack/tests/test.py:162-197 | the code as written gives the same result as best-effort image handling, except that a raised download of a non-empty image URL drops the article |
| `ArticleExtractor.DownloadErrorDropsArticle` | python-selenium-browserstack/tests/test.py:172-197 | a page with title `T`, paragraph `p` and an image whose download raised is dropped by the code and kept by best-effort handling |
| `ArticleExtractor.ScrapedArticleFields` | python-selenium-browserstack/tests/test.py:141-193 | the article's title is the stripped title, non-empty and already stripped. Its content is at least one paragraph joined by line breaks, and when no paragraph contains a line break the paragraphs can be read back from it. Its url is the input URL |
| `ArticleExtractor.ImageDoesNotAffectArticle` | python-selenium-browserstack/tests/test.py:162-187 | with best-effort image handling, the article is the same whatever image the page has or lacks and however its download ended |
| `ArticleExtractor.ImageToSave` | python-selenium-browserstack/tests/test.py:131-179 | an image file is written in full exactly when the URL is not a folder, the title strips to non-empty, a paragraph is present, and a non-empty image URL is answered with status 200. Then the article is kept, and the file name is the URL's digest followed by `.jpg` |
| `ArticleExtractor.ImageFileNameIffDigest` | python-selenium-browserstack/tests/test.py:175 | two image URLs are saved under the same file name exactly when their digests agree |
| `ArticleProcessor.GatherArticles` | python-selenium-browserstack/tests/test.py:205-214 | returns the articles of the first `visited` links. It stops only once the count reaches `numArticles` and never before. For `numArticles >= 1` it returns at most that many, and all successes when there are fewer |
| `ArticleProcessor.SuccessesInLinkOrder` | python-selenium-browserstack/tests/test.py:208-210 | the kept articles are exactly the non-None scrape results, in link order |
| `ArticleProcessor.SuccessesMembers` | python-selenium-browserstack/tests/test.py:208-210 | every kept article is the scrape result of one of the links |
| `ArticleProcessor.SuccessesPrefix` | python-selenium-browserstack/tests/test.py:206-212 | the articles kept from a prefix of the links are a prefix of those kept from all of them |
| `ArticleProcessor.SuccessesAtMostLinks` | python-selenium-browserstack/tests/test.py:208-210 | there are never more articles than links visited |
| `ArticleProcessor.SuccessesAgree` | python-selenium-browserstack/tests/test.py:206-210 | two scrapers that agree on every link keep the same articles |
| `ArticleProcessor.ScrapersAgreeWithoutDownloadErrors` | python-selenium-browserstack/tests/test.py:162-210 | when no link's image download raised, the run as written keeps exactly the articles best-effort image handling keeps |
| `ArticleProcessor.ProcessArticles` | python-selenium-browserstack/tests/test.py:199-214 | a run returns at most `numArticles` (when at least one) and at most ten articles. Each has its URL among the collected links, never a folder URL, a non-empty title that is the stripped title of its page, and content that is the line-break join of at least one of its page's paragraphs |
| `WordFrequency.TranslateTitle` | python-selenium-browserstack/tests/test.py:115-122 | the translator's answer on success, exactly the original title on failure |
| `WordFrequency.CountWords` | python-selenium-browserstack/tests/test.py:232 | the counting loop yields every token with its number of occurrences (the multiset of the tokens) |
| `WordFrequency.AnalyzeTranslatedHeaders` | python-selenium-browserstack/tests/test.py:219-233 | each title is translated with fallback, in article order, and the report is the repeated words of all tokens of the translations |
| `WordFrequency.AllWordsCount` | python-selenium-browserstack/tests/test.py:227-232 | a word's count over all tokens is the sum of its counts in each title's tokens |
| `WordFrequency.RepeatedWordsExact` | python-selenium-browserstack/tests/test.py:227-233 | the report maps exactly the words whose total count over all titles exceeds two, each to that count |
| `WordFrequency.RepeatedWordsExample` | python-selenium-browserstack/tests/test.py:227-233 | `Cat Dog Cat`, `Dog Cat Bird`, `Cat Dog Dog` count cat 4, dog 4, bird 1, and report cat and dog |

## Left out

- Browser plumbing (`setup_driver`, `navigate_to_opinion_section`, the `WebDriverWait` polling,
  `time.sleep`, `driver.get`, `driver.quit` in `finally`) is outside collaborator behaviour. The
  listing and the pages a run sees are inputs, and a timed-out wait is `None` (or an empty
  listing).
- `datetime.now()`, `timedelta` and `strftime` are the clock. Today's and yesterday's
  `YYYY-MM-DD` strings are parameters.
- The image download (`requests.get`, chunked file writes, `os.makedirs`, the timestamped
  directory) is network and file I/O. Its outcome is an input (`Download`: raised, or the status
  answered). Only the decision of whether and under which name to save is modelled
  (`ImageToSave`). The MD5 digest is a function parameter.
- The `translate` library is a foreign call. It is a function parameter answering `None` on an
  exception. Because it is a function, its outcome is fixed per title: two articles with the same
  title get the same translation or the same failure, where the real service may fail on one call
  and succeed on the next.
- Python's Unicode `str.lower()` and the `\b\w+\b` regular expression are a `tokenize` parameter.
- Logging, `print` output and `main()` are output only. `AnalyzeTranslatedHeaders` returns the
  translated titles and the report instead of printing them. The insertion order of the printed
  report is not modelled, because a Dafny `map` is unordered.
- The catch-all `except Exception` of `get_article_links`, and that of `scrape_article` for
  failures of the browser collaborator other than the wait timeouts (such as a stale element), are
  not modelled. The one exception path of `scrape_article` that comes from the core's own code, a
  raised image download or file write, is modelled by `ScrapeArticleAsWritten`.
- A partially written image file left behind by a failed write is not modelled: `ImageToSave` names
  only a file written in full.
- The default `num_articles=5` of `process_articles` is not fixed. `ProcessArticles` takes the
  number as a parameter.

## Findings

| source | as written | input that shows it | evidently intended | confidence | as-written member | corrected member |
|---|---|---|---|---|---|---|
| python-selenium-browserstack/tests/test.py:162-197 | the image block catches only the wait's `TimeoutException`, so an exception from `requests.get` or the file write reaches the outer `except Exception` and the article is dropped | a non-folder URL whose page has title `T`, paragraph `p` and image `http://img` whose GET raises a connection error | image download is best-effort: its failure is logged and the article kept | medium, not executed | `ArticleExtractor.ScrapeArticleAsWritten` with `ArticleExtractor.DownloadErrorDropsArticle` | `ArticleExtractor.ScrapeArticle` with `ArticleExtractor.ImageDoesNotAffectArticle` |

`ProcessArticles` models the run as written and scrapes with `ScrapeArticleAsWritten`.
`ScrapeArticleAsWrittenDiffers` states exactly where the two scrapes disagree, and
`ScrapersAgreeWithoutDownloadErrors` shows that a run in which no image download raised keeps the
same articles under either.
