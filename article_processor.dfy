/** The main loop of a run: visit the collected links in order, keep every
    article that scrapes, and stop as soon as enough articles are kept. */
module ArticleProcessor {
  import opened Wrappers
  import opened Strings
  import opened LinkCollector
  import opened ArticleExtractor

  /** The articles `scrape` yields for `links`, in link order. */
  function Successes(links: seq<string>, scrape: string -> Option<Article>): seq<Article>
  {
    if links == [] then []
    else
      var prev := Successes(links[..|links| - 1], scrape);
      match scrape(links[|links| - 1])
      case Some(a) => prev + [a]
      case None => prev
  }

  /** The positions of the links that scrape successfully, in increasing order. */
  function SuccessIndices(links: seq<string>, scrape: string -> Option<Article>): seq<nat>
  {
    if links == [] then []
    else
      var prev := SuccessIndices(links[..|links| - 1], scrape);
      if scrape(links[|links| - 1]).Some? then prev + [|links| - 1] else prev
  }

  /** The successes are exactly the results of the links that scrape, in link order:
      the j-th article is the result of the link at the j-th successful position,
      those positions increase, and every link that scrapes is among them. */
  lemma {:induction false} SuccessesInLinkOrder(links: seq<string>, scrape: string -> Option<Article>)
    ensures |SuccessIndices(links, scrape)| == |Successes(links, scrape)|
    ensures forall j :: 0 <= j < |SuccessIndices(links, scrape)| ==>
      && SuccessIndices(links, scrape)[j] < |links|
      && scrape(links[SuccessIndices(links, scrape)[j]]) == Some(Successes(links, scrape)[j])
    ensures forall j, k :: 0 <= j < k < |SuccessIndices(links, scrape)| ==>
      SuccessIndices(links, scrape)[j] < SuccessIndices(links, scrape)[k]
    ensures forall i :: 0 <= i < |links| && scrape(links[i]).Some? ==> i in SuccessIndices(links, scrape)
  {
    if links != [] {
      var init := links[..|links| - 1];
      SuccessesInLinkOrder(init, scrape);
      assert forall i :: 0 <= i < |init| ==> init[i] == links[i];
    }
  }

  /** Every article among the successes is the result of scraping one of the links. */
  lemma SuccessesMembers(links: seq<string>, scrape: string -> Option<Article>, a: Article)
    requires a in Successes(links, scrape)
    ensures exists i :: 0 <= i < |links| && scrape(links[i]) == Some(a)
  {
    SuccessesInLinkOrder(links, scrape);
    var j :| 0 <= j < |Successes(links, scrape)| && Successes(links, scrape)[j] == a;
    var i := SuccessIndices(links, scrape)[j];
    assert scrape(links[i]) == Some(a);
  }

  /** The successes of a prefix of the links are a prefix of the successes of all of them. */
  lemma {:induction false} SuccessesPrefix(links: seq<string>, scrape: string -> Option<Article>, k: nat)
    requires k <= |links|
    ensures var p := Successes(links[..k], scrape);
      |p| <= |Successes(links, scrape)| && p == Successes(links, scrape)[..|p|]
    decreases |links|
  {
    if k < |links| {
      var init := links[..|links| - 1];
      SuccessesPrefix(init, scrape, k);
      assert init[..k] == links[..k];
    } else {
      assert links[..k] == links;
    }
  }

  /** There are never more successes than links. */
  lemma {:induction false} SuccessesAtMostLinks(links: seq<string>, scrape: string -> Option<Article>)
    ensures |Successes(links, scrape)| <= |links|
  {
    if links != [] {
      SuccessesAtMostLinks(links[..|links| - 1], scrape);
    }
  }

  /** Visits the links in order, appending every article that scrapes, and stops
      right after the visit that brings the count to `numArticles`. `visited` is
      the number of links scraped. */
  method GatherArticles(links: seq<string>, scrape: string -> Option<Article>, numArticles: int)
    returns (articles: seq<Article>, visited: nat)
    ensures visited <= |links|
    ensures articles == Successes(links[..visited], scrape)
    ensures visited < |links| ==> 1 <= visited && |articles| >= numArticles
    ensures forall k :: 1 <= k < visited ==> |Successes(links[..k], scrape)| < numArticles
    ensures numArticles >= 1 ==> |articles| <= numArticles
    ensures |Successes(links, scrape)| < numArticles ==> visited == |links| && articles == Successes(links, scrape)
  {
    articles := [];
    visited := 0;
    while visited < |links|
      invariant visited <= |links|
      invariant articles == Successes(links[..visited], scrape)
      invariant forall k :: 1 <= k <= visited ==> |Successes(links[..k], scrape)| < numArticles
      invariant numArticles >= 1 ==> |articles| < numArticles
    {
      assert links[..visited + 1][..visited] == links[..visited];
      var article := scrape(links[visited]);
      if article.Some? {
        articles := articles + [article.value];
      }
      visited := visited + 1;
      if |articles| >= numArticles {
        SuccessesPrefix(links, scrape, visited);
        return;
      }
    }
    assert links[..visited] == links;
  }

  /** The scraper the run uses: `scrape_article` as written on the page the
      browser shows for each URL. */
  function Scraper(fetch: string -> Page): string -> Option<Article> {
    url => ScrapeArticleAsWritten(url, fetch(url))
  }

  /** The scraper with best-effort image handling, where a failed download keeps the article. */
  function BestEffortScraper(fetch: string -> Page): string -> Option<Article> {
    url => ScrapeArticle(url, fetch(url))
  }

  /** Two scrapers that agree on every link keep the same articles. */
  lemma {:induction false} SuccessesAgree(links: seq<string>, s1: string -> Option<Article>, s2: string -> Option<Article>)
    requires forall i :: 0 <= i < |links| ==> s1(links[i]) == s2(links[i])
    ensures Successes(links, s1) == Successes(links, s2)
  {
    if links != [] {
      var init := links[..|links| - 1];
      assert forall i :: 0 <= i < |init| ==> init[i] == links[i];
      SuccessesAgree(init, s1, s2);
      assert s1(links[|links| - 1]) == s2(links[|links| - 1]);
    }
  }

  /** When no link's image download raised, the run as written keeps exactly the
      articles best-effort image handling keeps. */
  lemma ScrapersAgreeWithoutDownloadErrors(links: seq<string>, fetch: string -> Page)
    requires forall i :: 0 <= i < |links| ==> !(DownloadsImage(fetch(links[i])) && fetch(links[i]).download.Raised?)
    ensures Successes(links, Scraper(fetch)) == Successes(links, BestEffortScraper(fetch))
  {
    forall i | 0 <= i < |links|
      ensures Scraper(fetch)(links[i]) == BestEffortScraper(fetch)(links[i])
    {
      ScrapeArticleAsWrittenDiffers(links[i], fetch(links[i]));
    }
    SuccessesAgree(links, Scraper(fetch), BestEffortScraper(fetch));
  }

  /** A run: collect at most ten links from the listing, then gather up to
      `numArticles` articles from them. */
  method ProcessArticles(listing: seq<Option<string>>, today: string, yesterday: string,
                         fetch: string -> Page, numArticles: int)
    returns (articles: seq<Article>, visited: nat)
    ensures var links := CollectedLinks(listing, today, yesterday, DefaultMaxLinks);
      && visited <= |links|
      && articles == Successes(links[..visited], Scraper(fetch))
      && (visited < |links| ==> 1 <= visited && |articles| >= numArticles)
      && (forall k :: 1 <= k < visited ==> |Successes(links[..k], Scraper(fetch))| < numArticles)
    ensures numArticles >= 1 ==> |articles| <= numArticles
    ensures |articles| <= DefaultMaxLinks
    ensures forall a :: a in articles ==>
      && a.url in CollectedLinks(listing, today, yesterday, DefaultMaxLinks)
      && !IsFolderUrl(a.url)
      && a.title != ""
      && Strip(a.title) == a.title
      && fetch(a.url).title.Some? && a.title == Strip(fetch(a.url).title.value)
      && fetch(a.url).paragraphs.Some? && |fetch(a.url).paragraphs.value| >= 1
      && a.content == Join(fetch(a.url).paragraphs.value, [ParagraphBreak])
  {
    var links := GetArticleLinks(listing, today, yesterday, DefaultMaxLinks);
    articles, visited := GatherArticles(links, Scraper(fetch), numArticles);
    SuccessesAtMostLinks(links[..visited], Scraper(fetch));
    forall a | a in articles
      ensures a.url in links && !IsFolderUrl(a.url) && a.title != "" && Strip(a.title) == a.title
      ensures fetch(a.url).title.Some? && a.title == Strip(fetch(a.url).title.value)
      ensures fetch(a.url).paragraphs.Some? && |fetch(a.url).paragraphs.value| >= 1
      ensures a.content == Join(fetch(a.url).paragraphs.value, [ParagraphBreak])
    {
      SuccessesMembers(links[..visited], Scraper(fetch), a);
      var i :| 0 <= i < visited && Scraper(fetch)(links[..visited][i]) == Some(a);
      var url := links[i];
      assert ScrapeArticleAsWritten(url, fetch(url)) == Some(a);
      ScrapeArticleAsWrittenDiffers(url, fetch(url));
      ScrapedArticleFields(url, fetch(url));
    }
  }
}
