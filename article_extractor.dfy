/** The gating of one article page: folder-like URLs are skipped, a title and
    the body paragraphs are required, the image is optional. */
module ArticleExtractor {
  import opened Wrappers
  import opened Strings

  /** How fetching the article's image ended: the GET, the status check or the
      chunked file write raised an exception, or the server answered with a status. */
  datatype Download = Raised | Answered(status: int)

  /** What a visit of an article page sees: the text of the title element, the
      texts of the body paragraphs and the `src` of the image, each `None` when
      its wait times out, and how the image download ended. The paragraph wait
      succeeds only once at least one paragraph is present, so `Some([])` stands
      for the same timeout as `None`. */
  datatype Page = Page(title: Option<string>, paragraphs: Option<seq<string>>, imageUrl: Option<string>, download: Download)

  /** A scraped article. */
  datatype Article = Article(title: string, content: string, url: string)

  /** URL segments of section pages that are not articles. */
  const EditorialsFolder := "/opinion/editoriales/"
  const TribunasFolder := "/opinion/tribunas/"

  /** The line break that joins the paragraphs of an article's content. */
  const ParagraphBreak := '\n'

  predicate IsFolderUrl(url: string) {
    Contains(url, EditorialsFolder) || Contains(url, TribunasFolder)
  }

  /** The page has at least one body paragraph. */
  predicate HasParagraphs(page: Page) {
    page.paragraphs.Some? && page.paragraphs.value != []
  }

  /** The page's image URL is non-empty, so a download is attempted. */
  predicate DownloadsImage(page: Page) {
    page.imageUrl.Some? && page.imageUrl.value != ""
  }

  /** The article at `url`, or `None` when the page is skipped; the image is
      best-effort and never decides whether the article is kept. */
  function ScrapeArticle(url: string, page: Page): Option<Article>
  {
    if IsFolderUrl(url) then None
    else if page.title.None? then None
    else
      var title := Strip(page.title.value);
      if title == "" then None
      else if !HasParagraphs(page) then None
      else Some(Article(title, Join(page.paragraphs.value, [ParagraphBreak]), url))
  }

  /** The article at `url` as the code decides it: the image block catches only
      the wait's timeout, so an exception raised by the download or the file
      write reaches the catch-all and the article is dropped. */
  function ScrapeArticleAsWritten(url: string, page: Page): Option<Article>
  {
    if IsFolderUrl(url) then None
    else if page.title.None? then None
    else
      var title := Strip(page.title.value);
      if title == "" then None
      else if !HasParagraphs(page) then None
      else if DownloadsImage(page) && page.download.Raised? then None
      else Some(Article(title, Join(page.paragraphs.value, [ParagraphBreak]), url))
  }

  /** The file name an image is saved under: the hex digest of its URL (`digest`
      stands for MD5) followed by `.jpg`. */
  function ImageFileName(imageUrl: string, digest: string -> string): string {
    digest(imageUrl) + ".jpg"
  }

  /** The file the article's image is written to in full, if any. The image block
      is reached only once the URL, title and paragraph checks have passed, and a
      file is written only for a non-empty image URL answered with status 200. */
  function ImageToSave(url: string, page: Page, digest: string -> string): (r: Option<string>)
    ensures r.Some? <==>
      && !IsFolderUrl(url)
      && page.title.Some? && Strip(page.title.value) != ""
      && HasParagraphs(page)
      && DownloadsImage(page) && page.download == Answered(200)
    ensures r.Some? ==> ScrapeArticleAsWritten(url, page).Some?
    ensures r.Some? ==> |r.value| >= 4 && r.value[|r.value| - 4..] == ".jpg" && r.value[..|r.value| - 4] == digest(page.imageUrl.value)
  {
    if ScrapeArticle(url, page).Some? && DownloadsImage(page) && page.download == Answered(200) then
      Some(ImageFileName(page.imageUrl.value, digest))
    else None
  }

  /** Two image URLs share a file name exactly when they share a digest. */
  lemma ImageFileNameIffDigest(a: string, b: string, digest: string -> string)
    ensures ImageFileName(a, digest) == ImageFileName(b, digest) <==> digest(a) == digest(b)
  {
    var na, nb := ImageFileName(a, digest), ImageFileName(b, digest);
    if na == nb {
      assert digest(a) == na[..|na| - 4];
      assert digest(b) == nb[..|nb| - 4];
    }
  }

  /** A URL in which either folder segment occurs anywhere is skipped, whatever the page holds. */
  lemma FolderUrlsSkipped(url: string, page: Page)
    requires (exists i :: OccursAt(url, EditorialsFolder, i)) || (exists i :: OccursAt(url, TribunasFolder, i))
    ensures ScrapeArticle(url, page) == None
  {
    ContainsIffOccurs(url, EditorialsFolder);
    ContainsIffOccurs(url, TribunasFolder);
  }

  /** A page yields an article exactly when its URL is not a folder, it has a
      title with some non-whitespace character, and it has at least one paragraph. */
  lemma ScrapeArticleSucceedsIff(url: string, page: Page)
    ensures ScrapeArticle(url, page).Some? <==>
      && !IsFolderUrl(url)
      && page.title.Some?
      && (exists i :: 0 <= i < |page.title.value| && !IsSpace(page.title.value[i]))
      && page.paragraphs.Some? && |page.paragraphs.value| >= 1
  {
    if page.title.Some? {
      StripEmptyIffAllSpace(page.title.value);
    }
  }

  /** As written, a page yields an article exactly when, in addition, no download
      of a non-empty image URL raised. */
  lemma ScrapeArticleAsWrittenSucceedsIff(url: string, page: Page)
    ensures ScrapeArticleAsWritten(url, page).Some? <==>
      && !IsFolderUrl(url)
      && page.title.Some?
      && (exists i :: 0 <= i < |page.title.value| && !IsSpace(page.title.value[i]))
      && page.paragraphs.Some? && |page.paragraphs.value| >= 1
      && !(page.imageUrl.Some? && page.imageUrl.value != "" && page.download.Raised?)
  {
    if page.title.Some? {
      StripEmptyIffAllSpace(page.title.value);
    }
  }

  /** The code as written agrees with the best-effort image handling except when
      the download of a non-empty image URL raised, where it drops the article. */
  lemma ScrapeArticleAsWrittenDiffers(url: string, page: Page)
    ensures ScrapeArticleAsWritten(url, page) ==
      if DownloadsImage(page) && page.download.Raised? then None else ScrapeArticle(url, page)
  {
  }

  /** A page with title `T`, one paragraph `p` and an image whose download raised:
      the code drops it, the best-effort handling keeps it. */
  lemma DownloadErrorDropsArticle(url: string)
    requires !IsFolderUrl(url)
    ensures var page := Page(Some("T"), Some(["p"]), Some("http://img"), Raised);
      && ScrapeArticleAsWritten(url, page) == None
      && ScrapeArticle(url, page) == Some(Article("T", "p", url))
  {
    assert LeadingSpace("T") == 0;
    assert TrailingSpace("T") == 0;
    assert "T"[0..1] == "T";
  }

  /** A scraped article carries the stripped title, which is non-empty and has no
      surrounding whitespace, the line-break join of at least one paragraph, from
      which line-break-free paragraphs can be read back, and the URL it came from. */
  lemma ScrapedArticleFields(url: string, page: Page)
    requires ScrapeArticle(url, page).Some?
    ensures var a := ScrapeArticle(url, page).value;
      && a.url == url
      && page.title.Some? && page.paragraphs.Some?
      && a.title == Strip(page.title.value)
      && a.title != ""
      && !IsSpace(a.title[0]) && !IsSpace(a.title[|a.title| - 1])
      && Strip(a.title) == a.title
      && |page.paragraphs.value| >= 1
      && a.content == Join(page.paragraphs.value, [ParagraphBreak])
      && ((forall p :: p in page.paragraphs.value ==> ParagraphBreak !in p) ==>
            Split(a.content, ParagraphBreak) == page.paragraphs.value)
  {
    var t := page.title.value;
    StripKeepsCore(t);
    StripEnds(t);
    StripIdempotent(t);
    if forall p :: p in page.paragraphs.value ==> ParagraphBreak !in p {
      SplitJoin(page.paragraphs.value, ParagraphBreak);
    }
  }

  /** Neither the image nor how its download ended changes the scraped article. */
  lemma ImageDoesNotAffectArticle(url: string, page: Page, imageUrl: Option<string>, download: Download)
    ensures ScrapeArticle(url, page.(imageUrl := imageUrl, download := download)) == ScrapeArticle(url, page)
  {
  }
}
