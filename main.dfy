/** The two runs of the scraper (`main.py`): a listing run over a range of index pages and a
    single-article run. The network is a parameter: `fetchListing(url)` and `fetchArticle(url)`
    give the parsed page or nothing when the request fails; the clock is the moment `now`, and
    `writeOk` says whether the output file could be written. `time.sleep` is counted. */
module Scraper {
  import opened Wrappers
  import opened Text
  import opened Models
  import opened JsonValue
  import opened Calendar
  import opened Validators
  import opened FileHandler
  import UrlBuilder
  import IndexScraper
  import ArticleExtractor
  import ArticleFilters

  /** Where both runs write their JSON file. */
  const OutputDir := "data/output"

  /** A date window with both ends or with neither, as `process_dates` leaves it. */
  predicate Complete(o: ScrapingOptions) {
    Truthy(o.startDate) == Truthy(o.endDate)
  }

  /** The options after `options.start_date, options.end_date = process_dates(...)`. */
  function Windowed(o: ScrapingOptions): (r: Result<ScrapingOptions>)
    ensures r.Ok? ==> r.value == o.(startDate := r.value.startDate, endDate := r.value.endDate)
  {
    match ProcessDates(o.startDate, o.endDate)
    case Err(e) => Err(e)
    case Ok((s, e)) => Ok(o.(startDate := s, endDate := e))
  }

  /** The options the page loop runs with, or what ends the run before any page is fetched: an
      exception of `process_dates` or `validate_date_range`, or `sys.exit(1)` for a reversed range. */
  function RunOptions(o: ScrapingOptions): (r: Result<ScrapingOptions>)
    ensures r.Ok? ==> Windowed(o) == Ok(r.value) && ValidateDateRange(r.value.startDate, r.value.endDate) == Ok(true)
  {
    match Windowed(o)
    case Err(e) => Err(e)
    case Ok(p) =>
      match ValidateDateRange(p.startDate, p.endDate)
      case Err(e) => Err(e)
      case Ok(ok) => if ok then Ok(p) else Err(SystemExit(1))
  }

  /** The window of a run that goes ahead is complete, and the run exits with status 1 only when
      both dates were given and the start is a later day than the end. */
  lemma RunWindow(o: ScrapingOptions)
    ensures RunOptions(o).Ok? ==> Complete(RunOptions(o).value)
    ensures RunOptions(o) == Err(SystemExit(1)) <==>
              && Truthy(o.startDate) && Truthy(o.endDate)
              && ParseIsoDate(o.startDate.value).Ok? && ParseIsoDate(o.endDate.value).Ok?
              && Ordinal(ParseIsoDate(o.startDate.value).value) > Ordinal(ParseIsoDate(o.endDate.value).value)
  {
    if Truthy(o.startDate) != Truthy(o.endDate) && ProcessDates(o.startDate, o.endDate).Ok? {
      ProcessedWindowIsValid(o.startDate, o.endDate);
    }
  }

  /** The real article extractor over the fetched article pages; it does not look at the login. */
  function Extractor(fetchArticle: string -> Option<ArticleExtractor.ArticlePage>): (string, bool) -> Option<Article> {
    (url: string, useAuth: bool) => ArticleExtractor.ExtractedArticle(url, fetchArticle(url))
  }

  /** The URL of one index page; a complete window never makes `build_index_url` raise. */
  function PageUrl(p: ScrapingOptions, page: int): string
    requires Complete(p)
  {
    UrlBuilder.BuildIndexUrl(page, p.startDate, p.endDate, p.rubric).value
  }

  /** The stubs one index page gives after the access filter. */
  function Stubs(p: ScrapingOptions, page: int, fetchListing: string -> Option<IndexScraper.ListingPage>): seq<ArticleMetadata>
    requires Complete(p)
  {
    ArticleFilters.FilterArticlesByAccess(IndexScraper.IndexPageStubs(fetchListing(PageUrl(p, page)), p.articlePerPage), p.useAuth)
  }

  /** `Article(metadata=meta, content=[], tags=[])` for each stub: the listing-only records. */
  function Wrapped(stubs: seq<ArticleMetadata>): (r: seq<Article>)
    ensures |r| == |stubs|
    ensures forall i :: 0 <= i < |stubs| ==> r[i] == Article(stubs[i], [], [], [])
  {
    seq(|stubs|, i requires 0 <= i < |stubs| => Article(stubs[i], [], [], []))
  }

  /** The articles one index page adds: the stubs with their content when it is extracted, the
      bare stubs otherwise, in the order of the page. */
  function PageArticles(p: ScrapingOptions, page: int, fetchListing: string -> Option<IndexScraper.ListingPage>,
                        extract: (string, bool) -> Option<Article>): (r: seq<Article>)
    requires Complete(p)
  {
    var stubs := Stubs(p, page, fetchListing);
    if p.extractContent then seq(|stubs|, i requires 0 <= i < |stubs| => ArticleFilters.ContentFor(stubs[i], p.useAuth, extract))
    else Wrapped(stubs)
  }

  /** One article per stub of the page, in the page's order. */
  lemma PageArticlesPerStub(p: ScrapingOptions, page: int, fetchListing: string -> Option<IndexScraper.ListingPage>,
                            extract: (string, bool) -> Option<Article>)
    requires Complete(p)
    ensures var stubs, r := Stubs(p, page, fetchListing), PageArticles(p, page, fetchListing, extract);
            && |r| == |stubs|
            && forall i :: 0 <= i < |stubs| ==>
                 r[i] == if p.extractContent then ArticleFilters.ContentFor(stubs[i], p.useAuth, extract)
                         else Article(stubs[i], [], [], [])
  {
  }

  /** The articles of the pages `first..last`, one page after another. */
  function Concat(pageOf: int -> seq<Article>, first: int, last: int): seq<Article>
    decreases last - first
  {
    if last < first then [] else Concat(pageOf, first, last - 1) + pageOf(last)
  }

  /** An article is in the concatenation exactly when one of its pages holds it. */
  lemma {:induction false} ConcatMembers(pageOf: int -> seq<Article>, first: int, last: int, a: Article)
    ensures a in Concat(pageOf, first, last) <==> exists page :: first <= page <= last && a in pageOf(page)
    decreases last - first
  {
    if last >= first {
      ConcatMembers(pageOf, first, last - 1, a);
      var front, here := Concat(pageOf, first, last - 1), pageOf(last);
      assert a in front + here <==> a in front || a in here;
      if a in front {
        var page :| first <= page <= last - 1 && a in pageOf(page);
        assert first <= page <= last;
      }
    }
  }

  /** The page function of a run. */
  function PagesOf(p: ScrapingOptions, fetchListing: string -> Option<IndexScraper.ListingPage>,
                   extract: (string, bool) -> Option<Article>): int -> seq<Article>
    requires Complete(p)
  {
    page => PageArticles(p, page, fetchListing, extract)
  }

  /** `all_articles` once the pages `p.startPage..last` have been visited. */
  function AllArticles(p: ScrapingOptions, last: int, fetchListing: string -> Option<IndexScraper.ListingPage>,
                       extract: (string, bool) -> Option<Article>): seq<Article>
    requires Complete(p)
  {
    Concat(PagesOf(p, fetchListing, extract), p.startPage, last)
  }

  /** Visiting one more page appends its articles. */
  lemma AllArticlesStep(p: ScrapingOptions, last: int, fetchListing: string -> Option<IndexScraper.ListingPage>,
                        extract: (string, bool) -> Option<Article>)
    requires Complete(p) && p.startPage <= last
    ensures AllArticles(p, last, fetchListing, extract)
              == AllArticles(p, last - 1, fetchListing, extract) + PageArticles(p, last, fetchListing, extract)
  {
    assert PagesOf(p, fetchListing, extract)(last) == PageArticles(p, last, fetchListing, extract);
  }

  /** An article is collected exactly when one of the visited pages gives it. */
  lemma AllArticlesFromPages(p: ScrapingOptions, last: int, fetchListing: string -> Option<IndexScraper.ListingPage>,
                             extract: (string, bool) -> Option<Article>, a: Article)
    requires Complete(p)
    ensures a in AllArticles(p, last, fetchListing, extract) <==>
              exists page :: p.startPage <= page <= last && a in PageArticles(p, page, fetchListing, extract)
  {
    var pageOf := PagesOf(p, fetchListing, extract);
    ConcatMembers(pageOf, p.startPage, last, a);
    if a in AllArticles(p, last, fetchListing, extract) {
      var page :| p.startPage <= page <= last && a in pageOf(page);
      assert pageOf(page) == PageArticles(p, page, fetchListing, extract);
    } else {
      forall page | p.startPage <= page <= last
        ensures a !in PageArticles(p, page, fetchListing, extract)
      {
        assert pageOf(page) == PageArticles(p, page, fetchListing, extract);
      }
    }
  }

  /** The delays of a run: one after every page but the last. */
  function Delays(p: ScrapingOptions): nat {
    if p.endPage >= p.startPage then p.endPage - p.startPage else 0
  }

  /** The delays the `page < end_page` test lets through, page by page from `first` to `last`. */
  function WaitsFrom(first: int, last: int): nat
    decreases last - first
  {
    if first > last then 0 else (if first < last then 1 else 0) + WaitsFrom(first + 1, last)
  }

  /** A run waits after every page but the last, and never when the range is empty. */
  lemma {:induction false} DelaysAreWaits(p: ScrapingOptions)
    ensures Delays(p) == WaitsFrom(p.startPage, p.endPage)
    ensures Delays(p) == 0 <==> p.endPage <= p.startPage
    decreases p.endPage - p.startPage
  {
    if p.startPage < p.endPage {
      DelaysAreWaits(p.(startPage := p.startPage + 1));
    }
  }

  /** `scraping_options` as recorded in the listing file: absent or empty dates and rubric become
      `""`, the other fields are copied. */
  function RecordedOptions(p: ScrapingOptions): seq<(string, Json)> {
    [("extract_content", JBool(p.extractContent)), ("start_page", JNum(p.startPage)),
     ("end_page", JNum(p.endPage)), ("start_date", JStr(p.startDate.GetOr(""))),
     ("end_date", JStr(p.endDate.GetOr(""))), ("rubric", JStr(p.rubric.GetOr(""))),
     ("article_per_page", JNum(p.articlePerPage)), ("categorize", JBool(p.categorize))]
  }

  /** The recorded options hold the eight settings, a missing date as `""`, and they make the
      writer store summaries exactly when no content was extracted. */
  lemma RecordedOptionsShape(p: ScrapingOptions)
    ensures Keys(RecordedOptions(p)) == ["extract_content", "start_page", "end_page", "start_date",
                                         "end_date", "rubric", "article_per_page", "categorize"]
    ensures !Truthy(p.startDate) ==> RecordedOptions(p)[3].1 == JStr("")
    ensures !Truthy(p.endDate) ==> RecordedOptions(p)[4].1 == JStr("")
    ensures Truthy(p.rubric) ==> RecordedOptions(p)[5].1 == JStr(p.rubric.value)
    ensures WantsSummaries(Some(RecordedOptions(p))) <==> !p.extractContent
  {
    var ms := RecordedOptions(p);
    assert Get(ms, "extract_content") == Some(JBool(p.extractContent));
  }

  /** The file a listing run saves for the run options `p`. */
  function ListingFile(p: ScrapingOptions, all: seq<Article>, now: Moment): SavedFile
    requires ValidMoment(now)
  {
    SavedFile(PathJoin(OutputDir, OutputFilename(true, now)), OutputData(all, true, Some(RecordedOptions(p)), now))
  }

  /** `scrape_index_pages(options)`: the window is completed and checked before any page is
      fetched; then every page from the first to the last is scraped in ascending order, with a
      delay after each page but the last, and everything collected is saved as one listing. */
  method ScrapeIndexPages(options: ScrapingOptions, fetchListing: string -> Option<IndexScraper.ListingPage>,
                          fetchArticle: string -> Option<ArticleExtractor.ArticlePage>, now: Moment, writeOk: bool)
    returns (r: Result<SavedFile>, processed: ScrapingOptions, delays: nat)
    requires ValidMoment(now)
    ensures Windowed(options).Ok? ==> processed == Windowed(options).value
    ensures Windowed(options).Err? ==> processed == options
    ensures RunOptions(options).Err? ==> r == Err(RunOptions(options).error) && delays == 0
    ensures RunOptions(options).Ok? ==> processed == RunOptions(options).value && Complete(processed)
    // a negative delay raises at the first wait, before anything is saved
    ensures RunOptions(options).Ok? && SleepRaises(processed) ==> r == Err(ValueError) && delays == 0
    ensures RunOptions(options).Ok? && !SleepRaises(processed) ==>
              && delays == Delays(processed)
              && var all := AllArticles(processed, processed.endPage, fetchListing, Extractor(fetchArticle));
                 r == if writeOk then Ok(ListingFile(processed, all, now)) else Err(WriteError)
  {
    processed := options;
    delays := 0;
    var dates := ProcessDates(options.startDate, options.endDate);
    if dates.Err? {
      return Err(dates.error), processed, delays;
    }
    processed := processed.(startDate := dates.value.0, endDate := dates.value.1);
    var rangeOk := ValidateDateRange(processed.startDate, processed.endDate);
    if rangeOk.Err? {
      return Err(rangeOk.error), processed, delays;
    }
    if !rangeOk.value {
      return Err(SystemExit(1)), processed, delays;
    }
    RunWindow(options);
    var allArticles;
    allArticles, delays := ScrapePages(processed, fetchListing, Extractor(fetchArticle));
    if allArticles.Err? {
      return Err(allArticles.error), processed, delays;
    }
    var saved := SaveArticlesToJson(allArticles.value, OutputDir, true, Some(RecordedOptions(processed)), now, writeOk);
    r := saved;
  }

  /** `time.sleep` refuses a negative length with `ValueError`, so a negative delay ends the run
      at the first wait, which only a range of two or more pages reaches. */
  predicate SleepRaises(p: ScrapingOptions) {
    p.delay < 0 && p.startPage < p.endPage
  }

  /** The page loop of `scrape_index_pages` over `range(start_page, end_page + 1)`. */
  method ScrapePages(p: ScrapingOptions, fetchListing: string -> Option<IndexScraper.ListingPage>,
                     extract: (string, bool) -> Option<Article>)
    returns (r: Result<seq<Article>>, delays: nat)
    requires Complete(p)
    ensures SleepRaises(p) ==> r == Err(ValueError) && delays == 0
    ensures !SleepRaises(p) ==> r == Ok(AllArticles(p, p.endPage, fetchListing, extract)) && delays == Delays(p)
  {
    var allArticles := [];
    delays := 0;
    if p.endPage < p.startPage {
      return Ok(allArticles), delays;   // range(start_page, end_page + 1) is empty
    }
    for page := p.startPage to p.endPage + 1
      invariant allArticles == AllArticles(p, page - 1, fetchListing, extract)
      invariant delays == (if page <= p.endPage then page else p.endPage) - p.startPage
      invariant p.delay < 0 ==> page == p.startPage || p.endPage <= p.startPage
    {
      allArticles := AddPage(p, page, fetchListing, extract, allArticles);
      if page < p.endPage {
        if p.delay < 0 {
          return Err(ValueError), 0;   // time.sleep(options.delay) raises
        }
        delays := delays + 1;   // time.sleep(options.delay)
      }
    }
    r := Ok(allArticles);
  }

  /** The articles collected after `page`, given those collected before it. */
  method AddPage(p: ScrapingOptions, page: int, fetchListing: string -> Option<IndexScraper.ListingPage>,
                 extract: (string, bool) -> Option<Article>, before: seq<Article>)
    returns (after: seq<Article>)
    requires Complete(p) && p.startPage <= page
    requires before == AllArticles(p, page - 1, fetchListing, extract)
    ensures after == AllArticles(p, page, fetchListing, extract)
  {
    var articles := ScrapePage(p, page, fetchListing, extract);
    AllArticlesStep(p, page, fetchListing, extract);
    after := before + articles;
  }

  /** One pass of the page loop: scrape the page, filter it, and extract or wrap its stubs. */
  method ScrapePage(p: ScrapingOptions, page: int, fetchListing: string -> Option<IndexScraper.ListingPage>,
                    extract: (string, bool) -> Option<Article>)
    returns (articles: seq<Article>)
    requires Complete(p)
    ensures articles == PageArticles(p, page, fetchListing, extract)
  {
    var url := UrlBuilder.BuildIndexUrl(page, p.startDate, p.endDate, p.rubric).value;
    var stubs := IndexScraper.ScrapeIndexPage(fetchListing(url), p.articlePerPage);
    var filteredArticles := ArticleFilters.FilterArticlesByAccess(stubs, p.useAuth);
    PageArticlesPerStub(p, page, fetchListing, extract);
    if p.extractContent {
      articles := ArticleFilters.ExtractContentForArticles(filteredArticles, p.useAuth, extract);
    } else {
      articles := Wrapped(filteredArticles);
    }
  }

  /** Without content extraction every collected article is a bare listing stub, and the listing
      file stores each one as its four-field summary. */
  lemma ListingOnlyRunSavesSummaries(p: ScrapingOptions, fetchListing: string -> Option<IndexScraper.ListingPage>,
                                     extract: (string, bool) -> Option<Article>, now: Moment, a: Article)
    requires Complete(p) && !p.extractContent && ValidMoment(now)
    ensures var all := AllArticles(p, p.endPage, fetchListing, extract);
            && (a in all ==> a.content == [] && a.tags == [] && a.images == [])
            && ListingFile(p, all, now).data == JObject([("metadata", IndexMetadata(now, Some(RecordedOptions(p)), |all|)),
                                                         ("articles", JArray(Summaries(all)))])
  {
    RecordedOptionsShape(p);
    AllArticlesFromPages(p, p.endPage, fetchListing, extract, a);
  }

  /** With content extraction every collected article is what the content loop made of a stub of
      one of the visited pages. */
  lemma ContentRunExtractsEveryStub(p: ScrapingOptions, fetchListing: string -> Option<IndexScraper.ListingPage>,
                                    extract: (string, bool) -> Option<Article>, a: Article)
    requires Complete(p) && p.extractContent
    ensures a in AllArticles(p, p.endPage, fetchListing, extract) <==>
              exists page, i :: p.startPage <= page <= p.endPage && 0 <= i < |Stubs(p, page, fetchListing)|
                                && a == ArticleFilters.ContentFor(Stubs(p, page, fetchListing)[i], p.useAuth, extract)
  {
    AllArticlesFromPages(p, p.endPage, fetchListing, extract, a);
    if a in AllArticles(p, p.endPage, fetchListing, extract) {
      var page :| p.startPage <= page <= p.endPage && a in PageArticles(p, page, fetchListing, extract);
      PageArticlesPerStub(p, page, fetchListing, extract);
      var k :| 0 <= k < |PageArticles(p, page, fetchListing, extract)| && PageArticles(p, page, fetchListing, extract)[k] == a;
      assert a == ArticleFilters.ContentFor(Stubs(p, page, fetchListing)[k], p.useAuth, extract);
    } else {
      forall page, i | p.startPage <= page <= p.endPage && 0 <= i < |Stubs(p, page, fetchListing)|
        ensures a != ArticleFilters.ContentFor(Stubs(p, page, fetchListing)[i], p.useAuth, extract)
      {
        PageArticlesPerStub(p, page, fetchListing, extract);
        assert PageArticles(p, page, fetchListing, extract)[i] in PageArticles(p, page, fetchListing, extract);
      }
    }
  }

  /** `extract_single_article(url)`: exits with status 1 when no article could be extracted and
      otherwise saves that article alone. */
  method ExtractSingleArticle(url: string, fetchArticle: string -> Option<ArticleExtractor.ArticlePage>, now: Moment, writeOk: bool)
    returns (r: Result<SavedFile>)
    requires ValidMoment(now)
    ensures ArticleExtractor.ExtractedArticle(url, fetchArticle(url)).None? ==> r == Err(SystemExit(1))
    ensures ArticleExtractor.ExtractedArticle(url, fetchArticle(url)).Some? ==>
              r == if writeOk then Ok(SavedFile(PathJoin(OutputDir, OutputFilename(false, now)),
                                                ArticleJson(ArticleExtractor.ExtractedArticle(url, fetchArticle(url)).value)))
                   else Err(WriteError)
  {
    var article := ArticleExtractor.ExtractArticleContent(url, fetchArticle(url));
    if article.None? {
      return Err(SystemExit(1));
    }
    r := SaveArticlesToJson([article.value], OutputDir, false, None, now, writeOk);
  }
}
