/** The access filter and the content loop over listing stubs (`scrapers/article_filters.py`). The
    article extractor is a parameter: `extract(url, useAuth)` gives the article or nothing. */
module ArticleFilters {
  import opened Wrappers
  import opened Text
  import opened Models
  import ArticleExtractor
  import IndexScraper

  /** The body given to a premium article when no login is used. */
  const PremiumNotice := "[Content not available: Non-free article and no authentication provided]"

  /** The body given to an article whose page has no article container. */
  const MissingNotice := "[Content not available: Article structure not found (likely photo/video archive)]"

  /** What relative stub URLs are resolved against before extraction. */
  const WwwOrigin := "https://www.tempo.co"

  /** `filter_articles_by_access(articles, use_auth)`: the listing keeps free and premium articles
      alike, whatever the login. */
  function FilterArticlesByAccess(articles: seq<ArticleMetadata>, useAuth: bool): (r: seq<ArticleMetadata>)
    ensures |r| == |articles| && forall i :: 0 <= i < |r| ==> r[i] == articles[i]
  {
    articles
  }

  /** The URL handed to the extractor: a relative URL is resolved against `https://www.tempo.co`. */
  function FullUrl(url: string): (full: string)
    ensures StartsWith(url, "/") ==> full == WwwOrigin + url
    ensures !StartsWith(url, "/") ==> full == url
  {
    if StartsWith(url, "/") then WwwOrigin + url else url
  }

  /** An article that is only its stub and a one-line explanation. */
  function Placeholder(stub: ArticleMetadata, notice: string): (a: Article)
    ensures a.metadata == stub && |a.content| == 1 && a.content[0] == notice
    ensures a.tags == [] && a.images == []
  {
    Article(stub, [notice], [], [])
  }

  /** The article one stub contributes: a premium stub without a login is never fetched, a page
      that gives no article is explained, and an extracted article is taken as it is. */
  function ContentFor(stub: ArticleMetadata, useAuth: bool, extract: (string, bool) -> Option<Article>): (a: Article)
    ensures a.metadata == stub || extract(FullUrl(stub.url), useAuth) == Some(a)
  {
    if !stub.isFree && !useAuth then Placeholder(stub, PremiumNotice)
    else
      match extract(FullUrl(stub.url), useAuth)
      case Some(article) => article
      case None => Placeholder(stub, MissingNotice)
  }

  /** `extract_content_for_articles(articles, use_auth)`: the enumerate loop with its `continue`. */
  method ExtractContentForArticles(articles: seq<ArticleMetadata>, useAuth: bool, extract: (string, bool) -> Option<Article>)
    returns (withContent: seq<Article>)
    ensures |withContent| == |articles|
    ensures forall i :: 0 <= i < |articles| ==> withContent[i] == ContentFor(articles[i], useAuth, extract)
  {
    withContent := [];
    for i := 0 to |articles|
      invariant |withContent| == i
      invariant forall j :: 0 <= j < i ==> withContent[j] == ContentFor(articles[j], useAuth, extract)
    {
      var meta := articles[i];
      var fullUrl := if StartsWith(meta.url, "/") then WwwOrigin + meta.url else meta.url;
      if !meta.isFree && !useAuth {
        withContent := withContent + [Article(meta, [PremiumNotice], [], [])];
        continue;
      }
      var article := extract(fullUrl, useAuth);
      if article.Some? {
        withContent := withContent + [article.value];
      } else {
        withContent := withContent + [Article(meta, [MissingNotice], [], [])];
      }
    }
  }

  /** A premium stub without a login gets the premium notice, whatever the extractor would have
      done: the extractor is not consulted. */
  lemma PremiumWithoutLoginSkipsExtractor(stub: ArticleMetadata, e1: (string, bool) -> Option<Article>, e2: (string, bool) -> Option<Article>)
    requires !stub.isFree
    ensures ContentFor(stub, false, e1) == ContentFor(stub, false, e2)
    ensures ContentFor(stub, false, e1) == Article(stub, [PremiumNotice], [], [])
  {
  }

  /** Every stub that may be fetched is fetched at its full URL: the result is the extracted article
      when there is one and the structure notice otherwise. */
  lemma FetchedStubs(stub: ArticleMetadata, useAuth: bool, extract: (string, bool) -> Option<Article>)
    requires stub.isFree || useAuth
    ensures extract(FullUrl(stub.url), useAuth).Some? ==> ContentFor(stub, useAuth, extract) == extract(FullUrl(stub.url), useAuth).value
    ensures extract(FullUrl(stub.url), useAuth).None? ==> ContentFor(stub, useAuth, extract) == Article(stub, [MissingNotice], [], [])
  {
  }

  /** Neither notice is empty, and they differ, so an explained article is never mistaken for an
      article without paragraphs, nor one explanation for the other. */
  lemma NoticesAreDistinct()
    ensures PremiumNotice != "" && MissingNotice != "" && PremiumNotice != MissingNotice
    ensures forall stub, n :: Placeholder(stub, n).content != []
  {
    assert |PremiumNotice| != |MissingNotice|;
  }

  /** With the real extractor behind it, an article that was extracted carries the absolute URL it
      was fetched from, not the stub's, and the category of that URL. */
  lemma ExtractedArticleReplacesStub(stub: ArticleMetadata, useAuth: bool, fetch: string -> Option<ArticleExtractor.ArticlePage>)
    requires stub.isFree || useAuth
    ensures var a := ContentFor(stub, useAuth, (u, _) => ArticleExtractor.ExtractedArticle(u, fetch(u)));
            (a.content == [MissingNotice] && a.metadata == stub)
            || (a.metadata.url == FullUrl(stub.url)
                && IndexScraper.ExtractCategoryFromUrl(FullUrl(stub.url)) == Ok(a.metadata.category))
  {
  }

  /** The listing's relative link `/seg/...` and the absolute URL the extractor fetches for it have
      the same category, its first segment. */
  lemma FullUrlKeepsCategory(seg: string, tail: string)
    requires IndexScraper.IsSegment(seg) && IndexScraper.EndsSegment(tail)
    ensures IndexScraper.ExtractCategoryFromUrl(FullUrl("/" + seg + tail)) == Ok(seg)
    ensures IndexScraper.ExtractCategoryFromUrl("/" + seg + tail) == Ok(seg)
  {
    assert StartsWith("/" + seg + tail, "/");
    assert FullUrl("/" + seg + tail) == "https://" + "www.tempo.co" + "/" + seg + tail;
    IndexScraper.AbsoluteCategoryIsFirstSegment("www.tempo.co", seg, tail);
    IndexScraper.CategoryIsFirstSegment(seg, tail);
  }
}
