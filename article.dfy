/** The scraper's records (`models/article.py`), with the defaults the dataclasses declare. */
module Models {
  import opened Wrappers

  /** An `<img>` kept from an article page. */
  datatype Image = Image(src: string, alt: string)

  /** What is known about one article: a listing stub fills the first four fields,
      the article extractor all of them. */
  datatype ArticleMetadata = ArticleMetadata(
    url: string,
    title: string,
    category: string,
    isFree: bool,
    publicationDateRaw: string,
    publicationDate: string,
    publicationTime: string,
    timezone: string,
    author: string)

  /** A complete article: metadata, body paragraphs, tags and images; no field has a default. */
  datatype Article = Article(
    metadata: ArticleMetadata,
    content: seq<string>,
    tags: seq<string>,
    images: seq<Image>)

  /** The run configuration of an index scrape. */
  datatype ScrapingOptions = ScrapingOptions(
    startPage: int,
    endPage: int,
    delay: int,
    startDate: Option<string>,
    endDate: Option<string>,
    articlePerPage: int,
    extractContent: bool,
    rubric: Option<string>,
    useAuth: bool,
    categorize: bool)

  /** `ArticleMetadata(url=..., title=..., category=..., is_free=...)`: every other field
      keeps its declared default. */
  function Stub(url: string, title: string, category: string, isFree: bool): (m: ArticleMetadata)
    ensures m.url == url && m.title == title && m.category == category && m.isFree == isFree
    ensures m.publicationDateRaw == "" && m.publicationDate == "" && m.publicationTime == ""
    ensures m.timezone == "" && m.author == ""
  {
    ArticleMetadata(url, title, category, isFree, "", "", "", "", "")
  }

  /** `ArticleMetadata(url, title, category)` with nothing else given: `is_free` defaults to `True`. */
  function DefaultMetadata(url: string, title: string, category: string): (m: ArticleMetadata)
    ensures m.isFree
    ensures m == Stub(url, title, category, true)
  {
    Stub(url, title, category, true)
  }

  /** `ScrapingOptions()` with nothing given. */
  function DefaultOptions(): (o: ScrapingOptions)
    ensures o.startPage == 1 && o.endPage == 3 && o.delay == 1 && o.articlePerPage == 20
    ensures !o.extractContent && !o.useAuth && !o.categorize
    ensures o.startDate == None && o.endDate == None && o.rubric == None
  {
    ScrapingOptions(1, 3, 1, None, None, 20, false, None, false, false)
  }

  /** Python's truth value of an optional string: present and non-empty. */
  predicate Truthy(s: Option<string>) {
    s.Some? && s.value != ""
  }
}
