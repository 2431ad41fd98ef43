/** One article page turned into an `Article` (`extractors/article_extractor.py`). The fetched page
    is the abstract document its selectors read: the `<title>` text, the three `<meta>` tags it
    asks for, and the article container with its content wrappers, its first tags container and
    its images. */
module ArticleExtractor {
  import opened Wrappers
  import opened Text
  import opened Models
  import opened DateParser
  import IndexScraper

  /** `editor_pick_indicator`: paragraphs starting with it are links to other articles. */
  const EditorPick := "Pilihan Editor:"

  /** `ads_logo`: the one image source that is never kept. */
  const AdsLogo := "/img/logo-tempo-ads.svg"

  /** A `<meta>` tag that was found, with its `content` attribute if it has one. */
  datatype Meta = Meta(content: Option<string>)

  /** An `<img>` inside the article, with its `src` and `alt` attributes if present. */
  datatype ImgTag = ImgTag(src: Option<string>, alt: Option<string>)

  /** The article container: for each `div#content-wrapper` the `get_text()` of each `<p>` in it,
      the `get_text()` of each `<a>` in the first `div#article-tags` (if there is one), and every
      `<img>`, all in document order. */
  datatype ArticleElement = ArticleElement(
    contentWrappers: seq<seq<string>>,
    tagsContainer: Option<seq<string>>,
    images: seq<ImgTag>)

  /** A parsed article page: `get_text()` of the first `<title>`, the `article:published_time`,
      `publish-date` and `author` meta tags, and the article container, each when found. */
  datatype ArticlePage = ArticlePage(
    title: Option<string>,
    publishedTime: Option<Meta>,
    publishDate: Option<Meta>,
    author: Option<Meta>,
    article: Option<ArticleElement>)

  /** `meta.get('content')` when the tag is found and the attribute is non-empty, else "". */
  function ContentOf(meta: Option<Meta>): (s: string)
    ensures s != "" <==> meta.Some? && Truthy(meta.value.content)
    ensures s != "" ==> s == meta.value.content.value
  {
    if meta.Some? && Truthy(meta.value.content) then meta.value.content.value else ""
  }

  /** The raw publication date: `published_meta or publish_date_meta`, where a found tag is always
      true, so the `publish-date` tag is read only when `article:published_time` is missing. */
  function PubDate(page: ArticlePage): (d: string)
    ensures page.publishedTime.Some? ==> d == ContentOf(page.publishedTime)
    ensures page.publishedTime.None? ==> d == ContentOf(page.publishDate)
  {
    ContentOf(if page.publishedTime.Some? then page.publishedTime else page.publishDate)
  }

  /** A paragraph is kept stripped, unless it is empty or an editor's pick. */
  function KeptParagraph(text: string): (r: Option<string>)
    ensures r.Some? <==> Strip(text) != "" && !StartsWith(Strip(text), EditorPick)
    ensures r.Some? ==> r.value == Strip(text)
  {
    var t := Strip(text);
    if t != "" && !StartsWith(t, EditorPick) then Some(t) else None
  }

  /** A tag is kept stripped, unless it is empty. */
  function KeptTag(text: string): (r: Option<string>)
    ensures r.Some? <==> Strip(text) != ""
    ensures r.Some? ==> r.value == Strip(text)
  {
    var t := Strip(text);
    if t != "" then Some(t) else None
  }

  /** An image is kept when its `src` is non-empty and not the ads logo; a missing `alt` is "". */
  function KeptImage(img: ImgTag): (r: Option<Image>)
    ensures r.Some? <==> img.src.Some? && img.src.value != "" && img.src.value != AdsLogo
    ensures r.Some? ==> r.value.src == img.src.value && r.value.alt == img.alt.GetOr("")
  {
    var src := img.src.GetOr("");
    if src != "" && src != AdsLogo then Some(Image(src, img.alt.GetOr(""))) else None
  }

  function Paragraphs(e: ArticleElement): seq<string> {
    FilterMap(Flatten(e.contentWrappers), KeptParagraph)
  }

  function Tags(e: ArticleElement): seq<string> {
    if e.tagsContainer.None? then [] else FilterMap(e.tagsContainer.value, KeptTag)
  }

  function Images(e: ArticleElement): seq<Image> {
    FilterMap(e.images, KeptImage)
  }

  /** The metadata of a page whose URL has the given category; `is_free` keeps its default. */
  function PageMetadata(url: string, page: ArticlePage, category: string): (m: ArticleMetadata)
    ensures m.url == url && m.category == category && m.isFree
    ensures m.title == (if page.title.Some? then Strip(page.title.value) else "")
    ensures m.publicationDateRaw == PubDate(page) && m.author == ContentOf(page.author)
    ensures var parts := ParsePublicationDatetime(PubDate(page));
            m.publicationDate == parts.date && m.publicationTime == parts.time && m.timezone == parts.timezone
  {
    var pubDate := PubDate(page);
    var parts := ParsePublicationDatetime(pubDate);
    ArticleMetadata(url, if page.title.Some? then Strip(page.title.value) else "", category, true,
                    pubDate, parts.date, parts.time, parts.timezone, ContentOf(page.author))
  }

  /** What `extract_article_content(url, use_auth)` returns for a fetched page (`None`: the request
      failed): nothing without an article container or when the category raises, since every
      exception is caught; otherwise the article. */
  function ExtractedArticle(url: string, fetched: Option<ArticlePage>): (r: Option<Article>)
    ensures r.None? <==> fetched.None? || fetched.value.article.None? || IndexScraper.ExtractCategoryFromUrl(url).Err?
    ensures r.Some? ==>
              var page, e := fetched.value, fetched.value.article.value;
              r.value == Article(PageMetadata(url, page, IndexScraper.ExtractCategoryFromUrl(url).value),
                                 Paragraphs(e), Tags(e), Images(e))
  {
    if fetched.None? || fetched.value.article.None? then None
    else
      match IndexScraper.ExtractCategoryFromUrl(url)
      case Err(_) => None
      case Ok(category) =>
        var e := fetched.value.article.value;
        Some(Article(PageMetadata(url, fetched.value, category), Paragraphs(e), Tags(e), Images(e)))
  }

  /** `extract_article_content` once the page has been fetched. */
  method ExtractArticleContent(url: string, fetched: Option<ArticlePage>) returns (r: Option<Article>)
    ensures r == ExtractedArticle(url, fetched)
  {
    if fetched.None? || fetched.value.article.None? {
      return None;
    }
    var page := fetched.value;
    var e := page.article.value;
    var title := if page.title.Some? then Strip(page.title.value) else "";
    var pubDate := ContentOf(if page.publishedTime.Some? then page.publishedTime else page.publishDate);
    var author := ContentOf(page.author);
    var category := IndexScraper.ExtractCategoryFromUrl(url);
    if category.Err? {
      return None;
    }
    var content := ExtractParagraphs(e.contentWrappers);
    var tags := [];
    if e.tagsContainer.Some? {
      tags := ExtractTags(e.tagsContainer.value);
    }
    var images := ExtractImages(e.images);
    var parts := ParsePublicationDatetime(pubDate);
    var metadata := ArticleMetadata(url, title, category.value, true, pubDate, parts.date, parts.time, parts.timezone, author);
    return Some(Article(metadata, content, tags, images));
  }

  /** The wrapper loop and the paragraph loop inside it. */
  method ExtractParagraphs(wrappers: seq<seq<string>>) returns (content: seq<string>)
    ensures content == FilterMap(Flatten(wrappers), KeptParagraph)
  {
    content := [];
    for w := 0 to |wrappers|
      invariant content == FilterMap(Flatten(wrappers[..w]), KeptParagraph)
    {
      var paragraphs := wrappers[w];
      ghost var before := content;
      for p := 0 to |paragraphs|
        invariant content == before + FilterMap(paragraphs[..p], KeptParagraph)
      {
        var text := Strip(paragraphs[p]);
        FilterMapAfter(before, paragraphs, p, KeptParagraph);
        if text != "" && !StartsWith(text, EditorPick) {
          content := content + [text];
        }
      }
      assert paragraphs[..|paragraphs|] == paragraphs;
      FlattenSnoc(wrappers, w);
      FilterMapAppend(Flatten(wrappers[..w]), paragraphs, KeptParagraph);
    }
    assert wrappers[..|wrappers|] == wrappers;
  }

  /** The loop over the links of the tags container. */
  method ExtractTags(links: seq<string>) returns (tags: seq<string>)
    ensures tags == FilterMap(links, KeptTag)
  {
    tags := [];
    for t := 0 to |links|
      invariant tags == FilterMap(links[..t], KeptTag)
    {
      var tagText := Strip(links[t]);
      FilterMapSnoc(links[..t], links[t], KeptTag);
      assert links[..t + 1] == links[..t] + [links[t]];
      if tagText != "" {
        tags := tags + [tagText];
      }
    }
    assert links[..|links|] == links;
  }

  /** The loop over the article's images. */
  method ExtractImages(imgs: seq<ImgTag>) returns (images: seq<Image>)
    ensures images == FilterMap(imgs, KeptImage)
  {
    images := [];
    for i := 0 to |imgs|
      invariant images == FilterMap(imgs[..i], KeptImage)
    {
      var src := imgs[i].src.GetOr("");
      var alt := imgs[i].alt.GetOr("");
      FilterMapSnoc(imgs[..i], imgs[i], KeptImage);
      assert imgs[..i + 1] == imgs[..i] + [imgs[i]];
      if src != "" && src != AdsLogo {
        images := images + [Image(src, alt)];
      }
    }
    assert imgs[..|imgs|] == imgs;
  }

  /** The body is exactly the non-empty, stripped paragraphs of all wrappers that are not editor's
      picks: each one comes from some wrapper's paragraph, and every such paragraph is there. */
  lemma ContentIsCleanAndComplete(e: ArticleElement)
    ensures forall t :: t in Paragraphs(e) ==> t != "" && Strip(t) == t && !StartsWith(t, EditorPick)
    ensures forall t :: t in Paragraphs(e) ==>
              exists w, p :: 0 <= w < |e.contentWrappers| && 0 <= p < |e.contentWrappers[w]|
                             && Strip(e.contentWrappers[w][p]) == t
    ensures forall w, p :: 0 <= w < |e.contentWrappers| && 0 <= p < |e.contentWrappers[w]|
                           && KeptParagraph(e.contentWrappers[w][p]).Some? ==>
              Strip(e.contentWrappers[w][p]) in Paragraphs(e)
  {
    var ws := e.contentWrappers;
    FilterMapMembers(Flatten(ws), KeptParagraph);
    FlattenMembers(ws);
    forall t | t in Paragraphs(e) ensures Strip(t) == t {
      StripTrimmed(t);
    }
  }

  /** A character of the flattened wrappers is a paragraph of one wrapper, and back. */
  lemma {:induction false} FlattenMembers(ws: seq<seq<string>>)
    ensures forall x :: x in Flatten(ws) ==> exists w, p :: 0 <= w < |ws| && 0 <= p < |ws[w]| && ws[w][p] == x
    ensures forall w, p :: 0 <= w < |ws| && 0 <= p < |ws[w]| ==> ws[w][p] in Flatten(ws)
  {
    if ws != [] {
      var front := ws[..|ws| - 1];
      FlattenMembers(front);
      assert forall w :: 0 <= w < |front| ==> front[w] == ws[w];
      FlattenSnoc(ws, |ws| - 1);
      assert ws[..|ws|] == ws;
    }
  }

  /** Paragraphs keep their document order: a page whose wrappers are split in two has the body
      of the first part followed by the body of the second. */
  lemma ContentKeepsOrder(a: seq<seq<string>>, b: seq<seq<string>>, tags: Option<seq<string>>, imgs: seq<ImgTag>)
    ensures Paragraphs(ArticleElement(a + b, tags, imgs))
            == Paragraphs(ArticleElement(a, tags, imgs)) + Paragraphs(ArticleElement(b, tags, imgs))
  {
    FlattenAppend(a, b);
    FilterMapAppend(Flatten(a), Flatten(b), KeptParagraph);
  }

  lemma {:induction false} FlattenAppend<T>(a: seq<seq<T>>, b: seq<seq<T>>)
    ensures Flatten(a + b) == Flatten(a) + Flatten(b)
    decreases |b|
  {
    if b == [] {
      assert a + b == a;
    } else {
      var b' := b[..|b| - 1];
      assert (a + b)[..|a + b| - 1] == a + b';
      assert (a + b)[|a + b| - 1] == b[|b| - 1];
      FlattenAppend(a, b');
      assert b[..|b| - 1] == b';
    }
  }

  /** Tags come from the first tags container only: none without one, and otherwise exactly its
      non-empty stripped link texts. */
  lemma TagsAreCleanAndComplete(e: ArticleElement)
    ensures e.tagsContainer.None? ==> Tags(e) == []
    ensures forall t :: t in Tags(e) ==> t != "" && Strip(t) == t
    ensures e.tagsContainer.Some? ==>
              forall x :: x in e.tagsContainer.value && Strip(x) != "" ==> Strip(x) in Tags(e)
    ensures e.tagsContainer.Some? ==>
              forall t :: t in Tags(e) ==> exists x :: x in e.tagsContainer.value && Strip(x) == t
  {
    if e.tagsContainer.Some? {
      FilterMapMembers(e.tagsContainer.value, KeptTag);
      forall t | t in Tags(e) ensures Strip(t) == t {
        StripTrimmed(t);
      }
    }
  }

  /** Tags keep the order of their links: the tags of two runs of links are those of the first
      run followed by those of the second. */
  lemma TagsKeepOrder(w: seq<seq<string>>, a: seq<string>, b: seq<string>, imgs: seq<ImgTag>)
    ensures Tags(ArticleElement(w, Some(a + b), imgs))
              == Tags(ArticleElement(w, Some(a), imgs)) + Tags(ArticleElement(w, Some(b), imgs))
  {
    FilterMapAppend(a, b, KeptTag);
  }

  /** No kept image is the ads logo or has an empty source; every other image with a source is kept,
      with its `alt` or "". */
  lemma ImagesAreFiltered(e: ArticleElement)
    ensures forall im :: im in Images(e) ==> im.src != "" && im.src != AdsLogo
    ensures forall im :: im in Images(e) ==> exists x :: x in e.images && x.src == Some(im.src) && x.alt.GetOr("") == im.alt
    ensures forall x :: x in e.images && x.src.Some? && x.src.value != "" && x.src.value != AdsLogo ==>
              Image(x.src.value, x.alt.GetOr("")) in Images(e)
  {
    FilterMapMembers(e.images, KeptImage);
  }

  /** A found `article:published_time` tag hides the `publish-date` tag even when its own content
      is missing or empty: the raw date is then empty. */
  lemma PublishedTimeShadowsPublishDate(page: ArticlePage)
    requires page.publishedTime.Some? && !Truthy(page.publishedTime.value.content)
    ensures PubDate(page) == ""
    ensures ParsePublicationDatetime(PubDate(page)) == NoParts
  {
  }

  /** The extracted metadata's date fields are the normalised raw date, and the article is free
      by default whatever the page says. */
  lemma MetadataIsNormalised(url: string, fetched: Option<ArticlePage>)
    requires ExtractedArticle(url, fetched).Some?
    ensures var m := ExtractedArticle(url, fetched).value.metadata;
            && m.isFree
            && m.category == IndexScraper.ExtractCategoryFromUrl(url).value
            && DateTimeParts(m.publicationDate, m.publicationTime, m.timezone) == ParsePublicationDatetime(m.publicationDateRaw)
            && (m.publicationDateRaw == "" ==> m.publicationDate == "" && m.publicationTime == "" && m.timezone == "")
  {
  }
}
