/** One listing page of `tempo.co/indeks` turned into article stubs (`scrapers/index_scraper.py`).
    The fetched page is the abstract tree its selectors walk: the direct child items of the list
    container, each with an optional figure, figcaption, paragraph and link. */
module IndexScraper {
  import opened Wrappers
  import opened Text
  import opened UrlParse
  import opened Models

  /** What a relative link is resolved against when its category is read. */
  const TempoOrigin := "https://tempo.co"

  /** The category of a link with no path segment. */
  const DefaultCategory := "indeks"

  /** `extract_category_from_url(url)`: the first segment of the URL's path, or "indeks"; the
      `ValueError` of `urlparse` (a lone square bracket in the host) is passed on. */
  function ExtractCategoryFromUrl(url: string): (r: Result<string>)
    ensures r.Ok? ==> r.value != "" && '/' !in r.value
    ensures r.Err? ==> r.error == ValueError
  {
    var full := if StartsWith(url, "/") then TempoOrigin + url else url;
    match UrlPath(full)
    case Err(e) => Err(e)
    case Ok(path) => Ok(PathCategory(path))
  }

  /** The first segment of a path with its slashes stripped, or "indeks" when it is empty. */
  function PathCategory(path: string): (c: string)
    ensures c != "" && '/' !in c
  {
    var parts := Split(StripChar(path, '/'), "/");
    if parts[0] != "" then
      NoSlashIn(parts[0]);
      parts[0]
    else
      assert forall k :: 0 <= k < |DefaultCategory| ==> DefaultCategory[k] != '/';
      DefaultCategory
  }

  lemma NoSlashIn(s: string)
    requires !Contains(s, "/")
    ensures '/' !in s
  {
    forall k | 0 <= k < |s| ensures s[k] != '/' {
      assert s[k] == '/' ==> OccursAt(s, "/", k);
    }
  }

  /** The category of a path is "indeks" when the path is only slashes, and otherwise the
      slash-stripped path up to its first inner '/'. */
  lemma PathCategoryRule(path: string)
    ensures (forall k :: 0 <= k < |path| ==> path[k] == '/') ==> PathCategory(path) == DefaultCategory
    ensures var s, c := StripChar(path, '/'), PathCategory(path);
            s != "" ==> StartsWith(s, c) && (|c| == |s| || s[|c|] == '/')
  {
    if forall k :: 0 <= k < |path| ==> path[k] == '/' {
      OnlySlashesStripAway(path);
      assert !Contains("", "/");
    }
    if StripChar(path, '/') != "" {
      CategoryOfStripped(path);
    }
  }

  lemma CategoryOfStripped(path: string)
    requires StripChar(path, '/') != ""
    ensures var s, c := StripChar(path, '/'), PathCategory(path);
            StartsWith(s, c) && (|c| == |s| || s[|c|] == '/')
  {
    var s := StripChar(path, '/');
    var h := Split(s, "/")[0];
    FirstPart(s, "/");
    if |h| < |s| {
      assert s[|h|..|h| + 1] == "/";
    }
  }

  lemma OnlySlashesStripAway(path: string)
    requires forall k :: 0 <= k < |path| ==> path[k] == '/'
    ensures StripChar(path, '/') == ""
  {
  }

  /** A path segment as it appears in a link: characters that neither end a segment (or the
      path) nor are deleted by `urlsplit`. */
  predicate IsSegment(seg: string) {
    seg != [] && forall k :: 0 <= k < |seg| ==> seg[k] !in "/?#;" && !IsUnsafe(seg[k])
  }

  /** What may follow the first segment: nothing, or another segment, a query or a fragment. */
  predicate EndsSegment(tail: string) {
    (tail == [] || tail[0] in "/?#") && forall k :: 0 <= k < |tail| ==> !IsUnsafe(tail[k])
  }

  /** `p` is "/" followed by `seg`, then the end or a delimiter. */
  predicate HeadedBy(p: string, seg: string) {
    |seg| + 1 <= |p| && p[..|seg| + 1] == "/" + seg && (|p| == |seg| + 1 || p[|seg| + 1] in "/?#")
  }

  /** The category of a relative link is its first path segment, whatever follows it. */
  lemma CategoryIsFirstSegment(seg: string, tail: string)
    requires IsSegment(seg) && EndsSegment(tail)
    ensures ExtractCategoryFromUrl("/" + seg + tail) == Ok(seg)
  {
    var url := "/" + seg + tail;
    var full := TempoOrigin + url;
    var rest := "/" + seg + tail;
    assert full == "https://tempo.co" + rest;
    var path := RelativePath(rest, seg);
    FirstSegmentOfPath(path, seg);
  }

  /** A relative link always has a category: its host is tempo.co, which has no bracket. */
  lemma RelativeUrlsParse(url: string)
    requires StartsWith(url, "/")
    ensures ExtractCategoryFromUrl(url).Ok?
  {
    OriginSplits(url);
  }

  /** `urlsplit` accepts the origin followed by a relative link. */
  lemma OriginSplits(url: string)
    requires StartsWith(url, "/")
    ensures UrlSplit(TempoOrigin + url).Ok?
  {
    var full := TempoOrigin + url;
    var rest := CleanRelative(url, full);
    OriginScheme(rest, TempoOrigin + rest);
    OriginNetloc(rest, "//tempo.co" + rest);
    OriginNetlocParts(rest);
  }

  /** The cleaning steps of `urlsplit` leave the origin alone. */
  lemma CleanRelative(url: string, full: string) returns (rest: string)
    requires StartsWith(url, "/") && full == TempoOrigin + url
    ensures RemoveUnsafe(full[LeadingRun(full, IsC0OrSpace)..]) == TempoOrigin + rest
    ensures |rest| > 0 && rest[0] == '/'
  {
    OriginUntouched(url, full);
    rest := RemoveUnsafe(url);
    assert rest == [url[0]] + RemoveUnsafe(url[1..]);
  }

  lemma OriginUntouched(url: string, full: string)
    requires full == TempoOrigin + url
    ensures LeadingRun(full, IsC0OrSpace) == 0
    ensures RemoveUnsafe(full) == TempoOrigin + RemoveUnsafe(url)
  {
    assert !IsC0OrSpace(full[0]);
    LeadingRunIs(full, IsC0OrSpace, 0);
    var o := TempoOrigin;
    assert forall k :: 0 <= k < |o| ==> !IsUnsafe(o[k]);
    assert RemoveUnsafe(o) == o;
    RemoveUnsafeAppend(o, url);
  }

  /** The path `urlparse` finds in "https://tempo.co" followed by `rest`. */
  lemma RelativePath(rest: string, seg: string) returns (path: string)
    requires IsSegment(seg) && HeadedBy(rest, seg) && forall k :: 0 <= k < |rest| ==> !IsUnsafe(rest[k])
    ensures UrlPath("https://tempo.co" + rest) == Ok(path)
    ensures HeadedBy(path, seg) && '?' !in path && '#' !in path
  {
    assert "https://tempo.co" + rest == "https://" + "tempo.co" + rest;
    path := HostPath("tempo.co", rest, seg);
  }

  /** A host with no character that ends a network location, no bracket and nothing `urlsplit`
      deletes. */
  predicate PlainHost(h: string) {
    forall k :: 0 <= k < |h| ==> h[k] !in "/?#[]" && !IsUnsafe(h[k])
  }

  /** The path `urlparse` finds in "https://", a plain host and `rest`. */
  lemma HostPath(h: string, rest: string, seg: string) returns (path: string)
    requires PlainHost(h) && IsSegment(seg) && HeadedBy(rest, seg)
    requires forall k :: 0 <= k < |rest| ==> !IsUnsafe(rest[k])
    ensures UrlPath("https://" + h + rest) == Ok(path)
    ensures HeadedBy(path, seg) && '?' !in path && '#' !in path
  {
    var full := "https://" + h + rest;
    HostSplit(h, rest);
    var p0 := rest;
    var p1 := if '#' in p0 then SplitFirst(p0, '#').0 else p0;
    CutKeepsSegment(p0, seg, '#');
    var p2 := if '?' in p1 then SplitFirst(p1, '?').0 else p1;
    CutKeepsSegment(p1, seg, '?');
    assert '[' !in h && ']' !in h;
    assert UrlSplit(full) == Ok(SplitUrl("https", h, p2, UrlSplit(full).value.query, UrlSplit(full).value.fragment));
    if ';' in p2 {
      ParamsKeepSegment(p2, seg);
      path := SplitParams(p2);
    } else {
      path := p2;
    }
  }

  /** Up to the path, `urlsplit` of "https://", a plain host and a path `rest`. */
  lemma HostSplit(h: string, rest: string)
    requires PlainHost(h) && |rest| > 0 && rest[0] == '/' && forall k :: 0 <= k < |rest| ==> !IsUnsafe(rest[k])
    ensures var full, r := "https://" + h + rest, "//" + h + rest;
            && LeadingRun(full, IsC0OrSpace) == 0
            && RemoveUnsafe(full) == full
            && SchemeSplit(full) == ("https", r)
            && Delimiter(r, 2) == 2 + |h|
            && r[2..2 + |h|] == h && r[2 + |h|..] == rest
  {
    var full, r := "https://" + h + rest, "//" + h + rest;
    assert full == "https:" + r;
    LeadingRunIs(full, IsC0OrSpace, 0);
    forall k | 0 <= k < |full| ensures !IsUnsafe(full[k]) {
      if k >= 8 + |h| {
        assert full[k] == rest[k - 8 - |h|];
      } else if k >= 8 {
        assert full[k] == h[k - 8];
      }
    }
    HttpsScheme(full, r);
    forall k | 2 <= k < 2 + |h| ensures r[k] !in "/?#" {
      assert r[k] == h[k - 2];
    }
    assert r[2 + |h|] == '/';
    assert r[2..2 + |h|] == h && r[2 + |h|..] == rest;
  }

  /** "https:" ahead of anything is split off as the scheme "https". */
  lemma HttpsScheme(full: string, r: string)
    requires full == "https:" + r
    ensures SchemeSplit(full) == ("https", r)
  {
    assert full[5] == ':' && full[..5] == "https" && full[6..] == r;
    assert forall k :: 0 <= k < 5 ==> full[k] != ':' && IsSchemeChar(full[k]);
    assert FindCharFrom(full, ':', 0) == Some(5);
    LowerOfLower("https");
  }

  /** The category of an absolute https link on a plain host is its first path segment; the
      article extractor sees links of this form ("https://www.tempo.co/..."). */
  lemma AbsoluteCategoryIsFirstSegment(h: string, seg: string, tail: string)
    requires PlainHost(h) && IsSegment(seg) && EndsSegment(tail)
    ensures ExtractCategoryFromUrl("https://" + h + "/" + seg + tail) == Ok(seg)
  {
    var url := "https://" + h + "/" + seg + tail;
    var rest := "/" + seg + tail;
    assert url == "https://" + h + rest;
    assert !StartsWith(url, "/") by { assert url[0] == 'h'; }
    assert HeadedBy(rest, seg) by { assert rest[..|seg| + 1] == "/" + seg; }
    forall k | 0 <= k < |rest| ensures !IsUnsafe(rest[k]) {
      if 1 <= k < |seg| + 1 {
        assert rest[k] == seg[k - 1];
      } else if k >= |seg| + 1 {
        assert rest[k] == tail[k - |seg| - 1];
      }
    }
    var path := HostPath(h, rest, seg);
    FirstSegmentOfPath(path, seg);
  }

  lemma OriginScheme(rest: string, full: string)
    requires full == "https://tempo.co" + rest
    ensures SchemeSplit(full) == ("https", "//tempo.co" + rest)
  {
    assert full == "https:" + ("//tempo.co" + rest);
    HttpsScheme(full, "//tempo.co" + rest);
  }

  lemma OriginNetloc(rest: string, r: string)
    requires r == "//tempo.co" + rest && |rest| > 0 && rest[0] == '/'
    ensures Delimiter(r, 2) == 10
  {
    assert r[10] == '/';
    assert forall k :: 2 <= k < 10 ==> r[k] !in "/?#";
  }

  /** The network location "tempo.co" sits between the leading "//" and the path. */
  lemma OriginNetlocParts(rest: string)
    requires |rest| > 0 && rest[0] == '/'
    ensures var r := "//tempo.co" + rest;
            && r[..2] == "//" && r[2..10] == "tempo.co" && r[10..] == rest
            && '[' !in r[2..10] && ']' !in r[2..10]
  {
  }

  /** Cutting at the first '#' or '?' keeps the first segment. */
  lemma CutKeepsSegment(p: string, seg: string, c: char)
    requires IsSegment(seg) && HeadedBy(p, seg) && (c == '#' || c == '?')
    ensures c in p ==> HeadedBy(SplitFirst(p, c).0, seg)
  {
    if c in p {
      var (r, after) := SplitFirst(p, c);
      assert p == r + [c] + after;
      assert forall k :: 0 <= k < |seg| + 1 ==> p[k] != c by {
        assert forall k :: 0 <= k < |seg| + 1 ==> p[k] == ("/" + seg)[k];
      }
      assert p[|r|] == c;
      assert r[..|seg| + 1] == p[..|seg| + 1];
      if |r| > |seg| + 1 {
        assert r[|seg| + 1] == p[|seg| + 1];
      }
    }
  }

  /** Cutting the `;params` of the last segment keeps the first segment. */
  lemma ParamsKeepSegment(p: string, seg: string)
    requires IsSegment(seg) && HeadedBy(p, seg) && '?' !in p && '#' !in p && ';' in p
    ensures HeadedBy(SplitParams(p), seg)
  {
    assert p[..|seg| + 1][0] == '/';
    var j := LastIndexOf(p, '/');
    assert j.Some?;
    assert forall k :: 0 <= k < |seg| + 1 ==> p[k] != ';' by {
      assert forall k :: 0 <= k < |seg| + 1 ==> p[k] == ("/" + seg)[k];
    }
    assert p[|seg| + 1] == '/';
    assert j.value >= |seg| + 1;
    var r := SplitParams(p);
    assert r[..|seg| + 1] == p[..|seg| + 1];
    if |r| > |seg| + 1 {
      assert r[|seg| + 1] == p[|seg| + 1];
    }
  }

  /** Stripping the slashes and splitting at '/' gives the first segment. */
  lemma FirstSegmentOfPath(path: string, seg: string)
    requires IsSegment(seg) && HeadedBy(path, seg) && '?' !in path && '#' !in path
    ensures Split(StripChar(path, '/'), "/")[0] == seg
  {
    var r := StripChar(path, '/');
    StrippedPathHead(path, seg);
    if |r| == |seg| {
      assert r == seg;
      assert !Contains(r, "/") by { SlashFree(r); }
    } else {
      assert OccursAt(r, "/", |seg|) by { assert r[|seg|..|seg| + 1] == "/"; }
      forall j | 0 <= j < |seg| ensures !OccursAt(r, "/", j) {
        assert r[j] == seg[j];
        NotOccursAt(r, "/", j, 0);
      }
      HeadOfSplit(r, "/", |seg|);
    }
  }

  /** With its slashes stripped, a path headed by `seg` starts with `seg`, followed by the end or by
      a '/'. */
  lemma StrippedPathHead(path: string, seg: string)
    requires IsSegment(seg) && HeadedBy(path, seg) && '?' !in path && '#' !in path
    ensures var r := StripChar(path, '/');
            && |r| >= |seg| && r[..|seg|] == seg
            && (|r| > |seg| ==> r[|seg|] == '/')
  {
    var r := StrippedFromOne(path, seg);
    forall k | 0 <= k < |seg| ensures r[k] == seg[k] {
      assert r[k] == path[k + 1] == path[..|seg| + 1][k + 1];
    }
    if |r| > |seg| {
      assert r[|seg|] == path[|seg| + 1];
    }
  }

  /** A path headed by `seg` loses exactly its first slash on the left, and keeps at least `seg`. */
  lemma StrippedFromOne(path: string, seg: string) returns (r: string)
    requires IsSegment(seg) && HeadedBy(path, seg)
    ensures r == StripChar(path, '/') && |r| >= |seg| && r == path[1..1 + |r|]
  {
    r := StripChar(path, '/');
    var slash := (x: char) => x == '/';
    assert path[1] == seg[0];
    assert LeadingRun(path, slash) == 1 by {
      assert slash(path[0]) && !slash(path[1]);
      LeadingRunIs(path, slash, 1);
    }
    assert r == StripWhere(path, slash);
    assert path[|seg|] == seg[|seg| - 1];
  }

  lemma SlashFree(s: string)
    requires forall k :: 0 <= k < |s| ==> s[k] != '/'
    ensures !Contains(s, "/")
  {
    forall j | 0 <= j <= |s| ensures !OccursAt(s, "/", j) {
      NotOccursAt(s, "/", j, 0);
    }
  }

  // ---------------------------------------------------------------------------------------------
  // The listing page

  /** The `<a>` inside the caption's paragraph: its `href`, the text of its text nodes in document
      order, and whether it holds the premium badge (a `span` with the premium-indicator class). */
  datatype Link = Link(href: Option<string>, texts: seq<string>, hasPremiumBadge: bool)

  /** The first `p` of a figcaption, the first `figcaption` of a figure, the first `figure` of an item. */
  datatype Paragraph = Paragraph(link: Option<Link>)
  datatype Caption = Caption(paragraph: Option<Paragraph>)
  datatype Figure = Figure(caption: Option<Caption>)

  /** A direct child `div` of the list container. */
  datatype Item = Item(figure: Option<Figure>)

  /** A parsed listing page: the child items of the first list container, if there is one. */
  datatype ListingPage = ListingPage(container: Option<seq<Item>>)

  /** `tag.get_text(strip=True)`: every text node stripped, the empty ones dropped, the rest joined. */
  function StrippedText(texts: seq<string>): (t: string)
    ensures t == [] || (!IsSpace(t[0]) && !IsSpace(t[|t| - 1]))
  {
    if texts == [] then []
    else
      var front := StrippedText(texts[..|texts| - 1]);
      var last := Strip(texts[|texts| - 1]);
      TrimmedConcat(front, last);
      front + last
  }

  /** Two strings without surrounding whitespace make one without it. */
  lemma TrimmedConcat(a: string, b: string)
    requires a == [] || (!IsSpace(a[0]) && !IsSpace(a[|a| - 1]))
    requires b == [] || (!IsSpace(b[0]) && !IsSpace(b[|b| - 1]))
    ensures var t := a + b; t == [] || (!IsSpace(t[0]) && !IsSpace(t[|t| - 1]))
  {
    var t := a + b;
    assert a != [] ==> t[0] == a[0];
    assert b != [] ==> t[|t| - 1] == b[|b| - 1];
  }

  /** The title `link.get_text(strip=True).strip()`: the second strip never changes anything. */
  lemma TitleStripIsRedundant(texts: seq<string>)
    ensures Strip(StrippedText(texts)) == StrippedText(texts)
  {
    StripTrimmed(StrippedText(texts));
  }

  /** `is_article_free(link)`: free exactly when the premium badge is missing. */
  function IsArticleFree(link: Link): (free: bool)
    ensures free <==> !link.hasPremiumBadge
  {
    !link.hasPremiumBadge
  }

  /** The link an item leads to through figure, figcaption, p and a, when it has a non-empty `href`. */
  function ItemLink(item: Item): (l: Option<Link>)
    ensures l.Some? ==> l.value.href.Some? && l.value.href.value != ""
  {
    if item.figure.None? then None
    else if item.figure.value.caption.None? then None
    else if item.figure.value.caption.value.paragraph.None? then None
    else
      var link := item.figure.value.caption.value.paragraph.value.link;
      if link.Some? && link.value.href.Some? && link.value.href.value != "" then link else None
  }

  /** The stub one item contributes, if any; the category's `ValueError` is passed on. */
  function ItemStub(item: Item): (r: Result<Option<ArticleMetadata>>)
    ensures r.Ok? && r.value.Some? ==>
              ItemLink(item).Some? &&
              var m, l := r.value.value, ItemLink(item).value;
              && m.url == l.href.value
              && m.title == StrippedText(l.texts)
              && ExtractCategoryFromUrl(m.url) == Ok(m.category)
              && m.isFree == !l.hasPremiumBadge
              && m == Stub(m.url, m.title, m.category, m.isFree)
    ensures ItemLink(item).None? ==> r == Ok(None)
    // an item with a usable link gives a stub exactly when its category parses, and raises otherwise
    ensures r.Err? <==> ItemLink(item).Some? && ExtractCategoryFromUrl(ItemLink(item).value.href.value).Err?
    ensures r.Ok? && r.value.Some? <==>
              ItemLink(item).Some? && ExtractCategoryFromUrl(ItemLink(item).value.href.value).Ok?
  {
    match ItemLink(item)
    case None => Ok(None)
    case Some(link) =>
      var href := link.href.value;
      match ExtractCategoryFromUrl(href)
      case Err(e) => Err(e)
      case Ok(category) =>
        TitleStripIsRedundant(link.texts);
        Ok(Some(Stub(href, Strip(StrippedText(link.texts)), category, IsArticleFree(link))))
  }

  /** What `scrape_index_page` returns for a fetched page (`None`: the request or the parse
      failed): the stubs of the first `articlePerPage` child items, in order, or nothing as soon as
      anything fails. */
  function IndexPageStubs(page: Option<ListingPage>, articlePerPage: int): (stubs: seq<ArticleMetadata>)
    ensures page.None? || page.value.container.None? ==> stubs == []
    ensures page.Some? && page.value.container.Some? ==>
              |stubs| <= |PyPrefix(page.value.container.value, articlePerPage)| <= |page.value.container.value|
    ensures articlePerPage >= 0 ==> |stubs| <= articlePerPage
  {
    if page.None? || page.value.container.None? then []
    else
      match CollectPresent(PyPrefix(page.value.container.value, articlePerPage), ItemStub)
      case Err(_) => []
      case Ok(s) => s
  }

  /** `scrape_index_page(url, page_num, article_per_page)` once the page has been fetched: the
      item loop appending one stub per item whose link chain is complete. */
  method ScrapeIndexPage(page: Option<ListingPage>, articlePerPage: int) returns (articles: seq<ArticleMetadata>)
    ensures articles == IndexPageStubs(page, articlePerPage)
  {
    articles := [];
    if page.None? || page.value.container.None? {
      return;
    }
    var items := PyPrefix(page.value.container.value, articlePerPage);
    var i := 0;
    while i < |items|
      invariant 0 <= i <= |items|
      invariant CollectPresent(items[..i], ItemStub) == Ok(articles)
    {
      var stub := ItemStub(items[i]);
      CollectStep(items, i, ItemStub);
      if stub.Err? {
        CollectErrorAt(items, i, ItemStub);
        return [];
      }
      if stub.value.Some? {
        articles := articles + [stub.value.value];
      }
      i := i + 1;
    }
    assert items[..i] == items;
  }

  /** Every stub the page gives is the stub of one of its first `articlePerPage` items: the href
      verbatim, the stripped link text, the href's category and the badge check, nothing else set. */
  lemma StubsComeFromItems(items: seq<Item>, articlePerPage: int)
    ensures var stubs := IndexPageStubs(Some(ListingPage(Some(items))), articlePerPage);
            forall k :: 0 <= k < |stubs| ==>
              exists i :: 0 <= i < |PyPrefix(items, articlePerPage)| && ItemStub(items[i]) == Ok(Some(stubs[k]))
  {
    var prefix := PyPrefix(items, articlePerPage);
    if CollectPresent(prefix, ItemStub).Ok? {
      CollectedFrom(prefix, ItemStub);
      assert forall i :: 0 <= i < |prefix| ==> prefix[i] == items[i];
    }
  }

  /** Conversely, when none of the first `articlePerPage` items raises, each of them with a usable
      link gives its stub to the page. */
  lemma ItemsGiveStubs(items: seq<Item>, articlePerPage: int)
    requires forall i :: 0 <= i < |PyPrefix(items, articlePerPage)| ==> ItemStub(items[i]).Ok?
    ensures var stubs := IndexPageStubs(Some(ListingPage(Some(items))), articlePerPage);
            forall i :: 0 <= i < |PyPrefix(items, articlePerPage)| && ItemLink(items[i]).Some? ==>
              ItemStub(items[i]).Ok? && ItemStub(items[i]).value.Some? && ItemStub(items[i]).value.value in stubs
  {
    var prefix := PyPrefix(items, articlePerPage);
    assert forall i :: 0 <= i < |prefix| ==> prefix[i] == items[i];
    CollectedAll(prefix, ItemStub);
  }

  /** The stubs of a listing split in two are the stubs of each part, in document order. */
  lemma StubsKeepOrder(a: seq<Item>, b: seq<Item>)
    requires CollectPresent(a, ItemStub).Ok? && CollectPresent(b, ItemStub).Ok?
    ensures IndexPageStubs(Some(ListingPage(Some(a + b))), |a + b|)
            == IndexPageStubs(Some(ListingPage(Some(a))), |a|) + IndexPageStubs(Some(ListingPage(Some(b))), |b|)
  {
    CollectAppend(a, b, ItemStub);
  }

  /** An item whose category raises empties the whole page, wherever it stands. */
  lemma OneBadLinkEmptiesPage(items: seq<Item>, articlePerPage: int, i: nat)
    requires i < |PyPrefix(items, articlePerPage)| && ItemStub(items[i]).Err?
    ensures IndexPageStubs(Some(ListingPage(Some(items))), articlePerPage) == []
  {
    var prefix := PyPrefix(items, articlePerPage);
    assert prefix[i] == items[i];
    CollectErrorAt(prefix, i, ItemStub);
  }

  /** Items without a complete link chain still count against the cap: when none of the first
      `articlePerPage` items leads to a link, the page gives no stub, whatever comes after. */
  lemma CapCountsBrokenItems(items: seq<Item>, articlePerPage: nat)
    requires forall i :: 0 <= i < articlePerPage && i < |items| ==> ItemLink(items[i]).None?
    ensures IndexPageStubs(Some(ListingPage(Some(items))), articlePerPage) == []
  {
    var prefix := PyPrefix(items, articlePerPage);
    assert forall i :: 0 <= i < |prefix| ==> prefix[i] == items[i];
    CollectAbsent(prefix, ItemStub);
  }
}
