# tempo_news_scraper, record shaping and run orchestration

This project is a Dafny model of the part of the Tempo.co news scraper that turns fetched pages into
article records and records into files. Everything outside that part is a parameter.

- **Listing pages.** A `tempo.co/indeks` listing page is cut down to article stubs. Each stub holds a
  URL, a stripped title, the first path segment as its category, and a free/premium flag. At most
  `article_per_page` child items of the list container are looked at.
- **Article pages.** An article page gives its metadata, its paragraphs, its tags and its images.
  - The paragraphs drop empty lines and teasers starting with "Pilihan Editor:" (colon included).
  - The images drop the advertising logo.
  - The publication text "12 September 2025 | 15.22 WIB" is split into an ISO date, a clock time and
    a timezone.
- **Filtering.** Premium stubs are never fetched without a login. A page that has no article
  container is explained with a fixed notice.
- **Dates.** The date filter is validated and completed the way `process_dates` does it: a lone
  start or end date is widened to a two-day window. Page URLs are built from the page number, the
  rubric and the date window.
- **JSON output.**
  - The listing run writes `indeks_<stamp>.json`: an index header followed by either the full
    records or four-field summaries.
  - The single-article run writes `article_<stamp>.json`.
  - The saved records read back as the articles that were saved.
- **Markdown conversion.** The converter script turns every readable list item into a Markdown
  file with a metadata header, a title and the paragraphs.
  - File names are sanitised: the " | tempo.co" suffix is cut, and every character other than an
    ASCII letter, a digit, whitespace, `-`, `_` or `.` becomes a space. Runs of whitespace, `-` and
    `_` become one hyphen, and the name is cut to 100 characters and lower-cased. What remains is
    `a-z`, `0-9`, `.` and single hyphens.
  - A name already taken gets a `-1`, `-2`, … counter.

The network, the HTML parser and the clock are parameters:

- `fetchListing(url)` and `fetchArticle(url)` give the tree the selectors walk, or nothing when a
  request fails.
- `now` is the moment `datetime.now()` would return.
- `writeOk` says whether opening the output file succeeds.

The Python library functions the core relies on are modelled as far as the core uses them:

- `str.split`, `str.strip`, `str.zfill`, `str.lower` and slicing are in `Text`;
- `datetime.strptime("%Y-%m-%d")`, `timedelta(days=1)` and `strftime` are in `Calendar`;
- `urllib.parse.urlparse(...).path` is in `UrlParse`;
- `dict.get` on loaded JSON is in `JsonValue`.

An exception is a `PyError` in a `Result`, and `sys.exit(1)` is `Err(SystemExit(1))`.

## Model

| member | source | states |
|---|---|---|
| Models.Stub | src/tempo_scraper/models/article.py:13-24 | a listing stub carries its URL, title, category and access flag, and every date, time, timezone and author field is empty |
| Models.DefaultMetadata | src/tempo_scraper/models/article.py:13-24 | an `ArticleMetadata` built without an access flag is free |
| Models.DefaultOptions | src/tempo_scraper/models/article.py:34-46 | the default options are pages 1 to 3, one second of delay, 20 articles per page, no content extraction, no login, no categorising and no date or rubric filter |
| Text.Strip | src/tempo_scraper/utils/date_parser.py:24-25 | `str.strip()` gives a string that neither starts nor ends with whitespace and is no longer than its input |
| Text.WordsOfStrip | src/tempo_scraper/utils/date_parser.py:24-34 | splitting a stripped string on whitespace gives the same tokens as splitting the unstripped one |
| Text.Words | src/tempo_scraper/utils/date_parser.py:34 | `str.split()` gives non-empty tokens that contain no whitespace |
| Text.Split | src/tempo_scraper/utils/date_parser.py:20 | `str.split(sep)` gives at least one part, exactly one when the separator does not occur, and no part contains the separator |
| Text.JoinSplit | src/tempo_scraper/utils/date_parser.py:20 | joining the parts of a split with the separator gives back the original string |
| Text.SplitJoinChar | scripts/json_to_markdown.py:155 | splitting the `"\n"`-join of lines that hold no newline gives back those lines |
| Text.Before | scripts/json_to_markdown.py:34-35 | `s.split(sep)[0]` is a prefix of `s` without the separator, `s` itself when the separator does not occur, and otherwise ends where the first occurrence begins |
| Text.PyPrefix | src/tempo_scraper/scrapers/index_scraper.py:52 | `xs[:n]` is a prefix of `xs` of length `min(n, len(xs))`, and for negative `n` it drops `-n` elements from the end |
| Text.ZFill | src/tempo_scraper/utils/date_parser.py:36 | `str.zfill(w)` leaves a string of width `w` or more alone and otherwise pads it to width `w` with zeros after any sign |
| Text.LowerAscii | scripts/json_to_markdown.py:54 | `str.lower()` keeps the length and maps exactly the letters A to Z to a to z |
| Text.NatToStringValue | scripts/json_to_markdown.py:197 | the decimal text of a number reads back as that number |
| Text.NatToStringInjective | scripts/json_to_markdown.py:200-210 | different numbers have different decimal texts, so different counters give different file names |
| Calendar.NextDay | src/tempo_scraper/utils/validators.py:75-78 | adding `timedelta(days=1)` gives a valid, later date, and raises `OverflowError` exactly on 9999-12-31 |
| Calendar.PrevDay | src/tempo_scraper/utils/validators.py:80-83 | subtracting one day gives a valid, earlier date, and raises `OverflowError` exactly on 0001-01-01 |
| Calendar.PrevOfNext | src/tempo_scraper/utils/validators.py:75-83 | going one day forward and then one day back returns to the same date |
| Calendar.NextOfPrev | src/tempo_scraper/utils/validators.py:75-83 | going one day back and then one day forward returns to the same date |
| Calendar.NextDayOrdinal | src/tempo_scraper/utils/validators.py:75-78 | the next day's day number is one more |
| Calendar.PrevDayOrdinal | src/tempo_scraper/utils/validators.py:80-83 | the previous day's day number is one less |
| Calendar.BeforeIsOrdinalOrder | src/tempo_scraper/utils/validators.py:41 | comparing two `datetime`s field by field orders them as their day counts from 0001-01-01 do |
| Calendar.ParseIsoDate | src/tempo_scraper/utils/validators.py:17-24 | `strptime(s, "%Y-%m-%d")` gives a real calendar date and raises only `ValueError`; an accepted text is 8 to 10 characters long with a hyphen after a four-digit year |
| Calendar.FormatIsoDate | src/tempo_scraper/utils/validators.py:78 | `strftime("%Y-%m-%d")` writes ten characters with hyphens at positions 4 and 7 |
| Calendar.ParseFormat | src/tempo_scraper/utils/validators.py:75-83 | parsing a formatted date gives back that date |
| Calendar.DayAfter | src/tempo_scraper/utils/validators.py:75-78 | the day after a date text raises `ValueError` when the text is no date, raises `OverflowError` exactly for the last representable day, and otherwise is the canonical `%Y-%m-%d` text of the next day, which parses back to a day number one higher |
| Calendar.DayBefore | src/tempo_scraper/utils/validators.py:80-83 | the day before a date text raises `ValueError` when the text is no date, raises `OverflowError` exactly for the first representable day, and otherwise is the canonical `%Y-%m-%d` text of the previous day, which parses back to a day number one lower |
| Calendar.DayAfterThenBefore | src/tempo_scraper/utils/validators.py:75-83 | the day before the day after a date text is that date, written in canonical form |
| Calendar.DayBeforeThenAfter | src/tempo_scraper/utils/validators.py:75-83 | the day after the day before a date text is that date, written in canonical form |
| Calendar.IsoDateAccepts | src/tempo_scraper/utils/validators.py:17-24 | "2025-09-12" parses as 12 September 2025 |
| Calendar.IsoDateShortFields | src/tempo_scraper/utils/validators.py:17-24 | `strptime` accepts one-digit month and day fields: "2024-2-29" is 29 February 2024 |
| Calendar.IsoDateRejects | src/tempo_scraper/utils/validators.py:17-24 | "invalid", "12-09-2025" and a three-digit day are refused |
| Calendar.NoTwentyNinthFebruary | src/tempo_scraper/utils/validators.py:17-24 | 29 February is refused in a year that is not a leap year |
| Calendar.FixedDigitsValue | src/tempo_scraper/utils/file_handler.py:32-33 | a zero-padded field of a number that fits its width reads back as the number |
| DateParser.MonthNumberIsCalendarMonth | src/tempo_scraper/utils/date_parser.py:28-32 | the i-th English month name maps to the two-digit number of month i+1 |
| DateParser.MonthNumber | src/tempo_scraper/utils/date_parser.py:40 | a name that is not an English month name maps to "01" |
| DateParser.ParsePublicationDatetime | src/tempo_scraper/utils/date_parser.py:5-68 | an empty string, or one without exactly one " \| ", gives three empty fields; the date is set exactly when the first half has three tokens, and is then year-month-zero-filled day; the time and timezone come from the second half alone, tokens 1 and 2 |
| DateParser.FieldsAreIndependent | src/tempo_scraper/utils/date_parser.py:34-60 | a date half that does not have three tokens empties the date but not the time or the timezone |
| DateParser.TempoExample | src/tempo_scraper/utils/date_parser.py:5-68 | "12 September 2025 \| 15.22 WIB" gives "2025-09-12", "15:22:00" and "WIB" |
| Validators.ValidateDateFormat | src/tempo_scraper/utils/validators.py:6-24 | a missing or empty date passes; a given date passes exactly when `strptime` accepts it |
| Validators.FormattedDatesPass | src/tempo_scraper/utils/validators.py:6-24 | every date written as YYYY-MM-DD passes the format check |
| Validators.FormatExamples | src/tempo_scraper/utils/validators.py:6-24 | "2025-09-12" and no date pass, "invalid" and "12-09-2025" do not |
| Validators.ValidateDateRange | src/tempo_scraper/utils/validators.py:26-44 | unless both dates are given the range is valid; with both, it raises `ValueError` exactly when one is no date, and otherwise is valid exactly when the start is not a later day than the end |
| Validators.RangeOfParsed | src/tempo_scraper/utils/validators.py:26-44 | for two parsed dates the range check answers "the end is not before the start" |
| Validators.RangeExamples | src/tempo_scraper/utils/validators.py:26-44 | a forward range and a one-day range are valid and a reversed range is not |
| Validators.ValidatePageRange | src/tempo_scraper/utils/validators.py:46-61 | a page range is accepted exactly when the end page is at most 50 pages past the start page |
| Validators.ProcessDates | src/tempo_scraper/utils/validators.py:63-85 | two dates or none pass through unchanged; a lone start gets the canonical text of the next day as its end and a lone end gets the canonical text of the previous day as its start, each failing exactly when that neighbour cannot be computed |
| Validators.ProcessedWindowIsValid | src/tempo_scraper/utils/validators.py:63-85 | a completed window has both ends, passes the range check, and its start is strictly before its end |
| Validators.ProcessDatesIdempotent | src/tempo_scraper/utils/validators.py:63-85 | completing an already completed window changes nothing |
| Validators.WindowCrossesYear | src/tempo_scraper/utils/validators.py:75-78 | a lone start of 2024-12-31 gets 2025-01-01 as its end |
| Validators.DayAfterOfFormatted | src/tempo_scraper/utils/validators.py:75-78 | the day after a canonical date text is the canonical text of the next day |
| Validators.DayBeforeOfFormatted | src/tempo_scraper/utils/validators.py:80-83 | the day before a canonical date text is the canonical text of the previous day |
| UrlBuilder.BuildIndexUrl | src/tempo_scraper/utils/url_builder.py:7-46 | every URL starts with the page prefix; a non-empty rubric wins over the dates; two dates go in as given; a lone date is widened to a window one day long whose other end is the canonical text of the neighbouring day; the only failure is a lone date whose neighbour cannot be computed |
| UrlBuilder.WindowAgreesWithProcessDates | src/tempo_scraper/utils/url_builder.py:33-44 | without a rubric, the URL builder fails exactly when `process_dates` does, and building from the completed window gives the same URL |
| UrlBuilder.RubricIgnoresDates | src/tempo_scraper/utils/url_builder.py:30-31 | with a rubric, the dates do not affect the URL |
| UrlBuilder.EmptyRubricIsAbsent | src/tempo_scraper/utils/url_builder.py:30-31 | an empty rubric gives the same URL as no rubric |
| UrlParse.RemoveUnsafe | src/tempo_scraper/scrapers/index_scraper.py:107 | removing tabs and newlines leaves none and leaves a clean URL alone |
| UrlParse.SchemeSplit | src/tempo_scraper/scrapers/index_scraper.py:107 | a scheme that is split off is followed by the first colon, and the rest is what follows it |
| UrlParse.UrlSplit | src/tempo_scraper/scrapers/index_scraper.py:107 | `urlsplit` fails only with `ValueError`, and its path holds no `?` or `#` |
| UrlParse.SplitParams | src/tempo_scraper/scrapers/index_scraper.py:107 | cutting the `;params` keeps a prefix of the path that holds everything up to its last slash and no `;` after it |
| UrlParse.UrlPath | src/tempo_scraper/scrapers/index_scraper.py:107 | `urlparse(url).path` fails only with `ValueError` and holds no `?` or `#` |
| IndexScraper.ExtractCategoryFromUrl | src/tempo_scraper/scrapers/index_scraper.py:93-111 | the category is a non-empty text without a slash; the only failure is `urlparse`'s `ValueError` |
| IndexScraper.PathCategory | src/tempo_scraper/scrapers/index_scraper.py:108-111 | the first segment of a path, or "indeks", is non-empty and holds no slash |
| IndexScraper.CategoryIsFirstSegment | src/tempo_scraper/scrapers/index_scraper.py:93-111 | a relative link `/seg/...` has `seg` as its category |
| IndexScraper.AbsoluteCategoryIsFirstSegment | src/tempo_scraper/scrapers/index_scraper.py:93-111 | an absolute link `https://host/seg/...` also has `seg` as its category, for any host without `/`, `?`, `#`, brackets, tabs or line breaks |
| IndexScraper.PathCategoryRule | src/tempo_scraper/scrapers/index_scraper.py:108-111 | a path made only of slashes has the category "indeks"; any other path's category is the slash-stripped path up to its first inner `/` |
| IndexScraper.RelativeUrlsParse | src/tempo_scraper/scrapers/index_scraper.py:104-107 | a relative link never makes `urlparse` raise, because it is resolved against a host without brackets |
| IndexScraper.TitleStripIsRedundant | src/tempo_scraper/scrapers/index_scraper.py:65 | the `get_text(strip=True)` title is already stripped, so the extra `strip()` changes nothing |
| IndexScraper.IsArticleFree | src/tempo_scraper/scrapers/index_scraper.py:113-131 | an article is free exactly when its link has no premium badge |
| IndexScraper.ItemLink | src/tempo_scraper/scrapers/index_scraper.py:56-63 | an item contributes a link only when it has an anchor with a non-empty `href` |
| IndexScraper.ItemStub | src/tempo_scraper/scrapers/index_scraper.py:55-78 | an item without a usable link is skipped; an item with one gives a stub exactly when its URL's category parses and raises exactly when it does not; the stub holds the `href`, the stripped link text, the URL's category and the negated premium badge |
| IndexScraper.IndexPageStubs | src/tempo_scraper/scrapers/index_scraper.py:13-91 | a failed fetch or a page without the list container gives no stubs; otherwise there are at most as many stubs as capped items, and never more than `article_per_page` |
| IndexScraper.ScrapeIndexPage | src/tempo_scraper/scrapers/index_scraper.py:13-91 | the loop over the capped child items computes exactly the stubs of the page |
| IndexScraper.StubsComeFromItems | src/tempo_scraper/scrapers/index_scraper.py:49-78 | every stub is the stub of one of the first `article_per_page` items |
| IndexScraper.ItemsGiveStubs | src/tempo_scraper/scrapers/index_scraper.py:49-78 | when none of the first `article_per_page` items raises, every one of them with a usable link gives a stub, and that stub is on the page |
| IndexScraper.StubsKeepOrder | src/tempo_scraper/scrapers/index_scraper.py:55-78 | the stubs of two item lists in a row are the stubs of the first followed by those of the second |
| IndexScraper.OneBadLinkEmptiesPage | src/tempo_scraper/scrapers/index_scraper.py:86-91 | one capped item whose URL makes `urlparse` raise empties the whole page |
| IndexScraper.CapCountsBrokenItems | src/tempo_scraper/scrapers/index_scraper.py:49-52 | the cap counts items without links, so a page whose first `article_per_page` items have no link gives no stubs |
| ArticleExtractor.ContentOf | src/tempo_scraper/extractors/article_extractor.py:51-62 | a `<meta>` tag's value is its non-empty `content` attribute, or "" |
| ArticleExtractor.PubDate | src/tempo_scraper/extractors/article_extractor.py:51-56 | `published_time` shadows `publish_date` whenever the published-time tag exists |
| ArticleExtractor.PublishedTimeShadowsPublishDate | src/tempo_scraper/extractors/article_extractor.py:51-56 | a published-time tag with an empty value gives no publication date even if `publish_date` has one |
| ArticleExtractor.KeptParagraph | src/tempo_scraper/extractors/article_extractor.py:68-76 | a paragraph is kept, stripped, exactly when its stripped text is non-empty and does not start with "Pilihan Editor:", colon included; "Pilihan Editor menyebut …" is kept |
| ArticleExtractor.KeptTag | src/tempo_scraper/extractors/article_extractor.py:79-86 | a tag is kept, stripped, exactly when its stripped text is non-empty |
| ArticleExtractor.KeptImage | src/tempo_scraper/extractors/article_extractor.py:89-96 | an image is kept exactly when its `src` is present, non-empty and not the advertising logo, with its `alt` or "" |
| ArticleExtractor.ExtractParagraphs | src/tempo_scraper/extractors/article_extractor.py:68-76 | the nested loop over wrappers and `<p>` tags keeps exactly the kept paragraphs, in order |
| ArticleExtractor.ExtractTags | src/tempo_scraper/extractors/article_extractor.py:79-86 | the tag loop keeps exactly the kept tags, in order |
| ArticleExtractor.ExtractImages | src/tempo_scraper/extractors/article_extractor.py:89-96 | the image loop keeps exactly the kept images, in order |
| ArticleExtractor.PageMetadata | src/tempo_scraper/extractors/article_extractor.py:99-111 | the metadata carries the page URL, the given category, the stripped title, the raw publication text and its parsed date, time and timezone, the author, and is free |
| ArticleExtractor.ExtractedArticle | src/tempo_scraper/extractors/article_extractor.py:13-128 | no article exactly when the fetch fails, the page has no article container, or the URL's category raises; otherwise the page's metadata with its paragraphs, tags and images |
| ArticleExtractor.ExtractArticleContent | src/tempo_scraper/extractors/article_extractor.py:13-128 | the extraction method computes exactly the extracted article |
| ArticleExtractor.ContentIsCleanAndComplete | src/tempo_scraper/extractors/article_extractor.py:68-76 | every paragraph kept is non-empty, stripped and not a teaser and is the strip of some `<p>`; every `<p>` that qualifies is kept |
| ArticleExtractor.ContentKeepsOrder | src/tempo_scraper/extractors/article_extractor.py:68-76 | the paragraphs of two runs of wrappers in a row are the paragraphs of the first followed by those of the second |
| ArticleExtractor.TagsAreCleanAndComplete | src/tempo_scraper/extractors/article_extractor.py:79-86 | no tag container gives no tags; every tag is non-empty and stripped; every link whose stripped text is non-empty gives a tag; every tag is the stripped text of one of the container's links |
| ArticleExtractor.TagsKeepOrder | src/tempo_scraper/extractors/article_extractor.py:79-86 | the tags of two runs of links in a row are the tags of the first followed by those of the second |
| ArticleExtractor.ImagesAreFiltered | src/tempo_scraper/extractors/article_extractor.py:89-96 | every image kept has a non-empty `src` that is not the logo and comes from a page image; every such page image is kept |
| ArticleExtractor.MetadataIsNormalised | src/tempo_scraper/extractors/article_extractor.py:99-121 | an extracted article is free, its category is the URL's, its date fields are the parse of its raw publication text, and an empty raw text gives empty date fields |
| ArticleFilters.FilterArticlesByAccess | src/tempo_scraper/scrapers/article_filters.py:7-20 | the access filter keeps every stub, in order, whatever the login |
| ArticleFilters.FullUrl | src/tempo_scraper/scrapers/article_filters.py:39-42 | a relative URL is resolved against `https://www.tempo.co` and an absolute URL is kept |
| ArticleFilters.Placeholder | src/tempo_scraper/scrapers/article_filters.py:45-72 | an explained article is the stub with the notice as its only paragraph and no tags or images |
| ArticleFilters.ContentFor | src/tempo_scraper/scrapers/article_filters.py:22-74 | each stub comes out either with its own metadata or as exactly what the extractor returned for its full URL |
| ArticleFilters.ExtractContentForArticles | src/tempo_scraper/scrapers/article_filters.py:22-74 | the loop gives one article per stub, in order, with the stub's content |
| ArticleFilters.PremiumWithoutLoginSkipsExtractor | src/tempo_scraper/scrapers/article_filters.py:45-56 | without a login a premium stub gets the premium notice whatever the extractor would do |
| ArticleFilters.FetchedStubs | src/tempo_scraper/scrapers/article_filters.py:59-72 | a stub that may be fetched becomes the extracted article, or the structure notice when there is none |
| ArticleFilters.NoticesAreDistinct | src/tempo_scraper/scrapers/article_filters.py:45-72 | the two notices are non-empty and differ, and an explained article always has a paragraph |
| ArticleFilters.ExtractedArticleReplacesStub | src/tempo_scraper/scrapers/article_filters.py:59-61 | with the real extractor, a fetched stub is either explained or replaced by an article carrying the absolute URL and that URL's category |
| ArticleFilters.FullUrlKeepsCategory | src/tempo_scraper/scrapers/article_filters.py:39-42 | a listing link `/seg/...` and the absolute `https://www.tempo.co/seg/...` fetched for it both have the category `seg` |
| JsonValue.Keys | scripts/json_to_markdown.py:184 | the keys of an object are its members' names in order |
| JsonValue.GetFinds | scripts/json_to_markdown.py:184 | `dict.get` finds a value exactly when the key is present, and the value is bound to that key |
| JsonValue.GetAt | scripts/json_to_markdown.py:67-75 | the value found is the one of the first member with that key |
| FileHandler.StampFields | src/tempo_scraper/utils/file_handler.py:31-33 | a moment's fields are written as four year digits and five two-digit fields |
| FileHandler.FileStamp | src/tempo_scraper/utils/file_handler.py:32 | the file stamp `%Y%m%d_%H%M%S` is 15 characters long |
| FileHandler.MetaStamp | src/tempo_scraper/utils/file_handler.py:33 | the metadata stamp `%Y/%m/%d %H:%M:%S` is 19 characters long |
| FileHandler.StampsAgree | src/tempo_scraper/utils/file_handler.py:31-33 | the file stamp is the metadata stamp with its slashes and colons dropped and its one space turned into an underscore |
| FileHandler.FileStampInjective | src/tempo_scraper/utils/file_handler.py:32 | two moments with the same file stamp are the same moment |
| FileHandler.FilenameNamesTheRun | src/tempo_scraper/utils/file_handler.py:36-39 | the output name tells the kind of run and the moment apart: equal names mean the same kind and the same second |
| FileHandler.PathJoin | src/tempo_scraper/utils/file_handler.py:41 | `os.path.join` gives the name for an empty directory, and otherwise a path that starts with the directory and ends with the name |
| FileHandler.StringsJson | src/tempo_scraper/utils/file_handler.py:84 | a list of strings is dumped as a JSON array of the same strings |
| FileHandler.ImagesJson | src/tempo_scraper/utils/file_handler.py:84 | the images are dumped one object per image, in order |
| FileHandler.Records | src/tempo_scraper/utils/file_handler.py:76 | the full records are one `__dict__` object per article, in order |
| FileHandler.Summaries | src/tempo_scraper/utils/file_handler.py:46-56 | there is one summary per article |
| FileHandler.SummariesAreProjections | src/tempo_scraper/utils/file_handler.py:46-56 | each summary is an object with exactly the keys url, title, category and is_free, taken from its article |
| FileHandler.IndexMetadataShape | src/tempo_scraper/utils/file_handler.py:58-75 | the index header has exactly the keys type, timestamp, scraping_options and total_articles, in that order and no categories; the count and the metadata stamp are recorded |
| FileHandler.IndexFileShape | src/tempo_scraper/utils/file_handler.py:43-77 | the listing file is an object with the index header then an array with one entry per article |
| FileHandler.ListingHoldsRecordsOrSummaries | src/tempo_scraper/utils/file_handler.py:46-77 | with no options, empty options or `extract_content` true the listing holds full records; with non-empty options and `extract_content` false it holds summaries |
| FileHandler.SingleArticleFile | src/tempo_scraper/utils/file_handler.py:78-80 | a single-article file is the first article's record, or an empty object when there is none |
| FileHandler.SaveArticlesToJson | src/tempo_scraper/utils/file_handler.py:9-90 | a failed write raises; otherwise the file goes to the output directory under the run's name and holds the output data |
| FileHandler.StringsRoundTrip | src/tempo_scraper/utils/file_handler.py:84 | strings that were dumped read back unchanged |
| FileHandler.ImagesRoundTrip | src/tempo_scraper/utils/file_handler.py:84 | images that were dumped read back unchanged |
| FileHandler.MetadataRoundTrip | src/tempo_scraper/utils/file_handler.py:84 | article metadata that was dumped reads back unchanged |
| FileHandler.ArticleRoundTrip | src/tempo_scraper/utils/file_handler.py:76-84 | an article that was dumped reads back unchanged |
| JsonToMarkdown.MaskName | scripts/json_to_markdown.py:39 | masking keeps the length and puts a space in place of every character that is not an ASCII letter, a digit, whitespace, `-`, `_` or `.` |
| JsonToMarkdown.CollapseSeparators | scripts/json_to_markdown.py:42 | after collapsing, no two hyphens are adjacent, no separator other than a hyphen is left, and a leading hyphen comes from a leading separator |
| JsonToMarkdown.CollapseKeepsCharacters | scripts/json_to_markdown.py:42 | collapsing introduces no character other than a hyphen |
| JsonToMarkdown.TrimmedName | scripts/json_to_markdown.py:34-45 | the trimmed name holds only name characters, has no double hyphen and neither starts nor ends with a hyphen |
| JsonToMarkdown.SanitizedNameIsSafe | scripts/json_to_markdown.py:23-54 | every title, the fallback included, gives a safe file name: non-empty, at most 100 characters, only `a-z`, `0-9`, `.` and single hyphens, and not starting with a hyphen |
| JsonToMarkdown.FallbackIsSafe | scripts/json_to_markdown.py:51-52 | the fallback name "untitled-article" is itself a safe name |
| JsonToMarkdown.CollapseSingleHyphens | scripts/json_to_markdown.py:42 | a name without double hyphens or other separators is unchanged by collapsing |
| JsonToMarkdown.TrimmedFixedPoint | scripts/json_to_markdown.py:34-45 | an already trimmed name trims to itself |
| JsonToMarkdown.SanitizedFixedPoint | scripts/json_to_markdown.py:23-54 | a safe name that does not end with a hyphen sanitises to itself |
| JsonToMarkdown.UncutNameEndsClean | scripts/json_to_markdown.py:45-54 | a name that needs no cutting does not end with a hyphen |
| JsonToMarkdown.SanitizeIdempotent | scripts/json_to_markdown.py:23-54 | for a title whose trimmed name needs no cutting, sanitising twice is the same as sanitising once |
| JsonToMarkdown.SuffixIsIgnored | scripts/json_to_markdown.py:34-35 | a title and the title cut before " \| tempo.co" give the same name |
| JsonToMarkdown.NoSuffixInName | scripts/json_to_markdown.py:34-35 | a string of name characters never holds the suffix, which has a `\|` in it |
| JsonToMarkdown.StringField | scripts/json_to_markdown.py:67-75 | a missing key gives the default, a string gives that string, and any other value makes the field unreadable |
| JsonToMarkdown.ReadRecord | scripts/json_to_markdown.py:190-221 | only an object is read as a record |
| JsonToMarkdown.SavedArticleIsRead | scripts/json_to_markdown.py:190-221 | the converter reads every record the scraper saved as that article's fields |
| JsonToMarkdown.EmptyObjectTakesDefaults | scripts/json_to_markdown.py:67-75 | an empty object reads as the defaults: empty fields, free, no title, tags or content |
| JsonToMarkdown.CleanTag | scripts/json_to_markdown.py:90-106 | a cleaned tag is no longer than the tag, holds only tag characters, and a tag made of tag characters is unchanged |
| JsonToMarkdown.BlankTagCleansToNothing | scripts/json_to_markdown.py:90-106 | a blank tag cleans to nothing |
| JsonToMarkdown.TagEntry | scripts/json_to_markdown.py:90-106 | a tag gives an entry exactly when it is a string that cleans to something, and the entry is `#` and the cleaned tag |
| JsonToMarkdown.BuildTagList | scripts/json_to_markdown.py:90-106 | the tag loop gives the access tag followed by the entries of the tags, in order |
| JsonToMarkdown.TagListShape | scripts/json_to_markdown.py:90-106 | the tag list starts with the access tag, every other entry is `#` with at least one tag character after it, and every tag that cleans to something appears |
| JsonToMarkdown.DisplayUrlRule | scripts/json_to_markdown.py:75-79 | the shown URL ends with the stored one, differs from it exactly for a premium, non-empty link not starting with "http", is empty only for an empty link, and is an http URL for every premium link shown |
| JsonToMarkdown.PublishedAtShape | scripts/json_to_markdown.py:82-87 | the published line is empty exactly when the date or the time is missing, and otherwise is the date with slashes for hyphens, a space and the time |
| JsonToMarkdown.HeaderHasFourLines | scripts/json_to_markdown.py:109-116 | a header without stray newlines splits into exactly its four lines |
| JsonToMarkdown.FormatMetadata | scripts/json_to_markdown.py:57-116 | the header method computes exactly the header of the record |
| JsonToMarkdown.CleanTitle | scripts/json_to_markdown.py:132-136 | the heading title is the title cut at the first occurrence of the site suffix (space, bar, space, `tempo.co`), and a title without the suffix is kept whole |
| JsonToMarkdown.AppendParagraphs | scripts/json_to_markdown.py:149-152 | the paragraph loop appends exactly the body lines to the lines so far |
| JsonToMarkdown.BodyInterleaves | scripts/json_to_markdown.py:149-152 | the body is every kept paragraph followed by a blank line |
| JsonToMarkdown.KeptParagraphsAreClean | scripts/json_to_markdown.py:149-152 | every paragraph line kept is non-empty and stripped |
| JsonToMarkdown.MarkdownLayout | scripts/json_to_markdown.py:139-155 | the Markdown lines are the header, a blank, the `# ` title, a blank and then each kept paragraph with a blank after it |
| JsonToMarkdown.CreateMarkdownContent | scripts/json_to_markdown.py:119-155 | the Markdown method computes exactly the Markdown of the record |
| JsonToMarkdown.CandidateInjective | scripts/json_to_markdown.py:200-210 | different counters give different candidate names |
| JsonToMarkdown.FreeFromIsFirst | scripts/json_to_markdown.py:200-210 | the counter search stops within `len(taken)` steps at a free name, and every counter it passes is taken |
| JsonToMarkdown.FirstFreeNameIsFirst | scripts/json_to_markdown.py:200-210 | the name chosen is not taken, and every earlier candidate is |
| JsonToMarkdown.UniqueFilename | scripts/json_to_markdown.py:200-210 | the duplicate loop returns the first free candidate, which is not in the directory |
| JsonToMarkdown.Names | scripts/json_to_markdown.py:200-216 | the names written are exactly the names of the files |
| JsonToMarkdown.ConvertItem | scripts/json_to_markdown.py:192-221 | converting one item gives its file, whose name is not in the directory, or nothing when the item raises |
| JsonToMarkdown.ConvertArticles | scripts/json_to_markdown.py:190-221 | the conversion loop writes exactly the converted files and counts them |
| JsonToMarkdown.ProcessJsonFile | scripts/json_to_markdown.py:158-223 | an unreadable file converts nothing; a top level that is not an object raises `AttributeError`; a missing or non-list category converts nothing; otherwise the files of its items, counted |
| JsonToMarkdown.ConvertedNamesAreFresh | scripts/json_to_markdown.py:190-221 | one file per readable item, none under a name already present, and no two with the same name |
| JsonToMarkdown.ConvertedFilesComeFromItems | scripts/json_to_markdown.py:190-221 | every file written is the Markdown of a readable item, under a candidate name of its sanitised title |
| JsonToMarkdown.JsonFilesToProcess | scripts/json_to_markdown.py:259-261 | every JSON file but `metadata.json` is processed |
| Scraper.Windowed | src/tempo_scraper/main.py:33 | completing the window changes only the dates of the options |
| Scraper.RunOptions | src/tempo_scraper/main.py:33-37 | a run that goes ahead uses the completed window, which passes the range check |
| Scraper.RunWindow | src/tempo_scraper/main.py:33-37 | the window of a run that goes ahead is complete, and the run exits with status 1 exactly when both dates are given and the start is a later day than the end |
| Scraper.Wrapped | src/tempo_scraper/main.py:56-65 | without content extraction, each stub becomes an article with no content, tags or images |
| Scraper.PageArticlesPerStub | src/tempo_scraper/main.py:44-65 | a page adds one article per stub, in order: the stub's content when content is extracted, the bare stub otherwise |
| Scraper.ConcatMembers | src/tempo_scraper/main.py:40-70 | an article is in the collected list exactly when one of the pages holds it |
| Scraper.AllArticlesStep | src/tempo_scraper/main.py:42-70 | the articles of pages up to `last` are those up to `last - 1` followed by page `last` |
| Scraper.AllArticlesFromPages | src/tempo_scraper/main.py:42-70 | an article is collected exactly when some page in the range adds it |
| Scraper.DelaysAreWaits | src/tempo_scraper/main.py:68-70 | the run sleeps once after every page but the last, so it never sleeps when the range has at most one page |
| Scraper.RecordedOptionsShape | src/tempo_scraper/main.py:73-82 | the recorded options have their fixed keys in order, write missing dates as "", write a given rubric, and ask for summaries exactly when content was not extracted |
| Scraper.ScrapePage | src/tempo_scraper/main.py:44-65 | one iteration of the page loop computes exactly the articles of that page |
| Scraper.AddPage | src/tempo_scraper/main.py:44-65 | extending the collected list by one page gives the articles of all pages up to that one |
| Scraper.ScrapePages | src/tempo_scraper/main.py:42-70 | the page loop collects the articles of every page in order and sleeps once between pages; a negative delay makes the first sleep raise `ValueError`, which only a range of two or more pages reaches |
| Scraper.ScrapeIndexPages | src/tempo_scraper/main.py:22-95 | a date error or a reversed range ends the run before any page is fetched; otherwise the completed options run the page loop; a negative delay over two or more pages raises `ValueError` and saves nothing; otherwise the articles and options go to the listing file unless writing fails |
| Scraper.ListingOnlyRunSavesSummaries | src/tempo_scraper/main.py:56-93 | a listing-only run collects bare stubs and saves four-field summaries under the index header |
| Scraper.ContentRunExtractsEveryStub | src/tempo_scraper/main.py:50-55 | a content run collects exactly the content of every filtered stub of every page |
| Scraper.ExtractSingleArticle | src/tempo_scraper/main.py:97-124 | an article that cannot be extracted exits with status 1; otherwise its record is saved as an article file unless writing fails |

## Left out

- **Network.** HTTP sessions, logins, retries and the BeautifulSoup parser are not modelled. A fetched page is the abstract tree the CSS selectors walk. A failed request, which the scrapers catch, is a missing page.
- **Configuration.** `core/config.py`, `core/selectors.py`, `core/session.py` and `core/logging.py` are not part of this model, apart from the constants the core reads: the origins, the notices, the teaser prefix and the advertising logo URL.
- **Command line.** Logging, `print` and argument parsing are not modelled, nor is the `main()` of either program. For the converter's `main()`, only the filter that skips `metadata.json` is modelled (`JsonToMarkdown.JsonFilesToProcess`). Its argument checks, its directory walk and its glob are not.
- **Sleeping.** `time.sleep` is counted, not performed (`Scraper.Delays`). Only its refusal of a negative length is modelled (`Scraper.SleepRaises`).
- **Clock.** `datetime.now()` is the parameter `now`.
- **File system.** `os.makedirs` and `Path.mkdir` are not modelled. A failed `open`/`json.dump` is the flag `writeOk`. The converter's own write failures and its file encoding are not modelled.
- **JSON serialisation.** `json.dump`'s text form, the indentation and `ensure_ascii` are not modelled: a file is the JSON value written.
- **JSON numbers.** Numbers are integers, because the core writes only counts.
- **Categorised output.** The `categorize` option's categorised output is not modelled, and neither are `output_filename` and `output_name`. The scraper writes to `data/output` under the timestamped name.
- **Call sites.** `main.py` calls `filter_articles_by_access(articles)` and `extract_content_for_articles(articles)` with one argument, builds `Article` without `images`, reads `options.output_name`, and calls `save_articles_to_json` with keywords it does not take: `categorize=` and `output_filename=` at main.py:86-93, and `output_filename=` at main.py:117-122. The article extractor calls `create_session(use_auth)` (src/tempo_scraper/extractors/article_extractor.py:28), but `create_session` takes no parameter (src/tempo_scraper/core/session.py:8). As written, Python would raise a `TypeError` or an `AttributeError` at those calls. Each function is modelled by its own definition instead. `use_auth` comes from the options, and `images` is `[]`.
- **Login flag.** As written, `create_session(use_auth)` raises `TypeError` on every call. The extractor's `except Exception` turns that into `None`, so every content run would give each stub the missing-content notice, and the single-article run would always exit 1. The model takes session creation, with the request, as part of the fetch parameter and uses `create_session`'s own definition: the fetch alone decides whether a page comes back. `use_auth` is passed along and has no other effect, as in the source.
- **Empty page range.** When the page range is empty, `ScrapePages` skips its loop. The result is the same: no articles and no delays.
- **Duplicate JSON keys.** `JsonValue.Get` takes the first binding of a duplicated key, but `json.load` keeps the last one. Files that the scraper writes never repeat a key.
- JsonToMarkdown.ReadRecord: a field of the wrong JSON type makes the item unreadable, so the converter skips it. In Python, such fields would often be used anyway, for example: a number as the category, a non-string publication time, or the non-string URL of a free article, is formatted by the f-strings; a falsy non-string publication date only empties the published line; a string `tags` or `content` is iterated character by character, each character taken as a tag or a paragraph. Those items are skipped here and would be converted there.
- Calendar.FormatIsoDate: pads every year to four digits. glibc's `strftime("%Y")` does not pad years below 1000. Years below 1000 are outside the dates the scraper sees, and the round trip with `strptime` is stated for the padded form.
- Calendar.ParseIsoDate: accepts ASCII digits only. `strptime` also accepts other Unicode decimal digits.
- UrlParse.UrlSplit: models how the path is cut out and the check that the host's brackets balance. It does not model `urlsplit`'s other host checks: the NFKC check on non-ASCII hosts, the port value, and the `_check_bracketed_netloc` test of newer CPython releases (3.11.4 and later), which also raises `ValueError` for a bracketed host that is not an IPv6 or IPvFuture address, such as `http://[foo]/x`.
