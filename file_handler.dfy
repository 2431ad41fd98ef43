/** The JSON output of a run (`utils/file_handler.py`): the file name, and the document written
    into it. The clock reading and the outcome of the write are parameters. */
module FileHandler {
  import opened Wrappers
  import opened Text
  import opened Calendar
  import opened Models
  import opened JsonValue

  /** A reading of `datetime.now()`, to the second. */
  datatype Moment = Moment(date: Date, hour: int, minute: int, second: int)

  predicate ValidMoment(m: Moment) {
    Valid(m.date) && 0 <= m.hour < 24 && 0 <= m.minute < 60 && 0 <= m.second < 60
  }

  /** The six numbers of a moment as `strftime` writes them: the year with four digits, the rest with two. */
  function StampFields(m: Moment): (f: seq<string>)
    requires ValidMoment(m)
    ensures |f| == 6 && |f[0]| == 4 && forall i :: 1 <= i < 6 ==> |f[i]| == 2
  {
    [FixedDigits(m.date.year, 4), FixedDigits(m.date.month, 2), FixedDigits(m.date.day, 2),
     FixedDigits(m.hour, 2), FixedDigits(m.minute, 2), FixedDigits(m.second, 2)]
  }

  /** Three fields with `sep` between them. */
  function Triple(a: string, sep: string, b: string, c: string): string {
    a + sep + b + sep + c
  }

  /** `now.strftime("%Y%m%d_%H%M%S")`. */
  function FileStamp(m: Moment): (s: string)
    requires ValidMoment(m)
    ensures |s| == 15
  {
    var f := StampFields(m);
    Triple(f[0], "", f[1], f[2]) + "_" + Triple(f[3], "", f[4], f[5])
  }

  /** `now.strftime("%Y/%m/%d %H:%M:%S")`. */
  function MetaStamp(m: Moment): (s: string)
    requires ValidMoment(m)
    ensures |s| == 19
  {
    var f := StampFields(m);
    Triple(f[0], "/", f[1], f[2]) + " " + Triple(f[3], ":", f[4], f[5])
  }

  /** How one character of the metadata timestamp appears in the file name's. */
  function CompactChar(c: char): string {
    if c == '/' || c == ':' then [] else if c == ' ' then "_" else [c]
  }

  /** The file-name form of a timestamp: no '/' or ':', and '_' for the space. */
  function Compact(s: string): (r: string)
  {
    if s == [] then [] else CompactChar(s[0]) + Compact(s[1..])
  }

  lemma {:induction false} CompactAppend(a: string, b: string)
    ensures Compact(a + b) == Compact(a) + Compact(b)
  {
    if a != [] {
      assert (a + b)[0] == a[0] && (a + b)[1..] == a[1..] + b;
      CompactAppend(a[1..], b);
      assert CompactChar(a[0]) + (Compact(a[1..]) + Compact(b)) == (CompactChar(a[0]) + Compact(a[1..])) + Compact(b);
    } else {
      assert a + b == b;
    }
  }

  lemma {:induction false} CompactDigits(s: string)
    requires forall i :: 0 <= i < |s| ==> IsAsciiDigit(s[i])
    ensures Compact(s) == s
  {
    if s != [] {
      CompactDigits(s[1..]);
      assert s == [s[0]] + s[1..];
    }
  }

  predicate AllDigits(s: string) {
    forall i :: 0 <= i < |s| ==> IsAsciiDigit(s[i])
  }

  lemma CompactTriple(a: string, sep: string, b: string, c: string)
    requires AllDigits(a) && AllDigits(b) && AllDigits(c)
    requires sep == "/" || sep == ":"
    ensures Compact(Triple(a, sep, b, c)) == Triple(a, "", b, c)
  {
    CompactDigits(a);
    CompactDigits(b);
    CompactDigits(c);
    assert Compact(sep) == [] by {
      assert sep == [sep[0]] && CompactChar(sep[0]) == [];
    }
    var x1 := a + sep;
    CompactAppend(a, sep);
    var x2 := x1 + b;
    CompactAppend(x1, b);
    var x3 := x2 + sep;
    CompactAppend(x2, sep);
    CompactAppend(x3, c);
    assert Compact(x3 + c) == a + b + c;
    assert Triple(a, "", b, c) == a + b + c;
  }

  /** Both timestamps are read from the same clock reading: the file name's is the metadata's
      with its separators removed. */
  lemma StampsAgree(m: Moment)
    requires ValidMoment(m)
    ensures FileStamp(m) == Compact(MetaStamp(m))
  {
    var f := StampFields(m);
    var date, time := Triple(f[0], "/", f[1], f[2]), Triple(f[3], ":", f[4], f[5]);
    CompactTriple(f[0], "/", f[1], f[2]);
    CompactTriple(f[3], ":", f[4], f[5]);
    assert Compact(" ") == "_";
    CompactAppend(date + " ", time);
    CompactAppend(date, " ");
  }

  /** Fixed-width numerals of numbers that fit are distinct for distinct numbers. */
  lemma FixedDigitsInjective(a: nat, b: nat, width: nat)
    requires a < Pow10(width) && b < Pow10(width) && FixedDigits(a, width) == FixedDigits(b, width)
    ensures a == b
  {
    FixedDigitsValue(a, width);
    FixedDigitsValue(b, width);
  }

  /** Two runs started in different seconds never write the same file. */
  lemma FileStampInjective(a: Moment, b: Moment)
    requires ValidMoment(a) && ValidMoment(b) && FileStamp(a) == FileStamp(b)
    ensures a == b
  {
    var fa, fb := StampFields(a), StampFields(b);
    var s := FileStamp(a);
    assert s[..4] == fa[0] && s[..4] == fb[0];
    assert s[4..6] == fa[1] && s[4..6] == fb[1];
    assert s[6..8] == fa[2] && s[6..8] == fb[2];
    assert s[9..11] == fa[3] && s[9..11] == fb[3];
    assert s[11..13] == fa[4] && s[11..13] == fb[4];
    assert s[13..] == fa[5] && s[13..] == fb[5];
    assert Pow10(4) == 10000 && Pow10(2) == 100;
    FixedDigitsInjective(a.date.year, b.date.year, 4);
    FixedDigitsInjective(a.date.month, b.date.month, 2);
    FixedDigitsInjective(a.date.day, b.date.day, 2);
    FixedDigitsInjective(a.hour, b.hour, 2);
    FixedDigitsInjective(a.minute, b.minute, 2);
    FixedDigitsInjective(a.second, b.second, 2);
  }

  /** `indeks_<stamp>.json` for a listing run, `article_<stamp>.json` for a single article. */
  function OutputFilename(isIndex: bool, m: Moment): (name: string)
    requires ValidMoment(m)
  {
    (if isIndex then "indeks_" else "article_") + FileStamp(m) + ".json"
  }

  /** The file name tells the kind of run and the second it was saved in. */
  lemma FilenameNamesTheRun(i1: bool, m1: Moment, i2: bool, m2: Moment)
    requires ValidMoment(m1) && ValidMoment(m2)
    requires OutputFilename(i1, m1) == OutputFilename(i2, m2)
    ensures i1 == i2 && m1 == m2
  {
    var n1, n2 := OutputFilename(i1, m1), OutputFilename(i2, m2);
    assert |n1| == (if i1 then 7 else 8) + 20 && |n2| == (if i2 then 7 else 8) + 20;
    var p := if i1 then 7 else 8;
    assert n1[p..p + 15] == FileStamp(m1) && n2[p..p + 15] == FileStamp(m2);
    FileStampInjective(m1, m2);
  }

  /** `os.path.join(output_dir, name)` for a relative `name`. */
  function PathJoin(dir: string, name: string): (path: string)
    ensures dir == "" ==> path == name
    ensures dir != "" ==> |path| >= |name| && path[|path| - |name|..] == name && StartsWith(path, dir)
  {
    if dir == "" then name
    else if dir[|dir| - 1] == '/' then dir + name
    else dir + "/" + name
  }

  function StringsJson(xs: seq<string>): (j: seq<Json>)
    ensures |j| == |xs| && forall i :: 0 <= i < |xs| ==> j[i] == JStr(xs[i])
  {
    if xs == [] then [] else [JStr(xs[0])] + StringsJson(xs[1..])
  }

  function ImageJson(im: Image): Json {
    JObject([("src", JStr(im.src)), ("alt", JStr(im.alt))])
  }

  function ImagesJson(ims: seq<Image>): (j: seq<Json>)
    ensures |j| == |ims| && forall i :: 0 <= i < |ims| ==> j[i] == ImageJson(ims[i])
  {
    if ims == [] then [] else [ImageJson(ims[0])] + ImagesJson(ims[1..])
  }

  /** `metadata.__dict__`: every field, under its Python name, in declaration order. */
  function MetadataJson(m: ArticleMetadata): Json {
    JObject([("url", JStr(m.url)), ("title", JStr(m.title)), ("category", JStr(m.category)),
             ("is_free", JBool(m.isFree)), ("publication_date_raw", JStr(m.publicationDateRaw)),
             ("publication_date", JStr(m.publicationDate)), ("publication_time", JStr(m.publicationTime)),
             ("timezone", JStr(m.timezone)), ("author", JStr(m.author))])
  }

  /** `article.__dict__` as `json.dump(..., default=lambda o: o.__dict__)` writes it. */
  function ArticleJson(a: Article): Json {
    JObject([("metadata", MetadataJson(a.metadata)), ("content", JArray(StringsJson(a.content))),
             ("tags", JArray(StringsJson(a.tags))), ("images", JArray(ImagesJson(a.images)))])
  }

  /** The listing summary of one article: exactly its URL, title, category and access flag. */
  function Summary(a: Article): Json {
    JObject([("url", JStr(a.metadata.url)), ("title", JStr(a.metadata.title)),
             ("category", JStr(a.metadata.category)), ("is_free", JBool(a.metadata.isFree))])
  }

  /** The summaries of a run's articles, in order (the list the summary loop builds). */
  function Summaries(articles: seq<Article>): (j: seq<Json>)
    ensures |j| == |articles|
  {
    if articles == [] then [] else Summaries(articles[..|articles| - 1]) + [Summary(articles[|articles| - 1])]
  }

  /** `[article.__dict__ for article in articles]`. */
  function Records(articles: seq<Article>): (j: seq<Json>)
    ensures |j| == |articles| && forall i :: 0 <= i < |articles| ==> j[i] == ArticleJson(articles[i])
  {
    if articles == [] then [] else [ArticleJson(articles[0])] + Records(articles[1..])
  }

  /** `scraping_options and not scraping_options.get("extract_content", False)`. */
  predicate WantsSummaries(options: Option<seq<(string, Json)>>) {
    && options.Some? && options.value != []
    && !(Get(options.value, "extract_content").Some? && PyTruth(Get(options.value, "extract_content").value))
  }

  /** The `metadata` object of a listing run. */
  function IndexMetadata(m: Moment, options: Option<seq<(string, Json)>>, total: nat): Json
    requires ValidMoment(m)
  {
    JObject([("type", JStr("index")), ("timestamp", JStr(MetaStamp(m))),
             ("scraping_options", JObject(if options.Some? then options.value else [])),
             ("total_articles", JNum(total))])
  }

  /** `output_data`: a listing run writes its metadata and either the summaries or the full
      records; a single-article run writes the first article alone, or `{}`. */
  function OutputData(articles: seq<Article>, isIndex: bool, options: Option<seq<(string, Json)>>, m: Moment): Json
    requires ValidMoment(m)
  {
    if isIndex then
      JObject([("metadata", IndexMetadata(m, options, |articles|)),
               ("articles", JArray(if WantsSummaries(options) then Summaries(articles) else Records(articles)))])
    else if articles != [] then ArticleJson(articles[0])
    else JObject([])
  }

  /** The file a save produced: where it is and what it holds. */
  datatype SavedFile = SavedFile(path: string, data: Json)

  /** `save_articles_to_json(articles, output_dir, is_index_scraping, scraping_options)`; the file
      system's failure (`writeOk` false) is re-raised. */
  method SaveArticlesToJson(articles: seq<Article>, outputDir: string, isIndex: bool,
                            options: Option<seq<(string, Json)>>, now: Moment, writeOk: bool)
    returns (r: Result<SavedFile>)
    requires ValidMoment(now)
    ensures !writeOk ==> r == Err(WriteError)
    ensures writeOk ==> r == Ok(SavedFile(PathJoin(outputDir, OutputFilename(isIndex, now)),
                                          OutputData(articles, isIndex, options, now)))
  {
    var fileStamp := FileStamp(now);
    var metaStamp := MetaStamp(now);
    var outputFilename := if isIndex then "indeks_" + fileStamp + ".json" else "article_" + fileStamp + ".json";
    var outputFile := PathJoin(outputDir, outputFilename);
    var outputData;
    if isIndex {
      var recorded := JObject(if options.Some? then options.value else []);
      var metadata := JObject([("type", JStr("index")), ("timestamp", JStr(metaStamp)),
                               ("scraping_options", recorded), ("total_articles", JNum(|articles|))]);
      if WantsSummaries(options) {
        var simplified := [];
        for i := 0 to |articles|
          invariant simplified == Summaries(articles[..i])
        {
          var article := articles[i];
          simplified := simplified + [JObject([("url", JStr(article.metadata.url)), ("title", JStr(article.metadata.title)),
                                               ("category", JStr(article.metadata.category)),
                                               ("is_free", JBool(article.metadata.isFree))])];
          assert articles[..i + 1][..i] == articles[..i];
        }
        assert articles[..|articles|] == articles;
        outputData := JObject([("metadata", metadata), ("articles", JArray(simplified))]);
      } else {
        outputData := JObject([("metadata", metadata), ("articles", JArray(Records(articles)))]);
      }
    } else {
      outputData := if articles != [] then ArticleJson(articles[0]) else JObject([]);
    }
    if !writeOk {
      return Err(WriteError);
    }
    return Ok(SavedFile(outputFile, outputData));
  }

  /** Each summary holds exactly the four listing fields of its article, and the summaries keep the
      articles' order. */
  lemma {:induction false} SummariesAreProjections(articles: seq<Article>)
    ensures forall i :: 0 <= i < |articles| ==>
              && Summaries(articles)[i].JObject?
              && Keys(Summaries(articles)[i].members) == ["url", "title", "category", "is_free"]
              && Summaries(articles)[i] == Summary(articles[i])
  {
    if articles != [] {
      var front := articles[..|articles| - 1];
      SummariesAreProjections(front);
      assert forall i :: 0 <= i < |front| ==> front[i] == articles[i];
    }
  }

  /** The metadata object of a listing run has exactly `type`, `timestamp`, `scraping_options` and
      `total_articles` (no `categories` key), and counts every article. */
  lemma IndexMetadataShape(m: Moment, options: Option<seq<(string, Json)>>, total: nat)
    requires ValidMoment(m)
    ensures var meta := IndexMetadata(m, options, total);
            && Keys(meta.members) == ["type", "timestamp", "scraping_options", "total_articles"]
            && "categories" !in Keys(meta.members)
            && Get(meta.members, "total_articles") == Some(JNum(total))
            && Get(meta.members, "timestamp") == Some(JStr(MetaStamp(m)))
  {
    var ms := IndexMetadata(m, options, total).members;
    GetAt(ms, "timestamp", 1);
    GetAt(ms, "total_articles", 3);
    assert Keys(ms) == ["type", "timestamp", "scraping_options", "total_articles"];
  }

  /** A listing file holds its metadata object and one entry per article. */
  lemma IndexFileShape(articles: seq<Article>, options: Option<seq<(string, Json)>>, m: Moment)
    requires ValidMoment(m)
    ensures var d := OutputData(articles, true, options, m);
            && d.JObject? && Keys(d.members) == ["metadata", "articles"]
            && d.members[0].1 == IndexMetadata(m, options, |articles|)
            && d.members[1].1.JArray? && |d.members[1].1.items| == |articles|
  {
    var d := OutputData(articles, true, options, m);
    assert Keys(d.members) == ["metadata", "articles"];
  }

  /** Without options, with empty options or when content was extracted, a listing file holds the
      full records; otherwise only the summaries. */
  lemma ListingHoldsRecordsOrSummaries(articles: seq<Article>, options: Option<seq<(string, Json)>>, m: Moment)
    requires ValidMoment(m)
    ensures var items := OutputData(articles, true, options, m).members[1].1.items;
            && (options.None? || options.value == [] ==> items == Records(articles))
            && (options.Some? && Get(options.value, "extract_content") == Some(JBool(true)) ==> items == Records(articles))
            && (options.Some? && options.value != [] && Get(options.value, "extract_content") == Some(JBool(false)) ==>
                  items == Summaries(articles))
  {
    var wants := WantsSummaries(options);
    assert OutputData(articles, true, options, m).members[1].1.items == if wants then Summaries(articles) else Records(articles);
  }

  /** A single-article file is the first article's record, or `{}` when there is none. */
  lemma SingleArticleFile(articles: seq<Article>, options: Option<seq<(string, Json)>>, m: Moment)
    requires ValidMoment(m)
    ensures articles != [] ==> OutputData(articles, false, options, m) == ArticleJson(articles[0])
    ensures articles == [] ==> OutputData(articles, false, options, m) == JObject([])
  {
  }

  /** Reading an article back from its record (`json.load` and then the dictionary's keys). */
  function ReadString(v: Option<Json>): (s: Option<string>) {
    if v.Some? && v.value.JStr? then Some(v.value.s) else None
  }

  function ReadStrings(items: seq<Json>): (r: Option<seq<string>>)
    ensures r.Some? ==> |r.value| == |items|
  {
    if items == [] then Some([])
    else if !items[0].JStr? then None
    else
      match ReadStrings(items[1..])
      case None => None
      case Some(rest) => Some([items[0].s] + rest)
  }

  function ReadImage(j: Json): Option<Image> {
    if !j.JObject? then None
    else
      var src, alt := ReadString(Get(j.members, "src")), ReadString(Get(j.members, "alt"));
      if src.Some? && alt.Some? then Some(Image(src.value, alt.value)) else None
  }

  function ReadImages(items: seq<Json>): (r: Option<seq<Image>>)
  {
    if items == [] then Some([])
    else
      match (ReadImage(items[0]), ReadImages(items[1..]))
      case (Some(im), Some(rest)) => Some([im] + rest)
      case _ => None
  }

  function ReadMetadata(j: Json): Option<ArticleMetadata> {
    if !j.JObject? then None
    else
      var ms := j.members;
      var url, title, category := ReadString(Get(ms, "url")), ReadString(Get(ms, "title")), ReadString(Get(ms, "category"));
      var isFree := Get(ms, "is_free");
      var raw, date := ReadString(Get(ms, "publication_date_raw")), ReadString(Get(ms, "publication_date"));
      var time, tz, author := ReadString(Get(ms, "publication_time")), ReadString(Get(ms, "timezone")), ReadString(Get(ms, "author"));
      if url.Some? && title.Some? && category.Some? && isFree.Some? && isFree.value.JBool?
         && raw.Some? && date.Some? && time.Some? && tz.Some? && author.Some?
      then Some(ArticleMetadata(url.value, title.value, category.value, isFree.value.b, raw.value,
                                date.value, time.value, tz.value, author.value))
      else None
  }

  /** The article a record describes, if it is one. */
  function ReadArticle(j: Json): Option<Article> {
    if !j.JObject? then None
    else
      var ms := j.members;
      var meta, content, tags, images := Get(ms, "metadata"), Get(ms, "content"), Get(ms, "tags"), Get(ms, "images");
      if meta.None? || content.None? || !content.value.JArray? || tags.None? || !tags.value.JArray?
         || images.None? || !images.value.JArray? then None
      else
        match (ReadMetadata(meta.value), ReadStrings(content.value.items), ReadStrings(tags.value.items), ReadImages(images.value.items))
        case (Some(m), Some(c), Some(t), Some(i)) => Some(Article(m, c, t, i))
        case _ => None
  }

  lemma {:induction false} StringsRoundTrip(xs: seq<string>)
    ensures ReadStrings(StringsJson(xs)) == Some(xs)
  {
    if xs != [] {
      StringsRoundTrip(xs[1..]);
      assert StringsJson(xs)[1..] == StringsJson(xs[1..]);
      assert xs == [xs[0]] + xs[1..];
    }
  }

  lemma {:induction false} ImagesRoundTrip(ims: seq<Image>)
    ensures ReadImages(ImagesJson(ims)) == Some(ims)
  {
    if ims != [] {
      ImagesRoundTrip(ims[1..]);
      assert ImagesJson(ims)[1..] == ImagesJson(ims[1..]);
      var ms := ImageJson(ims[0]).members;
      GetAt(ms, "src", 0);
      GetAt(ms, "alt", 1);
      assert ims == [ims[0]] + ims[1..];
    }
  }

  /** Each field of a metadata record is found under its own key. */
  lemma MetadataFields(m: ArticleMetadata)
    ensures var ms := MetadataJson(m).members;
            && Get(ms, "url") == Some(JStr(m.url)) && Get(ms, "title") == Some(JStr(m.title))
            && Get(ms, "category") == Some(JStr(m.category)) && Get(ms, "is_free") == Some(JBool(m.isFree))
            && Get(ms, "publication_date_raw") == Some(JStr(m.publicationDateRaw))
            && Get(ms, "publication_date") == Some(JStr(m.publicationDate))
            && Get(ms, "publication_time") == Some(JStr(m.publicationTime))
            && Get(ms, "timezone") == Some(JStr(m.timezone)) && Get(ms, "author") == Some(JStr(m.author))
  {
    MetadataHead(m);
    MetadataDates(m);
    MetadataTail(m);
  }

  lemma MetadataHead(m: ArticleMetadata)
    ensures var ms := MetadataJson(m).members;
            && Get(ms, "url") == Some(JStr(m.url)) && Get(ms, "title") == Some(JStr(m.title))
            && Get(ms, "category") == Some(JStr(m.category))
  {
    var ms := MetadataJson(m).members;
    GetAt(ms, "url", 0);
    GetAt(ms, "title", 1);
    GetAt(ms, "category", 2);
  }

  lemma MetadataDates(m: ArticleMetadata)
    ensures var ms := MetadataJson(m).members;
            && Get(ms, "is_free") == Some(JBool(m.isFree))
            && Get(ms, "publication_date_raw") == Some(JStr(m.publicationDateRaw))
            && Get(ms, "publication_date") == Some(JStr(m.publicationDate))
  {
    var ms := MetadataJson(m).members;
    GetAt(ms, "is_free", 3);
    GetAt(ms, "publication_date_raw", 4);
    GetAt(ms, "publication_date", 5);
  }

  lemma MetadataTail(m: ArticleMetadata)
    ensures var ms := MetadataJson(m).members;
            && Get(ms, "publication_time") == Some(JStr(m.publicationTime))
            && Get(ms, "timezone") == Some(JStr(m.timezone)) && Get(ms, "author") == Some(JStr(m.author))
  {
    var ms := MetadataJson(m).members;
    GetAt(ms, "publication_time", 6);
    GetAt(ms, "timezone", 7);
    GetAt(ms, "author", 8);
  }

  lemma MetadataRoundTrip(m: ArticleMetadata)
    ensures ReadMetadata(MetadataJson(m)) == Some(m)
  {
    var ms := MetadataJson(m).members;
    MetadataFields(m);
    assert ReadString(Get(ms, "url")) == Some(m.url);
    assert ReadString(Get(ms, "title")) == Some(m.title);
    assert ReadString(Get(ms, "category")) == Some(m.category);
    assert ReadString(Get(ms, "publication_date_raw")) == Some(m.publicationDateRaw);
    assert ReadString(Get(ms, "publication_date")) == Some(m.publicationDate);
    assert ReadString(Get(ms, "publication_time")) == Some(m.publicationTime);
    assert ReadString(Get(ms, "timezone")) == Some(m.timezone);
    assert ReadString(Get(ms, "author")) == Some(m.author);
  }

  /** Each part of a full record is found under its own key. */
  lemma ArticleFields(a: Article)
    ensures var ms := ArticleJson(a).members;
            && Get(ms, "metadata") == Some(MetadataJson(a.metadata))
            && Get(ms, "content") == Some(JArray(StringsJson(a.content)))
            && Get(ms, "tags") == Some(JArray(StringsJson(a.tags)))
            && Get(ms, "images") == Some(JArray(ImagesJson(a.images)))
  {
    var ms := ArticleJson(a).members;
    GetAt(ms, "metadata", 0);
    GetAt(ms, "content", 1);
    GetAt(ms, "tags", 2);
    GetAt(ms, "images", 3);
  }

  /** A full record loses nothing: reading it back gives the article that was written. */
  lemma ArticleRoundTrip(a: Article)
    ensures ReadArticle(ArticleJson(a)) == Some(a)
  {
    ArticleFields(a);
    MetadataRoundTrip(a.metadata);
    StringsRoundTrip(a.content);
    StringsRoundTrip(a.tags);
    ImagesRoundTrip(a.images);
  }
}
