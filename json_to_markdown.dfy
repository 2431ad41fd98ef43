/** The JSON-to-Markdown converter (`scripts/json_to_markdown.py`): file names made from titles,
    the metadata header, the Markdown body and the loop that writes one file per article without
    overwriting an existing one. The output directory is the set of names already in it. */
module JsonToMarkdown {
  import opened Wrappers
  import opened Text
  import opened Models
  import opened JsonValue
  import FileHandler

  /** The site suffix cut off titles. */
  const TempoSuffix := " | tempo.co"

  /** The file name used when nothing of the title survives. */
  const FallbackName := "untitled-article"

  /** The longest file name (before `.md`) the sanitiser keeps. */
  const MaxNameLength := 100

  /** What premium URLs without a scheme are resolved against in the header. */
  const PremiumOrigin := "https://tempo.co"

  /** The heading of an article whose metadata has no title. */
  const UntitledTitle := "Untitled Article"

  /** The run-level file in a saved directory, which is never converted. */
  const MetadataFile := "metadata.json"

  // ---------------------------------------------------------------------------------------------
  // sanitize_filename

  /** The characters `[a-zA-Z0-9\s\-_.]` that survive the first substitution. */
  predicate KeptInName(c: char) {
    IsAsciiLetter(c) || IsAsciiDigit(c) || IsSpace(c) || c == '-' || c == '_' || c == '.'
  }

  /** `re.sub(r'[^a-zA-Z0-9\s\-_.]', ' ', s)`: every other character becomes a space. */
  function MaskName(s: string): (r: string)
    ensures |r| == |s|
    ensures forall i :: 0 <= i < |s| ==> r[i] == if KeptInName(s[i]) then s[i] else ' '
  {
    if s == [] then [] else [if KeptInName(s[0]) then s[0] else ' '] + MaskName(s[1..])
  }

  /** The characters `[\s\-_]` whose runs become a single hyphen. */
  predicate IsSeparator(c: char) {
    IsSpace(c) || c == '-' || c == '_'
  }

  /** Two hyphens never stand next to each other. */
  predicate NoDoubleHyphen(s: string) {
    forall i :: 0 <= i < |s| - 1 ==> !(s[i] == '-' && s[i + 1] == '-')
  }

  /** `re.sub(r'[\s\-_]+', '-', s)`: each maximal run of separators becomes one hyphen, and no
      other separator is left. */
  function CollapseSeparators(s: string): (r: string)
    ensures NoDoubleHyphen(r)
    ensures forall i :: 0 <= i < |r| ==> r[i] == '-' || !IsSeparator(r[i])
    ensures |r| > 0 && r[0] == '-' ==> |s| > 0 && IsSeparator(s[0])
    decreases |s|
  {
    if s == [] then []
    else if IsSeparator(s[0]) then
      var n := LeadingRun(s, IsSeparator);
      var rest := CollapseSeparators(s[n..]);
      assert |rest| > 0 ==> rest[0] != '-';
      ['-'] + rest
    else
      var rest := CollapseSeparators(s[1..]);
      [s[0]] + rest
  }

  /** A character the collapse keeps is a character of its input. */
  lemma {:induction false} CollapseKeepsCharacters(s: string, p: char -> bool)
    requires forall i :: 0 <= i < |s| ==> p(s[i])
    ensures forall i :: 0 <= i < |CollapseSeparators(s)| ==> CollapseSeparators(s)[i] == '-' || p(CollapseSeparators(s)[i])
    decreases |s|
  {
    if s != [] {
      if IsSeparator(s[0]) {
        var n := LeadingRun(s, IsSeparator);
        CollapseKeepsCharacters(s[n..], p);
      } else {
        CollapseKeepsCharacters(s[1..], p);
      }
    }
  }

  /** The characters a sanitised name is made of. */
  predicate NameChar(c: char) {
    'a' <= c <= 'z' || '0' <= c <= '9' || c == '.' || c == '-'
  }

  /** What every sanitised name is: non-empty, at most 100 characters of `a-z`, `0-9`, `.` and `-`,
      not starting with a hyphen and without two hyphens in a row. */
  predicate SafeName(s: string) {
    && 0 < |s| <= MaxNameLength
    && (forall i :: 0 <= i < |s| ==> NameChar(s[i]))
    && s[0] != '-'
    && NoDoubleHyphen(s)
  }

  /** A piece of a string without double hyphens has none either. */
  lemma SliceNoDoubleHyphen(s: string, a: nat, b: nat)
    requires a <= b <= |s| && NoDoubleHyphen(s)
    ensures NoDoubleHyphen(s[a..b])
  {
    forall i | 0 <= i < b - a - 1
      ensures !(s[a..b][i] == '-' && s[a..b][i + 1] == '-')
    {
      assert s[a..b][i] == s[a + i] && s[a..b][i + 1] == s[a + i + 1];
    }
  }

  /** `untitled-article` is lower-case letters around one hyphen. */
  lemma FallbackLetters()
    ensures |FallbackName| == 16 && FallbackName[8] == '-'
    ensures forall i :: 0 <= i < |FallbackName| && i != 8 ==> 'a' <= FallbackName[i] <= 'z'
  {
    var s := FallbackName;
    assert s[0] == 'u' && s[1] == 'n' && s[2] == 't' && s[3] == 'i' && s[4] == 't' && s[5] == 'l'
        && s[6] == 'e' && s[7] == 'd' && s[8] == '-';
    assert s[9] == 'a' && s[10] == 'r' && s[11] == 't' && s[12] == 'i' && s[13] == 'c' && s[14] == 'l'
        && s[15] == 'e';
  }

  lemma FallbackIsSafe()
    ensures SafeName(FallbackName)
  {
    FallbackLetters();
    assert forall i :: 0 <= i < |FallbackName| ==> NameChar(FallbackName[i]);
  }

  lemma FallbackIsLower()
    ensures LowerAscii(FallbackName) == FallbackName
  {
    FallbackLetters();
    LowerOfLower(FallbackName);
  }

  /** The characters a name has before it is lower-cased. */
  predicate MixedNameChar(c: char) {
    c == '-' || IsAsciiLetter(c) || IsAsciiDigit(c) || c == '.'
  }

  /** The title up to the site suffix, reduced to letters, digits, dots and single hyphens, with no
      hyphen at either end. */
  function TrimmedName(title: string): (r: string)
    ensures forall i :: 0 <= i < |r| ==> MixedNameChar(r[i])
    ensures NoDoubleHyphen(r)
    ensures r == [] || (r[0] != '-' && r[|r| - 1] != '-')
  {
    var masked := MaskName(Before(title, TempoSuffix));
    var collapsed := CollapseSeparators(masked);
    CollapseKeepsCharacters(masked, KeptInName);
    CollapsedNameChars(collapsed);
    StrippedName(collapsed);
    StripChar(collapsed, '-')
  }

  /** A collapsed, masked character is a hyphen or a letter, a digit or a dot. */
  lemma CollapsedNameChars(s: string)
    requires forall i :: 0 <= i < |s| ==> s[i] == '-' || !IsSeparator(s[i])
    requires forall i :: 0 <= i < |s| ==> s[i] == '-' || KeptInName(s[i])
    ensures forall i :: 0 <= i < |s| ==> MixedNameChar(s[i])
  {
  }

  /** Stripping the hyphens at both ends of a name keeps its characters and its single hyphens. */
  lemma StrippedName(s: string)
    requires NoDoubleHyphen(s)
    requires forall i :: 0 <= i < |s| ==> MixedNameChar(s[i])
    ensures var t := StripChar(s, '-');
            NoDoubleHyphen(t) && forall i :: 0 <= i < |t| ==> MixedNameChar(t[i])
  {
    var t := StripChar(s, '-');
    var a := LeadingRun(s, x => x == '-');
    assert t == s[a..a + |t|];
    SliceNoDoubleHyphen(s, a, a + |t|);
    assert forall i :: 0 <= i < |t| ==> t[i] == s[a + i];
  }

  /** Lower-casing one character of a name gives a character of a safe name, a hyphen exactly
      when it was one. */
  lemma LowerNameChar(c: char)
    requires MixedNameChar(c)
    ensures var l := if 'A' <= c <= 'Z' then (c - 'A' + 'a') as char else c;
            NameChar(l) && (l == '-' <==> c == '-')
  {
  }

  /** Two strings with hyphens at the same places have double hyphens at the same places. */
  lemma SameHyphens(r: string, s: string)
    requires |r| == |s| && NoDoubleHyphen(s)
    requires forall i :: 0 <= i < |r| ==> (r[i] == '-' <==> s[i] == '-')
    ensures NoDoubleHyphen(r)
  {
    forall i | 0 <= i < |r| - 1 ensures !(r[i] == '-' && r[i + 1] == '-') {
      assert (r[i] == '-') == (s[i] == '-') && (r[i + 1] == '-') == (s[i + 1] == '-');
    }
  }

  /** Lower-casing a name changes no hyphen, so it keeps what made it safe. */
  lemma LowerKeepsName(s: string)
    requires 0 < |s| <= MaxNameLength && s[0] != '-' && NoDoubleHyphen(s)
    requires forall i :: 0 <= i < |s| ==> MixedNameChar(s[i])
    ensures SafeName(LowerAscii(s))
  {
    var r := LowerAscii(s);
    forall i | 0 <= i < |r| ensures NameChar(r[i]) && (r[i] == '-' <==> s[i] == '-') {
      LowerNameChar(s[i]);
    }
    SameHyphens(r, s);
  }

  /** `sanitize_filename(title)`: cut at the site suffix, replace the characters a file name should
      not hold, collapse separators to single hyphens, strip hyphens at both ends, keep at most 100
      characters, fall back to `untitled-article`, and lower-case. */
  function SanitizeFilename(title: string): string {
    var trimmed := TrimmedName(title);
    var short := if |trimmed| > MaxNameLength then trimmed[..MaxNameLength] else trimmed;
    LowerAscii(if short == "" then FallbackName else short)
  }

  /** Every sanitised name is safe, whatever the title. */
  lemma SanitizedNameIsSafe(title: string)
    ensures SafeName(SanitizeFilename(title))
  {
    var trimmed := TrimmedName(title);
    var short := if |trimmed| > MaxNameLength then trimmed[..MaxNameLength] else trimmed;
    SliceNoDoubleHyphen(trimmed, 0, |short|);
    if short == "" {
      FallbackIsSafe();
      FallbackIsLower();
    } else {
      LowerKeepsName(short);
    }
  }

  /** A name without spaces never holds the site suffix. */
  lemma NoSuffixInName(s: string)
    requires forall i :: 0 <= i < |s| ==> MixedNameChar(s[i])
    ensures Before(s, TempoSuffix) == s
  {
    assert TempoSuffix[0] == ' ';
    forall i | 0 <= i <= |s| ensures !OccursAt(s, TempoSuffix, i) {
      NotOccursAt(s, TempoSuffix, i, 0);
    }
  }

  /** The rest of a name of kept characters with single hyphens is one too. */
  lemma NameTail(s: string)
    requires s != [] && NoDoubleHyphen(s)
    requires forall i :: 0 <= i < |s| ==> MixedNameChar(s[i])
    ensures NoDoubleHyphen(s[1..])
    ensures forall i :: 0 <= i < |s[1..]| ==> MixedNameChar(s[1..][i])
  {
    SliceNoDoubleHyphen(s, 1, |s|);
  }

  /** The collapse keeps the first character of such a name and goes on with the rest: a hyphen
      there is a run of one separator. */
  lemma CollapseNameHead(s: string)
    requires s != [] && MixedNameChar(s[0])
    requires |s| > 1 ==> MixedNameChar(s[1]) && !(s[0] == '-' && s[1] == '-')
    ensures CollapseSeparators(s) == [s[0]] + CollapseSeparators(s[1..])
  {
    if IsSeparator(s[0]) {
      LeadingRunIs(s, IsSeparator, 1);
      CollapseLoneSeparator(s);
    } else {
      CollapseOther(s);
    }
  }

  lemma CollapseOther(s: string)
    requires s != [] && !IsSeparator(s[0])
    ensures CollapseSeparators(s) == [s[0]] + CollapseSeparators(s[1..])
  {
  }

  lemma CollapseLoneSeparator(s: string)
    requires s != [] && IsSeparator(s[0]) && LeadingRun(s, IsSeparator) == 1
    ensures CollapseSeparators(s) == ['-'] + CollapseSeparators(s[1..])
  {
  }

  /** Single hyphens between other kept characters are what the collapse leaves alone. */
  lemma {:induction false} CollapseSingleHyphens(s: string)
    requires forall i :: 0 <= i < |s| ==> MixedNameChar(s[i])
    requires NoDoubleHyphen(s)
    ensures CollapseSeparators(s) == s
    decreases |s|
  {
    if s != [] {
      NameTail(s);
      CollapseSingleHyphens(s[1..]);
      CollapseNameHead(s);
      assert s == [s[0]] + s[1..];
    }
  }

  /** A name of kept characters with single inner hyphens is its own trimmed form. */
  lemma TrimmedFixedPoint(s: string)
    requires forall i :: 0 <= i < |s| ==> MixedNameChar(s[i])
    requires NoDoubleHyphen(s) && (s == [] || (s[0] != '-' && s[|s| - 1] != '-'))
    ensures TrimmedName(s) == s
  {
    NoSuffixInName(s);
    assert forall i :: 0 <= i < |s| ==> KeptInName(s[i]);
    assert MaskName(s) == s;
    CollapseSingleHyphens(s);
    StripCharTrimmed(s, '-');
  }

  /** A safe name that does not end in a hyphen comes out of the sanitiser unchanged. */
  lemma SanitizedFixedPoint(s: string)
    requires SafeName(s) && s[|s| - 1] != '-'
    ensures SanitizeFilename(s) == s
  {
    SafeNameChars(s);
    TrimmedFixedPoint(s);
    LowerOfLower(s);
  }

  /** The characters of a safe name are those of a name before lower-casing, and none is an
      upper-case letter. */
  lemma SafeNameChars(s: string)
    requires forall i :: 0 <= i < |s| ==> NameChar(s[i])
    ensures forall i :: 0 <= i < |s| ==> MixedNameChar(s[i]) && !('A' <= s[i] <= 'Z')
  {
  }

  /** A title that the 100-character cut leaves alone gives its trimmed form, lower-cased. */
  lemma SanitizeUncut(title: string)
    requires |TrimmedName(title)| <= MaxNameLength
    ensures var t := TrimmedName(title);
            SanitizeFilename(title) == LowerAscii(if t == [] then FallbackName else t)
  {
  }

  /** Lower-casing never makes a hyphen. */
  lemma LowerKeepsNonHyphen(t: string, k: nat)
    requires k < |t| && t[k] != '-'
    ensures LowerAscii(t)[k] != '-'
  {
  }

  /** A sanitised name can end in a hyphen only when the 100-character cut fell right after one. */
  lemma UncutNameEndsClean(title: string)
    requires |TrimmedName(title)| <= MaxNameLength
    ensures var n := SanitizeFilename(title); |n| > 0 && n[|n| - 1] != '-'
  {
    var t := TrimmedName(title);
    SanitizeUncut(title);
    if t == [] {
      FallbackLetters();
      LowerKeepsNonHyphen(FallbackName, 15);
    } else {
      LowerKeepsNonHyphen(t, |t| - 1);
    }
  }

  /** Sanitising an uncut name again changes nothing. */
  lemma SanitizeIdempotent(title: string)
    requires |TrimmedName(title)| <= MaxNameLength
    ensures SanitizeFilename(SanitizeFilename(title)) == SanitizeFilename(title)
  {
    SanitizedNameIsSafe(title);
    UncutNameEndsClean(title);
    SanitizedFixedPoint(SanitizeFilename(title));
  }

  /** Nothing from the first site suffix on has any bearing on the name. */
  lemma SuffixIsIgnored(title: string)
    ensures SanitizeFilename(title) == SanitizeFilename(Before(title, TempoSuffix))
  {
    var cut := Before(title, TempoSuffix);
    assert Before(cut, TempoSuffix) == cut;
  }

  // ---------------------------------------------------------------------------------------------
  // Reading a loaded article

  /** What the converter uses of one loaded article, with the `.get` defaults already applied.
      `title` stays absent when the metadata has none, since its default depends on where it is read;
      `tags` are the loaded values as they are, since a tag that is not a string is skipped. */
  datatype Record = Record(
    category: string,
    publicationDate: string,
    publicationTime: string,
    isFree: bool,
    url: string,
    title: Option<string>,
    tags: seq<Json>,
    content: seq<string>)

  /** `members.get(key, default)` of a value used as a string; `None` when it is another value. */
  function StringField(members: seq<(string, Json)>, key: string, default: string): (r: Option<string>)
    ensures Get(members, key).None? ==> r == Some(default)
    ensures Get(members, key).Some? ==> (r.Some? <==> Get(members, key).value.JStr?)
    ensures r.Some? && Get(members, key).Some? ==> Get(members, key).value == JStr(r.value)
  {
    match Get(members, key)
    case None => Some(default)
    case Some(JStr(s)) => Some(s)
    case Some(_) => None
  }

  /** The record one loaded list item describes, or `None` when converting it raises (the item or
      its metadata is not an object, a field used as a string is some other value, the tags or the
      content are not a list, or a paragraph is not a string). */
  function ReadRecord(item: Json): (r: Option<Record>)
    ensures r.Some? ==> item.JObject?
  {
    if !item.JObject? then None
    else
      var metadata := Get(item.members, "metadata").GetOr(JObject([]));
      if !metadata.JObject? then None
      else
        var ms := metadata.members;
        var category := StringField(ms, "category", "");
        var date := StringField(ms, "publication_date", "");
        var time := StringField(ms, "publication_time", "");
        var url := StringField(ms, "url", "");
        var title := Get(ms, "title");
        var isFree := PyTruth(Get(ms, "is_free").GetOr(JBool(true)));
        var tags := Get(item.members, "tags").GetOr(JArray([]));
        var content := Get(item.members, "content").GetOr(JArray([]));
        var paragraphs := if content.JArray? then FileHandler.ReadStrings(content.items) else None;
        if category.None? || date.None? || time.None? || url.None?
           || (title.Some? && !title.value.JStr?) || !tags.JArray? || paragraphs.None?
        then None
        else Some(Record(category.value, date.value, time.value, isFree, url.value,
                         if title.Some? then Some(title.value.s) else None, tags.items, paragraphs.value))
  }

  /** The record of an article as the scraper saved it. */
  function RecordOf(a: Article): Record {
    Record(a.metadata.category, a.metadata.publicationDate, a.metadata.publicationTime, a.metadata.isFree,
           a.metadata.url, Some(a.metadata.title), FileHandler.StringsJson(a.tags), a.content)
  }

  /** Every record the scraper writes is read back with all its fields. */
  lemma SavedArticleIsRead(a: Article)
    ensures ReadRecord(FileHandler.ArticleJson(a)) == Some(RecordOf(a))
  {
    FileHandler.ArticleFields(a);
    FileHandler.MetadataFields(a.metadata);
    FileHandler.StringsRoundTrip(a.content);
  }

  /** An empty object is an article with every default: no category, dates, tags, URL or
      paragraphs, free, and without a title. */
  lemma EmptyObjectTakesDefaults()
    ensures ReadRecord(JObject([])) == Some(Record("", "", "", true, "", None, [], []))
  {
  }

  // ---------------------------------------------------------------------------------------------
  // format_metadata

  /** The characters `[a-zA-Z0-9_-]` a tag keeps. */
  predicate TagChar(c: char) {
    IsAsciiLetter(c) || IsAsciiDigit(c) || c == '_' || c == '-'
  }

  /** `re.sub(r'[^a-zA-Z0-9_-]', '', tag)`: the tag's letters, digits, underscores and hyphens,
      in order; a tag made only of those is kept whole. */
  function CleanTag(s: string): (r: string)
    ensures |r| <= |s|
    ensures forall i :: 0 <= i < |r| ==> TagChar(r[i])
    ensures (forall i :: 0 <= i < |s| ==> TagChar(s[i])) ==> r == s
  {
    if s == [] then [] else (if TagChar(s[0]) then [s[0]] else []) + CleanTag(s[1..])
  }

  /** A tag without any kept character cleans to nothing. */
  lemma {:induction false} CleanTagOfNothing(s: string)
    requires forall i :: 0 <= i < |s| ==> !TagChar(s[i])
    ensures CleanTag(s) == []
  {
    if s != [] {
      CleanTagOfNothing(s[1..]);
    }
  }

  /** A blank tag cleans to nothing, so the blank check never decides anything on its own. */
  lemma BlankTagCleansToNothing(s: string)
    requires Strip(s) == ""
    ensures CleanTag(s) == []
  {
    var a := LeadingRun(s, IsSpace);
    assert forall i :: 0 <= i < |s| ==> IsSpace(s[i]);
    CleanTagOfNothing(s);
  }

  /** The header entry one loaded tag contributes: `#` and the cleaned tag, for a string that is
      neither blank nor empty once cleaned. */
  function TagEntry(tag: Json): (e: Option<string>)
    ensures e.Some? <==> tag.JStr? && CleanTag(tag.s) != ""
    ensures e.Some? ==> e.value == "#" + CleanTag(tag.s)
  {
    if tag.JStr? && Strip(tag.s) != "" then
      var clean := CleanTag(tag.s);
      if clean != "" then Some("#" + clean) else None
    else
      assert tag.JStr? ==> CleanTag(tag.s) == "" by {
        if tag.JStr? { BlankTagCleansToNothing(tag.s); }
      }
      None
  }

  /** The tag that opens every tag list. */
  function AccessTag(isFree: bool): string {
    if isFree then "#free" else "#premium"
  }

  /** `tag_list`: the access tag, then the entries of the article's tags in order. */
  function TagList(r: Record): seq<string> {
    [AccessTag(r.isFree)] + FilterMap(r.tags, TagEntry)
  }

  /** The URL shown in the header: a premium article's URL without a scheme is made absolute. */
  function DisplayUrl(r: Record): string {
    if !r.isFree && r.url != "" && !StartsWith(r.url, "http") then PremiumOrigin + r.url else r.url
  }

  /** The shown URL keeps the stored one and only ever prefixes it; it differs exactly for a
      premium, non-empty link that does not start with "http", and every premium link shown at
      all is an http URL. */
  lemma DisplayUrlRule(r: Record)
    ensures var u := DisplayUrl(r);
            && |r.url| <= |u| && u[|u| - |r.url|..] == r.url
            && (u != r.url <==> !r.isFree && r.url != "" && !StartsWith(r.url, "http"))
            && (!r.isFree && u != "" ==> StartsWith(u, "http"))
            && (u == "" <==> r.url == "")
  {
    var u := DisplayUrl(r);
    if u != r.url {
      assert u == PremiumOrigin + r.url;
      assert u[..4] == PremiumOrigin[..4] == "http";
    }
  }

  /** The `Published at` value: the date with slashes, a space and the time, when both are given. */
  function PublishedAt(r: Record): string {
    if r.publicationDate != "" && r.publicationTime != "" then
      ReplaceChar(r.publicationDate, '-', '/') + " " + r.publicationTime
    else ""
  }

  function HeaderLines(r: Record): seq<string> {
    ["Category: " + r.category, "Published at: " + PublishedAt(r), "Tags: " + Join(TagList(r), " "),
     "URL: " + DisplayUrl(r)]
  }

  /** `format_metadata(article)`. */
  function Header(r: Record): string {
    Join(HeaderLines(r), "\n")
  }

  /** `format_metadata`, with its loop over the tags. */
  method FormatMetadata(r: Record) returns (header: string)
    ensures header == Header(r)
  {
    var url := r.url;
    if !r.isFree && url != "" && !StartsWith(url, "http") {
      url := PremiumOrigin + url;
    }
    var publishedAt := "";
    if r.publicationDate != "" && r.publicationTime != "" {
      var formattedDate := ReplaceChar(r.publicationDate, '-', '/');
      publishedAt := formattedDate + " " + r.publicationTime;
    }
    assert url == DisplayUrl(r) && publishedAt == PublishedAt(r);
    var tagList := BuildTagList(r.isFree, r.tags);
    var tagsStr := Join(tagList, " ");
    header := Join(["Category: " + r.category, "Published at: " + publishedAt, "Tags: " + tagsStr,
                    "URL: " + url], "\n");
  }

  /** The tag loop of `format_metadata`: the access tag first, then `#` and the cleaned text of
      every string tag that is neither blank nor empty once cleaned. */
  method BuildTagList(isFree: bool, tags: seq<Json>) returns (tagList: seq<string>)
    ensures tagList == [AccessTag(isFree)] + FilterMap(tags, TagEntry)
  {
    tagList := [if isFree then "#free" else "#premium"];
    for i := 0 to |tags|
      invariant tagList == [AccessTag(isFree)] + FilterMap(tags[..i], TagEntry)
    {
      var tag := tags[i];
      TagStep(isFree, tags, i);
      if tag.JStr? && Strip(tag.s) != "" {
        var cleanTag := CleanTag(tag.s);
        if cleanTag != "" {
          tagList := tagList + ["#" + cleanTag];
        }
      }
    }
    assert tags[..|tags|] == tags;
  }

  lemma TagStep(isFree: bool, tags: seq<Json>, i: nat)
    requires i < |tags|
    ensures var e := TagEntry(tags[i]);
            [AccessTag(isFree)] + FilterMap(tags[..i + 1], TagEntry)
            == [AccessTag(isFree)] + FilterMap(tags[..i], TagEntry) + (if e.Some? then [e.value] else [])
  {
    assert tags[..i + 1] == tags[..i] + [tags[i]];
    FilterMapSnoc(tags[..i], tags[i], TagEntry);
  }

  /** The tag list opens with `#free` or `#premium`; every other entry is `#` and at least one
      kept character; and every string tag with a kept character has its entry. */
  lemma TagListShape(r: Record)
    ensures var tl := TagList(r);
            && tl[0] == AccessTag(r.isFree)
            && (forall k :: 1 <= k < |tl| ==>
                  (|tl[k]| >= 2 && tl[k][0] == '#' && forall j :: 1 <= j < |tl[k]| ==> TagChar(tl[k][j])))
            && forall t :: t in r.tags && t.JStr? && CleanTag(t.s) != "" ==> "#" + CleanTag(t.s) in tl
  {
    var tl := TagList(r);
    var entries := FilterMap(r.tags, TagEntry);
    FilterMapMembers(r.tags, TagEntry);
    forall k | 1 <= k < |tl|
      ensures |tl[k]| >= 2 && tl[k][0] == '#' && forall j :: 1 <= j < |tl[k]| ==> TagChar(tl[k][j])
    {
      assert tl[k] == entries[k - 1];
      assert tl[k] in entries;
      var t :| t in r.tags && TagEntry(t) == Some(tl[k]);
      assert tl[k] == "#" + CleanTag(t.s);
    }
  }

  /** `Published at` is empty exactly when the date or the time is; otherwise it is the date with
      every hyphen turned into a slash, a space and the time. */
  lemma PublishedAtShape(r: Record)
    ensures PublishedAt(r) == "" <==> r.publicationDate == "" || r.publicationTime == ""
    ensures PublishedAt(r) != "" ==>
              var p, d := PublishedAt(r), r.publicationDate;
              && |p| == |d| + 1 + |r.publicationTime|
              && (forall i :: 0 <= i < |d| ==> p[i] != '-' && (d[i] != '-' ==> p[i] == d[i]))
              && p[|d|] == ' ' && p[|d| + 1..] == r.publicationTime
  {
  }

  /** With no line break in the fields it shows, the header is exactly four lines, in the order
      `Category`, `Published at`, `Tags`, `URL`. */
  lemma HeaderHasFourLines(r: Record)
    requires '\n' !in r.category && '\n' !in r.publicationDate && '\n' !in r.publicationTime && '\n' !in r.url
    ensures Split(Header(r), "\n") == HeaderLines(r)
  {
    var tl := TagList(r);
    TagListShape(r);
    forall k | 0 <= k < |tl| ensures '\n' !in tl[k] {
      if k == 0 {
        assert tl[0] == "#free" || tl[0] == "#premium";
      }
    }
    JoinAvoids(tl, " ", '\n');
    assert '\n' !in PublishedAt(r);
    assert '\n' !in DisplayUrl(r);
    SplitJoinChar(HeaderLines(r), '\n');
  }

  // ---------------------------------------------------------------------------------------------
  // create_markdown_content

  /** The line a paragraph contributes: its stripped text, unless that is empty. */
  function ParagraphLine(p: string): Option<string> {
    if Strip(p) != "" then Some(Strip(p)) else None
  }

  /** The lines one paragraph contributes: its stripped text and an empty line, or nothing. */
  function ParagraphLines(p: string): seq<string> {
    match ParagraphLine(p)
    case Some(line) => [line, ""]
    case None => []
  }

  /** The lines after the heading: each kept paragraph followed by an empty line, in order. */
  function BodyLines(ps: seq<string>): seq<string> {
    if ps == [] then [] else BodyLines(ps[..|ps| - 1]) + ParagraphLines(ps[|ps| - 1])
  }

  lemma BodyLinesStep(ps: seq<string>, i: nat)
    requires i < |ps|
    ensures BodyLines(ps[..i + 1]) == BodyLines(ps[..i]) + ParagraphLines(ps[i])
  {
    assert ps[..i + 1][..i] == ps[..i];
  }

  /** The heading text: the title up to the first site suffix when it has one, else the title. */
  function CleanTitle(title: string): (t: string)
    ensures !Contains(t, TempoSuffix) && StartsWith(title, t)
    ensures !Contains(title, TempoSuffix) ==> t == title
    // the cut is at the first occurrence of the suffix
    ensures Contains(title, TempoSuffix) ==> OccursAt(title, TempoSuffix, |t|)
  {
    Before(title, TempoSuffix)
  }

  function MarkdownLines(r: Record): seq<string> {
    [Header(r), "", "# " + CleanTitle(r.title.GetOr(UntitledTitle)), ""] + BodyLines(r.content)
  }

  /** `create_markdown_content(article)`. */
  function Markdown(r: Record): string {
    Join(MarkdownLines(r), "\n")
  }

  /** `create_markdown_content`. */
  method CreateMarkdownContent(r: Record) returns (md: string)
    ensures md == Markdown(r)
  {
    var metadata := FormatMetadata(r);
    var title := r.title.GetOr(UntitledTitle);
    var cleanTitle := CleanTitle(title);
    var mdContent := [metadata, "", "# " + cleanTitle, ""];
    mdContent := AppendParagraphs(mdContent, r.content);
    md := Join(mdContent, "\n");
  }

  /** The paragraph loop of `create_markdown_content`: each non-blank paragraph, stripped, and an
      empty line after it. */
  method AppendParagraphs(lines: seq<string>, paragraphs: seq<string>) returns (mdContent: seq<string>)
    ensures mdContent == lines + BodyLines(paragraphs)
  {
    mdContent := lines;
    for i := 0 to |paragraphs|
      invariant mdContent == lines + BodyLines(paragraphs[..i])
    {
      var paragraph := paragraphs[i];
      BodyLinesStep(paragraphs, i);
      var line := ParagraphLine(paragraph);  // `paragraph.strip()`, when that is not empty
      if line.Some? {
        AppendPair(lines, BodyLines(paragraphs[..i]), line.value, "");
        mdContent := mdContent + [line.value];
        mdContent := mdContent + [""];
      }
    }
    assert paragraphs[..|paragraphs|] == paragraphs;
  }

  /** The body holds each kept paragraph at an even position and an empty line right after it, and
      nothing else. */
  lemma {:induction false} BodyInterleaves(ps: seq<string>)
    ensures var body, kept := BodyLines(ps), FilterMap(ps, ParagraphLine);
            && |body| == 2 * |kept|
            && forall k :: 0 <= k < |kept| ==> body[2 * k] == kept[k] && body[2 * k + 1] == ""
  {
    if ps != [] {
      var front, last := ps[..|ps| - 1], ps[|ps| - 1];
      assert ps == front + [last];
      BodyInterleaves(front);
      FilterMapSnoc(front, last, ParagraphLine);
    }
  }

  /** A kept paragraph is never empty and has no whitespace at either end. */
  lemma KeptParagraphsAreClean(ps: seq<string>)
    ensures forall line :: line in FilterMap(ps, ParagraphLine) ==> line != "" && Strip(line) == line
  {
    FilterMapMembers(ps, ParagraphLine);
    forall line | line in FilterMap(ps, ParagraphLine) ensures line != "" && Strip(line) == line {
      var p :| p in ps && ParagraphLine(p) == Some(line);
      StripTrimmed(line);
    }
  }

  /** Lines in front of an interleaved body move each kept line and its empty line along. */
  lemma ShiftedInterleave(head: seq<string>, body: seq<string>, kept: seq<string>)
    requires |body| == 2 * |kept|
    requires forall k :: 0 <= k < |kept| ==> body[2 * k] == kept[k] && body[2 * k + 1] == ""
    ensures var lines := head + body;
            && |lines| == |head| + 2 * |kept|
            && forall k :: 0 <= k < |kept| ==> lines[|head| + 2 * k] == kept[k] && lines[|head| + 2 * k + 1] == ""
  {
  }

  /** The document is the header, an empty line, the heading, an empty line, and then each kept
      paragraph followed by an empty line. */
  lemma MarkdownLayout(r: Record)
    ensures var lines, kept := MarkdownLines(r), FilterMap(r.content, ParagraphLine);
            && |lines| == 4 + 2 * |kept|
            && lines[0] == Header(r) && lines[1] == "" && lines[3] == ""
            && lines[2] == "# " + CleanTitle(r.title.GetOr(UntitledTitle))
            && forall k :: 0 <= k < |kept| ==> lines[4 + 2 * k] == kept[k] && lines[5 + 2 * k] == ""
  {
    BodyInterleaves(r.content);
    var head := [Header(r), "", "# " + CleanTitle(r.title.GetOr(UntitledTitle)), ""];
    ShiftedInterleave(head, BodyLines(r.content), FilterMap(r.content, ParagraphLine));
  }

  // ---------------------------------------------------------------------------------------------
  // The duplicate-name loop of process_json_file

  /** The `k`-th name tried for `base`: `base.md`, then `base-1.md`, `base-2.md`, ... */
  function Candidate(base: string, k: nat): string {
    if k == 0 then base + ".md" else base + "-" + NatToString(k) + ".md"
  }

  /** Different attempts try different names. */
  lemma CandidateInjective(base: string, j: nat, k: nat)
    requires Candidate(base, j) == Candidate(base, k)
    ensures j == k
  {
    var cj, ck := Candidate(base, j), Candidate(base, k);
    if j != 0 && k != 0 {
      var n := |base| + 1;
      assert cj[n..|cj| - 3] == NatToString(j);
      assert ck[n..|ck| - 3] == NatToString(k);
      NatToStringInjective(j, k);
    } else {
      assert |cj| == |ck|;
    }
  }

  /** The first attempt from `k` on whose name is not taken. Each taken name that is passed over is
      dropped from `taken`, which is what makes the search end. */
  function FreeFrom(base: string, taken: set<string>, k: nat): nat
    decreases |taken|
  {
    if Candidate(base, k) !in taken then k else FreeFrom(base, taken - {Candidate(base, k)}, k + 1)
  }

  /** The search stops at the first free name after no more than one attempt per taken name. */
  lemma {:induction false} FreeFromIsFirst(base: string, taken: set<string>, k: nat)
    ensures var n := FreeFrom(base, taken, k);
            && k <= n <= k + |taken|
            && Candidate(base, n) !in taken
            && forall j :: k <= j < n ==> Candidate(base, j) in taken
    decreases |taken|
  {
    var c := Candidate(base, k);
    if c in taken {
      var rest := taken - {c};
      FreeFromIsFirst(base, rest, k + 1);
      var n := FreeFrom(base, rest, k + 1);
      if Candidate(base, n) == c {
        CandidateInjective(base, n, k);
      }
    }
  }

  /** The name the loop settles on. */
  function FirstFreeName(base: string, taken: set<string>): string {
    Candidate(base, FreeFrom(base, taken, 0))
  }

  /** The duplicate-name `while` loop: `base.md`, or the first `base-<n>.md` not in the directory. */
  method UniqueFilename(base: string, existing: set<string>) returns (filename: string)
    ensures filename == FirstFreeName(base, existing)
    ensures filename !in existing
  {
    ghost var n := FreeFrom(base, existing, 0);
    FreeFromIsFirst(base, existing, 0);
    filename := base + ".md";
    var originalFilename := filename;
    var counter := 1;
    while filename in existing
      invariant 1 <= counter <= n + 1
      invariant filename == Candidate(base, counter - 1)
      decreases n - (counter - 1)
    {
      var nameWithoutExt := originalFilename[..|originalFilename| - 3];
      assert nameWithoutExt == base;
      filename := nameWithoutExt + "-" + NatToString(counter) + ".md";
      counter := counter + 1;
    }
  }

  /** The loop's name is new, and every name it passed over was taken. */
  lemma FirstFreeNameIsFirst(base: string, taken: set<string>)
    ensures FirstFreeName(base, taken) !in taken
    ensures forall k: nat :: Candidate(base, k) == FirstFreeName(base, taken) ==>
              forall j :: 0 <= j < k ==> Candidate(base, j) in taken
  {
    FreeFromIsFirst(base, taken, 0);
    var n := FreeFrom(base, taken, 0);
    forall k: nat | Candidate(base, k) == FirstFreeName(base, taken)
      ensures forall j :: 0 <= j < k ==> Candidate(base, j) in taken
    {
      CandidateInjective(base, k, n);
    }
  }

  // ---------------------------------------------------------------------------------------------
  // process_json_file and the file list of main

  /** A Markdown file written to the category directory: its name and its text. */
  datatype MarkdownFile = MarkdownFile(name: string, text: string)

  /** The names of the files written so far. */
  function Names(files: seq<MarkdownFile>): (names: set<string>)
    ensures forall i :: 0 <= i < |files| ==> files[i].name in names
    ensures forall x :: x in names ==> exists i :: 0 <= i < |files| && files[i].name == x
  {
    if files == [] then {}
    else
      var front := files[..|files| - 1];
      assert forall i :: 0 <= i < |front| ==> front[i] == files[i];
      Names(front) + {files[|files| - 1].name}
  }

  lemma NamesSnoc(files: seq<MarkdownFile>, f: MarkdownFile)
    ensures Names(files + [f]) == Names(files) + {f.name}
  {
    assert (files + [f])[..|files|] == files;
  }

  /** The title a file name is made from: the metadata title, or `article-<index>`. */
  function FileTitle(r: Record, index: nat): string {
    r.title.GetOr("article-" + NatToString(index))
  }

  /** The file the `index`-th list item adds to a directory already holding `taken`, unless
      converting it raises. */
  function ItemFile(item: Json, index: nat, taken: set<string>): Option<MarkdownFile> {
    match ReadRecord(item)
    case None => None
    case Some(r) => Some(MarkdownFile(FirstFreeName(SanitizeFilename(FileTitle(r, index)), taken), Markdown(r)))
  }

  lemma ItemFileOf(item: Json, index: nat, taken: set<string>)
    ensures ReadRecord(item).None? ==> ItemFile(item, index, taken).None?
    ensures ReadRecord(item).Some? ==>
              var r := ReadRecord(item).value;
              ItemFile(item, index, taken) == Some(MarkdownFile(
                FirstFreeName(SanitizeFilename(r.title.GetOr("article-" + NatToString(index))), taken), Markdown(r)))
  {
  }

  /** The files the conversion loop writes for `items` into a directory holding `existing`, in
      order: each item sees the names written before it. */
  function Converted(items: seq<Json>, existing: set<string>): seq<MarkdownFile> {
    if items == [] then []
    else
      var front := Converted(items[..|items| - 1], existing);
      match ItemFile(items[|items| - 1], |items| - 1, existing + Names(front))
      case None => front
      case Some(f) => front + [f]
  }

  lemma ConvertedStep(items: seq<Json>, i: nat, existing: set<string>)
    requires i < |items|
    ensures var front := Converted(items[..i], existing);
            var f := ItemFile(items[i], i, existing + Names(front));
            Converted(items[..i + 1], existing) == front + (if f.Some? then [f.value] else [])
  {
    assert items[..i + 1][..i] == items[..i];
  }

  /** The body of the conversion loop for the `index`-th item: the file it writes into a directory
      holding `directory`, or nothing when reading the item raises. */
  method ConvertItem(article: Json, index: nat, directory: set<string>) returns (file: Option<MarkdownFile>)
    ensures file == ItemFile(article, index, directory)
    ensures file.Some? ==> file.value.name !in directory
  {
    ItemFileOf(article, index, directory);
    var record := ReadRecord(article);
    if record.None? {
      return None;
    }
    var mdContent := CreateMarkdownContent(record.value);
    var title := record.value.title.GetOr("article-" + NatToString(index));
    var filename := UniqueFilename(SanitizeFilename(title), directory);
    file := Some(MarkdownFile(filename, mdContent));
  }

  /** The `for i, article in enumerate(articles)` loop of `process_json_file`: an item whose
      conversion raises is skipped, every other one is written under a name not yet in the
      directory and counted. */
  method ConvertArticles(items: seq<Json>, existing: set<string>) returns (articleCount: nat, written: seq<MarkdownFile>)
    ensures written == Converted(items, existing)
    ensures articleCount == |written|
  {
    var directory := existing;
    written := [];
    articleCount := 0;
    for i := 0 to |items|
      invariant written == Converted(items[..i], existing)
      invariant directory == existing + Names(written)
      invariant articleCount == |written|
    {
      ConvertedStep(items, i, existing);
      var file := ConvertItem(items[i], i, directory);
      if file.None? {
        continue;
      }
      NamesSnoc(written, file.value);
      written := written + [file.value];
      directory := directory + {file.value.name};
      articleCount := articleCount + 1;
    }
    assert items[..|items|] == items;
  }

  /** `process_json_file` on what `json.load` gave (`None` when the file could not be read): the
      articles are the list under the file's own category name. */
  method ProcessJsonFile(data: Option<Json>, category: string, existing: set<string>)
    returns (r: Result<nat>, written: seq<MarkdownFile>)
    ensures data.None? ==> r == Ok(0) && written == []
    ensures data.Some? && !data.value.JObject? ==> r == Err(AttributeError) && written == []
    ensures data.Some? && data.value.JObject? ==>
              var articles := Get(data.value.members, category).GetOr(JArray([]));
              && (articles.JArray? ==> written == Converted(articles.items, existing))
              && (!articles.JArray? ==> written == [])
              && r == Ok(|written|)
  {
    if data.None? {
      return Ok(0), [];
    }
    var d := data.value;
    if !d.JObject? {
      return Err(AttributeError), [];
    }
    var articles := Get(d.members, category).GetOr(JArray([]));
    if !articles.JArray? {
      return Ok(0), [];
    }
    var articleCount;
    articleCount, written := ConvertArticles(articles.items, existing);
    r := Ok(articleCount);
  }

  /** No file overwrites one that was there or one written before it, and one file is written per
      item that converts. */
  lemma {:induction false} ConvertedNamesAreFresh(items: seq<Json>, existing: set<string>)
    ensures var files := Converted(items, existing);
            && |files| == |FilterMap(items, ReadRecord)|
            && (forall i :: 0 <= i < |files| ==> files[i].name !in existing)
            && (forall i, j :: 0 <= i < j < |files| ==> files[i].name != files[j].name)
  {
    if items != [] {
      var front, last := items[..|items| - 1], items[|items| - 1];
      assert items == front + [last];
      FilterMapSnoc(front, last, ReadRecord);
      ConvertedNamesAreFresh(front, existing);
      var done := Converted(front, existing);
      var f := ItemFile(last, |items| - 1, existing + Names(done));
      if f.Some? {
        var r := ReadRecord(last).value;
        FirstFreeNameIsFirst(SanitizeFilename(FileTitle(r, |items| - 1)), existing + Names(done));
        assert f.value.name !in existing + Names(done);
      }
    }
  }

  /** A file holds the Markdown of an item of `items` that converts, under a name tried for its
      title. */
  ghost predicate FileFromItem(f: MarkdownFile, items: seq<Json>) {
    exists i, k: nat :: 0 <= i < |items| && ReadRecord(items[i]).Some?
      && f.text == Markdown(ReadRecord(items[i]).value)
      && f.name == Candidate(SanitizeFilename(FileTitle(ReadRecord(items[i]).value, i)), k)
  }

  lemma FileFromPrefix(f: MarkdownFile, items: seq<Json>, n: nat)
    requires n <= |items| && FileFromItem(f, items[..n])
    ensures FileFromItem(f, items)
  {
    var i, k: nat :| 0 <= i < n && ReadRecord(items[..n][i]).Some?
      && f.text == Markdown(ReadRecord(items[..n][i]).value)
      && f.name == Candidate(SanitizeFilename(FileTitle(ReadRecord(items[..n][i]).value, i)), k);
    assert items[..n][i] == items[i];
  }

  lemma FileFromLast(f: MarkdownFile, items: seq<Json>, taken: set<string>)
    requires items != [] && ItemFile(items[|items| - 1], |items| - 1, taken) == Some(f)
    ensures FileFromItem(f, items)
  {
    var i := |items| - 1;
    var base := SanitizeFilename(FileTitle(ReadRecord(items[i]).value, i));
    var k := FreeFrom(base, taken, 0);
    assert f.name == Candidate(base, k);
  }

  /** Every written file holds the Markdown of a converted item under a name tried for its title. */
  lemma {:induction false} ConvertedFilesComeFromItems(items: seq<Json>, existing: set<string>)
    ensures forall f :: f in Converted(items, existing) ==> FileFromItem(f, items)
  {
    if items != [] {
      var n := |items| - 1;
      var done := Converted(items[..n], existing);
      ConvertedFilesComeFromItems(items[..n], existing);
      ConvertedStep(items, n, existing);
      assert items[..n + 1] == items;
      forall f | f in Converted(items, existing) ensures FileFromItem(f, items) {
        if f in done {
          FileFromPrefix(f, items, n);
        } else {
          FileFromLast(f, items, existing + Names(done));
        }
      }
    }
  }

  /** `[f for f in files if f.name != "metadata.json"]`: the files of a directory to convert. */
  function JsonFilesToProcess(names: seq<string>): (r: seq<string>)
    ensures MetadataFile !in r
    ensures forall n :: n in r <==> n in names && n != MetadataFile
    ensures |r| <= |names|
  {
    if names == [] then []
    else
      var front := JsonFilesToProcess(names[..|names| - 1]);
      var last := names[|names| - 1];
      assert names == names[..|names| - 1] + [last];
      if last != MetadataFile then front + [last] else front
  }
}
