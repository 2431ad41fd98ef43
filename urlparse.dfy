/** The part of Python's `urllib.parse.urlparse` that decides a URL's path, as the CPython
    releases that strip leading control characters and spaces do it (3.9.17 and later 3.9
    releases, 3.10.12 and later 3.10 releases): leading control characters and spaces dropped,
    tabs and newlines removed, the scheme, the network location, the fragment, the query and the
    `;params` of the last segment split off. Releases from 3.11.4 on also test bracketed hosts
    (`_check_bracketed_netloc`), which is not part of this model. */
module UrlParse {
  import opened Wrappers
  import opened Text

  /** `_WHATWG_C0_CONTROL_OR_SPACE`: what `urlsplit` strips from the left of a URL. */
  predicate IsC0OrSpace(c: char) { c <= ' ' }

  /** `_UNSAFE_URL_BYTES_TO_REMOVE`: tab, carriage return and line feed, deleted anywhere. */
  predicate IsUnsafe(c: char) { c == '\t' || c == '\r' || c == '\n' }

  /** `scheme_chars`. */
  predicate IsSchemeChar(c: char) {
    IsAsciiLetter(c) || IsAsciiDigit(c) || c == '+' || c == '-' || c == '.'
  }

  /** The schemes whose last path segment may carry `;params` (`uses_params`). */
  const UsesParams: set<string> := {"", "ftp", "hdl", "prospero", "http", "imap", "https", "shttp",
                                    "rtsp", "rtsps", "rtspu", "sip", "sips", "mms", "sftp", "tel"}

  /** `urlsplit`'s result. */
  datatype SplitUrl = SplitUrl(scheme: string, netloc: string, path: string, query: string, fragment: string)

  function RemoveUnsafe(s: string): (r: string)
    ensures forall i :: 0 <= i < |r| ==> !IsUnsafe(r[i])
    ensures (forall i :: 0 <= i < |s| ==> !IsUnsafe(s[i])) ==> r == s
  {
    if s == [] then []
    else if IsUnsafe(s[0]) then RemoveUnsafe(s[1..])
    else [s[0]] + RemoveUnsafe(s[1..])
  }

  lemma {:induction false} RemoveUnsafeAppend(a: string, b: string)
    ensures RemoveUnsafe(a + b) == RemoveUnsafe(a) + RemoveUnsafe(b)
  {
    if a == [] {
      assert a + b == b;
    } else {
      assert (a + b)[0] == a[0] && (a + b)[1..] == a[1..] + b;
      RemoveUnsafeAppend(a[1..], b);
    }
  }

  /** A scheme is split off at the first ':' when what precedes it is a letter followed by scheme
      characters; the scheme is lower-cased. */
  function SchemeSplit(u: string): (r: (string, string))
    ensures r.0 == [] ==> r.1 == u
    ensures r.0 != [] ==> |r.0| < |u| && u == u[..|r.0|] + ":" + r.1 && ':' !in u[..|r.0|]
  {
    match FindCharFrom(u, ':', 0)
    case None => ("", u)
    case Some(i) =>
      if i > 0 && IsAsciiLetter(u[0]) && forall k :: 0 <= k < i ==> IsSchemeChar(u[k]) then
        assert u == u[..i] + ":" + u[i + 1..];
        (LowerAscii(u[..i]), u[i + 1..])
      else ("", u)
  }

  /** The first index from `start` holding '/', '?' or '#', or the length: the smallest of the three
      `find` results in `_splitnetloc`. */
  function Delimiter(u: string, start: nat): (d: nat)
    requires start <= |u|
    ensures start <= d <= |u|
    ensures forall k :: start <= k < d ==> u[k] !in "/?#"
    ensures d < |u| ==> u[d] in "/?#"
    decreases |u| - start
  {
    if start == |u| || u[start] in "/?#" then start else Delimiter(u, start + 1)
  }

  /** Everything before the first `c` and everything after it (`s.split(c, 1)`). */
  function SplitFirst(s: string, c: char): (r: (string, string))
    requires c in s
    ensures c !in r.0 && s == r.0 + [c] + r.1
  {
    var i := FindCharFrom(s, c, 0).value;
    assert s == s[..i] + [c] + s[i + 1..];
    (s[..i], s[i + 1..])
  }

  /** `urlsplit(url)`: `ValueError` when the network location has one square bracket without the other. */
  function UrlSplit(url: string): (r: Result<SplitUrl>)
    ensures r.Err? ==> r.error == ValueError
    ensures r.Ok? ==> '#' !in r.value.path && '?' !in r.value.path
  {
    var u := RemoveUnsafe(url[LeadingRun(url, IsC0OrSpace)..]);
    var (scheme, rest) := SchemeSplit(u);
    var (netloc, rest) :=
      if |rest| >= 2 && rest[..2] == "//" then
        var d := Delimiter(rest, 2);
        (rest[2..d], rest[d..])
      else ("", rest);
    if ('[' in netloc) != (']' in netloc) then Err(ValueError)
    else
      var (rest, fragment) := if '#' in rest then SplitFirst(rest, '#') else (rest, "");
      var (path, query) := if '?' in rest then SplitFirst(rest, '?') else (rest, "");
      Ok(SplitUrl(scheme, netloc, path, query, fragment))
  }

  /** `_splitparams(path)`: the `;params` of the last segment are cut off. */
  function SplitParams(path: string): (r: string)
    requires ';' in path
    ensures StartsWith(path, r)
    // everything up to the last '/' is kept, and no ';' is left after it
    ensures LastIndexOf(path, '/').Some? ==>
              var j := LastIndexOf(path, '/').value;
              j < |r| && forall k :: j <= k < |r| ==> r[k] != ';'
    // without a '/', the path ends before its first ';'
    ensures LastIndexOf(path, '/').None? ==> ';' !in r && path[|r|] == ';'
  {
    match LastIndexOf(path, '/')
    case Some(j) =>
      (match FindCharFrom(path, ';', j)
       case None => path
       case Some(i) => path[..i])
    case None => path[..FindCharFrom(path, ';', 0).value]
  }

  /** `urlparse(url).path`. */
  function UrlPath(url: string): (r: Result<string>)
    ensures r.Err? ==> r.error == ValueError
    ensures r.Ok? ==> '#' !in r.value && '?' !in r.value
  {
    match UrlSplit(url)
    case Err(e) => Err(e)
    case Ok(p) =>
      if p.scheme in UsesParams && ';' in p.path then
        var r := SplitParams(p.path);
        assert forall k :: 0 <= k < |r| ==> r[k] == p.path[k];
        Ok(r)
      else Ok(p.path)
  }
}
