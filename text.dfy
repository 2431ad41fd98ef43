/** The few Python `str` builtins the scraper relies on, stated over `seq<char>`. */
module Text {
  import opened Wrappers

  /** Python's `str.isspace()` on one character (the Unicode whitespace set CPython uses,
      which is also what `\s` matches in a `str` regular expression). */
  predicate IsSpace(c: char) {
    c == ' ' || ('\t' <= c <= '\r') || ('\U{1c}' <= c <= '\U{1f}')
    || c == '\U{85}' || c == '\U{a0}' || c == '\U{1680}'
    || ('\U{2000}' <= c <= '\U{200a}') || c == '\U{2028}' || c == '\U{2029}'
    || c == '\U{202f}' || c == '\U{205f}' || c == '\U{3000}'
  }

  predicate IsAsciiDigit(c: char) { '0' <= c <= '9' }

  predicate IsAsciiLetter(c: char) { 'a' <= c <= 'z' || 'A' <= c <= 'Z' }

  predicate StartsWith(s: string, prefix: string) {
    |prefix| <= |s| && s[..|prefix|] == prefix
  }

  /** `sep` occurs in `s` at position `i`. */
  predicate OccursAt(s: string, sep: string, i: int) {
    0 <= i && i + |sep| <= |s| && s[i..i + |sep|] == sep
  }

  /** Python's `sep in s`. */
  predicate Contains(s: string, sep: string) {
    exists i :: 0 <= i <= |s| && OccursAt(s, sep, i)
  }

  /** Length of the longest prefix of `s` whose characters all satisfy `p`. */
  function LeadingRun(s: string, p: char -> bool): (k: nat)
    ensures k <= |s|
    ensures forall i :: 0 <= i < k ==> p(s[i])
    ensures k == |s| || !p(s[k])
  {
    if s == [] || !p(s[0]) then 0 else 1 + LeadingRun(s[1..], p)
  }

  /** Length of the longest suffix of `s` whose characters all satisfy `p`. */
  function TrailingRun(s: string, p: char -> bool): (k: nat)
    ensures k <= |s|
    ensures forall i :: |s| - k <= i < |s| ==> p(s[i])
    ensures k == |s| || !p(s[|s| - 1 - k])
  {
    if s == [] || !p(s[|s| - 1]) then 0 else 1 + TrailingRun(s[..|s| - 1], p)
  }

  /** Python's `s.strip(chars)` where `p` tells which characters are in `chars`:
      the result is a slice of `s` that neither starts nor ends with such a character,
      and everything cut off on either side is one. */
  function StripWhere(s: string, p: char -> bool): (r: string)
    ensures |r| <= |s|
    ensures r == [] || (!p(r[0]) && !p(r[|r| - 1]))
    ensures var a := LeadingRun(s, p);
              a + |r| <= |s| && r == s[a..a + |r|] && forall i :: a + |r| <= i < |s| ==> p(s[i])
  {
    var a := LeadingRun(s, p);
    var t := s[a..];
    var b := TrailingRun(t, p);
    var r := t[..|t| - b];
    assert r == s[a..a + |r|];
    assert forall i :: a + |r| <= i < |s| ==> s[i] == t[i - a];
    r
  }

  /** Python's `s.strip()`. */
  function Strip(s: string): (r: string)
    ensures |r| <= |s|
    ensures r == [] || (!IsSpace(r[0]) && !IsSpace(r[|r| - 1]))
  {
    StripWhere(s, IsSpace)
  }

  /** Python's `s.strip(c)` for a single character `c`. */
  function StripChar(s: string, c: char): (r: string)
    ensures |r| <= |s|
    ensures r == [] || (r[0] != c && r[|r| - 1] != c)
  {
    StripWhere(s, x => x == c)
  }

  /** Python's `s.split()` without arguments: the maximal runs of non-whitespace, in order. */
  function Words(s: string): (ws: seq<string>)
    ensures forall i :: 0 <= i < |ws| ==> |ws[i]| > 0
    ensures forall i, j :: 0 <= i < |ws| && 0 <= j < |ws[i]| ==> !IsSpace(ws[i][j])
    decreases |s|
  {
    if s == [] then []
    else if IsSpace(s[0]) then Words(s[1..])
    else
      var n := LeadingRun(s, c => !IsSpace(c));
      [s[..n]] + Words(s[n..])
  }

  /** A string that neither starts nor ends with a stripped character is left as it is. */
  lemma StripWhereTrimmed(s: string, p: char -> bool)
    requires s == [] || (!p(s[0]) && !p(s[|s| - 1]))
    ensures StripWhere(s, p) == s
  {
    var r := StripWhere(s, p);
    if s != [] {
      LeadingRunIs(s, p, 0);
      assert s[0..] == s;
    }
  }

  /** A string that neither starts nor ends with `c` is its own `strip(c)`. */
  lemma StripCharTrimmed(s: string, c: char)
    requires s == [] || (s[0] != c && s[|s| - 1] != c)
    ensures StripChar(s, c) == s
  {
    StripWhereTrimmed(s, x => x == c);
  }

  /** A string that neither starts nor ends with whitespace is its own `strip()`. */
  lemma StripTrimmed(s: string)
    requires s == [] || (!IsSpace(s[0]) && !IsSpace(s[|s| - 1]))
    ensures Strip(s) == s
  {
    StripWhereTrimmed(s, IsSpace);
  }

  /** The leading run is exactly `n` long when `p` holds below `n` and fails at `n`. */
  lemma {:induction false} LeadingRunIs(s: string, p: char -> bool, n: nat)
    requires n <= |s| && (forall i :: 0 <= i < n ==> p(s[i])) && (n == |s| || !p(s[n]))
    ensures LeadingRun(s, p) == n
    decreases n
  {
    if n > 0 {
      assert p(s[0]);
      assert forall i :: 0 <= i < n - 1 ==> s[1..][i] == s[i + 1];
      LeadingRunIs(s[1..], p, n - 1);
    }
  }

  /** A word of length `n` followed by whitespace or the end is the first word. */
  lemma FirstWord(s: string, n: nat)
    requires 0 < n <= |s| && (forall i :: 0 <= i < n ==> !IsSpace(s[i])) && (n == |s| || IsSpace(s[n]))
    ensures Words(s) == [s[..n]] + Words(s[n..])
  {
    assert !IsSpace(s[0]);
    LeadingRunIs(s, c => !IsSpace(c), n);
  }

  lemma {:induction false} WordsSkipLeading(s: string, a: nat)
    requires a <= |s| && forall i :: 0 <= i < a ==> IsSpace(s[i])
    ensures Words(s[a..]) == Words(s)
    decreases a
  {
    if a > 0 {
      assert s[1..][a - 1..] == s[a..];
      WordsSkipLeading(s[1..], a - 1);
    }
  }

  /** Whitespace after the last token does not change what `split()` finds. */
  lemma {:induction false} WordsSkipTrailing(s: string, n: nat)
    requires n <= |s| && forall i :: n <= i < |s| ==> IsSpace(s[i])
    ensures Words(s[..n]) == Words(s)
    decreases |s|
  {
    if n == 0 {
      WordsSkipLeading(s, |s|);
      assert s[|s|..] == [];
    } else if IsSpace(s[0]) {
      assert s[..n][1..] == s[1..][..n - 1];
      WordsSkipTrailing(s[1..], n - 1);
    } else {
      var m := LeadingRun(s, c => !IsSpace(c));
      var t := s[..n];
      var mt := LeadingRun(t, c => !IsSpace(c));
      assert n < |s| ==> IsSpace(s[n]) && t[..n] == s[..n];
      assert m <= n;
      assert mt == m;
      assert t[..mt] == s[..m];
      assert t[mt..] == s[m..][..n - m];
      WordsSkipTrailing(s[m..], n - m);
    }
  }

  /** `s.strip().split() == s.split()`. */
  lemma WordsOfStrip(s: string)
    ensures Words(Strip(s)) == Words(s)
  {
    var a := LeadingRun(s, IsSpace);
    var r := Strip(s);
    assert r == s[a..a + |r|];
    WordsSkipLeading(s, a);
    assert s[a..][..|r|] == r;
    WordsSkipTrailing(s[a..], |r|);
  }

  /** First position at or after `from` where `sep` occurs in `s`. */
  function FindFrom(s: string, sep: string, from: nat): (r: Option<nat>)
    requires |sep| > 0
    ensures r.Some? ==> from <= r.value && OccursAt(s, sep, r.value)
    ensures r.Some? ==> forall j :: from <= j < r.value ==> !OccursAt(s, sep, j)
    ensures r.None? ==> forall j :: from <= j ==> !OccursAt(s, sep, j)
    decreases |s| - from
  {
    if from + |sep| > |s| then None
    else if s[from..from + |sep|] == sep then Some(from)
    else FindFrom(s, sep, from + 1)
  }

  /** Python's `s.find(sep)`, with `None` for -1. */
  function Find(s: string, sep: string): (r: Option<nat>)
    requires |sep| > 0
    ensures r.Some? <==> Contains(s, sep)
    ensures r.Some? ==> OccursAt(s, sep, r.value) && forall j :: 0 <= j < r.value ==> !OccursAt(s, sep, j)
  {
    FindFrom(s, sep, 0)
  }

  /** `s.find(c, from)` for a single character. */
  function FindCharFrom(s: string, c: char, from: nat): (r: Option<nat>)
    ensures r.Some? ==> from <= r.value < |s| && s[r.value] == c
    ensures r.Some? ==> forall j :: from <= j < r.value ==> s[j] != c
    ensures r.None? ==> forall j :: from <= j < |s| ==> s[j] != c
    decreases |s| - from
  {
    if from >= |s| then None
    else if s[from] == c then Some(from)
    else FindCharFrom(s, c, from + 1)
  }

  /** The character search is the string search for a one-character separator. */
  lemma {:induction false} FindCharIsFind(s: string, c: char, from: nat)
    ensures FindCharFrom(s, c, from) == FindFrom(s, [c], from)
    decreases |s| - from
  {
    if from < |s| {
      assert s[from..from + 1] == [c] <==> s[from] == c;
      FindCharIsFind(s, c, from + 1);
    }
  }

  /** `s.rfind(c)`: the last index holding `c`. */
  function LastIndexOf(s: string, c: char): (r: Option<nat>)
    ensures r.Some? ==> r.value < |s| && s[r.value] == c && forall j :: r.value < j < |s| ==> s[j] != c
    ensures r.None? <==> c !in s
  {
    if s == [] then None
    else if s[|s| - 1] == c then Some(|s| - 1)
    else
      var r := LastIndexOf(s[..|s| - 1], c);
      assert s == s[..|s| - 1] + [s[|s| - 1]];
      r
  }

  /** Python's `s.split(sep)`: cut at each occurrence of `sep`, scanning left to right. */
  function Split(s: string, sep: string): (parts: seq<string>)
    requires |sep| > 0
    ensures |parts| >= 1
    ensures |parts| == 1 <==> !Contains(s, sep)
    ensures forall i :: 0 <= i < |parts| ==> !Contains(parts[i], sep)
    decreases |s|
  {
    match Find(s, sep)
    case None => [s]
    case Some(i) =>
      var head := s[..i];
      assert !Contains(head, sep) by {
        forall j | 0 <= j <= |head| && OccursAt(head, sep, j) ensures false {
          assert s[j..j + |sep|] == head[j..j + |sep|];
          assert OccursAt(s, sep, j);
        }
      }
      [head] + Split(s[i + |sep|..], sep)
  }

  /** The first part of a split is a prefix, followed by the end or by the separator. */
  lemma FirstPart(s: string, sep: string)
    requires |sep| > 0
    ensures var h := Split(s, sep)[0];
            StartsWith(s, h) && (|h| == |s| || OccursAt(s, sep, |h|))
  {
  }

  /** Python's `sep.join(parts)`. */
  function Join(parts: seq<string>, sep: string): (r: string)
    ensures |parts| == 1 ==> r == parts[0]
    decreases |parts|
  {
    if |parts| == 0 then ""
    else if |parts| == 1 then parts[0]
    else parts[0] + sep + Join(parts[1..], sep)
  }

  /** Splitting on `sep` and joining with `sep` gives back the original string. */
  lemma {:induction false} JoinSplit(s: string, sep: string)
    requires |sep| > 0
    ensures Join(Split(s, sep), sep) == s
    decreases |s|
  {
    var f := Find(s, sep);
    if f.Some? {
      var i := f.value;
      var rest := s[i + |sep|..];
      var tail := Split(rest, sep);
      JoinSplit(rest, sep);
      assert Split(s, sep) == [s[..i]] + tail;
      JoinCons(s[..i], tail, sep);
      CutAt(s, sep, i);
    }
  }

  lemma CutAt(s: string, sep: string, i: int)
    requires OccursAt(s, sep, i)
    ensures s == s[..i] + sep + s[i + |sep|..]
  {
    assert s == s[..i] + s[i..i + |sep|] + s[i + |sep|..];
  }

  lemma JoinCons(head: string, tail: seq<string>, sep: string)
    requires |tail| >= 1
    ensures Join([head] + tail, sep) == head + sep + Join(tail, sep)
  {
    assert ([head] + tail)[1..] == tail;
  }

  /** Joining pieces that do not hold `c` with a separator that does not either gives a string
      without `c`. */
  lemma {:induction false} JoinAvoids(parts: seq<string>, sep: string, c: char)
    requires c !in sep && forall i :: 0 <= i < |parts| ==> c !in parts[i]
    ensures c !in Join(parts, sep)
    decreases |parts|
  {
    if |parts| > 1 {
      JoinAvoids(parts[1..], sep, c);
    }
  }

  /** Splitting at a character that none of the joined pieces holds gives the pieces back. */
  lemma {:induction false} SplitJoinChar(parts: seq<string>, c: char)
    requires |parts| >= 1 && forall i :: 0 <= i < |parts| ==> c !in parts[i]
    ensures Split(Join(parts, [c]), [c]) == parts
    decreases |parts|
  {
    var s := Join(parts, [c]);
    if |parts| == 1 {
      NoCharNoSplit(s, c);
    } else {
      var p0, rest := parts[0], parts[1..];
      var tail := Join(rest, [c]);
      assert s == p0 + [c] + tail;
      SplitJoinChar(rest, c);
      SplitAtFirstChar(p0, c, tail);
      assert parts == [p0] + rest;
    }
  }

  /** A string without the character is not split at it. */
  lemma NoCharNoSplit(s: string, c: char)
    requires c !in s
    ensures Split(s, [c]) == [s]
  {
    forall i | 0 <= i <= |s| ensures !OccursAt(s, [c], i) {
      NotOccursAt(s, [c], i, 0);
    }
  }

  /** Splitting at the first occurrence of a character. */
  lemma SplitAtFirstChar(head: string, c: char, tail: string)
    requires c !in head
    ensures Split(head + [c] + tail, [c]) == [head] + Split(tail, [c])
  {
    var s := head + [c] + tail;
    assert OccursAt(s, [c], |head|) by { assert s[|head|..|head| + 1] == [c]; }
    forall j | 0 <= j < |head| ensures !OccursAt(s, [c], j) {
      assert s[j] == head[j];
      NotOccursAt(s, [c], j, 0);
    }
    assert Find(s, [c]) == Some(|head|);
    assert s[..|head|] == head && s[|head| + 1..] == tail;
  }

  /** Where `sep` occurs, its `k`-th character is `s[i + k]`. */
  lemma OccursAtChar(s: string, sep: string, i: int, k: nat)
    requires OccursAt(s, sep, i) && k < |sep|
    ensures s[i + k] == sep[k]
  {
    assert s[i..i + |sep|][k] == s[i + k];
  }

  /** No occurrence of `sep` can start at `i` if its `k`-th character is missing from `s` there. */
  lemma NotOccursAt(s: string, sep: string, i: int, k: nat)
    requires k < |sep| && (0 <= i + k < |s| ==> s[i + k] != sep[k])
    ensures !OccursAt(s, sep, i)
  {
    if OccursAt(s, sep, i) {
      OccursAtChar(s, sep, i, k);
    }
  }

  /** The first piece of a split ends where `sep` first occurs. */
  lemma HeadOfSplit(s: string, sep: string, i: nat)
    requires |sep| > 0 && OccursAt(s, sep, i)
    requires forall j :: 0 <= j < i ==> !OccursAt(s, sep, j)
    ensures Split(s, sep)[0] == s[..i]
  {
    var f := Find(s, sep);
    assert f == Some(i);
  }

  /** When `sep` first occurs at `i` and never after it, `split` cuts `s` in two there. */
  lemma SplitOnce(s: string, sep: string, i: nat)
    requires |sep| > 0 && OccursAt(s, sep, i)
    requires forall j :: 0 <= j < i ==> !OccursAt(s, sep, j)
    requires !Contains(s[i + |sep|..], sep)
    ensures Split(s, sep) == [s[..i], s[i + |sep|..]]
  {
    var f := Find(s, sep);
    assert f == Some(i);
  }

  /** The text before the first occurrence of `sep`: `s.split(sep)[0]`. */
  function Before(s: string, sep: string): (r: string)
    requires |sep| > 0
    ensures !Contains(r, sep)
    ensures StartsWith(s, r)
    ensures !Contains(s, sep) ==> r == s
    ensures Contains(s, sep) ==> OccursAt(s, sep, |r|)
  {
    match Find(s, sep)
    case None => s
    case Some(i) =>
      assert Split(s, sep)[0] == s[..i];
      s[..i]
  }

  /** Python's `xs[:n]`: a negative `n` counts from the end. */
  function PyPrefix<T>(xs: seq<T>, n: int): (r: seq<T>)
    ensures |r| <= |xs| && r == xs[..|r|]
    ensures n >= 0 ==> |r| == if n < |xs| then n else |xs|
    ensures n < 0 ==> |r| == if |xs| + n > 0 then |xs| + n else 0
  {
    if n >= 0 then (if n < |xs| then xs[..n] else xs)
    else if |xs| + n > 0 then xs[..|xs| + n]
    else []
  }

  function Repeat(c: char, n: nat): (r: string)
    ensures |r| == n && forall i :: 0 <= i < n ==> r[i] == c
  {
    if n == 0 then [] else [c] + Repeat(c, n - 1)
  }

  /** Python's `s.zfill(width)`: pad with '0' to `width`, after a leading sign if there is one. */
  function ZFill(s: string, width: nat): (r: string)
    ensures |s| >= width ==> r == s
    ensures |s| < width ==> |r| == width
    ensures |s| < width && !(|s| > 0 && (s[0] == '+' || s[0] == '-')) ==>
              r[width - |s|..] == s && forall i :: 0 <= i < width - |s| ==> r[i] == '0'
    ensures |s| < width && |s| > 0 && (s[0] == '+' || s[0] == '-') ==>
              r[0] == s[0] && r[width - |s| + 1..] == s[1..]
              && forall i :: 1 <= i <= width - |s| ==> r[i] == '0'
  {
    if |s| >= width then s
    else
      var pad := Repeat('0', width - |s|);
      if |s| > 0 && (s[0] == '+' || s[0] == '-') then [s[0]] + pad + s[1..] else pad + s
  }

  /** Python's `s.replace(a, b)` for single characters. */
  function ReplaceChar(s: string, a: char, b: char): (r: string)
    ensures |r| == |s|
    ensures forall i :: 0 <= i < |s| ==> r[i] == (if s[i] == a then b else s[i])
  {
    if s == [] then [] else [if s[0] == a then b else s[0]] + ReplaceChar(s[1..], a, b)
  }

  /** Python's `s.lower()` on the ASCII letters (the only letters it ever meets in this model). */
  function LowerAscii(s: string): (r: string)
    ensures |r| == |s|
    ensures forall i :: 0 <= i < |s| ==>
              r[i] == if 'A' <= s[i] <= 'Z' then (s[i] - 'A' + 'a') as char else s[i]
  {
    if s == [] then []
    else [if 'A' <= s[0] <= 'Z' then (s[0] - 'A' + 'a') as char else s[0]] + LowerAscii(s[1..])
  }

  /** A string without upper-case ASCII letters is its own `lower()`. */
  lemma LowerOfLower(s: string)
    requires forall i :: 0 <= i < |s| ==> !('A' <= s[i] <= 'Z')
    ensures LowerAscii(s) == s
  {
  }

  function DigitChar(d: nat): (c: char)
    requires d < 10
    ensures IsAsciiDigit(c)
  {
    ('0' as int + d) as char
  }

  function DigitValue(c: char): (d: nat)
    requires IsAsciiDigit(c)
    ensures d < 10 && DigitChar(d) == c
  {
    (c as int - '0' as int)
  }

  /** The number that a string of ASCII digits spells in base ten. */
  function DigitsValue(s: string): (n: nat)
    requires forall i :: 0 <= i < |s| ==> IsAsciiDigit(s[i])
    decreases |s|
  {
    if s == [] then 0 else 10 * DigitsValue(s[..|s| - 1]) + DigitValue(s[|s| - 1])
  }

  /** Python's `str(n)` for a natural number. */
  function NatToString(n: nat): (s: string)
    ensures |s| > 0
    ensures forall i :: 0 <= i < |s| ==> IsAsciiDigit(s[i])
    ensures |s| > 1 ==> s[0] != '0'
    decreases n
  {
    if n < 10 then [DigitChar(n)] else NatToString(n / 10) + [DigitChar(n % 10)]
  }

  /** Python's `str(i)` for any integer. */
  function IntToString(i: int): (s: string)
    ensures |s| > 0
    ensures i >= 0 ==> s == NatToString(i)
    ensures i < 0 ==> s[0] == '-' && s[1..] == NatToString(-i)
  {
    if i < 0 then "-" + NatToString(-i) else NatToString(i)
  }

  /** Reading `str(n)` back gives `n`, so `str` is injective on naturals. */
  lemma {:induction false} NatToStringValue(n: nat)
    ensures DigitsValue(NatToString(n)) == n
    decreases n
  {
    var s := NatToString(n);
    if n >= 10 {
      NatToStringValue(n / 10);
      assert s[..|s| - 1] == NatToString(n / 10);
    }
  }

  lemma NatToStringInjective(m: nat, n: nat)
    requires NatToString(m) == NatToString(n)
    ensures m == n
  {
    NatToStringValue(m);
    NatToStringValue(n);
  }
}
