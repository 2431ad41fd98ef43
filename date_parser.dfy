/** The publication-timestamp normaliser (`utils/date_parser.py`): it turns
    "12 September 2025 | 15.22 WIB" into a date, an `HH:MM:00` time and a timezone token. */
module DateParser {
  import opened Text
  import Calendar

  datatype DateTimeParts = DateTimeParts(date: string, time: string, timezone: string)

  const NoParts := DateTimeParts("", "", "")

  /** The separator between the date half and the time half. */
  const Bar := " | "

  const MonthNames: seq<string> := ["January", "February", "March", "April", "May", "June", "July",
                                    "August", "September", "October", "November", "December"]

  /** The English month name's two-digit number; a name outside the table reads as "01". */
  function MonthNumber(name: string): (mm: string)
    ensures name !in MonthNames ==> mm == "01"
  {
    if name == "January" then "01" else if name == "February" then "02"
    else if name == "March" then "03" else if name == "April" then "04"
    else if name == "May" then "05" else if name == "June" then "06"
    else if name == "July" then "07" else if name == "August" then "08"
    else if name == "September" then "09" else if name == "October" then "10"
    else if name == "November" then "11" else if name == "December" then "12"
    else "01"
  }

  /** The i-th month name maps to month i + 1 written with two digits, as `strftime('%m')` writes it. */
  lemma MonthNumberIsCalendarMonth(i: nat)
    requires i < |MonthNames|
    ensures MonthNumber(MonthNames[i]) == Calendar.FixedDigits(i + 1, 2)
  {
    Calendar.TwoDigits(i + 1);
    if i < 6 {
      EarlyMonthNumber(i);
    } else {
      LateMonthNumber(i);
    }
  }

  lemma EarlyMonthNumber(i: nat)
    requires i < 6
    ensures MonthNumber(MonthNames[i]) == ['0', DigitChar(i + 1)]
  {
  }

  lemma LateMonthNumber(i: nat)
    requires 6 <= i < 12
    ensures MonthNumber(MonthNames[i]) == [DigitChar((i + 1) / 10), DigitChar((i + 1) % 10)]
  {
  }

  /** The date half: `year-MM-dd` from exactly three whitespace-separated tokens, else "". */
  function DateField(datePart: string): (date: string)
  {
    var w := Words(datePart);
    if |w| == 3 then w[2] + "-" + MonthNumber(w[1]) + "-" + ZFill(w[0], 2) else ""
  }

  /** The clock token: `H.MM` becomes `HH:MM:00`; anything that is not two pieces around one '.' gives "". */
  function TimeField(token: string): (time: string)
  {
    var p := Split(token, ".");
    if |p| == 2 then ZFill(p[0], 2) + ":" + ZFill(p[1], 2) + ":00" else ""
  }

  /** `parse_publication_datetime(pub_date_str)`. */
  function ParsePublicationDatetime(s: string): (r: DateTimeParts)
    // empty input, or not exactly one " | ", gives three empty fields
    ensures s == "" || |Split(s, Bar)| != 2 ==> r == NoParts
    // the date is set exactly when the half before " | " has three tokens
    ensures r.date != "" <==> s != "" && |Split(s, Bar)| == 2 && |Words(Split(s, Bar)[0])| == 3
    ensures r.date != "" ==>
              var w := Words(Split(s, Bar)[0]);
              r.date == w[2] + "-" + MonthNumber(w[1]) + "-" + ZFill(w[0], 2)
    // the time and the timezone come from the half after " | " alone
    ensures s != "" && |Split(s, Bar)| == 2 ==>
              var w := Words(Split(s, Bar)[1]);
              && (|w| == 0 ==> r.time == "" && r.timezone == "")
              && (|w| >= 1 ==> r.time == TimeField(w[0]))
              && (|w| >= 2 ==> r.timezone == w[1])
              && (|w| == 1 ==> r.timezone == "")
  {
    if s == "" then NoParts
    else
      var parts := Split(s, Bar);
      if |parts| != 2 then NoParts
      else
        var date := DateField(Strip(parts[0]));
        var w := Words(Strip(parts[1]));
        assert Words(Strip(parts[1])) == Words(parts[1]) by { WordsOfStrip(parts[1]); }
        assert Words(Strip(parts[0])) == Words(parts[0]) by { WordsOfStrip(parts[0]); }
        if |w| >= 1 then
          DateTimeParts(date, TimeField(w[0]), if |w| > 1 then w[1] else "")
        else
          DateTimeParts(date, "", "")
  }

  /** The date and the time fail independently: a date half without three tokens yields no date,
      while the time and timezone are whatever the time half alone gives. */
  lemma FieldsAreIndependent(s: string)
    requires s != "" && |Split(s, Bar)| == 2
    requires |Words(Split(s, Bar)[0])| != 3
    requires |Words(Split(s, Bar)[1])| >= 2
    ensures ParsePublicationDatetime(s).date == ""
    ensures ParsePublicationDatetime(s).time == TimeField(Words(Split(s, Bar)[1])[0])
    ensures ParsePublicationDatetime(s).timezone == Words(Split(s, Bar)[1])[1]
  {
  }

  /** The repository's own example: "12 September 2025 | 15.22 WIB" (the string is a parameter
      so that the proof works on it symbolically). */
  lemma TempoExample(s: string)
    requires s == "12 September 2025 | 15.22 WIB"
    ensures ParsePublicationDatetime(s) == DateTimeParts("2025-09-12", "15:22:00", "WIB")
  {
    TempoHalves(s);
    TempoFields(s, s[..17], s[20..]);
  }

  lemma TempoFields(s: string, d: string, t: string)
    requires s != "" && Split(s, Bar) == [d, t]
    requires d == "12 September 2025" && t == "15.22 WIB"
    ensures ParsePublicationDatetime(s) == DateTimeParts("2025-09-12", "15:22:00", "WIB")
  {
    TempoDateWords(d);
    TempoTimeWords(t);
    OfHalves(s, d, t);
    TempoDate(Words(d));
    TempoTime(Words(t));
  }

  lemma TempoDate(w: seq<string>)
    requires w == ["12", "September", "2025"]
    ensures w[2] + "-" + MonthNumber(w[1]) + "-" + ZFill(w[0], 2) == "2025-09-12"
  {
    TwoDigitsKept(w[0]);
  }

  lemma TempoTime(v: seq<string>)
    requires v == ["15.22", "WIB"]
    ensures TimeField(v[0]) == "15:22:00" && v[1] == "WIB"
  {
    TempoClock(v[0]);
  }

  /** The three fields of a timestamp whose halves have three and two tokens. */
  lemma OfHalves(s: string, a: string, b: string)
    requires s != "" && Split(s, Bar) == [a, b] && |Words(a)| == 3 && |Words(b)| == 2
    ensures var w, v := Words(a), Words(b);
            ParsePublicationDatetime(s)
            == DateTimeParts(w[2] + "-" + MonthNumber(w[1]) + "-" + ZFill(w[0], 2), TimeField(v[0]), v[1])
  {
  }

  lemma TwoDigitsKept(x: string)
    requires |x| == 2
    ensures ZFill(x, 2) == x
  {
  }

  lemma TempoDateWords(d: string)
    requires d == "12 September 2025"
    ensures Words(d) == ["12", "September", "2025"]
  {
    TempoDatePieces(d);
    TempoWord(d, 2);
    TempoMonthYear(d[3..]);
  }

  lemma TempoDatePieces(d: string)
    requires d == "12 September 2025"
    ensures (forall i :: 0 <= i < 2 ==> !IsSpace(d[i])) && d[2] == ' ' && !IsSpace(d[3])
    ensures d[..2] == "12" && d[3..] == "September 2025"
  {
  }

  lemma TempoMonthYear(d: string)
    requires d == "September 2025"
    ensures Words(d) == ["September", "2025"]
  {
    TempoTwoWords(d, 9);
    assert d[..9] == "September";
    assert d[10..] == "2025";
  }

  lemma TempoTimeWords(t: string)
    requires t == "15.22 WIB"
    ensures Words(t) == ["15.22", "WIB"]
  {
    TempoTwoWords(t, 5);
    assert t[..5] == "15.22";
    assert t[6..] == "WIB";
  }

  /** Two words of `s` separated by the single space at `n`. */
  lemma TempoTwoWords(s: string, n: nat)
    requires 0 < n && n + 1 < |s| && s[n] == ' '
    requires forall i :: 0 <= i < |s| && i != n ==> !IsSpace(s[i])
    ensures Words(s) == [s[..n], s[n + 1..]]
  {
    TempoWord(s, n);
    TempoWord(s[n + 1..], |s| - n - 1);
  }

  /** One step of the example: the first `n` characters of `s` are a word, then at most one space. */
  lemma TempoWord(s: string, n: nat)
    requires 0 < n <= |s| && (forall i :: 0 <= i < n ==> !IsSpace(s[i]))
    requires n == |s| || (s[n] == ' ' && (n + 1 == |s| || !IsSpace(s[n + 1])))
    ensures n == |s| ==> Words(s) == [s]
    ensures n < |s| ==> Words(s) == [s[..n]] + Words(s[n + 1..])
  {
    FirstWord(s, n);
    if n == |s| {
      assert s[..n] == s && s[n..] == [];
    } else {
      assert s[n..][1..] == s[n + 1..];
    }
  }

  lemma TempoHalves(s: string)
    requires s == "12 September 2025 | 15.22 WIB"
    ensures Split(s, Bar) == [s[..17], s[20..]]
    ensures s[..17] == "12 September 2025" && s[20..] == "15.22 WIB"
  {
    assert OccursAt(s, Bar, 17);
    forall j | 0 <= j < 17 ensures !OccursAt(s, Bar, j) {
      NotOccursAt(s, Bar, j, 1);
    }
    var t := s[20..];
    forall j | 0 <= j <= |t| ensures !OccursAt(t, Bar, j) {
      NotOccursAt(t, Bar, j, 1);
    }
    SplitOnce(s, Bar, 17);
  }

  lemma TempoClock(u: string)
    requires u == "15.22"
    ensures TimeField(u) == "15:22:00"
  {
    assert OccursAt(u, ".", 2);
    forall j | 0 <= j < 2 ensures !OccursAt(u, ".", j) {
      NotOccursAt(u, ".", j, 0);
    }
    var v := u[3..];
    forall j | 0 <= j <= |v| ensures !OccursAt(v, ".", j) {
      NotOccursAt(v, ".", j, 0);
    }
    SplitOnce(u, ".", 2);
    assert u[..2] == "15" && v == "22";
  }
}
