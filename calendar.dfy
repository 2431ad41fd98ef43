/** The part of Python's `datetime` the scraper uses: proleptic Gregorian dates between the years
    1 and 9999, `datetime.strptime(s, '%Y-%m-%d')`, `strftime('%Y-%m-%d')` and `± timedelta(days=1)`. */
module Calendar {
  import opened Wrappers
  import opened Text

  datatype Date = Date(year: int, month: int, day: int)

  predicate IsLeapYear(y: int) {
    y % 4 == 0 && (y % 100 != 0 || y % 400 == 0)
  }

  function DaysInMonth(y: int, m: int): (n: int)
    requires 1 <= m <= 12
    ensures 28 <= n <= 31
    ensures n == 29 <==> m == 2 && IsLeapYear(y)
  {
    if m == 2 then (if IsLeapYear(y) then 29 else 28)
    else if m == 4 || m == 6 || m == 9 || m == 11 then 30
    else 31
  }

  /** The values a `datetime.date` can hold (`MINYEAR` = 1, `MAXYEAR` = 9999). */
  predicate Valid(d: Date) {
    1 <= d.year <= 9999 && 1 <= d.month <= 12 && 1 <= d.day <= DaysInMonth(d.year, d.month)
  }

  /** Python's `<` on dates: year, then month, then day. */
  predicate Before(a: Date, b: Date) {
    a.year < b.year
    || (a.year == b.year && (a.month < b.month || (a.month == b.month && a.day < b.day)))
  }

  /** `d + timedelta(days=1)`; `OverflowError` past 9999-12-31. */
  function NextDay(d: Date): (r: Result<Date>)
    requires Valid(d)
    ensures r.Ok? <==> d != Date(9999, 12, 31)
    ensures r.Err? ==> r.error == OverflowError
    ensures r.Ok? ==> Valid(r.value) && Before(d, r.value)
  {
    if d.day < DaysInMonth(d.year, d.month) then Ok(Date(d.year, d.month, d.day + 1))
    else if d.month < 12 then Ok(Date(d.year, d.month + 1, 1))
    else if d.year < 9999 then Ok(Date(d.year + 1, 1, 1))
    else Err(OverflowError)
  }

  /** `d - timedelta(days=1)`; `OverflowError` before 0001-01-01. */
  function PrevDay(d: Date): (r: Result<Date>)
    requires Valid(d)
    ensures r.Ok? <==> d != Date(1, 1, 1)
    ensures r.Err? ==> r.error == OverflowError
    ensures r.Ok? ==> Valid(r.value) && Before(r.value, d)
  {
    if d.day > 1 then Ok(Date(d.year, d.month, d.day - 1))
    else if d.month > 1 then Ok(Date(d.year, d.month - 1, DaysInMonth(d.year, d.month - 1)))
    else if d.year > 1 then Ok(Date(d.year - 1, 12, 31))
    else Err(OverflowError)
  }

  /** Going one day forward and one day back returns to the same date. */
  lemma PrevOfNext(d: Date)
    requires Valid(d) && NextDay(d).Ok?
    ensures PrevDay(NextDay(d).value) == Ok(d)
  {
  }

  /** Going one day back and one day forward returns to the same date. */
  lemma NextOfPrev(d: Date)
    requires Valid(d) && PrevDay(d).Ok?
    ensures NextDay(PrevDay(d).value) == Ok(d)
  {
  }

  // ---------------------------------------------------------------------------------------
  // Reference definition: Python computes `date ± timedelta` on day numbers
  // (`date.toordinal()`, day 1 = 0001-01-01).

  function YearLength(y: int): int {
    if IsLeapYear(y) then 366 else 365
  }

  function DaysBeforeYear(y: int): (n: int)
    requires y >= 1
    ensures n >= 0
  {
    if y == 1 then 0 else DaysBeforeYear(y - 1) + YearLength(y - 1)
  }

  function DaysBeforeMonth(y: int, m: int): (n: int)
    requires 1 <= m <= 12
    ensures n >= 0
  {
    if m == 1 then 0 else DaysBeforeMonth(y, m - 1) + DaysInMonth(y, m - 1)
  }

  /** Python's `date.toordinal()`. */
  function Ordinal(d: Date): (n: int)
    requires Valid(d)
  {
    DaysBeforeYear(d.year) + DaysBeforeMonth(d.year, d.month) + d.day
  }

  lemma MonthsFillYear(y: int)
    ensures DaysBeforeMonth(y, 12) + 31 == YearLength(y)
  {
    assert DaysBeforeMonth(y, 2) == 31;
    assert DaysBeforeMonth(y, 3) == 31 + DaysInMonth(y, 2);
    assert DaysBeforeMonth(y, 4) == 62 + DaysInMonth(y, 2);
    assert DaysBeforeMonth(y, 5) == 92 + DaysInMonth(y, 2);
    assert DaysBeforeMonth(y, 6) == 123 + DaysInMonth(y, 2);
    assert DaysBeforeMonth(y, 7) == 153 + DaysInMonth(y, 2);
    assert DaysBeforeMonth(y, 8) == 184 + DaysInMonth(y, 2);
    assert DaysBeforeMonth(y, 9) == 215 + DaysInMonth(y, 2);
    assert DaysBeforeMonth(y, 10) == 245 + DaysInMonth(y, 2);
    assert DaysBeforeMonth(y, 11) == 276 + DaysInMonth(y, 2);
  }

  /** `NextDay` is Python's `date.fromordinal(d.toordinal() + 1)`. */
  lemma NextDayOrdinal(d: Date)
    requires Valid(d) && NextDay(d).Ok?
    ensures Ordinal(NextDay(d).value) == Ordinal(d) + 1
  {
    if d.day == DaysInMonth(d.year, d.month) && d.month == 12 {
      MonthsFillYear(d.year);
    }
  }

  /** `PrevDay` is Python's `date.fromordinal(d.toordinal() - 1)`. */
  lemma PrevDayOrdinal(d: Date)
    requires Valid(d) && PrevDay(d).Ok?
    ensures Ordinal(PrevDay(d).value) == Ordinal(d) - 1
  {
    if d.day == 1 && d.month == 1 {
      MonthsFillYear(d.year - 1);
    }
  }

  lemma {:induction false} MonthsGrow(y: int, m1: int, m2: int)
    requires 1 <= m1 < m2 <= 12
    ensures DaysBeforeMonth(y, m1) + DaysInMonth(y, m1) <= DaysBeforeMonth(y, m2)
    decreases m2
  {
    if m1 < m2 - 1 {
      MonthsGrow(y, m1, m2 - 1);
    }
  }

  lemma {:induction false} YearsGrow(y1: int, y2: int)
    requires 1 <= y1 < y2
    ensures DaysBeforeYear(y1) + YearLength(y1) <= DaysBeforeYear(y2)
    decreases y2
  {
    if y1 < y2 - 1 {
      YearsGrow(y1, y2 - 1);
    }
  }

  /** A date's day number stays inside its own year. */
  lemma OrdinalInYear(d: Date)
    requires Valid(d)
    ensures DaysBeforeYear(d.year) < Ordinal(d) <= DaysBeforeYear(d.year) + YearLength(d.year)
  {
    MonthsFillYear(d.year);
    if d.month < 12 {
      MonthsGrow(d.year, d.month, 12);
    }
  }

  /** The field-by-field order on dates is the order of their day numbers. */
  lemma BeforeIsOrdinalOrder(a: Date, b: Date)
    requires Valid(a) && Valid(b)
    ensures Before(a, b) <==> Ordinal(a) < Ordinal(b)
  {
    OrdinalInYear(a);
    OrdinalInYear(b);
    if a.year < b.year {
      YearsGrow(a.year, b.year);
    } else if b.year < a.year {
      YearsGrow(b.year, a.year);
    } else if a.month < b.month {
      MonthsGrow(a.year, a.month, b.month);
    } else if b.month < a.month {
      MonthsGrow(a.year, b.month, a.month);
    }
  }

  // ---------------------------------------------------------------------------------------
  // `strptime(s, '%Y-%m-%d')`: CPython matches the regular expression
  //   (?P<Y>\d\d\d\d)-(?P<m>1[0-2]|0[1-9]|[1-9])-(?P<d>3[01]|[12]\d|0[1-9]|[1-9]| [1-9])
  // at the start of `s` (first matching alternative wins, with backtracking only where the
  // pattern continues), raises ValueError if characters remain after the match, and raises
  // ValueError again when the fields do not name a real date.

  /** The `%m` field followed by `-`: the month and how many characters it took, dash included. */
  function MatchMonth(t: string): (r: Option<(int, nat)>)
    ensures r.Some? ==> 1 <= r.value.0 <= 12 && 2 <= r.value.1 <= 3 && r.value.1 <= |t|
  {
    if |t| >= 3 && t[0] == '1' && '0' <= t[1] <= '2' && t[2] == '-' then Some((10 + DigitValue(t[1]), 3))
    else if |t| >= 3 && t[0] == '0' && '1' <= t[1] <= '9' && t[2] == '-' then Some((DigitValue(t[1]), 3))
    else if |t| >= 2 && '1' <= t[0] <= '9' && t[1] == '-' then Some((DigitValue(t[0]), 2))
    else None
  }

  /** The first alternative of `%d` that matches at the start of `t`: the day and its length. */
  function DayAlternative(t: string): (r: Option<(int, nat)>)
    ensures r.Some? ==> 1 <= r.value.0 <= 31 && 1 <= r.value.1 <= 2 && r.value.1 <= |t|
  {
    if |t| >= 2 && t[0] == '3' && '0' <= t[1] <= '1' then Some((30 + DigitValue(t[1]), 2))
    else if |t| >= 2 && '1' <= t[0] <= '2' && IsAsciiDigit(t[1]) then Some((10 * DigitValue(t[0]) + DigitValue(t[1]), 2))
    else if |t| >= 2 && t[0] == '0' && '1' <= t[1] <= '9' then Some((DigitValue(t[1]), 2))
    else if |t| >= 1 && '1' <= t[0] <= '9' then Some((DigitValue(t[0]), 1))
    else if |t| >= 2 && t[0] == ' ' && '1' <= t[1] <= '9' then Some((DigitValue(t[1]), 2))
    else None
  }

  /** `datetime.strptime(s, '%Y-%m-%d')`, keeping only the date. */
  function ParseIsoDate(s: string): (r: Result<Date>)
    ensures r.Err? ==> r.error == ValueError
    ensures r.Ok? ==> Valid(r.value)
    ensures r.Ok? ==> 8 <= |s| <= 10 && s[4] == '-'
  {
    if |s| < 5 || !(forall i :: 0 <= i < 4 ==> IsAsciiDigit(s[i])) || s[4] != '-' then Err(ValueError)
    else
      match MatchMonth(s[5..])
      case None => Err(ValueError)
      case Some((month, used)) =>
        var rest := s[5 + used..];
        match DayAlternative(rest)
        case None => Err(ValueError)
        case Some((day, len)) =>
          var d := Date(DigitsValue(s[..4]), month, day);
          if len != |rest| then Err(ValueError)      // "unconverted data remains"
          else if !Valid(d) then Err(ValueError)     // year 0, or no such day in that month
          else Ok(d)
  }

  function Pow10(n: nat): (p: nat)
    ensures p >= 1
  {
    if n == 0 then 1 else 10 * Pow10(n - 1)
  }

  /** `n` in base ten, zero-padded to exactly `width` digits. */
  function FixedDigits(n: nat, width: nat): (s: string)
    ensures |s| == width
    ensures forall i :: 0 <= i < |s| ==> IsAsciiDigit(s[i])
  {
    if width == 0 then [] else FixedDigits(n / 10, width - 1) + [DigitChar(n % 10)]
  }

  lemma {:induction false} FixedDigitsValue(n: nat, width: nat)
    requires n < Pow10(width)
    ensures DigitsValue(FixedDigits(n, width)) == n
  {
    if width > 0 {
      var s := FixedDigits(n, width);
      assert s[..|s| - 1] == FixedDigits(n / 10, width - 1);
      FixedDigitsValue(n / 10, width - 1);
    }
  }

  lemma TwoDigits(n: nat)
    requires n < 100
    ensures FixedDigits(n, 2) == [DigitChar(n / 10), DigitChar(n % 10)]
  {
    assert FixedDigits(n / 10, 1) == [DigitChar(n / 10 % 10)];
  }

  /** `d.strftime('%Y-%m-%d')` (the year zero-padded to four digits). */
  function FormatIsoDate(d: Date): (s: string)
    requires Valid(d)
    ensures |s| == 10 && s[4] == '-' && s[7] == '-'
  {
    FixedDigits(d.year, 4) + "-" + FixedDigits(d.month, 2) + "-" + FixedDigits(d.day, 2)
  }

  /** What `strftime` writes, `strptime` reads back. */
  lemma ParseFormat(d: Date)
    requires Valid(d)
    ensures ParseIsoDate(FormatIsoDate(d)) == Ok(d)
  {
    var s := FormatIsoDate(d);
    var y := FixedDigits(d.year, 4);
    assert Pow10(4) == 10000;
    FixedDigitsValue(d.year, 4);
    assert s[..4] == y;
    TwoDigits(d.month);
    TwoDigits(d.day);
    var t := s[5..];
    assert t == FixedDigits(d.month, 2) + "-" + FixedDigits(d.day, 2);
    assert MatchMonth(t) == Some((d.month, 3));
    assert s[8..] == FixedDigits(d.day, 2);
    assert DayAlternative(s[8..]) == Some((d.day, 2));
  }

  /** `(datetime.strptime(s, '%Y-%m-%d') + timedelta(days=1)).strftime('%Y-%m-%d')`: the text of
      the day after `s`; `ValueError` if `s` is not a date, `OverflowError` after 9999-12-31. */
  function DayAfter(s: string): (r: Result<string>)
    ensures ParseIsoDate(s).Err? ==> r == Err(ValueError)
    ensures ParseIsoDate(s).Ok? ==> (r.Ok? <==> ParseIsoDate(s).value != Date(9999, 12, 31))
    ensures r.Err? && ParseIsoDate(s).Ok? ==> r.error == OverflowError
    ensures r.Ok? ==> ParseIsoDate(r.value).Ok?
                      && Ordinal(ParseIsoDate(r.value).value) == Ordinal(ParseIsoDate(s).value) + 1
    // the text is the canonical `strftime` form of the next day
    ensures r.Ok? ==> ParseIsoDate(s).Ok? && NextDay(ParseIsoDate(s).value).Ok?
                      && r.value == FormatIsoDate(NextDay(ParseIsoDate(s).value).value)
  {
    match ParseIsoDate(s)
    case Err(e) => Err(e)
    case Ok(d) =>
      match NextDay(d)
      case Err(e) => Err(e)
      case Ok(n) =>
        ParseFormat(n);
        NextDayOrdinal(d);
        Ok(FormatIsoDate(n))
  }

  /** `(datetime.strptime(s, '%Y-%m-%d') - timedelta(days=1)).strftime('%Y-%m-%d')`: the text of
      the day before `s`; `ValueError` if `s` is not a date, `OverflowError` before 0001-01-01. */
  function DayBefore(s: string): (r: Result<string>)
    ensures ParseIsoDate(s).Err? ==> r == Err(ValueError)
    ensures ParseIsoDate(s).Ok? ==> (r.Ok? <==> ParseIsoDate(s).value != Date(1, 1, 1))
    ensures r.Err? && ParseIsoDate(s).Ok? ==> r.error == OverflowError
    ensures r.Ok? ==> ParseIsoDate(r.value).Ok?
                      && Ordinal(ParseIsoDate(r.value).value) == Ordinal(ParseIsoDate(s).value) - 1
    // the text is the canonical `strftime` form of the previous day
    ensures r.Ok? ==> ParseIsoDate(s).Ok? && PrevDay(ParseIsoDate(s).value).Ok?
                      && r.value == FormatIsoDate(PrevDay(ParseIsoDate(s).value).value)
  {
    match ParseIsoDate(s)
    case Err(e) => Err(e)
    case Ok(d) =>
      match PrevDay(d)
      case Err(e) => Err(e)
      case Ok(p) =>
        ParseFormat(p);
        PrevDayOrdinal(d);
        Ok(FormatIsoDate(p))
  }

  /** A day forward then a day back gives the date `s` denotes, written in canonical form. */
  lemma DayAfterThenBefore(s: string)
    requires DayAfter(s).Ok?
    ensures DayBefore(DayAfter(s).value) == Ok(FormatIsoDate(ParseIsoDate(s).value))
  {
    var d := ParseIsoDate(s).value;
    ParseFormat(NextDay(d).value);
    PrevOfNext(d);
  }

  /** A day back then a day forward gives the date `s` denotes, written in canonical form. */
  lemma DayBeforeThenAfter(s: string)
    requires DayBefore(s).Ok?
    ensures DayAfter(DayBefore(s).value) == Ok(FormatIsoDate(ParseIsoDate(s).value))
  {
    var d := ParseIsoDate(s).value;
    ParseFormat(PrevDay(d).value);
    NextOfPrev(d);
  }

  /** The accepted and rejected inputs of the repository's own date-validation test, and two
      edge cases: one-digit fields are accepted, and a 29 February must exist in that year. */
  lemma IsoDateAccepts()
    ensures ParseIsoDate("2025-09-12") == Ok(Date(2025, 9, 12))
  {
    var s := "2025-09-12";
    assert s[..4] == "2025" && s[5..] == "09-12" && s[5..][3..] == "12";
    assert DigitsValue("2025") == 2025 by {
      assert "2025"[..3] == "202" && "202"[..2] == "20" && "20"[..1] == "2";
    }
  }

  lemma IsoDateShortFields()
    ensures ParseIsoDate("2024-2-29") == Ok(Date(2024, 2, 29))
  {
    var s := "2024-2-29";
    assert s[..4] == "2024" && s[5..] == "2-29" && s[5..][2..] == "29";
    assert DigitsValue("2024") == 2024 by {
      assert "2024"[..3] == "202" && "202"[..2] == "20" && "20"[..1] == "2";
    }
  }

  lemma IsoDateRejects()
    ensures ParseIsoDate("invalid").Err?
    ensures ParseIsoDate("12-09-2025").Err?
    ensures ParseIsoDate("2025-09-123").Err?
  {
    assert !IsAsciiDigit("invalid"[0]);
    assert !IsAsciiDigit("12-09-2025"[2]);
    var s := "2025-09-123";
    assert s[5..] == "09-123" && s[5..][3..] == "123";
  }

  lemma NoTwentyNinthFebruary()
    ensures ParseIsoDate("2025-02-29").Err?
  {
    var s := "2025-02-29";
    assert s[..4] == "2025" && s[5..] == "02-29" && s[5..][3..] == "29";
    assert DigitsValue("2025") == 2025 by {
      assert "2025"[..3] == "202" && "202"[..2] == "20" && "20"[..1] == "2";
    }
  }
}
