/** The command-line checks and the one-day date window (`utils/validators.py`). */
module Validators {
  import opened Wrappers
  import opened Calendar
  import opened Models
  import Text

  /** `validate_date_format(date_str, ...)`: an absent or empty date passes; any other string
      passes exactly when `strptime(date_str, '%Y-%m-%d')` accepts it. */
  function ValidateDateFormat(date: Option<string>): (ok: bool)
    ensures !Truthy(date) ==> ok
    ensures Truthy(date) ==> (ok <==> exists d :: ParseIsoDate(date.value) == Ok(d))
    ensures Truthy(date) && ok ==> 8 <= |date.value| <= 10 && date.value[4] == '-'
  {
    if Truthy(date) then
      match ParseIsoDate(date.value)
      case Ok(d) => true
      case Err(_) => false
    else true
  }

  /** Every date `strftime('%Y-%m-%d')` can write passes the format check. */
  lemma FormattedDatesPass(d: Date)
    requires Valid(d)
    ensures ValidateDateFormat(Some(FormatIsoDate(d)))
  {
    ParseFormat(d);
  }

  /** The repository's own validation examples. */
  lemma FormatExamples(good: string, bad1: string, bad2: string)
    requires good == "2025-09-12" && bad1 == "invalid" && bad2 == "12-09-2025"
    ensures ValidateDateFormat(Some(good)) && ValidateDateFormat(None)
    ensures !ValidateDateFormat(Some(bad1)) && !ValidateDateFormat(Some(bad2))
  {
    IsoDateAccepts();
    IsoDateRejects();
  }

  /** `validate_date_range(start_date, end_date)`: fails only when both dates are present and the
      start is a later day than the end; a present date that does not parse raises `ValueError`. */
  function ValidateDateRange(start: Option<string>, end: Option<string>): (r: Result<bool>)
    ensures !(Truthy(start) && Truthy(end)) ==> r == Ok(true)
    ensures Truthy(start) && Truthy(end) ==>
              (r.Err? <==> ParseIsoDate(start.value).Err? || ParseIsoDate(end.value).Err?)
    ensures r.Err? ==> r.error == ValueError
    ensures r.Ok? && Truthy(start) && Truthy(end) ==>
              (r.value <==> Ordinal(ParseIsoDate(start.value).value) <= Ordinal(ParseIsoDate(end.value).value))
  {
    if Truthy(start) && Truthy(end) then
      match ParseIsoDate(start.value)
      case Err(e) => Err(e)
      case Ok(s) =>
        match ParseIsoDate(end.value)
        case Err(e) => Err(e)
        case Ok(e) =>
          BeforeIsOrdinalOrder(e, s);
          Ok(!Before(e, s))
    else Ok(true)
  }

  /** The repository's own range examples, and equal dates. */
  lemma RangeExamples(a: string, b: string)
    requires a == "2025-09-12" && b == "2025-09-15"
    ensures ValidateDateRange(Some(a), Some(b)) == Ok(true)
    ensures ValidateDateRange(Some(b), Some(a)) == Ok(false)
    ensures ValidateDateRange(Some(a), Some(a)) == Ok(true)
  {
    IsoDateAccepts();
    LaterExample(b);
    RangeOfParsed(a, b, Date(2025, 9, 12), Date(2025, 9, 15));
    RangeOfParsed(b, a, Date(2025, 9, 15), Date(2025, 9, 12));
    RangeOfParsed(a, a, Date(2025, 9, 12), Date(2025, 9, 12));
  }

  /** Two dates that parse are in range exactly when the end is not before the start. */
  lemma RangeOfParsed(s: string, e: string, ds: Date, de: Date)
    requires s != "" && e != "" && ParseIsoDate(s) == Ok(ds) && ParseIsoDate(e) == Ok(de)
    ensures ValidateDateRange(Some(s), Some(e)) == Ok(!Before(de, ds))
  {
  }

  lemma LaterExample(b: string)
    requires b == "2025-09-15"
    ensures ParseIsoDate(b) == Ok(Date(2025, 9, 15))
  {
    Year2025();
    TwoDigitText(9, "09");
    TwoDigitText(15, "15");
    IsoText(Date(2025, 9, 15), "2025", "09", "15");
    assert FormatIsoDate(Date(2025, 9, 15)) == b;
    ParseFormat(Date(2025, 9, 15));
  }

  /** The text of a date is its padded year, month and day between hyphens. */
  lemma IsoText(d: Date, y: string, m: string, dd: string)
    requires Valid(d) && FixedDigits(d.year, 4) == y && FixedDigits(d.month, 2) == m && FixedDigits(d.day, 2) == dd
    ensures FormatIsoDate(d) == y + "-" + m + "-" + dd
  {
  }

  lemma TwoDigitText(n: nat, s: string)
    requires n < 100 && |s| == 2 && s[0] == Text.DigitChar(n / 10) && s[1] == Text.DigitChar(n % 10)
    ensures FixedDigits(n, 2) == s
  {
    TwoDigits(n);
  }

  lemma Year2024()
    ensures FixedDigits(2024, 4) == "2024"
  {
    assert FixedDigits(2, 1) == "2";
    assert FixedDigits(20, 2) == "20";
    assert FixedDigits(202, 3) == "202";
  }

  lemma Year2025()
    ensures FixedDigits(2025, 4) == "2025"
  {
    assert FixedDigits(2, 1) == "2";
    assert FixedDigits(20, 2) == "20";
    assert FixedDigits(202, 3) == "202";
  }

  const MaxPageSpread := 50

  /** `validate_page_range(start_page, end_page)`: at most fifty pages beyond the first. */
  function ValidatePageRange(startPage: int, endPage: int): (ok: bool)
    ensures ok <==> endPage <= startPage + MaxPageSpread
  {
    !(endPage - startPage > MaxPageSpread)
  }

  /** `process_dates(start_date, end_date)`: a lone start gets the next day as its end, a lone end
      gets the previous day as its start, anything else is returned as given. */
  function ProcessDates(start: Option<string>, end: Option<string>): (r: Result<(Option<string>, Option<string>)>)
    ensures Truthy(start) == Truthy(end) ==> r == Ok((start, end))
    ensures Truthy(start) && !Truthy(end) ==>
              (r.Ok? <==> DayAfter(start.value).Ok?)
              && (r.Ok? ==> r.value.0 == start && r.value.1.Some? && ParseIsoDate(r.value.1.value).Ok?
                            && Ordinal(ParseIsoDate(r.value.1.value).value) == Ordinal(ParseIsoDate(start.value).value) + 1
                            && r.value.1.value == FormatIsoDate(NextDay(ParseIsoDate(start.value).value).value))
    ensures !Truthy(start) && Truthy(end) ==>
              (r.Ok? <==> DayBefore(end.value).Ok?)
              && (r.Ok? ==> r.value.1 == end && r.value.0.Some? && ParseIsoDate(r.value.0.value).Ok?
                            && Ordinal(ParseIsoDate(r.value.0.value).value) == Ordinal(ParseIsoDate(end.value).value) - 1
                            && r.value.0.value == FormatIsoDate(PrevDay(ParseIsoDate(end.value).value).value))
    ensures r.Err? ==> r.error == ValueError || r.error == OverflowError
  {
    if Truthy(start) && !Truthy(end) then
      match DayAfter(start.value)
      case Err(e) => Err(e)
      case Ok(e) => Ok((start, Some(e)))
    else if Truthy(end) && !Truthy(start) then
      match DayBefore(end.value)
      case Err(e) => Err(e)
      case Ok(s) => Ok((Some(s), end))
    else Ok((start, end))
  }

  /** A window filled in from one date always passes the range check, and its start is strictly
      earlier than its end. */
  lemma ProcessedWindowIsValid(start: Option<string>, end: Option<string>)
    requires Truthy(start) != Truthy(end)
    requires ProcessDates(start, end).Ok?
    ensures var (s, e) := ProcessDates(start, end).value;
            && Truthy(s) && Truthy(e)
            && ValidateDateRange(s, e) == Ok(true)
            && Ordinal(ParseIsoDate(s.value).value) < Ordinal(ParseIsoDate(e.value).value)
  {
    var (s, e) := ProcessDates(start, end).value;
    assert ParseIsoDate(s.value).Ok? && ParseIsoDate(e.value).Ok?;
  }

  /** Processing twice changes nothing more: the window is already complete. */
  lemma ProcessDatesIdempotent(start: Option<string>, end: Option<string>)
    requires ProcessDates(start, end).Ok?
    ensures var (s, e) := ProcessDates(start, end).value;
            ProcessDates(s, e) == Ok((s, e))
  {
    if Truthy(start) != Truthy(end) {
      ProcessedWindowIsValid(start, end);
    }
  }

  /** The example of a lone start date that closes a month and a year. */
  lemma WindowCrossesYear(s: string)
    requires s == "2024-12-31"
    ensures ProcessDates(Some(s), None) == Ok((Some(s), Some("2025-01-01")))
  {
    NewYearTexts();
    DayAfterOfFormatted(s, Date(2024, 12, 31));
  }

  lemma NewYearTexts()
    ensures FormatIsoDate(Date(2024, 12, 31)) == "2024-12-31"
    ensures FormatIsoDate(Date(2025, 1, 1)) == "2025-01-01"
  {
    Year2024();
    Year2025();
    TwoDigitText(12, "12");
    TwoDigitText(31, "31");
    TwoDigitText(1, "01");
    IsoText(Date(2024, 12, 31), "2024", "12", "31");
    IsoText(Date(2025, 1, 1), "2025", "01", "01");
  }

  lemma DayAfterOfFormatted(s: string, d: Date)
    requires Valid(d) && s == FormatIsoDate(d) && d != Date(9999, 12, 31)
    ensures DayAfter(s) == Ok(FormatIsoDate(NextDay(d).value))
  {
    ParseFormat(d);
  }

  lemma DayBeforeOfFormatted(s: string, d: Date)
    requires Valid(d) && s == FormatIsoDate(d) && d != Date(1, 1, 1)
    ensures DayBefore(s) == Ok(FormatIsoDate(PrevDay(d).value))
  {
    ParseFormat(d);
  }
}
