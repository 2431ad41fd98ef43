/** The listing URL (`utils/url_builder.py`): a page number, then either a rubric filter or a
    date window, never both. */
module UrlBuilder {
  import opened Wrappers
  import opened Text
  import opened Calendar
  import opened Models
  import Validators

  /** `BASE_URL` of `core/selectors.py`. */
  const BaseUrl := "https://tempo.co/indeks"

  /** `f"{BASE_URL}?page={page}"`. */
  function PagePrefix(page: int): string {
    BaseUrl + "?page=" + IntToString(page)
  }

  function RubricQuery(rubric: string): string {
    "&category=rubrik&rubric_slug=" + rubric
  }

  function DateQuery(start: string, end: string): string {
    "&category=date&start_date=" + start + "&end_date=" + end
  }

  /** `build_index_url(page, start_date, end_date, rubric)`. A lone date is completed to a one-day
      window exactly as `process_dates` does it; the errors it may raise are passed on. */
  function BuildIndexUrl(page: int, startDate: Option<string>, endDate: Option<string>, rubric: Option<string>): (r: Result<string>)
    // every URL names the page first
    ensures r.Ok? ==> StartsWith(r.value, PagePrefix(page))
    // a non-empty rubric wins and the dates are ignored
    ensures Truthy(rubric) ==> r == Ok(PagePrefix(page) + RubricQuery(rubric.value))
    // nothing to filter by: just the page
    ensures !Truthy(rubric) && !Truthy(startDate) && !Truthy(endDate) ==> r == Ok(PagePrefix(page))
    // two dates go in verbatim
    ensures !Truthy(rubric) && Truthy(startDate) && Truthy(endDate) ==>
              r == Ok(PagePrefix(page) + DateQuery(startDate.value, endDate.value))
    // a lone date: the other end of the window is the canonical text of the day one step away
    ensures !Truthy(rubric) && Truthy(startDate) && !Truthy(endDate) && r.Ok? ==>
              && ParseIsoDate(startDate.value).Ok? && NextDay(ParseIsoDate(startDate.value).value).Ok?
              && var e := FormatIsoDate(NextDay(ParseIsoDate(startDate.value).value).value);
                 && r.value == PagePrefix(page) + DateQuery(startDate.value, e)
                 && ParseIsoDate(e).Ok?
                 && Ordinal(ParseIsoDate(e).value) == Ordinal(ParseIsoDate(startDate.value).value) + 1
    ensures !Truthy(rubric) && !Truthy(startDate) && Truthy(endDate) && r.Ok? ==>
              && ParseIsoDate(endDate.value).Ok? && PrevDay(ParseIsoDate(endDate.value).value).Ok?
              && var s := FormatIsoDate(PrevDay(ParseIsoDate(endDate.value).value).value);
                 && r.value == PagePrefix(page) + DateQuery(s, endDate.value)
                 && ParseIsoDate(s).Ok?
                 && Ordinal(ParseIsoDate(s).value) == Ordinal(ParseIsoDate(endDate.value).value) - 1
    // only a lone date that is not a date, or that leaves the calendar, fails
    ensures r.Err? <==> !Truthy(rubric) && Truthy(startDate) != Truthy(endDate)
                        && (if Truthy(startDate) then DayAfter(startDate.value).Err? else DayBefore(endDate.value).Err?)
  {
    var url := PagePrefix(page);
    if Truthy(rubric) then Ok(url + RubricQuery(rubric.value))
    else if Truthy(startDate) && Truthy(endDate) then Ok(url + DateQuery(startDate.value, endDate.value))
    else if Truthy(startDate) then
      match DayAfter(startDate.value)
      case Err(e) => Err(e)
      case Ok(end) => Ok(url + DateQuery(startDate.value, end))
    else if Truthy(endDate) then
      match DayBefore(endDate.value)
      case Err(e) => Err(e)
      case Ok(start) => Ok(url + DateQuery(start, endDate.value))
    else Ok(url)
  }

  /** The window the URL builder derives is the one `process_dates` derives: building from the raw
      dates and building from the processed dates give the same URL, and fail together. */
  lemma WindowAgreesWithProcessDates(page: int, startDate: Option<string>, endDate: Option<string>, rubric: Option<string>)
    requires !Truthy(rubric)
    ensures BuildIndexUrl(page, startDate, endDate, rubric).Ok? <==> Validators.ProcessDates(startDate, endDate).Ok?
    ensures Validators.ProcessDates(startDate, endDate).Ok? ==>
              var (s, e) := Validators.ProcessDates(startDate, endDate).value;
              BuildIndexUrl(page, s, e, rubric) == BuildIndexUrl(page, startDate, endDate, rubric)
  {
    if Validators.ProcessDates(startDate, endDate).Ok? && Truthy(startDate) != Truthy(endDate) {
      Validators.ProcessedWindowIsValid(startDate, endDate);
    }
  }

  /** With a rubric present, the dates make no difference at all. */
  lemma RubricIgnoresDates(page: int, s1: Option<string>, e1: Option<string>, s2: Option<string>, e2: Option<string>, rubric: Option<string>)
    requires Truthy(rubric)
    ensures BuildIndexUrl(page, s1, e1, rubric) == BuildIndexUrl(page, s2, e2, rubric)
  {
  }

  /** An empty rubric is no rubric. */
  lemma EmptyRubricIsAbsent(page: int, startDate: Option<string>, endDate: Option<string>)
    ensures BuildIndexUrl(page, startDate, endDate, Some("")) == BuildIndexUrl(page, startDate, endDate, None)
  {
  }
}
