/** Reading one month of the appointment date-picker (a jQuery UI widget):
    its title as `<FullMonthName> <Year>`, one day number per clickable
    link, and whether its "next" control is disabled. */
module Calendar {
  import opened Wrappers
  import opened Dates
  import opened PyText

  /** The class that marks the "next" control of the last page. */
  const DisabledMarker := "ui-state-disabled"

  /** The English full month names `strptime("%B")` accepts, lower-cased as
      it compares them. */
  const MonthNames: seq<string> := [
    "january", "february", "march", "april", "may", "june",
    "july", "august", "september", "october", "november", "december"
  ]

  /** One month of the widget: the title text, the text of every `<a>` in
      the day table, and the `class` attribute of the "next" control. */
  datatype Page = Page(header: string, links: seq<string>, nextClass: string)

  /** Why the scrape raised. */
  datatype ScanError =
    | HeaderShape(header: string, tokens: nat) // `m_str, y_str = header.split()` did not unpack
    | UnknownMonth(name: string)               // `strptime(m_str, "%B")` raised
    | BadYear(text: string)                    // `int(y_str)` raised
    | BadDay(text: string)                     // `int(link.text)` raised
    | InvalidDate(reason: DateError)           // `datetime(year, month, day)` raised
    | NoCalendar                               // the widget showed no further month

  // ---------------------------------------------------------------------------
  // Reading one page

  function FindMonth(key: string, k: nat): (r: Option<int>)
    requires k <= 12
    ensures r.Some? ==> k < r.value <= 12 && key == MonthNames[r.value - 1]
    ensures r.None? ==> forall j :: k <= j < 12 ==> key != MonthNames[j]
    decreases 12 - k
  {
    if k == 12 then None
    else if key == MonthNames[k] then Some(k + 1)
    else FindMonth(key, k + 1)
  }

  /** `datetime.strptime(name, "%B").month`: the month whose English name
      equals `name` up to ASCII case, `None` where `strptime` raises. */
  function MonthNumber(name: string): (r: Option<int>)
    ensures r.Some? ==> 1 <= r.value <= 12 && Lower(name) == MonthNames[r.value - 1]
    ensures r.None? ==> forall j :: 0 <= j < 12 ==> Lower(name) != MonthNames[j]
  {
    FindMonth(Lower(name), 0)
  }

  /** Reads the title as `(month, year)`. The year is not range-checked
      here: only `datetime(...)` does that, once a day link is read. */
  function ParseHeader(header: string): (r: Result<(int, int), ScanError>)
    ensures r.Success? ==> 1 <= r.value.0 <= 12
  {
    var tokens := Split(header);
    if |tokens| != 2 then Failure(HeaderShape(header, |tokens|))
    else
      match MonthNumber(tokens[0])
      case None => Failure(UnknownMonth(tokens[0]))
      case Some(month) =>
        match ParseInt(tokens[1])
        case None => Failure(BadYear(tokens[1]))
        case Some(year) => Success((month, year))
  }

  /** `datetime(year, month, int(text))` for one day link. */
  function ParseDay(year: int, month: int, text: string): (r: Result<Date, ScanError>)
    ensures r.Success? ==>
              && IsValid(r.value) && r.value.year == year && r.value.month == month
              && ParseInt(text) == Some(r.value.day)
    ensures r.Failure? ==> ParseInt(text).None? || !IsValid(Date(year, month, ParseInt(text).value))
  {
    match ParseInt(text)
    case None => Failure(BadDay(text))
    case Some(day) =>
      match MakeDate(year, month, day)
      case Failure(e) => Failure(InvalidDate(e))
      case Success(d) => Success(d)
  }

  /** Link `i` is the first whose date raises, with error `e`. */
  ghost predicate FirstBadLink(year: int, month: int, links: seq<string>, i: int, e: ScanError) {
    && 0 <= i < |links|
    && ParseDay(year, month, links[i]) == Failure(e)
    && forall j :: 0 <= j < i ==> ParseDay(year, month, links[j]).Success?
  }

  /** What `datetime(year, month, int(link.text))` gives for each link. */
  function DayResults(year: int, month: int, links: seq<string>): (rs: seq<Result<Date, ScanError>>)
    ensures |rs| == |links|
    ensures forall i :: 0 <= i < |links| ==> rs[i] == ParseDay(year, month, links[i])
  {
    seq(|links|, i requires 0 <= i < |links| => ParseDay(year, month, links[i]))
  }

  /** The inner `for link in ...` loop: one date per link, in order, or the
      error of the first link that raises. */
  function LinkDates(year: int, month: int, links: seq<string>): (r: Result<seq<Date>, ScanError>)
    ensures r.Success? <==> forall i :: 0 <= i < |links| ==> ParseDay(year, month, links[i]).Success?
    ensures r.Success? ==>
              && |r.value| == |links|
              && forall i :: 0 <= i < |links| ==> r.value[i] == ParseDay(year, month, links[i]).value
    ensures r.Failure? ==>
              exists i :: FirstBadLink(year, month, links, i, r.error)
  {
    var rs := DayResults(year, month, links);
    var r := AllSuccesses(rs);
    assert r.Failure? ==> exists i :: FirstBadLink(year, month, links, i, r.error) by {
      if r.Failure? {
        var i :| FirstFailure(rs, i, r.error);
        assert FirstBadLink(year, month, links, i, r.error);
      }
    }
    r
  }

  /** Everything one page contributes. Each date takes its month and year
      from the page's title and its day from the text of its link. */
  function PageDates(p: Page): (r: Result<seq<Date>, ScanError>)
    ensures r.Success? ==> ParseHeader(p.header).Success? && |r.value| == |p.links|
    ensures r.Success? ==> forall i :: 0 <= i < |r.value| ==>
      && IsValid(r.value[i])
      && (r.value[i].month, r.value[i].year) == ParseHeader(p.header).value
      && ParseInt(p.links[i]) == Some(r.value[i].day)
    ensures ParseHeader(p.header).Success? && |p.links| == 0 ==> r == Success([])
  {
    match ParseHeader(p.header)
    case Failure(e) => Failure(e)
    case Success(my) => LinkDates(my.1, my.0, p.links)
  }

  /** `"ui-state-disabled" in nxt.get_attribute("class")`. */
  predicate Disabled(p: Page) {
    Contains(p.nextClass, DisabledMarker)
  }

  // ---------------------------------------------------------------------------
  // Properties of page reading

  /** A month is the last exactly when the class of its "next" control
      contains `ui-state-disabled` somewhere, as one of several classes or
      otherwise. */
  lemma DisabledMeansMarkerOccurs(p: Page)
    ensures Disabled(p) <==> exists i :: OccursAt(p.nextClass, DisabledMarker, i)
  {
  }

  /** The class jQuery UI gives a disabled "next" control marks the month
      as the last one. */
  lemma DisabledClassExample(header: string, links: seq<string>)
    ensures Disabled(Page(header, links, "ui-datepicker-next ui-corner-all ui-state-disabled"))
  {
    var cls := "ui-datepicker-next ui-corner-all ui-state-disabled";
    assert OccursAt(cls, DisabledMarker, 33);
  }

  /** Month names are matched ignoring ASCII case: any spelling that
      lower-cases to the name of month `m` reads as `m`. */
  lemma MonthNumberOfName(m: int, name: string)
    requires 1 <= m <= 12 && Lower(name) == MonthNames[m - 1]
    ensures MonthNumber(name) == Some(m)
  {
    FindMonthOf(Lower(name), 0, m - 1);
  }

  lemma {:induction false} FindMonthOf(key: string, k: nat, j: nat)
    requires k <= j < 12 && key == MonthNames[j]
    ensures FindMonth(key, k) == Some(j + 1)
    decreases j - k
  {
    if k < j {
      MonthNamesDistinct(k, j);
      FindMonthOf(key, k + 1, j);
    }
  }

  lemma MonthNamesDistinct(i: int, j: int)
    requires 0 <= i < 12 && 0 <= j < 12 && i != j
    ensures MonthNames[i] != MonthNames[j]
  {
  }

  lemma {:induction false} LowerKeepsSpaces(s: string)
    requires NoSpace(Lower(s))
    ensures NoSpace(s)
  {
    forall i | 0 <= i < |s|
      ensures !IsSpace(s[i])
    {
      assert Lower(s)[i] == LowerChar(s[i]);
    }
  }

  lemma MonthNamesHaveNoSpace(k: int)
    requires 0 <= k < 12
    ensures |MonthNames[k]| > 0 && NoSpace(MonthNames[k])
  {
    var name := MonthNames[k];
    assert forall i :: 0 <= i < |name| ==> 'a' <= name[i] <= 'z';
  }

  lemma ShowIntHasNoSpace(n: int)
    ensures |ShowInt(n)| > 0 && NoSpace(ShowInt(n))
  {
    var m: nat := if n < 0 then -n else n;
    ShowNatFacts(m);
  }

  /** A title reads only in the expected shape: exactly two whitespace
      separated tokens, a month name (in any ASCII case) and an integer
      literal. */
  lemma ParseHeaderShape(header: string)
    requires ParseHeader(header).Success?
    ensures var ts, r := Split(header), ParseHeader(header).value;
      && |ts| == 2 && 1 <= r.0 <= 12
      && Lower(ts[0]) == MonthNames[r.0 - 1]
      && ParseInt(ts[1]) == Some(r.1)
  {
    var ts := Split(header);
    assert |ts| == 2;
    var month := MonthNumber(ts[0]);
    assert month.Some?;
    assert ParseHeader(header).value == (month.value, ParseInt(ts[1]).value);
  }

  /** A title that does not split into exactly two tokens raises at the
      unpacking. */
  lemma ParseHeaderTokenCount(header: string)
    requires |Split(header)| != 2
    ensures ParseHeader(header) == Failure(HeaderShape(header, |Split(header)|))
  {
  }

  /** A title whose first token is no month name, in any ASCII case, raises
      in `strptime`. */
  lemma ParseHeaderUnknownMonth(header: string)
    requires |Split(header)| == 2
    requires forall j :: 0 <= j < 12 ==> Lower(Split(header)[0]) != MonthNames[j]
    ensures ParseHeader(header) == Failure(UnknownMonth(Split(header)[0]))
  {
    var ts := Split(header);
    assert MonthNumber(ts[0]).None?;
  }

  /** Both directions: a title reads as `(m, y)` exactly when it splits
      into two tokens, the first month `m`'s name in some ASCII case and the
      second text that `int()` reads as `y`. */
  lemma ParseHeaderReads(header: string, m: int, y: int)
    ensures ParseHeader(header) == Success((m, y)) <==>
      var ts := Split(header);
      && |ts| == 2 && 1 <= m <= 12
      && Lower(ts[0]) == MonthNames[m - 1]
      && ParseInt(ts[1]) == Some(y)
  {
    var ts := Split(header);
    if |ts| == 2 && 1 <= m <= 12 && Lower(ts[0]) == MonthNames[m - 1] {
      MonthNumberOfName(m, ts[0]);
    }
  }

  /** A title of a month name and a text that is no integer literal raises
      in `int()`. */
  lemma ParseHeaderBadYear(header: string)
    requires |Split(header)| == 2
    requires Lower(Split(header)[0]) in MonthNames
    requires !IsIntLiteral(StripIntSpace(Split(header)[1]))
    ensures ParseHeader(header) == Failure(BadYear(Split(header)[1]))
  {
    var ts := Split(header);
    ParseIntAccepts(ts[1]);
    assert MonthNumber(ts[0]).Some?;
  }

  lemma HeaderSplits(m: int, name: string, year: int)
    requires 1 <= m <= 12 && Lower(name) == MonthNames[m - 1]
    ensures Split(name + " " + ShowInt(year)) == [name, ShowInt(year)]
  {
    var ts := [name, ShowInt(year)];
    MonthNamesHaveNoSpace(m - 1);
    LowerKeepsSpaces(name);
    ShowIntHasNoSpace(year);
    assert JoinWords(ts) == name + " " + ShowInt(year) by {
      assert ts[1..] == [ShowInt(year)];
    }
    SplitJoinWords(ts);
  }

  /** Round trip: a title made of a month name (in any ASCII case), one
      space and a year reads back as that month and year. */
  lemma HeaderRoundTrip(m: int, name: string, year: int)
    requires 1 <= m <= 12 && Lower(name) == MonthNames[m - 1]
    ensures ParseHeader(name + " " + ShowInt(year)) == Success((m, year))
  {
    HeaderSplits(m, name, year);
    assert MonthNumber(name) == Some(m) by {
      MonthNumberOfName(m, name);
    }
    assert ParseInt(ShowInt(year)) == Some(year) by {
      IntRoundTrip(year, "", "");
      assert "" + ShowInt(year) + "" == ShowInt(year);
    }
  }

  /** The link texts `str(day)` of the given days. */
  function DayLinks(days: seq<int>): (r: seq<string>)
    ensures |r| == |days|
    ensures forall i :: 0 <= i < |days| ==> r[i] == ShowInt(days[i])
  {
    seq(|days|, i requires 0 <= i < |days| => ShowInt(days[i]))
  }

  /** Round trip for a whole month: a page titled with a month name and a
      year, whose links are the numbers of valid days of that month, reads
      back as exactly those dates, in link order, whatever its "next"
      control says. */
  lemma PageRoundTrip(m: int, name: string, year: int, days: seq<int>, nextClass: string)
    requires 1 <= m <= 12 && Lower(name) == MonthNames[m - 1]
    requires forall i :: 0 <= i < |days| ==> IsValid(Date(year, m, days[i]))
    ensures var r := PageDates(Page(name + " " + ShowInt(year), DayLinks(days), nextClass));
      && r.Success? && |r.value| == |days|
      && forall i :: 0 <= i < |days| ==> r.value[i] == Date(year, m, days[i])
  {
    var p := Page(name + " " + ShowInt(year), DayLinks(days), nextClass);
    HeaderRoundTrip(m, name, year);
    PageDatesOfHeader(p, m, year);
    forall i | 0 <= i < |days|
      ensures ParseDay(year, m, p.links[i]) == Success(Date(year, m, days[i]))
    {
      DayRoundTrip(year, m, days[i]);
    }
  }

  lemma DayRoundTrip(year: int, month: int, day: int)
    requires IsValid(Date(year, month, day))
    ensures ParseDay(year, month, ShowInt(day)) == Success(Date(year, month, day))
  {
    IntRoundTrip(day, "", "");
    assert "" + ShowInt(day) + "" == ShowInt(day);
  }

  lemma PageDatesOfHeader(p: Page, month: int, year: int)
    requires ParseHeader(p.header) == Success((month, year))
    ensures PageDates(p) == LinkDates(year, month, p.links)
  {
  }
}
