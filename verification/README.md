# Visa alert bot: calendar extractor and earliest-date watermark

This project models the core of a bot that watches a consular scheduling
portal for an earlier visa appointment, and proves properties of that model.
The core has two parts:

- **The calendar extractor** (`get_earliest_appointment`, from the open
  date-picker on). It pages through at most 24 months of the jQuery UI
  widget. For each month it reads the title `<FullMonthName> <Year>` and one
  day per clickable link, and it stops after the first month whose "next"
  control has a class attribute containing `ui-state-disabled`. It returns the earliest date
  collected, or `None` when it collected none. A malformed title, an
  unknown month name, a non-numeric link or an impossible date makes it
  raise. The same loop appears twice in the repository, in
  `scrape_appointments.py:88-110` and `alert_bot.py:104-127`.
- **The watermark tracker** (`job` and the scheduler loop in
  `alert_bot.py`). `last_seen` is the earliest date seen so far. A scrape
  that raised or found nothing changes nothing. A found date replaces
  `last_seen`, and an alert is sent, only if `last_seen` is unset or the
  date is strictly earlier.

Modules:

- `Wrappers` (`wrappers.dfy`): `Option` and `Result`.
- `Dates` (`dates.dfy`): what `datetime(year, month, day)` accepts (years
  1 to 9999, proleptic Gregorian month lengths), and date order.
- `PyText` (`pytext.dfy`): the Python string operations the parser relies
  on.
  - `str.split()` on Python's 29 whitespace characters.
  - `int()` on text: surrounding whitespace (the same set minus
    U+001C..U+001F), an optional sign, ASCII digits with single
    underscores between them.
  - The ASCII case folding behind `strptime("%B")`.
  - Substring `in`.
- `Calendar` (`calendar.dfy`): reading one month of the widget.
- `Paging` (`paging.dfy`): the bounded paging loop over abstract page
  readings (what each month parsed to, and whether it is the last).
- `Extractor` (`extractor.dfy`): the loop applied to the widget's months,
  and `min(found) if found else None`.
- `Watermark` (`watermark.dfy`): `job()` as a pure step on an explicit
  `last_seen` value, the fold over successive scrapes, and the scheduler
  loop with sends that can fail.

The widget is a sequence of months (`Calendar.Page`): a title, the texts of
the day links, and the class of the "next" control. Clicking "next" moves
to the following element. If the loop needs a month beyond the end of the
sequence, the scan fails with `NoCalendar`, because `find_element` raises
when the widget shows no further month. Whether login and navigation
reached the date-picker is a boolean parameter of
`Watermark.ScrapeOutcome`. So is whether `driver.quit()`, in the `finally`
that closes the browser, raised.

The model follows the code in two places where a reader might expect
otherwise:

- Collected dates are a list, not a set. `Extractor.EarliestDependsOnlyOnValues`
  shows that this does not change the result.
- A failed notification ends the process, because nothing catches the
  exception; see "## Findings".

## Model

| member | source | states |
|---|---|---|
| Dates.DaysInMonth | scrape_appointments.py:101 | a month has 28 to 31 days, and February has 29 exactly in leap years |
| Dates.MakeDate | scrape_appointments.py:101 | `datetime(y, m, d)` succeeds exactly for valid triples and then holds that triple. Otherwise, it first reports the first argument, in argument order, that does not fit a C `int`. Then it reports a year outside 1..9999, then a month outside 1..12, then a day outside the month |
| Dates.MakeDateErrorOrder | scrape_appointments.py:101 | concrete cases: an overflowing day is reported before a year of 0 or a month of 13; a year of 2147483647 is out of range, and a year one below the C `int` minimum overflows; 2027-02-29 has a bad day, and 2028-02-29 is a date |
| Dates.BeforeIsStrictTotalOrder | alert_bot.py:145 | the `<` on dates used to compare with `last_seen` is irreflexive, asymmetric, transitive and total |
| Dates.NotAfterAntisymmetric | scrape_appointments.py:110 | two dates each no later than the other are equal, so `min` has one answer |
| PyText.Split | scrape_appointments.py:93 | `split()` yields non-empty tokens without whitespace whose concatenation is the text with its whitespace removed |
| PyText.SplitSpaced | scrape_appointments.py:93 | words laid out with whitespace-only gaps around them, and at least one whitespace character between two words, split back into exactly those words |
| PyText.SplitLayout | scrape_appointments.py:93 | every text is such a layout of its own split: the tokens are the maximal runs of non-whitespace, and the text is the tokens with its whitespace gaps put back |
| PyText.SplitIsLayout | scrape_appointments.py:93 | `s.split() == ts` exactly when `s` is a layout of the words `ts` |
| PyText.SplitJoinWords | scrape_appointments.py:93 | splitting words joined by single spaces gives back exactly those words |
| PyText.StripPadded | scrape_appointments.py:100 | `int()` strips exactly the leading and trailing whitespace it accepts, whatever token lies between |
| PyText.Lower | scrape_appointments.py:94 | ASCII lower-casing keeps the length and maps each character on its own |
| PyText.Contains | scrape_appointments.py:105 | `pat in s` holds exactly when `pat` occurs at some position of `s` |
| PyText.ParseInt | scrape_appointments.py:95 | `int()` succeeds only on text containing a digit |
| PyText.ParseIntAccepts | scrape_appointments.py:95 | `int()` succeeds exactly when the stripped text is a literal: one optional sign, then ASCII digits with single underscores between them |
| PyText.LiteralValue | scrape_appointments.py:100 | a literal's value is the integer whose `str()` is the literal without `+`, underscores, leading zeros and the sign of zero |
| PyText.ParseIntCanonical | scrape_appointments.py:95 | `int(s) == n` exactly when the stripped `s` is a literal whose canonical form is `str(n)` |
| PyText.ParseNegativeZero | scrape_appointments.py:100 | `int("-0")` is 0 |
| PyText.ParsePlusSign | scrape_appointments.py:100 | `int("+7")` is 7 |
| PyText.DoubledUnderscore | scrape_appointments.py:100 | `int("1__0")` raises |
| PyText.ParseShownInt | scrape_appointments.py:100 | text that strips to the decimal form of `n` parses to `n` |
| PyText.IntRoundTrip | scrape_appointments.py:95 | `int(pad1 + str(n) + pad2) == n` for any whitespace padding that `int()` accepts |
| Calendar.DisabledMeansMarkerOccurs | scrape_appointments.py:105 | a month is the last one exactly when `ui-state-disabled` occurs somewhere in the class of its "next" control |
| Calendar.DisabledClassExample | alert_bot.py:120 | the class jQuery UI gives a disabled "next" control, `ui-datepicker-next ui-corner-all ui-state-disabled`, marks the month as the last one |
| Calendar.MonthNumber | scrape_appointments.py:94 | a month number is 1 to 12 and is given exactly for names that equal that month's English name up to ASCII case; other names raise |
| Calendar.MonthNumberOfName | scrape_appointments.py:94 | every spelling of month `m`'s name, in any ASCII case, reads as `m` |
| Calendar.ParseHeader | scrape_appointments.py:92-95 | a title that reads gives a month between 1 and 12 |
| Calendar.ParseHeaderShape | scrape_appointments.py:92-95 | a title reads only when it splits into exactly two tokens, the first a month name in some ASCII case and the second an integer literal, and then it gives that month and integer |
| Calendar.ParseHeaderTokenCount | scrape_appointments.py:93 | a title with any other number of tokens raises at the unpacking |
| Calendar.ParseHeaderUnknownMonth | scrape_appointments.py:94 | a two-token title whose first token is no month name raises in `strptime` |
| Calendar.ParseHeaderBadYear | scrape_appointments.py:95 | a two-token title whose first token is a month name and whose second is no integer literal raises in `int()` |
| Calendar.ParseHeaderReads | scrape_appointments.py:92-95 | a title reads as `(m, y)` exactly when it splits into two tokens, the first month `m`'s name in some ASCII case and the second text that `int()` reads as `y`. Any whitespace layout, sign, underscores or leading zeros are allowed |
| Calendar.HeaderSplits | scrape_appointments.py:93 | a title `name + " " + str(year)` splits into exactly the month name and the year text |
| Calendar.HeaderRoundTrip | scrape_appointments.py:92-95 | a title `name + " " + str(year)` reads back as `(month, year)` |
| Calendar.ParseDay | scrape_appointments.py:100-101 | a link's date is valid, has the page's month and year, and has the link's number as its day; a failure means the text is not a number or the date is impossible |
| Calendar.DayRoundTrip | scrape_appointments.py:100-101 | the link text `str(day)` of a valid day reads as that date |
| Wrappers.AllSuccesses | scrape_appointments.py:99-101 | a loop that raises at its first bad item: it succeeds exactly when every item does, then holds all values in order; otherwise it holds the error of the first failing item |
| Calendar.LinkDates | scrape_appointments.py:99-101 | the link loop succeeds exactly when every link reads, gives one date per link in order, and otherwise raises the first failing link's error |
| Calendar.PageDates | scrape_appointments.py:92-101 | a month's dates take month and year from its title and day from their link; a readable title with no links gives no dates |
| Calendar.PageRoundTrip | scrape_appointments.py:92-101 | a month titled with a name and a year, with links `str(day)` for valid days, reads as exactly those dates in link order |
| Paging.Collect | scrape_appointments.py:90-108 | a successful loop reads at most the bound and no more months than the widget has, and at least one month when the bound is positive; it can raise only when it runs at least once |
| Paging.CollectMeetsStoppingRule | scrape_appointments.py:90-108 | on success the loop read `n` months, with `n` at most the bound, none before the `n`-th marked last, and the `n`-th marked last or the bound; it returns their dates in order. On failure it raised at the first month that raised, or ran out of months |
| Paging.StopsAtUnique | scrape_appointments.py:90-106 | there is only one month count at which the loop can stop |
| Paging.FailsAtUnique | scrape_appointments.py:90-106 | there is only one point at which the loop can raise, with one error |
| Paging.StopsAtExcludesFailsAt | scrape_appointments.py:90-106 | a widget cannot both stop the loop cleanly and make it raise |
| Paging.CollectSucceedsWhen | scrape_appointments.py:90-108 | when the months up to the stopping point all read, the loop returns exactly their dates and that count |
| Paging.CollectFailsWhen | scrape_appointments.py:90-108 | when a month raises before the stopping point, the loop raises that month's error |
| Paging.CollectReadsPrefix | scrape_appointments.py:90 | readings after the first `fuel` never influence the loop |
| Paging.CollectStopsAtLast | scrape_appointments.py:104-106 | readings after the first one marked last never influence the loop |
| Paging.HarvestedProvenance | scrape_appointments.py:101 | every collected date was read from one of the months read |
| Extractor.Scan | scrape_appointments.py:88-108 | the loop over the widget's months obeys the stopping rule, collects in order the dates of the months it read, and on failure raises at the first month that raises |
| Extractor.ScanHaltsAtFirstDisabled | scrape_appointments.py:90-106 | a successful scan reads 1 to 24 months; no month before the last one read is disabled, the last one is disabled unless it is the 24th, and every month read parsed |
| Extractor.ScanSucceedsWhen | scrape_appointments.py:88-108 | a widget whose months up to the stopping point all read makes the scan succeed with exactly their dates |
| Extractor.ScanFailsWhen | scrape_appointments.py:88-108 | a widget with a raising month before the stopping point makes the scan raise that month's error |
| Extractor.ScanReadsAtMostMaxPages | scrape_appointments.py:90 | months after the 24th never influence the scan |
| Extractor.ScanStopsAtDisabled | scrape_appointments.py:104-106 | months after a disabled one never influence the scan |
| Extractor.EmptyPageDoesNotStop | scrape_appointments.py:99-108 | a readable, non-disabled month without links adds no dates, and the scan goes on to the next month with one iteration fewer |
| Extractor.ScanDatesProvenance | scrape_appointments.py:92-101 | each collected date is valid; its month and year are the title of a month read, and its day is the number in one of that month's links |
| Extractor.ScanDatesAreValid | scrape_appointments.py:101 | every collected date is one `datetime` accepts |
| Extractor.Earliest | scrape_appointments.py:110 | `min(ds) if ds else None`: `None` exactly for no dates, otherwise a collected date no later than every other |
| Extractor.EarliestDependsOnlyOnValues | scrape_appointments.py:110 | the result depends only on which dates were collected, not on their order or multiplicity |
| Extractor.EarliestIgnoresDuplicates | scrape_appointments.py:110 | collecting a date again does not change the result |
| Extractor.GetEarliestAppointment | alert_bot.py:104-127 | raises exactly when the scan raises; returns `None` exactly when no date was collected, and otherwise a valid collected date no later than any other |
| Watermark.EarlierOf | alert_bot.py:145 | the earlier of two watermarks is one of them and no later than either; unset counts as later than any date |
| Watermark.Job | alert_bot.py:135-153 | the new `last_seen` is the earlier of the old one and the found date. It never moves later and is never unset once set. An alert is sent exactly when `last_seen` changes, and it carries the new value, which is stored before the send |
| Watermark.ScrapeOutcome | alert_bot.py:125-142 | `job` sees an exception exactly when navigation failed, the scan raised, or `driver.quit()` raised in the `finally`. It sees `None` exactly when none of these raised and the scan collected nothing. Otherwise it sees the valid minimum of the collected dates |
| Watermark.FailedScrapeChangesNothing | alert_bot.py:129-153 | a scrape that raised (navigation, scan or `driver.quit()`) or found no dates leaves `last_seen` unchanged and sends nothing |
| Watermark.JobIdempotent | alert_bot.py:145 | running `job` again on the date it just accepted sends no second alert and changes nothing |
| Watermark.TrackerExamples | alert_bot.py:144-153 | concrete cases: an unset watermark takes the first date with one alert; an equal date, an empty scrape or a failed scrape change nothing; an earlier date replaces the watermark with an alert |
| Watermark.Run | alert_bot.py:157-161 | a sequence of jobs never leaves `last_seen` later than its start, never unsets it, and sends at most one alert per job |
| Watermark.RunTracksMinimum | alert_bot.py:157-161 | after any sequence of jobs, `last_seen` is the earlier of its start value and the minimum of all dates the scrapes found |
| Watermark.RunFromUnsetIsMinimum | alert_bot.py:133 | starting from unset, `last_seen` is the minimum of all dates found, and stays unset while nothing was found |
| Watermark.RunAppend | alert_bot.py:157-161 | running two sequences of jobs one after the other is the same as running their concatenation |
| Watermark.RunNeverLater | alert_bot.py:145-146 | a run never leaves `last_seen` later than its start, and never unsets it |
| Watermark.RunMonotone | alert_bot.py:145-146 | along the jobs of a run, `last_seen` only moves earlier, and once set it stays set |
| Watermark.RunAlertsStrictlyImprove | alert_bot.py:144-149 | every alert is strictly earlier than the starting watermark and than every earlier alert; the last alert is the final watermark, and without alerts the watermark is unchanged |
| Watermark.RunBotAsWritten | alert_bot.py:149-161 | as written, the scheduler either runs every trigger's job or dies after at least one job. Either way, `last_seen` and the alerts are those of the pure run of the jobs it ran, up to and including the one that crashed |
| Watermark.CrashAtFirstFailedSend | alert_bot.py:149-161 | as written, the process dies exactly at the first job that sends an alert whose send raises. If it died, the last job it ran is that job; if it did not, no job's send raised |
| Watermark.CrashIffSendFails | alert_bot.py:149-161 | as written, the process dies exactly when some job, run on the watermark the jobs before it left, sends an alert whose send raises |
| Watermark.RunBot | alert_bot.py:157-161 | in the corrected scheduler no trigger is lost: the process never dies and runs one job per trigger |
| Watermark.CrashLeavesWatermarkSet | alert_bot.py:146-149 | in the loop as written, jobs stop early only at the first send that fails. Then `last_seen` already holds the date of the alert whose send failed |
| Watermark.SendFailureStopsLaterAlerts | alert_bot.py:149 | in the loop as written, a failed send for 2027-03-10 ends the bot, so the later find of 2027-02-20 is never tracked or alerted; the corrected loop tracks and alerts it |
| Watermark.RunBotIgnoresDeliveries | alert_bot.py:157-161 | in the corrected loop every trigger runs a job, and `last_seen` and the alerts do not depend on how the sends went |

## Left out

- Browser session and navigation (`alert_bot.py:34-102`: driver setup, login, consent checkbox, button clicks, waits): these drive an external browser. Their effect is one parameter, whether the date-picker was reached. Closing the browser (`driver.quit()` in the `finally` at `alert_bot.py:129-130`) is a second parameter, whether that call raised.
- `time.sleep` between months, and the log lines printed throughout: they have no effect on results.
- The Telegram transport (`alert_bot.py:28-30`) and the alert's message text (`alert_bot.py:147`): the alert carries only its date, and a send either returns or raises.
- The 30-minute interval and `while True` loop of the scheduler (`alert_bot.py:157-162`): triggers are a finite sequence, and the initial `job()` call is the first element.
- Loading `.env` settings and `DEBUG` (`alert_bot.py:19-26`): configuration does not affect the core's decisions.
- `login_test.py` and `test_bot.py`: they are a login check and a Telegram send check, outside the core.
- A month whose day table or "next" control is missing, which makes `find_element` raise: the model represents only a widget that shows no further month (`NoCalendar`).
- PyText.Split: its own contract does not say that the tokens are the maximal runs of non-whitespace. `PyText.SplitLayout` and `PyText.SplitIsLayout` prove that.
- PyText.ParseInt: its own contract states only that accepted text contains a digit. When `int()` succeeds, and with which value, is proved by `PyText.ParseIntAccepts` and `PyText.ParseIntCanonical`.
- PyText.ParseInt: handles ASCII digits only. Python's `int()` also accepts other Unicode decimal digits, and it rejects text longer than 4300 digits.
- Calendar.MonthNumber: uses the English month names. `strptime("%B")` follows the process locale.
- Calendar.ParseHeader: its own contract states only that the month is between 1 and 12, to keep every use of it cheap to verify. Its exact readings are proved separately, by `Calendar.ParseHeaderReads` (both directions), `Calendar.ParseHeaderShape`, `Calendar.ParseHeaderTokenCount`, `Calendar.ParseHeaderUnknownMonth`, `Calendar.ParseHeaderBadYear` and `Calendar.HeaderRoundTrip`.
- `if earliest:` and `not last_seen` are modelled as checks for `None`: a `datetime` is always truthy.

## Findings

| source | as written | input that shows it | evidently intended | confidence | as-written member | corrected member |
|---|---|---|---|---|---|---|
| alert_bot.py:149 | The send runs after `last_seen` is updated at line 146. It is outside the `try` of lines 138-142, and `schedule.run_pending()` at line 161 does not catch job exceptions. One failed send therefore ends the bot. | Trigger 1 finds 2027-03-10, and its send raises. Trigger 2 would find 2027-02-20 and would send. | The failure is logged, and the watermark stays updated. Later triggers run and alert on further improvements. | medium, not executed | Watermark.SendFailureStopsLaterAlerts | Watermark.RunBotIgnoresDeliveries |
