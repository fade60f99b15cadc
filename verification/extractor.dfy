/** `get_earliest_appointment` once the session shows the date-picker: page
    through at most 24 months, collect every clickable day, and return the
    earliest one, or `None` when there is none. */
module Extractor {
  import opened Wrappers
  import opened Dates
  import opened Calendar
  import opened Paging

  /** The loop bound `range(24)`. */
  const MaxPages: nat := 24

  /** What the loop learns from one month of the widget. */
  function ReadPage(p: Page): Reading {
    Reading(PageDates(p), Disabled(p))
  }

  /** The widget's months as the loop reads them. Reading has no effect, so
      reading a month the loop never reaches changes nothing. */
  function Readings(pages: seq<Page>): (rs: seq<Reading>)
    ensures |rs| == |pages|
    ensures forall k :: 0 <= k < |pages| ==> rs[k] == ReadPage(pages[k])
  {
    seq(|pages|, k requires 0 <= k < |pages| => ReadPage(pages[k]))
  }

  /** The paging loop as the scraper runs it, 24 iterations at most: on
      success it has read months as the stopping rule says and collected
      their dates in order; on failure it raised at the first month that
      raises. */
  function Scan(pages: seq<Page>): (r: Result<Harvest, ScanError>)
    ensures r.Success? ==> StopsAt(Readings(pages), MaxPages, r.value.pagesRead)
    ensures r.Success? ==>
              && AllRead(Readings(pages)[..r.value.pagesRead])
              && r.value.dates == Harvested(Readings(pages)[..r.value.pagesRead])
    ensures r.Failure? ==> exists k: nat :: FailsAt(Readings(pages), MaxPages, k, r.error)
  {
    CollectMeetsStoppingRule(Readings(pages), MaxPages);
    Collect(Readings(pages), MaxPages)
  }

  /** The scan reads between 1 and 24 months, halts exactly after the first
      month whose "next" control is disabled unless it reaches the 24th
      first, and every month it read parsed. */
  lemma ScanHaltsAtFirstDisabled(pages: seq<Page>)
    requires Scan(pages).Success?
    ensures 1 <= Scan(pages).value.pagesRead <= MaxPages
    ensures Scan(pages).value.pagesRead <= |pages|
    ensures forall k :: 0 <= k < Scan(pages).value.pagesRead - 1 ==> !Disabled(pages[k])
    ensures Scan(pages).value.pagesRead == MaxPages || Disabled(pages[Scan(pages).value.pagesRead - 1])
    ensures forall k :: 0 <= k < Scan(pages).value.pagesRead ==> PageDates(pages[k]).Success?
  {
    var n := Scan(pages).value.pagesRead;
    var rs := Readings(pages);
    assert forall k :: 0 <= k < n ==> rs[..n][k] == rs[k];
  }

  // ---------------------------------------------------------------------------
  // min(found) if found else None

  /** `min(ds)` when `ds` is non-empty, `None` otherwise. */
  function Earliest(ds: seq<Date>): (r: Option<Date>)
    ensures r.None? <==> |ds| == 0
    ensures r.Some? ==> r.value in ds && forall k :: 0 <= k < |ds| ==> NotAfter(r.value, ds[k])
  {
    if |ds| == 0 then None
    else
      match Earliest(ds[1..])
      case None => Some(ds[0])
      case Some(m) => if Before(m, ds[0]) then Some(m) else Some(ds[0])
  }

  /** `get_earliest_appointment()` from the open widget on: the earliest
      date the scan collected, `None` when it collected none, or the error
      the scan raised. */
  function GetEarliestAppointment(pages: seq<Page>): (r: Result<Option<Date>, ScanError>)
    ensures r.Success? <==> Scan(pages).Success?
    ensures r.Success? ==> (r.value.None? <==> |Scan(pages).value.dates| == 0)
    ensures r.Success? && r.value.Some? ==>
              && IsValid(r.value.value)
              && r.value.value in Scan(pages).value.dates
              && forall d :: d in Scan(pages).value.dates ==> NotAfter(r.value.value, d)
  {
    match Scan(pages)
    case Failure(e) => Failure(e)
    case Success(h) =>
      ScanDatesAreValid(pages);
      Success(Earliest(h.dates))
  }

  // ---------------------------------------------------------------------------
  // Properties of the extractor

  /** Every date a scan collects comes from a month the scan read: its month
      and year from that month's title, its day from the text of one of its
      links, and it is a date `datetime` accepts. */
  lemma ScanDatesProvenance(pages: seq<Page>, d: Date)
    requires Scan(pages).Success? && d in Scan(pages).value.dates
    ensures IsValid(d)
    ensures exists k, i ::
              && 0 <= k < Scan(pages).value.pagesRead && 0 <= i < |pages[k].links|
              && ParseHeader(pages[k].header) == Success((d.month, d.year))
              && PyText.ParseInt(pages[k].links[i]) == Some(d.day)
  {
    var n := Scan(pages).value.pagesRead;
    var rs := Readings(pages)[..n];
    HarvestedProvenance(rs, d);
    var k :| 0 <= k < |rs| && d in rs[k].read.value;
    assert rs[k] == ReadPage(pages[k]);
    var ds := PageDates(pages[k]).value;
    var i :| 0 <= i < |ds| && ds[i] == d;
    assert 0 <= i < |pages[k].links|;
  }

  lemma ScanDatesAreValid(pages: seq<Page>)
    requires Scan(pages).Success?
    ensures forall d :: d in Scan(pages).value.dates ==> IsValid(d)
  {
    forall d | d in Scan(pages).value.dates
      ensures IsValid(d)
    {
      ScanDatesProvenance(pages, d);
    }
  }

  /** Completeness: when the months up to the first disabled one (or the
      first 24) all read without error, the scan succeeds with exactly their
      dates. */
  lemma ScanSucceedsWhen(pages: seq<Page>, n: nat)
    requires StopsAt(Readings(pages), MaxPages, n) && AllRead(Readings(pages)[..n])
    ensures Scan(pages) == Success(Harvest(Harvested(Readings(pages)[..n]), n))
  {
    CollectSucceedsWhen(Readings(pages), MaxPages, n);
  }

  /** Completeness of the error path: the scan raises exactly the error of
      the first month it reaches that raises. */
  lemma ScanFailsWhen(pages: seq<Page>, k: nat, e: ScanError)
    requires FailsAt(Readings(pages), MaxPages, k, e)
    ensures Scan(pages) == Failure(e)
  {
    CollectFailsWhen(Readings(pages), MaxPages, k, e);
  }

  lemma ReadingsPrefix(pages: seq<Page>, n: nat)
    requires n <= |pages|
    ensures Readings(pages[..n]) == Readings(pages)[..n]
  {
  }

  /** The scan visits at most 24 months whatever the widget does: months
      after the 24th never influence the result. */
  lemma ScanReadsAtMostMaxPages(pages: seq<Page>)
    requires |pages| >= MaxPages
    ensures Scan(pages) == Scan(pages[..MaxPages])
  {
    CollectReadsPrefix(Readings(pages), MaxPages);
    ReadingsPrefix(pages, MaxPages);
  }

  /** The scan halts at the first month whose "next" control is disabled:
      the months after it never influence the result. */
  lemma ScanStopsAtDisabled(pages: seq<Page>, k: nat)
    requires k < |pages| && Disabled(pages[k])
    ensures Scan(pages) == Scan(pages[..k + 1])
  {
    var rs := Readings(pages);
    assert rs[k].last;
    CollectStopsAtLast(rs, MaxPages, k);
    ReadingsPrefix(pages, k + 1);
    assert Scan(pages) == Collect(rs, MaxPages);
    assert Scan(pages[..k + 1]) == Collect(rs[..k + 1], MaxPages);
  }

  /** A month without clickable days adds nothing but does not end the scan:
      the loop goes on to the next month, and the result is what the rest of
      the widget gives with one iteration fewer, one more month read. */
  lemma EmptyPageDoesNotStop(p: Page, rest: seq<Page>)
    requires p.links == [] && ParseHeader(p.header).Success? && !Disabled(p)
    ensures Scan([p] + rest) == Prepend([], Collect(Readings(rest), MaxPages - 1))
  {
    var rs := Readings([p] + rest);
    assert PageDates(p) == Success([]);
    assert rs[0] == Reading(Success([]), false);
    assert rs[1..] == Readings(rest);
    assert Scan([p] + rest) == Collect(rs, MaxPages);
  }

  /** `min` depends only on which dates were collected: duplicates and
      order do not change the earliest date. */
  lemma EarliestDependsOnlyOnValues(a: seq<Date>, b: seq<Date>)
    requires forall d :: d in a <==> d in b
    ensures Earliest(a) == Earliest(b)
  {
    var ra, rb := Earliest(a), Earliest(b);
    if ra.Some? {
      assert |b| > 0 by {
        assert a[0] in b;
      }
      var i :| 0 <= i < |b| && b[i] == ra.value;
      var j :| 0 <= j < |a| && a[j] == rb.value;
      assert NotAfter(rb.value, b[i]);
      assert NotAfter(ra.value, a[j]);
      NotAfterAntisymmetric(ra.value, rb.value);
    }
  }

  lemma EarliestIgnoresDuplicates(ds: seq<Date>, d: Date)
    requires d in ds
    ensures Earliest(ds + [d]) == Earliest(ds)
  {
    EarliestDependsOnlyOnValues(ds + [d], ds);
  }
}
