/** The month-paging loop of `get_earliest_appointment`, over what each
    iteration learns from the month on screen. The loop reads at most `fuel`
    months; it stops after the first month whose "next" control is
    disabled, raises the first error a month's reading raises, and raises
    `NoCalendar` if the widget has no further month to show. */
module Paging {
  import opened Wrappers
  import opened Dates
  import opened Calendar

  /** What one iteration learns from the month on screen: the dates of its
      day links (or the error reading them raised), and whether its "next"
      control is disabled. */
  datatype Reading = Reading(read: Result<seq<Date>, ScanError>, last: bool)

  /** What one run of the loop collected, and how many months it read. */
  datatype Harvest = Harvest(dates: seq<Date>, pagesRead: nat)

  predicate AllRead(rs: seq<Reading>) {
    forall k :: 0 <= k < |rs| ==> rs[k].read.Success?
  }

  /** The dates of the given months, month after month. */
  function Harvested(rs: seq<Reading>): seq<Date>
    requires AllRead(rs)
  {
    if |rs| == 0 then [] else rs[0].read.value + Harvested(rs[1..])
  }

  /** The stopping rule: with `fuel` iterations, the loop reads exactly `n`
      months when none of the first `n - 1` is the last one and the `n`-th
      is, or `n` is the whole fuel. */
  ghost predicate StopsAt(rs: seq<Reading>, fuel: nat, n: nat) {
    && 1 <= n <= fuel && n <= |rs|
    && (forall k :: 0 <= k < n - 1 ==> !rs[k].last)
    && (n == fuel || rs[n - 1].last)
  }

  /** The loop raises `e` at month `k`: every earlier month was read without
      error and was not the last, and month `k` raised (or was not there). */
  ghost predicate FailsAt(rs: seq<Reading>, fuel: nat, k: nat, e: ScanError) {
    && k < fuel && k <= |rs|
    && (forall j :: 0 <= j < k ==> !rs[j].last && rs[j].read.Success?)
    && (if k == |rs| then e == NoCalendar else rs[k].read == Failure(e))
  }

  /** `for month_index in range(fuel)`: read the month on screen (raising on
      a malformed title or day), keep its dates, stop if its "next" control
      is disabled, else click it and go on. */
  function Collect(rs: seq<Reading>, fuel: nat): (r: Result<Harvest, ScanError>)
    ensures r.Success? ==> r.value.pagesRead <= fuel && r.value.pagesRead <= |rs|
    ensures r.Success? && fuel > 0 ==> 1 <= r.value.pagesRead
    ensures r.Failure? ==> fuel > 0
    decreases fuel
  {
    if fuel == 0 then Success(Harvest([], 0))
    else if |rs| == 0 then Failure(NoCalendar)
    else if rs[0].read.Failure? then Failure(rs[0].read.error)
    else if rs[0].last then Success(Harvest(rs[0].read.value, 1))
    else Prepend(rs[0].read.value, Collect(rs[1..], fuel - 1))
  }

  /** The dates of one more month in front of what the rest of the loop did. */
  function Prepend(ds: seq<Date>, rest: Result<Harvest, ScanError>): Result<Harvest, ScanError> {
    match rest
    case Failure(e) => Failure(e)
    case Success(h) => Success(Harvest(ds + h.dates, h.pagesRead + 1))
  }

  /** The loop meets the stopping rule: on success it has read exactly the
      months `StopsAt` names, all without error, and collected their dates
      in order; on failure it raised at the first month that raises. */
  lemma {:induction false} CollectMeetsStoppingRule(rs: seq<Reading>, fuel: nat)
    ensures fuel == 0 ==> Collect(rs, fuel) == Success(Harvest([], 0))
    ensures Collect(rs, fuel).Success? && fuel > 0 ==>
              StopsAt(rs, fuel, Collect(rs, fuel).value.pagesRead)
    ensures Collect(rs, fuel).Success? ==>
              && Collect(rs, fuel).value.pagesRead <= |rs|
              && AllRead(rs[..Collect(rs, fuel).value.pagesRead])
              && Collect(rs, fuel).value.dates == Harvested(rs[..Collect(rs, fuel).value.pagesRead])
    ensures Collect(rs, fuel).Failure? ==>
              exists k: nat :: FailsAt(rs, fuel, k, Collect(rs, fuel).error)
    decreases fuel
  {
    if fuel == 0 {
    } else if |rs| == 0 {
      assert FailsAt(rs, fuel, 0, NoCalendar);
    } else if rs[0].read.Failure? {
      assert FailsAt(rs, fuel, 0, rs[0].read.error);
    } else if rs[0].last {
      assert rs[..1][1..] == [];
    } else {
      CollectMeetsStoppingRule(rs[1..], fuel - 1);
      match Collect(rs[1..], fuel - 1)
      case Failure(e) =>
        var k: nat :| FailsAt(rs[1..], fuel - 1, k, e);
        assert FailsAt(rs, fuel, k + 1, e);
      case Success(h) =>
        SuccessStep(rs, fuel, h);
    }
  }

  lemma HarvestedCons(r: Reading, rest: seq<Reading>)
    requires r.read.Success? && AllRead(rest)
    ensures AllRead([r] + rest)
    ensures Harvested([r] + rest) == r.read.value + Harvested(rest)
  {
    assert ([r] + rest)[1..] == rest;
  }

  /** A first month that was read and is not the last, followed by a run
      of the loop on the remaining months. */
  lemma SuccessStep(rs: seq<Reading>, fuel: nat, h: Harvest)
    requires fuel > 0 && |rs| > 0 && rs[0].read.Success? && !rs[0].last
    requires fuel - 1 == 0 ==> h == Harvest([], 0)
    requires fuel - 1 > 0 ==> StopsAt(rs[1..], fuel - 1, h.pagesRead)
    requires h.pagesRead <= |rs[1..]| && AllRead(rs[1..][..h.pagesRead])
    requires h.dates == Harvested(rs[1..][..h.pagesRead])
    ensures StopsAt(rs, fuel, h.pagesRead + 1)
    ensures AllRead(rs[..h.pagesRead + 1])
    ensures rs[0].read.value + h.dates == Harvested(rs[..h.pagesRead + 1])
  {
    var m := h.pagesRead;
    assert rs[..m + 1] == [rs[0]] + rs[1..][..m];
    HarvestedCons(rs[0], rs[1..][..m]);
    if m > 0 {
      assert rs[m] == rs[1..][m - 1];
    }
  }

  lemma StopsAtUnique(rs: seq<Reading>, fuel: nat, n1: nat, n2: nat)
    requires StopsAt(rs, fuel, n1) && StopsAt(rs, fuel, n2)
    ensures n1 == n2
  {
  }

  lemma FailsAtUnique(rs: seq<Reading>, fuel: nat, k1: nat, k2: nat, e1: ScanError, e2: ScanError)
    requires FailsAt(rs, fuel, k1, e1) && FailsAt(rs, fuel, k2, e2)
    ensures k1 == k2 && e1 == e2
  {
  }

  /** Stopping by the rule without error and raising at a month are
      mutually exclusive. */
  lemma StopsAtExcludesFailsAt(rs: seq<Reading>, fuel: nat, n: nat, k: nat, e: ScanError)
    requires StopsAt(rs, fuel, n) && AllRead(rs[..n])
    ensures !FailsAt(rs, fuel, k, e)
  {
    if k < n {
      assert rs[..n][k] == rs[k];
    }
  }

  /** Completeness of the stopping rule: when the months up to the first
      last one (or the first `fuel`) are all read without error, the loop
      reads exactly those and collects their dates in order. */
  lemma CollectSucceedsWhen(rs: seq<Reading>, fuel: nat, n: nat)
    requires StopsAt(rs, fuel, n) && AllRead(rs[..n])
    ensures Collect(rs, fuel) == Success(Harvest(Harvested(rs[..n]), n))
  {
    CollectMeetsStoppingRule(rs, fuel);
    var r := Collect(rs, fuel);
    if r.Failure? {
      var k: nat :| FailsAt(rs, fuel, k, r.error);
      StopsAtExcludesFailsAt(rs, fuel, n, k, r.error);
    } else {
      StopsAtUnique(rs, fuel, n, r.value.pagesRead);
    }
  }

  /** Completeness of the error path: the loop raises the error of the
      first month that raises, or `NoCalendar` if it runs out of months
      before the stopping rule is met. */
  lemma CollectFailsWhen(rs: seq<Reading>, fuel: nat, k: nat, e: ScanError)
    requires FailsAt(rs, fuel, k, e)
    ensures Collect(rs, fuel) == Failure(e)
  {
    CollectMeetsStoppingRule(rs, fuel);
    var r := Collect(rs, fuel);
    if r.Success? {
      StopsAtExcludesFailsAt(rs, fuel, r.value.pagesRead, k, e);
    } else {
      var k': nat :| FailsAt(rs, fuel, k', r.error);
      FailsAtUnique(rs, fuel, k, k', e, r.error);
    }
  }

  /** With `fuel` iterations the loop never looks past month `fuel`. */
  lemma {:induction false} CollectReadsPrefix(rs: seq<Reading>, fuel: nat)
    requires fuel <= |rs|
    ensures Collect(rs, fuel) == Collect(rs[..fuel], fuel)
    decreases fuel
  {
    if fuel > 0 {
      assert rs[..fuel][0] == rs[0];
      assert rs[..fuel][1..] == rs[1..][..fuel - 1];
      CollectReadsPrefix(rs[1..], fuel - 1);
    }
  }

  /** The loop never looks past a month whose "next" control is disabled. */
  lemma {:induction false} CollectStopsAtLast(rs: seq<Reading>, fuel: nat, k: nat)
    requires k < |rs| && rs[k].last
    ensures Collect(rs, fuel) == Collect(rs[..k + 1], fuel)
    decreases k
  {
    var prefix := rs[..k + 1];
    assert prefix[0] == rs[0];
    if k > 0 && fuel > 0 {
      assert prefix[1..] == rs[1..][..k];
      assert rs[1..][k - 1] == rs[k];
      CollectStopsAtLast(rs[1..], fuel - 1, k - 1);
    }
  }

  /** Every collected date was read from one of the months the loop read. */
  lemma {:induction false} HarvestedProvenance(rs: seq<Reading>, d: Date)
    requires AllRead(rs) && d in Harvested(rs)
    ensures exists k :: 0 <= k < |rs| && d in rs[k].read.value
  {
    if d !in rs[0].read.value {
      assert AllRead(rs[1..]) by {
        assert forall k :: 0 <= k < |rs| - 1 ==> rs[1..][k] == rs[k + 1];
      }
      HarvestedProvenance(rs[1..], d);
      var k :| 0 <= k < |rs| - 1 && d in rs[1..][k].read.value;
      assert rs[1..][k] == rs[k + 1];
    }
  }
}
