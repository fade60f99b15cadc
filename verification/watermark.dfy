/** The watermark tracker of the alert bot: `last_seen` holds the earliest
    appointment date seen so far (unset at start), and each `job()` compares
    the freshly scraped earliest date against it, replacing it and sending an
    alert only on a strictly earlier date. The global variable is threaded
    through as an explicit state value. */
module Watermark {
  import opened Wrappers
  import opened Dates
  import opened Calendar
  import opened Paging
  import opened Extractor

  /** How one `get_earliest_appointment()` call ended, as `job` sees it:
      it raised, returned `None`, or returned a date. */
  datatype ScanOutcome = Raised | NoneOpen | Found(date: Date)

  /** `last_seen` after one `job()`, and the date of the alert it sent. */
  datatype JobResult = JobResult(lastSeen: Option<Date>, alert: Option<Date>)

  /** The date a scan outcome reports, if any. */
  function Observed(o: ScanOutcome): Option<Date> {
    if o.Found? then Some(o.date) else None
  }

  /** Watermark `a` is no later than `b`; an unset watermark is later than
      every date. */
  predicate NotLater(a: Option<Date>, b: Option<Date>) {
    b.None? || (a.Some? && NotAfter(a.value, b.value))
  }

  /** The earlier of two watermarks. */
  function EarlierOf(a: Option<Date>, b: Option<Date>): (r: Option<Date>)
    ensures NotLater(r, a) && NotLater(r, b)
    ensures r == a || r == b
  {
    if a.None? then b
    else if b.None? then a
    else if Before(b.value, a.value) then b
    else a
  }

  /** One call of `job()`. The new watermark is the earlier of the old one
      and the scraped date; it never moves later and, once set, is never
      unset; an alert goes out exactly when the watermark changes, and it
      carries the new watermark, which is set before the send. */
  function Job(lastSeen: Option<Date>, outcome: ScanOutcome): (r: JobResult)
    ensures r.lastSeen == EarlierOf(lastSeen, Observed(outcome))
    ensures NotLater(r.lastSeen, lastSeen)
    ensures lastSeen.Some? ==> r.lastSeen.Some?
    ensures r.alert.Some? <==> r.lastSeen != lastSeen
    ensures r.alert.Some? ==> r.lastSeen == r.alert
  {
    match outcome
    case Raised => JobResult(lastSeen, None)
    case NoneOpen => JobResult(lastSeen, None)
    case Found(d) =>
      if lastSeen.None? || Before(d, lastSeen.value) then JobResult(Some(d), Some(d))
      else JobResult(lastSeen, None)
  }

  /** What `job` sees of one scrape: the login and navigation either reached
      the open date-picker or raised, then the extractor ran on the widget's
      months, and last the `finally` closed the browser, which may itself
      raise and so replace whatever the scrape returned. */
  function ScrapeOutcome(reachedCalendar: bool, pages: seq<Page>, quitRaised: bool): (r: ScanOutcome)
    ensures r.Raised? <==> !reachedCalendar || Scan(pages).Failure? || quitRaised
    ensures r.NoneOpen? <==> reachedCalendar && !quitRaised && Scan(pages).Success? && |Scan(pages).value.dates| == 0
    ensures r.Found? ==>
              && reachedCalendar && !quitRaised && Scan(pages).Success?
              && IsValid(r.date)
              && r.date in Scan(pages).value.dates
              && forall d :: d in Scan(pages).value.dates ==> NotAfter(r.date, d)
  {
    if !reachedCalendar || quitRaised then Raised
    else
      match GetEarliestAppointment(pages)
      case Failure(_) => Raised
      case Success(None) => NoneOpen
      case Success(Some(d)) => Found(d)
  }

  // ---------------------------------------------------------------------------
  // Successive jobs

  /** `last_seen` after a sequence of jobs, and the alerts they sent. */
  datatype RunResult = RunResult(lastSeen: Option<Date>, alerts: seq<Date>)

  function AlertOf(r: JobResult): seq<Date> {
    if r.alert.Some? then [r.alert.value] else []
  }

  /** The jobs run one after another, each on the watermark the previous one
      left. */
  function Run(lastSeen: Option<Date>, outcomes: seq<ScanOutcome>): (r: RunResult)
    ensures NotLater(r.lastSeen, lastSeen)
    ensures lastSeen.Some? ==> r.lastSeen.Some?
    ensures |r.alerts| <= |outcomes|
    decreases |outcomes|
  {
    if |outcomes| == 0 then RunResult(lastSeen, [])
    else
      var step := Job(lastSeen, outcomes[0]);
      var rest := Run(step.lastSeen, outcomes[1..]);
      RunResult(rest.lastSeen, AlertOf(step) + rest.alerts)
  }

  /** The dates the scrapes of a run found, in order. */
  function FoundDates(outcomes: seq<ScanOutcome>): seq<Date> {
    if |outcomes| == 0 then []
    else if outcomes[0].Found? then [outcomes[0].date] + FoundDates(outcomes[1..])
    else FoundDates(outcomes[1..])
  }

  lemma EarlierOfAssociative(a: Option<Date>, b: Option<Date>, c: Option<Date>)
    ensures EarlierOf(EarlierOf(a, b), c) == EarlierOf(a, EarlierOf(b, c))
  {
  }

  lemma EarliestCons(d: Date, ds: seq<Date>)
    ensures Earliest([d] + ds) == EarlierOf(Some(d), Earliest(ds))
  {
    assert ([d] + ds)[1..] == ds;
  }

  /** The watermark is the earliest date of everything observed: after any
      sequence of jobs, `last_seen` is the earlier of where it started and
      the minimum of all dates the scrapes found. */
  lemma {:induction false} RunTracksMinimum(lastSeen: Option<Date>, outcomes: seq<ScanOutcome>)
    ensures Run(lastSeen, outcomes).lastSeen == EarlierOf(lastSeen, Earliest(FoundDates(outcomes)))
    decreases |outcomes|
  {
    if |outcomes| > 0 {
      var o := outcomes[0];
      RunTracksMinimum(Job(lastSeen, o).lastSeen, outcomes[1..]);
      var rest := Earliest(FoundDates(outcomes[1..]));
      EarlierOfAssociative(lastSeen, Observed(o), rest);
      if o.Found? {
        EarliestCons(o.date, FoundDates(outcomes[1..]));
      }
    }
  }

  /** Starting from an unset watermark, the watermark after any run is
      exactly `min` of all dates found, and unset if none was found. */
  lemma RunFromUnsetIsMinimum(outcomes: seq<ScanOutcome>)
    ensures Run(None, outcomes).lastSeen == Earliest(FoundDates(outcomes))
  {
    RunTracksMinimum(None, outcomes);
  }

  lemma {:induction false} RunAppend(lastSeen: Option<Date>, a: seq<ScanOutcome>, b: seq<ScanOutcome>)
    ensures Run(lastSeen, a + b) == RunResult(
      Run(Run(lastSeen, a).lastSeen, b).lastSeen,
      Run(lastSeen, a).alerts + Run(Run(lastSeen, a).lastSeen, b).alerts)
    decreases |a|
  {
    if |a| == 0 {
      assert a + b == b;
    } else {
      assert (a + b)[0] == a[0];
      assert (a + b)[1..] == a[1..] + b;
      RunAppend(Job(lastSeen, a[0]).lastSeen, a[1..], b);
    }
  }

  lemma {:induction false} RunNeverLater(lastSeen: Option<Date>, outcomes: seq<ScanOutcome>)
    ensures NotLater(Run(lastSeen, outcomes).lastSeen, lastSeen)
    ensures lastSeen.Some? ==> Run(lastSeen, outcomes).lastSeen.Some?
  {
    RunTracksMinimum(lastSeen, outcomes);
  }

  /** Monotonicity: along any sequence of jobs the watermark never moves
      later, and once set it is never unset. */
  lemma RunMonotone(lastSeen: Option<Date>, outcomes: seq<ScanOutcome>, i: nat, j: nat)
    requires i <= j <= |outcomes|
    ensures NotLater(Run(lastSeen, outcomes[..j]).lastSeen, Run(lastSeen, outcomes[..i]).lastSeen)
    ensures Run(lastSeen, outcomes[..i]).lastSeen.Some? ==> Run(lastSeen, outcomes[..j]).lastSeen.Some?
  {
    assert outcomes[..j] == outcomes[..i] + outcomes[i..j];
    RunAppend(lastSeen, outcomes[..i], outcomes[i..j]);
    RunNeverLater(Run(lastSeen, outcomes[..i]).lastSeen, outcomes[i..j]);
  }

  /** Date `d` is strictly earlier than watermark `w`: the job's test for
      updating and alerting. */
  predicate Improves(d: Date, w: Option<Date>) {
    w.None? || Before(d, w.value)
  }

  predicate AllImprove(ds: seq<Date>, w: Option<Date>) {
    forall i :: 0 <= i < |ds| ==> Improves(ds[i], w)
  }

  predicate StrictlyDecreasing(ds: seq<Date>) {
    forall i, j :: 0 <= i < j < |ds| ==> Before(ds[j], ds[i])
  }

  lemma ConsImproving(d: Date, ds: seq<Date>, w: Option<Date>)
    requires Improves(d, w) && AllImprove(ds, Some(d)) && StrictlyDecreasing(ds)
    ensures AllImprove([d] + ds, w) && StrictlyDecreasing([d] + ds)
  {
    var all := [d] + ds;
    forall i | 0 < i < |all|
      ensures Improves(all[i], w)
    {
      assert all[i] == ds[i - 1];
      if w.Some? {
        BeforeIsStrictTotalOrder(all[i], d, w.value);
      }
    }
    forall i, j | 0 <= i < j < |all|
      ensures Before(all[j], all[i])
    {
      assert all[j] == ds[j - 1];
      if i > 0 {
        assert all[i] == ds[i - 1];
      }
    }
  }

  /** The alerts of `r` are strictly earlier than the watermark `w` it started
      from and than every alert before them; the last alert is the final
      watermark, and without alerts the watermark is still `w`. */
  predicate ImprovingRun(w: Option<Date>, r: RunResult) {
    && AllImprove(r.alerts, w)
    && StrictlyDecreasing(r.alerts)
    && (|r.alerts| > 0 ==> r.lastSeen == Some(r.alerts[|r.alerts| - 1]))
    && (|r.alerts| == 0 ==> r.lastSeen == w)
  }

  lemma ImprovingStep(w: Option<Date>, step: JobResult, rest: RunResult)
    requires step.alert.Some? ==> step.lastSeen == step.alert && Improves(step.alert.value, w)
    requires step.alert.None? ==> step.lastSeen == w
    requires ImprovingRun(step.lastSeen, rest)
    ensures ImprovingRun(w, RunResult(rest.lastSeen, AlertOf(step) + rest.alerts))
  {
    var all := AlertOf(step) + rest.alerts;
    if step.alert.Some? {
      var a := step.alert.value;
      ConsImproving(a, rest.alerts, w);
      assert all == [a] + rest.alerts;
      if |rest.alerts| > 0 {
        assert all[|all| - 1] == rest.alerts[|rest.alerts| - 1];
      }
    } else {
      assert all == rest.alerts;
    }
  }

  /** Every alert of a run is strictly earlier than the watermark the run
      started from and than every alert before it; the last alert is the
      final watermark, and a run without alerts leaves the watermark alone. */
  lemma {:induction false} RunAlertsStrictlyImprove(lastSeen: Option<Date>, outcomes: seq<ScanOutcome>)
    ensures ImprovingRun(lastSeen, Run(lastSeen, outcomes))
    decreases |outcomes|
  {
    if |outcomes| > 0 {
      var step := Job(lastSeen, outcomes[0]);
      RunAlertsStrictlyImprove(step.lastSeen, outcomes[1..]);
      var rest := Run(step.lastSeen, outcomes[1..]);
      assert step.alert.Some? ==> Improves(step.alert.value, lastSeen);
      ImprovingStep(lastSeen, step, rest);
    }
  }

  /** Idempotence: repeating a scrape that found the same date right after
      it was accepted sends no second alert and changes nothing. */
  lemma JobIdempotent(lastSeen: Option<Date>, d: Date)
    ensures Job(Job(lastSeen, Found(d)).lastSeen, Found(d)) == JobResult(Job(lastSeen, Found(d)).lastSeen, None)
  {
  }

  /** A scrape that raised (in navigation, in the scan or on closing the
      browser), or found nothing, leaves `last_seen` alone and
      sends nothing, whatever the widget held. */
  lemma FailedScrapeChangesNothing(lastSeen: Option<Date>, reachedCalendar: bool, pages: seq<Page>, quitRaised: bool)
    requires !reachedCalendar || quitRaised || Scan(pages).Failure? || |Scan(pages).value.dates| == 0
    ensures Job(lastSeen, ScrapeOutcome(reachedCalendar, pages, quitRaised)) == JobResult(lastSeen, None)
  {
  }

  /** The worked cases of the tracker, with watermark 2027-03-10. */
  lemma TrackerExamples()
    ensures Job(None, Found(Date(2027, 3, 10))) == JobResult(Some(Date(2027, 3, 10)), Some(Date(2027, 3, 10)))
    ensures Job(Some(Date(2027, 3, 10)), Found(Date(2027, 3, 10))) == JobResult(Some(Date(2027, 3, 10)), None)
    ensures Job(Some(Date(2027, 3, 10)), Found(Date(2027, 2, 20))) == JobResult(Some(Date(2027, 2, 20)), Some(Date(2027, 2, 20)))
    ensures Job(Some(Date(2027, 3, 10)), NoneOpen) == JobResult(Some(Date(2027, 3, 10)), None)
    ensures Job(Some(Date(2027, 3, 10)), Raised) == JobResult(Some(Date(2027, 3, 10)), None)
    ensures Earliest([Date(2027, 3, 10), Date(2027, 4, 1)]) == Some(Date(2027, 3, 10))
  {
    assert [Date(2027, 3, 10), Date(2027, 4, 1)][1..] == [Date(2027, 4, 1)];
  }

  // ---------------------------------------------------------------------------
  // The scheduler loop, and a failing send

  /** Whether `asyncio.run(send_telegram(msg))` returned or raised. */
  datatype Delivery = Delivered | SendRaised

  /** One trigger of the scheduler: the scrape's outcome, and how the send
      would go if the job sends an alert. */
  datatype Cycle = Cycle(outcome: ScanOutcome, delivery: Delivery)

  /** The bot after a sequence of triggers: the tracker's state and alerts,
      how many jobs ran, and whether the process died. */
  datatype BotRun = BotRun(tracker: RunResult, jobsRun: nat, crashed: bool)

  function Outcomes(cycles: seq<Cycle>): (os: seq<ScanOutcome>)
    ensures |os| == |cycles|
    ensures forall k :: 0 <= k < |cycles| ==> os[k] == cycles[k].outcome
  {
    seq(|cycles|, k requires 0 <= k < |cycles| => cycles[k].outcome)
  }

  /** Job `k` of the triggers `cycles` sends an alert, and that send raises.
      The job runs on the watermark that the `k` jobs before it left. */
  predicate SendFails(lastSeen: Option<Date>, cycles: seq<Cycle>, k: int) {
    && 0 <= k < |cycles|
    && Job(Run(lastSeen, Outcomes(cycles[..k])).lastSeen, cycles[k].outcome).alert.Some?
    && cycles[k].delivery == SendRaised
  }

  /** Job `k` is the first whose send raises. */
  predicate FirstFailedSend(lastSeen: Option<Date>, cycles: seq<Cycle>, k: int) {
    && SendFails(lastSeen, cycles, k)
    && forall j :: 0 <= j < k ==> !SendFails(lastSeen, cycles, j)
  }

  lemma SendFailsFirst(lastSeen: Option<Date>, cycles: seq<Cycle>)
    requires |cycles| > 0
    ensures SendFails(lastSeen, cycles, 0) <==>
              Job(lastSeen, cycles[0].outcome).alert.Some? && cycles[0].delivery == SendRaised
  {
    assert Outcomes(cycles[..0]) == [];
  }

  /** Job `k > 0` of `cycles` is job `k - 1` of the triggers after the first,
      started from the watermark the first job left. */
  lemma SendFailsShift(lastSeen: Option<Date>, cycles: seq<Cycle>, k: int)
    requires 0 < k < |cycles|
    ensures SendFails(lastSeen, cycles, k) <==>
              SendFails(Job(lastSeen, cycles[0].outcome).lastSeen, cycles[1..], k - 1)
  {
    var os := Outcomes(cycles[..k]);
    assert os[0] == cycles[0].outcome;
    assert os[1..] == Outcomes(cycles[1..][..k - 1]);
    assert cycles[1..][k - 1] == cycles[k];
  }

  lemma SendFailsShiftAll(lastSeen: Option<Date>, cycles: seq<Cycle>)
    requires |cycles| > 0
    ensures forall k :: 0 < k < |cycles| ==>
              (SendFails(lastSeen, cycles, k) <==>
               SendFails(Job(lastSeen, cycles[0].outcome).lastSeen, cycles[1..], k - 1))
  {
    forall k | 0 < k < |cycles|
      ensures SendFails(lastSeen, cycles, k) <==>
                SendFails(Job(lastSeen, cycles[0].outcome).lastSeen, cycles[1..], k - 1)
    {
      SendFailsShift(lastSeen, cycles, k);
    }
  }

  /** A first job whose send did not raise passes the first failed send of
      the later jobs on, one position later. */
  lemma CrashStep(lastSeen: Option<Date>, cycles: seq<Cycle>, jobsRun: nat, crashed: bool)
    requires |cycles| > 0 && !SendFails(lastSeen, cycles, 0)
    requires var w := Job(lastSeen, cycles[0].outcome).lastSeen;
      && (!crashed ==> forall k :: 0 <= k < |cycles| - 1 ==> !SendFails(w, cycles[1..], k))
      && (crashed ==> 0 < jobsRun && FirstFailedSend(w, cycles[1..], jobsRun - 1))
    ensures !crashed ==> forall k :: 0 <= k < |cycles| ==> !SendFails(lastSeen, cycles, k)
    ensures crashed ==> FirstFailedSend(lastSeen, cycles, jobsRun)
  {
    SendFailsShiftAll(lastSeen, cycles);
  }

  /** The scheduler as written: the send sits outside the `try` that guards
      the scrape, and the scheduler does not catch what a job raises, so a
      raising send ends the process, after `last_seen` was already set.
      Until then it tracks what the pure run of the jobs it ran tracks. */
  function RunBotAsWritten(lastSeen: Option<Date>, cycles: seq<Cycle>): (r: BotRun)
    ensures r.jobsRun <= |cycles|
    ensures !r.crashed ==> r.jobsRun == |cycles| && r.tracker == Run(lastSeen, Outcomes(cycles))
    ensures r.crashed ==> 0 < r.jobsRun && r.tracker == Run(lastSeen, Outcomes(cycles[..r.jobsRun]))
    decreases |cycles|
  {
    if |cycles| == 0 then BotRun(RunResult(lastSeen, []), 0, false)
    else
      var step := Job(lastSeen, cycles[0].outcome);
      if step.alert.Some? && cycles[0].delivery == SendRaised then
        assert Outcomes(cycles[..1]) == [cycles[0].outcome];
        assert Outcomes(cycles[..1])[1..] == [];
        BotRun(RunResult(step.lastSeen, AlertOf(step)), 1, true)
      else
        var rest := RunBotAsWritten(step.lastSeen, cycles[1..]);
        assert Outcomes(cycles)[1..] == Outcomes(cycles[1..]);
        assert rest.crashed ==> Outcomes(cycles[..rest.jobsRun + 1])[1..] == Outcomes(cycles[1..][..rest.jobsRun]);
        BotRun(RunResult(rest.tracker.lastSeen, AlertOf(step) + rest.tracker.alerts), rest.jobsRun + 1, rest.crashed)
  }

  /** As written, the process dies exactly at the first job whose send
      raises: if it died, job `jobsRun - 1` is that job; if it did not, no
      job's send raised. */
  lemma {:induction false} CrashAtFirstFailedSend(lastSeen: Option<Date>, cycles: seq<Cycle>)
    ensures var r := RunBotAsWritten(lastSeen, cycles);
      && (r.crashed ==> FirstFailedSend(lastSeen, cycles, r.jobsRun - 1))
      && (!r.crashed ==> forall k :: 0 <= k < |cycles| ==> !SendFails(lastSeen, cycles, k))
    decreases |cycles|
  {
    if |cycles| > 0 {
      SendFailsFirst(lastSeen, cycles);
      var step := Job(lastSeen, cycles[0].outcome);
      if !(step.alert.Some? && cycles[0].delivery == SendRaised) {
        CrashAtFirstFailedSend(step.lastSeen, cycles[1..]);
        var rest := RunBotAsWritten(step.lastSeen, cycles[1..]);
        var r := RunBotAsWritten(lastSeen, cycles);
        assert r.jobsRun == rest.jobsRun + 1 && r.crashed == rest.crashed;
        CrashStep(lastSeen, cycles, rest.jobsRun, rest.crashed);
      }
    }
  }

  /** The process dies exactly when some job's send raises. */
  lemma CrashIffSendFails(lastSeen: Option<Date>, cycles: seq<Cycle>)
    ensures RunBotAsWritten(lastSeen, cycles).crashed <==> exists k :: SendFails(lastSeen, cycles, k)
  {
    CrashAtFirstFailedSend(lastSeen, cycles);
    var r := RunBotAsWritten(lastSeen, cycles);
    if r.crashed {
      assert SendFails(lastSeen, cycles, r.jobsRun - 1);
    }
  }

  /** The scheduler as intended: a failed send is logged, is not retried,
      does not roll the watermark back, and the next trigger runs as usual. */
  function RunBot(lastSeen: Option<Date>, cycles: seq<Cycle>): (r: BotRun)
    ensures !r.crashed && r.jobsRun == |cycles|
    decreases |cycles|
  {
    if |cycles| == 0 then BotRun(RunResult(lastSeen, []), 0, false)
    else
      var step := Job(lastSeen, cycles[0].outcome);
      var rest := RunBot(step.lastSeen, cycles[1..]);
      BotRun(RunResult(rest.tracker.lastSeen, AlertOf(step) + rest.tracker.alerts), rest.jobsRun + 1, false)
  }

  /** As written, a process that died did so on the send of its last alert,
      the first send that raised, and that alert's date was already the
      watermark. */
  lemma {:induction false} CrashLeavesWatermarkSet(lastSeen: Option<Date>, cycles: seq<Cycle>)
    ensures var r := RunBotAsWritten(lastSeen, cycles);
      && r.jobsRun <= |cycles|
      && (!r.crashed ==> r.jobsRun == |cycles|)
      && (r.crashed ==>
            && 0 < r.jobsRun
            && FirstFailedSend(lastSeen, cycles, r.jobsRun - 1)
            && |r.tracker.alerts| > 0
            && r.tracker.lastSeen == Some(r.tracker.alerts[|r.tracker.alerts| - 1]))
    decreases |cycles|
  {
    CrashAtFirstFailedSend(lastSeen, cycles);
    if |cycles| > 0 {
      var step := Job(lastSeen, cycles[0].outcome);
      if !(step.alert.Some? && cycles[0].delivery == SendRaised) {
        CrashLeavesWatermarkSet(step.lastSeen, cycles[1..]);
      }
    }
  }

  /** The discrepancy, on a concrete run: an alert for 2027-03-10 whose send
      raises ends the process, so the strictly earlier 2027-02-20 found by
      the next trigger is never tracked or alerted. */
  lemma SendFailureStopsLaterAlerts()
    ensures var cycles := [Cycle(Found(Date(2027, 3, 10)), SendRaised), Cycle(Found(Date(2027, 2, 20)), Delivered)];
      && RunBotAsWritten(None, cycles) == BotRun(RunResult(Some(Date(2027, 3, 10)), [Date(2027, 3, 10)]), 1, true)
      && RunBot(None, cycles) == BotRun(RunResult(Some(Date(2027, 2, 20)), [Date(2027, 3, 10), Date(2027, 2, 20)]), 2, false)
  {
    var cycles := [Cycle(Found(Date(2027, 3, 10)), SendRaised), Cycle(Found(Date(2027, 2, 20)), Delivered)];
    assert cycles[1..][1..] == [];
  }

  /** As intended, how sends go never affects tracking: every trigger runs a
      job, and the watermark and alerts are those of the jobs alone. */
  lemma {:induction false} RunBotIgnoresDeliveries(lastSeen: Option<Date>, cycles: seq<Cycle>)
    ensures RunBot(lastSeen, cycles) == BotRun(Run(lastSeen, Outcomes(cycles)), |cycles|, false)
    decreases |cycles|
  {
    if |cycles| > 0 {
      var step := Job(lastSeen, cycles[0].outcome);
      RunBotIgnoresDeliveries(step.lastSeen, cycles[1..]);
      assert Outcomes(cycles)[1..] == Outcomes(cycles[1..]);
    }
  }
}
