/**
 * The predicted renewal time against the sweeps that really run.  A page may be made
 * at any moment after the start of the program: before the first sweep, while a sweep
 * runs, or while the very renewal is under way.
 */
module Prediction {
  import opened Wrappers
  import opened GoTime
  import opened Meta
  import opened Storage
  import opened Renewal
  import opened Scheduler
  import CheckTime

  /** The program started at `started` and set its timer at `later`. */
  predicate Launched(p: Plan, started: int, later: int, offset: int, schedule: string)
  {
    started <= later && p.first == Max(CheckTime.NextRunAt(started, offset, schedule), later)
  }

  /** A page made at `now` shows what the store held before visit `m`, the first that is not over. */
  predicate FirstVisit(records: seq<Record>, i: nat, now: int, m: nat)
    requires Visited(records, i)
  {
    && m < |records| && now <= records[m].visits[i].end
    && (m > 0 ==> records[m - 1].visits[i].end < now)
  }

  /** From visit `m` to before visit `k` no renewal is attempted. */
  predicate NoAttempt(records: seq<Record>, i: nat, m: nat, k: nat)
    requires Visited(records, i) && k <= |records|
  {
    forall j :: m <= j < k ==> !records[j].visits[i].attempted
  }

  /** What visit `j` learns from its probe. */
  function ProbeAt(p: Plan, i: nat, j: nat): Option<int>
    requires i < |p.certs| && j < |p.sweeps| && i < |p.sweeps[j]|
  {
    Probed(p.certs[i], p.sweeps[j][i].remote)
  }

  /**
   * The expiry a page shows before visit `m` is the stored one; or nothing is stored and
   * it is the probed one, which the probes before visit `n` go on finding.
   */
  ghost predicate Seen(p: Plan, records: seq<Record>, i: nat, expiry: int, m: nat, n: nat)
    requires p.Valid() && i < |p.certs| && m <= |records| && n <= |records| <= |p.sweeps|
  {
    match LocalExpiry(p.der, StoreBefore(p, records, m), p.certs[i].alias)
    case Some(stored) => stored == expiry
    case None => forall j :: m <= j < n ==> ProbeAt(p, i, j) == Some(expiry)
  }

  /** The page at `now` shows an expiry that holds for the visits from `m` to before `n`. */
  ghost predicate Shown(p: Plan, records: seq<Record>, i: nat, expiry: int, now: int, m: nat, n: nat)
  {
    && p.Valid() && p.Runs(records) && ShortSweeps(records) && i < |p.certs| && p.certs[i].autoRenew
    && Visited(records, i) && FirstVisit(records, i, now, m) && n <= |records|
    && Seen(p, records, i, expiry, m, n)
  }

  /** The page at `now` shows an expiry, and visit `k` is the next to attempt the renewal. */
  ghost predicate NextAttempt(p: Plan, records: seq<Record>, i: nat, expiry: int, now: int, m: nat, k: nat)
  {
    && Shown(p, records, i, expiry, now, m, k + 1)
    && m <= k < |records| && NoAttempt(records, i, m, k) && records[k].visits[i].attempted
  }

  /** Where the search of a prediction starts: at the clock or the threshold, whichever is later. */
  function From(expiry: int, lead: int, now: int): int
  {
    if expiry - lead * DAY < now then now else expiry - lead * DAY
  }

  /** A sweep that does not attempt the renewal of a certificate leaves its stored chain. */
  lemma SweepKeeps(p: Plan, records: seq<Record>, i: nat, j: nat)
    requires p.Valid() && p.Runs(records) && i < |p.certs| && Visited(records, i) && j < |records|
    requires !records[j].visits[i].attempted
    ensures Lookup(records[j].files, Path(p.certs[i].alias, FullchainPem))
         == Lookup(StoreBefore(p, records, j), Path(p.certs[i].alias, FullchainPem))
  {
    hide Sweep;
    hide NextStart;
    hide LocalExpiry;
    assert p.Follows(records, j);
    SweepFrame(NextStart(p.first, records[..j]), StoreBefore(p, records, j), p.certs, p.sweeps[j], p.lead, p.der,
               Path(p.certs[i].alias, FullchainPem));
  }

  lemma {:induction false} KeptWithoutAttempt(p: Plan, records: seq<Record>, i: nat, m: nat, k: nat)
    requires p.Valid() && p.Runs(records) && i < |p.certs| && Visited(records, i)
    requires m <= k <= |records| && NoAttempt(records, i, m, k)
    ensures Lookup(StoreBefore(p, records, k), Path(p.certs[i].alias, FullchainPem))
         == Lookup(StoreBefore(p, records, m), Path(p.certs[i].alias, FullchainPem))
    decreases k
  {
    if m < k {
      KeptWithoutAttempt(p, records, i, m, k - 1);
      SweepKeeps(p, records, i, k - 1);
    }
  }

  /** The decision of a visit on the expiry a page shows, if nothing was attempted since. */
  lemma Decided(p: Plan, records: seq<Record>, i: nat, expiry: int, now: int, m: nat, k: nat)
    requires Shown(p, records, i, expiry, now, m, k + 1) && m <= k && NoAttempt(records, i, m, k)
    ensures records[k].visits[i].attempted <==> expiry - p.lead * DAY < records[k].visits[i].at
  {
    KeptWithoutAttempt(p, records, i, m, k);
    DecidedInRun(p, records, i, k);
    assert LocalExpiry(p.der, StoreBefore(p, records, k), p.certs[i].alias)
        == LocalExpiry(p.der, StoreBefore(p, records, m), p.certs[i].alias);
    if LocalExpiry(p.der, StoreBefore(p, records, m), p.certs[i].alias).None? {
      assert ProbeAt(p, i, k) == Some(expiry);
    }
  }

  /** The probe of visit `j` finds a certificate that is not due at its moment. */
  predicate Waits(p: Plan, records: seq<Record>, i: nat, j: nat)
    requires p.Valid() && i < |p.certs| && j < |records| <= |p.sweeps| && i < |records[j].visits|
  {
    ProbeAt(p, i, j).Some? && !Due(ProbeAt(p, i, j).value, records[j].visits[i].at, p.lead)
  }

  /**
   * With nothing stored, whatever a page shows: the visits make no attempt if and only
   * if each of their probes finds a certificate that is not due.  One lost probe is
   * enough for a renewal.
   */
  lemma {:induction false} UnstoredWaitsIff(p: Plan, records: seq<Record>, i: nat, m: nat, n: nat)
    requires p.Valid() && p.Runs(records) && i < |p.certs| && p.certs[i].autoRenew && Visited(records, i)
    requires m <= n <= |records| && LocalExpiry(p.der, StoreBefore(p, records, m), p.certs[i].alias).None?
    ensures NoAttempt(records, i, m, n) <==> forall j :: m <= j < n ==> Waits(p, records, i, j)
    decreases n
  {
    if m < n {
      UnstoredWaitsIff(p, records, i, m, n - 1);
      if NoAttempt(records, i, m, n - 1) {
        UnstoredDecides(p, records, i, m, n - 1);
      }
    }
  }

  lemma UnstoredDecides(p: Plan, records: seq<Record>, i: nat, m: nat, k: nat)
    requires p.Valid() && p.Runs(records) && i < |p.certs| && p.certs[i].autoRenew && Visited(records, i)
    requires m <= k < |records| && NoAttempt(records, i, m, k)
    requires LocalExpiry(p.der, StoreBefore(p, records, m), p.certs[i].alias).None?
    ensures records[k].visits[i].attempted <==> !Waits(p, records, i, k)
  {
    KeptWithoutAttempt(p, records, i, m, k);
    DecidedInRun(p, records, i, k);
    assert LocalExpiry(p.der, StoreBefore(p, records, k), p.certs[i].alias).None?;
  }

  /** Where a visit lies in its sweep. */
  lemma VisitInSweep(p: Plan, records: seq<Record>, i: nat, k: nat)
    requires p.Runs(records) && ShortSweeps(records) && i < |p.certs| && Visited(records, i) && k < |records|
    ensures var v, r := records[k].visits[i], records[k];
            && r.start <= v.at <= v.end <= r.end < r.start + DAY
            && (!v.attempted ==> v.at == v.end)
  {
    assert p.Follows(records, k);
    SweepVisits(NextStart(p.first, records[..k]), StoreAfter(p.files, records[..k]), p.certs, p.sweeps[k],
                p.lead, p.der, i);
  }

  /** Sweeps do not overlap. */
  lemma SweepsOrdered(p: Plan, records: seq<Record>, m: nat, k: nat)
    requires p.Runs(records) && ShortSweeps(records) && m < k < |records|
    ensures records[m].end <= records[k].start
  {
    SweepGrid(p, records, m);
    SweepGrid(p, records, k);
    DaysOrdered(m + 1, k);
    DaysOrdered(0, k);
  }

  lemma ShownLess(p: Plan, records: seq<Record>, i: nat, expiry: int, now: int, m: nat, n: nat, less: nat)
    requires Shown(p, records, i, expiry, now, m, n) && less <= n
    ensures Shown(p, records, i, expiry, now, m, less)
  {
  }

  /** The attempt comes after the threshold, and after the page unless it is under way when the page is made. */
  lemma AttemptAfter(p: Plan, records: seq<Record>, i: nat, expiry: int, now: int, m: nat, k: nat)
    requires NextAttempt(p, records, i, expiry, now, m, k)
    ensures expiry - p.lead * DAY < records[k].visits[i].at
    ensures now <= records[k].visits[i].end
    ensures records[k].visits[i].at < now ==> k == m
  {
    Decided(p, records, i, expiry, now, m, k);
    if m < k {
      VisitInSweep(p, records, i, m);
      VisitInSweep(p, records, i, k);
      SweepsOrdered(p, records, m, k);
    }
  }

  /** The sweep before it starts before the page, or not after the threshold. */
  lemma SweepBefore(p: Plan, records: seq<Record>, i: nat, expiry: int, now: int, m: nat, k: nat)
    requires NextAttempt(p, records, i, expiry, now, m, k) && 1 <= k
    ensures var start := records[k - 1].start; start < now || start <= expiry - p.lead * DAY
  {
    hide LocalExpiry;
    hide Plan.Runs;
    hide ShortSweeps;
    VisitInSweep(p, records, i, k - 1);
    if m < k {
      ShownLess(p, records, i, expiry, now, m, k + 1, k);
      Decided(p, records, i, expiry, now, m, k - 1);
    }
  }

  /** The second sweep attempts, and page and threshold come no later than the end of the first. */
  predicate Early(records: seq<Record>, from: int, k: nat)
    requires records != []
  {
    k == 1 && from <= records[0].end
  }

  /** When the sweep that attempts starts, seen from where the prediction starts to search. */
  lemma SweepBracket(p: Plan, records: seq<Record>, i: nat, expiry: int, now: int, m: nat, k: nat)
    requires NextAttempt(p, records, i, expiry, now, m, k) && p.first < now + DAY
    ensures var from, start := From(expiry, p.lead, now), records[k].start;
            && from - DAY < start && (Early(records, from, k) ==> start < from + 2 * DAY)
            && (!Early(records, from, k) && 1 <= k ==> start <= from + DAY)
            && (!Early(records, from, k) && 1 <= k && start == from + DAY ==> from == expiry - p.lead * DAY)
            && (k == 0 ==> start == p.first)
  {
    hide NoAttempt;
    hide LocalExpiry;
    hide FirstVisit;
    hide Plan.Runs;
    hide ShortSweeps;
    AttemptAfter(p, records, i, expiry, now, m, k);
    VisitInSweep(p, records, i, k);
    SweepGrid(p, records, k);
    if 1 <= k {
      SweepBefore(p, records, i, expiry, now, m, k);
      VisitInSweep(p, records, i, k - 1);
      SweepGrid(p, records, k - 1);
      OneMoreDay(records[0].end, k - 1);
    }
  }

  lemma OneMoreDay(created: int, k: int)
    ensures created + (k + 1) * DAY == created + k * DAY + DAY
  {
  }

  /** A page is made less than a day before the first sweep, if at all before it. */
  lemma PageAfterLaunch(p: Plan, started: int, later: int, offset: int, schedule: string, now: int)
    requires Launched(p, started, later, offset, schedule) && later <= now
    ensures p.first < now + DAY
  {
    CheckTime.NextRunAtInDay(started, offset, schedule);
  }

  /**
   * In every run, for every page made after the start of the program and in all zones,
   * as long as the probe goes on finding the expiry where nothing is stored:
   * the next visit to attempt the renewal comes less than a day before the predicted
   * time, or is under way when the page is made and began less than two days before
   * it; it comes less than two days after it, or three when page and threshold come no
   * later than the end of the first sweep and the second one attempts.
   */
  lemma PredictionAgainstVisits(p: Plan, records: seq<Record>, i: nat, expiry: int, now: int, m: nat, k: nat,
                                started: int, later: int, expiryOffset: int, offset: int, schedule: string,
                                predicted: int)
    requires NextAttempt(p, records, i, expiry, now, m, k)
    requires Launched(p, started, later, offset, schedule) && later <= now
    requires Some(predicted) == CheckTime.ExpectedRenewAt(expiry, expiryOffset, now, offset, p.lead, schedule, true)
    ensures var v := records[k].visits[i];
            && (v.at < now ==> now <= v.end && predicted - 2 * DAY < v.at)
            && (now <= v.at ==> predicted - DAY < v.at)
            && v.at < predicted + (if Early(records, From(expiry, p.lead, now), k) then 3 else 2) * DAY
  {
    hide NoAttempt;
    hide LocalExpiry;
    hide FirstVisit;
    hide Plan.Runs;
    hide ShortSweeps;
    hide CheckTime.ExpectedRenewAt;
    PageAfterLaunch(p, started, later, offset, schedule, now);
    SweepBracket(p, records, i, expiry, now, m, k);
    AttemptAfter(p, records, i, expiry, now, m, k);
    VisitInSweep(p, records, i, k);
    CheckTime.ExpectedInItsDay(expiry, expiryOffset, now, offset, p.lead, schedule);
  }

  /** How far past the daily check time the ticker ticks. */
  function Shift(records: seq<Record>, anchor: int): int
    requires records != []
  {
    (records[0].end - anchor) % DAY
  }

  /** A later sweep's start, by the shift and whole days away from a time. */
  predicate Near(start: int, shift: int, predicted: int, threshold: int, early: bool)
  {
    || start == predicted + shift
    || start == predicted + shift - DAY
    || (start == predicted + shift - 2 * DAY && 0 < shift)
    || (start == predicted + shift + DAY && (early || (shift == 0 && predicted == threshold)))
  }

  /** Whole days from a check time, a sweep start differs from a prediction by the shift and whole days. */
  lemma WholeDaysApart(created: int, anchor: int, predicted: int, k: int) returns (q: int)
    requires (predicted - anchor) % DAY == 0
    ensures created + k * DAY == predicted + (created - anchor) % DAY + q * DAY
  {
    var a, b := (created - anchor) / DAY, (predicted - anchor) / DAY;
    q := a + k - b;
    assert q * DAY == a * DAY + k * DAY - b * DAY;
  }

  lemma NearIn(start: int, shift: int, predicted: int, from: int, threshold: int, early: bool, q: int)
    requires start == predicted + shift + q * DAY && 0 <= shift < DAY
    requires from <= predicted < from + DAY && from - DAY < start
    requires if early then start < from + 2 * DAY
             else start <= from + DAY && (start == from + DAY ==> from == threshold)
    ensures Near(start, shift, predicted, threshold, early)
    ensures start == predicted <==> shift == 0 && from <= start < from + DAY
  {
    if q <= -3 {
      DaysOrdered(q, -3);
    } else if 2 <= q {
      DaysOrdered(2, q);
    }
  }

  /** What a prediction in the scheduler's own zone is. */
  predicate InZone(expiry: int, now: int, lead: int, expiryOffset: int, offset: int)
  {
    Due(expiry, now, lead) || (expiryOffset - offset) % 86400 == 0
  }

  /**
   * Where the prediction is that of the scheduler's zone, a later sweep that attempts
   * starts by the shift of the ticker and whole days away from it: on its day, or one
   * or two days before it when the visit comes late in the sweep or is under way; a
   * day after it only if page and threshold come no later than the end of the first
   * sweep, or prediction and an earlier sweep are exactly the threshold.  The sweep
   * starts at the predicted time if and only if the ticker is not shifted and the
   * start falls in the day the prediction searches.
   */
  lemma PredictionAgainstSweeps(p: Plan, records: seq<Record>, i: nat, expiry: int, now: int, m: nat, k: nat,
                                started: int, later: int, expiryOffset: int, offset: int, schedule: string,
                                predicted: int)
    requires NextAttempt(p, records, i, expiry, now, m, k) && 1 <= k
    requires Launched(p, started, later, offset, schedule) && later <= now
    requires Some(predicted) == CheckTime.ExpectedRenewAt(expiry, expiryOffset, now, offset, p.lead, schedule, true)
    requires InZone(expiry, now, p.lead, expiryOffset, offset)
    ensures var from, start := From(expiry, p.lead, now), records[k].start;
            var shift := Shift(records, CheckTime.NextRunAt(started, offset, schedule));
            && Near(start, shift, predicted, expiry - p.lead * DAY, Early(records, from, k))
            && (start == predicted <==> shift == 0 && from <= start < from + DAY)
  {
    hide NoAttempt;
    hide LocalExpiry;
    hide FirstVisit;
    hide Plan.Runs;
    hide ShortSweeps;
    hide CheckTime.ExpectedRenewAt;
    hide CheckTime.NextRunAt;
    hide CheckTime.IsCheckInstant;
    hide Near;
    var from, anchor := From(expiry, p.lead, now), CheckTime.NextRunAt(started, offset, schedule);
    PageAfterLaunch(p, started, later, offset, schedule, now);
    SweepBracket(p, records, i, expiry, now, m, k);
    CheckTime.NextRunAtInDay(started, offset, schedule);
    CheckTime.ExpectedAtTimeOfDay(expiry, expiryOffset, now, offset, p.lead, schedule, anchor);
    SweepGrid(p, records, k);
    var q := WholeDaysApart(records[0].end, anchor, predicted, k);
    NearIn(records[k].start, Shift(records, anchor), predicted, from, expiry - p.lead * DAY,
           Early(records, from, k), q);
  }

  /**
   * The first sweep itself.  If its timer was set in time, it starts at the predicted
   * time if and only if the prediction starts to search no later, and a day before it
   * otherwise.  If its timer was set late, it starts at once and less than two days
   * before the predicted time, and at it if and only if the late moment is a check
   * instant and the search starts there.
   */
  lemma PredictionAgainstFirstSweep(p: Plan, records: seq<Record>, i: nat, expiry: int, now: int, m: nat,
                                    started: int, later: int, expiryOffset: int, offset: int, schedule: string,
                                    predicted: int)
    requires NextAttempt(p, records, i, expiry, now, m, 0)
    requires Launched(p, started, later, offset, schedule) && later <= now
    requires Some(predicted) == CheckTime.ExpectedRenewAt(expiry, expiryOffset, now, offset, p.lead, schedule, true)
    requires InZone(expiry, now, p.lead, expiryOffset, offset)
    ensures var from, start := From(expiry, p.lead, now), records[0].start;
            && start == p.first
            && (later <= CheckTime.NextRunAt(started, offset, schedule) ==>
                  start == if from <= start then predicted else predicted - DAY)
            && (CheckTime.NextRunAt(started, offset, schedule) < later ==>
                  && start == later <= predicted < start + 2 * DAY
                  && (start == predicted <==> from == start && CheckTime.IsCheckInstant(start, offset, schedule)))
  {
    hide NoAttempt;
    hide LocalExpiry;
    hide FirstVisit;
    hide Plan.Runs;
    hide ShortSweeps;
    hide CheckTime.ExpectedRenewAt;
    hide CheckTime.NextRunAt;
    hide CheckTime.IsCheckInstant;
    PageAfterLaunch(p, started, later, offset, schedule, now);
    SweepBracket(p, records, i, expiry, now, m, 0);
    CheckTime.NextRunAtInDay(started, offset, schedule);
    CheckTime.ExpectedInItsDay(expiry, expiryOffset, now, offset, p.lead, schedule);
    if later <= CheckTime.NextRunAt(started, offset, schedule) {
      CheckTime.ExpectedAtTimeOfDay(expiry, expiryOffset, now, offset, p.lead, schedule, p.first);
      WholeDaysBetween(p.first, predicted, From(expiry, p.lead, now));
    } else {
      VisitAtPrediction(expiry, now, p.lead, expiryOffset, offset, schedule, predicted, p.first);
    }
  }

  lemma WholeDaysBetween(first: int, predicted: int, from: int)
    requires (predicted - first) % DAY == 0 && from <= predicted < from + DAY && from - DAY < first < from + DAY
    ensures first == if from <= first then predicted else predicted - DAY
  {
    var q := (predicted - first) / DAY;
    assert predicted == first + q * DAY;
    if q <= -1 {
      DaysOrdered(q, -1);
    } else if 2 <= q {
      DaysOrdered(2, q);
    }
  }

  /** In the scheduler's zone the predicted time is the only check instant of the day it searches. */
  lemma VisitAtPrediction(expiry: int, now: int, lead: int, expiryOffset: int, offset: int, schedule: string,
                          predicted: int, t: int)
    requires 1 <= lead <= MAX_LEAD_DAYS && InZone(expiry, now, lead, expiryOffset, offset)
    requires Some(predicted) == CheckTime.ExpectedRenewAt(expiry, expiryOffset, now, offset, lead, schedule, true)
    ensures var from := From(expiry, lead, now);
            t == predicted <==> from <= t < from + DAY && CheckTime.IsCheckInstant(t, offset, schedule)
  {
    hide CheckTime.ExpectedRenewAt;
    hide CheckTime.NextRunAt;
    hide CheckTime.IsCheckInstant;
    var from := From(expiry, lead, now);
    CheckTime.ExpectedInOneZone(expiry, expiryOffset, now, offset, lead, schedule);
    CheckTime.ExpectedIs(expiry, offset, now, offset, lead, schedule);
    CheckTime.NextRunAtInDay(from, offset, schedule);
    if from <= t < from + DAY && CheckTime.IsCheckInstant(t, offset, schedule) {
      CheckTime.NextRunAtUnique(from, t, offset, schedule);
    }
  }

  /** A run that goes on until a visit after the threshold attempts the renewal. */
  lemma {:induction false} AttemptFound(p: Plan, records: seq<Record>, i: nat, expiry: int, now: int, m: nat, j: nat)
    returns (k: nat)
    requires Shown(p, records, i, expiry, now, m, |records|) && m <= j < |records| && NoAttempt(records, i, m, j)
    requires expiry - p.lead * DAY < records[|records| - 1].visits[i].at
    ensures NextAttempt(p, records, i, expiry, now, m, k)
    decreases |records| - j
  {
    hide LocalExpiry;
    hide FirstVisit;
    hide Plan.Runs;
    hide ShortSweeps;
    if records[j].visits[i].attempted {
      ShownLess(p, records, i, expiry, now, m, |records|, j + 1);
      k := j;
    } else {
      ShownLess(p, records, i, expiry, now, m, |records|, j + 1);
      Decided(p, records, i, expiry, now, m, j);
      assert j != |records| - 1;
      k := AttemptFound(p, records, i, expiry, now, m, j + 1);
    }
  }

  /** The first visit that is not over when a page is made, if the run goes on so long. */
  lemma {:induction false} VisitFound(records: seq<Record>, i: nat, now: int, j: nat) returns (m: nat)
    requires Visited(records, i) && j < |records| && now <= records[j].visits[i].end
    ensures FirstVisit(records, i, now, m)
  {
    if 0 < j && now <= records[j - 1].visits[i].end {
      m := VisitFound(records, i, now, j - 1);
    } else {
      m := j;
    }
  }

  /** Every run that goes on past the page and the threshold has a next attempt. */
  lemma NextAttemptExists(p: Plan, records: seq<Record>, i: nat, expiry: int, now: int) returns (m: nat, k: nat)
    requires p.Valid() && p.Runs(records) && ShortSweeps(records) && i < |p.certs| && p.certs[i].autoRenew
    requires Visited(records, i) && records != []
    requires var last := records[|records| - 1].visits[i]; now <= last.end && expiry - p.lead * DAY < last.at
    requires forall m: nat :: FirstVisit(records, i, now, m) ==> Seen(p, records, i, expiry, m, |records|)
    ensures NextAttempt(p, records, i, expiry, now, m, k)
  {
    hide LocalExpiry;
    hide FirstVisit;
    hide Plan.Runs;
    hide ShortSweeps;
    m := VisitFound(records, i, now, |records| - 1);
    FirstVisitIn(records, i, now, m);
    k := AttemptFound(p, records, i, expiry, now, m, m);
  }

  lemma FirstVisitIn(records: seq<Record>, i: nat, now: int, m: nat)
    requires Visited(records, i) && FirstVisit(records, i, now, m)
    ensures m < |records|
  {
  }

  /**
   * A lost probe, by an input: nothing stored, the page made no later than the first
   * sweep, and an expiry probed for it that lies any number of days beyond the lead.
   * The first visit's probe finds nothing, and it attempts the renewal at once, that
   * many days before the predicted time.
   */
  lemma LostProbe(c: CertConfig, first: int, now: int, lead: int, der: DerParser, days: nat,
                  expiryOffset: int, offset: int, schedule: string, predicted: int)
    returns (p: Plan, records: seq<Record>)
    requires c.autoRenew && c.domainCheck != "" && 1 <= lead <= MAX_LEAD_DAYS && now <= first
    requires Some(predicted)
          == CheckTime.ExpectedRenewAt(first + (lead + days) * DAY, expiryOffset, now, offset, lead, schedule, true)
    ensures p == Plan(first, map[], [c], [[Circumstance(0, None, Refused, NoFault, 0)]], lead, der)
    ensures p.Valid() && p.Runs(records) && ShortSweeps(records) && |records| == 1 && Visited(records, 0)
    ensures records[0].visits[0].attempted && records[0].visits[0].at == first
    ensures first + days * DAY <= predicted
  {
    hide CheckTime.ExpectedRenewAt;
    var e := Circumstance(0, None, Refused, NoFault, 0);
    p := Plan(first, map[], [c], [[e]], lead, der);
    records := [p.Next([])];
    OneVisit(first, map[], c, e, lead, der);
    assert p.Follows(records, 0);
    CheckTime.ExpectedInItsDay(first + (lead + days) * DAY, expiryOffset, now, offset, lead, schedule);
    WholeMultiples(lead, days);
  }

  lemma WholeMultiples(a: int, b: int)
    ensures (a + b) * DAY == a * DAY + b * DAY
  {
  }

  /** A sweep over one certificate is its check. */
  lemma {:induction false} OneVisit(now: int, files: Files, c: CertConfig, e: Circumstance, lead: int, der: DerParser)
    ensures var r := Check(now, files, c, e, lead, der);
            Sweep(now, files, [c], [e], lead, der) == Swept(r.now, r.files, [r.visit])
  {
    hide Check;
    assert [c][..0] == [] && [e][..0] == [];
  }
}
