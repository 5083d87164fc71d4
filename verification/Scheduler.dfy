/** The daily sweep loop: when its sweeps start, what they visit, what they renew. */
module Scheduler {
  import opened Wrappers
  import opened GoTime
  import opened Meta
  import opened Storage
  import opened Renewal
  import CheckTime
  import Pem

  /** Clock, store and visits after a sweep over some certificates. */
  datatype Swept = Swept(now: int, files: Files, visits: seq<Visit>)

  function Sweep(now: int, files: Files, certs: seq<CertConfig>, es: seq<Circumstance>, lead: int, der: DerParser)
    : (r: Swept)
    requires |es| == |certs|
    ensures now <= r.now && |r.visits| == |certs|
  {
    if certs == [] then Swept(now, files, [])
    else
      var n := |certs| - 1;
      var before := Sweep(now, files, certs[..n], es[..n], lead, der);
      var last := Check(before.now, before.files, certs[n], es[n], lead, der);
      Swept(last.now, last.files, before.visits + [last.visit])
  }

  /** One sweep of a run: when it ran, its visits, the store it left. */
  datatype Record = Record(start: int, visits: seq<Visit>, end: int, files: Files)

  /** The first tick later than `t` of a ticker created at `created`. */
  function TickAfter(created: int, t: int): int
  {
    created + ((t - created) / DAY + 1) * DAY
  }

  function Max(a: int, b: int): int
  {
    if a < b then b else a
  }

  /** The ticker is created when the first sweep has ended. */
  function Created(first: int, records: seq<Record>): int
  {
    if records == [] then first else records[0].end
  }

  /**
   * When the next sweep starts: the first when the timer fires, a later one at the
   * first tick since the loop last received one, or at once when that tick is
   * already waiting.
   */
  function NextStart(first: int, records: seq<Record>): int
  {
    var n := |records|;
    if n == 0 then first
    else
      var received := if n == 1 then records[0].end else records[n - 1].start;
      Max(TickAfter(Created(first, records), received), records[n - 1].end)
  }

  function StoreAfter(files: Files, records: seq<Record>): Files
  {
    if records == [] then files else records[|records| - 1].files
  }

  /** What a scheduler is given: when its timer fires, the store, the configuration, the circumstances of its sweeps. */
  datatype Plan = Plan(first: int, files: Files, certs: seq<CertConfig>, sweeps: seq<seq<Circumstance>>,
                       lead: int, der: DerParser)
  {
    ghost predicate Valid()
    {
      && (forall k :: 0 <= k < |sweeps| ==> |sweeps[k]| == |certs|)
      && DistinctAliases(certs)
      && 1 <= lead <= MAX_LEAD_DAYS
    }

    /** The next sweep, after those recorded. */
    function Next(records: seq<Record>): (r: Record)
      requires |records| < |sweeps| && |sweeps[|records|]| == |certs|
      ensures |r.visits| == |certs| && r.start <= r.end
    {
      var start := NextStart(first, records);
      var swept := Sweep(start, StoreAfter(files, records), certs, sweeps[|records|], lead, der);
      Record(start, swept.visits, swept.now, swept.files)
    }

    ghost predicate Follows(records: seq<Record>, k: int)
      requires 0 <= k < |records| <= |sweeps|
    {
      |sweeps[k]| == |certs| && records[k] == Next(records[..k])
    }

    /** Every record is the sweep that follows those before it. */
    ghost predicate Runs(records: seq<Record>)
    {
      |records| <= |sweeps| && forall k :: 0 <= k < |records| ==> Follows(records, k)
    }
  }

  /** Every sweep of the run is shorter than a day. */
  predicate ShortSweeps(records: seq<Record>)
  {
    forall k :: 0 <= k < |records| ==> records[k].end - records[k].start < DAY
  }

  /**
   * When every sweep is shorter than a day, sweep `k` starts exactly `k` days after
   * the first one ended: the grid is shifted once and never drifts.
   */
  lemma {:induction false} SweepGrid(p: Plan, records: seq<Record>, k: nat)
    requires p.Runs(records) && ShortSweeps(records) && k < |records|
    ensures records[k].start == if k == 0 then p.first else records[0].end + k * DAY
  {
    hide Sweep;
    assert p.Follows(records, k);
    if k > 0 {
      SweepGrid(p, records, k - 1);
      assert p.Follows(records, k - 1);
      if k > 1 {
        TickOnGrid(records[0].end, k - 1);
      }
      TickOnGrid(records[0].end, 0);
    }
  }

  /** The tick after one of the grid is the next one of the grid. */
  lemma TickOnGrid(created: int, k: nat)
    ensures TickAfter(created, created + k * DAY) == created + (k + 1) * DAY
  {
    DayParts(k * DAY, k, 0);
  }

  /** Visit `i` of a sweep is the check of certificate `i`, whatever became of the others. */
  lemma {:induction false} SweepVisits(now: int, files: Files, certs: seq<CertConfig>, es: seq<Circumstance>,
                                       lead: int, der: DerParser, i: nat)
    requires |es| == |certs| && i < |certs|
    ensures var r := Sweep(now, files, certs, es, lead, der);
            var before := Sweep(now, files, certs[..i], es[..i], lead, der);
            && r.visits[i] == Check(before.now, before.files, certs[i], es[i], lead, der).visit
            && r.visits[i].alias == certs[i].alias
            && now <= r.visits[i].at <= r.visits[i].end <= r.now
            && (!r.visits[i].attempted ==> r.visits[i].at == r.visits[i].end)
  {
    hide Check;
    var n := |certs| - 1;
    if i < n {
      SweepVisits(now, files, certs[..n], es[..n], lead, der, i);
      assert certs[..n][..i] == certs[..i] && es[..n][..i] == es[..i];
    }
  }

  /** A sweep changes the files of an alias only where an attempt for it gets as far as the disk. */
  lemma {:induction false} SweepFrame(now: int, files: Files, certs: seq<CertConfig>, es: seq<Circumstance>,
                                      lead: int, der: DerParser, p: Path)
    requires |es| == |certs|
    ensures var r := Sweep(now, files, certs, es, lead, der);
            (forall i :: 0 <= i < |certs| && certs[i].alias == p.alias ==> !Wrote(certs[i], es[i], r.visits[i]))
            ==> Lookup(r.files, p) == Lookup(files, p)
  {
    hide Check;
    hide Wrote;
    if certs != [] {
      var n := |certs| - 1;
      var before := Sweep(now, files, certs[..n], es[..n], lead, der);
      SweepFrame(now, files, certs[..n], es[..n], lead, der, p);
      CheckFrame(before.now, before.files, certs[n], es[n], lead, der, p);
      var r := Sweep(now, files, certs, es, lead, der);
      assert forall i :: 0 <= i < n ==>
                           r.visits[i] == before.visits[i] && certs[..n][i] == certs[i] && es[..n][i] == es[i];
    }
  }

  /** Sweep `j` changed the stored full chain of an alias. */
  predicate Replaced(records: seq<Record>, alias: string, j: nat)
    requires 1 <= j < |records|
  {
    var p := Path(alias, FullchainPem);
    Lookup(records[j].files, p) != Lookup(records[j - 1].files, p)
  }

  predicate Visited(records: seq<Record>, i: nat)
  {
    forall k :: 0 <= k < |records| ==> i < |records[k].visits|
  }

  /** The visit attempts a renewal after one instant and before another. */
  predicate AttemptsIn(v: Visit, after: int, before: int)
  {
    v.attempted && after < v.at < before
  }

  /** Renewals of certificate `i` attempted between two instants. */
  function Attempts(records: seq<Record>, i: nat, after: int, before: int): nat
    requires Visited(records, i)
  {
    if records == [] then 0
    else
      var v := records[|records| - 1].visits[i];
      Attempts(records[..|records| - 1], i, after, before) + if AttemptsIn(v, after, before) then 1 else 0
  }

  lemma {:induction false} AttemptsAtLeast(records: seq<Record>, i: nat, after: int, before: int, a: nat, b: nat)
    requires Visited(records, i)
    requires a <= b <= |records|
    requires forall k :: a <= k < b ==> AttemptsIn(records[k].visits[i], after, before)
    ensures b - a <= Attempts(records, i, after, before)
  {
    if records != [] && a < b {
      var n := |records| - 1;
      AttemptsAtLeast(records[..n], i, after, before, a, if b == |records| then n else b);
    }
  }

  /** Only a renewal that gets as far as the disk replaces the stored chain of an alias. */
  lemma ReplacedWhenWritten(p: Plan, records: seq<Record>, i: nat, j: nat)
    requires p.Valid() && p.Runs(records) && i < |p.certs| && 1 <= j < |records|
    ensures i < |records[j].visits| && i < |p.sweeps[j]|
    ensures Replaced(records, p.certs[i].alias, j) ==> Wrote(p.certs[i], p.sweeps[j][i], records[j].visits[i])
  {
    hide Sweep;
    hide NextStart;
    hide LocalExpiry;
    hide Wrote;
    assert p.Follows(records, j);
    SweepFrame(NextStart(p.first, records[..j]), records[j - 1].files, p.certs, p.sweeps[j], p.lead, p.der,
               Path(p.certs[i].alias, FullchainPem));
  }

  lemma {:induction false} KeptUnlessReplaced(records: seq<Record>, alias: string, k: nat)
    requires k < |records| && forall j :: 1 <= j <= k ==> !Replaced(records, alias, j)
    ensures Lookup(records[k].files, Path(alias, FullchainPem)) == Lookup(records[0].files, Path(alias, FullchainPem))
  {
    if k > 0 {
      KeptUnlessReplaced(records, alias, k - 1);
      assert !Replaced(records, alias, k);
    }
  }

  /** Visits of sweep `k` fall in its day of the grid. */
  lemma VisitOnGrid(p: Plan, records: seq<Record>, i: nat, k: nat)
    requires p.Runs(records) && ShortSweeps(records) && i < |p.certs| && 1 <= k < |records|
    ensures i < |records[k].visits|
    ensures records[0].end + k * DAY <= records[k].visits[i].at < records[0].end + (k + 1) * DAY
  {
    assert p.Follows(records, k);
    SweepGrid(p, records, k);
    SweepVisits(NextStart(p.first, records[..k]), records[k - 1].files, p.certs, p.sweeps[k], p.lead, p.der, i);
  }

  /**
   * A visit attempts a renewal exactly when one is due at its moment, on what the store
   * held before the sweep and its own probe, wherever the certificate is in the list.
   */
  lemma {:induction false} DecidedInSweep(start: int, files: Files, certs: seq<CertConfig>, es: seq<Circumstance>,
                                          lead: int, der: DerParser, i: nat)
    requires |es| == |certs| && DistinctAliases(certs) && i < |certs|
    requires 1 <= lead <= MAX_LEAD_DAYS
    ensures var v := Sweep(start, files, certs, es, lead, der).visits[i];
            && start <= v.at
            && (v.attempted <==>
                  RenewalDue(certs[i], LocalExpiry(der, files, certs[i].alias), es[i].remote, v.at, lead))
  {
    hide Check;
    hide Wrote;
    hide RenewalDue;
    SweepVisits(start, files, certs, es, lead, der, i);
    SweepFrame(start, files, certs[..i], es[..i], lead, der, Path(certs[i].alias, FullchainPem));
    var before := Sweep(start, files, certs[..i], es[..i], lead, der);
    assert LocalExpiry(der, before.files, certs[i].alias) == LocalExpiry(der, files, certs[i].alias);
    AttemptedIff(before.now, before.files, certs[i], es[i], lead, der);
  }

  /** The store sweep `j` of a run starts on. */
  function StoreBefore(p: Plan, records: seq<Record>, j: nat): Files
    requires j <= |records|
  {
    if j == 0 then p.files else records[j - 1].files
  }

  /** The decision of sweep `k` of a run. */
  lemma DecidedInRun(p: Plan, records: seq<Record>, i: nat, k: nat)
    requires p.Valid() && p.Runs(records) && i < |p.certs| && k < |records|
    ensures i < |records[k].visits| && i < |p.sweeps[k]| && records[k].start <= records[k].visits[i].at
    ensures records[k].visits[i].attempted <==>
              RenewalDue(p.certs[i], LocalExpiry(p.der, StoreBefore(p, records, k), p.certs[i].alias),
                         p.sweeps[k][i].remote, records[k].visits[i].at, p.lead)
  {
    hide RenewalDue;
    hide LocalExpiry;
    hide Sweep;
    assert p.Follows(records, k);
    DecidedInSweep(records[k].start, StoreBefore(p, records, k), p.certs, p.sweeps[k], p.lead, p.der, i);
  }

  lemma AttemptedOnceDue(p: Plan, records: seq<Record>, i: nat, expiry: int, k: nat)
    requires p.Valid() && p.Runs(records) && ShortSweeps(records)
    requires i < |p.certs| && p.certs[i].autoRenew && 1 <= k < |records|
    requires LocalExpiry(p.der, records[k - 1].files, p.certs[i].alias) == Some(expiry)
    requires expiry - p.lead * DAY < records[0].end + k * DAY
    ensures i < |records[k].visits| && records[k].visits[i].attempted
  {
    SweepGrid(p, records, k);
    DecidedInRun(p, records, i, k);
  }

  /**
   * With a lead of L days and sweeps shorter than a day, a certificate that becomes
   * due after the first sweep has at least L - 1 renewals attempted while it is due
   * and before it expires, unless an earlier attempt has replaced it, by success or by a disk fault
   * while it was saved: whatever the lengths of the sweeps, the other certificates and
   * the position in the list.
   */
  lemma {:induction false} EnoughAttempts(p: Plan, records: seq<Record>, i: nat, expiry: int)
    requires p.Valid() && p.Runs(records) && ShortSweeps(records) && records != []
    requires i < |p.certs| && p.certs[i].autoRenew
    requires LocalExpiry(p.der, records[0].files, p.certs[i].alias) == Some(expiry)
    requires records[0].end <= expiry - p.lead * DAY
    requires expiry <= records[0].end + |records| * DAY
    ensures Visited(records, i)
    ensures || p.lead - 1 <= Attempts(records, i, expiry - p.lead * DAY, expiry)
            || exists j :: 1 <= j < |records| && Replaced(records, p.certs[i].alias, j)
                           && Wrote(p.certs[i], p.sweeps[j][i], records[j].visits[i])
                           && records[j].visits[i].at < expiry
  {
    var created, alias, lead := records[0].end, p.certs[i].alias, p.lead;
    forall k | 0 <= k < |records|
      ensures i < |records[k].visits|
    {
      assert p.Follows(records, k);
    }
    var q := DaysToThreshold(created, expiry, lead, |records|);
    if j :| 1 <= j < q + lead && Replaced(records, alias, j) {
      ReplacedWhenWritten(p, records, i, j);
      VisitOnGrid(p, records, i, j);
      WithinLead(created, q, lead, j, expiry);
    } else {
      AttemptedDaily(p, records, i, expiry, q);
    }
  }

  /** Whole days from the ticker to the threshold. */
  lemma DaysToThreshold(created: int, expiry: int, lead: int, n: int) returns (q: nat)
    requires created <= expiry - lead * DAY && expiry <= created + n * DAY
    ensures created + q * DAY <= expiry - lead * DAY < created + (q + 1) * DAY
    ensures q + lead <= n
  {
    var x := expiry - lead * DAY - created;
    DayQuotient(x);
    q := x / DAY;
    if n < q + lead {
      DaysOrdered(n + 1, q + lead);
    }
  }

  /** Day `k` of the grid lies before the expiry, and after the threshold once `q` days have passed. */
  lemma WithinLead(created: int, q: int, lead: int, k: int, expiry: int)
    requires created + q * DAY <= expiry - lead * DAY < created + (q + 1) * DAY && k < q + lead
    ensures created + (k + 1) * DAY <= expiry
    ensures q < k ==> expiry - lead * DAY < created + k * DAY
  {
    DaysOrdered(k + 1, q + lead);
    if q < k {
      DaysOrdered(q + 1, k);
    }
  }

  lemma AttemptedInWindow(p: Plan, records: seq<Record>, i: nat, expiry: int, q: nat, k: nat)
    requires p.Valid() && p.Runs(records) && ShortSweeps(records) && i < |p.certs| && p.certs[i].autoRenew
    requires q + 1 <= k < q + p.lead && k < |records|
    requires LocalExpiry(p.der, records[k - 1].files, p.certs[i].alias) == Some(expiry)
    requires records[0].end + q * DAY <= expiry - p.lead * DAY < records[0].end + (q + 1) * DAY
    ensures i < |records[k].visits| && AttemptsIn(records[k].visits[i], expiry - p.lead * DAY, expiry)
  {
    WithinLead(records[0].end, q, p.lead, k, expiry);
    AttemptedOnceDue(p, records, i, expiry, k);
    VisitOnGrid(p, records, i, k);
  }

  lemma AttemptedUnlessReplaced(p: Plan, records: seq<Record>, i: nat, expiry: int, q: nat, k: nat)
    requires p.Valid() && p.Runs(records) && ShortSweeps(records) && i < |p.certs| && p.certs[i].autoRenew
    requires q + 1 <= k < q + p.lead && k < |records|
    requires LocalExpiry(p.der, records[0].files, p.certs[i].alias) == Some(expiry)
    requires records[0].end + q * DAY <= expiry - p.lead * DAY < records[0].end + (q + 1) * DAY
    requires forall j :: 1 <= j < k ==> !Replaced(records, p.certs[i].alias, j)
    ensures i < |records[k].visits| && AttemptsIn(records[k].visits[i], expiry - p.lead * DAY, expiry)
  {
    hide Plan.Runs;
    hide ShortSweeps;
    hide Replaced;
    KeptUnlessReplaced(records, p.certs[i].alias, k - 1);
    AttemptedInWindow(p, records, i, expiry, q, k);
  }

  lemma {:induction false} AttemptedDaily(p: Plan, records: seq<Record>, i: nat, expiry: int, q: nat)
    requires p.Valid() && p.Runs(records) && ShortSweeps(records) && Visited(records, i)
    requires i < |p.certs| && p.certs[i].autoRenew && q + p.lead <= |records|
    requires LocalExpiry(p.der, records[0].files, p.certs[i].alias) == Some(expiry)
    requires records[0].end + q * DAY <= expiry - p.lead * DAY < records[0].end + (q + 1) * DAY
    requires forall j :: 1 <= j < q + p.lead ==> !Replaced(records, p.certs[i].alias, j)
    ensures p.lead - 1 <= Attempts(records, i, expiry - p.lead * DAY, expiry)
  {
    hide Plan.Runs;
    hide ShortSweeps;
    hide Replaced;
    hide LocalExpiry;
    hide AttemptsIn;
    hide Attempts;
    forall k | q + 1 <= k < q + p.lead
      ensures AttemptsIn(records[k].visits[i], expiry - p.lead * DAY, expiry)
    {
      AttemptedUnlessReplaced(p, records, i, expiry, q, k);
    }
    AttemptsAtLeast(records, i, expiry - p.lead * DAY, expiry, q + 1, q + p.lead);
  }

  /** A renewal cannot get as far as the disk: no names, no e-mail, no provider it knows, or a refusal. */
  predicate Unready(c: CertConfig, issue: Issue)
  {
    || c.domainCN == [] || c.email == "" || issue.Refused?
    || c.provider !in ["TENCENT", "ALIYUN", "GODADDY", "GOOGLE", "CLOUDFLARE"]
  }

  /** After a save the store tells the expiry of the chain that was saved. */
  lemma SavedExpiry(files: Files, alias: string, fullchain: string, privkey: string, files': Files, der: DerParser)
    requires SavedAs(files, alias, fullchain, privkey, files')
    ensures LocalExpiry(der, files', alias) == FirstExpiry(der, fullchain)
  {
  }

  /** A whole number of days from the moment the ticker was created. */
  predicate IsTick(created: int, t: int)
  {
    (t - created) % DAY == 0
  }

  /** The tick after an instant is the first one later than it. */
  lemma TickAfterLeast(created: int, t: int)
    ensures var r := TickAfter(created, t);
            && t < r <= t + DAY && IsTick(created, r)
            && forall u :: t < u < r ==> !IsTick(created, u)
  {
    var q := (t - created) / DAY;
    DayQuotient(t - created);
    DayParts((q + 1) * DAY, q + 1, 0);
    forall u | t < u < TickAfter(created, t)
      ensures !IsTick(created, u)
    {
      BetweenDays(u - created, q);
    }
  }

  lemma BetweenDays(x: int, q: int)
    requires q * DAY < x < (q + 1) * DAY
    ensures x % DAY != 0
  {
    DayParts(x, q, x - q * DAY);
  }

  /**
   * When the sweep after the recorded ones starts: at the first tick since the loop
   * received one, or, if that tick came while the last sweep ran, as soon as it ends.
   */
  lemma NextStartMeans(first: int, records: seq<Record>)
    requires records != []
    ensures var created, last := records[0].end, records[|records| - 1];
            var received := if |records| == 1 then created else last.start;
            var start := NextStart(first, records);
            && last.end <= start
            && ((forall t :: received < t <= last.end ==> !IsTick(created, t)) ==>
                  && received < start <= Max(received + DAY, last.end)
                  && (last.end < start ==> IsTick(created, start))
                  && forall t :: received < t < start ==> !IsTick(created, t))
            && ((exists t :: received < t <= last.end && IsTick(created, t)) ==> start == last.end)
  {
    var created, last := records[0].end, records[|records| - 1];
    var received := if |records| == 1 then created else last.start;
    TickAfterLeast(created, received);
  }

  /** The scheduler process: its configuration, its clock and the sweeps it has made. */
  class Scheduler {
    const settings: Settings
    const der: DerParser
    const storage: CertStorage
    var now: int
    var records: seq<Record>

    constructor (settings: Settings, der: DerParser, storage: CertStorage, now: int)
      ensures this.settings == settings && this.der == der && this.storage == storage
      ensures this.now == now && records == []
    {
      this.settings := settings;
      this.der := der;
      this.storage := storage;
      this.now := now;
      this.records := [];
    }

    /** `RenewCert`: asks the authority and ends by writing the store. */
    method RenewCert(c: CertConfig, issue: Issue, fault: Fault) returns (ok: bool)
      modifies storage
      ensures match RenewalSave(c, issue)
              case None => !ok && storage.files == old(storage.files)
              case Some(s) => (ok <==> !Hits(fault, s)) && storage.files == SavedWith(old(storage.files), s, fault)
      ensures Unready(c, issue) ==> !ok && storage.files == old(storage.files)
      ensures !Unready(c, issue) ==> (ok <==> !Hits(fault, Save(c.alias, issue.fullchain, issue.privkey)))
      ensures ok ==> SavedAs(old(storage.files), c.alias, issue.fullchain, issue.privkey, storage.files)
    {
      if |c.domainCN| == 0 {
        return false;
      }
      if c.email == "" {
        return false;
      }
      if !KnownProvider(c.provider) || issue.Refused? {
        return false;
      }
      ok := storage.SaveCert(c.alias, issue.fullchain, issue.privkey, fault);
    }

    method CheckAndRenewCertStatus(c: CertConfig, e: Circumstance) returns (visit: Visit)
      modifies this`now, storage
      ensures Checked(now, storage.files, visit) == Check(old(now), old(storage.files), c, e, LeadDays(settings), der)
      ensures !c.autoRenew ==>
                && now == old(now) && storage.files == old(storage.files)
                && visit == Visit(c.alias, now, false, CertNone, now)
      ensures c.autoRenew ==>
                && visit.alias == c.alias && visit.at == old(now) + e.lag
                && (visit.attempted <==>
                      match LocalExpiry(der, old(storage.files), c.alias)
                      case Some(expiry) => NeedsRenewal(expiry, visit.at, LeadDays(settings))
                      case None => || c.domainCheck == "" || e.remote.None?
                                   || NeedsRenewal(e.remote.value, visit.at, LeadDays(settings)))
                && now == visit.at + if visit.attempted then e.took else 0
      ensures c.autoRenew && !visit.attempted ==> visit.status == CertValid && storage.files == old(storage.files)
      ensures visit.attempted ==> visit.status == CertRenewSuccess || visit.status == CertRenewFailed
      ensures visit.attempted && Unready(c, e.issue) ==>
                visit.status == CertRenewFailed && storage.files == old(storage.files)
      ensures visit.attempted && !Unready(c, e.issue) && e.fault.NoFault? ==> visit.status == CertRenewSuccess
      ensures visit.status == CertRenewSuccess ==>
                && e.issue.Issued?
                && SavedAs(old(storage.files), c.alias, e.issue.fullchain, e.issue.privkey, storage.files)
                && LocalExpiry(der, storage.files, c.alias) == FirstExpiry(der, e.issue.fullchain)
    {
      hide SavedAs;
      hide FirstExpiry;
      hide Pem.Decode;
      if !c.autoRenew {
        return Visit(c.alias, now, false, CertNone, now);
      }
      var local := storage.GetLocalCertExpiry(c.alias, der);
      var hasRemote := false;
      var remoteExpiry := 0;
      if c.domainCheck != "" {
        hasRemote := e.remote.Some?;
        if hasRemote {
          remoteExpiry := e.remote.value;
        }
      }
      now := now + e.lag;
      var at := now;
      var shouldRenew := false;
      if local.None? {
        if hasRemote {
          if NeedsRenewal(remoteExpiry, now, LeadDays(settings)) {
            shouldRenew := true;
          }
        } else {
          shouldRenew := true;
        }
      } else {
        if NeedsRenewal(local.value, now, LeadDays(settings)) {
          shouldRenew := true;
        }
      }
      if shouldRenew {
        var ok := RenewCert(c, e.issue, e.fault);
        if ok {
          SavedExpiry(old(storage.files), c.alias, e.issue.fullchain, e.issue.privkey, storage.files, der);
        }
        now := now + e.took;
        return Visit(c.alias, at, true, if ok then CertRenewSuccess else CertRenewFailed, now);
      } else {
        return Visit(c.alias, at, false, CertValid, now);
      }
    }

    /** One sweep: every configured certificate once, in order, whatever the others did. */
    method CheckAllCerts(es: seq<Circumstance>) returns (visits: seq<Visit>)
      requires |es| == |settings.certs|
      modifies this`now, storage
      ensures Swept(now, storage.files, visits)
           == Sweep(old(now), old(storage.files), settings.certs, es, LeadDays(settings), der)
    {
      visits := [];
      var certs := settings.certs;
      for i := 0 to |certs|
        invariant Swept(now, storage.files, visits)
               == Sweep(old(now), old(storage.files), certs[..i], es[..i], LeadDays(settings), der)
      {
        var visit := CheckAndRenewCertStatus(certs[i], es[i]);
        visits := visits + [visit];
        assert certs[..i + 1][..i] == certs[..i] && es[..i + 1][..i] == es[..i];
      }
      assert certs[..|certs|] == certs && es[..|es|] == es;
    }

    /**
     * The loop `Start` runs, stopped after as many sweeps as are given: a timer, a
     * sweep, then a ticker of one day with one waiting tick at most.  `later` is the
     * clock when the initial delay is computed.
     */
    method Start(offset: int, later: int, sweeps: seq<seq<Circumstance>>)
      requires forall k :: 0 <= k < |sweeps| ==> |sweeps[k]| == |settings.certs|
      requires now <= later <= now + MAX64 - DAY && records == []
      modifies this, storage
      ensures var first := Max(CheckTime.NextRunAt(old(now), offset, settings.checkTime), later);
              && |records| == |sweeps|
              && Plan(first, old(storage.files), settings.certs, sweeps, LeadDays(settings), der).Runs(records)
    {
      AwaitTimer(offset, later);
      SweepDaily(sweeps);
    }

    /** Waits for the timer of the initial delay, which a negative delay fires at once. */
    method AwaitTimer(offset: int, later: int)
      requires now <= later <= now + MAX64 - DAY
      modifies this`now
      ensures now == Max(CheckTime.NextRunAt(old(now), offset, settings.checkTime), later)
    {
      var delay := CheckTime.InitialDelay(now, later, offset, settings.checkTime);
      CheckTime.FirstCheckFires(now, later, offset, settings.checkTime);
      now := later + (if delay < 0 then 0 else delay);
    }

    /** From the moment the timer fires. */
    method SweepDaily(sweeps: seq<seq<Circumstance>>)
      requires forall k :: 0 <= k < |sweeps| ==> |sweeps[k]| == |settings.certs|
      requires records == []
      modifies this, storage
      ensures |records| == |sweeps|
      ensures Plan(old(now), old(storage.files), settings.certs, sweeps, LeadDays(settings), der).Runs(records)
    {
      ghost var p := Plan(now, storage.files, settings.certs, sweeps, LeadDays(settings), der);
      var created, received := now, now;
      for k := 0 to |sweeps|
        invariant |records| == k && p.Runs(records)
        invariant now == if k == 0 then p.first else records[k - 1].end
        invariant storage.files == StoreAfter(p.files, records)
        invariant created == Created(p.first, records)
        invariant k > 0 ==> received == if k == 1 then records[0].end else records[k - 1].start
      {
        if k > 0 {
          now := Max(TickAfter(created, received), now);
        }
        received := now;
        var visits := CheckAllCerts(sweeps[k]);
        var record := Record(received, visits, now, storage.files);
        RunsSnoc(p, records, record);
        records := records + [record];
        if k == 0 {
          created, received := now, now;
        }
      }
    }
  }

  lemma RunsSnoc(p: Plan, records: seq<Record>, r: Record)
    requires p.Runs(records) && |records| < |p.sweeps| && |p.sweeps[|records|]| == |p.certs|
    requires r == p.Next(records)
    ensures p.Runs(records + [r])
  {
    var longer := records + [r];
    forall k | 0 <= k < |longer|
      ensures p.Follows(longer, k)
    {
      if k < |records| {
        assert p.Follows(records, k);
        assert longer[..k] == records[..k];
      } else {
        assert longer[..k] == records;
      }
    }
  }
}
