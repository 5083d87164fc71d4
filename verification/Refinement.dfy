/**
 * The scheduler's sweeps and the client's syncs as runs of the protocol.  What
 * `CheckAllCerts` does to the clock and the store continues any run in which no
 * renewal is under way, so what holds of every run holds of the loop that is really
 * executed; an uninterrupted `Sync` continues any run and catches up.
 */
module Refinement {
  import opened Wrappers
  import opened GoTime
  import opened Meta
  import opened Storage
  import opened Renewal
  import opened Bundle
  import opened Handlers
  import opened Client
  import opened Protocol
  import Rfc3339
  import Scheduler

  /** A successful renewal is issued for long enough, and a failing write leaves no trace. */
  predicate Clean(sys: System, now: int, files: Files, c: CertConfig, e: Circumstance)
  {
    match RenewalSave(c, e.issue)
    case None => true
    case Some(s) =>
      if Hits(e.fault, s) then SavedWith(files, s, e.fault) == files else GoodIssue(sys, now + e.lag + e.took, s)
  }

  /** The last world of a run. */
  ghost function Last(sys: System, worlds: seq<World>, steps: seq<Step>): World
    requires X509Times(sys.der) && IsRun(sys, worlds, steps)
  {
    worlds[|steps|]
  }

  lemma RunSnoc(sys: System, worlds: seq<World>, steps: seq<Step>, step: Step, w: World)
    requires X509Times(sys.der) && IsRun(sys, worlds, steps) && Next(sys, worlds[|steps|], step, w)
    ensures IsRun(sys, worlds + [w], steps + [step])
  {
    hide Next;
    hide InitSite;
    hide InitDesk;
    forall i | 0 <= i < |steps + [step]|
      ensures Taken(sys, worlds + [w], steps + [step], i)
    {
      if i < |steps| {
        TakenKept(sys, worlds, steps, step, w, i);
      }
    }
  }

  lemma TakenKept(sys: System, worlds: seq<World>, steps: seq<Step>, step: Step, w: World, i: nat)
    requires X509Times(sys.der) && IsRun(sys, worlds, steps) && i < |steps|
    ensures Taken(sys, worlds + [w], steps + [step], i)
  {
    hide Next;
    assert Taken(sys, worlds, steps, i);
    assert (worlds + [w])[i] == worlds[i] && (worlds + [w])[i + 1] == worlds[i + 1];
  }

  /** A step of the server continues a run. */
  lemma SiteSnoc(sys: System, worlds: seq<World>, steps: seq<Step>, step: SiteStep, s: Site)
    returns (worlds': seq<World>, steps': seq<Step>)
    requires X509Times(sys.der) && IsRun(sys, worlds, steps) && SiteNext(sys, worlds[|steps|].site, step, s)
    ensures IsRun(sys, worlds', steps') && worlds <= worlds' && steps <= steps'
    ensures Last(sys, worlds', steps') == World(s, Last(sys, worlds, steps).desk)
  {
    var w := World(s, worlds[|steps|].desk);
    RunSnoc(sys, worlds, steps, AtSite(step), w);
    worlds', steps' := worlds + [w], steps + [AtSite(step)];
  }

  /** The renewals of some visits: those that report success. */
  function RenewalsOf(visits: seq<Visit>): seq<Renewed>
  {
    if visits == [] then []
    else
      var v := visits[|visits| - 1];
      RenewalsOf(visits[..|visits| - 1])
      + if v.status.CertRenewSuccess? then [Renewed(v.alias, v.at, v.end)] else []
  }

  lemma {:induction false} RenewalsOfSnoc(visits: seq<Visit>, v: Visit)
    ensures RenewalsOf(visits + [v])
         == RenewalsOf(visits) + if v.status.CertRenewSuccess? then [Renewed(v.alias, v.at, v.end)] else []
  {
    assert (visits + [v])[..|visits|] == visits;
  }

  /** A site after a check: its clock, its store, and a renewal in its history when the check reports success. */
  predicate Reflects(s: Site, r: Renewal.Checked, s': Site)
  {
    && s'.now == r.now && s'.files == r.files && s'.running == map[]
    && s'.renewals == s.renewals + if r.visit.status.CertRenewSuccess?
                                   then [Renewed(r.visit.alias, r.visit.at, r.visit.end)] else []
  }

  /** One check of the scheduler. */
  lemma CheckIsRun(sys: System, worlds: seq<World>, steps: seq<Step>, c: CertConfig, e: Circumstance)
    returns (worlds': seq<World>, steps': seq<Step>)
    requires X509Times(sys.der) && IsRun(sys, worlds, steps) && c in sys.settings.certs
    requires var s := Last(sys, worlds, steps).site; s.running == map[] && Clean(sys, s.now, s.files, c, e)
    ensures IsRun(sys, worlds', steps') && worlds <= worlds' && steps <= steps'
    ensures var s, s' := Last(sys, worlds, steps).site, Last(sys, worlds', steps').site;
            var r := Check(s.now, s.files, c, e, sys.Lead(), sys.der);
            Reflects(s, r, s')
    ensures Last(sys, worlds', steps').desk == Last(sys, worlds, steps).desk
  {
    hide Check;
    hide Attempt;
    hide Clean;
    hide Reflects;
    worlds', steps' := worlds, steps;
    var s := worlds[|steps|].site;
    if c.autoRenew {
      worlds', steps' := DecisionIsRun(sys, worlds, steps, c, e);
      DecisionReflects(sys, s, c, e);
      if ShouldRenew(c, sys.Stored(s.files, c.alias), e.remote, s.now + e.lag, sys.Lead()) {
        var decided := worlds'[|steps'|].site;
        worlds', steps' := RenewalIsRun(sys, worlds', steps', c, e);
        SameHistory(s, decided, Check(s.now, s.files, c, e, sys.Lead(), sys.der), worlds'[|steps'|].site);
      }
    } else {
      ManualReflects(sys, s, c, e);
    }
  }

  lemma SameHistory(s: Site, decided: Site, r: Renewal.Checked, s': Site)
    requires Reflects(decided, r, s') && decided.renewals == s.renewals
    ensures Reflects(s, r, s')
  {
  }

  lemma ManualReflects(sys: System, s: Site, c: CertConfig, e: Circumstance)
    requires !c.autoRenew && s.running == map[]
    ensures Reflects(s, Check(s.now, s.files, c, e, sys.Lead(), sys.der), s)
  {
  }

  /** The decision of a check and that of the protocol are the same. */
  lemma DecisionReflects(sys: System, s: Site, c: CertConfig, e: Circumstance)
    requires c.autoRenew && s.running == map[] && Clean(sys, s.now, s.files, c, e)
    ensures var due := ShouldRenew(c, sys.Stored(s.files, c.alias), e.remote, s.now + e.lag, sys.Lead());
            var s' := Protocol.Checked(sys, s.(now := s.now + e.lag), c, e.remote);
            var r := Check(s.now, s.files, c, e, sys.Lead(), sys.der);
            && s'.files == s.files && s'.renewals == s.renewals && s'.now == s.now + e.lag
            && (due ==> s'.running == map[c.alias := s'.now] && r == Attempt(s'.now, s'.files, c, e)
                        && Clean(sys, s'.now - e.lag, s'.files, c, e))
            && (!due ==> Reflects(s, r, s'))
  {
    hide Attempt;
    hide Clean;
    hide LocalExpiry;
  }

  /** The probe and the decision. */
  lemma DecisionIsRun(sys: System, worlds: seq<World>, steps: seq<Step>, c: CertConfig, e: Circumstance)
    returns (worlds': seq<World>, steps': seq<Step>)
    requires X509Times(sys.der) && IsRun(sys, worlds, steps) && c in sys.settings.certs
    requires Last(sys, worlds, steps).site.running == map[]
    ensures IsRun(sys, worlds', steps') && worlds <= worlds' && steps <= steps'
    ensures var s := Last(sys, worlds, steps).site;
            Last(sys, worlds', steps')
            == World(Protocol.Checked(sys, s.(now := s.now + e.lag), c, e.remote), Last(sys, worlds, steps).desk)
  {
    var s0 := worlds[|steps|].site;
    var s1 := s0.(now := s0.now + e.lag);
    worlds', steps' := SiteSnoc(sys, worlds, steps, Wait(e.lag), s1);
    worlds', steps' := SiteSnoc(sys, worlds', steps', SweepCheck(c, e.remote), Protocol.Checked(sys, s1, c, e.remote));
  }

  /** A renewal decided on: the time it takes, then its save or its failure. */
  lemma RenewalIsRun(sys: System, worlds: seq<World>, steps: seq<Step>, c: CertConfig, e: Circumstance)
    returns (worlds': seq<World>, steps': seq<Step>)
    requires X509Times(sys.der) && IsRun(sys, worlds, steps)
    requires var s := Last(sys, worlds, steps).site;
             s.running == map[c.alias := s.now] && Clean(sys, s.now - e.lag, s.files, c, e)
    ensures IsRun(sys, worlds', steps') && worlds <= worlds' && steps <= steps'
    ensures var s, s' := Last(sys, worlds, steps).site, Last(sys, worlds', steps').site;
            Reflects(s, Attempt(s.now, s.files, c, e), s')
    ensures Last(sys, worlds', steps').desk == Last(sys, worlds, steps).desk
  {
    var s := worlds[|steps|].site;
    var s1 := s.(now := s.now + e.took);
    worlds', steps' := SiteSnoc(sys, worlds, steps, Wait(e.took), s1);
    assert s1.running - {c.alias} == map[];
    if RenewalSave(c, e.issue).Some? && !Hits(e.fault, RenewalSave(c, e.issue).value) {
      var save := RenewalSave(c, e.issue).value;
      worlds', steps' := SiteSnoc(sys, worlds', steps', RenewalSaved(save), Renews(s1, save));
    } else {
      worlds', steps' := SiteSnoc(sys, worlds', steps', RenewalFailed(c.alias), s1.(running := map[]));
    }
  }

  /** Every check of a sweep is clean at its moment. */
  predicate CleanSweep(sys: System, now: int, files: Files, certs: seq<CertConfig>, es: seq<Circumstance>)
    requires |es| == |certs|
  {
    certs == [] ||
    var n := |certs| - 1;
    var before := Scheduler.Sweep(now, files, certs[..n], es[..n], sys.Lead(), sys.der);
    CleanSweep(sys, now, files, certs[..n], es[..n]) && Clean(sys, before.now, before.files, certs[n], es[n])
  }

  /** A sweep of the scheduler, over any part of its list, continues any run in which nothing is under way. */
  lemma {:induction false} SweepIsRun(sys: System, worlds: seq<World>, steps: seq<Step>,
                                      certs: seq<CertConfig>, es: seq<Circumstance>)
    returns (worlds': seq<World>, steps': seq<Step>)
    requires X509Times(sys.der) && IsRun(sys, worlds, steps)
    requires |es| == |certs| && forall c <- certs :: c in sys.settings.certs
    requires var s := Last(sys, worlds, steps).site; s.running == map[] && CleanSweep(sys, s.now, s.files, certs, es)
    ensures IsRun(sys, worlds', steps') && worlds <= worlds' && steps <= steps'
    ensures var s, s' := Last(sys, worlds, steps).site, Last(sys, worlds', steps').site;
            var r := Scheduler.Sweep(s.now, s.files, certs, es, sys.Lead(), sys.der);
            && s'.now == r.now && s'.files == r.files && s'.running == map[]
            && s'.renewals == s.renewals + RenewalsOf(r.visits)
    ensures Last(sys, worlds', steps').desk == Last(sys, worlds, steps).desk
    decreases |certs|
  {
    if certs == [] {
      worlds', steps' := worlds, steps;
    } else {
      var n := |certs| - 1;
      worlds', steps' := SweepIsRun(sys, worlds, steps, certs[..n], es[..n]);
      var s := worlds'[|steps'|].site;
      RenewalsOfSnoc(Scheduler.Sweep(worlds[|steps|].site.now, worlds[|steps|].site.files, certs[..n], es[..n],
                                     sys.Lead(), sys.der).visits,
                     Check(s.now, s.files, certs[n], es[n], sys.Lead(), sys.der).visit);
      worlds', steps' := CheckIsRun(sys, worlds', steps', certs[n], es[n]);
    }
  }

  /** The renewals of the recorded sweeps. */
  function RenewalsOfLoop(records: seq<Scheduler.Record>): seq<Renewed>
  {
    if records == [] then []
    else RenewalsOfLoop(records[..|records| - 1]) + RenewalsOf(records[|records| - 1].visits)
  }

  /** The loop runs under the configuration of the system. */
  ghost predicate Configured(sys: System, p: Scheduler.Plan)
  {
    p.lead == sys.Lead() && p.der == sys.der && forall c <- p.certs :: c in sys.settings.certs
  }

  /** Every sweep of the records is clean. */
  ghost predicate CleanLoop(sys: System, p: Scheduler.Plan, records: seq<Scheduler.Record>)
    requires p.Runs(records)
  {
    forall k :: 0 <= k < |records| ==> CleanRecord(sys, p, records, k)
  }

  ghost predicate CleanRecord(sys: System, p: Scheduler.Plan, records: seq<Scheduler.Record>, k: int)
    requires 0 <= k < |records| <= |p.sweeps|
  {
    |p.sweeps[k]| == |p.certs|
    && CleanSweep(sys, records[k].start, Scheduler.StoreAfter(p.files, records[..k]), p.certs, p.sweeps[k])
  }

  /** The runs of a loop are closed under prefixes. */
  lemma RunsPrefix(sys: System, p: Scheduler.Plan, records: seq<Scheduler.Record>, n: nat)
    requires p.Runs(records) && CleanLoop(sys, p, records) && n <= |records|
    ensures p.Runs(records[..n]) && CleanLoop(sys, p, records[..n])
  {
    forall k | 0 <= k < n
      ensures p.Follows(records[..n], k) && CleanRecord(sys, p, records[..n], k)
    {
      assert p.Follows(records, k) && CleanRecord(sys, p, records, k);
      assert records[..n][..k] == records[..k];
    }
  }

  /** A site after the recorded sweeps: the loop's clock, the loop's store, and the renewals its visits report. */
  predicate AfterLoop(s: Site, p: Scheduler.Plan, records: seq<Scheduler.Record>, s': Site)
  {
    && s'.now == (if records == [] then s.now else records[|records| - 1].end)
    && s'.files == Scheduler.StoreAfter(p.files, records) && s'.running == map[]
    && s'.renewals == s.renewals + RenewalsOfLoop(records)
  }

  /** One more sweep: the wait for its start, then its checks. */
  lemma RecordIsRun(sys: System, worlds: seq<World>, steps: seq<Step>, p: Scheduler.Plan,
                    records: seq<Scheduler.Record>, s: Site)
    returns (worlds': seq<World>, steps': seq<Step>)
    requires X509Times(sys.der) && IsRun(sys, worlds, steps) && Configured(sys, p)
    requires records != [] && p.Runs(records) && CleanLoop(sys, p, records) && s.now <= p.first
    requires AfterLoop(s, p, records[..|records| - 1], Last(sys, worlds, steps).site)
    ensures IsRun(sys, worlds', steps') && worlds <= worlds' && steps <= steps'
    ensures AfterLoop(s, p, records, Last(sys, worlds', steps').site)
    ensures Last(sys, worlds', steps').desk == Last(sys, worlds, steps).desk
  {
    var n := |records| - 1;
    assert p.Follows(records, n) && CleanRecord(sys, p, records, n);
    var start := Scheduler.NextStart(p.first, records[..n]);
    var site := worlds[|steps|].site;
    assert site.now <= start;
    worlds', steps' := SiteSnoc(sys, worlds, steps, Wait(start - site.now), site.(now := start));
    worlds', steps' := SweepIsRun(sys, worlds', steps', p.certs, p.sweeps[n]);
  }

  /**
   * The sweep loop is a run of the protocol: any run in which nothing is under way
   * continues, through the waits and checks of the recorded sweeps, to the loop's
   * clock and store, its history extended by the renewals the visits report.
   */
  lemma {:induction false} LoopIsRun(sys: System, worlds: seq<World>, steps: seq<Step>, p: Scheduler.Plan,
                                     records: seq<Scheduler.Record>)
    returns (worlds': seq<World>, steps': seq<Step>)
    requires X509Times(sys.der) && IsRun(sys, worlds, steps) && Configured(sys, p)
    requires p.Runs(records) && CleanLoop(sys, p, records)
    requires var s := Last(sys, worlds, steps).site; s.running == map[] && s.files == p.files && s.now <= p.first
    ensures IsRun(sys, worlds', steps') && worlds <= worlds' && steps <= steps'
    ensures AfterLoop(Last(sys, worlds, steps).site, p, records, Last(sys, worlds', steps').site)
    ensures Last(sys, worlds', steps').desk == Last(sys, worlds, steps).desk
    decreases |records|
  {
    if records == [] {
      worlds', steps' := worlds, steps;
    } else {
      RunsPrefix(sys, p, records, |records| - 1);
      worlds', steps' := LoopIsRun(sys, worlds, steps, p, records[..|records| - 1]);
      worlds', steps' := RecordIsRun(sys, worlds', steps', p, records, worlds[|steps|].site);
    }
  }

  /**
   * So what holds of every run holds of the records: two renewals the executed loop
   * reports for one alias are further apart than the validity less the lead.
   */
  lemma {:induction false} LoopRenewalsSpaced(sys: System, p: Scheduler.Plan, records: seq<Scheduler.Record>)
    requires sys.ServerValid() && X509Times(sys.der) && Configured(sys, p)
    requires p.Runs(records) && CleanLoop(sys, p, records)
    ensures Spaced(RenewalsOfLoop(records), sys.validity - sys.Lead() * DAY)
    ensures forall r <- RenewalsOfLoop(records) :: r.decided <= r.saved
  {
    var site := Site(p.first, p.files, [], map[], [], []);
    var worlds, steps := [World(site, Desk(0, map[], Idle, 0, -1))], [];
    assert IsRun(sys, worlds, steps);
    var worlds', steps' := LoopIsRun(sys, worlds, steps, p, records);
    HistorySpaced(sys, worlds', steps');
    assert [] + RenewalsOfLoop(records) == RenewalsOfLoop(records);
  }

  /** And the renewals it reports for an alias within a span of time are bounded by arithmetic in the span. */
  lemma {:induction false} LoopRenewalsBounded(sys: System, p: Scheduler.Plan, records: seq<Scheduler.Record>,
                                               alias: string, lo: nat, hi: nat, from: int, span: int)
    requires sys.ServerValid() && X509Times(sys.der) && Configured(sys, p)
    requires p.Runs(records) && CleanLoop(sys, p, records)
    requires var log := RenewalsOfLoop(records);
             && lo <= hi <= |log|
             && forall k :: lo <= k < hi && log[k].alias == alias ==> from <= log[k].saved <= from + span
    ensures var n := Count(RenewalsOfLoop(records)[lo..hi], alias);
            n >= 1 ==> (n - 1) * (sys.validity - sys.Lead() * DAY) <= span
  {
    hide RenewalsOfLoop;
    hide CleanLoop;
    hide Spaced;
    hide Count;
    LoopRenewalsSpaced(sys, p, records);
    StretchBounded(RenewalsOfLoop(records), lo, hi, alias, from, span, sys.validity - sys.Lead() * DAY);
  }

  /** A step of the client continues a run. */
  lemma DeskSnoc(sys: System, worlds: seq<World>, steps: seq<Step>, step: DeskStep, d: Desk)
    returns (worlds': seq<World>, steps': seq<Step>)
    requires X509Times(sys.der) && IsRun(sys, worlds, steps)
    requires var w := Last(sys, worlds, steps);
             Rfc3339.Expressible(w.desk.live) && DeskNext(sys, w.site, w.desk, step, d)
    ensures IsRun(sys, worlds', steps') && worlds <= worlds' && steps <= steps'
    ensures var w := Last(sys, worlds, steps);
            Last(sys, worlds', steps') == World(SiteAfter(sys, w.site, w.desk, step), d)
  {
    var w := World(SiteAfter(sys, worlds[|steps|].site, worlds[|steps|].desk, step), d);
    RunSnoc(sys, worlds, steps, AtDesk(step), w);
    worlds', steps' := worlds + [w], steps + [AtDesk(step)];
  }

  /** The stored certificate expires after the live one. */
  ghost predicate Behind(sys: System, w: World)
  {
    && Rfc3339.Expressible(w.desk.live) && w.desk.phase.Idle?
    && sys.Stored(w.site.files, sys.alias).Some? && w.desk.live < sys.Stored(w.site.files, sys.alias).value
  }

  /** The check can tell: only the server-side one takes a zero time for no expiry. */
  predicate Tells(w: World, byClient: bool)
  {
    byClient || w.desk.live != ZERO_TIME
  }

  /** The check of a client that is behind asks for a download if it can tell, and changes nothing at the server. */
  lemma CheckOfSync(sys: System, worlds: seq<World>, steps: seq<Step>, byClient: bool)
    returns (worlds': seq<World>, steps': seq<Step>)
    requires X509Times(sys.der) && IsRun(sys, worlds, steps) && Behind(sys, Last(sys, worlds, steps))
    ensures IsRun(sys, worlds', steps') && worlds <= worlds' && steps <= steps'
    ensures var w := Last(sys, worlds, steps);
            Last(sys, worlds', steps')
            == World(w.site, w.desk.(phase := if Tells(w, byClient) then Wanted else Idle))
  {
    var w := worlds[|steps|];
    BehindVerdict(sys, w, byClient);
    worlds', steps' := DeskSnoc(sys, worlds, steps, if byClient then CheckByClient else CheckByServer,
                                w.desk.(phase := if Tells(w, byClient) then Wanted else Idle));
  }

  lemma BehindVerdict(sys: System, w: World, byClient: bool)
    requires X509Times(sys.der) && Behind(sys, w)
    ensures Verdict(sys, w.site, w.desk.live, byClient) <==> Tells(w, byClient)
    ensures SiteAfter(sys, w.site, w.desk, if byClient then CheckByClient else CheckByServer) == w.site
  {
    StoredExpiryExpressible(sys.der, w.site.files, sys.alias);
    LocalFlowCompares(sys.Stored(w.site.files, sys.alias), w.desk.live);
  }

  /** A world in which the client has caught up with another one. */
  ghost predicate CaughtUp(sys: System, w: World, w': World)
    requires DownloadReply(w.site.files, sys.alias).Ok?
  {
    && w'.site == w.site && Quiet(sys, w')
    && w'.desk.dest == Delivered(w.desk.dest, DownloadReply(w.site.files, sys.alias).value)
    && w'.desk.deploys == w.desk.deploys + 1
  }

  /**
   * A sync that nothing interrupts is a run from every world in which the client is
   * behind.  It delivers the bundle of the stored files and brings the live certificate
   * to the stored expiry if the check can tell and all four files are stored; if not,
   * it leaves everything as it was.
   */
  lemma SyncIsRun(sys: System, worlds: seq<World>, steps: seq<Step>, byClient: bool)
    returns (worlds': seq<World>, steps': seq<Step>)
    requires X509Times(sys.der) && IsRun(sys, worlds, steps) && Behind(sys, Last(sys, worlds, steps))
    ensures IsRun(sys, worlds', steps') && worlds <= worlds' && steps <= steps'
    ensures var w, w' := Last(sys, worlds, steps), Last(sys, worlds', steps');
            if Tells(w, byClient) && DownloadReply(w.site.files, sys.alias).Ok? then CaughtUp(sys, w, w') else w' == w
  {
    worlds', steps' := CheckOfSync(sys, worlds, steps, byClient);
    if Tells(worlds[|steps|], byClient) {
      if DownloadReply(worlds[|steps|].site.files, sys.alias).Ok? {
        worlds', steps' := DeliveryIsRun(sys, worlds', steps', worlds[|steps|]);
      } else {
        worlds', steps' := DeskSnoc(sys, worlds', steps', Download, worlds[|steps|].desk);
      }
    }
  }

  lemma DeliveryIsRun(sys: System, worlds: seq<World>, steps: seq<Step>, w: World)
    returns (worlds': seq<World>, steps': seq<Step>)
    requires X509Times(sys.der) && IsRun(sys, worlds, steps) && Behind(sys, w)
    requires Last(sys, worlds, steps) == World(w.site, w.desk.(phase := Wanted))
    requires DownloadReply(w.site.files, sys.alias).Ok?
    ensures IsRun(sys, worlds', steps') && worlds <= worlds' && steps <= steps'
    ensures CaughtUp(sys, w, Last(sys, worlds', steps'))
  {
    var s, d := w.site, w.desk;
    var zip, version := DownloadReply(s.files, sys.alias).value, Count(s.renewals, sys.alias);
    var temp := Unpack(map[], zip);
    BundleExpiry(sys, s.files);
    worlds', steps' := DeskSnoc(sys, worlds, steps, Download, d.(phase := Fetched(zip, version)));
    worlds', steps' := DeskSnoc(sys, worlds', steps', Extract, d.(phase := Unpacked(temp, version)));
    worlds', steps' := DeskSnoc(sys, worlds', steps', Copy, d.(dest := d.dest + temp, phase := Copied(version)));
    assert FullchainExpiry(sys.der, d.dest + temp) == FullchainExpiry(sys.der, temp);
    worlds', steps' := DeskSnoc(sys, worlds', steps', Deploy,
                                Desk(sys.Stored(s.files, sys.alias).value, d.dest + temp, Idle,
                                     d.deploys + 1, version));
  }

  /** The verdict the handlers give a check: the reply of the one it asks, as the client reads it. */
  ghost function VerdictGiven(sys: System, s: Site, live: int, byClient: bool): (v: Option<bool>)
    requires X509Times(sys.der) && Rfc3339.Expressible(live)
    ensures v == Some(true) <==> Verdict(sys, s, live, byClient)
  {
    StoredExpiryExpressible(sys.der, s.files, sys.alias);
    var stored := sys.Stored(s.files, sys.alias);
    if byClient then LocalVerdict(live, ExpireAnswer(stored, QueryOf(Rfc3339.Format(live))))
    else Some(CheckReply(stored, live).needUpdate)
  }

  /** The bundle the download handler gives. */
  function BundleGiven(sys: System, files: Files): Option<Archive>
  {
    match DownloadReply(files, sys.alias)
    case Ok(zip) => Some(zip)
    case Err(_) => None
  }

  /** The client after a sync. */
  predicate Ended(d: Desk, dest': Listing, stored: Option<int>, outcome: Outcome, d': Desk)
  {
    && d'.dest == dest' && d'.phase.Idle?
    && if outcome.Completed? then stored == Some(d'.live) && d'.deploys == d.deploys + 1
       else d'.live == d.live && d'.deploys == d.deploys
  }

  /**
   * Whatever `Sync` does after a check that called for a download is a run, from the
   * world in which it downloads, however many steps of the server after the check.
   */
  lemma RestOfSyncIsRun(sys: System, worlds: seq<World>, steps: seq<Step>, dest': Listing, outcome: Outcome)
    returns (worlds': seq<World>, steps': seq<Step>)
    requires X509Times(sys.der) && IsRun(sys, worlds, steps)
    requires var w := Last(sys, worlds, steps);
             && w.desk.phase.Wanted? && Rfc3339.Expressible(w.desk.live) && sys.Stored(w.site.files, sys.alias).Some?
             && Synced(Some(true), BundleGiven(sys, w.site.files), w.desk.dest, dest', outcome)
    ensures IsRun(sys, worlds', steps') && worlds <= worlds' && steps <= steps'
    ensures var w, w' := Last(sys, worlds, steps), Last(sys, worlds', steps');
            w'.site == w.site && Ended(w.desk, dest', sys.Stored(w.site.files, sys.alias), outcome, w'.desk)
  {
    var s, d := worlds[|steps|].site, worlds[|steps|].desk;
    if outcome.DownloadFailed? {
      worlds', steps' := DeskSnoc(sys, worlds, steps, Download, d.(phase := Idle));
    } else {
      worlds', steps' := InstallIsRun(sys, worlds, steps, dest', outcome, d, BundleGiven(sys, s.files).value);
    }
  }

  /** Unpacking, copying and the command, as far as they get. */
  lemma InstallIsRun(sys: System, worlds: seq<World>, steps: seq<Step>, dest': Listing, outcome: Outcome,
                     d: Desk, zip: Archive)
    returns (worlds': seq<World>, steps': seq<Step>)
    requires X509Times(sys.der) && IsRun(sys, worlds, steps) && d == Last(sys, worlds, steps).desk
    requires var s := Last(sys, worlds, steps).site;
             && d.phase.Wanted? && Rfc3339.Expressible(d.live) && sys.Stored(s.files, sys.alias).Some?
             && DownloadReply(s.files, sys.alias) == Ok(zip)
             && Synced(Some(true), Some(zip), d.dest, dest', outcome)
    ensures IsRun(sys, worlds', steps') && worlds <= worlds' && steps <= steps'
    ensures var w, w' := Last(sys, worlds, steps), Last(sys, worlds', steps');
            w'.site == w.site && Ended(d, dest', sys.Stored(w.site.files, sys.alias), outcome, w'.desk)
  {
    hide FullchainExpiry;
    hide LocalExpiry;
    hide StoredFiles;
    hide DownloadReply;
    hide Unpack;
    var s := worlds[|steps|].site;
    var version, temp := Count(s.renewals, sys.alias), Unpack(map[], zip);
    worlds', steps' := DeskSnoc(sys, worlds, steps, Download, d.(phase := Fetched(zip, version)));
    if outcome.ExtractFailed? {
      worlds', steps' := DeskSnoc(sys, worlds', steps', GiveUp, d.(phase := Idle));
    } else {
      worlds', steps' := DeskSnoc(sys, worlds', steps', Extract, d.(phase := Unpacked(temp, version)));
      if outcome.CopyFailed? {
        worlds', steps' := DeskSnoc(sys, worlds', steps', CopyTorn(dest'), d.(dest := dest', phase := Idle));
      } else {
        worlds', steps' := DeskSnoc(sys, worlds', steps', Copy, d.(dest := dest', phase := Copied(version)));
        worlds', steps' := CommandIsRun(sys, worlds', steps', outcome,
                                         d.(dest := dest', phase := Copied(version)), zip, d.dest);
      }
    }
  }

  lemma CommandIsRun(sys: System, worlds: seq<World>, steps: seq<Step>, outcome: Outcome, d: Desk,
                     zip: Archive, dest: Listing)
    returns (worlds': seq<World>, steps': seq<Step>)
    requires X509Times(sys.der) && IsRun(sys, worlds, steps) && d == Last(sys, worlds, steps).desk
    requires outcome.CommandFailed? || outcome.Completed?
    requires var s := Last(sys, worlds, steps).site;
             && d.phase.Copied? && Rfc3339.Expressible(d.live) && sys.Stored(s.files, sys.alias).Some?
             && DownloadReply(s.files, sys.alias) == Ok(zip) && d.dest == Delivered(dest, zip)
    ensures IsRun(sys, worlds', steps') && worlds <= worlds' && steps <= steps'
    ensures var w, w' := Last(sys, worlds, steps), Last(sys, worlds', steps');
            w'.site == w.site && Ended(d, d.dest, sys.Stored(w.site.files, sys.alias), outcome, w'.desk)
  {
    var s := worlds[|steps|].site;
    if outcome.CommandFailed? {
      worlds', steps' := DeskSnoc(sys, worlds, steps, GiveUp, d.(phase := Idle));
    } else {
      BundleExpiry(sys, s.files);
      assert "fullchain.pem" in Unpack(map[], zip);
      assert FullchainExpiry(sys.der, d.dest) == FullchainExpiry(sys.der, Unpack(map[], zip));
      worlds', steps' := DeskSnoc(sys, worlds, steps, Deploy,
                                  Desk(sys.Stored(s.files, sys.alias).value, d.dest, Idle, d.deploys + 1,
                                       d.phase.version));
    }
  }

  /**
   * Every outcome of `Sync`, with the replies the handlers give it, is a run: what the
   * sync did to the destination is what the client's steps do, and the live certificate
   * changes exactly when the sync completes.
   */
  lemma SyncOutcomeIsRun(sys: System, worlds: seq<World>, steps: seq<Step>, byClient: bool,
                         dest': Listing, outcome: Outcome)
    returns (worlds': seq<World>, steps': seq<Step>)
    requires X509Times(sys.der) && IsRun(sys, worlds, steps)
    requires var w := Last(sys, worlds, steps);
             && w.desk.phase.Idle? && Rfc3339.Expressible(w.desk.live)
             && Synced(VerdictGiven(sys, w.site, w.desk.live, byClient), BundleGiven(sys, w.site.files),
                       w.desk.dest, dest', outcome)
    ensures IsRun(sys, worlds', steps') && worlds <= worlds' && steps <= steps'
    ensures var w, w' := Last(sys, worlds, steps), Last(sys, worlds', steps');
            && w'.site == SiteAfter(sys, w.site, w.desk, if byClient then CheckByClient else CheckByServer)
            && Ended(w.desk, dest', sys.Stored(w.site.files, sys.alias), outcome, w'.desk)
            && (outcome.Completed? <==> w.desk.live < w'.desk.live)
            && (!outcome.Completed? <==> w'.desk.live == w.desk.live)
  {
    hide Verdict;
    hide VerdictGiven;
    hide BundleGiven;
    var w, check := worlds[|steps|], if byClient then CheckByClient else CheckByServer;
    var wanted := Verdict(sys, w.site, w.desk.live, byClient);
    worlds', steps' := DeskSnoc(sys, worlds, steps, check, w.desk.(phase := if wanted then Wanted else Idle));
    if wanted {
      VerdictSound(sys, w.site, w.desk.live, byClient);
      worlds', steps' := RestOfSyncIsRun(sys, worlds', steps', dest', outcome);
    }
  }

  /** What the expire handler does in the background for an authorized request is the step of the protocol. */
  lemma ExpireIsAsked(sys: System, s: Site, r: Request, query: Query)
    requires Authorize(sys.settings, r).Ok?
    ensures Asked(sys, s, r.alias, query)
         == s.(spawned := if Triggers(LocalExpiry(sys.der, s.files, r.alias), query, s.now, LeadDays(sys.settings))
                          then s.spawned + [Authorize(sys.settings, r).value] else s.spawned)
  {
  }
}
