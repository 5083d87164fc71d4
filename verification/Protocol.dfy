/**
 * The whole system as a transition system: sweeps, background renewals, uploads
 * and one syncing client interleave in any order.  A renewal is two steps, the
 * decision and the save, and renewals of one alias do not overlap; a save, a
 * download and a copy are one step each.  The live certificate is the one the
 * client's domain serves; only a deployment by the client changes it.
 */
module Protocol {
  import opened Wrappers
  import opened GoTime
  import opened Meta
  import opened Storage
  import opened Bundle
  import opened Renewal
  import opened Handlers
  import opened Client
  import Rfc3339

  /** The configuration, the alias the client syncs, and the validity every issued certificate has at least. */
  datatype System = System(settings: Settings, der: DerParser, alias: string, validity: int)
  {
    function Lead(): int
    {
      LeadDays(settings)
    }

    /** What the server's part needs: one kind of writer an alias, an exact lead, long enough validity. */
    ghost predicate ServerValid()
    {
      && NoShadowing(settings.certs)
      && Lead() <= MAX_LEAD_DAYS
      && Lead() * DAY <= validity
    }

    /** And the client's alias is renewed automatically. */
    ghost predicate Valid()
    {
      ServerValid() && X509Times(der) && Renewable(settings.certs, alias)
    }

    function Stored(files: Files, alias: string): Option<int>
    {
      LocalExpiry(der, files, alias)
    }
  }

  /** A successful renewal: when it was decided, when it was saved. */
  datatype Renewed = Renewed(alias: string, decided: int, saved: int)

  /** The server: clock, store, renewals started in the background, decisions under way, and its history. */
  datatype Site = Site(now: int, files: Files, spawned: seq<CertConfig>, running: map<string, int>,
                       renewals: seq<Renewed>, saves: seq<Save>)

  /** Where the current sync stands; `version` counts the renewals its bundle has seen. */
  datatype Phase =
    | Idle
    | Wanted
    | Fetched(zip: Archive, version: nat)
    | Unpacked(temp: Listing, version: nat)
    | Copied(version: nat)

  /** The client: live expiry, destination, current sync, deployments made and the version deployed last. */
  datatype Desk = Desk(live: int, dest: Listing, phase: Phase, deploys: nat, deployed: int)

  datatype World = World(site: Site, desk: Desk)

  datatype SiteStep =
    | Wait(time: nat)
    | SweepCheck(config: CertConfig, remote: Option<int>)
    | SpawnedCheck(index: nat, remote: Option<int>)
    | RenewalSaved(save: Save)
    | RenewalFailed(failed: string)
    | Upload(target: string, form: Form)
    | ExpireRequest(asked: string, query: Query)

  datatype DeskStep =
    | CheckByServer
    | CheckByClient
    | Download
    | Extract
    | Copy
    | CopyTorn(left: Listing)
    | Deploy
    | GiveUp

  datatype Step = AtSite(site: SiteStep) | AtDesk(desk: DeskStep)

  /** Renewals of an alias in a history. */
  function Count(renewals: seq<Renewed>, alias: string): nat
  {
    if renewals == [] then 0
    else
      var n := |renewals| - 1;
      Count(renewals[..n], alias) + if renewals[n].alias == alias then 1 else 0
  }

  function FullchainExpiry(der: DerParser, files: Listing): Option<int>
  {
    if "fullchain.pem" in files then FirstExpiry(der, files["fullchain.pem"]) else None
  }

  /** A check starts a renewal of its alias if the decision says so. */
  function Checked(sys: System, s: Site, c: CertConfig, remote: Option<int>): Site
  {
    if ShouldRenew(c, sys.Stored(s.files, c.alias), remote, s.now, sys.Lead()) then
      s.(running := s.running[c.alias := s.now])
    else s
  }

  /** An expire request answers from the store and may start a renewal in the background. */
  function Asked(sys: System, s: Site, alias: string, query: Query): Site
  {
    var certMap := AliasMap(sys.settings.certs);
    if alias in certMap && Triggers(sys.Stored(s.files, alias), query, s.now, sys.Lead()) then
      s.(spawned := s.spawned + [certMap[alias]])
    else s
  }

  function Stores(s: Site, save: Save): Site
  {
    s.(files := Saved(s.files, save), saves := s.saves + [save])
  }

  /** What is issued parses and is valid for long enough. */
  predicate GoodIssue(sys: System, now: int, save: Save)
  {
    var expiry := FirstExpiry(sys.der, save.fullchain);
    expiry.Some? && now + sys.validity <= expiry.value
  }

  function Renews(s: Site, save: Save): Site
    requires save.alias in s.running
  {
    Stores(s, save).(running := s.running - {save.alias},
                     renewals := s.renewals + [Renewed(save.alias, s.running[save.alias], s.now)])
  }

  predicate SiteNext(sys: System, s: Site, step: SiteStep, s': Site)
  {
    match step
    case Wait(time) => s' == s.(now := s.now + time)
    case SweepCheck(c, remote) =>
      c in sys.settings.certs && c.alias !in s.running && s' == Checked(sys, s, c, remote)
    case SpawnedCheck(i, remote) =>
      && i < |s.spawned| && s.spawned[i].alias !in s.running
      && s' == Checked(sys, s, s.spawned[i], remote).(spawned := s.spawned[..i] + s.spawned[i + 1..])
    case RenewalSaved(save) => save.alias in s.running && GoodIssue(sys, s.now, save) && s' == Renews(s, save)
    case RenewalFailed(alias) => s' == s.(running := s.running - {alias})
    case Upload(alias, form) =>
      UploadSave(sys.settings, alias, form).Ok? && s' == Stores(s, UploadSave(sys.settings, alias, form).value)
    case ExpireRequest(alias, query) => s' == Asked(sys, s, alias, query)
  }

  /** A refused download ends the sync. */
  function Bundled(reply: Result<Archive, int>, version: nat): Phase
  {
    match reply
    case Ok(zip) => Fetched(zip, version)
    case Err(_) => Idle
  }

  /** The verdict of a check, by either flow. */
  ghost function Verdict(sys: System, s: Site, live: int, byClient: bool): bool
    requires X509Times(sys.der) && Rfc3339.Expressible(live)
  {
    StoredExpiryExpressible(sys.der, s.files, sys.alias);
    var stored := sys.Stored(s.files, sys.alias);
    if byClient then LocalFlow(stored, live) else ServerFlow(stored, live)
  }

  ghost predicate DeskNext(sys: System, s: Site, d: Desk, step: DeskStep, d': Desk)
    requires X509Times(sys.der) && Rfc3339.Expressible(d.live)
  {
    match step
    case CheckByServer => d.phase.Idle? && d' == d.(phase := if Verdict(sys, s, d.live, false) then Wanted else Idle)
    case CheckByClient => d.phase.Idle? && d' == d.(phase := if Verdict(sys, s, d.live, true) then Wanted else Idle)
    case Download =>
      d.phase.Wanted? && d' == d.(phase := Bundled(DownloadReply(s.files, sys.alias), Count(s.renewals, sys.alias)))
    case Extract => d.phase.Fetched? && d' == d.(phase := Unpacked(Unpack(map[], d.phase.zip), d.phase.version))
    case Copy => d.phase.Unpacked? && d' == d.(dest := d.dest + d.phase.temp, phase := Copied(d.phase.version))
    case CopyTorn(left) =>
      && d.phase.Unpacked?
      && (forall name :: name !in d.phase.temp ==> Find(left, name) == Find(d.dest, name))
      && d' == d.(dest := left, phase := Idle)
    case Deploy =>
      && d.phase.Copied? && FullchainExpiry(sys.der, d.dest).Some?
      && d' == d.(live := FullchainExpiry(sys.der, d.dest).value, phase := Idle,
                  deploys := d.deploys + 1, deployed := d.phase.version)
    case GiveUp => d' == d.(phase := Idle)
  }

  /**
   * What a client step does to the server: only the client-side check asks it
   * something that has an effect, and by `QueryRoundTrip` the server reads the very
   * expiry the client has probed.
   */
  function SiteAfter(sys: System, s: Site, d: Desk, step: DeskStep): Site
  {
    if step.CheckByClient? then Asked(sys, s, sys.alias, At(d.live)) else s
  }

  ghost predicate Next(sys: System, w: World, step: Step, w': World)
    requires X509Times(sys.der)
  {
    match step
    case AtSite(st) => SiteNext(sys, w.site, st, w'.site) && w'.desk == w.desk
    case AtDesk(st) =>
      && Rfc3339.Expressible(w.desk.live)
      && DeskNext(sys, w.site, w.desk, st, w'.desk)
      && w'.site == SiteAfter(sys, w.site, w.desk, st)
  }

  predicate InitSite(s: Site)
  {
    s.spawned == [] && s.running == map[] && s.renewals == [] && s.saves == []
  }

  predicate InitDesk(d: Desk)
  {
    Rfc3339.Expressible(d.live) && d.phase == Idle && d.deploys == 0 && d.deployed == -1
  }

  ghost predicate Taken(sys: System, worlds: seq<World>, steps: seq<Step>, i: int)
    requires X509Times(sys.der) && |worlds| == |steps| + 1 && 0 <= i < |steps|
  {
    Next(sys, worlds[i], steps[i], worlds[i + 1])
  }

  ghost predicate IsRun(sys: System, worlds: seq<World>, steps: seq<Step>)
    requires X509Times(sys.der)
  {
    && |worlds| == |steps| + 1
    && InitSite(worlds[0].site) && InitDesk(worlds[0].desk)
    && forall i :: 0 <= i < |steps| ==> Taken(sys, worlds, steps, i)
  }

  // ---------------------------------------------------------------- the server

  /** Renewals waiting or under way concern automatic entries. */
  ghost predicate OwnersInv(sys: System, s: Site)
  {
    && (forall c <- s.spawned :: c in sys.settings.certs)
    && forall alias <- s.running :: Renewable(sys.settings.certs, alias)
  }

  /** Decisions under way concern automatic aliases, and were right about the stored certificate. */
  ghost predicate RunningInv(sys: System, s: Site)
  {
    && OwnersInv(sys, s)
    && forall alias <- s.running ::
         && s.running[alias] <= s.now
         && DueOrNone(sys.Stored(s.files, alias), s.running[alias], sys.Lead())
  }

  predicate DueOrNone(stored: Option<int>, at: int, lead: int)
  {
    stored.Some? ==> Due(stored.value, at, lead)
  }

  /** The store vouches for a past renewal. */
  predicate Vouched(sys: System, files: Files, r: Renewed)
  {
    && Renewable(sys.settings.certs, r.alias)
    && sys.Stored(files, r.alias).Some?
    && r.saved + sys.validity <= sys.Stored(files, r.alias).value
  }

  /** Renewals of one alias follow each other by more than a gap. */
  ghost predicate Spaced(renewals: seq<Renewed>, gap: int)
  {
    forall i, j :: 0 <= i < j < |renewals| && renewals[i].alias == renewals[j].alias ==>
                     renewals[i].saved + gap < renewals[j].decided
  }

  ghost predicate RenewalsInv(sys: System, s: Site)
  {
    && (forall i :: 0 <= i < |s.renewals| ==> Vouched(sys, s.files, s.renewals[i]))
    && (forall i :: 0 <= i < |s.renewals| ==> s.renewals[i].decided <= s.renewals[i].saved <= s.now)
    && Spaced(s.renewals, sys.validity - sys.Lead() * DAY)
  }

  ghost predicate SiteInv(sys: System, s: Site)
  {
    RunningInv(sys, s) && RenewalsInv(sys, s)
  }

  /** A decision to renew an alias with a stored certificate finds it due. */
  lemma CheckedInv(sys: System, s: Site, c: CertConfig, remote: Option<int>)
    requires sys.ServerValid() && c in sys.settings.certs && SiteInv(sys, s)
    ensures SiteInv(sys, Checked(sys, s, c, remote))
  {
    ShouldRenewIff(c, sys.Stored(s.files, c.alias), remote, s.now, sys.Lead());
    var s' := Checked(sys, s, c, remote);
    assert s'.files == s.files && s'.renewals == s.renewals;
  }

  lemma AskedInv(sys: System, s: Site, alias: string, query: Query)
    requires SiteInv(sys, s)
    ensures SiteInv(sys, Asked(sys, s, alias, query))
  {
    AliasMapLookup(sys.settings.certs, alias);
    var s' := Asked(sys, s, alias, query);
    assert s'.files == s.files && s'.renewals == s.renewals && s'.running == s.running;
  }

  /** A save changes what its own alias stores and no other. */
  lemma StoredAfter(sys: System, files: Files, save: Save, alias: string)
    ensures sys.Stored(Saved(files, save), alias)
         == if alias == save.alias then FirstExpiry(sys.der, save.fullchain) else sys.Stored(files, alias)
  {
    LocalExpiryAfterSave(files, save, alias, sys.der);
  }

  /** An accepted upload saves to an alias no renewal ever touches. */
  lemma UploadedElsewhere(sys: System, alias: string, form: Form)
    requires NoShadowing(sys.settings.certs) && UploadSave(sys.settings, alias, form).Ok?
    ensures UploadSave(sys.settings, alias, form).value.alias == alias
    ensures Uploadable(sys.settings.certs, alias) && !Renewable(sys.settings.certs, alias)
  {
    UploadAcceptedIff(sys.settings, alias, form);
    OneWriterIff(sys.settings.certs);
  }

  lemma UploadInv(sys: System, s: Site, save: Save)
    requires SiteInv(sys, s) && !Renewable(sys.settings.certs, save.alias)
    ensures SiteInv(sys, Stores(s, save))
  {
    var files' := Saved(s.files, save);
    forall i | 0 <= i < |s.renewals|
      ensures Vouched(sys, files', s.renewals[i])
    {
      assert Vouched(sys, s.files, s.renewals[i]);
      StoredAfter(sys, s.files, save, s.renewals[i].alias);
    }
    forall alias <- s.running
      ensures sys.Stored(files', alias) == sys.Stored(s.files, alias)
    {
      StoredAfter(sys, s.files, save, alias);
    }
  }

  /** A renewal keeps vouching for a past one, and its decision came late enough after it. */
  lemma VouchedAfterRenewal(sys: System, s: Site, save: Save, r: Renewed)
    requires sys.ServerValid() && save.alias in s.running && GoodIssue(sys, s.now, save)
    requires DueOrNone(sys.Stored(s.files, save.alias), s.running[save.alias], sys.Lead())
    requires Vouched(sys, s.files, r) && r.saved <= s.now
    ensures Vouched(sys, Saved(s.files, save), r)
    ensures r.alias == save.alias ==> r.saved + sys.validity - sys.Lead() * DAY < s.running[save.alias]
  {
    StoredAfter(sys, s.files, save, r.alias);
  }

  lemma SpacedSnoc(renewals: seq<Renewed>, last: Renewed, gap: int)
    requires Spaced(renewals, gap)
    requires forall i :: 0 <= i < |renewals| && renewals[i].alias == last.alias ==>
                           renewals[i].saved + gap < last.decided
    ensures Spaced(renewals + [last], gap)
  {
  }

  lemma RenewedRenewalsInv(sys: System, s: Site, save: Save)
    requires sys.ServerValid() && SiteInv(sys, s) && save.alias in s.running && GoodIssue(sys, s.now, save)
    ensures RenewalsInv(sys, Renews(s, save))
  {
    var last := Renewed(save.alias, s.running[save.alias], s.now);
    var files' := Saved(s.files, save);
    forall i | 0 <= i < |s.renewals|
      ensures Vouched(sys, files', s.renewals[i])
      ensures s.renewals[i].alias == save.alias ==>
                s.renewals[i].saved + (sys.validity - sys.Lead() * DAY) < last.decided
    {
      VouchedAfterRenewal(sys, s, save, s.renewals[i]);
    }
    StoredAfter(sys, s.files, save, save.alias);
    assert Vouched(sys, files', last);
    SpacedSnoc(s.renewals, last, sys.validity - sys.Lead() * DAY);
  }

  lemma RenewedRunningInv(sys: System, s: Site, save: Save)
    requires SiteInv(sys, s) && save.alias in s.running
    ensures RunningInv(sys, Renews(s, save))
  {
    var s' := Renews(s, save);
    forall alias <- s'.running
      ensures sys.Stored(s'.files, alias) == sys.Stored(s.files, alias)
    {
      StoredAfter(sys, s.files, save, alias);
    }
  }

  lemma SiteStepInv(sys: System, s: Site, step: SiteStep, s': Site)
    requires sys.ServerValid() && SiteInv(sys, s) && SiteNext(sys, s, step, s')
    ensures SiteInv(sys, s')
  {
    match step
    case Wait(_) =>
    case SweepCheck(c, remote) =>
      CheckedInv(sys, s, c, remote);
    case SpawnedCheck(i, remote) =>
      CheckedInv(sys, s, s.spawned[i], remote);
    case RenewalSaved(save) =>
      RenewedRenewalsInv(sys, s, save);
      RenewedRunningInv(sys, s, save);
    case RenewalFailed(_) =>
    case Upload(alias, form) =>
      UploadedElsewhere(sys, alias, form);
      UploadInv(sys, s, UploadSave(sys.settings, alias, form).value);
    case ExpireRequest(alias, query) =>
      AskedInv(sys, s, alias, query);
  }

  // ---------------------------------------------------------------- the client

  /** A bundle taken at some version is newer than the live certificate and not newer than the store. */
  predicate Newer(stored: Option<int>, current: nat, d: Desk, bundle: Option<int>, version: nat)
  {
    && bundle.Some? && stored.Some?
    && d.live < bundle.value <= stored.value
    && d.deployed < version <= current
    && (version == current ==> bundle == stored)
  }

  /** The client's invariant over what it can see of the server: stored expiry and current version. */
  predicate Holds(der: DerParser, stored: Option<int>, current: nat, d: Desk)
  {
    && Rfc3339.Expressible(d.live)
    && d.deploys <= d.deployed + 1 && -1 <= d.deployed <= current
    && (d.deployed >= 0 ==>
          stored.Some? && d.live <= stored.value && (d.deployed == current ==> d.live == stored.value))
    && match d.phase
       case Idle => true
       case Wanted => stored.Some? && d.live < stored.value
       case Fetched(zip, v) => Newer(stored, current, d, FullchainExpiry(der, Unpack(map[], zip)), v)
       case Unpacked(temp, v) => Newer(stored, current, d, FullchainExpiry(der, temp), v)
       case Copied(v) => Newer(stored, current, d, FullchainExpiry(der, d.dest), v)
  }

  predicate DeskInv(sys: System, s: Site, d: Desk)
  {
    Holds(sys.der, sys.Stored(s.files, sys.alias), Count(s.renewals, sys.alias), d)
  }

  /** A renewal of the client's alias: the stored expiry rises with the version. */
  lemma HoldsAfterRenewal(der: DerParser, stored: Option<int>, stored': Option<int>, current: nat, d: Desk)
    requires Holds(der, stored, current, d)
    requires stored'.Some? && (stored.Some? ==> stored.value < stored'.value)
    ensures Holds(der, stored', current + 1, d)
  {
  }

  /** A renewal decided on a due certificate raises what is stored. */
  lemma RenewalRaises(sys: System, s: Site, save: Save)
    requires sys.ServerValid() && RunningInv(sys, s) && save.alias in s.running && GoodIssue(sys, s.now, save)
    ensures var stored, stored' := sys.Stored(s.files, save.alias), sys.Stored(Saved(s.files, save), save.alias);
            stored'.Some? && (stored.Some? ==> stored.value < stored'.value)
  {
    StoredAfter(sys, s.files, save, save.alias);
  }

  lemma {:induction false} CountSnoc(renewals: seq<Renewed>, last: Renewed, alias: string)
    ensures Count(renewals + [last], alias) == Count(renewals, alias) + if last.alias == alias then 1 else 0
  {
    assert (renewals + [last])[..|renewals|] == renewals;
  }

  lemma DeskAfterSiteStep(sys: System, s: Site, step: SiteStep, s': Site, d: Desk)
    requires sys.Valid() && SiteInv(sys, s) && SiteNext(sys, s, step, s') && DeskInv(sys, s, d)
    ensures DeskInv(sys, s', d)
  {
    match step
    case RenewalSaved(save) =>
      StoredAfter(sys, s.files, save, sys.alias);
      CountSnoc(s.renewals, Renewed(save.alias, s.running[save.alias], s.now), sys.alias);
      if save.alias == sys.alias {
        RenewalRaises(sys, s, save);
        HoldsAfterRenewal(sys.der, sys.Stored(s.files, sys.alias), sys.Stored(s'.files, sys.alias),
                          Count(s.renewals, sys.alias), d);
      }
    case Upload(alias, form) =>
      UploadedElsewhere(sys, alias, form);
      StoredAfter(sys, s.files, UploadSave(sys.settings, alias, form).value, sys.alias);
    case _ =>
      assert s'.files == s.files && s'.renewals == s.renewals;
  }

  /** Either check asks for a download only when the live certificate expires before the stored one. */
  lemma VerdictSound(sys: System, s: Site, live: int, byClient: bool)
    requires X509Times(sys.der) && Rfc3339.Expressible(live) && Verdict(sys, s, live, byClient)
    ensures sys.Stored(s.files, sys.alias).Some? && live < sys.Stored(s.files, sys.alias).value
  {
    StoredExpiryExpressible(sys.der, s.files, sys.alias);
    LocalFlowCompares(sys.Stored(s.files, sys.alias), live);
  }

  lemma ReadableNotEmpty(der: DerParser, data: string)
    requires FirstExpiry(der, data).Some?
    ensures data != ""
  {
  }

  /** A bundle holds the stored full chain, so it tells the stored expiry. */
  lemma BundleExpiry(sys: System, files: Files)
    requires DownloadReply(files, sys.alias).Ok? && sys.Stored(files, sys.alias).Some?
    ensures FullchainExpiry(sys.der, Unpack(map[], DownloadReply(files, sys.alias).value))
         == sys.Stored(files, sys.alias)
  {
    var temp := Unpack(map[], DownloadReply(files, sys.alias).value);
    ReadableNotEmpty(sys.der, files[Path(sys.alias, FullchainPem)]);
    DeliveredFiles(files, sys.alias, map[], "fullchain.pem");
    assert map[] + temp == temp;
    assert Find(temp, "fullchain.pem") == Some(files[Path(sys.alias, FullchainPem)]);
  }

  lemma DeskAfterCheck(sys: System, s: Site, d: Desk, step: DeskStep, d': Desk)
    requires sys.Valid() && DeskInv(sys, s, d) && DeskNext(sys, s, d, step, d')
    requires step.CheckByServer? || step.CheckByClient?
    ensures DeskInv(sys, s, d')
  {
    if Verdict(sys, s, d.live, step.CheckByClient?) {
      VerdictSound(sys, s, d.live, step.CheckByClient?);
    }
  }

  lemma DeskAfterDownload(sys: System, s: Site, d: Desk, d': Desk)
    requires sys.Valid() && DeskInv(sys, s, d) && DeskNext(sys, s, d, Download, d')
    ensures DeskInv(sys, s, d')
  {
    if DownloadReply(s.files, sys.alias).Ok? {
      BundleExpiry(sys, s.files);
    }
  }

  lemma DeskAfterInstall(sys: System, s: Site, d: Desk, step: DeskStep, d': Desk)
    requires sys.Valid() && DeskInv(sys, s, d) && DeskNext(sys, s, d, step, d')
    requires step.Extract? || step.Copy? || step.CopyTorn? || step.Deploy? || step.GiveUp?
    ensures DeskInv(sys, s, d')
    ensures step.Deploy? ==> d.live < d'.live
  {
    if step.Copy? {
      assert "fullchain.pem" in d.phase.temp;
      assert FullchainExpiry(sys.der, d'.dest) == FullchainExpiry(sys.der, d.phase.temp);
    }
  }

  lemma DeskStepInv(sys: System, s: Site, d: Desk, step: DeskStep, d': Desk)
    requires sys.Valid() && DeskInv(sys, s, d) && DeskNext(sys, s, d, step, d')
    ensures DeskInv(sys, s, d')
    ensures if step.Deploy? then d.live < d'.live else d'.live == d.live
  {
    if step.CheckByServer? || step.CheckByClient? {
      DeskAfterCheck(sys, s, d, step, d');
    } else if step.Download? {
      DeskAfterDownload(sys, s, d, d');
    } else {
      DeskAfterInstall(sys, s, d, step, d');
    }
  }

  // ---------------------------------------------------------------- all runs

  ghost predicate Inv(sys: System, w: World)
  {
    SiteInv(sys, w.site) && DeskInv(sys, w.site, w.desk)
  }

  lemma InitInv(sys: System, w: World)
    requires InitSite(w.site) && InitDesk(w.desk)
    ensures Inv(sys, w) && SiteInv(sys, w.site)
  {
  }

  lemma SiteAfterInv(sys: System, s: Site, d: Desk, step: DeskStep, d': Desk)
    requires SiteInv(sys, s) && DeskInv(sys, s, d')
    ensures SiteInv(sys, SiteAfter(sys, s, d, step)) && DeskInv(sys, SiteAfter(sys, s, d, step), d')
  {
    if step.CheckByClient? {
      AskedInv(sys, s, sys.alias, At(d.live));
    }
    var s' := SiteAfter(sys, s, d, step);
    assert s'.files == s.files && s'.renewals == s.renewals;
  }

  lemma StepInv(sys: System, w: World, step: Step, w': World)
    requires sys.Valid() && Inv(sys, w) && Next(sys, w, step, w')
    ensures Inv(sys, w')
  {
    match step
    case AtSite(st) =>
      SiteStepInv(sys, w.site, st, w'.site);
      DeskAfterSiteStep(sys, w.site, st, w'.site, w.desk);
    case AtDesk(st) =>
      DeskStepInv(sys, w.site, w.desk, st, w'.desk);
      SiteAfterInv(sys, w.site, w.desk, st, w'.desk);
  }

  lemma StepOfRun(sys: System, worlds: seq<World>, steps: seq<Step>, i: nat)
    requires sys.Valid() && IsRun(sys, worlds, steps) && i < |steps| && Inv(sys, worlds[i])
    ensures Inv(sys, worlds[i + 1])
  {
    assert Taken(sys, worlds, steps, i);
    StepInv(sys, worlds[i], steps[i], worlds[i + 1]);
  }

  lemma SiteStepOfRun(sys: System, worlds: seq<World>, steps: seq<Step>, i: nat)
    requires sys.ServerValid() && X509Times(sys.der) && IsRun(sys, worlds, steps) && i < |steps|
    requires SiteInv(sys, worlds[i].site)
    ensures SiteInv(sys, worlds[i + 1].site)
  {
    assert Taken(sys, worlds, steps, i);
    if steps[i].AtSite? {
      SiteStepInv(sys, worlds[i].site, steps[i].site, worlds[i + 1].site);
    } else if steps[i].desk.CheckByClient? {
      AskedInv(sys, worlds[i].site, sys.alias, At(worlds[i].desk.live));
    }
  }

  /** In every run the server's invariant holds, whatever the client does. */
  lemma {:induction false} SiteReachable(sys: System, worlds: seq<World>, steps: seq<Step>, i: nat)
    requires sys.ServerValid() && X509Times(sys.der) && IsRun(sys, worlds, steps) && i < |worlds|
    ensures SiteInv(sys, worlds[i].site)
    decreases i
  {
    hide SiteInv;
    if i == 0 {
      InitInv(sys, worlds[0]);
    } else {
      SiteReachable(sys, worlds, steps, i - 1);
      SiteStepOfRun(sys, worlds, steps, i - 1);
    }
  }

  /** Every world of every run satisfies the invariant. */
  lemma {:induction false} Reachable(sys: System, worlds: seq<World>, steps: seq<Step>, i: nat)
    requires sys.Valid() && IsRun(sys, worlds, steps) && i < |worlds|
    ensures Inv(sys, worlds[i])
    decreases i
  {
    hide Inv;
    if i == 0 {
      InitInv(sys, worlds[0]);
    } else {
      Reachable(sys, worlds, steps, i - 1);
      StepOfRun(sys, worlds, steps, i - 1);
    }
  }

  /**
   * In every interleaving, each deployment strictly raises the expiry of the live
   * certificate, whatever was renewed since the check that asked for it; nothing
   * else changes the live certificate.
   */
  lemma DeployRaisesLive(sys: System, worlds: seq<World>, steps: seq<Step>, i: nat)
    requires sys.Valid() && IsRun(sys, worlds, steps) && i < |steps|
    ensures if steps[i] == AtDesk(Deploy) then worlds[i].desk.live < worlds[i + 1].desk.live
            else worlds[i].desk.live == worlds[i + 1].desk.live
  {
    Reachable(sys, worlds, steps, i);
    assert Taken(sys, worlds, steps, i);
    if steps[i].AtDesk? {
      DeskStepInv(sys, worlds[i].site, worlds[i].desk, steps[i].desk, worlds[i + 1].desk);
    }
  }

  /** In every run, deployments number at most one more than the renewals saved for the client's alias. */
  lemma DeploysBounded(sys: System, worlds: seq<World>, steps: seq<Step>, i: nat)
    requires sys.Valid() && IsRun(sys, worlds, steps) && i < |worlds|
    ensures worlds[i].desk.deploys <= 1 + Count(worlds[i].site.renewals, sys.alias)
  {
    Reachable(sys, worlds, steps, i);
  }

  /** In every run, a saved renewal replaces a stored certificate by one that expires strictly later. */
  lemma RenewalRaisesStored(sys: System, worlds: seq<World>, steps: seq<Step>, i: nat)
    requires sys.ServerValid() && X509Times(sys.der) && IsRun(sys, worlds, steps) && i < |steps|
    requires steps[i].AtSite? && steps[i].site.RenewalSaved?
    ensures var alias := steps[i].site.save.alias;
            var stored, stored' := sys.Stored(worlds[i].site.files, alias), sys.Stored(worlds[i + 1].site.files, alias);
            stored'.Some? && (stored.Some? ==> stored.value < stored'.value)
  {
    SiteReachable(sys, worlds, steps, i);
    assert Taken(sys, worlds, steps, i);
    RenewalRaises(sys, worlds[i].site, steps[i].site.save);
  }

  lemma HistorySpaced(sys: System, worlds: seq<World>, steps: seq<Step>)
    requires sys.ServerValid() && X509Times(sys.der) && IsRun(sys, worlds, steps)
    ensures var log := worlds[|steps|].site.renewals;
            && Spaced(log, sys.validity - sys.Lead() * DAY)
            && forall k :: 0 <= k < |log| ==> log[k].decided <= log[k].saved
  {
    SiteReachable(sys, worlds, steps, |steps|);
  }

  /** In every run, two renewals of one alias are further apart than the validity less the lead. */
  lemma RenewalsSpaced(sys: System, worlds: seq<World>, steps: seq<Step>, log: seq<Renewed>, i: nat, j: nat)
    requires sys.ServerValid() && X509Times(sys.der) && IsRun(sys, worlds, steps)
    requires log == worlds[|steps|].site.renewals
    requires i < j < |log| && log[i].alias == log[j].alias
    ensures log[i].saved + sys.validity - sys.Lead() * DAY < log[j].decided <= log[j].saved
  {
    HistorySpaced(sys, worlds, steps);
  }

  /** So many renewals of an alias span at least one gap less than their number. */
  lemma {:induction false} SpanOfRenewals(log: seq<Renewed>, alias: string, gap: int) returns (i: nat, j: nat)
    requires Spaced(log, gap) && 1 <= Count(log, alias)
    requires forall k :: 0 <= k < |log| ==> log[k].decided <= log[k].saved
    ensures i <= j < |log| && log[i].alias == log[j].alias == alias
    ensures log[i].saved + (Count(log, alias) - 1) * gap <= log[j].saved
  {
    var n := |log| - 1;
    var init := log[..n];
    if log[n].alias == alias && Count(init, alias) == 0 {
      i, j := n, n;
    } else {
      i, j := SpanOfRenewals(init, alias, gap);
      assert log[j].saved == init[j].saved && log[i].saved == init[i].saved;
      if log[n].alias == alias {
        assert Count(log, alias) == Count(init, alias) + 1;
        OneMoreGap(Count(init, alias), gap);
        j := n;
      }
    }
  }

  lemma OneMoreGap(n: int, gap: int)
    ensures n * gap == (n - 1) * gap + gap
  {
  }

  lemma {:induction false} StretchBounded(log: seq<Renewed>, lo: nat, hi: nat, alias: string,
                                          from: int, span: int, gap: int)
    requires lo <= hi <= |log| && Spaced(log, gap)
    requires forall k :: 0 <= k < |log| ==> log[k].decided <= log[k].saved
    requires forall k :: lo <= k < hi && log[k].alias == alias ==> from <= log[k].saved <= from + span
    ensures var n := Count(log[lo..hi], alias); n >= 1 ==> (n - 1) * gap <= span
  {
    var stretch := log[lo..hi];
    assert forall k :: 0 <= k < |stretch| ==> stretch[k] == log[lo + k];
    if 1 <= Count(stretch, alias) {
      var i, j := SpanOfRenewals(stretch, alias, gap);
      assert from <= log[lo + i].saved && log[lo + j].saved <= from + span;
    }
  }

  /**
   * In every run, the renewals of an alias saved within a time span are bounded by
   * arithmetic in its length, for any stretch of the history.
   */
  lemma {:induction false} RenewalsBounded(sys: System, worlds: seq<World>, steps: seq<Step>, alias: string,
                                           log: seq<Renewed>, lo: nat, hi: nat, from: int, span: int)
    requires sys.ServerValid() && X509Times(sys.der) && IsRun(sys, worlds, steps)
    requires log == worlds[|steps|].site.renewals && lo <= hi <= |log|
    requires forall k :: lo <= k < hi && log[k].alias == alias ==> from <= log[k].saved <= from + span
    ensures var n := Count(log[lo..hi], alias);
            n >= 1 ==> (n - 1) * (sys.validity - sys.Lead() * DAY) <= span
  {
    HistorySpaced(sys, worlds, steps);
    StretchBounded(log, lo, hi, alias, from, span, sys.validity - sys.Lead() * DAY);
  }

  lemma GuardedStep(sys: System, s: Site, step: SiteStep, s': Site, alias: string)
    requires sys.ServerValid() && RunningInv(sys, s) && SiteNext(sys, s, step, s')
    requires alias in s'.running && alias !in s.running
    ensures step.SweepCheck? || step.SpawnedCheck?
    ensures exists c <- sys.settings.certs ::
              c.alias == alias && RenewalDue(c, sys.Stored(s.files, alias), step.remote, s.now, sys.Lead())
  {
    assert step.SweepCheck? || step.SpawnedCheck?;
    var c := if step.SweepCheck? then step.config else s.spawned[step.index];
    assert c in sys.settings.certs && c.alias == alias;
    ShouldRenewIff(c, sys.Stored(s.files, alias), step.remote, s.now, sys.Lead());
  }

  /**
   * In every run, a renewal starts only for an automatic entry of the configuration
   * that is due by the scheduler's own decision; a background trigger bypasses nothing.
   */
  lemma RenewalsGuarded(sys: System, worlds: seq<World>, steps: seq<Step>, i: nat, alias: string)
    requires sys.ServerValid() && X509Times(sys.der) && IsRun(sys, worlds, steps) && i < |steps|
    requires alias in worlds[i + 1].site.running && alias !in worlds[i].site.running
    ensures steps[i].AtSite? && (steps[i].site.SweepCheck? || steps[i].site.SpawnedCheck?)
    ensures var s := worlds[i].site;
            exists c <- sys.settings.certs ::
              c.alias == alias && RenewalDue(c, sys.Stored(s.files, alias), steps[i].site.remote, s.now, sys.Lead())
  {
    SiteReachable(sys, worlds, steps, i);
    assert Taken(sys, worlds, steps, i);
    assert steps[i].AtSite?;
    GuardedStep(sys, worlds[i].site, steps[i].site, worlds[i + 1].site, alias);
  }

  /** The one kind of writer a configuration allows an alias. */
  predicate Writes(sys: System, step: SiteStep, alias: string)
  {
    || (step.RenewalSaved? && step.save.alias == alias
        && Renewable(sys.settings.certs, alias) && !Uploadable(sys.settings.certs, alias))
    || (step.Upload? && step.target == alias
        && Uploadable(sys.settings.certs, alias) && !Renewable(sys.settings.certs, alias))
  }

  lemma OwnersStep(sys: System, s: Site, step: SiteStep, s': Site)
    requires OwnersInv(sys, s) && SiteNext(sys, s, step, s')
    ensures OwnersInv(sys, s')
  {
    if step.ExpireRequest? {
      AliasMapLookup(sys.settings.certs, step.asked);
    }
  }

  lemma OwnersStepOfRun(sys: System, worlds: seq<World>, steps: seq<Step>, i: nat)
    requires X509Times(sys.der) && IsRun(sys, worlds, steps) && i < |steps| && OwnersInv(sys, worlds[i].site)
    ensures OwnersInv(sys, worlds[i + 1].site)
  {
    assert Taken(sys, worlds, steps, i);
    if steps[i].AtSite? {
      OwnersStep(sys, worlds[i].site, steps[i].site, worlds[i + 1].site);
    } else {
      AliasMapLookup(sys.settings.certs, sys.alias);
    }
  }

  /** In every run of every configuration, renewals concern automatic entries only. */
  lemma {:induction false} OwnersReachable(sys: System, worlds: seq<World>, steps: seq<Step>, i: nat)
    requires X509Times(sys.der) && IsRun(sys, worlds, steps) && i < |worlds|
    ensures OwnersInv(sys, worlds[i].site)
    decreases i
  {
    if i > 0 {
      OwnersReachable(sys, worlds, steps, i - 1);
      OwnersStepOfRun(sys, worlds, steps, i - 1);
    }
  }

  lemma WriterStep(sys: System, s: Site, step: SiteStep, s': Site, p: Path)
    requires NoShadowing(sys.settings.certs) && OwnersInv(sys, s) && SiteNext(sys, s, step, s')
    ensures Lookup(s'.files, p) == Lookup(s.files, p) || Writes(sys, step, p.alias)
  {
    match step
    case RenewalSaved(save) =>
      OneWriterIff(sys.settings.certs);
      SavedLookup(s.files, save, p);
    case Upload(alias, form) =>
      UploadedElsewhere(sys, alias, form);
      SavedLookup(s.files, UploadSave(sys.settings, alias, form).value, p);
    case _ =>
      assert s'.files == s.files;
  }

  /**
   * In every run, the files of an alias change only by the one kind of writer its
   * configuration allows: a renewal of an automatic alias, an upload to a manual one.
   * All it takes is that no automatic entry is shadowed.
   */
  lemma SingleWriter(sys: System, worlds: seq<World>, steps: seq<Step>, i: nat, p: Path)
    requires X509Times(sys.der) && NoShadowing(sys.settings.certs) && IsRun(sys, worlds, steps) && i < |steps|
    ensures || Lookup(worlds[i + 1].site.files, p) == Lookup(worlds[i].site.files, p)
            || (steps[i].AtSite? && Writes(sys, steps[i].site, p.alias))
  {
    OwnersReachable(sys, worlds, steps, i);
    assert Taken(sys, worlds, steps, i);
    if steps[i].AtSite? {
      WriterStep(sys, worlds[i].site, steps[i].site, worlds[i + 1].site, p);
    }
  }

  /** Nothing under way, and the live certificate expires when the stored one does. */
  predicate Quiet(sys: System, w: World)
  {
    w.desk.phase.Idle? && sys.Stored(w.site.files, sys.alias) == Some(w.desk.live)
  }

  predicate RenewsClient(sys: System, step: Step)
  {
    step.AtSite? && step.site.RenewalSaved? && step.site.save.alias == sys.alias
  }

  /**
   * In every run, a deployment of the newest version, with no renewal of the alias
   * since its download, brings the live certificate to the stored expiry.
   */
  lemma DeployCatchesUp(sys: System, worlds: seq<World>, steps: seq<Step>, i: nat)
    requires sys.Valid() && IsRun(sys, worlds, steps) && i < |steps| && steps[i] == AtDesk(Deploy)
    requires worlds[i + 1].desk.deployed == Count(worlds[i].site.renewals, sys.alias)
    ensures Quiet(sys, worlds[i + 1])
  {
    Reachable(sys, worlds, steps, i);
    assert Taken(sys, worlds, steps, i);
  }

  lemma QuietSite(sys: System, s: Site, step: SiteStep, s': Site)
    requires sys.Valid() && SiteNext(sys, s, step, s') && !RenewsClient(sys, AtSite(step))
    ensures sys.Stored(s'.files, sys.alias) == sys.Stored(s.files, sys.alias)
  {
    match step
    case RenewalSaved(save) =>
      StoredAfter(sys, s.files, save, sys.alias);
    case Upload(alias, form) =>
      UploadedElsewhere(sys, alias, form);
      StoredAfter(sys, s.files, UploadSave(sys.settings, alias, form).value, sys.alias);
    case _ =>
      assert s'.files == s.files;
  }

  lemma QuietStep(sys: System, w: World, step: Step, w': World)
    requires sys.Valid() && Next(sys, w, step, w') && Quiet(sys, w) && !RenewsClient(sys, step)
    ensures Quiet(sys, w') && w'.desk == w.desk
  {
    match step
    case AtSite(st) =>
      QuietSite(sys, w.site, st, w'.site);
    case AtDesk(st) =>
      if (st.CheckByServer? || st.CheckByClient?) && Verdict(sys, w.site, w.desk.live, st.CheckByClient?) {
        VerdictSound(sys, w.site, w.desk.live, st.CheckByClient?);
      }
      assert w'.desk == w.desk;
  }

  lemma QuietStepOfRun(sys: System, worlds: seq<World>, steps: seq<Step>, i: nat)
    requires sys.Valid() && IsRun(sys, worlds, steps) && i < |steps|
    requires Quiet(sys, worlds[i]) && !RenewsClient(sys, steps[i])
    ensures Quiet(sys, worlds[i + 1]) && worlds[i + 1].desk == worlds[i].desk
  {
    assert Taken(sys, worlds, steps, i);
    QuietStep(sys, worlds[i], steps[i], worlds[i + 1]);
  }

  /**
   * Once the live and the stored expiry are equal, and as long as no renewal of the
   * client's alias is saved, every sync changes nothing.
   */
  lemma {:induction false} Quiescent(sys: System, worlds: seq<World>, steps: seq<Step>, i: nat, j: nat)
    requires sys.Valid() && IsRun(sys, worlds, steps) && i <= j < |worlds| && Quiet(sys, worlds[i])
    requires forall k :: i <= k < j ==> !RenewsClient(sys, steps[k])
    ensures Quiet(sys, worlds[j]) && worlds[j].desk == worlds[i].desk
    decreases j
  {
    hide Quiet;
    hide RenewsClient;
    if i < j {
      Quiescent(sys, worlds, steps, i, j - 1);
      QuietStepOfRun(sys, worlds, steps, j - 1);
    }
  }

  /** The store is an initial one with the saves so far replayed. */
  predicate Replayed(initial: Files, s: Site)
  {
    s.files == Replay(initial, s.saves)
  }

  lemma ReplayedInit(s: Site)
    requires InitSite(s)
    ensures Replayed(s.files, s)
  {
  }

  lemma ReplayStep(sys: System, s: Site, step: SiteStep, s': Site, initial: Files)
    requires SiteNext(sys, s, step, s') && Replayed(initial, s)
    ensures Replayed(initial, s')
  {
    if step.RenewalSaved? || step.Upload? {
      var save := if step.Upload? then UploadSave(sys.settings, step.target, step.form).value else step.save;
      ReplaySnoc(initial, s.saves, save);
    } else {
      assert s'.saves == s.saves && s'.files == s.files;
    }
  }

  lemma ReplayStepOfRun(sys: System, worlds: seq<World>, steps: seq<Step>, i: nat, initial: Files)
    requires X509Times(sys.der) && IsRun(sys, worlds, steps) && i < |steps|
    requires Replayed(initial, worlds[i].site)
    ensures Replayed(initial, worlds[i + 1].site)
  {
    assert Taken(sys, worlds, steps, i);
    if steps[i].AtSite? {
      ReplayStep(sys, worlds[i].site, steps[i].site, worlds[i + 1].site, initial);
    } else {
      var s, s' := worlds[i].site, worlds[i + 1].site;
      assert s'.saves == s.saves && s'.files == s.files;
    }
  }

  /** In every run, the store is the initial one with the saves of the run replayed. */
  lemma {:induction false} StoreIsReplay(sys: System, worlds: seq<World>, steps: seq<Step>, i: nat, initial: Files)
    requires X509Times(sys.der) && IsRun(sys, worlds, steps) && i < |worlds| && initial == worlds[0].site.files
    ensures Replayed(initial, worlds[i].site)
    decreases i
  {
    hide Replayed;
    if i == 0 {
      ReplayedInit(worlds[0].site);
    } else {
      StoreIsReplay(sys, worlds, steps, i - 1, initial);
      ReplayStepOfRun(sys, worlds, steps, i - 1, initial);
    }
  }

  /** What a download finds in every run. */
  lemma FileOfRun(sys: System, worlds: seq<World>, steps: seq<Step>, i: nat, p: Path)
    requires X509Times(sys.der) && IsRun(sys, worlds, steps) && i < |worlds|
    ensures Lookup(worlds[i].site.files, p) == Origin(worlds[0].site.files, worlds[i].site.saves, p)
  {
    StoreIsReplay(sys, worlds, steps, i, worlds[0].site.files);
    ReplayLookup(worlds[0].site.files, worlds[i].site.saves, p);
  }

  /** The files some saves leave, if all four are there. */
  function Origins(initial: Files, saves: seq<Save>, alias: string): Option<CertFiles>
  {
    match (Origin(initial, saves, Path(alias, CertPem)), Origin(initial, saves, Path(alias, ChainPem)),
           Origin(initial, saves, Path(alias, FullchainPem)), Origin(initial, saves, Path(alias, PrivkeyPem)))
    case (Some(cert), Some(chain), Some(fullchain), Some(privkey)) => Some(CertFiles(cert, chain, fullchain, privkey))
    case _ => None
  }

  /** A file is there if some save of its alias wrote it or it was there before. */
  predicate Supplied(initial: Files, saves: seq<Save>, p: Path)
  {
    0 <= LastSave(saves, p.alias, p.name) || p in initial
  }

  lemma OriginsIff(initial: Files, saves: seq<Save>, alias: string)
    ensures Origins(initial, saves, alias).Some?
       <==> forall name: FileName :: Supplied(initial, saves, Path(alias, name))
  {
    if Origins(initial, saves, alias).Some? {
      forall name: FileName
        ensures Supplied(initial, saves, Path(alias, name))
      {
        match name
        case CertPem =>
        case ChainPem =>
        case FullchainPem =>
        case PrivkeyPem =>
      }
    } else {
      assert || !Supplied(initial, saves, Path(alias, CertPem)) || !Supplied(initial, saves, Path(alias, ChainPem))
             || !Supplied(initial, saves, Path(alias, FullchainPem))
             || !Supplied(initial, saves, Path(alias, PrivkeyPem));
    }
  }

  /**
   * In every run, a download succeeds if and only if each of the four files has been
   * written by some save of the alias or was there initially, and then bundles each
   * file from the last save that wrote it.
   */
  lemma DownloadIff(sys: System, worlds: seq<World>, steps: seq<Step>, i: nat)
    requires X509Times(sys.der) && IsRun(sys, worlds, steps) && i < |worlds|
    ensures var initial, saves := worlds[0].site.files, worlds[i].site.saves;
            var reply := DownloadReply(worlds[i].site.files, sys.alias);
            && (reply.Ok? <==> forall name: FileName :: Supplied(initial, saves, Path(sys.alias, name)))
            && StoredFiles(worlds[i].site.files, sys.alias) == Origins(initial, saves, sys.alias)
            && (reply.Ok? ==> reply.value == Pack(Origins(initial, saves, sys.alias).value))
  {
    FileOfRun(sys, worlds, steps, i, Path(sys.alias, CertPem));
    FileOfRun(sys, worlds, steps, i, Path(sys.alias, ChainPem));
    FileOfRun(sys, worlds, steps, i, Path(sys.alias, FullchainPem));
    FileOfRun(sys, worlds, steps, i, Path(sys.alias, PrivkeyPem));
    OriginsIff(worlds[0].site.files, worlds[i].site.saves, sys.alias);
  }

  /** In every run, a download step fetches that bundle, or ends the sync where a file is missing. */
  lemma DownloadStep(sys: System, worlds: seq<World>, steps: seq<Step>, i: nat)
    requires X509Times(sys.der) && IsRun(sys, worlds, steps) && i < |steps| && steps[i] == AtDesk(Download)
    ensures var files := Origins(worlds[0].site.files, worlds[i].site.saves, sys.alias);
            var d := worlds[i].desk;
            worlds[i + 1].desk
            == d.(phase := match files
                           case Some(f) => Fetched(Pack(f), Count(worlds[i].site.renewals, sys.alias))
                           case None => Idle)
  {
    DownloadIff(sys, worlds, steps, i);
    assert Taken(sys, worlds, steps, i);
  }

  lemma FilesStay(sys: System, s: Site, step: SiteStep, s': Site, p: Path)
    requires SiteNext(sys, s, step, s') && p in s.files
    ensures p in s'.files
  {
    if step.RenewalSaved? || step.Upload? {
      var save := if step.Upload? then UploadSave(sys.settings, step.target, step.form).value else step.save;
      SavedLookup(s.files, save, p);
    } else {
      assert s'.files == s.files;
    }
  }

  /** Nothing has been fetched. */
  predicate NothingFetched(d: Desk)
  {
    d.deploys == 0 && (d.phase.Idle? || d.phase.Wanted?)
  }

  lemma NothingFetchedStep(sys: System, worlds: seq<World>, steps: seq<Step>, i: nat, name: FileName)
    requires X509Times(sys.der) && IsRun(sys, worlds, steps) && i < |steps|
    requires Path(sys.alias, name) !in worlds[i].site.files && NothingFetched(worlds[i].desk)
    ensures NothingFetched(worlds[i + 1].desk)
  {
    assert Taken(sys, worlds, steps, i);
    if steps[i] == AtDesk(Download) {
      assert DownloadReply(worlds[i].site.files, sys.alias).Err?;
    }
  }

  lemma FilesStayOfRun(sys: System, worlds: seq<World>, steps: seq<Step>, i: nat, p: Path)
    requires X509Times(sys.der) && IsRun(sys, worlds, steps) && i < |steps| && p !in worlds[i + 1].site.files
    ensures p !in worlds[i].site.files
  {
    assert Taken(sys, worlds, steps, i);
    if steps[i].AtSite? && p in worlds[i].site.files {
      FilesStay(sys, worlds[i].site, steps[i].site, worlds[i + 1].site, p);
    }
  }

  /**
   * In every run, nothing is deployed as long as one of the four files has never been
   * written: one-block renewals alone never reach a client, however often it checks.
   */
  lemma NothingDeployed(sys: System, worlds: seq<World>, steps: seq<Step>, i: nat, name: FileName)
    requires X509Times(sys.der) && IsRun(sys, worlds, steps) && i < |worlds|
    requires !Supplied(worlds[0].site.files, worlds[i].site.saves, Path(sys.alias, name))
    ensures NothingFetched(worlds[i].desk)
  {
    FileOfRun(sys, worlds, steps, i, Path(sys.alias, name));
    NothingDeployedYet(sys, worlds, steps, i, name);
  }

  lemma {:induction false} NothingDeployedYet(sys: System, worlds: seq<World>, steps: seq<Step>, i: nat, name: FileName)
    requires X509Times(sys.der) && IsRun(sys, worlds, steps) && i < |worlds|
    requires Path(sys.alias, name) !in worlds[i].site.files
    ensures NothingFetched(worlds[i].desk)
    decreases i
  {
    if i > 0 {
      FilesStayOfRun(sys, worlds, steps, i - 1, Path(sys.alias, name));
      NothingDeployedYet(sys, worlds, steps, i - 1, name);
      NothingFetchedStep(sys, worlds, steps, i - 1, name);
    }
  }

  /**
   * In every run, if the last save of the client's alias had two blocks or more, a
   * download bundles four files that all come from that one save.
   */
  lemma DownloadIsOneSave(sys: System, worlds: seq<World>, steps: seq<Step>, i: nat, s: Save)
    requires X509Times(sys.der) && IsRun(sys, worlds, steps) && i < |steps| && steps[i] == AtDesk(Download)
    requires var saves := worlds[i].site.saves;
             var last := LastSave(saves, sys.alias, FullchainPem);
             0 <= last && s == saves[last] && Rewrites(s, sys.alias, ChainPem)
    ensures worlds[i + 1].desk.phase
         == Fetched(Pack(CertFiles(CertOf(s.fullchain), ChainOf(s.fullchain), s.fullchain, s.privkey)),
                    Count(worlds[i].site.renewals, sys.alias))
  {
    DownloadStep(sys, worlds, steps, i);
    OriginsOfOneSave(worlds[0].site.files, worlds[i].site.saves, sys.alias, s);
  }

  lemma OriginsOfOneSave(initial: Files, saves: seq<Save>, alias: string, s: Save)
    requires var last := LastSave(saves, alias, FullchainPem);
             0 <= last && s == saves[last] && Rewrites(s, alias, ChainPem)
    ensures Origins(initial, saves, alias)
         == Some(CertFiles(CertOf(s.fullchain), ChainOf(s.fullchain), s.fullchain, s.privkey))
  {
    SameLastSave(saves, alias, CertPem);
    SameLastSave(saves, alias, ChainPem);
    SameLastSave(saves, alias, PrivkeyPem);
  }
}
