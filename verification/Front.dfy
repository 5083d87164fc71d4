/**
 * The pages of the web front end that report on certificates: days remaining,
 * the expiry a page chooses and the renewal it predicts.  The clock stands still
 * while a page is made.
 */
module Front {
  import opened Wrappers
  import opened GoTime
  import opened Meta
  import opened Storage
  import opened Renewal
  import opened Hours
  import Base64
  import Pem
  import CheckTime
  import Handlers
  import Rfc3339

  /** What the pages read from a certificate. */
  datatype X509 = X509(cn: string, dnsNames: seq<string>, notBefore: int, notAfter: int)

  type X509Parser = seq<Base64.Octet> -> Option<X509>

  function NotAfter(x: Option<X509>): Option<int>
  {
    match x
    case Some(cert) => Some(cert.notAfter)
    case None => None
  }

  /** The expiries a parser finds, as the scheduler reads them. */
  function Expiries(parser: X509Parser): DerParser
  {
    bytes => NotAfter(parser(bytes))
  }

  /** `ParseCertExpiry` on the stored full chain; None stands for each of its errors. */
  function LocalCert(parser: X509Parser, files: Files, alias: string): Option<X509>
  {
    var p := Path(alias, FullchainPem);
    if p in files then
      match Pem.Decode(files[p])
      case Some((block, _)) => parser(block.bytes)
      case None => None
    else None
  }

  /** The pages and the scheduler read the same expiry from the store. */
  lemma LocalCertExpiry(parser: X509Parser, files: Files, alias: string)
    ensures NotAfter(LocalCert(parser, files, alias)) == LocalExpiry(Expiries(parser), files, alias)
  {
  }

  /** `int(time.Until(notAfter).Hours() / 24)` */
  function DaysRemaining(notAfter: int, now: int): int
  {
    Days(Sub(notAfter, now))
  }

  /** The largest lead the days shown are right about for every expiry. */
  const MAX_SHOWN_LEAD := 170

  lemma DaysRemainingAgrees(notAfter: int, now: int, lead: int)
    requires 1 <= lead <= MAX_SHOWN_LEAD
    ensures DaysRemaining(notAfter, now) < lead <==> NeedsRenewal(notAfter, now, lead)
  {
    DaysDurationExact(lead);
    var d := Sub(notAfter, now);
    if d < lead * DAY {
      DaysShort(d, lead);
    } else {
      DaysReach(d, lead);
    }
  }

  /**
   * For any lead, fewer days than the lead are shown only if the certificate is due,
   * and they are shown if it has been due for a microsecond.
   */
  lemma DaysRemainingWithinMicrosecond(notAfter: int, now: int, lead: int)
    requires 1 <= lead <= MAX_LEAD_DAYS
    ensures DaysRemaining(notAfter, now) < lead ==> NeedsRenewal(notAfter, now, lead)
    ensures NeedsRenewal(notAfter, now - 1000, lead) ==> DaysRemaining(notAfter, now) < lead
  {
    DaysDurationExact(lead);
    var d := Sub(notAfter, now);
    if lead * DAY <= d {
      DaysReach(d, lead);
    }
    if NeedsRenewal(notAfter, now - 1000, lead) {
      assert d <= lead * DAY - 1000;
      DaysShortByMicrosecond(d, lead);
    }
  }

  /** The page and the scheduler agree on the expiry of every certificate at every moment. */
  ghost predicate PageAgrees(lead: int)
  {
    forall notAfter, now :: Rfc3339.Expressible(notAfter) ==>
                              (DaysRemaining(notAfter, now) < lead <==> NeedsRenewal(notAfter, now, lead))
  }

  /**
   * The days a page shows are fewer than the lead exactly when the scheduler would
   * renew, for every certificate, if and only if the lead is at most 170 days: from
   * 171 days on the hours round up across the boundary.
   */
  lemma DaysRemainingIff(lead: int)
    requires 1 <= lead
    ensures PageAgrees(lead) <==> lead <= MAX_SHOWN_LEAD
  {
    if lead <= MAX_SHOWN_LEAD {
      forall notAfter, now | Rfc3339.Expressible(notAfter)
        ensures DaysRemaining(notAfter, now) < lead <==> NeedsRenewal(notAfter, now, lead)
      {
        DaysRemainingAgrees(notAfter, now, lead);
      }
    } else {
      PageDisagrees(lead);
    }
  }

  lemma PageDisagrees(lead: int)
    requires MAX_SHOWN_LEAD < lead
    ensures !PageAgrees(lead)
  {
    if lead <= MAX_LEAD_DAYS {
      RoundedAcross(lead * DAY, 1, lead);
    } else {
      assert Rfc3339.Expressible(BEYOND_64_BITS);
      ShownBeyond64Bits(BEYOND_64_BITS, 0, lead);
    }
  }

  /** An expiry the lead away shows the lead though it has been due for a nanosecond. */
  lemma RoundedAcross(notAfter: int, now: int, lead: int)
    requires MAX_SHOWN_LEAD < lead <= MAX_LEAD_DAYS && notAfter == lead * DAY && now == 1
    ensures !PageAgrees(lead)
  {
    hide Days;
    DaysDurationExact(lead);
    DaysRoundUp(lead);
    SecondParts(notAfter, lead, 0);
    assert Rfc3339.Expressible(notAfter);
    assert NeedsRenewal(notAfter, now, lead) && lead <= DaysRemaining(notAfter, now);
  }

  /** An expiry further away than 64 bits reach is never due, though fewer days than the lead are shown. */
  lemma ShownBeyond64Bits(notAfter: int, now: int, lead: int)
    requires MAX_LEAD_DAYS < lead && MAX64 <= notAfter - now && Rfc3339.Expressible(notAfter)
    ensures !PageAgrees(lead)
  {
    var d := Sub(notAfter, now);
    assert d == MAX64;
    DaysShortByMicrosecond(d, MAX_LEAD_DAYS + 1);
    assert !NeedsRenewal(notAfter, now, lead) && DaysRemaining(notAfter, now) < lead;
  }

  /** Whole days of a duration, cut off toward zero without rounding. */
  function ExactDays(d: int): int
  {
    if 0 <= d then d / DAY else -(-d / DAY)
  }

  /** In exact arithmetic, fewer days than the lead remain exactly when the certificate is due. */
  lemma DaysRemainingExact(notAfter: int, now: int, lead: int)
    requires 1 <= lead
    ensures ExactDays(notAfter - now) < lead <==> Due(notAfter, now, lead)
  {
    var d := notAfter - now;
    if 0 <= d {
      DayQuotient(d);
      if d / DAY < lead {
        DaysOrdered(d / DAY + 1, lead);
      } else {
        DaysOrdered(lead, d / DAY);
      }
    }
  }

  /** The dynamic columns of a row. */
  datatype Validity = Validity(notBefore: int, notAfter: int, days: int, expected: Option<int>)

  /** A row of the list. */
  datatype Item = Item(alias: string, email: string, domain: string, domainCN: seq<string>, domainCheck: string,
                       provider: string, autoRenew: bool, disableCname: Option<bool>, validity: Option<Validity>)

  datatype CertInfo = CertInfo(alias: string, cn: string, dnsNames: seq<string>, local: Option<Validity>,
                               remote: Option<Validity>, expected: Option<int>)

  /** The expiry the prediction is made for: the stored one, else the probed one. */
  function ChosenExpiry(local: Option<int>, remote: Option<int>): Option<int>
  {
    if local.Some? then local else remote
  }

  /** What a page is made with besides the store. */
  datatype Context = Context(parser: X509Parser, settings: Settings, offset: int, now: int)
  {
    function Expected(notAfter: int, autoRenew: bool): Option<int>
    {
      CheckTime.ExpectedRenewAt(notAfter, 0, now, offset, LeadDays(settings), settings.checkTime, autoRenew)
    }

    function ValidityOf(x: X509): Validity
    {
      Validity(x.notBefore, x.notAfter, DaysRemaining(x.notAfter, now), None)
    }

    function ItemOf(files: Files, c: CertConfig): Item
    {
      Item(c.alias, c.email, c.domain, c.domainCN, c.domainCheck, c.provider, c.autoRenew, c.disableCname,
           match LocalCert(parser, files, c.alias)
           case Some(x) => Some(ValidityOf(x).(expected := Expected(x.notAfter, c.autoRenew)))
           case None => None)
    }
  }

  /**
   * Dates and days of a certificate: they are counted to its expiry, and for every lead
   * up to 170 days fewer than it are shown exactly when the expiry is due.
   */
  ghost predicate TellsOf(v: Validity, notBefore: int, expiry: int, now: int)
  {
    && v.notBefore == notBefore && v.notAfter == expiry && v.days == DaysRemaining(expiry, now)
    && forall n :: 1 <= n <= MAX_SHOWN_LEAD ==> (v.days < n <==> NeedsRenewal(expiry, now, n))
  }

  lemma ValidityTells(ctx: Context, x: X509)
    ensures TellsOf(ctx.ValidityOf(x), x.notBefore, x.notAfter, ctx.now) && ctx.ValidityOf(x).expected == None
  {
    forall n | 1 <= n <= MAX_SHOWN_LEAD
      ensures DaysRemaining(x.notAfter, ctx.now) < n <==> NeedsRenewal(x.notAfter, ctx.now, n)
    {
      DaysRemainingAgrees(x.notAfter, ctx.now, n);
    }
  }

  /**
   * A row shows the public columns of its entry; its dynamic columns tell of the very
   * expiry the scheduler reads from the store, and are there exactly when it reads one;
   * a renewal is predicted for automatic entries only.
   */
  ghost predicate RowShows(ctx: Context, files: Files, c: CertConfig, item: Item)
  {
    && item.alias == c.alias && item.email == c.email && item.domain == c.domain && item.domainCN == c.domainCN
    && item.domainCheck == c.domainCheck && item.provider == c.provider && item.autoRenew == c.autoRenew
    && item.disableCname == c.disableCname
    && var stored := LocalExpiry(Expiries(ctx.parser), files, c.alias);
       && (item.validity.Some? <==> stored.Some?)
       && (stored.Some? ==>
             && TellsOf(item.validity.value, LocalCert(ctx.parser, files, c.alias).value.notBefore,
                        stored.value, ctx.now)
             && (item.validity.value.expected.Some? <==> c.autoRenew)
             && item.validity.value.expected
                == CheckTime.ExpectedRenewAt(stored.value, 0, ctx.now, ctx.offset, LeadDays(ctx.settings),
                                             ctx.settings.checkTime, c.autoRenew))
  }

  lemma ItemShows(ctx: Context, files: Files, c: CertConfig)
    ensures RowShows(ctx, files, c, ctx.ItemOf(files, c))
  {
    hide DaysRemaining;
    hide CheckTime.ExpectedRenewAt;
    LocalCertExpiry(ctx.parser, files, c.alias);
    if LocalCert(ctx.parser, files, c.alias).Some? {
      ValidityTells(ctx, LocalCert(ctx.parser, files, c.alias).value);
    }
  }

  /** Entries that differ in no more than their secrets: the auth, the provider's keys, the upload token. */
  predicate SamePublic(c: CertConfig, d: CertConfig)
  {
    d == c.(auth := d.auth, accessKey := d.accessKey, accessKeySecret := d.accessKeySecret,
            uploadToken := d.uploadToken)
  }

  /** Two configurations that differ in no more than their secrets. */
  predicate SamePublicList(cs: seq<CertConfig>, ds: seq<CertConfig>)
  {
    |cs| == |ds| && forall i :: 0 <= i < |cs| ==> SamePublic(cs[i], ds[i])
  }

  /** The rows of a list. */
  function Rows(ctx: Context, files: Files, certs: seq<CertConfig>): seq<Item>
  {
    seq(|certs|, i requires 0 <= i < |certs| => ctx.ItemOf(files, certs[i]))
  }

  lemma RowsSnoc(ctx: Context, files: Files, certs: seq<CertConfig>, i: nat)
    requires i < |certs|
    ensures Rows(ctx, files, certs[..i + 1]) == Rows(ctx, files, certs[..i]) + [ctx.ItemOf(files, certs[i])]
  {
    assert certs[..i + 1] == certs[..i] + [certs[i]];
  }

  /**
   * The list shows the configuration without its secrets: two configurations give the
   * same rows exactly when they differ in no more than those.
   */
  lemma RowsHideSecrets(ctx: Context, files: Files, cs: seq<CertConfig>, ds: seq<CertConfig>)
    ensures Rows(ctx, files, cs) == Rows(ctx, files, ds) <==> SamePublicList(cs, ds)
  {
    var a, b := Rows(ctx, files, cs), Rows(ctx, files, ds);
    if a == b {
      forall i | 0 <= i < |cs|
        ensures SamePublic(cs[i], ds[i])
      {
        assert ctx.ItemOf(files, cs[i]) == a[i] == b[i] == ctx.ItemOf(files, ds[i]);
      }
    }
  }

  lemma NegatedMultiple(x: int)
    ensures (0 - x) % 86400 == 0 <==> x % 86400 == 0
  {
  }

  /** The decision depends on the chosen expiry alone. */
  lemma ChosenDecides(c: CertConfig, local: Option<int>, remote: Option<int>, expiry: int, at: int, lead: int)
    requires c.autoRenew && ChosenExpiry(local, Probed(c, remote)) == Some(expiry)
    ensures ShouldRenew(c, local, remote, at, lead) <==> NeedsRenewal(expiry, at, lead)
  {
  }

  /** A check instant of the page's future before an instant. */
  predicate CheckBefore(ctx: Context, t: int, end: int)
  {
    ctx.now <= t < end && CheckTime.IsCheckInstant(t, ctx.offset, ctx.settings.checkTime)
  }

  /** What each check would find by probing is the chosen expiry, or needs no probe. */
  ghost predicate Stays(c: CertConfig, local: Option<int>, remotes: int -> Option<int>, expiry: int)
  {
    forall t :: ChosenExpiry(local, Probed(c, remotes(t))) == Some(expiry)
  }

  /**
   * For the expiry a page chooses and in every zone, the time shown is less than a day
   * from the first check instant that finds it due, and that instant itself if and only
   * if it is due already or the zone is UTC up to whole days.  As long as every later
   * check chooses the same expiry, no check instant before that one renews, and that
   * one does unless it is exactly the threshold.
   */
  lemma InfoPredictsRenewal(ctx: Context, c: CertConfig, local: Option<int>, remotes: int -> Option<int>, expiry: int)
    requires LeadDays(ctx.settings) <= MAX_LEAD_DAYS && c.autoRenew
    requires ChosenExpiry(local, Probed(c, remotes(ctx.now))) == Some(expiry)
    ensures var lead, schedule := LeadDays(ctx.settings), ctx.settings.checkTime;
            var p := ctx.Expected(expiry, true).value;
            var first := CheckTime.FirstDue(expiry, ctx.now, ctx.offset, lead, schedule);
            && -DAY < p - first < DAY
            && (p == first <==> Due(expiry, ctx.now, lead) || ctx.offset % 86400 == 0)
            && (Stays(c, local, remotes, expiry) ==>
                  && (forall t :: CheckBefore(ctx, t, first) ==> !ShouldRenew(c, local, remotes(t), t, lead))
                  && (ShouldRenew(c, local, remotes(first), first, lead) <==> first != expiry - lead * DAY))
  {
    hide ShouldRenew;
    hide CheckTime.ExpectedRenewAt;
    hide CheckTime.FirstDue;
    hide CheckTime.IsCheckInstant;
    var lead, schedule := LeadDays(ctx.settings), ctx.settings.checkTime;
    NegatedMultiple(ctx.offset);
    CheckTime.ExpectedRenewAtAcrossZones(expiry, 0, ctx.now, ctx.offset, lead, schedule);
    CheckTime.FirstDueDecides(expiry, ctx.now, ctx.offset, lead, schedule);
    if Stays(c, local, remotes, expiry) {
      forall t
        ensures ShouldRenew(c, local, remotes(t), t, lead) <==> NeedsRenewal(expiry, t, lead)
      {
        ChosenDecides(c, local, remotes(t), expiry, t, lead);
      }
    }
  }

  /** The check at an instant renews nothing: its probe finds a certificate that is not due. */
  predicate ProbeWaits(c: CertConfig, remote: Option<int>, t: int, lead: int)
  {
    Probed(c, remote).Some? && !NeedsRenewal(Probed(c, remote).value, t, lead)
  }

  /**
   * Whatever the later probes find, no check instant before that one renews if and only
   * if a certificate is stored, or every probe until then finds one that is not due.
   */
  lemma NoEarlyRenewalIff(ctx: Context, c: CertConfig, local: Option<int>, remotes: int -> Option<int>, expiry: int)
    requires LeadDays(ctx.settings) <= MAX_LEAD_DAYS && c.autoRenew
    requires ChosenExpiry(local, Probed(c, remotes(ctx.now))) == Some(expiry)
    ensures var lead := LeadDays(ctx.settings);
            var first := CheckTime.FirstDue(expiry, ctx.now, ctx.offset, lead, ctx.settings.checkTime);
            (forall t :: CheckBefore(ctx, t, first) ==> !ShouldRenew(c, local, remotes(t), t, lead))
            <==> local.Some? || forall t :: CheckBefore(ctx, t, first) ==> ProbeWaits(c, remotes(t), t, lead)
  {
    var lead := LeadDays(ctx.settings);
    CheckTime.FirstDueDecides(expiry, ctx.now, ctx.offset, lead, ctx.settings.checkTime);
    forall t
      ensures local.None? ==> (ShouldRenew(c, local, remotes(t), t, lead) <==> !ProbeWaits(c, remotes(t), t, lead))
      ensures local.Some? ==> (ShouldRenew(c, local, remotes(t), t, lead) <==> NeedsRenewal(expiry, t, lead))
    {
    }
  }

  /** With no expiry to go by there is no page, but the scheduler renews at its next check. */
  lemma NoInfoMeansRenewal(c: CertConfig, local: Option<int>, remote: Option<int>, at: int, lead: int)
    requires c.autoRenew && ChosenExpiry(local, Probed(c, remote)).None?
    ensures ShouldRenew(c, local, remote, at, lead)
  {
  }

  class Pages {
    const config: ServerConfig
    const storage: CertStorage
    const parser: X509Parser
    const offset: int

    constructor (config: ServerConfig, storage: CertStorage, parser: X509Parser, offset: int)
      ensures this.config == config && this.storage == storage && this.parser == parser && this.offset == offset
    {
      this.config := config;
      this.storage := storage;
      this.parser := parser;
      this.offset := offset;
    }

    function At(now: int): Context
      reads this
    {
      Context(parser, config.settings, offset, now)
    }

    /** Reads and parses the stored full chain. */
    method ReadLocal(alias: string) returns (x: Option<X509>)
      ensures x == LocalCert(parser, storage.files, alias)
      ensures Path(alias, FullchainPem) !in storage.files ==> x == None
      ensures Path(alias, FullchainPem) in storage.files ==>
                var blocks := Pem.Blocks(storage.files[Path(alias, FullchainPem)]);
                x == if blocks == [] then None else parser(blocks[0].bytes)
    {
      hide Pem.Decode;
      if !storage.CertExists(alias) {
        return None;
      }
      match Pem.Decode(storage.files[Path(alias, FullchainPem)])
      case None =>
        return None;
      case Some((block, _)) =>
        return parser(block.bytes);
    }

    method MakeRow(c: CertConfig, now: int) returns (item: Item)
      ensures item == At(now).ItemOf(storage.files, c)
    {
      item := Item(c.alias, c.email, c.domain, c.domainCN, c.domainCheck, c.provider, c.autoRenew,
                   c.disableCname, None);
      var x := ReadLocal(c.alias);
      if x.Some? {
        var validity := Validity(x.value.notBefore, x.value.notAfter, DaysRemaining(x.value.notAfter, now), None);
        validity := validity.(expected := At(now).Expected(x.value.notAfter, c.autoRenew));
        item := item.(validity := Some(validity));
      }
    }

    /** One row for every configured certificate, in the order of the configuration. */
    method FrontAliasListHandler(admin: bool, now: int) returns (reply: Result<seq<Item>, int>)
      ensures !admin ==> reply == Err(Handlers.UNAUTHORIZED)
      ensures admin ==> reply == Ok(Rows(At(now), storage.files, config.settings.certs))
      ensures admin ==>
                && |reply.value| == |config.settings.certs|
                && forall i :: 0 <= i < |reply.value| ==>
                                 RowShows(At(now), storage.files, config.settings.certs[i], reply.value[i])
    {
      if !admin {
        return Err(Handlers.UNAUTHORIZED);
      }
      var certs := config.settings.certs;
      var items: seq<Item> := [];
      for i := 0 to |certs|
        invariant items == Rows(At(now), storage.files, certs[..i])
      {
        var item := MakeRow(certs[i], now);
        RowsSnoc(At(now), storage.files, certs, i);
        items := items + [item];
      }
      assert certs[..|certs|] == certs;
      forall i | 0 <= i < |certs|
        ensures RowShows(At(now), storage.files, certs[i], items[i])
      {
        ItemShows(At(now), storage.files, certs[i]);
      }
      return Ok(items);
    }

    /** The page of one certificate; `dialled` is the certificate its `domain_check` serves. */
    method FrontCertInfoHandler(admin: bool, alias: string, now: int, dialled: Option<X509>)
      returns (reply: Result<CertInfo, int>)
      requires config.certMap == AliasMap(config.settings.certs)
      ensures !admin ==> reply == Err(Handlers.UNAUTHORIZED)
      ensures admin && alias == "" ==> reply == Err(Handlers.BAD_REQUEST)
      ensures admin && alias != "" && alias !in config.certMap ==> reply == Err(Handlers.NOT_FOUND)
      ensures admin && alias != "" && alias in config.certMap ==>
                var c := config.certMap[alias];
                var local := LocalCert(parser, storage.files, alias);
                var remote := if c.domainCheck == "" then None else dialled;
                match ChosenExpiry(NotAfter(local), Probed(c, NotAfter(dialled)))
                case None => reply == Err(Handlers.NOT_FOUND)
                case Some(expiry) =>
                  && reply.Ok?
                  && reply.value.alias == alias
                  && reply.value.expected
                     == CheckTime.ExpectedRenewAt(expiry, 0, now, offset, LeadDays(config.settings),
                                                  config.settings.checkTime, c.autoRenew)
                  && (reply.value.local.Some? <==> LocalExpiry(Expiries(parser), storage.files, alias).Some?)
                  && (reply.value.local.Some? ==>
                        TellsOf(reply.value.local.value, local.value.notBefore,
                                LocalExpiry(Expiries(parser), storage.files, alias).value, now))
                  && (reply.value.remote.Some? <==> remote.Some?)
                  && (remote.Some? ==>
                        TellsOf(reply.value.remote.value, remote.value.notBefore, remote.value.notAfter, now))
                  && var shown := if local.Some? then local.value else remote.value;
                     reply.value.cn == shown.cn && reply.value.dnsNames == shown.dnsNames
    {
      if !admin {
        return Err(Handlers.UNAUTHORIZED);
      }
      if alias == "" {
        return Err(Handlers.BAD_REQUEST);
      }
      if alias !in config.certMap {
        return Err(Handlers.NOT_FOUND);
      }
      var c := config.certMap[alias];
      var info := CertInfo(alias, "", [], None, None, None);
      var hasLocal, hasRemote, localNotAfter, remoteNotAfter := false, false, ZERO_TIME, ZERO_TIME;
      hide TellsOf;
      hide CheckTime.ExpectedRenewAt;
      LocalCertExpiry(parser, storage.files, alias);
      var x := ReadLocal(alias);
      if x.Some? {
        ValidityTells(At(now), x.value);
        info := info.(cn := x.value.cn, dnsNames := x.value.dnsNames, local := Some(At(now).ValidityOf(x.value)));
        localNotAfter := x.value.notAfter;
        hasLocal := true;
      }
      if c.domainCheck != "" && dialled.Some? {
        ValidityTells(At(now), dialled.value);
        info := info.(remote := Some(At(now).ValidityOf(dialled.value)));
        remoteNotAfter := dialled.value.notAfter;
        hasRemote := true;
        if !hasLocal {
          info := info.(cn := dialled.value.cn, dnsNames := dialled.value.dnsNames);
        }
      }
      if !hasLocal && !hasRemote {
        return Err(Handlers.NOT_FOUND);
      }
      var renewAfter := localNotAfter;
      if !hasLocal {
        renewAfter := remoteNotAfter;
      }
      info := info.(expected := At(now).Expected(renewAfter, c.autoRenew));
      return Ok(info);
    }
  }
}
