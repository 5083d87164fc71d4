/** The renewal decision for one certificate and the renewal it may start. */
module Renewal {
  import opened Wrappers
  import opened GoTime
  import opened Meta
  import opened Storage

  datatype Status = CertNone | CertRenewFailed | CertValid | CertRenewSuccess

  /** The probe of the configured `domain_check`; without one nothing is probed. */
  function Probed(c: CertConfig, remote: Option<int>): Option<int>
  {
    if c.domainCheck == "" then None else remote
  }

  /** `shouldRenew` of `CheckAndRenewCertStatus`, as it is computed branch by branch. */
  function ShouldRenew(c: CertConfig, local: Option<int>, remote: Option<int>, now: int, lead: int): (r: bool)
  {
    if !c.autoRenew then false
    else if local.None? then
      if Probed(c, remote).Some? then NeedsRenewal(Probed(c, remote).value, now, lead) else true
    else NeedsRenewal(local.value, now, lead)
  }

  /** What the certificate authority answers. */
  datatype Issue = Refused | Issued(fullchain: string, privkey: string)

  predicate KnownProvider(name: string)
  {
    name in ["TENCENT", "ALIYUN", "GODADDY", "GOOGLE", "CLOUDFLARE"]
  }

  /** The entry has what a renewal needs before the authority is asked. */
  predicate Requestable(c: CertConfig)
  {
    c.domainCN != [] && c.email != "" && KnownProvider(c.provider)
  }

  /** The save a renewal makes, if it gets that far. */
  function RenewalSave(c: CertConfig, issue: Issue): Option<Save>
  {
    if Requestable(c) && issue.Issued? then Some(Save(c.alias, issue.fullchain, issue.privkey)) else None
  }

  /** The circumstances of one check: the probe, the issue, the disk, and the time they take. */
  datatype Circumstance = Circumstance(lag: nat, remote: Option<int>, issue: Issue, fault: Fault, took: nat)

  /** What one check did: when it decided, what came of it, when it was over. */
  datatype Visit = Visit(alias: string, at: int, attempted: bool, status: Status, end: int)

  /** Clock, store and visit after one check. */
  datatype Checked = Checked(now: int, files: Files, visit: Visit)

  /** A renewal attempted at an instant: it may fail before the save, in it, or not at all. */
  function Attempt(at: int, files: Files, c: CertConfig, e: Circumstance): (r: Checked)
    ensures at == r.visit.at <= r.visit.end == r.now
    ensures r.visit.alias == c.alias && r.visit.attempted
  {
    match RenewalSave(c, e.issue)
    case None => Checked(at + e.took, files, Visit(c.alias, at, true, CertRenewFailed, at + e.took))
    case Some(s) =>
      Checked(at + e.took, SavedWith(files, s, e.fault),
              Visit(c.alias, at, true, if Hits(e.fault, s) then CertRenewFailed else CertRenewSuccess, at + e.took))
  }

  function Check(now: int, files: Files, c: CertConfig, e: Circumstance, lead: int, der: DerParser): (r: Checked)
    ensures now <= r.visit.at <= r.visit.end == r.now
    ensures !r.visit.attempted ==> r.visit.at == r.visit.end
    ensures r.visit.alias == c.alias
  {
    var at := now + e.lag;
    if !c.autoRenew then Checked(now, files, Visit(c.alias, now, false, CertNone, now))
    else if !ShouldRenew(c, LocalExpiry(der, files, c.alias), e.remote, at, lead) then
      Checked(at, files, Visit(c.alias, at, false, CertValid, at))
    else Attempt(at, files, c, e)
  }

  /**
   * What a renewal needs: an automatic alias whose stored certificate is due, or
   * which has none and whose probed certificate is due or unknown.
   */
  predicate RenewalDue(c: CertConfig, local: Option<int>, remote: Option<int>, at: int, lead: int)
  {
    c.autoRenew && match (local, Probed(c, remote))
                   case (Some(expiry), _) => Due(expiry, at, lead)
                   case (None, Some(expiry)) => Due(expiry, at, lead)
                   case (None, None) => true
  }

  lemma ShouldRenewIff(c: CertConfig, local: Option<int>, remote: Option<int>, at: int, lead: int)
    requires 1 <= lead <= MAX_LEAD_DAYS
    ensures ShouldRenew(c, local, remote, at, lead) <==> RenewalDue(c, local, remote, at, lead)
  {
    if local.Some? {
      NeedsRenewalExact(local.value, at, lead);
    } else if Probed(c, remote).Some? {
      NeedsRenewalExact(Probed(c, remote).value, at, lead);
    }
  }

  /** A check attempts a renewal if and only if one is due at the instant of its decision. */
  lemma AttemptedIff(now: int, files: Files, c: CertConfig, e: Circumstance, lead: int, der: DerParser)
    requires 1 <= lead <= MAX_LEAD_DAYS
    ensures var r := Check(now, files, c, e, lead, der);
            r.visit.attempted <==> RenewalDue(c, LocalExpiry(der, files, c.alias), e.remote, r.visit.at, lead)
  {
    ShouldRenewIff(c, LocalExpiry(der, files, c.alias), e.remote, now + e.lag, lead);
  }

  /** The attempt got as far as the disk: it succeeded, or a disk fault ended it. */
  predicate Wrote(c: CertConfig, e: Circumstance, v: Visit)
  {
    && v.attempted && RenewalSave(c, e.issue).Some?
    && (v.status.CertRenewSuccess? || Hits(e.fault, RenewalSave(c, e.issue).value))
  }

  /** A check touches its own alias only, and nothing unless its attempt gets as far as the disk. */
  lemma CheckFrame(now: int, files: Files, c: CertConfig, e: Circumstance, lead: int, der: DerParser, p: Path)
    ensures var r := Check(now, files, c, e, lead, der);
            p.alias != c.alias || !Wrote(c, e, r.visit) ==> Lookup(r.files, p) == Lookup(files, p)
  {
    if p.alias != c.alias && RenewalSave(c, e.issue).Some? {
      SavedWithFrame(files, RenewalSave(c, e.issue).value, e.fault, p);
    }
  }

  /**
   * A renewal made because the stored certificate is due replaces it with one of
   * strictly later expiry, if what is issued is valid for at least the lead.
   */
  lemma DueRenewalExtends(files: Files, s: Save, stored: int, decided: int, saved: int, validity: int,
                          lead: int, der: DerParser)
    requires 1 <= lead <= MAX_LEAD_DAYS && lead * DAY <= validity && decided <= saved
    requires LocalExpiry(der, files, s.alias) == Some(stored) && NeedsRenewal(stored, decided, lead)
    requires FirstExpiry(der, s.fullchain).Some? && saved + validity <= FirstExpiry(der, s.fullchain).value
    ensures LocalExpiry(der, Saved(files, s), s.alias).Some?
    ensures stored < LocalExpiry(der, Saved(files, s), s.alias).value
  {
    NeedsRenewalExact(stored, decided, lead);
    LocalExpiryAfterSave(files, s, s.alias, der);
  }

  /** After a save the store tells the expiry of the saved chain; other aliases keep theirs. */
  lemma LocalExpiryAfterSave(files: Files, s: Save, alias: string, der: DerParser)
    ensures LocalExpiry(der, Saved(files, s), alias)
         == if alias == s.alias then FirstExpiry(der, s.fullchain) else LocalExpiry(der, files, alias)
  {
    SavedLookup(files, s, Path(alias, FullchainPem));
  }
}
