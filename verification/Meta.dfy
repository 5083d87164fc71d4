/** Server configuration: the certificate list, the alias map built from it, the lead days. */
module Meta {
  import opened Wrappers

  datatype CertConfig = CertConfig(alias: string, auth: string, email: string, domain: string, domainCN: seq<string>,
                                   domainCheck: string, provider: string, accessKey: string, accessKeySecret: string,
                                   autoRenew: bool, uploadToken: string, disableCname: Option<bool>)

  datatype Settings = Settings(token: string, checkTime: string, renewalLeadDays: int, certs: seq<CertConfig>)

  const DEFAULT_LEAD_DAYS := 10

  /** The configured lead, or 10 when it is missing or not positive. */
  function LeadDays(s: Settings): (n: int)
    ensures 1 <= n
    ensures 1 <= s.renewalLeadDays ==> n == s.renewalLeadDays
    ensures s.renewalLeadDays < 1 ==> n == 10
  {
    if s.renewalLeadDays > 0 then s.renewalLeadDays else DEFAULT_LEAD_DAYS
  }

  /** The alias map a loop over the list builds. */
  function AliasMap(certs: seq<CertConfig>): map<string, CertConfig>
  {
    if certs == [] then map[]
    else
      var c := certs[|certs| - 1];
      AliasMap(certs[..|certs| - 1])[c.alias := c]
  }

  predicate DistinctAliases(certs: seq<CertConfig>)
  {
    forall i, j :: 0 <= i < j < |certs| ==> certs[i].alias != certs[j].alias
  }

  /** The last entry of its alias. */
  predicate IsLast(certs: seq<CertConfig>, i: int)
    requires 0 <= i < |certs|
  {
    forall j :: i < j < |certs| ==> certs[j].alias != certs[i].alias
  }

  /** The map holds the last entry of every alias, and nothing else. */
  lemma {:induction false} AliasMapLookup(certs: seq<CertConfig>, alias: string)
    ensures alias in AliasMap(certs) <==> exists c <- certs :: c.alias == alias
    ensures alias in AliasMap(certs) ==>
              exists i :: 0 <= i < |certs| && IsLast(certs, i) && certs[i].alias == alias
                          && certs[i] == AliasMap(certs)[alias]
  {
    if certs != [] {
      var n := |certs| - 1;
      var init := certs[..n];
      AliasMapLookup(init, alias);
      assert certs == init + [certs[n]];
      if certs[n].alias == alias {
        assert IsLast(certs, n);
      } else if alias in AliasMap(init) {
        var i :| 0 <= i < n && IsLast(init, i) && init[i].alias == alias && init[i] == AliasMap(init)[alias];
        assert IsLast(certs, i) by {
          assert forall j :: i < j < n ==> certs[j] == init[j];
        }
      }
    }
  }

  /** With distinct aliases, handlers and sweeps see the same entry. */
  lemma {:induction false} AliasMapAgrees(certs: seq<CertConfig>, c: CertConfig)
    requires DistinctAliases(certs) && c in certs
    ensures c.alias in AliasMap(certs) && AliasMap(certs)[c.alias] == c
  {
    AliasMapLookup(certs, c.alias);
  }

  /** Uploads are accepted: the alias map says manual. */
  predicate Uploadable(certs: seq<CertConfig>, alias: string)
  {
    alias in AliasMap(certs) && !AliasMap(certs)[alias].autoRenew
  }

  /** Renewals are possible: some entry of the list says automatic. */
  predicate Renewable(certs: seq<CertConfig>, alias: string)
  {
    exists c <- certs :: c.alias == alias && c.autoRenew
  }

  /** No automatic entry is overridden by a last manual one of the same alias. */
  predicate NoShadowing(certs: seq<CertConfig>)
  {
    forall i, j :: 0 <= i < j < |certs| && certs[i].alias == certs[j].alias && certs[i].autoRenew && IsLast(certs, j)
              ==> certs[j].autoRenew
  }

  /** Every alias has at most one kind of writer if and only if no automatic entry is shadowed. */
  lemma OneWriterIff(certs: seq<CertConfig>)
    ensures (forall alias :: !(Uploadable(certs, alias) && Renewable(certs, alias))) <==> NoShadowing(certs)
  {
    if NoShadowing(certs) {
      forall alias | Uploadable(certs, alias)
        ensures !Renewable(certs, alias)
      {
        NotShadowed(certs, alias);
      }
    } else {
      var i, j :| 0 <= i < j < |certs| && certs[i].alias == certs[j].alias && certs[i].autoRenew && IsLast(certs, j)
                  && !certs[j].autoRenew;
      Shadowed(certs, i, j);
    }
  }

  lemma NotShadowed(certs: seq<CertConfig>, alias: string)
    requires NoShadowing(certs) && Uploadable(certs, alias)
    ensures !Renewable(certs, alias)
  {
    AliasMapLookup(certs, alias);
    var j :| 0 <= j < |certs| && IsLast(certs, j) && certs[j].alias == alias && certs[j] == AliasMap(certs)[alias];
    forall i | 0 <= i < |certs| && certs[i].alias == alias
      ensures !certs[i].autoRenew
    {
    }
  }

  lemma Shadowed(certs: seq<CertConfig>, i: nat, j: nat)
    requires i < j < |certs| && certs[i].alias == certs[j].alias && certs[i].autoRenew && !certs[j].autoRenew
    requires IsLast(certs, j)
    ensures Uploadable(certs, certs[i].alias) && Renewable(certs, certs[i].alias)
  {
    var alias := certs[i].alias;
    assert certs[j] in certs;
    AliasMapLookup(certs, alias);
    var k :| 0 <= k < |certs| && IsLast(certs, k) && certs[k].alias == alias && certs[k] == AliasMap(certs)[alias];
    assert k == j;
    assert certs[i] in certs;
  }

  lemma DistinctNoShadowing(certs: seq<CertConfig>)
    requires DistinctAliases(certs)
    ensures NoShadowing(certs)
  {
  }

  /** One alias listed twice, automatic then manual, is written by both kinds of writer. */
  lemma ShadowedAliasHasTwoWriters(auto: CertConfig, manual: CertConfig)
    requires auto.alias == manual.alias && auto.autoRenew && !manual.autoRenew
    ensures Uploadable([auto, manual], auto.alias) && Renewable([auto, manual], auto.alias)
  {
    var certs := [auto, manual];
    assert certs[..1] == [auto];
    assert auto in certs;
  }

  class ServerConfig {
    const settings: Settings
    var certMap: map<string, CertConfig>

    constructor (settings: Settings)
      ensures this.settings == settings && certMap == map[]
    {
      this.settings := settings;
      certMap := map[];
    }

    /** Builds the alias map; a later entry replaces an earlier one of the same alias. */
    method Generate()
      modifies this
      ensures certMap == AliasMap(settings.certs)
    {
      var certs := settings.certs;
      certMap := map[];
      for i := 0 to |certs|
        invariant certMap == AliasMap(certs[..i])
      {
        certMap := certMap[certs[i].alias := certs[i]];
        assert certs[..i + 1][..i] == certs[..i];
      }
      assert certs[..|certs|] == certs;
    }
  }
}
