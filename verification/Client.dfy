/** The client: its two check flows and one sync. */
module Client {
  import opened Wrappers
  import opened GoTime
  import opened Storage
  import opened Bundle
  import opened Handlers
  import Rfc3339

  /** How the client sends an expiry it has probed, and how the server reads it. */
  function QueryOf(text: string): Query
  {
    QueryWith(Rfc3339.Parse, text)
  }

  /** The client-side comparison: the server's answer parsed and compared; None is an error. */
  function LocalVerdict(remote: int, reply: ExpireReply): Option<bool>
  {
    if !reply.Expiry? then None
    else
      match Rfc3339.Parse(reply.text)
      case Some(server) => Some(remote < server)
      case None => None
  }

  /** The verdict of a sync that asks the server to compare. */
  function ServerFlow(local: Option<int>, remote: int): bool
    requires Rfc3339.Expressible(remote) && (local.Some? ==> Rfc3339.Expressible(local.value))
  {
    CheckReply(local, remote).needUpdate
  }

  /** The verdict of a sync that compares itself; an error means no download. */
  function LocalFlow(local: Option<int>, remote: int): bool
    requires Rfc3339.Expressible(remote) && (local.Some? ==> Rfc3339.Expressible(local.value))
  {
    LocalVerdict(remote, ExpireAnswer(local, QueryOf(Rfc3339.Format(remote)))) == Some(true)
  }

  /**
   * The two flows reach the download in the same states, for every store and every
   * probed expiry, except for a probed zero time, which only the server-side flow
   * treats as no expiry.
   */
  lemma FlowsAgreeIff(local: Option<int>, remote: int)
    requires Rfc3339.Expressible(remote) && (local.Some? ==> Rfc3339.Expressible(local.value))
    ensures ServerFlow(local, remote) == LocalFlow(local, remote)
       <==> remote != ZERO_TIME || local.None? || local.value <= ZERO_TIME
    ensures local.None? ==> !ServerFlow(local, remote) && !LocalFlow(local, remote)
  {
    hide LocalFlow;
    hide Rfc3339.Format;
    LocalFlowCompares(local, remote);
  }

  /** Formatting and parsing change nothing: the client compares the expiries themselves. */
  lemma LocalFlowCompares(local: Option<int>, remote: int)
    requires Rfc3339.Expressible(remote) && (local.Some? ==> Rfc3339.Expressible(local.value))
    ensures LocalFlow(local, remote) <==> local.Some? && remote < local.value
  {
    hide Rfc3339.Format;
    hide Rfc3339.Parse;
    if local.Some? {
      VerdictOfExpiry(remote, local.value);
    }
  }

  lemma VerdictOfExpiry(remote: int, expiry: int)
    requires Rfc3339.Expressible(expiry)
    ensures LocalVerdict(remote, Expiry(Rfc3339.Format(expiry))) == Some(remote < expiry)
  {
    hide Rfc3339.Format;
    hide Rfc3339.Parse;
    Rfc3339.ParseFormat(expiry);
  }

  /** What the expire handler learns from the client is exactly what the client probed. */
  lemma QueryRoundTrip(remote: int)
    requires Rfc3339.Expressible(remote)
    ensures QueryOf(Rfc3339.Format(remote)) == At(remote)
  {
    Rfc3339.ParseFormat(remote);
  }

  /**
   * A client always names the expiry it has probed.  So, with nothing stored, it never
   * gets the error it is promised, for every probe; the renewal it asks for starts
   * exactly when the probed certificate is due.
   */
  lemma NothingStored(remote: int, now: int, lead: int)
    requires Rfc3339.Expressible(remote)
    ensures var query := QueryOf(Rfc3339.Format(remote));
            && ExpireAnswer(None, query) == NoReply
            && LocalVerdict(remote, ExpireAnswer(None, query)) == None
            && (Triggers(None, query, now, lead) <==> NeedsRenewal(remote, now, lead))
  {
    QueryRoundTrip(remote);
  }

  /** The destination after a complete copy of an archive. */
  function Delivered(dest: Listing, zip: Archive): Listing
  {
    dest + Unpack(map[], zip)
  }

  /**
   * Pack, unpack and copy: every non-empty stored file arrives byte for byte under
   * its own name, and every other file of the destination is untouched.
   */
  lemma DeliveredFiles(files: Files, alias: string, dest: Listing, name: string)
    requires DownloadReply(files, alias).Ok?
    ensures var dest' := Delivered(dest, DownloadReply(files, alias).value);
            Find(dest', name)
            == if name == DiskName(NamedOf(name)) && TextOf(files, Path(alias, NamedOf(name))) != ""
               then Some(files[Path(alias, NamedOf(name))]) else Find(dest, name)
  {
    var f := StoredFiles(files, alias).value;
    UnpackPacked(map[], f, [CertPem, ChainPem, FullchainPem, PrivkeyPem], name);
    PackedNames(f, name);
    assert FileOf(f, NamedOf(name)) == TextOf(files, Path(alias, NamedOf(name)));
  }

  lemma PackedNames(f: CertFiles, name: string)
    ensures (exists n <- [CertPem, ChainPem, FullchainPem, PrivkeyPem] :: DiskName(n) == name && FileOf(f, n) != "")
       <==> name == DiskName(NamedOf(name)) && FileOf(f, NamedOf(name)) != ""
  {
    var names := [CertPem, ChainPem, FullchainPem, PrivkeyPem];
    assert names[0] == CertPem && names[1] == ChainPem && names[2] == FullchainPem && names[3] == PrivkeyPem;
    assert NamedOf(name) in names;
    assert forall n <- names :: DiskName(n) == name ==> n == NamedOf(name);
  }

  /** The same by name: where each file of the destination comes from after a complete sync. */
  lemma DeliveredNames(files: Files, alias: string, dest: Listing)
    requires DownloadReply(files, alias).Ok?
    ensures var dest' := Delivered(dest, DownloadReply(files, alias).value);
            && Arrives(files, Path(alias, CertPem), dest, dest', "cert.pem")
            && Arrives(files, Path(alias, ChainPem), dest, dest', "chain.pem")
            && Arrives(files, Path(alias, FullchainPem), dest, dest', "fullchain.pem")
            && Arrives(files, Path(alias, PrivkeyPem), dest, dest', "privkey.pem")
            && forall name :: name !in ["cert.pem", "chain.pem", "fullchain.pem", "privkey.pem"] ==>
                                Find(dest', name) == Find(dest, name)
  {
    hide Delivered;
    hide DownloadReply;
    DownloadMeans(files, alias);
    DeliveredFiles(files, alias, dest, "cert.pem");
    DeliveredFiles(files, alias, dest, "chain.pem");
    DeliveredFiles(files, alias, dest, "fullchain.pem");
    DeliveredFiles(files, alias, dest, "privkey.pem");
    forall name | name !in ["cert.pem", "chain.pem", "fullchain.pem", "privkey.pem"]
      ensures Find(Delivered(dest, DownloadReply(files, alias).value), name) == Find(dest, name)
    {
      DeliveredFiles(files, alias, dest, name);
      OtherName(name);
    }
  }

  lemma OtherName(name: string)
    requires name !in ["cert.pem", "chain.pem", "fullchain.pem", "privkey.pem"]
    ensures name != DiskName(NamedOf(name))
  {
    var names := ["cert.pem", "chain.pem", "fullchain.pem", "privkey.pem"];
    assert names[0] in names && names[1] in names && names[2] in names && names[3] in names;
  }

  /** A stored file is in the destination under a name, or, if empty, that name is as before. */
  predicate Arrives(files: Files, p: Path, dest: Listing, dest': Listing, name: string)
  {
    p in files && Find(dest', name) == if files[p] == "" then Find(dest, name) else Some(files[p])
  }

  datatype Outcome = CheckFailed | UpToDate | DownloadFailed | ExtractFailed | CopyFailed | CommandFailed | Completed

  /**
   * What a sync does to the destination and how it ends, given the verdict of its check
   * and the bundle of its download: only a copy that starts touches the destination,
   * and then only files of the bundle; a complete copy delivers all of it.
   */
  ghost predicate Synced(verdict: Option<bool>, download: Option<Archive>, dest: Listing, dest': Listing,
                         outcome: Outcome)
  {
    && (outcome.CheckFailed? <==> verdict.None?)
    && (outcome.UpToDate? <==> verdict == Some(false))
    && (outcome.DownloadFailed? <==> verdict == Some(true) && download.None?)
    && (outcome.CheckFailed? || outcome.UpToDate? || outcome.DownloadFailed? ==> dest' == dest)
    && (outcome.ExtractFailed? ==> verdict == Some(true) && download.Some? && dest' == dest)
    && (outcome.CopyFailed? || outcome.CommandFailed? || outcome.Completed? ==>
          && verdict == Some(true) && download.Some?
          && forall name :: name !in Unpack(map[], download.value) ==> Find(dest', name) == Find(dest, name))
    && (outcome.CommandFailed? || outcome.Completed? ==> dest' == Delivered(dest, download.value))
  }

  class Client {
    const dest: Directory

    constructor (dest: Directory)
      ensures this.dest == dest
    {
      this.dest := dest;
    }

    /** `CheckLocal`: `remote` is the probe, `reply` the server's answer to the query it leads to. */
    method CheckLocal(remote: Option<int>, reply: ExpireReply) returns (needUpdate: Option<bool>)
      ensures needUpdate == if remote.None? then None else LocalVerdict(remote.value, reply)
      ensures needUpdate.None? <==> remote.None? || !reply.Expiry? || Rfc3339.Parse(reply.text).None?
      ensures needUpdate.Some? ==> (needUpdate.value <==> remote.value < Rfc3339.Parse(reply.text).value)
    {
      hide Rfc3339.Parse;
      if remote.None? {
        return None;
      }
      if !reply.Expiry? {
        return None;
      }
      var server := Rfc3339.Parse(reply.text);
      if server.None? {
        return None;
      }
      if remote.value < server.value {
        return Some(true);
      } else {
        return Some(false);
      }
    }

    /**
     * One `Sync`.  `verdict` is the outcome of the check, `download` the server's
     * answer, `order` the listing of the unpacked files, `command` whether the update
     * command succeeds.
     */
    method Sync(verdict: Option<bool>, download: Option<Archive>, extraction: Fault,
                order: seq<string>, copying: Fault, command: bool) returns (outcome: Outcome)
      requires download.Some? ==> forall name :: name in order <==> name in Unpack(map[], download.value)
      modifies dest
      ensures Synced(verdict, download, old(dest.files), dest.files, outcome)
      ensures outcome.CommandFailed? || outcome.Completed? ==> (outcome.Completed? <==> command)
      ensures verdict == Some(true) && download.Some? && extraction.NoFault? && copying.NoFault? ==>
                outcome.CommandFailed? || outcome.Completed?
    {
      if verdict.None? {
        return CheckFailed;
      }
      if !verdict.value {
        return UpToDate;
      }
      if download.None? {
        return DownloadFailed;
      }
      var temp := new Directory(map[]);
      var ok := temp.ExtractCertZip(download.value, extraction);
      if !ok {
        return ExtractFailed;
      }
      ok := dest.CopyCertificates(temp.files, order, copying);
      if !ok {
        return CopyFailed;
      }
      if !command {
        return CommandFailed;
      }
      return Completed;
    }
  }
}
