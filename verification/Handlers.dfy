/** The request handlers of the server: check, expire, download and the two uploads. */
module Handlers {
  import opened Wrappers
  import opened GoTime
  import opened Meta
  import opened Storage
  import opened Bundle
  import Rfc3339

  /** X.509 expiries are whole UTC seconds of four-digit years. */
  ghost predicate X509Times(der: DerParser)
  {
    forall bytes :: der(bytes).Some? ==> Rfc3339.Expressible(der(bytes).value)
  }

  lemma StoredExpiryExpressible(der: DerParser, files: Files, alias: string)
    requires X509Times(der)
    ensures LocalExpiry(der, files, alias).Some? ==> Rfc3339.Expressible(LocalExpiry(der, files, alias).value)
  {
  }

  const UNAUTHORIZED := 401
  const NOT_FOUND := 404
  const FORBIDDEN := 403
  const BAD_REQUEST := 400
  const FAILED := 500

  /** The HTTP status of an error reply that is given none: the error shows in the code of its body only. */
  const UNSTATED := 200

  /** The parts of a client request; an absent part is empty. */
  datatype Request = Request(token: string, alias: string, auth: string)

  /** The entry a request may act on, or the status that refuses it. */
  function Authorize(s: Settings, r: Request): (c: Result<CertConfig, int>)
  {
    var certMap := AliasMap(s.certs);
    if r.token == "" || r.token != s.token || r.alias == "" || r.auth == "" then Err(UNAUTHORIZED)
    else if r.alias !in certMap then Err(NOT_FOUND)
    else if certMap[r.alias].auth != r.auth then Err(UNAUTHORIZED)
    else Ok(certMap[r.alias])
  }

  /** Entry `i` is the one a request asks for: the last of its alias, with its auth. */
  predicate Entitled(s: Settings, r: Request, i: int)
  {
    0 <= i < |s.certs| && IsLast(s.certs, i) && s.certs[i].alias == r.alias && s.certs[i].auth == r.auth
  }

  /** The token of the server, and every part a certificate request must carry. */
  predicate Identified(s: Settings, r: Request)
  {
    r.token != "" && r.token == s.token && r.alias != "" && r.auth != ""
  }

  /**
   * What authorization grants and refuses, in terms of the configured list: exactly
   * the identified requests with the auth of the last entry of their alias, and that
   * entry; an identified request for an alias that is not listed is told so, and
   * nobody else learns whether it is.
   */
  lemma AuthorizeIff(s: Settings, r: Request)
    ensures var c := Authorize(s, r);
            && (c.Ok? <==> Identified(s, r) && exists i :: Entitled(s, r, i))
            && (c.Ok? ==> exists i :: Entitled(s, r, i) && s.certs[i] == c.value)
            && (c == Err(NOT_FOUND) <==> Identified(s, r) && !exists e <- s.certs :: e.alias == r.alias)
            && (c.Err? ==> c == Err(NOT_FOUND) || c == Err(UNAUTHORIZED))
  {
    AliasMapLookup(s.certs, r.alias);
    if r.alias in AliasMap(s.certs) {
      var j :| 0 <= j < |s.certs| && IsLast(s.certs, j) && s.certs[j].alias == r.alias
               && s.certs[j] == AliasMap(s.certs)[r.alias];
      assert forall i :: Entitled(s, r, i) ==> i == j;
      assert s.certs[j].auth == r.auth ==> Entitled(s, r, j);
    }
  }

  datatype CheckResponse = CheckResponse(needUpdate: bool, localExpiry: string, remoteExpiry: string, reason: string)

  /** The server-side comparison, past authorization and a successful probe. */
  function CheckReply(local: Option<int>, remote: int): CheckResponse
    requires Rfc3339.Expressible(remote) && (local.Some? ==> Rfc3339.Expressible(local.value))
  {
    var text := Rfc3339.Format(remote);
    if local.None? then CheckResponse(false, "", text, "no local certificate available")
    else if remote != ZERO_TIME && remote < local.value then
      CheckResponse(true, Rfc3339.Format(local.value), text, "remote certificate expires before local")
    else CheckResponse(false, Rfc3339.Format(local.value), text, "local certificate is up to date")
  }

  /**
   * The reply by its fields: each expiry in its own text, and an update called for with
   * its reason exactly when the probed one, not the zero time, is before the stored one.
   */
  lemma CheckReplyMeans(local: Option<int>, remote: int)
    requires Rfc3339.Expressible(remote) && (local.Some? ==> Rfc3339.Expressible(local.value))
    ensures var r := CheckReply(local, remote);
            && Rfc3339.Parse(r.remoteExpiry) == Some(remote)
            && (if local.Some? then Rfc3339.Parse(r.localExpiry) == local else r.localExpiry == "")
            && (r.needUpdate <==> local.Some? && remote != ZERO_TIME && remote < local.value)
            && r.reason == (if local.None? then "no local certificate available"
                            else if r.needUpdate then "remote certificate expires before local"
                            else "local certificate is up to date")
  {
    hide Rfc3339.Format;
    hide Rfc3339.Parse;
    Rfc3339.ParseFormat(remote);
    if local.Some? {
      Rfc3339.ParseFormat(local.value);
    }
  }

  /** The `remoteExpire` query argument. */
  datatype Query = Missing | Unparsable | At(expiry: int)

  /**
   * Answers of the expire handler.  `NoReply` is the path on which parsing the query has
   * overwritten with nil the error whose text the reply would carry: reading that text
   * fails, so no reply is formed.
   */
  datatype ExpireReply = Expiry(text: string) | Refused(status: int) | NoReply

  function ExpireAnswer(local: Option<int>, query: Query): ExpireReply
    requires local.Some? ==> Rfc3339.Expressible(local.value)
  {
    if local.Some? then Expiry(Rfc3339.Format(local.value))
    else match query
         case Missing => Refused(FAILED)
         case Unparsable => Refused(UNSTATED)
         case At(_) => NoReply
  }

  /** The handler starts a renewal in the background. */
  predicate Triggers(local: Option<int>, query: Query, now: int, lead: int)
  {
    local.None? && !query.Unparsable? && NeedsRenewal(if query.At? then query.expiry else ZERO_TIME, now, lead)
  }

  /** The query a text makes under some parser of timestamps. */
  function QueryWith(parse: string -> Option<int>, text: string): Query
  {
    if text == "" then Missing
    else
      match parse(text)
      case Some(t) => At(t)
      case None => Unparsable
  }

  /**
   * The promise for a request that finds nothing stored: if it names an expiry that
   * needs renewal, a renewal starts in the background and the reply has status 500.
   */
  predicate PromiseApplies(parse: string -> Option<int>, text: string, now: int, lead: int)
  {
    text != "" && parse(text).Some? && Due(parse(text).value, now, lead)
  }

  /**
   * What such a request gets, for every text and every parser of timestamps.  Status
   * 500 goes to requests without an expiry, and those start a renewal on any clock that
   * is past the zero time.  A text
   * that does not parse is answered under status 200 and starts none.  A parsed one
   * gets no reply at all, and starts a renewal exactly when it is due: so where the
   * promise applies its first half is kept and its second never.
   */
  lemma NothingStoredReplies(parse: string -> Option<int>, text: string, now: int, lead: int)
    requires 1 <= lead <= MAX_LEAD_DAYS
    ensures var query := QueryWith(parse, text);
            var reply, renews := ExpireAnswer(None, query), Triggers(None, query, now, lead);
            && (reply == Refused(FAILED) <==> text == "")
            && (reply == Refused(UNSTATED) <==> text != "" && parse(text).None?)
            && (reply == NoReply <==> text != "" && parse(text).Some?)
            && (renews <==> (text == "" && Due(ZERO_TIME, now, lead)) || PromiseApplies(parse, text, now, lead))
            && (text == "" && ZERO_TIME <= now ==> renews)
            && (PromiseApplies(parse, text, now, lead) ==> renews && reply != Refused(FAILED))
  {
    NeedsRenewalExact(ZERO_TIME, now, lead);
    if text != "" && parse(text).Some? {
      NeedsRenewalExact(parse(text).value, now, lead);
    }
  }

  /** With a certificate stored its expiry is told, whatever is asked, and nothing is renewed. */
  lemma StoredReplies(expiry: int, query: Query, now: int, lead: int)
    requires Rfc3339.Expressible(expiry)
    ensures var reply := ExpireAnswer(Some(expiry), query);
            reply.Expiry? && Rfc3339.Parse(reply.text) == Some(expiry) && !Triggers(Some(expiry), query, now, lead)
  {
    hide Rfc3339.Format;
    hide Rfc3339.Parse;
    Rfc3339.ParseFormat(expiry);
  }

  /** The four files of an alias, if all of them exist. */
  function StoredFiles(files: Files, alias: string): Option<CertFiles>
  {
    var cert, chain, full, key :=
      Path(alias, CertPem), Path(alias, ChainPem), Path(alias, FullchainPem), Path(alias, PrivkeyPem);
    if cert in files && chain in files && full in files && key in files then
      Some(CertFiles(files[cert], files[chain], files[full], files[key]))
    else None
  }

  function DownloadReply(files: Files, alias: string): Result<Archive, int>
  {
    match StoredFiles(files, alias)
    case Some(f) => Ok(Pack(f))
    case None => Err(if Path(alias, FullchainPem) in files then UNSTATED else NOT_FOUND)
  }

  /** The bundle by the names of its entries, each from the file of that name; else which error. */
  lemma DownloadMeans(files: Files, alias: string)
    ensures var reply := DownloadReply(files, alias);
            && (reply.Ok? <==> forall name: FileName :: Path(alias, name) in files)
            && (reply == Err(NOT_FOUND) <==> Path(alias, FullchainPem) !in files)
            && (reply.Err? ==> reply == Err(NOT_FOUND) || reply == Err(UNSTATED))
            && (reply.Ok? ==>
                  var cert, chain := files[Path(alias, CertPem)], files[Path(alias, ChainPem)];
                  var fullchain, privkey := files[Path(alias, FullchainPem)], files[Path(alias, PrivkeyPem)];
                  reply.value == (if cert == "" then [] else [Entry("cert.pem", cert)])
                                 + (if chain == "" then [] else [Entry("chain.pem", chain)])
                                 + (if fullchain == "" then [] else [Entry("fullchain.pem", fullchain)])
                                 + (if privkey == "" then [] else [Entry("privkey.pem", privkey)]))
  {
    hide Pack;
    if StoredFiles(files, alias).Some? {
      PackNames(StoredFiles(files, alias).value);
      forall name: FileName
        ensures Path(alias, name) in files
      {
        match name
        case CertPem =>
        case ChainPem =>
        case FullchainPem =>
        case PrivkeyPem =>
      }
    }
  }

  /** One file of an upload form. */
  datatype Part = Absent | Unreadable | Text(content: string)
  {
    /** Reading an empty file ends at once, which is an error too. */
    predicate Readable()
    {
      Text? && content != ""
    }
  }

  datatype Form = Malformed | Form(fullchain: Part, privkey: Part)

  /** The save an upload form asks for, or the status that refuses it. */
  function FormSave(alias: string, form: Form): Result<Save, int>
  {
    if form.Malformed? || form.fullchain.Absent? then Err(BAD_REQUEST)
    else if !form.fullchain.Readable() then Err(UNSTATED)
    else if form.privkey.Absent? then Err(BAD_REQUEST)
    else if !form.privkey.Readable() then Err(UNSTATED)
    else Ok(Save(alias, form.fullchain.content, form.privkey.content))
  }

  /** The save of an upload to an alias: only a configured manual alias accepts one. */
  function UploadSave(s: Settings, alias: string, form: Form): Result<Save, int>
  {
    var certMap := AliasMap(s.certs);
    if alias == "" then Err(BAD_REQUEST)
    else if alias !in certMap then Err(NOT_FOUND)
    else if certMap[alias].autoRenew then Err(FORBIDDEN)
    else FormSave(alias, form)
  }

  /** The upload token of the entry matches; an empty one never does. */
  predicate ValidToken(s: Settings, alias: string, uploadToken: string)
  {
    alias in AliasMap(s.certs) && uploadToken != "" && AliasMap(s.certs)[alias].uploadToken == uploadToken
  }

  /** How an upload without a valid token is refused: the alias is looked at before the token. */
  function RefusedUpload(s: Settings, alias: string): int
  {
    var certMap := AliasMap(s.certs);
    if alias == "" then BAD_REQUEST
    else if alias !in certMap then NOT_FOUND
    else if certMap[alias].autoRenew then FORBIDDEN
    else UNAUTHORIZED
  }

  /** Both files of the form can be read. */
  predicate Complete(form: Form)
  {
    form.Form? && form.fullchain.Readable() && form.privkey.Readable()
  }

  /**
   * An upload is accepted exactly when its alias is one the configuration leaves to
   * manual upload and its form is complete; what it saves is the form's two files.
   */
  lemma UploadAcceptedIff(s: Settings, alias: string, form: Form)
    ensures var u := UploadSave(s, alias, form);
            && (u.Ok? <==> alias != "" && Uploadable(s.certs, alias) && Complete(form))
            && (u.Ok? ==> u.value == Save(alias, form.fullchain.content, form.privkey.content))
            && (u == Err(FORBIDDEN) <==> alias != "" && alias in AliasMap(s.certs) && !Uploadable(s.certs, alias))
            && (u == Err(NOT_FOUND) <==> alias != "" && alias !in AliasMap(s.certs))
            && (alias == "" ==> u == Err(BAD_REQUEST))
  {
  }

  /** How an incomplete form is refused: its files are looked at in turn, the full chain first. */
  lemma FormRefusals(alias: string, form: Form)
    ensures var r := FormSave(alias, form);
            && (form.Malformed? ==> r == Err(BAD_REQUEST))
            && (form.Form? ==> var first := if form.fullchain.Readable() then form.privkey else form.fullchain;
                               && (r.Err? <==> first.Absent? || !first.Readable())
                               && (first.Absent? ==> r == Err(BAD_REQUEST))
                               && (!first.Absent? && !first.Readable() ==> r == Err(UNSTATED)))
  {
  }

  /** The upload token that counts is that of the last entry of the alias; an empty one never does. */
  lemma ValidTokenIff(s: Settings, alias: string, uploadToken: string)
    ensures ValidToken(s, alias, uploadToken) <==>
              && uploadToken != ""
              && exists i :: 0 <= i < |s.certs| && IsLast(s.certs, i)
                             && s.certs[i].alias == alias && s.certs[i].uploadToken == uploadToken
  {
    AliasMapLookup(s.certs, alias);
    if alias in AliasMap(s.certs) {
      var j :| 0 <= j < |s.certs| && IsLast(s.certs, j) && s.certs[j].alias == alias
               && s.certs[j] == AliasMap(s.certs)[alias];
      assert forall i :: 0 <= i < |s.certs| && IsLast(s.certs, i) && s.certs[i].alias == alias ==> i == j;
    }
  }

  class Server {
    const config: ServerConfig
    const storage: CertStorage
    const der: DerParser
    /** Renewals started in the background, oldest first. */
    var spawned: seq<CertConfig>

    constructor (config: ServerConfig, storage: CertStorage, der: DerParser)
      ensures this.config == config && this.storage == storage && this.der == der && spawned == []
    {
      this.config := config;
      this.storage := storage;
      this.der := der;
      this.spawned := [];
    }

    ghost predicate Ready()
      reads config
    {
      config.certMap == AliasMap(config.settings.certs) && X509Times(der)
    }

    method Identifies(r: Request) returns (ok: bool)
      ensures ok <==> Identified(config.settings, r)
    {
      if r.token == "" || r.token != config.settings.token {
        return false;
      }
      if r.alias == "" {
        return false;
      }
      return r.auth != "";
    }

    method Authorized(r: Request) returns (c: Result<CertConfig, int>)
      requires Ready()
      ensures c == Authorize(config.settings, r)
      ensures c.Ok? <==> Identified(config.settings, r) && exists i :: Entitled(config.settings, r, i)
      ensures c.Ok? ==> exists i :: Entitled(config.settings, r, i) && config.settings.certs[i] == c.value
      ensures c.Err? ==> c.error == NOT_FOUND || c.error == UNAUTHORIZED
    {
      AuthorizeIff(config.settings, r);
      var ok := Identifies(r);
      if !ok {
        return Err(UNAUTHORIZED);
      }
      if r.alias !in config.certMap {
        return Err(NOT_FOUND);
      }
      if config.certMap[r.alias].auth != r.auth {
        return Err(UNAUTHORIZED);
      }
      return Ok(config.certMap[r.alias]);
    }

    /** `remote` is what dialling `domainCheck` finds. */
    method CheckHandler(r: Request, domainCheck: string, remote: Option<int>)
      returns (reply: Result<CheckResponse, int>)
      requires Ready() && (remote.Some? ==> Rfc3339.Expressible(remote.value))
      ensures domainCheck == "" ==> reply == Err(UNAUTHORIZED)
      ensures domainCheck != "" ==>
              match Authorize(config.settings, r)
              case Err(status) => reply == Err(status)
              case Ok(_) =>
                if remote.None? then reply == Err(FAILED)
                else
                  var local := LocalExpiry(der, storage.files, r.alias);
                  && (local.Some? ==> Rfc3339.Expressible(local.value))
                  && reply == Ok(CheckReply(local, remote.value))
    {
      var ok := Identifies(r);
      if !ok || domainCheck == "" {
        return Err(UNAUTHORIZED);
      }
      var c := Authorized(r);
      if c.Err? {
        return Err(c.error);
      }
      if remote.None? {
        return Err(FAILED);
      }
      StoredExpiryExpressible(der, storage.files, r.alias);
      var local := storage.GetLocalCertExpiry(r.alias, der);
      var response := FillResponse(local, remote.value);
      return Ok(response);
    }

    /** The response fields, filled step by step. */
    method FillResponse(local: Option<int>, remote: int) returns (response: CheckResponse)
      requires Rfc3339.Expressible(remote) && (local.Some? ==> Rfc3339.Expressible(local.value))
      ensures response == CheckReply(local, remote)
      ensures response.needUpdate <==> local.Some? && remote != ZERO_TIME && remote < local.value
    {
      response := CheckResponse(false, "", "", "");
      response := response.(remoteExpiry := Rfc3339.Format(remote));
      if local.Some? {
        response := response.(localExpiry := Rfc3339.Format(local.value));
      }
      if local.None? {
        response := response.(needUpdate := false, reason := "no local certificate available");
        return;
      }
      if remote != ZERO_TIME && remote < local.value {
        response := response.(needUpdate := true, reason := "remote certificate expires before local");
      } else {
        response := response.(needUpdate := false, reason := "local certificate is up to date");
      }
    }

    method ExpireHandler(r: Request, query: Query, now: int) returns (reply: ExpireReply)
      requires Ready()
      modifies this`spawned
      ensures var auth := Authorize(config.settings, r);
              var local := LocalExpiry(der, storage.files, r.alias);
              && (auth.Err? ==> reply == Refused(auth.error) && spawned == old(spawned))
              && (auth.Ok? ==>
                    && (local.Some? ==> Rfc3339.Expressible(local.value))
                    && reply == ExpireAnswer(local, query)
                    && (local.None? ==> (reply == Refused(FAILED) <==> query.Missing?))
                    && (local.None? ==> (reply == Refused(UNSTATED) <==> query.Unparsable?))
                    && (local.None? ==> (reply == NoReply <==> query.At?))
                    && spawned == if Triggers(local, query, now, LeadDays(config.settings))
                                  then old(spawned) + [auth.value] else old(spawned))
    {
      var c := Authorized(r);
      if c.Err? {
        return Refused(c.error);
      }
      StoredExpiryExpressible(der, storage.files, r.alias);
      var local := storage.GetLocalCertExpiry(r.alias, der);
      var err := local.None?;
      if err {
        var remoteExpiry := ZERO_TIME;
        if !query.Missing? {
          err := query.Unparsable?;
          if err {
            return Refused(UNSTATED);
          }
          remoteExpiry := query.expiry;
        }
        if NeedsRenewal(remoteExpiry, now, LeadDays(config.settings)) {
          spawned := spawned + [c.value];
        }
        return if err then Refused(FAILED) else NoReply;
      }
      return Expiry(Rfc3339.Format(local.value));
    }

    method DownloadHandler(r: Request) returns (reply: Result<Archive, int>)
      requires Ready()
      ensures reply == match Authorize(config.settings, r)
                       case Ok(c) => DownloadReply(storage.files, r.alias)
                       case Err(status) => Err(status)
    {
      var c := Authorized(r);
      if c.Err? {
        return Err(c.error);
      }
      if !storage.CertExists(r.alias) {
        return Err(NOT_FOUND);
      }
      var f := CertFiles("", "", "", "");
      f := f.(fullchain := storage.files[Path(r.alias, FullchainPem)]);
      if Path(r.alias, PrivkeyPem) !in storage.files {
        return Err(UNSTATED);
      }
      f := f.(privkey := storage.files[Path(r.alias, PrivkeyPem)]);
      if Path(r.alias, CertPem) !in storage.files {
        return Err(UNSTATED);
      }
      f := f.(cert := storage.files[Path(r.alias, CertPem)]);
      if Path(r.alias, ChainPem) !in storage.files {
        return Err(UNSTATED);
      }
      f := f.(chain := storage.files[Path(r.alias, ChainPem)]);
      var zip := CreateCertZip(f);
      return Ok(zip);
    }

    /** The form and the save both upload handlers share. */
    method StoreUpload(alias: string, form: Form, fault: Fault) returns (reply: Result<(), int>)
      modifies storage
      ensures match FormSave(alias, form)
              case Ok(s) => && storage.files == SavedWith(old(storage.files), s, fault)
                            && reply == (if Hits(fault, s) then Err(UNSTATED) else Ok(()))
              case Err(status) => storage.files == old(storage.files) && reply == Err(status)
    {
      if form.Malformed? || form.fullchain.Absent? {
        return Err(BAD_REQUEST);
      }
      if !form.fullchain.Readable() {
        return Err(UNSTATED);
      }
      if form.privkey.Absent? {
        return Err(BAD_REQUEST);
      }
      if !form.privkey.Readable() {
        return Err(UNSTATED);
      }
      var ok := storage.SaveCert(alias, form.fullchain.content, form.privkey.content, fault);
      return if ok then Ok(()) else Err(UNSTATED);
    }

    /** The upload of the web page; `admin` is the outcome of its token check. */
    method FrontUploadHandler(admin: bool, alias: string, form: Form, fault: Fault)
      returns (reply: Result<(), int>)
      requires Ready()
      modifies storage
      ensures match if admin then UploadSave(config.settings, alias, form) else Err(UNAUTHORIZED)
              case Ok(s) => && storage.files == SavedWith(old(storage.files), s, fault)
                            && reply == (if Hits(fault, s) then Err(UNSTATED) else Ok(()))
              case Err(status) => storage.files == old(storage.files) && reply == Err(status)
    {
      if !admin {
        return Err(UNAUTHORIZED);
      }
      if alias == "" {
        return Err(BAD_REQUEST);
      }
      if alias !in config.certMap {
        return Err(NOT_FOUND);
      }
      if config.certMap[alias].autoRenew {
        return Err(FORBIDDEN);
      }
      reply := StoreUpload(alias, form, fault);
    }

    /** The upload authorized by the token of the entry. */
    method UploadHandler(alias: string, uploadToken: string, form: Form, fault: Fault)
      returns (reply: Result<(), int>)
      requires Ready()
      modifies storage
      ensures match if ValidToken(config.settings, alias, uploadToken) then UploadSave(config.settings, alias, form)
                    else Err(RefusedUpload(config.settings, alias))
              case Ok(s) => && storage.files == SavedWith(old(storage.files), s, fault)
                            && reply == (if Hits(fault, s) then Err(UNSTATED) else Ok(()))
              case Err(status) => storage.files == old(storage.files) && reply == Err(status)
      ensures forall p: Path :: p.alias != alias ==> Lookup(storage.files, p) == Lookup(old(storage.files), p)
      ensures reply == Err(NOT_FOUND) <==> alias != "" && alias !in config.certMap
      ensures reply == Err(FORBIDDEN) <==> alias != "" && alias in config.certMap && config.certMap[alias].autoRenew
      ensures reply == Err(UNAUTHORIZED) <==>
              && alias != "" && Uploadable(config.settings.certs, alias)
              && !ValidToken(config.settings, alias, uploadToken)
    {
      if alias == "" {
        return Err(BAD_REQUEST);
      }
      if alias !in config.certMap {
        return Err(NOT_FOUND);
      }
      if config.certMap[alias].autoRenew {
        return Err(FORBIDDEN);
      }
      if uploadToken == "" || config.certMap[alias].uploadToken != uploadToken {
        return Err(UNAUTHORIZED);
      }
      ghost var before := storage.files;
      reply := StoreUpload(alias, form, fault);
      if FormSave(alias, form).Ok? {
        forall p: Path | p.alias != alias
          ensures Lookup(storage.files, p) == Lookup(before, p)
        {
          SavedWithFrame(before, FormSave(alias, form).value, fault, p);
        }
      }
    }
  }
}
