/** Revocation resolution (`revocation.go`): staple, then OCSP, then CRL, and what a verdict rests on. */
module Revocation {
  import opened CertTypes

  // ---------------------------------------------------------------------------------------------
  // Data
  // ---------------------------------------------------------------------------------------------

  datatype Status = Good | Revoked | Undetermined

  datatype Method = StapledOCSP | OCSP | CRL | CRLFile | Auto | Unset

  /** The text recorded with an attempt; `Clean` is the empty text. */
  datatype Note =
    | Clean | Failed(text: string) | SerialMismatch | Expired | UnknownStatus | NoCertificate | NoIssuer
    | UnsupportedScheme | BadSignature | OtherIssuer | DeltaCRL | PartitionedCRL

  datatype Attempt = Attempt(method_: Method, source: string, note: Note)

  /** A zero time is `None`. */
  datatype Verdict = Verdict(status: Status, method_: Method, verified: bool, thisUpdate: Option<int>,
                             nextUpdate: Option<int>, revokedAt: Option<int>, reason: Option<int>,
                             attempts: seq<Attempt>)

  function Blank(method_: Method, attempts: seq<Attempt>): Verdict {
    Verdict(Undetermined, method_, false, None, None, None, None, attempts)
  }

  datatype Subject = Subject(serial: Option<int>, rawIssuer: Bytes, ocspServers: seq<string>, crlPoints: seq<string>)

  datatype OcspStatus = OcspGood | OcspRevoked | OcspUnknown

  /** `responderEKU` is whether a delegated responder's certificate has the OCSP signing usage, `None` when
      the issuer signed the response itself. */
  datatype OcspResponse = OcspResponse(serial: Option<int>, status: OcspStatus, thisUpdate: Option<int>,
                                       nextUpdate: Option<int>, revokedAt: Option<int>, reason: int,
                                       responderEKU: Option<bool>)

  datatype CrlExtension = DeltaIndicator | IssuingDistributionPoint | OtherExtension

  datatype CrlEntry = CrlEntry(serial: Option<int>, revokedAt: Option<int>, reason: int)

  datatype RevocationList = RevocationList(rawIssuer: Bytes, thisUpdate: Option<int>, nextUpdate: Option<int>,
                                           extensions: seq<CrlExtension>, entries: seq<CrlEntry>)

  type Issuer = Bytes

  /** The libraries and the network: parsing and signature checks, and what each URL answers. */
  datatype World = World(
    now: int,
    parseOcsp: (Bytes, Option<Subject>, Option<Issuer>) -> Result<OcspResponse>,
    createRequest: (Subject, Issuer) -> Result<Bytes>,
    post: (nat, string) -> Result<Bytes>,
    isHttp: string -> bool,
    parseCrl: Bytes -> Result<RevocationList>,
    crlSigned: (RevocationList, Issuer) -> bool,
    fetchCrl: (nat, string) -> Result<Bytes>,
    readFile: string -> Result<Bytes>
  )

  /** The OCSP parser answers for the certificate it is given. */
  ghost predicate MatchesSerial(w: World) {
    forall b, leaf: Subject, issuer: Issuer ::
      w.parseOcsp(b, Some(leaf), Some(issuer)).Ok? ==>
        leaf.serial.Some? && w.parseOcsp(b, Some(leaf), Some(issuer)).value.serial == leaf.serial
  }

  predicate Determinate(s: Status) {
    s == Good || s == Revoked
  }

  /** Past its nextUpdate; without one a source is never stale. */
  predicate Stale(nextUpdate: Option<int>, now: int) {
    nextUpdate.Some? && now >= nextUpdate.value
  }

  // ---------------------------------------------------------------------------------------------
  // What each source says
  // ---------------------------------------------------------------------------------------------

  /** Staleness withdraws a "good", never a "revoked". */
  function Aged(v: Verdict, now: int): Verdict {
    if Stale(v.nextUpdate, now) && v.status == Good then v.(status := Undetermined) else v
  }

  function AgeNote(v: Verdict, now: int): Note {
    if Stale(v.nextUpdate, now) then Expired else Clean
  }

  function Authorized(resp: OcspResponse): bool {
    resp.responderEKU == None || resp.responderEKU.value
  }

  function WithResponse(v: Verdict, resp: OcspResponse): Verdict {
    var dated := v.(thisUpdate := resp.thisUpdate, nextUpdate := resp.nextUpdate);
    match resp.status
    case OcspGood => dated.(status := Good)
    case OcspRevoked => dated.(status := Revoked, revokedAt := resp.revokedAt, reason := Some(resp.reason))
    case OcspUnknown => dated.(status := Undetermined)
  }

  const STAPLE := "staple"

  /** Both serials are known and differ. */
  predicate OtherSerial(leaf: Option<Subject>, resp: OcspResponse) {
    leaf.Some? && leaf.value.serial.Some? && resp.serial.Some? && resp.serial != leaf.value.serial
  }

  function StapleVerdict(w: World, staple: Bytes, leaf: Option<Subject>, issuer: Option<Issuer>): Option<Verdict> {
    if staple == [] then None
    else
      var parsed := w.parseOcsp(staple, if issuer.Some? then leaf else None, issuer);
      if parsed.Err? then Some(Blank(StapledOCSP, [Attempt(StapledOCSP, STAPLE, Failed(parsed.message))]))
      else if OtherSerial(leaf, parsed.value) then
        Some(Blank(StapledOCSP, [Attempt(StapledOCSP, STAPLE, SerialMismatch)]))
      else
        var v := WithResponse(Blank(StapledOCSP, []).(verified := issuer.Some? && Authorized(parsed.value)),
            parsed.value);
        Some(Aged(v, w.now).(attempts := [Attempt(StapledOCSP, STAPLE, AgeNote(v, w.now))]))
  }

  /** What the responder at one URL says, with the one attempt it leaves. */
  function AskOne(w: World, leaf: Subject, issuer: Issuer, i: nat, url: string): Verdict {
    if !w.isHttp(url) then Blank(OCSP, [Attempt(OCSP, url, UnsupportedScheme)])
    else
      var answer := w.post(i, url);
      if answer.Err? then Blank(OCSP, [Attempt(OCSP, url, Failed(answer.message))])
      else
        var parsed := w.parseOcsp(answer.value, Some(leaf), Some(issuer));
        if parsed.Err? then Blank(OCSP, [Attempt(OCSP, url, Failed(parsed.message))])
        else
          var v := WithResponse(Blank(OCSP, []).(verified := Authorized(parsed.value)), parsed.value);
          var note := if AgeNote(v, w.now) == Clean && parsed.value.status == OcspUnknown then UnknownStatus
                      else AgeNote(v, w.now);
          Aged(v, w.now).(attempts := [Attempt(OCSP, url, note)])
  }

  /** The responders from the `i`-th on: the first determinate one wins. */
  function AskFrom(w: World, leaf: Subject, issuer: Issuer, urls: seq<string>, i: nat, attempts: seq<Attempt>): Verdict
    decreases |urls| - i
  {
    if i >= |urls| then Blank(OCSP, attempts)
    else
      var v := AskOne(w, leaf, issuer, i, urls[i]);
      if Determinate(v.status) then v.(attempts := attempts + v.attempts)
      else AskFrom(w, leaf, issuer, urls, i + 1, attempts + v.attempts)
  }

  function OcspVerdict(w: World, leaf: Option<Subject>, issuer: Option<Issuer>, urls: seq<string>): Verdict {
    if leaf == None then Blank(OCSP, [Attempt(OCSP, "", NoCertificate)])
    else if issuer == None then Blank(OCSP, [Attempt(OCSP, "", NoIssuer)])
    else
      var request := w.createRequest(leaf.value, issuer.value);
      if request.Err? then Blank(OCSP, [Attempt(OCSP, "", Failed(request.message))])
      else AskFrom(w, leaf.value, issuer.value, urls, 0, [])
  }

  predicate SameIssuer(crl: RevocationList, cert: Subject) {
    cert.rawIssuer == [] || crl.rawIssuer == [] || crl.rawIssuer == cert.rawIssuer
  }

  /** The note of the last extension that narrows the scope, `Clean` for a complete CRL. */
  function ScopeNote(extensions: seq<CrlExtension>): Note {
    if extensions == [] then Clean
    else
      var n := |extensions| - 1;
      match extensions[n]
      case DeltaIndicator => DeltaCRL
      case IssuingDistributionPoint => PartitionedCRL
      case OtherExtension => ScopeNote(extensions[..n])
  }

  /** Whether the entry is this certificate's; an unknown serial matches nothing. */
  predicate Lists(e: CrlEntry, cert: Subject) {
    e.serial.Some? && e.serial == cert.serial
  }

  function FirstListing(entries: seq<CrlEntry>, cert: Subject): Option<CrlEntry> {
    if entries == [] then None else if Lists(entries[0], cert) then Some(entries[0])
        else FirstListing(entries[1..], cert)
  }

  /** The CRL's word on the certificate, once its signature is not known to be bad. */
  function Judged(w: World, base: Verdict, crl: RevocationList, cert: Subject): Verdict {
    var listing := FirstListing(crl.entries, cert);
    if !SameIssuer(crl, cert) then base.(attempts := [Attempt(CRL, "", OtherIssuer)])
    else if listing.Some? then
      base.(status := Revoked, revokedAt := listing.value.revokedAt, reason := Some(listing.value.reason),
            attempts := [Attempt(CRL, "", AgeNote(base, w.now))])
    else if ScopeNote(crl.extensions) != Clean then base.(attempts := [Attempt(CRL, "", ScopeNote(crl.extensions))])
    else Aged(base.(status := Good), w.now).(attempts := [Attempt(CRL, "", AgeNote(base, w.now))])
  }

  function CrlVerdict(w: World, data: Bytes, cert: Option<Subject>, issuer: Option<Issuer>): Verdict {
    if cert == None then Blank(CRL, [Attempt(CRL, "", NoCertificate)])
    else
      var parsed := w.parseCrl(data);
      if parsed.Err? then Blank(CRL, [Attempt(CRL, "", Failed(parsed.message))])
      else
        var crl := parsed.value;
        var verified := issuer.Some? && w.crlSigned(crl, issuer.value);
        var base := Blank(CRL, []).(thisUpdate := crl.thisUpdate, nextUpdate := crl.nextUpdate, verified := verified);
        if issuer.Some? && !verified then base.(attempts := [Attempt(CRL, "", BadSignature)])
        else Judged(w, base, crl, cert.value)
  }

  function Relabeled(attempts: seq<Attempt>, method_: Method, source: string): (r: seq<Attempt>)
    ensures |r| == |attempts|
  {
    seq(|attempts|, i requires 0 <= i < |attempts| =>
      Attempt(method_, if attempts[i].source == "" then source else attempts[i].source, attempts[i].note))
  }

  function Relabel(v: Verdict, method_: Method, source: string): Verdict {
    v.(method_ := method_, attempts := Relabeled(v.attempts, method_, source))
  }

  /** The distribution points from the `i`-th on. */
  function PointsFrom(w: World, cert: Subject, issuer: Option<Issuer>, i: nat, attempts: seq<Attempt>): Verdict
    decreases |cert.crlPoints| - i
  {
    if i >= |cert.crlPoints| then Blank(CRL, attempts)
    else
      var url := cert.crlPoints[i];
      var data := w.fetchCrl(i, url);
      if data.Err? then PointsFrom(w, cert, issuer, i + 1, attempts + [Attempt(CRL, url, Failed(data.message))])
      else
        var v := Relabel(CrlVerdict(w, data.value, Some(cert), issuer), CRL, url);
        if Determinate(v.status) then v.(attempts := attempts + v.attempts)
        else PointsFrom(w, cert, issuer, i + 1, attempts + v.attempts)
  }

  function CrlResolution(w: World, cert: Subject, issuer: Option<Issuer>, crlFile: string): Verdict {
    if crlFile != "" then
      var data := w.readFile(crlFile);
      if data.Err? then Blank(CRLFile, [Attempt(CRLFile, crlFile, Failed(data.message))])
      else Relabel(CrlVerdict(w, data.value, Some(cert), issuer), CRLFile, crlFile)
    else PointsFrom(w, cert, issuer, 0, [])
  }

  // ---------------------------------------------------------------------------------------------
  // Resolution
  // ---------------------------------------------------------------------------------------------

  datatype Options = Options(method_: Method, crlFile: string)

  function Effective(m: Method): Method {
    if m == Unset then Auto else m
  }

  predicate TriesStaple(m: Method, staple: Bytes) {
    staple != [] && (m == Auto || m == OCSP)
  }

  predicate TriesOCSP(m: Method, cert: Subject) {
    (m == Auto || m == OCSP) && cert.ocspServers != []
  }

  predicate TriesCRL(m: Method) {
    m == Auto || m == CRL
  }

  /** The sources a resolution consults, in order, each only while the ones before it were indeterminate. */
  function Sources(w: World, cert: Subject, issuer: Option<Issuer>, staple: Bytes, opts: Options): seq<Verdict> {
    var m := Effective(opts.method_);
    var first := if TriesStaple(m, staple) then [StapleVerdict(w, staple, Some(cert), issuer).value] else [];
    var second := if TriesOCSP(m, cert) then [OcspVerdict(w, Some(cert), issuer, cert.ocspServers)] else [];
    var third := if TriesCRL(m) then [CrlResolution(w, cert, issuer, opts.crlFile)] else [];
    first + second + third
  }

  /** The winner with every attempt so far, or what comes next. */
  function FromCRL(w: World, cert: Subject, issuer: Option<Issuer>, opts: Options, attempts: seq<Attempt>): Verdict {
    if !TriesCRL(Effective(opts.method_)) then Blank(Unset, attempts)
    else
      var v := CrlResolution(w, cert, issuer, opts.crlFile);
      if Determinate(v.status) then v.(attempts := attempts + v.attempts) else Blank(Unset, attempts + v.attempts)
  }

  function FromOCSP(w: World, cert: Subject, issuer: Option<Issuer>, opts: Options, attempts: seq<Attempt>): Verdict {
    if !TriesOCSP(Effective(opts.method_), cert) then FromCRL(w, cert, issuer, opts, attempts)
    else
      var v := OcspVerdict(w, Some(cert), issuer, cert.ocspServers);
      if Determinate(v.status) then v.(attempts := attempts + v.attempts)
      else FromCRL(w, cert, issuer, opts, attempts + v.attempts)
  }

  function Resolution(w: World, cert: Option<Subject>, issuer: Option<Issuer>, staple: Bytes, opts: Options): Verdict {
    if cert == None then Blank(Unset, [Attempt(Effective(opts.method_), "", NoCertificate)])
    else if !TriesStaple(Effective(opts.method_), staple) then FromOCSP(w, cert.value, issuer, opts, [])
    else
      var v := StapleVerdict(w, staple, cert, issuer).value;
      if Determinate(v.status) then v else FromOCSP(w, cert.value, issuer, opts, v.attempts)
  }

  /** The first determinate source wins, with the attempts of every source consulted. */
  function FirstDeterminate(sources: seq<Verdict>, attempts: seq<Attempt>): Verdict
    decreases |sources|
  {
    if sources == [] then Blank(Unset, attempts)
    else if Determinate(sources[0].status) then sources[0].(attempts := attempts + sources[0].attempts)
    else FirstDeterminate(sources[1..], attempts + sources[0].attempts)
  }

  // ---------------------------------------------------------------------------------------------
  // The code
  // ---------------------------------------------------------------------------------------------

  class RevocationResult {
    var status: Status
    var method_: Method
    var verified: bool
    var thisUpdate: Option<int>
    var nextUpdate: Option<int>
    var revokedAt: Option<int>
    var reason: Option<int>
    var attempts: seq<Attempt>

    constructor (method_: Method)
      ensures Value() == Blank(method_, [])
    {
      status, this.method_, verified := Undetermined, method_, false;
      thisUpdate, nextUpdate, revokedAt, reason, attempts := None, None, None, None, [];
    }

    function Value(): Verdict
      reads this
    {
      Verdict(status, method_, verified, thisUpdate, nextUpdate, revokedAt, reason, attempts)
    }

    method Record(a: Attempt)
      modifies this`attempts
      ensures attempts == old(attempts) + [a]
    {
      attempts := attempts + [a];
    }

    method ApplyStaleness(now: int) returns (note: Note)
      modifies this`status
      ensures Value() == Aged(old(Value()), now) && note == AgeNote(old(Value()), now)
    {
      if nextUpdate == None || now < nextUpdate.value {
        return Clean;
      }
      if status == Good {
        status := Undetermined;
      }
      return Expired;
    }

    method ApplyOCSPResponse(resp: OcspResponse)
      modifies this
      ensures Value() == WithResponse(old(Value()), resp)
    {
      thisUpdate, nextUpdate := resp.thisUpdate, resp.nextUpdate;
      match resp.status
      case OcspGood => status := Good;
      case OcspRevoked =>
        status := Revoked;
        revokedAt, reason := resp.revokedAt, Some(resp.reason);
      case OcspUnknown => status := Undetermined;
    }

    /** `relabelCRL` rewrites the recorded attempts in place. */
    method RelabelCRL(m: Method, source: string)
      modifies this
      ensures Value() == Relabel(old(Value()), m, source)
    {
      method_ := m;
      ghost var before := attempts;
      for i := 0 to |attempts|
        invariant |attempts| == |before| && Value() == old(Value()).(method_ := m, attempts := attempts)
        invariant forall k :: 0 <= k < i ==> attempts[k] == Relabeled(before, m, source)[k]
        invariant forall k :: i <= k < |before| ==> attempts[k] == before[k]
      {
        var a := attempts[i].(method_ := m);
        attempts := attempts[i := if a.source == "" then a.(source := source) else a];
      }
      assert attempts == Relabeled(before, m, source);
    }
  }

  method CheckOCSPStaple(w: World, staple: Bytes, leaf: Option<Subject>, issuer: Option<Issuer>)
    returns (res: RevocationResult?)
    ensures res == null <==> staple == []
    ensures res != null ==> fresh(res) && Some(res.Value()) == StapleVerdict(w, staple, leaf, issuer)
  {
    if staple == [] {
      return null;
    }
    var r := new RevocationResult(StapledOCSP);
    res := r;
    var parsed := w.parseOcsp(staple, if issuer.Some? then leaf else None, issuer);
    if parsed.Err? {
      r.Record(Attempt(StapledOCSP, STAPLE, Failed(parsed.message)));
      assert r.attempts == [Attempt(StapledOCSP, STAPLE, Failed(parsed.message))];
      return;
    }
    if OtherSerial(leaf, parsed.value) {
      r.Record(Attempt(StapledOCSP, STAPLE, SerialMismatch));
      assert r.attempts == [Attempt(StapledOCSP, STAPLE, SerialMismatch)];
      return;
    }
    r.verified := issuer.Some? && Authorized(parsed.value);
    r.ApplyOCSPResponse(parsed.value);
    var note := r.ApplyStaleness(w.now);
    r.Record(Attempt(StapledOCSP, STAPLE, note));
    assert r.attempts == [Attempt(StapledOCSP, STAPLE, note)];
  }

  /** The result between two responders: nothing but the attempts so far. */
  predicate Between(v: Verdict) {
    v == Blank(OCSP, v.attempts)
  }

  method QueryOCSP(w: World, leaf: Option<Subject>, issuer: Option<Issuer>, urls: seq<string>)
    returns (res: RevocationResult)
    ensures fresh(res) && res.Value() == OcspVerdict(w, leaf, issuer, urls)
  {
    res := new RevocationResult(OCSP);
    if leaf == None {
      res.Record(Attempt(OCSP, "", NoCertificate));
      return;
    }
    if issuer == None {
      res.Record(Attempt(OCSP, "", NoIssuer));
      return;
    }
    var request := w.createRequest(leaf.value, issuer.value);
    if request.Err? {
      res.Record(Attempt(OCSP, "", Failed(request.message)));
      return;
    }
    for i := 0 to |urls|
      invariant fresh(res) && Between(res.Value())
      invariant AskFrom(w, leaf.value, issuer.value, urls, i, res.attempts) == OcspVerdict(w, leaf, issuer, urls)
    {
      var u := urls[i];
      if !w.isHttp(u) {
        res.Record(Attempt(OCSP, u, UnsupportedScheme));
        continue;
      }
      var answer := w.post(i, u);
      if answer.Err? {
        res.Record(Attempt(OCSP, u, Failed(answer.message)));
        continue;
      }
      var parsed := w.parseOcsp(answer.value, leaf, issuer);
      if parsed.Err? {
        res.Record(Attempt(OCSP, u, Failed(parsed.message)));
        continue;
      }
      var done := TakeResponse(w, res, parsed.value, u);
      AskedOne(w, leaf.value, issuer.value, i, u);
      if done {
        return;
      }
    }
    res.status := Undetermined;
  }

  /** What a parsed response adds to a verdict that carried only attempts. */
  function Taken(w: World, before: Verdict, resp: OcspResponse, url: string): Verdict {
    var v := WithResponse(before.(verified := Authorized(resp)), resp);
    var note := if AgeNote(v, w.now) == Clean && resp.status == OcspUnknown then UnknownStatus else AgeNote(v, w.now);
    Aged(v, w.now).(attempts := before.attempts + [Attempt(OCSP, url, note)])
  }

  /** The loop body once a response has been parsed. */
  method TakeResponse(w: World, res: RevocationResult, resp: OcspResponse, url: string) returns (done: bool)
    requires Between(res.Value())
    modifies res
    ensures var v := Taken(w, old(res.Value()), resp, url);
            done == Determinate(v.status) && res.Value() == if done then v else Blank(OCSP, v.attempts)
  {
    res.verified := Authorized(resp);
    res.ApplyOCSPResponse(resp);
    var note := res.ApplyStaleness(w.now);
    if note == Clean && resp.status == OcspUnknown {
      note := UnknownStatus;
    }
    res.Record(Attempt(OCSP, url, note));
    if Determinate(res.status) {
      return true;
    }
    res.verified := false;
    res.thisUpdate, res.nextUpdate := None, None;
    return false;
  }

  lemma AskedOne(w: World, leaf: Subject, issuer: Issuer, i: nat, url: string)
    ensures w.isHttp(url) && w.post(i, url).Ok? && w.parseOcsp(w.post(i, url).value, Some(leaf), Some(issuer)).Ok? ==>
              AskOne(w, leaf, issuer, i, url)
              == Taken(w, Blank(OCSP, []), w.parseOcsp(w.post(i, url).value, Some(leaf), Some(issuer)).value, url)
  {
    assert [] + [Attempt(OCSP, url, Clean)] == [Attempt(OCSP, url, Clean)];
  }

  method CrlScope(crl: RevocationList, cert: Subject) returns (issuerMatch: bool, partial: bool, note: Note)
    ensures issuerMatch == SameIssuer(crl, cert) && note == ScopeNote(crl.extensions) && partial == (note != Clean)
  {
    issuerMatch := cert.rawIssuer == [] || crl.rawIssuer == [] || crl.rawIssuer == cert.rawIssuer;
    partial, note := false, Clean;
    for i := 0 to |crl.extensions|
      invariant note == ScopeNote(crl.extensions[..i]) && partial == (note != Clean)
    {
      assert crl.extensions[..i + 1][..i] == crl.extensions[..i];
      match crl.extensions[i]
      case DeltaIndicator => partial, note := true, DeltaCRL;
      case IssuingDistributionPoint => partial, note := true, PartitionedCRL;
      case OtherExtension =>
    }
    assert crl.extensions[..|crl.extensions|] == crl.extensions;
  }

  method FindListing(entries: seq<CrlEntry>, cert: Subject) returns (entry: Option<CrlEntry>)
    ensures entry == FirstListing(entries, cert)
  {
    for i := 0 to |entries|
      invariant FirstListing(entries[i..], cert) == FirstListing(entries, cert)
    {
      if Lists(entries[i], cert) {
        return Some(entries[i]);
      }
    }
    return None;
  }

  method CheckCRL(w: World, data: Bytes, cert: Option<Subject>, issuer: Option<Issuer>) returns (res: RevocationResult)
    ensures fresh(res) && res.Value() == CrlVerdict(w, data, cert, issuer)
  {
    res := new RevocationResult(CRL);
    if cert == None {
      res.Record(Attempt(CRL, "", NoCertificate));
      return;
    }
    var parsed := w.parseCrl(data);
    if parsed.Err? {
      res.Record(Attempt(CRL, "", Failed(parsed.message)));
      return;
    }
    var crl := parsed.value;
    res.thisUpdate, res.nextUpdate := crl.thisUpdate, crl.nextUpdate;
    res.verified := issuer.Some? && w.crlSigned(crl, issuer.value);
    if issuer.Some? && !res.verified {
      res.Record(Attempt(CRL, "", BadSignature));
      return;
    }
    JudgeCRL(w, res, crl, cert.value);
  }

  /** The second half of `CheckCRL`. */
  method JudgeCRL(w: World, res: RevocationResult, crl: RevocationList, cert: Subject)
    requires res.attempts == [] && res.status == Undetermined
    modifies res
    ensures res.Value() == Judged(w, old(res.Value()), crl, cert)
  {
    var issuerMatch, partial, scopeNote := CrlScope(crl, cert);
    var listing := FindListing(crl.entries, cert);
    if !issuerMatch {
      res.Record(Attempt(CRL, "", OtherIssuer));
      return;
    }
    if listing.Some? {
      res.status := Revoked;
      res.revokedAt, res.reason := listing.value.revokedAt, Some(listing.value.reason);
      var note := res.ApplyStaleness(w.now);
      res.Record(Attempt(CRL, "", note));
      return;
    }
    if partial {
      res.Record(Attempt(CRL, "", scopeNote));
      return;
    }
    res.status := Good;
    var note := res.ApplyStaleness(w.now);
    res.Record(Attempt(CRL, "", note));
  }

  method ResolveCRL(w: World, cert: Subject, issuer: Option<Issuer>, crlFile: string) returns (res: RevocationResult)
    ensures fresh(res) && res.Value() == CrlResolution(w, cert, issuer, crlFile)
  {
    if crlFile != "" {
      var data := w.readFile(crlFile);
      if data.Err? {
        res := new RevocationResult(CRLFile);
        res.Record(Attempt(CRLFile, crlFile, Failed(data.message)));
        return;
      }
      res := CheckCRL(w, data.value, Some(cert), issuer);
      res.RelabelCRL(CRLFile, crlFile);
      return;
    }
    res := new RevocationResult(CRL);
    for i := 0 to |cert.crlPoints|
      invariant fresh(res) && res.Value() == Blank(CRL, res.attempts)
      invariant PointsFrom(w, cert, issuer, i, res.attempts) == CrlResolution(w, cert, issuer, crlFile)
    {
      var u := cert.crlPoints[i];
      var data := w.fetchCrl(i, u);
      if data.Err? {
        res.Record(Attempt(CRL, u, Failed(data.message)));
        continue;
      }
      var r := CheckCRL(w, data.value, Some(cert), issuer);
      r.RelabelCRL(CRL, u);
      res.attempts := res.attempts + r.attempts;
      if Determinate(r.status) {
        r.attempts := res.attempts;
        return r;
      }
    }
  }

  /** `withAttempts`: the winner carries every attempt so far. */
  method WithAttempts(r: RevocationResult, agg: RevocationResult) returns (done: bool)
    requires r != agg
    modifies r, agg
    ensures done == Determinate(old(r.status))
    ensures agg.Value() == old(agg.Value()).(attempts := old(agg.attempts) + old(r.attempts))
    ensures done ==> r.Value() == old(r.Value()).(attempts := agg.attempts)
  {
    agg.attempts := agg.attempts + r.attempts;
    if Determinate(r.status) {
      r.attempts := agg.attempts;
      return true;
    }
    return false;
  }

  method ResolveRevocation(w: World, cert: Option<Subject>, issuer: Option<Issuer>, staple: Bytes, opts: Options)
    returns (res: RevocationResult)
    ensures fresh(res) && res.Value() == Resolution(w, cert, issuer, staple, opts)
  {
    var m := if opts.method_ == Unset then Auto else opts.method_;
    var agg := new RevocationResult(Unset);
    if cert == None {
      agg.Record(Attempt(m, "", NoCertificate));
      return agg;
    }
    if staple != [] && (m == Auto || m == OCSP) {
      var r := CheckOCSPStaple(w, staple, cert, issuer);
      assert [] + r.attempts == r.attempts;
      var done := WithAttempts(r, agg);
      if done {
        return r;
      }
    }
    if (m == Auto || m == OCSP) && cert.value.ocspServers != [] {
      var r := QueryOCSP(w, cert, issuer, cert.value.ocspServers);
      var done := WithAttempts(r, agg);
      if done {
        return r;
      }
    }
    if m == Auto || m == CRL {
      var r := ResolveCRL(w, cert.value, issuer, opts.crlFile);
      var done := WithAttempts(r, agg);
      if done {
        return r;
      }
    }
    return agg;
  }

  // ---------------------------------------------------------------------------------------------
  // What a verdict rests on
  // ---------------------------------------------------------------------------------------------

  /** Resolution is the first determinate one of its sources, tried in the order staple, OCSP, CRL. */
  lemma ResolutionIsFirstDeterminate(w: World, cert: Subject, issuer: Option<Issuer>, staple: Bytes, opts: Options)
    ensures Resolution(w, Some(cert), issuer, staple, opts)
         == FirstDeterminate(Sources(w, cert, issuer, staple, opts), [])
  {
    var m := Effective(opts.method_);
    var second := if TriesOCSP(m, cert) then [OcspVerdict(w, Some(cert), issuer, cert.ocspServers)] else [];
    var third := if TriesCRL(m) then [CrlResolution(w, cert, issuer, opts.crlFile)] else [];
    if TriesStaple(m, staple) {
      var v := StapleVerdict(w, staple, Some(cert), issuer).value;
      FromOcspIsFirst(w, cert, issuer, opts, v.attempts);
      assert ([v] + second + third)[1..] == second + third;
      assert [] + v.attempts == v.attempts;
    } else {
      FromOcspIsFirst(w, cert, issuer, opts, []);
      assert [] + second + third == second + third;
    }
  }

  lemma FromOcspIsFirst(w: World, cert: Subject, issuer: Option<Issuer>, opts: Options, attempts: seq<Attempt>)
    ensures var m := Effective(opts.method_);
            var second := if TriesOCSP(m, cert) then [OcspVerdict(w, Some(cert), issuer, cert.ocspServers)] else [];
            var third := if TriesCRL(m) then [CrlResolution(w, cert, issuer, opts.crlFile)] else [];
            FromOCSP(w, cert, issuer, opts, attempts) == FirstDeterminate(second + third, attempts)
  {
    var m := Effective(opts.method_);
    var third := if TriesCRL(m) then [CrlResolution(w, cert, issuer, opts.crlFile)] else [];
    if TriesOCSP(m, cert) {
      var v := OcspVerdict(w, Some(cert), issuer, cert.ocspServers);
      FromCrlIsFirst(w, cert, issuer, opts, attempts + v.attempts);
      assert ([v] + third)[1..] == third;
    } else {
      FromCrlIsFirst(w, cert, issuer, opts, attempts);
      assert [] + third == third;
    }
  }

  lemma FromCrlIsFirst(w: World, cert: Subject, issuer: Option<Issuer>, opts: Options, attempts: seq<Attempt>)
    ensures var third := if TriesCRL(Effective(opts.method_)) then [CrlResolution(w, cert, issuer, opts.crlFile)]
        else [];
            FromCRL(w, cert, issuer, opts, attempts) == FirstDeterminate(third, attempts)
  {
    if TriesCRL(Effective(opts.method_)) {
      var v := CrlResolution(w, cert, issuer, opts.crlFile);
      assert [v][1..] == [];
    }
  }

  function AllAttempts(sources: seq<Verdict>): seq<Attempt> {
    if sources == [] then [] else sources[0].attempts + AllAttempts(sources[1..])
  }

  /** The winner is the `k`-th source: it is determinate, none before it is, and the attempts are those of
      all sources up to it, in order. */
  predicate WonBy(sources: seq<Verdict>, v: Verdict, k: nat) {
    && k < |sources| && Determinate(sources[k].status)
    && (forall j :: 0 <= j < k ==> !Determinate(sources[j].status))
    && v == sources[k].(attempts := AllAttempts(sources[..k + 1]))
  }

  /** No source decided: nothing is claimed, and every attempt is recorded. */
  predicate Undecided(sources: seq<Verdict>, v: Verdict) {
    (forall j :: 0 <= j < |sources| ==> !Determinate(sources[j].status)) && v == Blank(Unset, AllAttempts(sources))
  }

  lemma {:induction false} FirstDeterminateExact(sources: seq<Verdict>, attempts: seq<Attempt>)
    ensures var v := FirstDeterminate(sources, attempts);
            |attempts| <= |v.attempts| && v.attempts[..|attempts|] == attempts
            && var own := v.(attempts := v.attempts[|attempts|..]);
               Undecided(sources, own) || exists k: nat :: WonBy(sources, own, k)
    decreases |sources|
  {
    if sources == [] {
    } else if Determinate(sources[0].status) {
      assert sources[..1] == [sources[0]] && [sources[0]][1..] == [];
      assert sources[0].attempts + [] == sources[0].attempts;
      WonFirst(sources, attempts);
    } else {
      FirstDeterminateExact(sources[1..], attempts + sources[0].attempts);
      WonLater(sources, attempts, FirstDeterminate(sources, attempts));
    }
  }

  lemma WonFirst(sources: seq<Verdict>, attempts: seq<Attempt>)
    requires sources != [] && Determinate(sources[0].status)
    ensures var v := FirstDeterminate(sources, attempts);
            |attempts| <= |v.attempts| && v.attempts[..|attempts|] == attempts
            && WonBy(sources, v.(attempts := v.attempts[|attempts|..]), 0)
  {
    var v := FirstDeterminate(sources, attempts);
    assert sources[..1] == [sources[0]] && [sources[0]][1..] == [];
    assert sources[0].attempts + [] == sources[0].attempts;
    assert v.attempts[|attempts|..] == sources[0].attempts;
  }

  lemma WonLater(sources: seq<Verdict>, attempts: seq<Attempt>, v: Verdict)
    requires sources != [] && !Determinate(sources[0].status)
    requires var more := attempts + sources[0].attempts;
             |more| <= |v.attempts| && v.attempts[..|more|] == more
             && var own := v.(attempts := v.attempts[|more|..]);
                Undecided(sources[1..], own) || exists k: nat :: WonBy(sources[1..], own, k)
    ensures |attempts| <= |v.attempts| && v.attempts[..|attempts|] == attempts
    ensures var own := v.(attempts := v.attempts[|attempts|..]);
            Undecided(sources, own) || exists k: nat :: WonBy(sources, own, k)
  {
    var first := sources[0].attempts;
    var more := attempts + first;
    var rest := v.attempts[|more|..];
    var own := v.(attempts := v.attempts[|attempts|..]);
    assert v.attempts == attempts + (first + rest) by {
      assert v.attempts == more + rest;
    }
    assert own.attempts == first + rest;
    if Undecided(sources[1..], v.(attempts := rest)) {
      assert forall j :: 0 < j < |sources| ==> sources[j] == sources[1..][j - 1];
      assert Undecided(sources, own);
    } else {
      var k: nat :| WonBy(sources[1..], v.(attempts := rest), k);
      assert forall j :: 0 < j < |sources| ==> sources[j] == sources[1..][j - 1];
      assert sources[..k + 2][1..] == sources[1..][..k + 1] && sources[..k + 2][0] == sources[0];
      assert WonBy(sources, own, k + 1);
    }
  }

  /** Every resolution is decided by its first determinate source, or undecided because it has none. */
  lemma EarlierSourcesWereIndeterminate(w: World, cert: Subject, issuer: Option<Issuer>, staple: Bytes, opts: Options)
    ensures var v := Resolution(w, Some(cert), issuer, staple, opts);
            var sources := Sources(w, cert, issuer, staple, opts);
            Undecided(sources, v) || exists k: nat :: WonBy(sources, v, k)
  {
    ResolutionIsFirstDeterminate(w, cert, issuer, staple, opts);
    var sources := Sources(w, cert, issuer, staple, opts);
    FirstDeterminateExact(sources, []);
    var v := FirstDeterminate(sources, []);
    assert v.attempts[0..] == v.attempts;
    assert v.(attempts := v.attempts) == v;
  }

  // ---------------------------------------------------------------------------------------------
  // What "good" and "revoked" mean
  // ---------------------------------------------------------------------------------------------

  /** Before its nextUpdate, or without one. */
  predicate Fresh(nextUpdate: Option<int>, now: int) {
    nextUpdate == None || now < nextUpdate.value
  }

  /** An OCSP answer with this status; "good" must be fresh. */
  predicate AnswerSays(resp: OcspResponse, now: int, s: Status) {
    match s
    case Good => resp.status == OcspGood && Fresh(resp.nextUpdate, now)
    case Revoked => resp.status == OcspRevoked
    case Undetermined => false
  }

  /** Such an answer that is not about another serial. */
  predicate OcspSays(cert: Subject, resp: OcspResponse, now: int, s: Status) {
    (resp.serial.Some? && cert.serial.Some? ==> resp.serial == cert.serial) && AnswerSays(resp, now, s)
  }

  /** A CRL of the certificate's own issuer, whose signature verifies when the issuer is known: it revokes by
      listing the serial; it says "good" only if it is fresh and complete and omits it (sections 5.2.4, 5.2.5
      and 6.3 of RFC 5280). */
  predicate CrlSays(w: World, cert: Subject, issuer: Option<Issuer>, crl: RevocationList, s: Status) {
    && (crl.rawIssuer == [] || cert.rawIssuer == [] || crl.rawIssuer == cert.rawIssuer)
    && (issuer.Some? ==> w.crlSigned(crl, issuer.value))
    && match s
       case Good =>
         && Fresh(crl.nextUpdate, w.now) && (forall e <- crl.entries :: !IsFor(e, cert))
         && DeltaIndicator !in crl.extensions && IssuingDistributionPoint !in crl.extensions
       case Revoked => exists e <- crl.entries :: IsFor(e, cert)
       case Undetermined => false
  }

  /** The entry has the certificate's serial, and that is known. */
  predicate IsFor(e: CrlEntry, cert: Subject) {
    cert.serial.Some? && e.serial == cert.serial
  }

  /** What backs a verdict: an OCSP answer from the staple or a responder, or a CRL from the file or a
      distribution point. */
  ghost predicate Backed(w: World, cert: Subject, issuer: Option<Issuer>, staple: Bytes, opts: Options, m: Method,
                         s: Status)
  {
    match m
    case StapledOCSP => exists resp :: StapleHolds(w, cert, issuer, staple, resp) && OcspSays(cert, resp, w.now, s)
    case OCSP => exists i: nat, resp :: ResponderSays(w, cert, issuer, i, resp) && OcspSays(cert, resp, w.now, s)
    case CRL => exists i: nat, crl :: PointHolds(w, cert, i, crl) && CrlSays(w, cert, issuer, crl, s)
    case CRLFile => exists crl :: FileHolds(w, opts, crl) && CrlSays(w, cert, issuer, crl, s)
    case Auto => false
    case Unset => false
  }

  predicate StapleHolds(w: World, cert: Subject, issuer: Option<Issuer>, staple: Bytes, resp: OcspResponse) {
    staple != [] && w.parseOcsp(staple, if issuer.Some? then Some(cert) else None, issuer) == Ok(resp)
  }

  predicate ResponderSays(w: World, cert: Subject, issuer: Option<Issuer>, i: nat, resp: OcspResponse) {
    && i < |cert.ocspServers| && issuer.Some?
    && w.isHttp(cert.ocspServers[i]) && w.post(i, cert.ocspServers[i]).Ok?
    && w.parseOcsp(w.post(i, cert.ocspServers[i]).value, Some(cert), issuer) == Ok(resp)
  }

  predicate PointHolds(w: World, cert: Subject, i: nat, crl: RevocationList) {
    i < |cert.crlPoints| && w.fetchCrl(i, cert.crlPoints[i]).Ok?
    && w.parseCrl(w.fetchCrl(i, cert.crlPoints[i]).value) == Ok(crl)
  }

  predicate FileHolds(w: World, opts: Options, crl: RevocationList) {
    opts.crlFile != "" && w.readFile(opts.crlFile).Ok? && w.parseCrl(w.readFile(opts.crlFile).value) == Ok(crl)
  }

  lemma {:induction false} ScopeIsComplete(extensions: seq<CrlExtension>)
    ensures ScopeNote(extensions) == Clean <==>
              DeltaIndicator !in extensions && IssuingDistributionPoint !in extensions
  {
    if extensions != [] {
      var n := |extensions| - 1;
      ScopeIsComplete(extensions[..n]);
      assert extensions == extensions[..n] + [extensions[n]];
    }
  }

  lemma {:induction false} ListingExact(entries: seq<CrlEntry>, cert: Subject)
    ensures FirstListing(entries, cert) == None <==> forall e <- entries :: !IsFor(e, cert)
    ensures FirstListing(entries, cert).Some? ==>
              exists i: nat :: FirstFor(entries, cert, i) && FirstListing(entries, cert).value == entries[i]
  {
    if entries != [] {
      assert entries == [entries[0]] + entries[1..];
      ListingExact(entries[1..], cert);
      if Lists(entries[0], cert) {
        assert FirstFor(entries, cert, 0);
      } else if FirstListing(entries[1..], cert).Some? {
        var i: nat :| FirstFor(entries[1..], cert, i) && FirstListing(entries[1..], cert).value == entries[1..][i];
        FirstForLater(entries, cert, i);
      }
    }
  }

  /** The `i`-th entry is the first for this certificate. */
  predicate FirstFor(entries: seq<CrlEntry>, cert: Subject, i: nat) {
    i < |entries| && IsFor(entries[i], cert) && forall j: nat | j < i :: !IsFor(entries[j], cert)
  }

  lemma FirstForLater(entries: seq<CrlEntry>, cert: Subject, i: nat)
    requires entries != [] && !IsFor(entries[0], cert) && FirstFor(entries[1..], cert, i)
    ensures FirstFor(entries, cert, i + 1)
  {
    forall j: nat | j < i + 1 ensures !IsFor(entries[j], cert) {
      if j > 0 {
        assert entries[j] == entries[1..][j - 1];
      }
    }
  }

  /** The verdict has the CRL's dates, and for a revoked certificate its first entry's. */
  ghost predicate CarriesCrl(v: Verdict, w: World, cert: Subject, issuer: Option<Issuer>, crl: RevocationList) {
    && v.thisUpdate == crl.thisUpdate && v.nextUpdate == crl.nextUpdate
    && (v.verified <==> issuer.Some?)
    && (v.status == Revoked ==>
          exists i: nat :: FirstFor(crl.entries, cert, i) && v.revokedAt == crl.entries[i].revokedAt
                           && v.reason == Some(crl.entries[i].reason))
  }

  /** A CRL gives a verdict exactly when it parses and says so, stale or partial or not. */
  lemma CrlVerdictExact(w: World, data: Bytes, cert: Subject, issuer: Option<Issuer>, s: Status)
    requires Determinate(s)
    ensures CrlVerdict(w, data, Some(cert), issuer).status == s <==>
              w.parseCrl(data).Ok? && CrlSays(w, cert, issuer, w.parseCrl(data).value, s)
    ensures w.parseCrl(data).Ok? ==>
              CrlVerdict(w, data, Some(cert), issuer).nextUpdate == w.parseCrl(data).value.nextUpdate
    ensures CrlVerdict(w, data, Some(cert), issuer).status == s ==>
              CarriesCrl(CrlVerdict(w, data, Some(cert), issuer), w, cert, issuer, w.parseCrl(data).value)
  {
    if w.parseCrl(data).Ok? {
      ScopeIsComplete(w.parseCrl(data).value.extensions);
      ListingExact(w.parseCrl(data).value.entries, cert);
    }
  }

  /** A verdict that claims something, from a source that is backed and, for "good", not stale. */
  ghost predicate Justified(w: World, cert: Subject, issuer: Option<Issuer>, staple: Bytes, opts: Options, v: Verdict) {
    Determinate(v.status) ==>
      Backed(w, cert, issuer, staple, opts, v.method_, v.status) && (v.status == Good ==> Fresh(v.nextUpdate, w.now))
  }

  lemma StapleJustified(w: World, cert: Subject, issuer: Option<Issuer>, staple: Bytes, opts: Options)
    requires staple != []
    ensures Justified(w, cert, issuer, staple, opts, StapleVerdict(w, staple, Some(cert), issuer).value)
  {
    var v := StapleVerdict(w, staple, Some(cert), issuer).value;
    if Determinate(v.status) {
      var resp := w.parseOcsp(staple, if issuer.Some? then Some(cert) else None, issuer).value;
      assert StapleHolds(w, cert, issuer, staple, resp) && OcspSays(cert, resp, w.now, v.status);
    }
  }

  lemma OneJustified(w: World, cert: Subject, issuer: Issuer, staple: Bytes, opts: Options, i: nat)
    requires MatchesSerial(w) && i < |cert.ocspServers|
    ensures Justified(w, cert, Some(issuer), staple, opts, AskOne(w, cert, issuer, i, cert.ocspServers[i]))
  {
    var v := AskOne(w, cert, issuer, i, cert.ocspServers[i]);
    if Determinate(v.status) {
      var resp := w.parseOcsp(w.post(i, cert.ocspServers[i]).value, Some(cert), Some(issuer)).value;
      assert ResponderSays(w, cert, Some(issuer), i, resp) && OcspSays(cert, resp, w.now, v.status);
    }
  }

  lemma {:induction false} AskFromJustified(w: World, cert: Subject, issuer: Issuer, staple: Bytes, opts: Options,
                                            i: nat, attempts: seq<Attempt>)
    requires MatchesSerial(w)
    ensures Justified(w, cert, Some(issuer), staple, opts, AskFrom(w, cert, issuer, cert.ocspServers, i, attempts))
    decreases |cert.ocspServers| - i
  {
    if i < |cert.ocspServers| {
      OneJustified(w, cert, issuer, staple, opts, i);
      var v := AskOne(w, cert, issuer, i, cert.ocspServers[i]);
      if !Determinate(v.status) {
        AskFromJustified(w, cert, issuer, staple, opts, i + 1, attempts + v.attempts);
      }
    }
  }

  lemma PointJustified(w: World, cert: Subject, issuer: Option<Issuer>, staple: Bytes, opts: Options, i: nat)
    requires i < |cert.crlPoints| && w.fetchCrl(i, cert.crlPoints[i]).Ok?
    ensures Justified(w, cert, issuer, staple, opts,
                      Relabel(CrlVerdict(w, w.fetchCrl(i, cert.crlPoints[i]).value, Some(cert), issuer), CRL,
                              cert.crlPoints[i]))
  {
    var data := w.fetchCrl(i, cert.crlPoints[i]).value;
    var v := CrlVerdict(w, data, Some(cert), issuer);
    if Determinate(v.status) {
      CrlVerdictExact(w, data, cert, issuer, v.status);
      assert PointHolds(w, cert, i, w.parseCrl(data).value);
    }
  }

  lemma {:induction false} PointsJustified(w: World, cert: Subject, issuer: Option<Issuer>, staple: Bytes,
                                           opts: Options, i: nat, attempts: seq<Attempt>)
    ensures Justified(w, cert, issuer, staple, opts, PointsFrom(w, cert, issuer, i, attempts))
    decreases |cert.crlPoints| - i
  {
    if i < |cert.crlPoints| {
      var url := cert.crlPoints[i];
      var data := w.fetchCrl(i, url);
      if data.Err? {
        PointsJustified(w, cert, issuer, staple, opts, i + 1, attempts + [Attempt(CRL, url, Failed(data.message))]);
      } else {
        var v := Relabel(CrlVerdict(w, data.value, Some(cert), issuer), CRL, url);
        PointJustified(w, cert, issuer, staple, opts, i);
        if !Determinate(v.status) {
          PointsJustified(w, cert, issuer, staple, opts, i + 1, attempts + v.attempts);
        }
      }
    }
  }

  lemma CrlResolutionJustified(w: World, cert: Subject, issuer: Option<Issuer>, staple: Bytes, opts: Options)
    ensures Justified(w, cert, issuer, staple, opts, CrlResolution(w, cert, issuer, opts.crlFile))
  {
    if opts.crlFile == "" {
      PointsJustified(w, cert, issuer, staple, opts, 0, []);
    } else if w.readFile(opts.crlFile).Ok? {
      var data := w.readFile(opts.crlFile).value;
      var v := CrlVerdict(w, data, Some(cert), issuer);
      if Determinate(v.status) {
        CrlVerdictExact(w, data, cert, issuer, v.status);
        assert FileHolds(w, opts, w.parseCrl(data).value);
      }
    }
  }

  lemma SourcesJustified(w: World, cert: Subject, issuer: Option<Issuer>, staple: Bytes, opts: Options, s: Verdict)
    requires MatchesSerial(w) && s in Sources(w, cert, issuer, staple, opts)
    ensures Justified(w, cert, issuer, staple, opts, s)
  {
    if staple != [] && Some(s) == StapleVerdict(w, staple, Some(cert), issuer) {
      StapleJustified(w, cert, issuer, staple, opts);
    } else if s == OcspVerdict(w, Some(cert), issuer, cert.ocspServers) {
      if issuer.Some? {
        AskFromJustified(w, cert, issuer.value, staple, opts, 0, []);
      }
    } else {
      CrlResolutionJustified(w, cert, issuer, staple, opts);
    }
  }

  /** Every verdict is backed. "Good" rests on a source not past its nextUpdate: an OCSP "good" for this
      serial, or a complete CRL of the same issuer that omits it. "Revoked" rests on an OCSP "revoked" for this
      serial or on such a CRL that lists it. */
  lemma VerdictIsBacked(w: World, cert: Subject, issuer: Option<Issuer>, staple: Bytes, opts: Options)
    requires MatchesSerial(w)
    ensures Justified(w, cert, issuer, staple, opts, Resolution(w, Some(cert), issuer, staple, opts))
  {
    EarlierSourcesWereIndeterminate(w, cert, issuer, staple, opts);
    var v := Resolution(w, Some(cert), issuer, staple, opts);
    var sources := Sources(w, cert, issuer, staple, opts);
    if Determinate(v.status) {
      var k: nat :| WonBy(sources, v, k);
      SourcesJustified(w, cert, issuer, staple, opts, sources[k]);
    }
  }

  // ---------------------------------------------------------------------------------------------
  // Exactly when a source, and a resolution, decides
  // ---------------------------------------------------------------------------------------------

  /** The verdict has the answer's dates, and for a revoked certificate its time and reason; it counts as verified
      when the issuer is known and signed the answer itself or through a responder allowed to. */
  predicate CarriesAnswer(v: Verdict, issuer: Option<Issuer>, resp: OcspResponse) {
    && v.thisUpdate == resp.thisUpdate && v.nextUpdate == resp.nextUpdate
    && (v.verified <==> issuer.Some? && resp.responderEKU != Some(false))
    && (v.status == Revoked ==> v.revokedAt == resp.revokedAt && v.reason == Some(resp.reason))
  }

  /** The staple is read for this certificate when the issuer is known, and at all otherwise. */
  predicate StapleSays(w: World, cert: Subject, issuer: Option<Issuer>, staple: Bytes, s: Status) {
    var parsed := w.parseOcsp(staple, if issuer.Some? then Some(cert) else None, issuer);
    staple != [] && parsed.Ok? && OcspSays(cert, parsed.value, w.now, s)
  }

  lemma StapleExactly(w: World, cert: Subject, issuer: Option<Issuer>, staple: Bytes, s: Status)
    requires staple != [] && s != Undetermined
    ensures var v := StapleVerdict(w, staple, Some(cert), issuer).value;
            && v.method_ == StapledOCSP && (v.status == s <==> StapleSays(w, cert, issuer, staple, s))
            && (v.status == s ==>
                  CarriesAnswer(v, issuer,
                                w.parseOcsp(staple, if issuer.Some? then Some(cert) else None, issuer).value))
  {}

  /** The responder at URL `k` is asked, answers and says so. */
  predicate ResponderAnswers(w: World, leaf: Subject, issuer: Issuer, urls: seq<string>, k: nat, s: Status) {
    && k < |urls| && w.isHttp(urls[k]) && w.post(k, urls[k]).Ok?
    && var parsed := w.parseOcsp(w.post(k, urls[k]).value, Some(leaf), Some(issuer));
       parsed.Ok? && AnswerSays(parsed.value, w.now, s)
  }

  predicate FirstAnswer(w: World, leaf: Subject, issuer: Issuer, urls: seq<string>, from: nat, k: nat, s: Status) {
    && from <= k && ResponderAnswers(w, leaf, issuer, urls, k, s)
    && forall j: nat | from <= j < k ::
         !ResponderAnswers(w, leaf, issuer, urls, j, Good) && !ResponderAnswers(w, leaf, issuer, urls, j, Revoked)
  }

  lemma OneExactly(w: World, leaf: Subject, issuer: Issuer, urls: seq<string>, k: nat, s: Status)
    requires k < |urls| && s != Undetermined
    ensures var v := AskOne(w, leaf, issuer, k, urls[k]);
            && v.method_ == OCSP && (v.status == s <==> ResponderAnswers(w, leaf, issuer, urls, k, s))
            && (v.status == s ==>
                  CarriesAnswer(v, Some(issuer),
                                w.parseOcsp(w.post(k, urls[k]).value, Some(leaf), Some(issuer)).value))
  {}

  predicate DecidedBy(w: World, leaf: Subject, issuer: Issuer, urls: seq<string>, from: nat, k: nat, v: Verdict) {
    && FirstAnswer(w, leaf, issuer, urls, from, k, v.status)
    && CarriesAnswer(v, Some(issuer), w.parseOcsp(w.post(k, urls[k]).value, Some(leaf), Some(issuer)).value)
  }

  /** The first responder with a determinate answer decides, and no other. */
  lemma {:induction false} AskFromExactly(w: World, leaf: Subject, issuer: Issuer, urls: seq<string>, i: nat,
                                          attempts: seq<Attempt>, s: Status)
    requires s != Undetermined
    ensures var v := AskFrom(w, leaf, issuer, urls, i, attempts);
            && v.method_ == OCSP
            && (v.status == s <==> exists k: nat :: FirstAnswer(w, leaf, issuer, urls, i, k, s))
            && (v.status == s ==> exists k: nat :: DecidedBy(w, leaf, issuer, urls, i, k, v))
    decreases |urls| - i
  {
    if i < |urls| {
      var v := AskOne(w, leaf, issuer, i, urls[i]);
      OneExactly(w, leaf, issuer, urls, i, Good);
      OneExactly(w, leaf, issuer, urls, i, Revoked);
      var all := AskFrom(w, leaf, issuer, urls, i, attempts);
      if Determinate(v.status) {
        assert FirstAnswer(w, leaf, issuer, urls, i, i, v.status);
        assert DecidedBy(w, leaf, issuer, urls, i, i, all);
        FirstAnswerIsOne(w, leaf, issuer, urls, i, v.status);
      } else {
        AskFromExactly(w, leaf, issuer, urls, i + 1, attempts + v.attempts, s);
        FirstAnswerIsLater(w, leaf, issuer, urls, i, s);
        if all.status == s {
          var k: nat :| DecidedBy(w, leaf, issuer, urls, i + 1, k, all);
          assert DecidedBy(w, leaf, issuer, urls, i, k, all);
        }
      }
    }
  }

  lemma FirstAnswerIsOne(w: World, leaf: Subject, issuer: Issuer, urls: seq<string>, i: nat, s: Status)
    requires s != Undetermined && ResponderAnswers(w, leaf, issuer, urls, i, s)
    ensures forall k: nat, t :: FirstAnswer(w, leaf, issuer, urls, i, k, t) ==> k == i && t == s
  {
    if s == Good {} else {}
  }

  lemma FirstAnswerIsLater(w: World, leaf: Subject, issuer: Issuer, urls: seq<string>, i: nat, s: Status)
    requires !ResponderAnswers(w, leaf, issuer, urls, i, Good) && !ResponderAnswers(w, leaf, issuer, urls, i, Revoked)
    requires s != Undetermined
    ensures forall k: nat :: FirstAnswer(w, leaf, issuer, urls, i, k, s) <==>
                               FirstAnswer(w, leaf, issuer, urls, i + 1, k, s)
  {
    forall k: nat
      ensures FirstAnswer(w, leaf, issuer, urls, i, k, s) <==> FirstAnswer(w, leaf, issuer, urls, i + 1, k, s)
    {
      if FirstAnswer(w, leaf, issuer, urls, i, k, s) {
        assert k != i;
      }
    }
  }

  /** The distribution point `k` is fetched, parses and says so. */
  predicate PointSays(w: World, cert: Subject, issuer: Option<Issuer>, k: nat, s: Status) {
    && k < |cert.crlPoints| && w.fetchCrl(k, cert.crlPoints[k]).Ok?
    && var parsed := w.parseCrl(w.fetchCrl(k, cert.crlPoints[k]).value);
       parsed.Ok? && CrlSays(w, cert, issuer, parsed.value, s)
  }

  predicate FirstPoint(w: World, cert: Subject, issuer: Option<Issuer>, from: nat, k: nat, s: Status) {
    && from <= k && PointSays(w, cert, issuer, k, s)
    && forall j: nat | from <= j < k :: !PointSays(w, cert, issuer, j, Good) && !PointSays(w, cert, issuer, j, Revoked)
  }

  lemma FirstPointIsLater(w: World, cert: Subject, issuer: Option<Issuer>, i: nat, s: Status)
    requires !PointSays(w, cert, issuer, i, Good) && !PointSays(w, cert, issuer, i, Revoked) && s != Undetermined
    ensures forall k: nat :: FirstPoint(w, cert, issuer, i, k, s) <==> FirstPoint(w, cert, issuer, i + 1, k, s)
  {
    forall k: nat ensures FirstPoint(w, cert, issuer, i, k, s) <==> FirstPoint(w, cert, issuer, i + 1, k, s) {
      if FirstPoint(w, cert, issuer, i, k, s) {
        assert k != i;
      }
    }
  }

  lemma FirstPointIsOne(w: World, cert: Subject, issuer: Option<Issuer>, i: nat, s: Status)
    requires s != Undetermined && PointSays(w, cert, issuer, i, s)
    ensures forall k: nat, t :: FirstPoint(w, cert, issuer, i, k, t) ==> k == i
  {
    if s == Good {} else {}
  }

  ghost predicate PointDecides(w: World, cert: Subject, issuer: Option<Issuer>, from: nat, k: nat, v: Verdict) {
    && FirstPoint(w, cert, issuer, from, k, v.status)
    && CarriesCrl(v, w, cert, issuer, w.parseCrl(w.fetchCrl(k, cert.crlPoints[k]).value).value)
  }

  lemma OnePointExactly(w: World, cert: Subject, issuer: Option<Issuer>, i: nat, s: Status)
    requires i < |cert.crlPoints| && w.fetchCrl(i, cert.crlPoints[i]).Ok? && s != Undetermined
    ensures var v := CrlVerdict(w, w.fetchCrl(i, cert.crlPoints[i]).value, Some(cert), issuer);
            && (v.status == s <==> PointSays(w, cert, issuer, i, s))
            && (v.status == s ==>
                  CarriesCrl(v, w, cert, issuer, w.parseCrl(w.fetchCrl(i, cert.crlPoints[i]).value).value))
  {
    CrlVerdictExact(w, w.fetchCrl(i, cert.crlPoints[i]).value, cert, issuer, s);
  }

  /** The first distribution point with a determinate CRL decides, and no other. */
  lemma {:induction false} PointsExactly(w: World, cert: Subject, issuer: Option<Issuer>, i: nat,
                                         attempts: seq<Attempt>, s: Status)
    requires s != Undetermined
    ensures var v := PointsFrom(w, cert, issuer, i, attempts);
            && v.method_ == CRL && (v.status == s <==> exists k: nat :: FirstPoint(w, cert, issuer, i, k, s))
            && (v.status == s ==> exists k: nat :: PointDecides(w, cert, issuer, i, k, v))
    decreases |cert.crlPoints| - i, 1
  {
    if i < |cert.crlPoints| {
      var url := cert.crlPoints[i];
      var data := w.fetchCrl(i, url);
      if data.Err? {
        LaterPoints(w, cert, issuer, i, attempts + [Attempt(CRL, url, Failed(data.message))], s);
      } else {
        var v := Relabel(CrlVerdict(w, data.value, Some(cert), issuer), CRL, url);
        OnePointExactly(w, cert, issuer, i, Good);
        OnePointExactly(w, cert, issuer, i, Revoked);
        if Determinate(v.status) {
          assert FirstPoint(w, cert, issuer, i, i, v.status);
          assert PointDecides(w, cert, issuer, i, i, PointsFrom(w, cert, issuer, i, attempts));
          FirstPointIsOne(w, cert, issuer, i, v.status);
          OnePointSays(w, cert, issuer, i);
        } else {
          LaterPoints(w, cert, issuer, i, attempts + v.attempts, s);
        }
      }
    }
  }

  lemma LaterPoints(w: World, cert: Subject, issuer: Option<Issuer>, i: nat, attempts: seq<Attempt>, s: Status)
    requires s != Undetermined && i < |cert.crlPoints|
    requires !PointSays(w, cert, issuer, i, Good) && !PointSays(w, cert, issuer, i, Revoked)
    ensures var v := PointsFrom(w, cert, issuer, i + 1, attempts);
            && v.method_ == CRL && (v.status == s <==> exists k: nat :: FirstPoint(w, cert, issuer, i, k, s))
            && (v.status == s ==> exists k: nat :: PointDecides(w, cert, issuer, i, k, v))
    decreases |cert.crlPoints| - i, 0
  {
    var v := PointsFrom(w, cert, issuer, i + 1, attempts);
    PointsExactly(w, cert, issuer, i + 1, attempts, s);
    FirstPointIsLater(w, cert, issuer, i, s);
    if v.status == s {
      var k: nat :| PointDecides(w, cert, issuer, i + 1, k, v);
      assert PointDecides(w, cert, issuer, i, k, v);
    }
  }

  /** A CRL does not say two things at once. */
  lemma OnePointSays(w: World, cert: Subject, issuer: Option<Issuer>, i: nat)
    ensures !(PointSays(w, cert, issuer, i, Good) && PointSays(w, cert, issuer, i, Revoked))
  {}

  /** A staple is looked at when one was sent and the method is automatic or OCSP. */
  predicate StapleDecides(w: World, cert: Subject, issuer: Option<Issuer>, staple: Bytes, opts: Options, s: Status) {
    (opts.method_ == Unset || opts.method_ == Auto || opts.method_ == OCSP) && StapleSays(w, cert, issuer, staple, s)
  }

  /** The responders are asked by the same methods, when the issuer is known and a request can be made. */
  ghost predicate OcspDecides(w: World, cert: Subject, issuer: Option<Issuer>, opts: Options, s: Status) {
    && (opts.method_ == Unset || opts.method_ == Auto || opts.method_ == OCSP)
    && issuer.Some? && w.createRequest(cert, issuer.value).Ok?
    && exists k: nat :: FirstAnswer(w, cert, issuer.value, cert.ocspServers, 0, k, s)
  }

  /** A CRL is looked at by the automatic and the CRL method: the given file, or else the distribution points. */
  ghost predicate CrlDecides(w: World, cert: Subject, issuer: Option<Issuer>, opts: Options, s: Status) {
    && (opts.method_ == Unset || opts.method_ == Auto || opts.method_ == CRL)
    && if opts.crlFile != "" then
         var data := w.readFile(opts.crlFile);
         data.Ok? && w.parseCrl(data.value).Ok? && CrlSays(w, cert, issuer, w.parseCrl(data.value).value, s)
       else exists k: nat :: FirstPoint(w, cert, issuer, 0, k, s)
  }

  ghost predicate StapleSilent(w: World, cert: Subject, issuer: Option<Issuer>, staple: Bytes, opts: Options) {
    !StapleDecides(w, cert, issuer, staple, opts, Good) && !StapleDecides(w, cert, issuer, staple, opts, Revoked)
  }

  ghost predicate OcspSilent(w: World, cert: Subject, issuer: Option<Issuer>, opts: Options) {
    !OcspDecides(w, cert, issuer, opts, Good) && !OcspDecides(w, cert, issuer, opts, Revoked)
  }

  lemma OcspVerdictExactly(w: World, cert: Subject, issuer: Option<Issuer>, opts: Options, s: Status)
    requires s != Undetermined
    ensures var tries := TriesOCSP(Effective(opts.method_), cert);
            OcspDecides(w, cert, issuer, opts, s) <==>
              tries && OcspVerdict(w, Some(cert), issuer, cert.ocspServers).status == s
  {
    if issuer.Some? {
      AskFromExactly(w, cert, issuer.value, cert.ocspServers, 0, [], s);
    }
  }

  lemma CrlResolutionExactly(w: World, cert: Subject, issuer: Option<Issuer>, opts: Options, s: Status)
    requires s != Undetermined
    ensures CrlDecides(w, cert, issuer, opts, s) <==>
              TriesCRL(Effective(opts.method_)) && CrlResolution(w, cert, issuer, opts.crlFile).status == s
  {
    if opts.crlFile == "" {
      PointsExactly(w, cert, issuer, 0, [], s);
    } else if w.readFile(opts.crlFile).Ok? {
      CrlVerdictExact(w, w.readFile(opts.crlFile).value, cert, issuer, s);
    }
  }

  /** A resolution says "good" or "revoked" exactly when its first source that says either says so: the staple, then
      the first responder, then the CRL. Nothing revoked is passed over, and no later source overrides. */
  lemma ResolvedExactly(w: World, cert: Subject, issuer: Option<Issuer>, staple: Bytes, opts: Options, s: Status)
    requires s != Undetermined
    ensures Resolution(w, Some(cert), issuer, staple, opts).status == s <==>
              || StapleDecides(w, cert, issuer, staple, opts, s)
              || (StapleSilent(w, cert, issuer, staple, opts)
                  && (OcspDecides(w, cert, issuer, opts, s)
                      || (OcspSilent(w, cert, issuer, opts) && CrlDecides(w, cert, issuer, opts, s))))
  {
    StapleIsTried(w, cert, issuer, staple, opts);
    RestExactly(w, cert, issuer, opts, if TriesStaple(Effective(opts.method_), staple)
        then StapleVerdict(w, staple, Some(cert), issuer).value.attempts else [], s);
  }

  lemma StapleIsTried(w: World, cert: Subject, issuer: Option<Issuer>, staple: Bytes, opts: Options)
    ensures forall s :: s != Undetermined ==>
              (StapleDecides(w, cert, issuer, staple, opts, s) <==>
               TriesStaple(Effective(opts.method_), staple)
               && StapleVerdict(w, staple, Some(cert), issuer).value.status == s)
  {
    if staple != [] {
      StapleExactly(w, cert, issuer, staple, Good);
      StapleExactly(w, cert, issuer, staple, Revoked);
    }
  }

  lemma RestExactly(w: World, cert: Subject, issuer: Option<Issuer>, opts: Options, attempts: seq<Attempt>, s: Status)
    requires s != Undetermined
    ensures FromOCSP(w, cert, issuer, opts, attempts).status == s <==>
              OcspDecides(w, cert, issuer, opts, s)
              || (OcspSilent(w, cert, issuer, opts) && CrlDecides(w, cert, issuer, opts, s))
  {
    OcspVerdictExactly(w, cert, issuer, opts, Good);
    OcspVerdictExactly(w, cert, issuer, opts, Revoked);
    CrlResolutionExactly(w, cert, issuer, opts, s);
  }
}
