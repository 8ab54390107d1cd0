/** Chasing CA Issuers URLs (`ChaseAIA`): a bounded breadth-first search over certificates, with
    URLs and certificates each taken once. */
module AiaChase {
  import opened CertTypes
  import opened Sequences

  const DEFAULT_DEPTH := 5

  datatype Fetched = Fetched(cert: Cert, url: string, cached: bool, forCert: Cert)

  datatype Failure = Failure(url: string, forCert: Cert, reason: string)

  datatype Answer = Served(certs: seq<Cert>) | Unreachable(reason: string)

  /** The outside: what each URL serves, and what the cache, if any, would answer for it. The cache
      may hold anything at all. */
  datatype Net = Net(fetch: string -> Answer, cached: string -> Option<Cert>)

  datatype Resolution = Found(found: seq<Fetched>) | Failed(failure: Failure)

  function Signers(certs: seq<Cert>, url: string, requester: Cert, signs: SignatureCheck): seq<Fetched> {
    if certs == [] then []
    else
      var last := certs[|certs| - 1];
      var before := Signers(certs[..|certs| - 1], url, requester, signs);
      if signs(requester, last) then before + [Fetched(last, url, false, requester)] else before
  }

  /** What one URL yields for the certificate that named it. */
  function Resolve(net: Net, url: string, requester: Cert, signs: SignatureCheck): Resolution {
    if net.cached(url).Some? && signs(requester, net.cached(url).value)
        then Found([Fetched(net.cached(url).value, url, true, requester)])
    else
      match net.fetch(url)
      case Unreachable(reason) => Failed(Failure(url, requester, reason))
      case Served(certs) =>
        if certs == [] then Failed(Failure(url, requester, "no certificate in response"))
        else if Signers(certs, url, requester, signs) == []
            then Failed(Failure(url, requester, "signature does not verify"))
        else Found(Signers(certs, url, requester, signs))
  }

  /** The cache answers: with a certificate that signed the requester. */
  predicate CacheAnswers(net: Net, url: string, requester: Cert, signs: SignatureCheck) {
    net.cached(url).Some? && signs(requester, net.cached(url).value)
  }

  predicate SignerServed(certs: seq<Cert>, requester: Cert, signs: SignatureCheck) {
    exists c <- certs :: signs(requester, c)
  }

  /** `found` is exactly the served certificates that signed the requester, at the positions `at`, in served order. */
  ghost predicate PicksSigners(certs: seq<Cert>, url: string, requester: Cert, signs: SignatureCheck,
                               found: seq<Fetched>, at: seq<nat>)
  {
    && |at| == |found| && (forall i, j :: 0 <= i < j < |at| ==> at[i] < at[j])
    && (forall i :: 0 <= i < |at| ==>
          at[i] < |certs| && signs(requester, certs[at[i]])
          && found[i] == Fetched(certs[at[i]], url, false, requester))
    && (forall p: nat | p < |certs| && signs(requester, certs[p]) :: p in at)
  }

  /** What one URL yields: the cached certificate when it signed the requester; otherwise every served certificate
      that did, and a failure when nothing was served or none did. */
  ghost predicate Yields(net: Net, url: string, requester: Cert, signs: SignatureCheck, r: Resolution) {
    if CacheAnswers(net, url, requester, signs) then
      r == Found([Fetched(net.cached(url).value, url, true, requester)])
    else
      match net.fetch(url)
      case Unreachable(reason) => r == Failed(Failure(url, requester, reason))
      case Served(certs) =>
        if SignerServed(certs, requester, signs) then
          r.Found? && exists at :: PicksSigners(certs, url, requester, signs, r.found, at)
        else
          && r.Failed? && r.failure.url == url && r.failure.forCert == requester
          && r.failure.reason == if certs == [] then "no certificate in response" else "signature does not verify"
  }

  lemma {:induction false} SignersPicked(certs: seq<Cert>, url: string, requester: Cert, signs: SignatureCheck)
    returns (at: seq<nat>)
    ensures PicksSigners(certs, url, requester, signs, Signers(certs, url, requester, signs), at)
    ensures Signers(certs, url, requester, signs) == [] <==> !SignerServed(certs, requester, signs)
  {
    if certs == [] {
      at := [];
    } else {
      var n := |certs| - 1;
      at := SignersPicked(certs[..n], url, requester, signs);
      assert certs == certs[..n] + [certs[n]];
      if signs(requester, certs[n]) {
        PickedOneMore(certs[..n], certs[n], url, requester, signs, Signers(certs[..n], url, requester, signs), at);
        at := at + [n];
      } else {
        NotPicked(certs[..n], certs[n], url, requester, signs, Signers(certs[..n], url, requester, signs), at);
      }
    }
  }

  lemma PickedOneMore(certs: seq<Cert>, c: Cert, url: string, requester: Cert, signs: SignatureCheck,
                      found: seq<Fetched>, at: seq<nat>)
    requires PicksSigners(certs, url, requester, signs, found, at) && signs(requester, c)
    ensures PicksSigners(certs + [c], url, requester, signs, found + [Fetched(c, url, false, requester)],
                         at + [|certs|])
    ensures SignerServed(certs + [c], requester, signs)
  {
    assert c in certs + [c];
    assert forall p: nat | p < |certs| :: (certs + [c])[p] == certs[p];
  }

  lemma NotPicked(certs: seq<Cert>, c: Cert, url: string, requester: Cert, signs: SignatureCheck,
                  found: seq<Fetched>, at: seq<nat>)
    requires PicksSigners(certs, url, requester, signs, found, at) && !signs(requester, c)
    ensures PicksSigners(certs + [c], url, requester, signs, found, at)
    ensures SignerServed(certs + [c], requester, signs) <==> SignerServed(certs, requester, signs)
  {
    assert forall p: nat | p < |certs| :: (certs + [c])[p] == certs[p];
    if d :| d in certs && signs(requester, d) {
      assert d in certs + [c];
    }
  }

  lemma ResolveYields(net: Net, url: string, requester: Cert, signs: SignatureCheck)
    ensures Yields(net, url, requester, signs, Resolve(net, url, requester, signs))
  {
    match net.fetch(url) {
      case Served(certs) => var at := SignersPicked(certs, url, requester, signs);
      case _ =>
    }
  }

  /** The loop over the served certificates: keeps, and puts into the cache, those that signed the requester. */
  method KeepSigners(certs: seq<Cert>, url: string, requester: Cert, signs: SignatureCheck)
    returns (out: seq<Fetched>, puts: seq<Fetched>)
    ensures out == puts == Signers(certs, url, requester, signs)
  {
    out, puts := [], [];
    for i := 0 to |certs|
      invariant out == puts == Signers(certs[..i], url, requester, signs)
    {
      assert certs[..i + 1][..i] == certs[..i];
      if signs(requester, certs[i]) {
        out := out + [Fetched(certs[i], url, false, requester)];
        puts := puts + [Fetched(certs[i], url, false, requester)];
      }
    }
    assert certs[..|certs|] == certs;
  }

  method ResolveAIAURL(net: Net, url: string, requester: Cert, signs: SignatureCheck)
    returns (r: Resolution, puts: seq<Fetched>)
    ensures r == Resolve(net, url, requester, signs) && Yields(net, url, requester, signs, r)
    ensures puts == if CacheAnswers(net, url, requester, signs) || r.Failed? then [] else r.found
  {
    ResolveYields(net, url, requester, signs);
    var hit := net.cached(url);
    if hit.Some? && signs(requester, hit.value) {
      return Found([Fetched(hit.value, url, true, requester)]), [];
    }
    var answer := net.fetch(url);
    if answer.Unreachable? {
      return Failed(Failure(url, requester, answer.reason)), [];
    }
    if |answer.certs| == 0 {
      return Failed(Failure(url, requester, "no certificate in response")), [];
    }
    var out;
    out, puts := KeepSigners(answer.certs, url, requester, signs);
    if |out| == 0 {
      return Failed(Failure(url, requester, "signature does not verify")), [];
    }
    r := Found(out);
  }

  lemma {:induction false} SignersExact(certs: seq<Cert>, url: string, requester: Cert, signs: SignatureCheck)
    ensures forall f <- Signers(certs, url, requester, signs) ::
              f.url == url && f.forCert == requester && signs(requester, f.cert) && f.cert in certs
    ensures forall c <- certs :: signs(requester, c) ==>
        Fetched(c, url, false, requester) in Signers(certs, url, requester, signs)
  {
    if certs != [] {
      SignersExact(certs[..|certs| - 1], url, requester, signs);
      assert certs == certs[..|certs| - 1] + [certs[|certs| - 1]];
    }
  }

  // ---------------------------------------------------------------------------------------------
  // The state of a chase
  // ---------------------------------------------------------------------------------------------

  datatype Try = Try(url: string, requester: Cert)

  /** `tried` is the trace of resolutions, one per call of the fetcher or the cache. */
  datatype State = State(seenURL: set<string>, seenCert: set<Bytes>, fetched: seq<Fetched>, failures: seq<Failure>,
                         tried: seq<Try>)

  type Inputs = seq<Option<Cert>>

  function InputRaws(inputs: Inputs): set<Bytes> {
    set c | c in inputs && c.Some? :: c.value.raw
  }

  function FetchedRaws(fetched: seq<Fetched>): set<Bytes> {
    set f | f in fetched :: f.cert.raw
  }

  function TriedURLs(tried: seq<Try>): set<string> {
    set t | t in tried :: t.url
  }

  /** Fetched certificates are new: pairwise different, and none was an input. */
  predicate AllNew(inputs: Inputs, fetched: seq<Fetched>) {
    && (forall i, j :: 0 <= i < j < |fetched| ==> fetched[i].cert.raw != fetched[j].cert.raw)
    && FetchedRaws(fetched) !! InputRaws(inputs)
  }

  /** A resolution is accounted for: its failure is reported, or each certificate it found is known. */
  predicate Accounted(s: State, t: Try, net: Net, signs: SignatureCheck) {
    match Resolve(net, t.url, t.requester, signs)
    case Failed(failure) => failure in s.failures
    case Found(found) => forall f <- found :: f.cert.raw in s.seenCert
  }

  predicate FromATry(tried: seq<Try>, f: Fetched, net: Net, signs: SignatureCheck) {
    && Try(f.url, f.forCert) in tried
    && Resolve(net, f.url, f.forCert, signs).Found? && f in Resolve(net, f.url, f.forCert, signs).found
  }

  ghost predicate Sound(inputs: Inputs, s: State, net: Net, signs: SignatureCheck) {
    && (forall i, j :: 0 <= i < j < |s.tried| ==> s.tried[i].url != s.tried[j].url)
    && s.seenURL == TriedURLs(s.tried)
    && CertsInStep(inputs, s)
    && (forall t <- s.tried :: Accounted(s, t, net, signs))
    && (forall f <- s.fetched :: FromATry(s.tried, f, net, signs))
  }

  /** Every fetched certificate, cached or not, signed the certificate it was fetched for. */
  lemma FetchedReallySigned(tried: seq<Try>, f: Fetched, net: Net, signs: SignatureCheck)
    requires FromATry(tried, f, net, signs)
    ensures signs(f.forCert, f.cert)
  {
    match net.fetch(f.url) {
      case Served(certs) => SignersExact(certs, f.url, f.forCert, signs);
      case _ =>
    }
  }

  /** Everything one try yields is known, or its failure is reported. */
  ghost predicate NothingDropped(inputs: Inputs, s: State, t: Try, net: Net, signs: SignatureCheck) {
    if CacheAnswers(net, t.url, t.requester, signs) then
      Known(inputs, s, net.cached(t.url).value)
    else
      match net.fetch(t.url)
      case Unreachable(reason) => Failure(t.url, t.requester, reason) in s.failures
      case Served(certs) =>
        && (forall c <- certs :: signs(t.requester, c) ==> Known(inputs, s, c))
        && (SignerServed(certs, t.requester, signs)
            || exists f <- s.failures :: f.url == t.url && f.forCert == t.requester)
  }

  /** The certificate's bytes are an input's or were fetched. */
  predicate Known(inputs: Inputs, s: State, c: Cert) {
    (exists i <- inputs :: i.Some? && i.value.raw == c.raw) || exists f <- s.fetched :: f.cert.raw == c.raw
  }

  lemma SeenIsKnown(inputs: Inputs, s: State, c: Cert)
    requires CertsInStep(inputs, s) && c.raw in s.seenCert
    ensures Known(inputs, s, c)
  {}

  /** A try answered from the net keeps every served certificate that signed its requester. */
  lemma TriesDropNothing(inputs: Inputs, s: State, t: Try, net: Net, signs: SignatureCheck)
    requires CertsInStep(inputs, s) && Accounted(s, t, net, signs)
    ensures NothingDropped(inputs, s, t, net, signs)
  {
    if CacheAnswers(net, t.url, t.requester, signs) {
      var hit := Fetched(net.cached(t.url).value, t.url, true, t.requester);
      assert hit in [hit];
      SeenIsKnown(inputs, s, hit.cert);
    } else {
      match net.fetch(t.url) {
        case Served(certs) => ServedDropNothing(inputs, s, t, certs, net, signs);
        case _ =>
      }
    }
  }

  lemma ServedDropNothing(inputs: Inputs, s: State, t: Try, certs: seq<Cert>, net: Net, signs: SignatureCheck)
    requires CertsInStep(inputs, s) && Accounted(s, t, net, signs)
    requires !CacheAnswers(net, t.url, t.requester, signs) && net.fetch(t.url) == Served(certs)
    ensures NothingDropped(inputs, s, t, net, signs)
  {
    var at := SignersPicked(certs, t.url, t.requester, signs);
    var signers := Signers(certs, t.url, t.requester, signs);
    forall c | c in certs && signs(t.requester, c) ensures Known(inputs, s, c) {
      SignersExact(certs, t.url, t.requester, signs);
      assert Fetched(c, t.url, false, t.requester) in signers;
      SeenIsKnown(inputs, s, c);
    }
  }

  /** Following the For link of `fetched[i]`, and so on, reaches an input after `hops` links. */
  ghost predicate Reaches(inputs: Inputs, fetched: seq<Fetched>, i: nat, hops: nat)
    requires i < |fetched|
    decreases i
  {
    if hops <= 1 then hops == 1 && Some(fetched[i].forCert) in inputs
    else exists j :: 0 <= j < i && fetched[j].cert == fetched[i].forCert && Reaches(inputs, fetched, j, hops - 1)
  }

  lemma {:induction false} ReachesStays(inputs: Inputs, fetched: seq<Fetched>, more: seq<Fetched>, i: nat, hops: nat)
    requires i < |fetched| && Reaches(inputs, fetched, i, hops)
    ensures Reaches(inputs, fetched + more, i, hops)
    decreases i
  {
    if hops > 1 {
      var j :| 0 <= j < i && fetched[j].cert == fetched[i].forCert && Reaches(inputs, fetched, j, hops - 1);
      ReachesStays(inputs, fetched, more, j, hops - 1);
      assert (fetched + more)[j] == fetched[j];
    }
  }

  /** The certificate stands `level` hops above the inputs. */
  ghost predicate AtLevel(inputs: Inputs, fetched: seq<Fetched>, c: Cert, level: nat) {
    if level == 0 then Some(c) in inputs
    else exists i :: 0 <= i < |fetched| && fetched[i].cert == c && Reaches(inputs, fetched, i, level)
  }

  lemma AtLevelStays(inputs: Inputs, fetched: seq<Fetched>, more: seq<Fetched>, c: Cert, level: nat)
    requires AtLevel(inputs, fetched, c, level)
    ensures AtLevel(inputs, fetched + more, c, level)
  {
    if level > 0 {
      var i :| 0 <= i < |fetched| && fetched[i].cert == c && Reaches(inputs, fetched, i, level);
      ReachesStays(inputs, fetched, more, i, level);
      assert (fetched + more)[i] == fetched[i];
    }
  }

  /** Something fetched for a certificate stands one level above it. */
  lemma OneLevelUp(inputs: Inputs, fetched: seq<Fetched>, f: Fetched, level: nat)
    requires AtLevel(inputs, fetched, f.forCert, level)
    ensures AtLevel(inputs, fetched + [f], f.cert, level + 1)
  {
    var all := fetched + [f];
    AtLevelStays(inputs, fetched, [f], f.forCert, level);
    if level > 0 {
      var i :| 0 <= i < |fetched| && fetched[i].cert == f.forCert && Reaches(inputs, fetched, i, level);
      ReachesStays(inputs, fetched, [f], i, level);
      assert all[i] == fetched[i];
    }
    assert Reaches(inputs, all, |fetched|, level + 1);
    assert all[|fetched|].cert == f.cert;
  }

  /** Every URL the certificate names was tried. A self-signed one has nothing to try. */
  predicate Done(s: State, c: Cert) {
    IsSelfSigned(c) || forall u <- c.issuingUrls :: u in s.seenURL
  }

  /** What was fetched so far stays, in place. */
  predicate Extends(s: State, s': State) {
    s.fetched <= s'.fetched && s.seenURL <= s'.seenURL
  }

  ghost predicate LevelOf(inputs: Inputs, s: State, certs: seq<Cert>, level: nat) {
    forall c <- certs :: AtLevel(inputs, s.fetched, c, level)
  }

  /** All fetched certificates from position `from` on are listed in `next`. */
  predicate ListedFrom(s: State, from: nat, next: seq<Cert>) {
    forall i :: from <= i < |s.fetched| ==> s.fetched[i].cert in next
  }

  lemma StillAtLevel(inputs: Inputs, s: State, s': State, c: Cert, level: nat)
    requires AtLevel(inputs, s.fetched, c, level) && Extends(s, s')
    ensures AtLevel(inputs, s'.fetched, c, level)
  {
    AtLevelStays(inputs, s.fetched, s'.fetched[|s.fetched|..], c, level);
    assert s.fetched + s'.fetched[|s.fetched|..] == s'.fetched;
  }

  predicate TriedFirst(s: State, urls: seq<string>, k: nat) {
    forall m :: 0 <= m < k && m < |urls| ==> urls[m] in s.seenURL
  }

  lemma TriedOneMore(s: State, s': State, urls: seq<string>, k: nat)
    requires k < |urls| && TriedFirst(s, urls, k) && Extends(s, s') && urls[k] in s'.seenURL
    ensures TriedFirst(s', urls, k + 1)
  {}

  lemma DoneStays(s: State, s': State, certs: Inputs)
    requires AllDone(s, certs) && Extends(s, s')
    ensures AllDone(s', certs)
  {
    forall c | c in certs && c.Some?
      ensures Done(s', c.value)
    {
      assert Done(s, c.value);
    }
  }

  lemma LevelStays(inputs: Inputs, s: State, s': State, certs: seq<Cert>, level: nat)
    requires LevelOf(inputs, s, certs, level) && Extends(s, s')
    ensures LevelOf(inputs, s', certs, level)
  {
    forall c | c in certs
      ensures AtLevel(inputs, s'.fetched, c, level)
    {
      AtLevelStays(inputs, s.fetched, s'.fetched[|s.fetched|..], c, level);
      assert s.fetched + s'.fetched[|s.fetched|..] == s'.fetched;
    }
  }

  /** A step from (`s`, `next`) to (`s'`, `next'`): nothing is lost, and what is newly fetched is
      listed in `next'`, one level above the frontier. */
  ghost predicate Grew(inputs: Inputs, s: State, next: seq<Cert>, s': State, next': seq<Cert>, level: nat) {
    Extends(s, s') && next <= next' && LevelOf(inputs, s', next', level + 1) && ListedFrom(s', |s.fetched|, next')
  }

  lemma GrewTwice(inputs: Inputs, s: State, next: seq<Cert>, s1: State, next1: seq<Cert>, s2: State,
                  next2: seq<Cert>, level: nat)
    requires Grew(inputs, s, next, s1, next1, level) && Grew(inputs, s1, next1, s2, next2, level)
    ensures Grew(inputs, s, next, s2, next2, level)
  {
    forall i | |s.fetched| <= i < |s2.fetched|
      ensures s2.fetched[i].cert in next2
    {
      if i < |s1.fetched| {
        assert s2.fetched[i] == s1.fetched[i];
      }
    }
  }

  /** Seen certificates are the inputs and the fetched ones, and the fetched ones are new. */
  predicate CertsInStep(inputs: Inputs, s: State) {
    s.seenCert == InputRaws(inputs) + FetchedRaws(s.fetched) && AllNew(inputs, s.fetched)
  }

  /** Only the certificates changed. */
  predicate OnlyCerts(s: State, s': State) {
    s' == s.(seenCert := s'.seenCert, fetched := s'.fetched) && s.seenCert <= s'.seenCert
  }

  // ---------------------------------------------------------------------------------------------
  // The chase
  // ---------------------------------------------------------------------------------------------

  /** Adds one found certificate unless it is already known. */
  method Keep(ghost inputs: Inputs, s: State, next: seq<Cert>, f: Fetched, ghost level: nat)
    returns (s': State, next': seq<Cert>)
    requires CertsInStep(inputs, s) && AtLevel(inputs, s.fetched, f.forCert, level)
        && LevelOf(inputs, s, next, level + 1)
    ensures CertsInStep(inputs, s') && OnlyCerts(s, s') && f.cert.raw in s'.seenCert
    ensures s'.fetched == s.fetched || s'.fetched == s.fetched + [f]
    ensures Grew(inputs, s, next, s', next', level)
  {
    if f.cert.raw in s.seenCert {
      return s, next;
    }
    s' := s.(seenCert := s.seenCert + {f.cert.raw}, fetched := s.fetched + [f]);
    next' := next + [f.cert];
    assert FetchedRaws(s'.fetched) == FetchedRaws(s.fetched) + {f.cert.raw};
    LevelStays(inputs, s, s', next, level + 1);
    OneLevelUp(inputs, s.fetched, f, level);
    forall i | 0 <= i < |s.fetched|
      ensures s.fetched[i].cert.raw != f.cert.raw
    {
      assert s.fetched[i] in s.fetched;
    }
  }

  /** Keeps everything one resolution found. */
  method KeepAll(ghost inputs: Inputs, s: State, next: seq<Cert>, found: seq<Fetched>, requester: Cert,
                 ghost level: nat)
    returns (s': State, next': seq<Cert>)
    requires CertsInStep(inputs, s) && AtLevel(inputs, s.fetched, requester, level)
        && LevelOf(inputs, s, next, level + 1)
    requires forall f <- found :: f.forCert == requester
    ensures CertsInStep(inputs, s') && OnlyCerts(s, s')
    ensures forall f <- found :: f.cert.raw in s'.seenCert
    ensures forall f <- s'.fetched :: f in s.fetched || f in found
    ensures Grew(inputs, s, next, s', next', level)
  {
    s', next' := s, next;
    for k := 0 to |found|
      invariant CertsInStep(inputs, s') && OnlyCerts(s, s')
      invariant forall m :: 0 <= m < k ==> found[m].cert.raw in s'.seenCert
      invariant forall f <- s'.fetched :: f in s.fetched || f in found
      invariant Grew(inputs, s, next, s', next', level)
    {
      assert found[k] in found;
      StillAtLevel(inputs, s, s', requester, level);
      var s2, next2 := Keep(inputs, s', next', found[k], level);
      GrewTwice(inputs, s, next, s', next', s2, next2, level);
      s', next' := s2, next2;
    }
  }

  /** Accounts and origins stay valid as the state grows. */
  lemma SoundStays(inputs: Inputs, s: State, s': State, t: Try, net: Net, signs: SignatureCheck)
    requires Sound(inputs, s, net, signs) && t.url !in s.seenURL
    requires s'.tried == s.tried + [t] && s'.seenURL == s.seenURL + {t.url}
    requires s.failures <= s'.failures && s.seenCert <= s'.seenCert
    requires CertsInStep(inputs, s')
    requires Accounted(s', t, net, signs)
    requires forall f <- s'.fetched :: f in s.fetched || FromATry(s'.tried, f, net, signs)
    ensures Sound(inputs, s', net, signs)
  {
    forall x | x in s.tried
      ensures Accounted(s', x, net, signs)
    {
      assert Accounted(s, x, net, signs);
    }
    forall f | f in s.fetched
      ensures FromATry(s'.tried, f, net, signs)
    {
      assert FromATry(s.tried, f, net, signs);
    }
    forall i | 0 <= i < |s.tried|
      ensures s.tried[i].url != t.url
    {
      assert s.tried[i] in s.tried;
    }
    assert TriedURLs(s'.tried) == TriedURLs(s.tried) + {t.url};
  }

  /** One URL of one certificate: skipped when some certificate named it before. */
  method TakeURL(ghost inputs: Inputs, s: State, next: seq<Cert>, url: string, requester: Cert, ghost level: nat,
                 net: Net, signs: SignatureCheck)
    returns (s': State, next': seq<Cert>)
    requires Sound(inputs, s, net, signs)
    requires AtLevel(inputs, s.fetched, requester, level) && LevelOf(inputs, s, next, level + 1)
    ensures Sound(inputs, s', net, signs) && url in s'.seenURL
    ensures Grew(inputs, s, next, s', next', level)
  {
    if url in s.seenURL {
      return s, next;
    }
    var t := Try(url, requester);
    var r, puts := ResolveAIAURL(net, url, requester, signs);
    var s1 := s.(seenURL := s.seenURL + {url}, tried := s.tried + [t]);
    if r.Failed? {
      s' := s1.(failures := s.failures + [r.failure]);
      next' := next;
      SoundStays(inputs, s, s', t, net, signs);
      return;
    }
    forall f | f in r.found
      ensures f.url == url && f.forCert == requester
    {
      match net.fetch(url) {
        case Served(certs) => SignersExact(certs, url, requester, signs);
        case _ =>
      }
    }
    s', next' := KeepAll(inputs, s1, next, r.found, requester, level);
    SoundStays(inputs, s, s', t, net, signs);
  }

  /** All URLs of one certificate of the frontier. */
  method Expand(ghost inputs: Inputs, s: State, next: seq<Cert>, cert: Cert, ghost level: nat, net: Net,
                signs: SignatureCheck)
    returns (s': State, next': seq<Cert>)
    requires Sound(inputs, s, net, signs)
    requires AtLevel(inputs, s.fetched, cert, level) && LevelOf(inputs, s, next, level + 1)
    ensures Sound(inputs, s', net, signs) && Done(s', cert)
    ensures Grew(inputs, s, next, s', next', level)
  {
    s', next' := s, next;
    if IsSelfSigned(cert) {
      return;
    }
    for k := 0 to |cert.issuingUrls|
      invariant Sound(inputs, s', net, signs) && Grew(inputs, s, next, s', next', level)
      invariant TriedFirst(s', cert.issuingUrls, k)
    {
      StillAtLevel(inputs, s, s', cert, level);
      var s2, next2 := TakeURL(inputs, s', next', cert.issuingUrls[k], cert, level, net, signs);
      GrewTwice(inputs, s, next, s', next', s2, next2, level);
      TriedOneMore(s', s2, cert.issuingUrls, k);
      s', next' := s2, next2;
    }
  }

  /** One level: every certificate of the frontier, in order. */
  method Level(ghost inputs: Inputs, s: State, frontier: Inputs, ghost level: nat, net: Net, signs: SignatureCheck)
    returns (s': State, next: seq<Cert>)
    requires Sound(inputs, s, net, signs) && FrontierAt(inputs, s, frontier, level)
    ensures Sound(inputs, s', net, signs) && AllDone(s', frontier)
    ensures Grew(inputs, s, [], s', next, level)
  {
    s', next := s, [];
    for k := 0 to |frontier|
      invariant Sound(inputs, s', net, signs) && Grew(inputs, s, [], s', next, level)
      invariant AllDone(s', frontier[..k])
    {
      if frontier[k].None? {
        assert frontier[..k + 1] == frontier[..k] + [frontier[k]];
        continue;
      }
      var cert := frontier[k].value;
      assert frontier[k] in frontier;
      StillAtLevel(inputs, s, s', cert, level);
      var s2, next2 := Expand(inputs, s', next, cert, level, net, signs);
      GrewTwice(inputs, s, [], s', next, s2, next2, level);
      DoneStays(s', s2, frontier[..k]);
      assert frontier[..k + 1] == frontier[..k] + [frontier[k]];
      s', next := s2, next2;
    }
    assert frontier[..|frontier|] == frontier;
  }

  ghost predicate FrontierAt(inputs: Inputs, s: State, frontier: Inputs, level: nat) {
    forall c <- frontier :: c.Some? ==> AtLevel(inputs, s.fetched, c.value, level)
  }

  predicate AllDone(s: State, certs: Inputs) {
    forall c <- certs :: c.Some? ==> Done(s, c.value)
  }

  function Wrap(certs: seq<Cert>): Inputs {
    seq(|certs|, i requires 0 <= i < |certs| => Some(certs[i]))
  }

  /** Every known certificate was expanded, or waits in the frontier. */
  predicate NoneForgotten(inputs: Inputs, s: State, frontier: Inputs) {
    && (forall c <- inputs :: c.Some? ==> Done(s, c.value) || c in frontier)
    && (forall f <- s.fetched :: Done(s, f.cert) || Some(f.cert) in frontier)
  }

  lemma LevelForgetsNone(inputs: Inputs, s: State, frontier: Inputs, s': State, next: seq<Cert>, level: nat)
    requires NoneForgotten(inputs, s, frontier) && AllDone(s', frontier) && Grew(inputs, s, [], s', next, level)
    ensures NoneForgotten(inputs, s', Wrap(next)) && FrontierAt(inputs, s', Wrap(next), level + 1)
  {
    forall f | f in s'.fetched
      ensures Done(s', f.cert) || Some(f.cert) in Wrap(next)
    {
      var i :| 0 <= i < |s'.fetched| && s'.fetched[i] == f;
      if i < |s.fetched| {
        assert s.fetched[i] == f;
      } else {
        var k :| 0 <= k < |next| && next[k] == f.cert;
        assert Wrap(next)[k] == Some(f.cert);
      }
    }
    forall c | c in Wrap(next)
      ensures AtLevel(inputs, s'.fetched, c.value, level + 1)
    {
      var k :| 0 <= k < |next| && Wrap(next)[k] == c;
      assert next[k] in next;
    }
  }

  /** Every fetched certificate is within the depth limit. */
  ghost predicate WithinDepth(inputs: Inputs, fetched: seq<Fetched>, depth: nat) {
    forall f <- fetched :: Within(inputs, fetched, f.cert, depth)
  }

  ghost predicate Within(inputs: Inputs, fetched: seq<Fetched>, c: Cert, depth: nat) {
    exists level :: 1 <= level <= depth && AtLevel(inputs, fetched, c, level)
  }

  lemma DepthGrows(inputs: Inputs, s: State, s': State, next: seq<Cert>, level: nat)
    requires WithinDepth(inputs, s.fetched, level) && Grew(inputs, s, [], s', next, level)
    ensures WithinDepth(inputs, s'.fetched, level + 1)
  {
    forall f | f in s'.fetched
      ensures Within(inputs, s'.fetched, f.cert, level + 1)
    {
      var i :| 0 <= i < |s'.fetched| && s'.fetched[i] == f;
      if i < |s.fetched| {
        assert s.fetched[i] == f && s.fetched[i] in s.fetched;
        WithinStays(inputs, s, s', f.cert, level);
      } else {
        assert AtLevel(inputs, s'.fetched, s'.fetched[i].cert, level + 1);
      }
    }
  }

  lemma WithinStays(inputs: Inputs, s: State, s': State, c: Cert, depth: nat)
    requires Within(inputs, s.fetched, c, depth) && Extends(s, s')
    ensures Within(inputs, s'.fetched, c, depth + 1)
  {
    var l :| 1 <= l <= depth && AtLevel(inputs, s.fetched, c, l);
    StillAtLevel(inputs, s, s', c, l);
  }

  /** A fetched certificate that was not expanded stands at the depth limit. */
  ghost predicate DoneOrDeepest(inputs: Inputs, s: State, depth: nat) {
    && AllDone(s, inputs)
    && (forall f <- s.fetched :: Done(s, f.cert) || AtLevel(inputs, s.fetched, f.cert, depth))
  }

  lemma InputsAreNotFetched(inputs: Inputs, s: State, c: Cert, level: nat)
    requires CertsInStep(inputs, s) && Some(c) in inputs && level > 0
    ensures !AtLevel(inputs, s.fetched, c, level)
  {
    assert c.raw in InputRaws(inputs);
    forall i | 0 <= i < |s.fetched|
      ensures s.fetched[i].cert != c
    {
      assert s.fetched[i].cert.raw in FetchedRaws(s.fetched);
    }
  }

  /** What stands when the loop ends: the frontier is empty or the depth is used up. */
  lemma ChaseEnds(inputs: Inputs, s: State, frontier: Inputs, level: nat, depth: nat)
    requires CertsInStep(inputs, s) && NoneForgotten(inputs, s, frontier) && FrontierAt(inputs, s, frontier, level)
    requires 0 < depth && level <= depth && (level == depth || frontier == []) && WithinDepth(inputs, s.fetched, level)
    ensures DoneOrDeepest(inputs, s, depth) && WithinDepth(inputs, s.fetched, depth)
  {
    forall c | c in inputs && c.Some?
      ensures Done(s, c.value)
    {
      if c in frontier {
        InputsAreNotFetched(inputs, s, c.value, level);
      }
    }
    forall f | f in s.fetched
      ensures Within(inputs, s.fetched, f.cert, depth)
    {
      assert Within(inputs, s.fetched, f.cert, level);
    }
  }

  /** The chase from a list of certificates. Every URL is resolved at most once, every fetched
      certificate is new and signed what it was fetched for, its For links reach an input within
      the depth, every certificate short of the depth limit had all its URLs tried, and of what a
      tried URL served nothing that signed its requester was dropped. */
  method ChaseAIA(inputs: Inputs, maxDepth: int, net: Net, signs: SignatureCheck) returns (s: State)
    ensures Sound(inputs, s, net, signs)
    ensures forall f <- s.fetched :: signs(f.forCert, f.cert)
    ensures forall t <- s.tried :: NothingDropped(inputs, s, t, net, signs)
    ensures WithinDepth(inputs, s.fetched, if maxDepth <= 0 then 5 else maxDepth)
    ensures DoneOrDeepest(inputs, s, if maxDepth <= 0 then 5 else maxDepth)
  {
    var depth: nat := if maxDepth <= 0 then DEFAULT_DEPTH else maxDepth;
    s := State({}, InputRaws(inputs), [], [], []);
    var frontier := inputs;
    var level := 0;
    while level < depth && |frontier| > 0
      invariant 0 <= level <= depth
      invariant Sound(inputs, s, net, signs) && NoneForgotten(inputs, s, frontier)
      invariant FrontierAt(inputs, s, frontier, level) && WithinDepth(inputs, s.fetched, level)
      decreases depth - level
    {
      var s2, next := Level(inputs, s, frontier, level, net, signs);
      LevelForgetsNone(inputs, s, frontier, s2, next, level);
      DepthGrows(inputs, s, s2, next, level);
      s := s2;
      frontier := Wrap(next);
      level := level + 1;
    }
    ChaseEnds(inputs, s, frontier, level, depth);
    forall t | t in s.tried
      ensures NothingDropped(inputs, s, t, net, signs)
    {
      TriesDropNothing(inputs, s, t, net, signs);
    }
    forall f | f in s.fetched
      ensures signs(f.forCert, f.cert)
    {
      FetchedReallySigned(s.tried, f, net, signs);
    }
  }

  /** Nothing cut off: when no fetched certificate stands at the limit, the chase is complete. */
  lemma ShallowChaseIsComplete(inputs: Inputs, s: State, depth: nat)
    requires DoneOrDeepest(inputs, s, depth)
    requires forall f <- s.fetched :: !AtLevel(inputs, s.fetched, f.cert, depth)
    ensures forall f <- s.fetched :: Done(s, f.cert)
  {}
}
