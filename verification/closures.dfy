/** Two issuer closures computed by worklists (`AnchorContainer`, `appendAIAToChains`) and the walk
    to the end of a scanned path (`terminalOfPath`). */
module IssuerClosures {
  import opened CertTypes
  import Sequences

  // ---------------------------------------------------------------------------------------------
  // AnchorContainer: the trust anchors relevant to a scan
  // ---------------------------------------------------------------------------------------------

  datatype TrustStore = TrustStore(isOS: bool, certs: seq<Cert>)

  predicate InOSStore(stores: seq<TrustStore>, c: Cert) {
    exists s <- stores :: s.isOS && c in s.certs
  }

  /** Equal raw bytes are equal certificates: parsing is a function of the bytes. */
  ghost predicate RawIdentifies(stores: seq<TrustStore>) {
    forall c, d :: InOSStore(stores, c) && InOSStore(stores, d) && c.raw == d.raw ==> c == d
  }

  function ScanRaws(scanned: seq<Cert>): set<Bytes> {
    set c | c in scanned :: c.raw
  }

  /** A subject name is wanted when a scanned certificate, or a picked one that is not self-issued,
      names it as issuer. */
  predicate Wanted(scanned: seq<Cert>, picked: set<Cert>, subject: string) {
    (exists c <- scanned :: c.issuer == subject)
    || (exists c <- picked :: c.issuer == subject && c.issuer != c.subject)
  }

  /** The set holds every OS-store certificate outside the scan whose subject it makes wanted. */
  ghost predicate AnchorsClosed(scanned: seq<Cert>, stores: seq<TrustStore>, picked: set<Cert>) {
    forall c :: InOSStore(stores, c) && c.raw !in ScanRaws(scanned) && Wanted(scanned, picked, c.subject) ==>
        c in picked
  }

  /** The least such set: the issuer closure of the scan. */
  ghost predicate LeastAnchors(scanned: seq<Cert>, stores: seq<TrustStore>, picked: set<Cert>) {
    && AnchorsClosed(scanned, stores, picked)
    && forall other: set<Cert> :: AnchorsClosed(scanned, stores, other) ==> picked <= other
  }

  /** The closure is one set, whatever order maps were visited in. */
  lemma LeastAnchorsUnique(scanned: seq<Cert>, stores: seq<TrustStore>, a: set<Cert>, b: set<Cert>)
    requires LeastAnchors(scanned, stores, a) && LeastAnchors(scanned, stores, b)
    ensures a == b
  {
    assert a <= b && b <= a;
  }

  function BySubject(m: map<string, seq<Cert>>, subject: string): seq<Cert> {
    if subject in m then m[subject] else []
  }

  ghost predicate IndexesStores(m: map<string, seq<Cert>>, stores: seq<TrustStore>) {
    forall subject, c :: c in BySubject(m, subject) <==> c.subject == subject && InOSStore(stores, c)
  }

  lemma IndexOne(m: map<string, seq<Cert>>, c: Cert, m': map<string, seq<Cert>>)
    requires m' == m[c.subject := BySubject(m, c.subject) + [c]]
    ensures forall subject, d :: d in BySubject(m', subject) <==>
        d in BySubject(m, subject) || (d == c && subject == c.subject)
  {}

  method IndexBySubject(stores: seq<TrustStore>) returns (m: map<string, seq<Cert>>)
    ensures IndexesStores(m, stores)
  {
    m := map[];
    for i := 0 to |stores|
      invariant IndexesStores(m, stores[..i])
    {
      assert stores[..i + 1] == stores[..i] + [stores[i]];
      assert forall c :: InOSStore(stores[..i + 1], c) <==>
          InOSStore(stores[..i], c) || (stores[i].isOS && c in stores[i].certs);
      if !stores[i].isOS {
        continue;
      }
      ghost var before := m;
      for j := 0 to |stores[i].certs|
        invariant forall subject, c :: c in BySubject(m, subject) <==>
                    c in BySubject(before, subject) || (c.subject == subject && c in stores[i].certs[..j])
      {
        var c := stores[i].certs[j];
        assert stores[i].certs[..j + 1] == stores[i].certs[..j] + [c];
        var m' := m[c.subject := BySubject(m, c.subject) + [c]];
        IndexOne(m, c, m');
        m := m';
      }
      assert stores[i].certs[..|stores[i].certs|] == stores[i].certs;
    }
    assert stores[..|stores|] == stores;
  }

  function Elements<T>(s: seq<T>): set<T> {
    set x | x in s
  }

  function RawsOf(certs: seq<Cert>): set<Bytes> {
    set c | c in certs :: c.raw
  }

  /** Everything picked is in the closure: in every closed set. */
  ghost predicate OnlyNeeded(scanned: seq<Cert>, stores: seq<TrustStore>, anchors: seq<Cert>) {
    && (forall c <- anchors :: InOSStore(stores, c) && c.raw !in ScanRaws(scanned))
    && (forall i, j :: 0 <= i < j < |anchors| ==> anchors[i].raw != anchors[j].raw)
    && forall other: set<Cert> :: AnchorsClosed(scanned, stores, other) ==> Elements(anchors) <= other
  }

  /** All OS-store certificates with this subject are in the scan or picked. */
  ghost predicate Served(scanned: seq<Cert>, stores: seq<TrustStore>, anchors: seq<Cert>, subject: string) {
    forall c :: InOSStore(stores, c) && c.subject == subject ==> c.raw in ScanRaws(scanned) || c in anchors
  }

  /** Every wanted subject was served or is still to come. */
  ghost predicate WantedCovered(scanned: seq<Cert>, stores: seq<TrustStore>, anchors: seq<Cert>, pending: set<string>) {
    forall subject :: Wanted(scanned, Elements(anchors), subject) ==>
        subject in pending || Served(scanned, stores, anchors, subject)
  }

  lemma PickIsNeeded(scanned: seq<Cert>, stores: seq<TrustStore>, anchors: seq<Cert>, c: Cert)
    requires OnlyNeeded(scanned, stores, anchors) && Wanted(scanned, Elements(anchors), c.subject)
    requires InOSStore(stores, c) && c.raw !in ScanRaws(scanned) && c.raw !in RawsOf(anchors)
    ensures OnlyNeeded(scanned, stores, anchors + [c])
  {
    assert Elements(anchors + [c]) == Elements(anchors) + {c};
    forall other: set<Cert> | AnchorsClosed(scanned, stores, other)
      ensures c in other
    {
      assert Elements(anchors) <= other;
      assert Wanted(scanned, other, c.subject);
    }
    forall i | 0 <= i < |anchors|
      ensures anchors[i].raw != c.raw
    {
      assert anchors[i] in anchors;
    }
  }

  /** Serves one subject: picks every matching certificate not known yet and collects the issuers
      they ask for. */
  method ServeSubject(scanned: seq<Cert>, stores: seq<TrustStore>, m: map<string, seq<Cert>>, subject: string,
                      anchors: seq<Cert>, next: set<string>)
    returns (anchors': seq<Cert>, next': set<string>)
    requires IndexesStores(m, stores) && RawIdentifies(stores)
    requires OnlyNeeded(scanned, stores, anchors) && Wanted(scanned, Elements(anchors), subject)
    requires forall n <- next :: Wanted(scanned, Elements(anchors), n)
    ensures anchors <= anchors' && next <= next' && OnlyNeeded(scanned, stores, anchors')
    ensures Served(scanned, stores, anchors', subject)
    ensures forall n <- next' :: Wanted(scanned, Elements(anchors'), n)
    ensures forall n :: Wanted(scanned, Elements(anchors'), n) ==> n in next' || Wanted(scanned, Elements(anchors), n)
    ensures next' != next ==> |anchors'| > |anchors|
  {
    anchors', next' := anchors, next;
    var matching := BySubject(m, subject);
    for k := 0 to |matching|
      invariant anchors <= anchors' && next <= next' && OnlyNeeded(scanned, stores, anchors')
      invariant forall j :: 0 <= j < k ==> matching[j].raw in ScanRaws(scanned) || matching[j] in anchors'
      invariant forall n <- next' :: Wanted(scanned, Elements(anchors'), n)
      invariant forall n :: Wanted(scanned, Elements(anchors'), n) ==>
          n in next' || Wanted(scanned, Elements(anchors), n)
      invariant next' != next ==> |anchors'| > |anchors|
    {
      var c := matching[k];
      assert c in BySubject(m, subject);
      if c.raw in ScanRaws(scanned) {
        continue;
      }
      if c.raw in RawsOf(anchors') {
        var d :| d in anchors' && d.raw == c.raw;
        assert c == d;
        continue;
      }
      WantedGrows(scanned, anchors, anchors', subject);
      PickIsNeeded(scanned, stores, anchors', c);
      PickWants(scanned, anchors', c);
      anchors' := anchors' + [c];
      if c.issuer != c.subject {
        next' := next' + {c.issuer};
      }
    }
    forall c | InOSStore(stores, c) && c.subject == subject
      ensures c.raw in ScanRaws(scanned) || c in anchors'
    {
      assert c in BySubject(m, subject);
      var j :| 0 <= j < |matching| && matching[j] == c;
    }
  }

  lemma WantedGrows(scanned: seq<Cert>, a: seq<Cert>, b: seq<Cert>, subject: string)
    requires a <= b && Wanted(scanned, Elements(a), subject)
    ensures Wanted(scanned, Elements(b), subject)
  {
    assert Elements(a) <= Elements(b);
  }

  lemma PickWants(scanned: seq<Cert>, anchors: seq<Cert>, c: Cert)
    ensures forall n :: Wanted(scanned, Elements(anchors + [c]), n) <==>
              Wanted(scanned, Elements(anchors), n) || (n == c.issuer && c.issuer != c.subject)
  {
    assert Elements(anchors + [c]) == Elements(anchors) + {c};
  }

  lemma ServedStays(scanned: seq<Cert>, stores: seq<TrustStore>, a: seq<Cert>, b: seq<Cert>, subject: string)
    requires a <= b && Served(scanned, stores, a, subject)
    ensures Served(scanned, stores, b, subject)
  {
    assert forall c <- a :: c in b;
  }

  lemma CoverStep(scanned: seq<Cert>, stores: seq<TrustStore>, a: seq<Cert>, pending: set<string>, next: set<string>,
                  subject: string,
                  b: seq<Cert>, next': set<string>)
    requires WantedCovered(scanned, stores, a, pending + next) && a <= b && next <= next'
    requires Served(scanned, stores, b, subject)
    requires forall n :: Wanted(scanned, Elements(b), n) ==> n in next' || Wanted(scanned, Elements(a), n)
    ensures WantedCovered(scanned, stores, b, pending - {subject} + next')
  {
    forall n | Wanted(scanned, Elements(b), n)
      ensures n in pending - {subject} + next' || Served(scanned, stores, b, n)
    {
      if n !in next' && n != subject && n !in pending {
        ServedStays(scanned, stores, a, b, n);
      }
    }
  }

  /** Everything wanted was served: the picked set is closed. */
  lemma CoverIsClosed(scanned: seq<Cert>, stores: seq<TrustStore>, anchors: seq<Cert>)
    requires WantedCovered(scanned, stores, anchors, {})
    ensures AnchorsClosed(scanned, stores, Elements(anchors))
  {
    forall c | InOSStore(stores, c) && c.raw !in ScanRaws(scanned) && Wanted(scanned, Elements(anchors), c.subject)
      ensures c in Elements(anchors)
    {
      assert Served(scanned, stores, anchors, c.subject);
    }
  }

  function OSRaws(stores: seq<TrustStore>): set<Bytes> {
    set s, c | s in stores && s.isOS && c in s.certs :: c.raw
  }

  lemma PickedShrinksTheRest(scanned: seq<Cert>, stores: seq<TrustStore>, a: seq<Cert>, b: seq<Cert>)
    requires OnlyNeeded(scanned, stores, b) && a <= b && |a| < |b|
    ensures OSRaws(stores) - RawsOf(b) < OSRaws(stores) - RawsOf(a)
  {
    var c := b[|a|];
    assert c in b && InOSStore(stores, c) && c.raw in OSRaws(stores) && c.raw in RawsOf(b);
    forall d | d in a
      ensures d.raw != c.raw && d.raw in RawsOf(b)
    {
      var i :| 0 <= i < |a| && a[i] == d;
      assert b[i] == d && b[i] in b;
    }
  }

  /** One round: serves every wanted subject, in any order. */
  method Round(scanned: seq<Cert>, stores: seq<TrustStore>, m: map<string, seq<Cert>>, anchors: seq<Cert>,
               wanted: set<string>)
    returns (anchors': seq<Cert>, next: set<string>)
    requires IndexesStores(m, stores) && RawIdentifies(stores) && OnlyNeeded(scanned, stores, anchors)
    requires (forall w <- wanted :: Wanted(scanned, Elements(anchors), w))
        && WantedCovered(scanned, stores, anchors, wanted)
    ensures anchors <= anchors' && OnlyNeeded(scanned, stores, anchors')
    ensures (forall w <- next :: Wanted(scanned, Elements(anchors'), w))
        && WantedCovered(scanned, stores, anchors', next)
    ensures next != {} ==> |anchors| < |anchors'|
  {
    anchors', next := anchors, {};
    var pending := wanted;
    assert pending + next == wanted;
    while pending != {}
      invariant anchors <= anchors' && OnlyNeeded(scanned, stores, anchors')
      invariant forall w <- pending :: Wanted(scanned, Elements(anchors'), w)
      invariant forall w <- next :: Wanted(scanned, Elements(anchors'), w)
      invariant WantedCovered(scanned, stores, anchors', pending + next)
      invariant next != {} ==> |anchors| < |anchors'|
    {
      var subject :| subject in pending;
      var a, n := ServeSubject(scanned, stores, m, subject, anchors', next);
      CoverStep(scanned, stores, anchors', pending, next, subject, a, n);
      forall w | w in pending
        ensures Wanted(scanned, Elements(a), w)
      {
        WantedGrows(scanned, anchors', a, w);
      }
      pending := pending - {subject};
      anchors', next := a, n;
    }
    assert pending + next == next;
  }

  /** Picks exactly the OS-store certificates outside the scan that the scan's issuer names reach,
      each once; `None` when there are none. */
  method AnchorContainer(scanned: seq<Cert>, stores: seq<TrustStore>) returns (picked: Option<seq<Cert>>)
    requires RawIdentifies(stores)
    ensures picked.Some? ==> picked.value != [] && forall i, j :: 0 <= i < j < |picked.value| ==>
        picked.value[i].raw != picked.value[j].raw
    ensures LeastAnchors(scanned, stores, if picked.Some? then Elements(picked.value) else {})
  {
    var m := IndexBySubject(stores);
    var wanted := set c | c in scanned :: c.issuer;
    var anchors: seq<Cert> := [];
    assert Elements(anchors) == {};
    while wanted != {}
      invariant OnlyNeeded(scanned, stores, anchors)
      invariant (forall w <- wanted :: Wanted(scanned, Elements(anchors), w))
          && WantedCovered(scanned, stores, anchors, wanted)
      decreases OSRaws(stores) - RawsOf(anchors), |wanted|
    {
      var anchors', next := Round(scanned, stores, m, anchors, wanted);
      if |anchors'| > |anchors| {
        PickedShrinksTheRest(scanned, stores, anchors, anchors');
      } else {
        assert anchors' == anchors;
      }
      anchors, wanted := anchors', next;
    }
    CoverIsClosed(scanned, stores, anchors);
    picked := if |anchors| == 0 then None else Some(anchors);
    assert |anchors| == 0 ==> Elements(anchors) == {};
  }

  // ---------------------------------------------------------------------------------------------
  // appendAIAToChains: the fetched issuers of each target
  // ---------------------------------------------------------------------------------------------

  datatype RemoteCert = RemoteCert(index: int, role: string, cert: Option<Cert>)

  datatype Provenance = Provenance(cert: Option<Cert>, forCert: Option<Cert>)

  /** Fetched certificates by their raw bytes (the digest in the source). */
  type ProvenanceMap = map<Bytes, Provenance>

  ghost predicate KeyedByCert(provenance: ProvenanceMap) {
    forall fp <- provenance :: provenance[fp].cert.Some? ==> provenance[fp].cert.value.raw == fp
  }

  function Present(certs: seq<RemoteCert>): set<Bytes> {
    set ci | ci in certs && ci.cert.Some? :: ci.cert.value.raw
  }

  /** The certificate was fetched for something among `present`. */
  predicate FetchedFor(provenance: ProvenanceMap, present: set<Bytes>, fp: Bytes) {
    fp in provenance && provenance[fp].cert.Some? && provenance[fp].forCert.Some?
        && provenance[fp].forCert.value.raw in present
  }

  predicate ForLinksClosed(provenance: ProvenanceMap, served: set<Bytes>, present: set<Bytes>) {
    served <= present && forall fp <- provenance :: FetchedFor(provenance, present, fp) ==> fp in present
  }

  /** The certificates whose For links lead to something the target served. */
  ghost predicate LeastForClosure(provenance: ProvenanceMap, served: set<Bytes>, present: set<Bytes>) {
    && ForLinksClosed(provenance, served, present)
    && forall other: set<Bytes> :: ForLinksClosed(provenance, served, other) ==> present <= other
  }

  /** Entry `k` was appended: fetched, new to the list, and numbered by its position. */
  predicate AppendedEntry(provenance: ProvenanceMap, after: seq<RemoteCert>, k: nat)
    requires k < |after|
  {
    && after[k].index == k && after[k].role == "aia" && after[k].cert.Some?
    && after[k].cert.value.raw in provenance && provenance[after[k].cert.value.raw].cert == after[k].cert
    && after[k].cert.value.raw !in Present(after[..k])
  }

  /** The served certificates stay in front, and the rest was appended. */
  predicate Appended(provenance: ProvenanceMap, before: seq<RemoteCert>, after: seq<RemoteCert>) {
    before <= after && forall k :: |before| <= k < |after| ==> AppendedEntry(provenance, after, k)
  }

  lemma AppendedOneMore(provenance: ProvenanceMap, before: seq<RemoteCert>, after: seq<RemoteCert>, one: RemoteCert)
    requires KeyedByCert(provenance) && Appended(provenance, before, after)
    requires one.cert.Some? && one.cert.value.raw in provenance && one.cert.value.raw !in Present(after)
    requires one == RemoteCert(|after|, "aia", provenance[one.cert.value.raw].cert)
    ensures Appended(provenance, before, after + [one])
  {
    var all := after + [one];
    forall k | |before| <= k < |all|
      ensures AppendedEntry(provenance, all, k)
    {
      if k < |after| {
        assert all[..k] == after[..k] && AppendedEntry(provenance, after, k);
      } else {
        assert all[..k] == after;
      }
    }
  }

  /** What any closed set above `served` contains, `certs` contains no more than. */
  ghost predicate NoMoreThanNeeded(provenance: ProvenanceMap, served: set<Bytes>, certs: seq<RemoteCert>) {
    forall other: set<Bytes> :: ForLinksClosed(provenance, served, other) ==> Present(certs) <= other
  }

  lemma NeededOneMore(provenance: ProvenanceMap, served: set<Bytes>, certs: seq<RemoteCert>, one: RemoteCert)
    requires NoMoreThanNeeded(provenance, served, certs)
    requires one.cert.Some? && FetchedFor(provenance, Present(certs), one.cert.value.raw)
    ensures NoMoreThanNeeded(provenance, served, certs + [one])
  {
    PresentOneMore(certs, one);
    forall other: set<Bytes> | ForLinksClosed(provenance, served, other)
      ensures Present(certs + [one]) <= other
    {
      assert Present(certs) <= other;
      assert FetchedFor(provenance, other, one.cert.value.raw);
    }
  }

  /** The first `k` keys have nothing to add. */
  predicate NothingAmong(provenance: ProvenanceMap, keys: seq<Bytes>, k: nat, present: set<Bytes>) {
    forall j :: 0 <= j < k && j < |keys| ==> FetchedFor(provenance, present, keys[j]) ==> keys[j] in present
  }

  /** One pass over the keys; `added` says whether it found anything. */
  method Pass(provenance: ProvenanceMap, keys: seq<Bytes>, ghost served: set<Bytes>, ghost before: seq<RemoteCert>,
              certs: seq<RemoteCert>)
    returns (out: seq<RemoteCert>, added: bool)
    requires KeyedByCert(provenance) && Elements(keys) == provenance.Keys
    requires Appended(provenance, before, certs) && NoMoreThanNeeded(provenance, served, certs)
    ensures Appended(provenance, before, out) && NoMoreThanNeeded(provenance, served, out) && certs <= out
    ensures added ==> provenance.Keys - Present(out) < provenance.Keys - Present(certs)
    ensures !added ==> out == certs && NothingAmong(provenance, keys, |keys|, Present(out))
  {
    out, added := certs, false;
    for k := 0 to |keys|
      invariant Appended(provenance, before, out) && NoMoreThanNeeded(provenance, served, out) && certs <= out
      invariant added ==> provenance.Keys - Present(out) < provenance.Keys - Present(certs)
      invariant !added ==> out == certs && NothingAmong(provenance, keys, k, Present(out))
    {
      var fp := keys[k];
      assert fp in Elements(keys);
      var f := provenance[fp];
      if fp in Present(out) || f.cert.None? || f.forCert.None? || f.forCert.value.raw !in Present(out) {
        continue;
      }
      var one := RemoteCert(|out|, "aia", f.cert);
      AppendedOneMore(provenance, before, out, one);
      NeededOneMore(provenance, served, out, one);
      PresentOneMore(out, one);
      out, added := out + [one], true;
    }
  }

  lemma PresentOneMore(certs: seq<RemoteCert>, one: RemoteCert)
    requires one.cert.Some?
    ensures Present(certs + [one]) == Present(certs) + {one.cert.value.raw}
  {}

  lemma NothingLeft(provenance: ProvenanceMap, keys: seq<Bytes>, present: set<Bytes>)
    requires Elements(keys) == provenance.Keys && NothingAmong(provenance, keys, |keys|, present)
    ensures forall fp <- provenance :: FetchedFor(provenance, present, fp) ==> fp in present
  {
    forall fp | fp in provenance && FetchedFor(provenance, present, fp)
      ensures fp in present
    {
      assert fp in Elements(keys);
      var j :| 0 <= j < |keys| && keys[j] == fp;
    }
  }

  lemma PresentGrows(a: seq<RemoteCert>, b: seq<RemoteCert>)
    requires a <= b
    ensures Present(a) <= Present(b)
  {
    assert forall ci <- a :: ci in b;
  }

  /** Completes one target: the result holds exactly the closure of what it served. */
  method CompleteTarget(provenance: ProvenanceMap, keys: seq<Bytes>, certs: seq<RemoteCert>)
    returns (out: seq<RemoteCert>)
    requires KeyedByCert(provenance) && Elements(keys) == provenance.Keys
    ensures Completed(provenance, certs, out)
  {
    out := certs;
    var added := true;
    while added
      invariant Appended(provenance, certs, out) && NoMoreThanNeeded(provenance, Present(certs), out)
      invariant !added ==> NothingAmong(provenance, keys, |keys|, Present(out))
      decreases provenance.Keys - Present(out), added
    {
      out, added := Pass(provenance, keys, Present(certs), certs, out);
    }
    NothingLeft(provenance, keys, Present(out));
    PresentGrows(certs, out);
  }

  /** What a target's list becomes: its own certificates, then the closure's others. */
  ghost predicate Completed(provenance: ProvenanceMap, before: seq<RemoteCert>, after: seq<RemoteCert>) {
    Appended(provenance, before, after) && LeastForClosure(provenance, Present(before), Present(after))
  }

  /** Every target in place, each from its own certificates alone. */
  method AppendAIAToChains(targets: array<seq<RemoteCert>>, provenance: ProvenanceMap, keys: seq<Bytes>)
    requires KeyedByCert(provenance) && Elements(keys) == provenance.Keys
    modifies targets
    ensures forall i :: 0 <= i < targets.Length ==> Completed(provenance, old(targets[i]), targets[i])
  {
    for i := 0 to targets.Length
      invariant forall k :: 0 <= k < i ==> Completed(provenance, old(targets[k]), targets[k])
      invariant forall k :: i <= k < targets.Length ==> targets[k] == old(targets[k])
    {
      targets[i] := CompleteTarget(provenance, keys, targets[i]);
    }
  }

  /** One entry was appended for each certificate that was not there before. */
  lemma {:induction false} AppendedCount(provenance: ProvenanceMap, before: seq<RemoteCert>, after: seq<RemoteCert>)
    requires Appended(provenance, before, after)
    ensures Present(before) <= Present(after) && |after| - |before| == |Present(after) - Present(before)|
    decreases |after|
  {
    if |after| == |before| {
      assert Present(after) - Present(before) == {};
    } else {
      var front := after[..|after| - 1];
      AppendedLast(provenance, before, after);
      AppendedCount(provenance, before, front);
      OneMoreNew(Present(before), Present(front), Present(after), after[|after| - 1].cert.value.raw);
    }
  }

  lemma OneMoreNew<T>(before: set<T>, front: set<T>, after: set<T>, x: T)
    requires before <= front && x !in front && after == front + {x}
    ensures before <= after && |after - before| == |front - before| + 1
  {
    assert after - before == (front - before) + {x};
  }

  lemma AppendedLast(provenance: ProvenanceMap, before: seq<RemoteCert>, after: seq<RemoteCert>)
    requires Appended(provenance, before, after) && |after| > |before|
    ensures var front, last := after[..|after| - 1], after[|after| - 1].cert;
            && Appended(provenance, before, front) && last.Some?
            && last.value.raw !in Present(front) && Present(after) == Present(front) + {last.value.raw}
  {
    var n := |after| - 1;
    var front := after[..n];
    assert AppendedEntry(provenance, after, n);
    forall k | |before| <= k < n ensures AppendedEntry(provenance, front, k) {
      assert AppendedEntry(provenance, after, k) && front[..k] == after[..k];
    }
    assert after == front + [after[n]];
    PresentOneMore(front, after[n]);
  }

  /** The order in which keys were tried decides only the order of the appended certificates: which they are and how
      many is fixed by what the target served. */
  lemma CompletedSame(provenance: ProvenanceMap, before: seq<RemoteCert>, one: seq<RemoteCert>, other: seq<RemoteCert>)
    requires Completed(provenance, before, one) && Completed(provenance, before, other)
    ensures Present(one) == Present(other) && |one| == |other|
  {
    assert Present(one) <= Present(other) && Present(other) <= Present(one);
    AppendedCount(provenance, before, one);
    AppendedCount(provenance, before, other);
  }

  /** Completing twice adds nothing. */
  lemma CompletedTwice(provenance: ProvenanceMap, before: seq<RemoteCert>, after: seq<RemoteCert>,
                       again: seq<RemoteCert>)
    requires Completed(provenance, before, after) && Completed(provenance, after, again)
    ensures again == after
  {
    assert ForLinksClosed(provenance, Present(after), Present(after));
    assert Present(again) <= Present(after);
    if |again| > |after| {
      ExtraIsNew(provenance, after, again);
    }
  }

  lemma ExtraIsNew(provenance: ProvenanceMap, before: seq<RemoteCert>, after: seq<RemoteCert>)
    requires Appended(provenance, before, after) && |after| > |before|
    ensures !(Present(after) <= Present(before))
  {
    assert AppendedEntry(provenance, after, |before|);
    assert after[..|before|] == before && after[|before|] in after;
  }

  /** The first appended certificate repeats the index of the last served one, since served
      certificates are numbered from 1 and appended ones by position. */
  lemma AppendedIndexRepeats(provenance: ProvenanceMap, before: seq<RemoteCert>, after: seq<RemoteCert>)
    requires Appended(provenance, before, after) && forall k :: 0 <= k < |before| ==> before[k].index == k + 1
    ensures before != [] && |after| > |before| ==> after[|before|].index == after[|before| - 1].index
  {
    assert |after| > |before| ==> AppendedEntry(provenance, after, |before|);
  }

  // ---------------------------------------------------------------------------------------------
  // terminalOfPath
  // ---------------------------------------------------------------------------------------------

  /** A scanned certificate not on the path yet that signed `current`. */
  predicate NextHop(scanned: seq<Cert>, seen: set<Bytes>, current: Cert, c: Cert, signs: SignatureCheck) {
    c in scanned && c.raw !in seen && signs(current, c)
  }

  /** Where the path ends: at a self-signed certificate, or where every scanned signer is on it. */
  predicate Terminal(scanned: seq<Cert>, path: seq<Cert>, signs: SignatureCheck)
    requires path != []
  {
    IsSelfSigned(path[|path| - 1]) || forall c <- scanned :: !NextHop(scanned, RawsOf(path), path[|path| - 1], c, signs)
  }

  predicate PathLink(scanned: seq<Cert>, path: seq<Cert>, k: nat, signs: SignatureCheck)
    requires 0 < k < |path|
  {
    && path[k] in scanned && signs(path[k - 1], path[k]) && !IsSelfSigned(path[k - 1])
    && FirstHop(scanned, RawsOf(path[..k]), path[k - 1], signs, 0) == Some(path[k])
  }

  /** Signed step by step, each time by the first scanned signer not on the path yet. */
  predicate SignedPath(scanned: seq<Cert>, path: seq<Cert>, signs: SignatureCheck) {
    && (forall k :: 0 < k < |path| ==> PathLink(scanned, path, k, signs))
    && (forall i, j :: 0 <= i < j < |path| ==> path[i].raw != path[j].raw)
  }

  lemma PathOneMore(scanned: seq<Cert>, path: seq<Cert>, c: Cert, signs: SignatureCheck)
    requires path != [] && SignedPath(scanned, path, signs) && !IsSelfSigned(path[|path| - 1])
    requires FirstHop(scanned, RawsOf(path), path[|path| - 1], signs, 0) == Some(c)
    ensures SignedPath(scanned, path + [c], signs) && RawsOf(path + [c]) == RawsOf(path) + {c.raw}
  {
    var all := path + [c];
    forall k | 0 < k < |all|
      ensures PathLink(scanned, all, k, signs)
    {
      if k < |path| {
        assert PathLink(scanned, path, k, signs) && all[..k] == path[..k];
      } else {
        assert all[..k] == path;
      }
    }
    forall k | 0 <= k < |path|
      ensures path[k].raw != c.raw
    {
      assert path[k] in path;
    }
  }

  /** The first next hop in scan order, at `from` or later. */
  function FirstHop(scanned: seq<Cert>, seen: set<Bytes>, current: Cert, signs: SignatureCheck, from: nat)
    : (next: Option<Cert>)
    requires from <= |scanned|
    ensures next.Some? ==> NextHop(scanned, seen, current, next.value, signs)
    ensures next.None? ==> forall k :: from <= k < |scanned| ==> !NextHop(scanned, seen, current, scanned[k], signs)
    decreases |scanned| - from
  {
    if from == |scanned| then None
    else if scanned[from].raw !in seen && signs(current, scanned[from]) then Some(scanned[from])
    else FirstHop(scanned, seen, current, signs, from + 1)
  }

  method FindHop(scanned: seq<Cert>, seen: set<Bytes>, current: Cert, signs: SignatureCheck)
    returns (next: Option<Cert>)
    ensures next == FirstHop(scanned, seen, current, signs, 0)
  {
    for i := 0 to |scanned|
      invariant FirstHop(scanned, seen, current, signs, 0) == FirstHop(scanned, seen, current, signs, i)
    {
      if scanned[i].raw !in seen && signs(current, scanned[i]) {
        return Some(scanned[i]);
      }
    }
    return None;
  }

  /** A path with more steps than scanned certificates has used them all. */
  lemma LongPathUsesAll(scanned: seq<Cert>, path: seq<Cert>, signs: SignatureCheck)
    requires SignedPath(scanned, path, signs) && |path| == |scanned| + 1
    ensures ScanRaws(scanned) <= RawsOf(path)
  {
    var tail := path[1..];
    var raws := seq(|tail|, i requires 0 <= i < |tail| => tail[i].raw);
    assert forall i :: 0 <= i < |raws| ==> raws[i] == path[i + 1].raw;
    SizeOfDistinct(raws);
    SizeOfScan(scanned);
    assert Elements(raws) <= ScanRaws(scanned) by {
      forall r | r in raws
        ensures r in ScanRaws(scanned)
      {
        var i :| 0 <= i < |raws| && raws[i] == r;
        assert PathLink(scanned, path, i + 1, signs);
      }
    }
    SameSize(Elements(raws), ScanRaws(scanned));
    forall r | r in Elements(raws)
      ensures r in RawsOf(path)
    {
      var i :| 0 <= i < |raws| && raws[i] == r;
      assert path[i + 1] in path;
    }
  }

  lemma {:induction false} SizeOfDistinct<T>(s: seq<T>)
    requires forall i, j :: 0 <= i < j < |s| ==> s[i] != s[j]
    ensures |Elements(s)| == |s|
  {
    if s != [] {
      var n := |s| - 1;
      SizeOfDistinct(s[..n]);
      assert Elements(s) == Elements(s[..n]) + {s[n]};
    }
  }

  lemma {:induction false} SizeOfScan(scanned: seq<Cert>)
    ensures |ScanRaws(scanned)| <= |scanned|
  {
    if scanned != [] {
      var n := |scanned| - 1;
      SizeOfScan(scanned[..n]);
      assert scanned == scanned[..n] + [scanned[n]];
      assert ScanRaws(scanned) == ScanRaws(scanned[..n]) + {scanned[n].raw};
    }
  }

  lemma {:induction false} SameSize<T>(a: set<T>, b: set<T>)
    requires a <= b && |a| >= |b|
    ensures a == b
  {
    if x :| x in b && x !in a {
      Sequences.SubsetIsSmaller(a, b - {x});
    }
  }

  /** The walk is bounded by the number of scanned certificates, and the bound never cuts it short. */
  method TerminalOfPath(cert: Cert, scanned: seq<Cert>, signs: SignatureCheck)
    returns (current: Cert, ghost path: seq<Cert>)
    ensures path != [] && path[0] == cert && path[|path| - 1] == current
    ensures SignedPath(scanned, path, signs) && Terminal(scanned, path, signs)
  {
    current, path := cert, [cert];
    var seen := {cert.raw};
    for i := 0 to |scanned|
      invariant |path| == i + 1 && path[0] == cert && path[i] == current
      invariant SignedPath(scanned, path, signs) && seen == RawsOf(path)
    {
      if IsSelfSigned(current) {
        return;
      }
      var next := FindHop(scanned, seen, current, signs);
      if next.None? {
        return;
      }
      seen := seen + {next.value.raw};
      PathOneMore(scanned, path, next.value, signs);
      current, path := next.value, path + [next.value];
    }
    LongPathUsesAll(scanned, path, signs);
    forall c | c in scanned
      ensures c.raw in RawsOf(path)
    {
      assert c.raw in ScanRaws(scanned);
    }
  }
}
