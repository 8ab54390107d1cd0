/** Relation detection and the two-way relation index of `relations.go`. */
module Relations {
  import opened CertTypes
  import Sequences

  datatype RelationType = SignedBy | KeyCert | KeyCSR | CSRCert | SameCert

  datatype Direction = Outgoing | Incoming

  datatype Relation = Relation(kind: RelationType, source: ItemRef, target: ItemRef)

  /** One entry of the index. The display label is not modelled. */
  datatype Resolved = Resolved(kind: RelationType, direction: Direction, peer: ItemRef)

  type RelationIndex = map<ItemRef, seq<Resolved>>

  // ---------------------------------------------------------------------------------------------
  // Items of a store, in scan order
  // ---------------------------------------------------------------------------------------------

  datatype Slot = Slot(ref: ItemRef, item: Item)

  function SlotsIn(store: Store, ci: nat, n: nat): (slots: seq<Slot>)
    requires ci < |store| && n <= |store[ci].items|
    ensures |slots| == n
  {
    if n == 0 then [] else SlotsIn(store, ci, n - 1) + [Slot(RefTo(store, ci, n - 1), store[ci].items[n - 1])]
  }

  function SlotsBefore(store: Store, n: nat): (slots: seq<Slot>)
    requires n <= |store|
  {
    if n == 0 then [] else SlotsBefore(store, n - 1) + SlotsIn(store, n - 1, |store[n - 1].items|)
  }

  function Slots(store: Store): seq<Slot> {
    SlotsBefore(store, |store|)
  }

  /** `ref` is the reference of an item of the store. */
  predicate ValidRef(store: Store, ref: ItemRef) {
    && 0 <= ref.containerIdx < |store|
    && 0 <= ref.itemIdx < |store[ref.containerIdx].items|
    && ref == RefTo(store, ref.containerIdx, ref.itemIdx)
  }

  lemma {:induction false} SlotsInExact(store: Store, ci: nat, n: nat, slot: Slot)
    requires ci < |store| && n <= |store[ci].items|
    ensures slot in SlotsIn(store, ci, n) <==>
            ValidRef(store, slot.ref) && slot.ref.containerIdx == ci && slot.ref.itemIdx < n
            && slot.item == store[ci].items[slot.ref.itemIdx]
  {
    if n > 0 {
      SlotsInExact(store, ci, n - 1, slot);
    }
  }

  lemma {:induction false} SlotsBeforeExact(store: Store, n: nat, slot: Slot)
    requires n <= |store|
    ensures slot in SlotsBefore(store, n) <==>
            ValidRef(store, slot.ref) && slot.ref.containerIdx < n
            && Some(slot.item) == SafeItem(store, slot.ref)
  {
    if n > 0 {
      var before, last := SlotsBefore(store, n - 1), SlotsIn(store, n - 1, |store[n - 1].items|);
      SlotsBeforeExact(store, n - 1, slot);
      SlotsInExact(store, n - 1, |store[n - 1].items|, slot);
      assert slot in before + last <==> slot in before || slot in last;
    }
  }

  // ---------------------------------------------------------------------------------------------
  // signed_by
  // ---------------------------------------------------------------------------------------------

  datatype CertRef = CertRef(ref: ItemRef, cert: Cert)

  function CertsOf(slots: seq<Slot>): (certs: seq<CertRef>) {
    if slots == [] then []
    else
      var last := slots[|slots| - 1];
      var before := CertsOf(slots[..|slots| - 1]);
      if IsCert(last.item) then before + [CertRef(last.ref, last.item.certificate.value)] else before
  }

  lemma CertsOfAppend(slots: seq<Slot>, more: seq<Slot>)
    ensures CertsOf(slots + more) == CertsOf(slots) + CertsOf(more)
  {
    if more == [] {
      assert slots + more == slots;
    } else {
      var k := |more| - 1;
      assert (slots + more)[..|slots + more| - 1] == slots + more[..k];
      CertsOfAppend(slots, more[..k]);
    }
  }

  lemma {:induction false} CertsOfExact(slots: seq<Slot>, c: CertRef)
    ensures c in CertsOf(slots) <==>
              exists s <- slots :: s.ref == c.ref && IsCert(s.item) && s.item.certificate == Some(c.cert)
  {
    if slots != [] {
      CertsOfExact(slots[..|slots| - 1], c);
      var last := slots[|slots| - 1];
      assert slots == slots[..|slots| - 1] + [last];
    }
  }

  function SignedRow(child: CertRef, certs: seq<CertRef>, n: nat, signs: SignatureCheck): seq<Relation>
    requires n <= |certs|
  {
    if n == 0 then []
    else if child.ref != certs[n - 1].ref && MatchesIssuer(child.cert, certs[n - 1].cert, signs)
    then SignedRow(child, certs, n - 1, signs) + [Relation(SignedBy, child.ref, certs[n - 1].ref)]
    else SignedRow(child, certs, n - 1, signs)
  }

  function SignedRows(certs: seq<CertRef>, n: nat, signs: SignatureCheck): seq<Relation>
    requires n <= |certs|
  {
    if n == 0 then []
    else if IsSelfSigned(certs[n - 1].cert) then SignedRows(certs, n - 1, signs)
    else SignedRows(certs, n - 1, signs) + SignedRow(certs[n - 1], certs, |certs|, signs)
  }

  function SignedByRelations(store: Store, signs: SignatureCheck): seq<Relation> {
    var certs := CertsOf(Slots(store));
    SignedRows(certs, |certs|, signs)
  }

  lemma OneMoreSlot(store: Store, ci: nat, ii: nat)
    requires ci < |store| && ii < |store[ci].items|
    ensures var item, before := store[ci].items[ii], CertsOf(SlotsIn(store, ci, ii));
            CertsOf(SlotsIn(store, ci, ii + 1))
            == if IsCert(item) then before + [CertRef(RefTo(store, ci, ii), item.certificate.value)] else before
  {
    assert SlotsIn(store, ci, ii + 1)[..ii] == SlotsIn(store, ci, ii);
  }

  method CollectCerts(store: Store) returns (certs: seq<CertRef>)
    ensures certs == CertsOf(Slots(store))
  {
    certs := [];
    for ci := 0 to |store|
      invariant certs == CertsOf(SlotsBefore(store, ci))
    {
      for ii := 0 to |store[ci].items|
        invariant certs == CertsOf(SlotsBefore(store, ci)) + CertsOf(SlotsIn(store, ci, ii))
      {
        var item := store[ci].items[ii];
        OneMoreSlot(store, ci, ii);
        if IsCert(item) {
          certs := certs + [CertRef(RefTo(store, ci, ii), item.certificate.value)];
        }
      }
      CertsOfAppend(SlotsBefore(store, ci), SlotsIn(store, ci, |store[ci].items|));
    }
  }

  method DetectSignedBy(store: Store, signs: SignatureCheck) returns (relations: seq<Relation>)
    ensures relations == SignedByRelations(store, signs)
  {
    var certs := CollectCerts(store);
    relations := [];
    for i := 0 to |certs|
      invariant relations == SignedRows(certs, i, signs)
    {
      var child := certs[i];
      if IsSelfSigned(child.cert) {
        continue;
      }
      for j := 0 to |certs|
        invariant relations == SignedRows(certs, i, signs) + SignedRow(child, certs, j, signs)
      {
        var parent := certs[j];
        if child.ref == parent.ref {
          continue;
        }
        if MatchesIssuer(child.cert, parent.cert, signs) {
          relations := relations + [Relation(SignedBy, child.ref, parent.ref)];
        }
      }
    }
  }

  /** `child` and `parent` are two different certificate items of the store and the first, which does not vouch for
      itself, is issued and signed by the second: names agree, and so do key identifiers where both have them. */
  predicate Issued(store: Store, child: ItemRef, parent: ItemRef, signs: SignatureCheck) {
    && CertRefOf(store, child) && CertRefOf(store, parent) && child != parent
    && var c, p := CertAt(store, child).value, CertAt(store, parent).value;
       && !(c.subject == c.issuer
            && (c.subjectKeyId == [] || c.authorityKeyId == [] || c.subjectKeyId == c.authorityKeyId))
       && c.issuer == p.subject
       && (c.authorityKeyId == [] || p.subjectKeyId == [] || c.authorityKeyId == p.subjectKeyId)
       && signs(c, p)
  }

  /** The same, as the detector asks it. */
  predicate Checked(store: Store, child: ItemRef, parent: ItemRef, signs: SignatureCheck) {
    && CertRefOf(store, child) && CertRefOf(store, parent) && child != parent
    && !IsSelfSigned(CertAt(store, child).value)
    && MatchesIssuer(CertAt(store, child).value, CertAt(store, parent).value, signs)
  }

  lemma CheckedIsIssued(store: Store, child: ItemRef, parent: ItemRef, signs: SignatureCheck)
    ensures Checked(store, child, parent, signs) <==> Issued(store, child, parent, signs)
  {}

  predicate CertRefOf(store: Store, ref: ItemRef) {
    ValidRef(store, ref) && IsCert(SafeItem(store, ref).value)
  }

  lemma StoreCertsExact(store: Store, c: CertRef)
    ensures c in CertsOf(Slots(store)) <==> CertRefOf(store, c.ref) && CertAt(store, c.ref) == Some(c.cert)
  {
    CertsOfExact(Slots(store), c);
    forall slot: Slot
      ensures slot in Slots(store) <==> ValidRef(store, slot.ref) && Some(slot.item) == SafeItem(store, slot.ref)
    {
      SlotsBeforeExact(store, |store|, slot);
    }
    if CertRefOf(store, c.ref) && CertAt(store, c.ref) == Some(c.cert) {
      assert Slot(c.ref, SafeItem(store, c.ref).value) in Slots(store);
    }
  }

  lemma {:induction false} SignedRowExact(child: CertRef, certs: seq<CertRef>, n: nat, signs: SignatureCheck,
                                          rel: Relation)
    requires n <= |certs|
    ensures rel in SignedRow(child, certs, n, signs) <==>
            exists j :: 0 <= j < n && rel == Relation(SignedBy, child.ref, certs[j].ref)
                        && child.ref != certs[j].ref && MatchesIssuer(child.cert, certs[j].cert, signs)
  {
    if n > 0 {
      SignedRowExact(child, certs, n - 1, signs, rel);
    }
  }

  lemma {:induction false} SignedRowsExact(certs: seq<CertRef>, n: nat, signs: SignatureCheck, rel: Relation)
    requires n <= |certs|
    ensures rel in SignedRows(certs, n, signs) <==>
            exists i, j :: 0 <= i < n && 0 <= j < |certs| && rel == Relation(SignedBy, certs[i].ref, certs[j].ref)
                           && !IsSelfSigned(certs[i].cert) && certs[i].ref != certs[j].ref
                           && MatchesIssuer(certs[i].cert, certs[j].cert, signs)
  {
    if n > 0 {
      SignedRowsExact(certs, n - 1, signs, rel);
      SignedRowExact(certs[n - 1], certs, |certs|, signs, rel);
    }
  }

  /** The detector reports a pair if and only if the second item really issued the first. */
  lemma SignedByExact(store: Store, signs: SignatureCheck, rel: Relation)
    ensures rel in SignedByRelations(store, signs) <==>
            rel.kind == SignedBy && Issued(store, rel.source, rel.target, signs)
  {
    SignedByChecked(store, signs, rel);
    CheckedIsIssued(store, rel.source, rel.target, signs);
  }

  lemma SignedByChecked(store: Store, signs: SignatureCheck, rel: Relation)
    ensures rel in SignedByRelations(store, signs) <==>
            rel.kind == SignedBy && Checked(store, rel.source, rel.target, signs)
  {
    var certs := CertsOf(Slots(store));
    SignedRowsExact(certs, |certs|, signs, rel);
    forall c: CertRef
      ensures c in certs <==> CertRefOf(store, c.ref) && CertAt(store, c.ref) == Some(c.cert)
    {
      StoreCertsExact(store, c);
    }
    if rel.kind == SignedBy && Checked(store, rel.source, rel.target, signs) {
      var a := CertRef(rel.source, CertAt(store, rel.source).value);
      var b := CertRef(rel.target, CertAt(store, rel.target).value);
      assert a in certs && b in certs;
      var i :| 0 <= i < |certs| && certs[i] == a;
      var j :| 0 <= j < |certs| && certs[j] == b;
    }
    if rel in SignedByRelations(store, signs) {
      var i, j :| 0 <= i < |certs| && 0 <= j < |certs| && rel == Relation(SignedBy, certs[i].ref, certs[j].ref)
                  && !IsSelfSigned(certs[i].cert) && certs[i].ref != certs[j].ref
                  && MatchesIssuer(certs[i].cert, certs[j].cert, signs);
      assert certs[i] in certs && certs[j] in certs;
    }
  }

  // ---------------------------------------------------------------------------------------------
  // Public-key pairs: a hash join
  // ---------------------------------------------------------------------------------------------

  /** A pair relation joins the items that probe with the items that are indexed. */
  datatype Side = Probe | Indexed

  /** The public key an item contributes to one side of a pair relation. */
  function KeyOn(kind: RelationType, side: Side, item: Item): Option<Bytes> {
    var ofKey := if item.kind == PrivateKey && item.key.Some? then item.key.value.publicKey else None;
    var ofCSR := if item.kind == CSR then item.csrPublicKey else None;
    var ofCert := if IsCert(item) then item.certificate.value.publicKey else None;
    match side
    case Probe => if kind == CSRCert then ofCSR else ofKey
    case Indexed => if kind == KeyCSR then ofCSR else ofCert
  }

  datatype KeyRef = KeyRef(ref: ItemRef, key: Bytes)

  function KeysOf(slots: seq<Slot>, kind: RelationType, side: Side): seq<KeyRef> {
    if slots == [] then []
    else
      var last := slots[|slots| - 1];
      var before := KeysOf(slots[..|slots| - 1], kind, side);
      match KeyOn(kind, side, last.item)
      case Some(key) => before + [KeyRef(last.ref, key)]
      case None => before
  }

  function WithKey(entries: seq<KeyRef>, key: Bytes): seq<ItemRef> {
    if entries == [] then []
    else
      var last := entries[|entries| - 1];
      if last.key == key then WithKey(entries[..|entries| - 1], key) + [last.ref]
          else WithKey(entries[..|entries| - 1], key)
  }

  function Pairs(kind: RelationType, source: ItemRef, targets: seq<ItemRef>): seq<Relation> {
    seq(|targets|, i requires 0 <= i < |targets| => Relation(kind, source, targets[i]))
  }

  /** The nested-loop join the hash join computes: every key against every entry, in order. */
  function NestedJoin(kind: RelationType, keys: seq<KeyRef>, entries: seq<KeyRef>): seq<Relation> {
    if keys == [] then []
    else
      var last := keys[|keys| - 1];
      NestedJoin(kind, keys[..|keys| - 1], entries) + Pairs(kind, last.ref, WithKey(entries, last.key))
  }

  function Bucket(buckets: map<Bytes, seq<ItemRef>>, key: Bytes): seq<ItemRef> {
    if key in buckets then buckets[key] else []
  }

  lemma KeysOfStep(slots: seq<Slot>, slot: Slot, kind: RelationType, side: Side)
    ensures KeysOf(slots + [slot], kind, side)
            == match KeyOn(kind, side, slot.item) {
                 case Some(key) => KeysOf(slots, kind, side) + [KeyRef(slot.ref, key)]
                 case None => KeysOf(slots, kind, side)
               }
  {
    assert (slots + [slot])[..|slots|] == slots;
  }

  ghost predicate BucketsOf(buckets: map<Bytes, seq<ItemRef>>, entries: seq<KeyRef>) {
    forall k :: Bucket(buckets, k) == WithKey(entries, k)
  }

  lemma BucketsStep(buckets: map<Bytes, seq<ItemRef>>, entries: seq<KeyRef>, e: KeyRef)
    requires BucketsOf(buckets, entries)
    ensures BucketsOf(buckets[e.key := Bucket(buckets, e.key) + [e.ref]], entries + [e])
  {
    assert (entries + [e])[..|entries|] == entries;
    var after := buckets[e.key := Bucket(buckets, e.key) + [e.ref]];
    forall k
      ensures Bucket(after, k) == WithKey(entries + [e], k)
    {
      assert Bucket(buckets, k) == WithKey(entries, k);
    }
  }

  /** One item of the scan: file it under its key, and remember it if it probes. */
  method ScanItem(kind: RelationType, ref: ItemRef, item: Item, buckets: map<Bytes, seq<ItemRef>>,
                  keys: seq<KeyRef>, ghost done: seq<Slot>)
    returns (buckets': map<Bytes, seq<ItemRef>>, keys': seq<KeyRef>)
    requires keys == KeysOf(done, kind, Probe) && BucketsOf(buckets, KeysOf(done, kind, Indexed))
    ensures keys' == KeysOf(done + [Slot(ref, item)], kind, Probe)
    ensures BucketsOf(buckets', KeysOf(done + [Slot(ref, item)], kind, Indexed))
  {
    KeysOfStep(done, Slot(ref, item), kind, Probe);
    KeysOfStep(done, Slot(ref, item), kind, Indexed);
    buckets', keys' := buckets, keys;
    var key := KeyOn(kind, Indexed, item);
    if key.Some? {
      BucketsStep(buckets, KeysOf(done, kind, Indexed), KeyRef(ref, key.value));
      buckets' := buckets[key.value := Bucket(buckets, key.value) + [ref]];
    }
    key := KeyOn(kind, Probe, item);
    if key.Some? {
      keys' := keys + [KeyRef(ref, key.value)];
    }
  }

  /** One hash map keyed by public key replaces the quadratic comparison and changes nothing. */
  method DetectPairs(store: Store, kind: RelationType) returns (relations: seq<Relation>)
    ensures relations == NestedJoin(kind, KeysOf(Slots(store), kind, Probe), KeysOf(Slots(store), kind, Indexed))
  {
    var buckets: map<Bytes, seq<ItemRef>> := map[];
    var keys: seq<KeyRef> := [];
    for ci := 0 to |store|
      invariant keys == KeysOf(SlotsBefore(store, ci), kind, Probe)
      invariant BucketsOf(buckets, KeysOf(SlotsBefore(store, ci), kind, Indexed))
    {
      ghost var done := SlotsBefore(store, ci);
      assert done + SlotsIn(store, ci, 0) == done;
      for ii := 0 to |store[ci].items|
        invariant keys == KeysOf(done + SlotsIn(store, ci, ii), kind, Probe)
        invariant BucketsOf(buckets, KeysOf(done + SlotsIn(store, ci, ii), kind, Indexed))
      {
        var item := store[ci].items[ii];
        buckets, keys := ScanItem(kind, RefTo(store, ci, ii), item, buckets, keys, done + SlotsIn(store, ci, ii));
        assert done + SlotsIn(store, ci, ii) + [Slot(RefTo(store, ci, ii), item)] == done + SlotsIn(store, ci, ii + 1);
      }
    }
    ghost var entries := KeysOf(Slots(store), kind, Indexed);
    relations := [];
    for i := 0 to |keys|
      invariant relations == NestedJoin(kind, keys[..i], entries)
    {
      assert keys[..i + 1][..i] == keys[..i];
      relations := relations + Pairs(kind, keys[i].ref, Bucket(buckets, keys[i].key));
    }
    assert keys[..|keys|] == keys;
  }

  lemma {:induction false} WithKeyExact(entries: seq<KeyRef>, key: Bytes, ref: ItemRef)
    ensures ref in WithKey(entries, key) <==> KeyRef(ref, key) in entries
  {
    if entries != [] {
      WithKeyExact(entries[..|entries| - 1], key, ref);
      assert entries == entries[..|entries| - 1] + [entries[|entries| - 1]];
    }
  }

  lemma {:induction false} NestedJoinExact(kind: RelationType, keys: seq<KeyRef>, entries: seq<KeyRef>, rel: Relation)
    ensures rel in NestedJoin(kind, keys, entries) <==>
            rel.kind == kind && exists k <- keys :: k.ref == rel.source && KeyRef(rel.target, k.key) in entries
  {
    if keys != [] {
      var last := keys[|keys| - 1];
      assert keys == keys[..|keys| - 1] + [last];
      NestedJoinExact(kind, keys[..|keys| - 1], entries, rel);
      var targets := WithKey(entries, last.key);
      WithKeyExact(entries, last.key, rel.target);
      if rel.target in targets && rel.kind == kind && rel.source == last.ref {
        var i :| 0 <= i < |targets| && targets[i] == rel.target;
        assert Pairs(kind, last.ref, targets)[i] == rel;
      }
    }
  }

  lemma {:induction false} KeysOfExact(slots: seq<Slot>, kind: RelationType, side: Side, k: KeyRef)
    ensures k in KeysOf(slots, kind, side) <==>
        exists s <- slots :: s.ref == k.ref && KeyOn(kind, side, s.item) == Some(k.key)
  {
    if slots != [] {
      KeysOfExact(slots[..|slots| - 1], kind, side, k);
      assert slots == slots[..|slots| - 1] + [slots[|slots| - 1]];
    }
  }

  /** A pair is reported if and only if the two items carry the same public key. */
  lemma PairsExact(store: Store, kind: RelationType, rel: Relation)
    ensures rel in NestedJoin(kind, KeysOf(Slots(store), kind, Probe), KeysOf(Slots(store), kind, Indexed)) <==>
            && rel.kind == kind && ValidRef(store, rel.source) && ValidRef(store, rel.target)
            && KeyOn(kind, Probe, SafeItem(store, rel.source).value).Some?
            && KeyOn(kind, Probe, SafeItem(store, rel.source).value)
                == KeyOn(kind, Indexed, SafeItem(store, rel.target).value)
  {
    NestedJoinExact(kind, KeysOf(Slots(store), kind, Probe), KeysOf(Slots(store), kind, Indexed), rel);
    forall k: KeyRef, side
      ensures k in KeysOf(Slots(store), kind, side) <==>
              ValidRef(store, k.ref) && KeyOn(kind, side, SafeItem(store, k.ref).value) == Some(k.key)
    {
      KeysOfExact(Slots(store), kind, side, k);
      forall slot: Slot
        ensures slot in Slots(store) <==> ValidRef(store, slot.ref) && Some(slot.item) == SafeItem(store, slot.ref)
      {
        SlotsBeforeExact(store, |store|, slot);
      }
      if ValidRef(store, k.ref) {
        assert Slot(k.ref, SafeItem(store, k.ref).value) in Slots(store);
      }
    }
    if ValidRef(store, rel.source) && KeyOn(kind, Probe, SafeItem(store, rel.source).value).Some? {
      assert KeyRef(rel.source, KeyOn(kind, Probe, SafeItem(store, rel.source).value).value) in KeysOf(Slots(store),
          kind, Probe);
    }
  }

  predicate KeyWith(item: Item, key: Bytes) {
    item.kind == PrivateKey && item.key.Some? && item.key.value.publicKey == Some(key)
  }

  predicate CSRWith(item: Item, key: Bytes) {
    item.kind == CSR && item.csrPublicKey == Some(key)
  }

  predicate CertWith(item: Item, key: Bytes) {
    item.kind == Certificate && item.certificate.Some? && item.certificate.value.publicKey == Some(key)
  }

  /** A private key and a certificate of its public half. */
  lemma KeyCertExact(store: Store, rel: Relation)
    ensures rel in PairsOf(store, KeyCert) <==>
              && rel.kind == KeyCert && ValidRef(store, rel.source) && ValidRef(store, rel.target)
              && exists key :: KeyWith(SafeItem(store, rel.source).value, key)
                               && CertWith(SafeItem(store, rel.target).value, key)
  {
    PairsExact(store, KeyCert, rel);
    if rel in PairsOf(store, KeyCert) {
      var key := KeyOn(KeyCert, Probe, SafeItem(store, rel.source).value).value;
      assert KeyWith(SafeItem(store, rel.source).value, key);
    }
  }

  /** A private key and a request for its public half. */
  lemma KeyCSRExact(store: Store, rel: Relation)
    ensures rel in PairsOf(store, KeyCSR) <==>
              && rel.kind == KeyCSR && ValidRef(store, rel.source) && ValidRef(store, rel.target)
              && exists key :: KeyWith(SafeItem(store, rel.source).value, key)
                               && CSRWith(SafeItem(store, rel.target).value, key)
  {
    PairsExact(store, KeyCSR, rel);
    if rel in PairsOf(store, KeyCSR) {
      var key := KeyOn(KeyCSR, Probe, SafeItem(store, rel.source).value).value;
      assert KeyWith(SafeItem(store, rel.source).value, key);
    }
  }

  /** A request and a certificate of one public key. */
  lemma CSRCertExact(store: Store, rel: Relation)
    ensures rel in PairsOf(store, CSRCert) <==>
              && rel.kind == CSRCert && ValidRef(store, rel.source) && ValidRef(store, rel.target)
              && exists key :: CSRWith(SafeItem(store, rel.source).value, key)
                               && CertWith(SafeItem(store, rel.target).value, key)
  {
    PairsExact(store, CSRCert, rel);
    if rel in PairsOf(store, CSRCert) {
      var key := KeyOn(CSRCert, Probe, SafeItem(store, rel.source).value).value;
      assert CSRWith(SafeItem(store, rel.source).value, key);
    }
  }

  // ---------------------------------------------------------------------------------------------
  // same_cert
  // ---------------------------------------------------------------------------------------------

  /** The references whose certificate has these raw bytes, in scan order. */
  function WithRaw(certs: seq<CertRef>, raw: Bytes): (refs: seq<ItemRef>) {
    if certs == [] then []
    else
      var last := certs[|certs| - 1];
      if last.cert.raw == raw then WithRaw(certs[..|certs| - 1], raw) + [last.ref]
          else WithRaw(certs[..|certs| - 1], raw)
  }

  lemma WithRawStep(certs: seq<CertRef>, c: CertRef)
    ensures forall raw :: WithRaw(certs + [c], raw) == if c.cert.raw == raw then WithRaw(certs, raw) + [c.ref]
        else WithRaw(certs, raw)
  {
    assert (certs + [c])[..|certs|] == certs;
  }

  ghost predicate DuplicatePair(certs: seq<CertRef>, rel: Relation, raw: Bytes) {
    && rel.kind == SameCert
    && var refs := WithRaw(certs, raw);
       exists i, j :: 0 <= i < j < |refs| && rel == Relation(SameCert, refs[i], refs[j])
  }

  predicate DistinctRefs(certs: seq<CertRef>) {
    forall i, j :: 0 <= i < j < |certs| ==> certs[i].ref != certs[j].ref
  }

  predicate DistinctSlots(slots: seq<Slot>) {
    forall i, j :: 0 <= i < j < |slots| ==> slots[i].ref != slots[j].ref
  }

  lemma DistinctAppend(a: seq<Slot>, b: seq<Slot>)
    requires DistinctSlots(a) && DistinctSlots(b) && forall x <- a, y <- b :: x.ref != y.ref
    ensures DistinctSlots(a + b)
  {
    forall i, j | 0 <= i < j < |a + b| ensures (a + b)[i].ref != (a + b)[j].ref {
      if i < |a| <= j {
        assert a[i] in a && b[j - |a|] in b;
      }
    }
  }

  lemma {:induction false} SlotsInDiffer(store: Store, ci: nat, n: nat)
    requires ci < |store| && n <= |store[ci].items|
    ensures DistinctSlots(SlotsIn(store, ci, n))
  {
    if n > 0 {
      SlotsInDiffer(store, ci, n - 1);
      forall x | x in SlotsIn(store, ci, n - 1) ensures x.ref.itemIdx < n - 1 {
        SlotsInExact(store, ci, n - 1, x);
      }
      DistinctAppend(SlotsIn(store, ci, n - 1), [Slot(RefTo(store, ci, n - 1), store[ci].items[n - 1])]);
    }
  }

  lemma {:induction false} SlotsDiffer(store: Store, n: nat)
    requires n <= |store|
    ensures DistinctSlots(SlotsBefore(store, n))
  {
    if n > 0 {
      var last := |store[n - 1].items|;
      SlotsDiffer(store, n - 1);
      SlotsInDiffer(store, n - 1, last);
      forall x, y | x in SlotsBefore(store, n - 1) && y in SlotsIn(store, n - 1, last) ensures x.ref != y.ref {
        SlotsBeforeExact(store, n - 1, x);
        SlotsInExact(store, n - 1, last, y);
      }
      DistinctAppend(SlotsBefore(store, n - 1), SlotsIn(store, n - 1, last));
    }
  }

  lemma {:induction false} CertsDiffer(slots: seq<Slot>)
    requires DistinctSlots(slots)
    ensures DistinctRefs(CertsOf(slots))
  {
    if slots != [] {
      var front, last := slots[..|slots| - 1], slots[|slots| - 1];
      CertsDiffer(front);
      forall c | c in CertsOf(front) ensures c.ref != last.ref {
        CertsOfExact(front, c);
      }
    }
  }

  predicate HasCert(certs: seq<CertRef>, ref: ItemRef, raw: Bytes) {
    exists c <- certs :: c.ref == ref && c.cert.raw == raw
  }

  /** A group's references are distinct and belong to certificates with the group's bytes. */
  lemma {:induction false} WithRawDiffer(certs: seq<CertRef>, raw: Bytes)
    requires DistinctRefs(certs)
    ensures Sequences.NoRepeats(WithRaw(certs, raw))
    ensures forall ref <- WithRaw(certs, raw) :: HasCert(certs, ref, raw)
  {
    if certs != [] {
      var front, last := certs[..|certs| - 1], certs[|certs| - 1];
      WithRawDiffer(front, raw);
      forall ref | ref in WithRaw(front, raw) ensures ref != last.ref {
        assert HasCert(front, ref, raw);
        var c :| c in front && c.ref == ref && c.cert.raw == raw;
      }
      assert forall i :: 0 <= i < |WithRaw(front, raw)| ==> WithRaw(front, raw)[i] in WithRaw(front, raw);
      assert certs == front + [last];
      forall ref | ref in WithRaw(certs, raw) ensures HasCert(certs, ref, raw) {
        if ref in WithRaw(front, raw) {
          assert HasCert(front, ref, raw);
          var c :| c in front && c.ref == ref && c.cert.raw == raw;
          assert c in certs;
        } else {
          assert last in certs && ref == last.ref && last.cert.raw == raw;
        }
      }
    }
  }

  /** A pair belongs to one group only, and in one order only. */
  lemma PairedOnce(certs: seq<CertRef>, rel: Relation, other: Relation, raw: Bytes, raw': Bytes)
    requires DistinctRefs(certs) && DuplicatePair(certs, rel, raw) && DuplicatePair(certs, other, raw')
    ensures rel == other ==> raw == raw'
    ensures rel.source != other.target || rel.target != other.source
  {
    WithRawDiffer(certs, raw);
    WithRawDiffer(certs, raw');
    var refs, refs' := WithRaw(certs, raw), WithRaw(certs, raw');
    var i, j :| 0 <= i < j < |refs| && rel == Relation(SameCert, refs[i], refs[j]);
    var k, l :| 0 <= k < l < |refs'| && other == Relation(SameCert, refs'[k], refs'[l]);
    if raw == raw' {
      OneOrder(refs, i, j, k, l);
    } else {
      assert refs[i] in refs && refs'[k] in refs' && refs'[l] in refs';
      OtherGroup(certs, refs[i], raw, raw');
    }
  }

  lemma OneOrder(refs: seq<ItemRef>, i: nat, j: nat, k: nat, l: nat)
    requires Sequences.NoRepeats(refs) && i < j < |refs| && k < l < |refs|
    ensures refs[i] != refs[l] || refs[j] != refs[k]
  {
    if i == l {
      assert k < j;
    }
  }

  lemma OtherGroup(certs: seq<CertRef>, ref: ItemRef, raw: Bytes, raw': Bytes)
    requires DistinctRefs(certs) && ref in WithRaw(certs, raw) && raw != raw'
    ensures ref !in WithRaw(certs, raw')
  {
    WithRawDiffer(certs, raw);
    WithRawDiffer(certs, raw');
    assert HasCert(certs, ref, raw);
    assert ref in WithRaw(certs, raw') ==> HasCert(certs, ref, raw');
  }

  lemma OnceMore(certs: seq<CertRef>, before: seq<Relation>, added: seq<Relation>, raw: Bytes)
    requires DistinctRefs(certs) && Sequences.NoRepeats(before) && Sequences.NoRepeats(added)
    requires forall rel <- before :: exists r :: r != raw && DuplicatePair(certs, rel, r)
    requires forall rel <- added :: DuplicatePair(certs, rel, raw)
    ensures Sequences.NoRepeats(before + added)
  {
    forall i, j | 0 <= i < |before| && 0 <= j < |added| ensures before[i] != added[j] {
      assert before[i] in before && added[j] in added;
      var r :| r != raw && DuplicatePair(certs, before[i], r);
      PairedOnce(certs, before[i], added[j], r, raw);
    }
  }

  /** Groups by raw bytes, then pairs up each group. The groups are visited in any order. */
  method DetectDuplicates(store: Store) returns (relations: seq<Relation>)
    ensures Sequences.NoRepeats(relations)
    ensures forall rel :: rel in relations <==> exists raw :: DuplicatePair(CertsOf(Slots(store)), rel, raw)
  {
    var certs := CollectCerts(store);
    var groups: map<Bytes, seq<ItemRef>> := map[];
    for i := 0 to |certs|
      invariant forall raw :: Bucket(groups, raw) == WithRaw(certs[..i], raw)
    {
      assert certs[..i + 1] == certs[..i] + [certs[i]];
      WithRawStep(certs[..i], certs[i]);
      var raw := certs[i].cert.raw;
      groups := groups[raw := Bucket(groups, raw) + [certs[i].ref]];
    }
    assert certs[..|certs|] == certs;
    relations := [];
    var pending := groups.Keys;
    SlotsDiffer(store, |store|);
    CertsDiffer(Slots(store));
    while pending != {}
      invariant pending <= groups.Keys && Sequences.NoRepeats(relations)
      invariant forall rel :: rel in relations <==> exists raw :: raw !in pending && DuplicatePair(certs, rel, raw)
    {
      var raw :| raw in pending;
      ghost var before := relations;
      var added := PairUp(groups[raw]);
      assert Bucket(groups, raw) == WithRaw(certs, raw);
      WithRawDiffer(certs, raw);
      forall rel
        ensures rel in added <==> DuplicatePair(certs, rel, raw)
      {
        assert rel in added ==> rel.kind == SameCert;
      }
      OnceMore(certs, before, added, raw);
      relations := relations + added;
      pending := pending - {raw};
      forall rel
        ensures rel in relations <==> exists r :: r !in pending && DuplicatePair(certs, rel, r)
      {
        assert rel in relations <==> rel in before || rel in added;
      }
    }
  }

  lemma NewPair(refs: seq<ItemRef>, i: nat, j: nat, relations: seq<Relation>)
    requires i < j < |refs|
    requires forall rel <- relations :: exists a, b :: 0 <= a <= i && a < b < |refs| && (a == i ==> b < j)
                                                       && rel == Relation(SameCert, refs[a], refs[b])
    ensures Sequences.NoRepeats(refs) ==> Relation(SameCert, refs[i], refs[j]) !in relations
  {
    if Sequences.NoRepeats(refs) {
      forall rel | rel in relations ensures rel != Relation(SameCert, refs[i], refs[j]) {
        var a, b :| 0 <= a <= i && a < b < |refs| && (a == i ==> b < j)
                    && rel == Relation(SameCert, refs[a], refs[b]);
        if a == i {
          assert refs[b] != refs[j];
        } else {
          assert refs[a] != refs[i];
        }
      }
    }
  }

  /** Every earlier member of a group with every later one. */
  method PairUp(refs: seq<ItemRef>) returns (relations: seq<Relation>)
    ensures forall rel :: rel in relations <==>
              exists i, j :: 0 <= i < j < |refs| && rel == Relation(SameCert, refs[i], refs[j])
    ensures Sequences.NoRepeats(refs) ==> Sequences.NoRepeats(relations)
  {
    relations := [];
    for i := 0 to |refs|
      invariant Sequences.NoRepeats(refs) ==> Sequences.NoRepeats(relations)
      invariant forall rel :: rel in relations <==>
                  exists a, b :: 0 <= a < i && a < b < |refs| && rel == Relation(SameCert, refs[a], refs[b])
    {
      for j := i + 1 to |refs|
        invariant Sequences.NoRepeats(refs) ==> Sequences.NoRepeats(relations)
        invariant forall rel :: rel in relations <==>
                    exists a, b :: 0 <= a <= i && a < b < |refs| && (a == i ==> b < j)
                                   && rel == Relation(SameCert, refs[a], refs[b])
      {
        NewPair(refs, i, j, relations);
        relations := relations + [Relation(SameCert, refs[i], refs[j])];
      }
    }
  }

  // ---------------------------------------------------------------------------------------------
  // The index
  // ---------------------------------------------------------------------------------------------

  function BackDirection(kind: RelationType): Direction {
    if kind == SameCert then Outgoing else Incoming
  }

  /** What one relation adds under `ref`: an outgoing entry at its source, then an incoming one at
      its target. A duplicate points outward at both ends. */
  function EntriesOf(rel: Relation, ref: ItemRef): seq<Resolved> {
    (if rel.source == ref then [Resolved(rel.kind, Outgoing, rel.target)] else [])
    + (if rel.target == ref then [Resolved(rel.kind, BackDirection(rel.kind), rel.source)] else [])
  }

  function Entries(relations: seq<Relation>, ref: ItemRef): seq<Resolved> {
    if relations == [] then []
    else Entries(relations[..|relations| - 1], ref) + EntriesOf(relations[|relations| - 1], ref)
  }

  function Lookup(index: RelationIndex, ref: ItemRef): seq<Resolved> {
    if ref in index then index[ref] else []
  }

  lemma IndexStep(index: RelationIndex, rel: Relation)
    ensures var mid := index[rel.source := Lookup(index, rel.source) + [Resolved(rel.kind, Outgoing, rel.target)]];
            var back := Resolved(rel.kind, BackDirection(rel.kind), rel.source);
            var end := mid[rel.target := Lookup(mid, rel.target) + [back]];
            forall ref :: Lookup(end, ref) == Lookup(index, ref) + EntriesOf(rel, ref)
  {}

  method BuildRelationIndex(relations: seq<Relation>) returns (index: RelationIndex)
    ensures forall ref :: Lookup(index, ref) == Entries(relations, ref)
  {
    index := map[];
    for i := 0 to |relations|
      invariant forall ref :: Lookup(index, ref) == Entries(relations[..i], ref)
    {
      var rel := relations[i];
      assert relations[..i + 1][..i] == relations[..i];
      IndexStep(index, rel);
      index := index[rel.source := Lookup(index, rel.source) + [Resolved(rel.kind, Outgoing, rel.target)]];
      var back := Resolved(rel.kind, BackDirection(rel.kind), rel.source);
      index := index[rel.target := Lookup(index, rel.target) + [back]];
    }
    assert relations[..|relations|] == relations;
  }

  /** The peers of the outgoing signed_by entries, in index order. */
  function IssuersOf(entries: seq<Resolved>): (peers: seq<ItemRef>) {
    if entries == [] then []
    else
      var last := entries[|entries| - 1];
      var before := IssuersOf(entries[..|entries| - 1]);
      if last.kind == SignedBy && last.direction == Outgoing then before + [last.peer] else before
  }

  lemma {:induction false} EntriesExact(relations: seq<Relation>, ref: ItemRef, entry: Resolved)
    ensures entry in Entries(relations, ref) <==> exists rel <- relations :: entry in EntriesOf(rel, ref)
  {
    if relations != [] {
      EntriesExact(relations[..|relations| - 1], ref, entry);
      assert relations == relations[..|relations| - 1] + [relations[|relations| - 1]];
    }
  }

  lemma {:induction false} IssuersOfExact(entries: seq<Resolved>, peer: ItemRef)
    ensures peer in IssuersOf(entries) <==> Resolved(SignedBy, Outgoing, peer) in entries
  {
    if entries != [] {
      IssuersOfExact(entries[..|entries| - 1], peer);
      assert entries == entries[..|entries| - 1] + [entries[|entries| - 1]];
    }
  }

  /** Following signed_by upward through the index is following the signed_by relations. */
  lemma IndexIssuersExact(relations: seq<Relation>, ref: ItemRef, peer: ItemRef)
    ensures peer in IssuersOf(Entries(relations, ref)) <==> Relation(SignedBy, ref, peer) in relations
  {
    var entry := Resolved(SignedBy, Outgoing, peer);
    IssuersOfExact(Entries(relations, ref), peer);
    EntriesExact(relations, ref, entry);
    forall rel | entry in EntriesOf(rel, ref)
      ensures rel == Relation(SignedBy, ref, peer)
    {}
    assert entry in EntriesOf(Relation(SignedBy, ref, peer), ref);
  }

  /** Both directions: `ref` has an outgoing entry to `peer` exactly when `peer` has the incoming
      one back. */
  lemma IndexIsSymmetric(relations: seq<Relation>, kind: RelationType, ref: ItemRef, peer: ItemRef)
    requires kind != SameCert
    ensures Resolved(kind, Outgoing, peer) in Entries(relations, ref) <==>
            Resolved(kind, Incoming, ref) in Entries(relations, peer)
  {
    EntriesExact(relations, ref, Resolved(kind, Outgoing, peer));
    EntriesExact(relations, peer, Resolved(kind, Incoming, ref));
    var rel := Relation(kind, ref, peer);
    assert forall r: Relation :: Resolved(kind, Outgoing, peer) in EntriesOf(r, ref) <==> r == rel;
    assert forall r: Relation :: Resolved(kind, Incoming, ref) in EntriesOf(r, peer) <==> r == rel;
  }

  /** Relations of other kinds, in whatever order they were found, do not disturb the issuers. */
  lemma {:induction false} OtherKindsDoNotMatter(signed: seq<Relation>, others: seq<Relation>, ref: ItemRef)
    requires forall rel <- others :: rel.kind != SignedBy
    ensures IssuersOf(Entries(signed + others, ref)) == IssuersOf(Entries(signed, ref))
  {
    if others == [] {
      assert signed + others == signed;
    } else {
      var k := |others| - 1;
      OtherKindsDoNotMatter(signed, others[..k], ref);
      assert signed + others == signed + others[..k] + [others[k]];
      EntriesStep(signed + others[..k], others[k], ref);
      IssuersOfAppend(Entries(signed + others[..k], ref), EntriesOf(others[k], ref));
      NoIssuers(EntriesOf(others[k], ref));
    }
  }

  lemma EntriesStep(relations: seq<Relation>, rel: Relation, ref: ItemRef)
    ensures Entries(relations + [rel], ref) == Entries(relations, ref) + EntriesOf(rel, ref)
  {
    assert (relations + [rel])[..|relations|] == relations;
  }

  lemma NoIssuers(entries: seq<Resolved>)
    requires forall e <- entries :: e.kind != SignedBy
    ensures IssuersOf(entries) == []
  {}

  lemma {:induction false} IssuersOfAppend(a: seq<Resolved>, b: seq<Resolved>)
    ensures IssuersOf(a + b) == IssuersOf(a) + IssuersOf(b)
  {
    if b == [] {
      assert a + b == a;
    } else {
      assert (a + b)[..|a + b| - 1] == a + b[..|b| - 1];
      IssuersOfAppend(a, b[..|b| - 1]);
    }
  }

  /** The relations of one pair kind. */
  function PairsOf(store: Store, kind: RelationType): seq<Relation> {
    NestedJoin(kind, KeysOf(Slots(store), kind, Probe), KeysOf(Slots(store), kind, Indexed))
  }

  /** The relations found in scan order: signed_by, then the three pair kinds. */
  function OrderedRelations(store: Store, signs: SignatureCheck): seq<Relation> {
    SignedByRelations(store, signs) + (PairsOf(store, KeyCert) + PairsOf(store, KeyCSR) + PairsOf(store, CSRCert))
  }

  ghost predicate IsDuplicate(store: Store, rel: Relation) {
    exists raw :: DuplicatePair(CertsOf(Slots(store)), rel, raw)
  }

  /** Every relation: the ordered ones, then the duplicates. */
  ghost predicate AllRelations(store: Store, signs: SignatureCheck, relations: seq<Relation>) {
    var ordered := OrderedRelations(store, signs);
    ordered <= relations && forall rel :: rel in relations[|ordered|..] <==> IsDuplicate(store, rel)
  }

  method DetectRelations(store: Store, signs: SignatureCheck) returns (relations: seq<Relation>)
    ensures AllRelations(store, signs, relations)
  {
    var signed := DetectSignedBy(store, signs);
    var keyCerts := DetectPairs(store, KeyCert);
    var keyCSRs := DetectPairs(store, KeyCSR);
    var csrCerts := DetectPairs(store, CSRCert);
    var duplicates := DetectDuplicates(store);
    var ordered := signed + (keyCerts + keyCSRs + csrCerts);
    relations := ordered + duplicates;
    assert relations[|ordered|..] == duplicates;
    assert forall rel :: rel in duplicates <==> IsDuplicate(store, rel);
  }

  /** Only the signed_by relations can be climbed: behind them come relations of other kinds. */
  lemma OtherRelationsAreNotSignedBy(store: Store, signs: SignatureCheck, relations: seq<Relation>)
    requires AllRelations(store, signs, relations)
    ensures SignedByRelations(store, signs) <= relations
    ensures forall rel <- relations[|SignedByRelations(store, signs)|..] :: rel.kind != SignedBy
  {
    var signed, ordered := SignedByRelations(store, signs), OrderedRelations(store, signs);
    var pairs := PairsOf(store, KeyCert) + PairsOf(store, KeyCSR) + PairsOf(store, CSRCert);
    var duplicates := relations[|ordered|..];
    assert relations == ordered + duplicates;
    assert relations[|signed|..] == pairs + duplicates;
    forall rel | rel in pairs ensures rel.kind != SignedBy {
      PairsHaveTheirKind(store, KeyCert, rel);
      PairsHaveTheirKind(store, KeyCSR, rel);
      PairsHaveTheirKind(store, CSRCert, rel);
    }
    assert forall rel <- duplicates :: IsDuplicate(store, rel);
  }

  lemma PairsHaveTheirKind(store: Store, kind: RelationType, rel: Relation)
    ensures rel in PairsOf(store, kind) ==> rel.kind == kind
  {
    NestedJoinExact(kind, KeysOf(Slots(store), kind, Probe), KeysOf(Slots(store), kind, Indexed), rel);
  }
}
