/** The order of relations and chains. */
module ScanOrder {
  import opened CertTypes
  import opened Relations
  import opened Chains

  /** `a` stands before `b` in the scan. */
  predicate ScanBefore(a: ItemRef, b: ItemRef) {
    a.containerIdx < b.containerIdx || (a.containerIdx == b.containerIdx && a.itemIdx < b.itemIdx)
  }

  predicate InOrder(refs: seq<ItemRef>) {
    forall i, j :: 0 <= i < j < |refs| ==> ScanBefore(refs[i], refs[j])
  }

  lemma InOrderAppend(a: seq<ItemRef>, b: seq<ItemRef>)
    requires InOrder(a) && InOrder(b) && forall x <- a, y <- b :: ScanBefore(x, y)
    ensures InOrder(a + b)
  {
    forall i, j | 0 <= i < j < |a + b| ensures ScanBefore((a + b)[i], (a + b)[j]) {
      if i < |a| <= j {
        assert a[i] in a && b[j - |a|] in b;
      }
    }
  }

  // ---------------------------------------------------------------------------------------------
  // Certificates in scan order
  // ---------------------------------------------------------------------------------------------

  predicate SlotsInOrder(slots: seq<Slot>) {
    forall i, j :: 0 <= i < j < |slots| ==> ScanBefore(slots[i].ref, slots[j].ref)
  }

  lemma SlotsAppend(a: seq<Slot>, b: seq<Slot>)
    requires SlotsInOrder(a) && SlotsInOrder(b) && forall x <- a, y <- b :: ScanBefore(x.ref, y.ref)
    ensures SlotsInOrder(a + b)
  {
    forall i, j | 0 <= i < j < |a + b| ensures ScanBefore((a + b)[i].ref, (a + b)[j].ref) {
      if i < |a| <= j {
        assert a[i] in a && b[j - |a|] in b;
      }
    }
  }

  lemma {:induction false} ContainerInOrder(store: Store, ci: nat, n: nat)
    requires ci < |store| && n <= |store[ci].items|
    ensures SlotsInOrder(SlotsIn(store, ci, n))
  {
    if n > 0 {
      ContainerInOrder(store, ci, n - 1);
      forall x | x in SlotsIn(store, ci, n - 1) ensures x.ref.itemIdx < n - 1 && x.ref.containerIdx == ci {
        SlotsInExact(store, ci, n - 1, x);
      }
      SlotsAppend(SlotsIn(store, ci, n - 1), [Slot(RefTo(store, ci, n - 1), store[ci].items[n - 1])]);
    }
  }

  lemma {:induction false} StoreInOrder(store: Store, n: nat)
    requires n <= |store|
    ensures SlotsInOrder(SlotsBefore(store, n))
  {
    if n > 0 {
      var last := |store[n - 1].items|;
      StoreInOrder(store, n - 1);
      ContainerInOrder(store, n - 1, last);
      forall x, y | x in SlotsBefore(store, n - 1) && y in SlotsIn(store, n - 1, last)
        ensures ScanBefore(x.ref, y.ref)
      {
        SlotsBeforeExact(store, n - 1, x);
        SlotsInExact(store, n - 1, last, y);
      }
      SlotsAppend(SlotsBefore(store, n - 1), SlotsIn(store, n - 1, last));
    }
  }

  predicate CertsInOrder(certs: seq<CertRef>) {
    forall i, j :: 0 <= i < j < |certs| ==> ScanBefore(certs[i].ref, certs[j].ref)
  }

  lemma {:induction false} CertsFollowSlots(slots: seq<Slot>)
    requires SlotsInOrder(slots)
    ensures CertsInOrder(CertsOf(slots))
  {
    if slots != [] {
      var front, last := slots[..|slots| - 1], slots[|slots| - 1];
      CertsFollowSlots(front);
      forall c | c in CertsOf(front) ensures ScanBefore(c.ref, last.ref) {
        CertsOfExact(front, c);
      }
      assert forall i :: 0 <= i < |CertsOf(front)| ==> CertsOf(front)[i] in CertsOf(front);
    }
  }

  lemma StoreCertsInOrder(store: Store)
    ensures CertsInOrder(CertsOf(Slots(store)))
  {
    StoreInOrder(store, |store|);
    CertsFollowSlots(Slots(store));
  }

  // ---------------------------------------------------------------------------------------------
  // signed_by relations, and the issuers of one certificate
  // ---------------------------------------------------------------------------------------------

  /** By the signed certificate, then by its issuer. */
  predicate RelBefore(a: Relation, b: Relation) {
    ScanBefore(a.source, b.source) || (a.source == b.source && ScanBefore(a.target, b.target))
  }

  predicate RelsInOrder(rels: seq<Relation>) {
    forall i, j :: 0 <= i < j < |rels| ==> RelBefore(rels[i], rels[j])
  }

  lemma RelsAppend(a: seq<Relation>, b: seq<Relation>)
    requires RelsInOrder(a) && RelsInOrder(b) && forall x <- a, y <- b :: RelBefore(x, y)
    ensures RelsInOrder(a + b)
  {
    forall i, j | 0 <= i < j < |a + b| ensures RelBefore((a + b)[i], (a + b)[j]) {
      if i < |a| <= j {
        assert a[i] in a && b[j - |a|] in b;
      }
    }
  }

  lemma {:induction false} RowInOrder(child: CertRef, certs: seq<CertRef>, n: nat, signs: SignatureCheck)
    requires n <= |certs| && CertsInOrder(certs)
    ensures RelsInOrder(SignedRow(child, certs, n, signs))
  {
    if n > 0 {
      RowInOrder(child, certs, n - 1, signs);
      var before, last := SignedRow(child, certs, n - 1, signs), Relation(SignedBy, child.ref, certs[n - 1].ref);
      forall rel | rel in before ensures RelBefore(rel, last) {
        SignedRowExact(child, certs, n - 1, signs, rel);
      }
      RelsAppend(before, [last]);
    }
  }

  lemma {:induction false} RowsInOrder(certs: seq<CertRef>, n: nat, signs: SignatureCheck)
    requires n <= |certs| && CertsInOrder(certs)
    ensures RelsInOrder(SignedRows(certs, n, signs))
  {
    if n > 0 {
      RowsInOrder(certs, n - 1, signs);
      var before, row := SignedRows(certs, n - 1, signs), SignedRow(certs[n - 1], certs, |certs|, signs);
      RowInOrder(certs[n - 1], certs, |certs|, signs);
      forall x, y | x in before && y in row ensures RelBefore(x, y) {
        SignedRowsExact(certs, n - 1, signs, x);
        SignedRowExact(certs[n - 1], certs, |certs|, signs, y);
      }
      RelsAppend(before, row);
    }
  }

  /** The signed_by relations come in scan order of the signed certificate, then of its issuer; so each comes once. */
  lemma SignedByInOrder(store: Store, signs: SignatureCheck)
    ensures RelsInOrder(SignedByRelations(store, signs))
  {
    StoreCertsInOrder(store);
    var certs := CertsOf(Slots(store));
    RowsInOrder(certs, |certs|, signs);
  }

  lemma {:induction false} PeersInOrder(rels: seq<Relation>, ref: ItemRef)
    requires RelsInOrder(rels) && forall rel <- rels :: rel.kind == SignedBy && rel.source != rel.target
    ensures InOrder(IssuersOf(Entries(rels, ref)))
  {
    if rels == [] {
      assert IssuersOf(Entries(rels, ref)) == [];
    } else {
      var front, last := rels[..|rels| - 1], rels[|rels| - 1];
      assert rels == front + [last];
      PeersInOrder(front, ref);
      IssuersOfAppend(Entries(front, ref), EntriesOf(last, ref));
      OneRelationsIssuers(last, ref);
      assert rels[..|rels| - 1] == front && Entries(rels, ref) == Entries(front, ref) + EntriesOf(last, ref);
      if last.source == ref {
        EarlierPeers(front, last, ref);
        InOrderAppend(IssuersOf(Entries(front, ref)), [last.target]);
      } else {
        assert IssuersOf(Entries(front, ref)) + [] == IssuersOf(Entries(front, ref));
      }
    }
  }

  lemma EarlierPeers(front: seq<Relation>, last: Relation, ref: ItemRef)
    requires RelsInOrder(front + [last]) && last.source == ref
    ensures forall peer <- IssuersOf(Entries(front, ref)) :: ScanBefore(peer, last.target)
  {
    var rels := front + [last];
    forall peer | peer in IssuersOf(Entries(front, ref)) ensures ScanBefore(peer, last.target) {
      IndexIssuersExact(front, ref, peer);
      var i :| 0 <= i < |front| && front[i] == Relation(SignedBy, ref, peer);
      assert rels[i] == front[i] && RelBefore(rels[i], rels[|front|]);
    }
  }

  lemma OneRelationsIssuers(rel: Relation, ref: ItemRef)
    requires rel.kind == SignedBy && rel.source != rel.target
    ensures IssuersOf(EntriesOf(rel, ref)) == if rel.source == ref then [rel.target] else []
  {
    if rel.source == ref {
      var one := [Resolved(rel.kind, Outgoing, rel.target)];
      assert EntriesOf(rel, ref) == one && one[..0] == [];
    } else if rel.target == ref {
      var one := [Resolved(rel.kind, Incoming, rel.source)];
      assert EntriesOf(rel, ref) == one && one[..0] == [];
    }
  }

  lemma IssuersInOrder(g: Graph, signs: SignatureCheck, ref: ItemRef)
    requires IndexOf(g, signs)
    ensures InOrder(Issuers(g, ref))
  {
    var rels := SignedByRelations(g.store, signs);
    SignedByInOrder(g.store, signs);
    forall rel | rel in rels ensures rel.kind == SignedBy && rel.source != rel.target {
      SignedByExact(g.store, signs, rel);
    }
    PeersInOrder(rels, ref);
  }

  // ---------------------------------------------------------------------------------------------
  // Chains
  // ---------------------------------------------------------------------------------------------

  /** The chains part at some link, and `p` takes the earlier scanned certificate there. */
  ghost predicate PathBefore(p: seq<ItemRef>, q: seq<ItemRef>) {
    exists d: nat :: PartsAt(p, q, d)
  }

  predicate PartsAt(p: seq<ItemRef>, q: seq<ItemRef>, d: nat) {
    d < |p| && d < |q| && p[..d] == q[..d] && ScanBefore(p[d], q[d])
  }

  ghost predicate PathsInOrder(paths: seq<seq<ItemRef>>) {
    forall i, j :: 0 <= i < j < |paths| ==> PathBefore(paths[i], paths[j])
  }

  lemma PathsAppend(a: seq<seq<ItemRef>>, b: seq<seq<ItemRef>>)
    requires PathsInOrder(a) && PathsInOrder(b) && forall p <- a, q <- b :: PathBefore(p, q)
    ensures PathsInOrder(a + b)
  {
    forall i, j | 0 <= i < j < |a + b| ensures PathBefore((a + b)[i], (a + b)[j]) {
      if i < |a| <= j {
        assert a[i] in a && b[j - |a|] in b;
      }
    }
  }

  lemma {:induction false} UnusedInOrder(g: Graph, refs: seq<ItemRef>, used: Guards)
    requires InOrder(refs)
    ensures InOrder(Unused(g, refs, used))
  {
    if refs != [] {
      var front, last := refs[..|refs| - 1], refs[|refs| - 1];
      UnusedInOrder(g, front, used);
      forall r | r in Unused(g, front, used) ensures ScanBefore(r, last) {
        UnusedExact(g, front, used, r);
      }
      InOrderAppend(Unused(g, front, used), [last]);
    }
  }

  lemma {:induction false} AllPathsInOrder(g: Graph, signs: SignatureCheck, current: ItemRef, path: seq<ItemRef>,
                                           used: Guards)
    requires IndexOf(g, signs)
    ensures PathsInOrder(AllPaths(g, current, path, used))
    decreases Universe(g) - used.visited, 1, 0
  {
    ParentsWithin(g, current, used);
    var parents := Parents(g, current, used);
    if parents != [] {
      IssuersInOrder(g, signs, current);
      UnusedInOrder(g, Issuers(g, current), used);
      AllViaInOrder(g, signs, parents, path, used);
    }
  }

  lemma {:induction false} AllViaInOrder(g: Graph, signs: SignatureCheck, parents: seq<ItemRef>, path: seq<ItemRef>,
                                         used: Guards)
    requires IndexOf(g, signs) && Within(g, parents, used) && InOrder(parents)
    ensures PathsInOrder(AllVia(g, parents, path, used))
    decreases Universe(g) - used.visited, 0, |parents|
  {
    if parents != [] {
      assert parents[0] in Universe(g) - used.visited;
      var path', used' := path + [parents[0]], Use(g, parents[0], used);
      var first, rest := AllPaths(g, parents[0], path', used'), AllVia(g, parents[1..], path, used);
      AllPathsInOrder(g, signs, parents[0], path', used');
      AllViaInOrder(g, signs, parents[1..], path, used);
      forall p, q | p in first && q in rest ensures PathBefore(p, q) {
        AllPathsExact(g, parents[0], path', used', p);
        AllViaExact(g, parents[1..], path, used, q);
        var k :| 0 < k < |parents| && parents[k] == q[|path|];
        assert p[..|path|] == path == q[..|path|] && p[|path|] == parents[0];
        assert PartsAt(p, q, |path|);
      }
      PathsAppend(first, rest);
    }
  }

  /** The chains of a leaf come in scan order of the first certificate they differ in, and so none comes twice. */
  lemma ChainsInOrder(g: Graph, signs: SignatureCheck, leaf: ItemRef)
    requires IndexOf(g, signs)
    ensures PathsInOrder(AllPaths(g, leaf, [leaf], Start(g, leaf)))
    ensures PathsInOrder(LeafChains(g, leaf))
  {
    AllPathsInOrder(g, signs, leaf, [leaf], Start(g, leaf));
    CappedIsPrefix(g, leaf, [leaf], Start(g, leaf));
    LinkedInOrder(Capped(g, leaf, [leaf], Start(g, leaf)));
  }

  lemma {:induction false} LinkedInOrder(paths: seq<seq<ItemRef>>)
    requires PathsInOrder(paths)
    ensures PathsInOrder(Linked(paths))
  {
    if paths != [] {
      var front, last := paths[..|paths| - 1], paths[|paths| - 1];
      LinkedInOrder(front);
      forall p | p in Linked(front) ensures PathBefore(p, last) {
        LinkedExact(front, p);
        var i :| 0 <= i < |front| && front[i] == p;
        assert paths[i] == p;
      }
      PathsAppend(Linked(front), [last]);
    }
  }

  /** A leaf's one chain, where only one is shown, is its first signed chain in that order. */
  lemma FirstChainIsFirst(g: Graph, signs: SignatureCheck, alternatives: Alternatives, leaf: ItemRef,
                          chain: seq<ItemRef>)
    requires IndexOf(g, signs) && AlternativesOf(g, alternatives) && leaf in FirstChains(alternatives)
    requires |chain| >= 2 && chain[0] == leaf && SignedChain(g.store, chain, signs)
    ensures var first := FirstChains(alternatives)[leaf];
            SignedChain(g.store, first, signs) && first[0] == leaf && (chain == first || PathBefore(first, chain))
  {
    FirstOfAll(g, signs, alternatives, leaf, chain);
    AlternativesAreSignedChains(g, signs, leaf, FirstChains(alternatives)[leaf]);
    var all := AllPaths(g, leaf, [leaf], Start(g, leaf));
    AllPathsInOrder(g, signs, leaf, [leaf], Start(g, leaf));
    var j :| 0 <= j < |all| && all[j] == chain;
  }

  lemma FirstOfAll(g: Graph, signs: SignatureCheck, alternatives: Alternatives, leaf: ItemRef, chain: seq<ItemRef>)
    requires IndexOf(g, signs) && AlternativesOf(g, alternatives) && leaf in FirstChains(alternatives)
    requires |chain| >= 2 && chain[0] == leaf && SignedChain(g.store, chain, signs)
    ensures var all, first := AllPaths(g, leaf, [leaf], Start(g, leaf)), FirstChains(alternatives)[leaf];
            chain in all && all != [] && first == all[0] && first in LeafChains(g, leaf)
  {
    var used := Start(g, leaf);
    var some := Capped(g, leaf, [leaf], used);
    CappedIsPrefix(g, leaf, [leaf], used);
    CappedIsNotEmpty(g, leaf, [leaf], used);
    StoreChainsExact(g, signs, leaf, chain);
    AllAreLinked(g, leaf, chain);
    assert some[0] == AllPaths(g, leaf, [leaf], used)[0] && some[0] in AllPaths(g, leaf, [leaf], used);
    LinkedHead(some);
  }

  /** A certificate that vouches for itself or may sign others is no leaf. */
  predicate IsEndEntity(cert: Cert) {
    && !cert.isCA
    && !(cert.subject == cert.issuer
         && (cert.subjectKeyId == [] || cert.authorityKeyId == [] || cert.subjectKeyId == cert.authorityKeyId))
  }

  ghost predicate HasChain(store: Store, leaf: ItemRef, signs: SignatureCheck) {
    exists chain :: |chain| >= 2 && chain[0] == leaf && SignedChain(store, chain, signs)
  }

  /** Alternatives are listed for exactly the leaves that have a signed chain of two certificates or more. */
  lemma LeavesExact(g: Graph, signs: SignatureCheck, alternatives: Alternatives, leaf: ItemRef)
    requires IndexOf(g, signs) && AlternativesOf(g, alternatives)
    ensures leaf in alternatives <==>
              CertRefOf(g.store, leaf) && IsEndEntity(CertAt(g.store, leaf).value) && HasChain(g.store, leaf, signs)
  {
    assert LeafRef(g.store, leaf) <==> CertRefOf(g.store, leaf) && IsEndEntity(CertAt(g.store, leaf).value);
    var some := Capped(g, leaf, [leaf], Start(g, leaf));
    if LeafChains(g, leaf) != [] {
      assert LeafChains(g, leaf)[0] in LeafChains(g, leaf);
      AlternativesAreSignedChains(g, signs, leaf, LeafChains(g, leaf)[0]);
    }
    if chain :| |chain| >= 2 && chain[0] == leaf && SignedChain(g.store, chain, signs) {
      CappedIsPrefix(g, leaf, [leaf], Start(g, leaf));
      CappedIsNotEmpty(g, leaf, [leaf], Start(g, leaf));
      StoreChainsExact(g, signs, leaf, chain);
      AllAreLinked(g, leaf, chain);
      assert some[0] in AllPaths(g, leaf, [leaf], Start(g, leaf));
      LinkedHead(some);
    }
  }

  /** A leaf with a chain of two certificates has no chain of one. */
  lemma AllAreLinked(g: Graph, leaf: ItemRef, chain: seq<ItemRef>)
    requires chain in AllPaths(g, leaf, [leaf], Start(g, leaf)) && |chain| >= 2
    ensures forall p <- AllPaths(g, leaf, [leaf], Start(g, leaf)) :: |p| >= 2
  {
    var used := Start(g, leaf);
    ParentsWithin(g, leaf, used);
    var parents := Parents(g, leaf, used);
    forall p | p in AllPaths(g, leaf, [leaf], used) ensures |p| >= 2 {
      AllViaExact(g, parents, [leaf], used, p);
    }
  }

  lemma {:induction false} LinkedHead(paths: seq<seq<ItemRef>>)
    requires paths != [] && |paths[0]| >= 2
    ensures Linked(paths) != [] && Linked(paths)[0] == paths[0]
  {
    if |paths| > 1 {
      LinkedHead(paths[..|paths| - 1]);
    } else {
      assert paths[..0] == [];
    }
  }

  // ---------------------------------------------------------------------------------------------
  // Pairs
  // ---------------------------------------------------------------------------------------------

  predicate KeysInOrder(keys: seq<KeyRef>) {
    forall i, j :: 0 <= i < j < |keys| ==> ScanBefore(keys[i].ref, keys[j].ref)
  }

  lemma {:induction false} KeysFollowSlots(slots: seq<Slot>, kind: RelationType, side: Side)
    requires SlotsInOrder(slots)
    ensures KeysInOrder(KeysOf(slots, kind, side))
  {
    if slots != [] {
      var front, last := slots[..|slots| - 1], slots[|slots| - 1];
      var before := KeysOf(front, kind, side);
      KeysFollowSlots(front, kind, side);
      forall i | 0 <= i < |before| ensures ScanBefore(before[i].ref, last.ref) {
        KeysOfExact(front, kind, side, before[i]);
      }
    }
  }

  lemma {:induction false} WithKeyInOrder(entries: seq<KeyRef>, key: Bytes)
    requires KeysInOrder(entries)
    ensures InOrder(WithKey(entries, key))
  {
    if entries != [] {
      var front, last := entries[..|entries| - 1], entries[|entries| - 1];
      WithKeyInOrder(front, key);
      forall ref | ref in WithKey(front, key) ensures ScanBefore(ref, last.ref) {
        WithKeyExact(front, key, ref);
        var i :| 0 <= i < |front| && front[i] == KeyRef(ref, key);
        assert entries[i] == front[i];
      }
      InOrderAppend(WithKey(front, key), [last.ref]);
    }
  }

  lemma {:induction false} JoinInOrder(kind: RelationType, keys: seq<KeyRef>, entries: seq<KeyRef>)
    requires KeysInOrder(keys) && KeysInOrder(entries)
    ensures RelsInOrder(NestedJoin(kind, keys, entries))
  {
    if keys != [] {
      var front, last := keys[..|keys| - 1], keys[|keys| - 1];
      var before, row := NestedJoin(kind, front, entries), Pairs(kind, last.ref, WithKey(entries, last.key));
      JoinInOrder(kind, front, entries);
      WithKeyInOrder(entries, last.key);
      forall x, y | x in before && y in row ensures RelBefore(x, y) {
        NestedJoinExact(kind, front, entries, x);
        var k :| k in front && k.ref == x.source;
        var i :| 0 <= i < |front| && front[i] == k;
        assert keys[i] == k;
      }
      RelsAppend(before, row);
    }
  }

  /** The pairs of each kind come in scan order of the first item, then of the second, each once. */
  lemma PairsInOrder(store: Store, kind: RelationType)
    ensures RelsInOrder(PairsOf(store, kind))
  {
    StoreInOrder(store, |store|);
    KeysFollowSlots(Slots(store), kind, Probe);
    KeysFollowSlots(Slots(store), kind, Indexed);
    JoinInOrder(kind, KeysOf(Slots(store), kind, Probe), KeysOf(Slots(store), kind, Indexed));
  }

  // ---------------------------------------------------------------------------------------------
  // Duplicates
  // ---------------------------------------------------------------------------------------------

  lemma {:induction false} GroupExact(certs: seq<CertRef>, raw: Bytes)
    requires CertsInOrder(certs)
    ensures InOrder(WithRaw(certs, raw))
    ensures forall ref :: ref in WithRaw(certs, raw) <==> HasCert(certs, ref, raw)
  {
    if certs != [] {
      var front, last := certs[..|certs| - 1], certs[|certs| - 1];
      GroupExact(front, raw);
      assert certs == front + [last];
      forall ref | ref in WithRaw(front, raw) ensures ScanBefore(ref, last.ref) {
        assert HasCert(front, ref, raw);
        var c :| c in front && c.ref == ref && c.cert.raw == raw;
        var i :| 0 <= i < |front| && front[i] == c;
        assert certs[i] == c;
      }
      InOrderAppend(WithRaw(front, raw), [last.ref]);
      forall ref
        ensures HasCert(certs, ref, raw) <==> HasCert(front, ref, raw) || (last.ref == ref && last.cert.raw == raw)
      {
        HasCertStep(front, last, ref, raw);
      }
    }
  }

  lemma HasCertStep(front: seq<CertRef>, last: CertRef, ref: ItemRef, raw: Bytes)
    ensures HasCert(front + [last], ref, raw) <==> HasCert(front, ref, raw) || (last.ref == ref && last.cert.raw == raw)
  {
    if c :| c in front && c.ref == ref && c.cert.raw == raw {
      assert c in front + [last];
    }
    if last.ref == ref && last.cert.raw == raw {
      assert last in front + [last];
    }
  }

  /** Two certificate items of the store have the same bytes, the first scanned before the second. */
  predicate SameBytes(store: Store, rel: Relation) {
    && CertRefOf(store, rel.source) && CertRefOf(store, rel.target) && ScanBefore(rel.source, rel.target)
    && CertAt(store, rel.source).value.raw == CertAt(store, rel.target).value.raw
  }

  lemma HasCertInStore(store: Store, ref: ItemRef, raw: Bytes)
    ensures HasCert(CertsOf(Slots(store)), ref, raw) <==> CertRefOf(store, ref) && CertAt(store, ref).value.raw == raw
  {
    if CertRefOf(store, ref) && CertAt(store, ref).value.raw == raw {
      StoreCertsExact(store, CertRef(ref, CertAt(store, ref).value));
      assert CertRef(ref, CertAt(store, ref).value) in CertsOf(Slots(store));
    }
    if c :| c in CertsOf(Slots(store)) && c.ref == ref && c.cert.raw == raw {
      StoreCertsExact(store, c);
    }
  }

  /** A duplicate is reported exactly for such a pair. */
  lemma DuplicatesExact(store: Store, rel: Relation)
    ensures IsDuplicate(store, rel) <==> rel.kind == SameCert && SameBytes(store, rel)
  {
    var certs := CertsOf(Slots(store));
    StoreCertsInOrder(store);
    if raw :| DuplicatePair(certs, rel, raw) {
      GroupExact(certs, raw);
      HasCertInStore(store, rel.source, raw);
      HasCertInStore(store, rel.target, raw);
    }
    if rel.kind == SameCert && SameBytes(store, rel) {
      var raw := CertAt(store, rel.source).value.raw;
      GroupExact(certs, raw);
      HasCertInStore(store, rel.source, raw);
      HasCertInStore(store, rel.target, raw);
      var refs := WithRaw(certs, raw);
      var i :| 0 <= i < |refs| && refs[i] == rel.source;
      var j :| 0 <= j < |refs| && refs[j] == rel.target;
      assert i < j;
      assert DuplicatePair(certs, rel, raw);
    }
  }
}
