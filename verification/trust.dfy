/** The trust anchors a scan is judged against (`trust.go`): membership in the OS stores, the root pool and the
    anchor behind a cross-signed CA. A distrusted certificate anchors nothing. */
module TrustAnchors {
  import opened CertTypes

  datatype Trust = Trusted | Denied | Unspecified

  /** A loaded trust store with its own settings. */
  datatype StoreContents = StoreContents(isOS: bool, certs: seq<Cert>, settings: map<Bytes, Trust>)

  /** `GetTrust`. */
  function TrustOf(s: StoreContents, c: Cert): Trust {
    if c.raw in s.settings then s.settings[c.raw] else Unspecified
  }

  type Members = map<Bytes, Trust>

  /** The store is an OS store that holds a certificate with these bytes and gives it this setting. */
  predicate Rates(s: StoreContents, raw: Bytes, t: Trust) {
    s.isOS && exists c <- s.certs :: c.raw == raw && TrustOf(s, c) == t
  }

  predicate RatedDenied(stores: seq<StoreContents>, raw: Bytes) {
    exists s <- stores :: Rates(s, raw, Denied)
  }

  predicate Holds(s: StoreContents, c: Cert) {
    s.isOS && c in s.certs
  }

  predicate InOSStore(stores: seq<StoreContents>, raw: Bytes) {
    exists s <- stores :: s.isOS && exists c <- s.certs :: c.raw == raw
  }

  /** What the membership map says of the certificates seen so far: it holds exactly theirs, denied exactly
      when some store denies it, and otherwise a setting some store gives. */
  ghost predicate MembersOf(m: Members, rated: set<(Bytes, Trust)>) {
    && (forall r <- rated :: r.0 in m)
    && (forall raw <- m :: (raw, m[raw]) in rated)
    && (forall raw <- m :: m[raw] == Denied <==> (raw, Denied) in rated)
  }

  lemma RateOne(m: Members, rated: set<(Bytes, Trust)>, raw: Bytes, t: Trust)
    requires MembersOf(m, rated)
    ensures if raw in m && m[raw] == Denied then MembersOf(m, rated + {(raw, t)})
            else MembersOf(m[raw := t], rated + {(raw, t)})
  {}

  /** The settings the first `n` certificates of a store give, when it is an OS store. */
  function StoreRatings(s: StoreContents, n: nat): set<(Bytes, Trust)>
    requires n <= |s.certs|
  {
    if n == 0 || !s.isOS then {} else StoreRatings(s, n - 1) + {(s.certs[n - 1].raw, TrustOf(s, s.certs[n - 1]))}
  }

  function Ratings(stores: seq<StoreContents>, n: nat): set<(Bytes, Trust)>
    requires n <= |stores|
  {
    if n == 0 then {} else Ratings(stores, n - 1) + StoreRatings(stores[n - 1], |stores[n - 1].certs|)
  }

  lemma {:induction false} StoreRatingsExact(s: StoreContents, n: nat, raw: Bytes, t: Trust)
    requires n <= |s.certs|
    ensures (raw, t) in StoreRatings(s, n) <==>
              s.isOS && exists i :: 0 <= i < n && s.certs[i].raw == raw && TrustOf(s, s.certs[i]) == t
  {
    if n > 0 && s.isOS {
      StoreRatingsExact(s, n - 1, raw, t);
    }
  }

  lemma {:induction false} RatingsExact(stores: seq<StoreContents>, n: nat, raw: Bytes, t: Trust)
    requires n <= |stores|
    ensures (raw, t) in Ratings(stores, n) <==> exists i :: 0 <= i < n && Rates(stores[i], raw, t)
  {
    if n > 0 {
      RatingsExact(stores, n - 1, raw, t);
      StoreRatingsExact(stores[n - 1], |stores[n - 1].certs|, raw, t);
    }
  }

  /** The setting the last of the first `n` certificates of a store gives these bytes, `before` when none does. */
  function LastInStore(s: StoreContents, n: nat, raw: Bytes, before: Option<Trust>): Option<Trust>
    requires n <= |s.certs|
  {
    if n == 0 || !s.isOS then before
    else if s.certs[n - 1].raw == raw then Some(TrustOf(s, s.certs[n - 1]))
    else LastInStore(s, n - 1, raw, before)
  }

  /** The last setting the first `n` stores give these bytes. */
  function LastSetting(stores: seq<StoreContents>, n: nat, raw: Bytes): Option<Trust>
    requires n <= |stores|
  {
    if n == 0 then None
    else LastInStore(stores[n - 1], |stores[n - 1].certs|, raw, LastSetting(stores, n - 1, raw))
  }

  ghost predicate KeepsLast(m: Members, last: Bytes -> Option<Trust>) {
    forall raw <- m :: m[raw] != Denied ==> last(raw) == Some(m[raw])
  }

  /** The map after the first `n` stores. */
  ghost predicate Tracks(m: Members, stores: seq<StoreContents>, n: nat)
    requires n <= |stores|
  {
    MembersOf(m, Ratings(stores, n)) && KeepsLast(m, raw => LastSetting(stores, n, raw))
  }

  /** The map after `k` certificates of the next store. */
  ghost predicate TracksWithin(m: Members, stores: seq<StoreContents>, i: nat, k: nat)
    requires i < |stores| && k <= |stores[i].certs|
  {
    && MembersOf(m, Ratings(stores, i) + StoreRatings(stores[i], k))
    && KeepsLast(m, raw => LastInStore(stores[i], k, raw, LastSetting(stores, i, raw)))
  }

  lemma StoreStarts(m: Members, stores: seq<StoreContents>, i: nat)
    requires i < |stores| && Tracks(m, stores, i)
    ensures TracksWithin(m, stores, i, 0)
    ensures !stores[i].isOS ==> Tracks(m, stores, i + 1)
  {
    assert Ratings(stores, i) + {} == Ratings(stores, i);
  }

  lemma StoreEnds(m: Members, stores: seq<StoreContents>, i: nat)
    requires i < |stores| && TracksWithin(m, stores, i, |stores[i].certs|)
    ensures Tracks(m, stores, i + 1)
  {}

  lemma StoreStep(m: Members, stores: seq<StoreContents>, i: nat, k: nat)
    requires i < |stores| && stores[i].isOS && k < |stores[i].certs| && TracksWithin(m, stores, i, k)
    ensures var raw, t := stores[i].certs[k].raw, TrustOf(stores[i], stores[i].certs[k]);
            TracksWithin(if raw in m && m[raw] == Denied then m else m[raw := t], stores, i, k + 1)
  {
    var s, before := stores[i], Ratings(stores, i);
    var raw, t := s.certs[k].raw, TrustOf(s, s.certs[k]);
    RateOne(m, before + StoreRatings(s, k), raw, t);
    assert before + StoreRatings(s, k) + {(raw, t)} == before + StoreRatings(s, k + 1);
  }

  method OSMembership(stores: seq<StoreContents>) returns (members: Members)
    ensures MembersOf(members, Ratings(stores, |stores|))
    ensures forall raw <- members :: members[raw] != Denied ==>
              LastSetting(stores, |stores|, raw) == Some(members[raw])
  {
    members := map[];
    for i := 0 to |stores|
      invariant Tracks(members, stores, i)
    {
      var s := stores[i];
      StoreStarts(members, stores, i);
      if !s.isOS {
        continue;
      }
      for k := 0 to |s.certs|
        invariant TracksWithin(members, stores, i, k)
      {
        var raw, t := s.certs[k].raw, TrustOf(s, s.certs[k]);
        StoreStep(members, stores, i, k);
        if raw in members && members[raw] == Denied {
          continue;
        }
        members := members[raw := t];
      }
      StoreEnds(members, stores, i);
    }
  }

  /** The membership map holds exactly the certificates of the OS stores, and calls one denied exactly when
      some OS store denies it, in whatever order the stores come. */
  lemma MembershipExact(stores: seq<StoreContents>, members: Members, raw: Bytes)
    requires MembersOf(members, Ratings(stores, |stores|))
    ensures raw in members <==> InOSStore(stores, raw)
    ensures raw in members ==> (members[raw] == Denied <==> RatedDenied(stores, raw))
  {
    if raw in members {
      RatingsExact(stores, |stores|, raw, members[raw]);
      RatingsExact(stores, |stores|, raw, Denied);
    }
    if InOSStore(stores, raw) {
      var s :| s in stores && s.isOS && exists c <- s.certs :: c.raw == raw;
      var c :| c in s.certs && c.raw == raw;
      assert Rates(s, raw, TrustOf(s, c));
      RatingsExact(stores, |stores|, raw, TrustOf(s, c));
    }
  }

  /** A root that may anchor: in an OS store and denied by none. */
  predicate MayAnchor(stores: seq<StoreContents>, c: Cert) {
    (exists s <- stores :: Holds(s, c)) && !RatedDenied(stores, c.raw)
  }

  predicate IsDenied(members: Members, c: Cert) {
    c.raw in members && members[c.raw] == Denied
  }

  lemma DeniedMeans(stores: seq<StoreContents>, members: Members, s: StoreContents, c: Cert)
    requires MembersOf(members, Ratings(stores, |stores|)) && s in stores && Holds(s, c)
    ensures IsDenied(members, c) <==> RatedDenied(stores, c.raw)
    ensures MayAnchor(stores, c) <==> !IsDenied(members, c)
  {
    MembershipExact(stores, members, c.raw);
    assert InOSStore(stores, c.raw);
  }

  /** The pool so far holds exactly the anchors among the certificates visited. */
  ghost predicate Pooled(stores: seq<StoreContents>, pool: set<Cert>, visited: set<Cert>) {
    forall c :: c in pool <==> c in visited && MayAnchor(stores, c)
  }

  lemma PoolStep(stores: seq<StoreContents>, pool: set<Cert>, visited: set<Cert>, c: Cert)
    requires Pooled(stores, pool, visited)
    ensures if MayAnchor(stores, c) then Pooled(stores, pool + {c}, visited + {c})
        else Pooled(stores, pool, visited + {c})
  {}

  /** The first `k` certificates of a store, as a set. */
  function FirstCerts(s: StoreContents, k: nat): set<Cert>
    requires k <= |s.certs|
  {
    set c | c in s.certs[..k]
  }

  lemma FirstCertsStep(s: StoreContents, k: nat, before: set<Cert>)
    requires k < |s.certs|
    ensures before + FirstCerts(s, k + 1) == before + FirstCerts(s, k) + {s.certs[k]}
  {
    assert s.certs[..k + 1] == s.certs[..k] + [s.certs[k]];
  }

  function OSCerts(stores: seq<StoreContents>, n: nat): set<Cert>
    requires n <= |stores|
  {
    if n == 0 then {}
    else if stores[n - 1].isOS then OSCerts(stores, n - 1) + FirstCerts(stores[n - 1], |stores[n - 1].certs|)
    else OSCerts(stores, n - 1)
  }

  lemma {:induction false} OSCertsExact(stores: seq<StoreContents>, n: nat, c: Cert)
    requires n <= |stores|
    ensures c in OSCerts(stores, n) <==> exists i :: 0 <= i < n && Holds(stores[i], c)
  {
    if n > 0 {
      OSCertsExact(stores, n - 1, c);
    }
  }

  /** The pool is exactly the OS certificates no OS store denies; there is none when that set is empty. */
  method OSRootPool(stores: seq<StoreContents>, members: Members) returns (pool: Option<set<Cert>>)
    requires MembersOf(members, Ratings(stores, |stores|))
    ensures pool.Some? ==> forall c :: c in pool.value <==> MayAnchor(stores, c)
    ensures pool == None <==> forall c :: !MayAnchor(stores, c)
  {
    var certs: set<Cert>, added := {}, 0;
    for i := 0 to |stores|
      invariant Pooled(stores, certs, OSCerts(stores, i)) && (added == 0 <==> certs == {})
    {
      var s := stores[i];
      if !s.isOS {
        continue;
      }
      ghost var before := OSCerts(stores, i);
      assert before + FirstCerts(s, 0) == before;
      for k := 0 to |s.certs|
        invariant Pooled(stores, certs, before + FirstCerts(s, k)) && (added == 0 <==> certs == {}) && added >= 0
      {
        var c := s.certs[k];
        DeniedMeans(stores, members, s, c);
        FirstCertsStep(s, k, before);
        PoolStep(stores, certs, before + FirstCerts(s, k), c);
        if IsDenied(members, c) {
          continue;
        }
        certs, added := certs + {c}, added + 1;
      }
      assert s.certs[..|s.certs|] == s.certs;
    }
    forall c ensures c in OSCerts(stores, |stores|) <==> exists s <- stores :: Holds(s, c) {
      OSCertsExact(stores, |stores|, c);
    }
    pool := if added == 0 then None else Some(certs);
  }

  /** The same CA under another issuer: same subject, same key. */
  predicate IsCopyOf(cert: Cert, root: Cert) {
    root.subject == cert.subject && root.publicKey == cert.publicKey
  }

  /** No certificate before number `k` of store `i` is an anchor for `cert`. */
  predicate NoneBefore(cert: Cert, stores: seq<StoreContents>, i: nat, k: nat)
    requires i < |stores| && k <= |stores[i].certs|
  {
    && (forall c <- OSCerts(stores, i) :: MayAnchor(stores, c) ==> !IsCopyOf(cert, c))
    && (forall c <- stores[i].certs[..k] :: MayAnchor(stores, c) ==> !IsCopyOf(cert, c))
  }

  /** Finds the first anchor for a cross-signed CA in store order, and finds one exactly when an OS store holds one
      that no OS store denies. */
  method CrossSignedAnchor(cert: Cert, stores: seq<StoreContents>, members: Members) returns (anchor: Option<Cert>)
    requires MembersOf(members, Ratings(stores, |stores|))
    ensures anchor.Some? ==> cert.isCA && MayAnchor(stores, anchor.value) && IsCopyOf(cert, anchor.value)
    ensures anchor.Some? ==> exists i: nat, k: nat | i < |stores| && k < |stores[i].certs| ::
                               stores[i].isOS && stores[i].certs[k] == anchor.value && NoneBefore(cert, stores, i, k)
    ensures anchor == None && cert.isCA ==> forall c :: MayAnchor(stores, c) ==> !IsCopyOf(cert, c)
  {
    if !cert.isCA {
      return None;
    }
    for i := 0 to |stores|
      invariant forall c :: c in OSCerts(stores, i) && MayAnchor(stores, c) ==> !IsCopyOf(cert, c)
    {
      var s := stores[i];
      if !s.isOS {
        continue;
      }
      for k := 0 to |s.certs|
        invariant forall c <- s.certs[..k] :: MayAnchor(stores, c) ==> !IsCopyOf(cert, c)
      {
        var root := s.certs[k];
        DeniedMeans(stores, members, s, root);
        assert s.certs[..k + 1] == s.certs[..k] + [root];
        if IsDenied(members, root) {
          continue;
        }
        if IsCopyOf(cert, root) {
          assert NoneBefore(cert, stores, i, k);
          return Some(root);
        }
      }
      assert s.certs[..|s.certs|] == s.certs;
    }
    forall c ensures c in OSCerts(stores, |stores|) <==> exists s <- stores :: Holds(s, c) {
      OSCertsExact(stores, |stores|, c);
    }
    return None;
  }
}
