/** Reordering the certificates of a bundle into chain order (`autoChainItems`). */
module Bundle {
  import opened CertTypes
  import opened Relations
  import opened Chains
  import opened Sequences

  /** The bundle's own notion of a root: subject equals issuer, whatever the key identifiers say. */
  predicate IsRoot(item: Item) {
    IsCert(item) && item.certificate.value.subject == item.certificate.value.issuer
  }

  /** The bundle drops more than certlib calls self-signed: a certificate whose two key identifiers
      differ is self-issued without being self-signed. */
  lemma RootsAreMoreThanSelfSigned(item: Item)
    requires IsCert(item)
    ensures IsSelfSigned(item.certificate.value) ==> IsRoot(item)
    ensures IsRoot(item) && !IsSelfSigned(item.certificate.value) <==>
            var c := item.certificate.value;
            c.subject == c.issuer && |c.subjectKeyId| > 0 && |c.authorityKeyId| > 0
                && c.subjectKeyId != c.authorityKeyId
  {}

  function OfKind(items: seq<Item>, pick: ContentType -> bool): seq<Item> {
    if items == [] then []
    else
      var last := items[|items| - 1];
      if pick(last.kind) then OfKind(items[..|items| - 1], pick) + [last] else OfKind(items[..|items| - 1], pick)
  }

  function Keys(items: seq<Item>): seq<Item> { OfKind(items, (k: ContentType) => k == PrivateKey) }

  function Certs(items: seq<Item>): seq<Item> { OfKind(items, (k: ContentType) => k == Certificate) }

  function Others(items: seq<Item>): seq<Item> {
    OfKind(items, (k: ContentType) => k != PrivateKey && k != Certificate)
  }

  /** The items that stay: all of them, or all but the roots. */
  function Kept(items: seq<Item>, includeRoot: bool): seq<Item> {
    if items == [] then []
    else
      var last := items[|items| - 1];
      if !includeRoot && IsRoot(last) then Kept(items[..|items| - 1], includeRoot)
      else Kept(items[..|items| - 1], includeRoot) + [last]
  }

  method Separate(items: seq<Item>) returns (keys: seq<Item>, certs: seq<Item>, others: seq<Item>)
    ensures keys == Keys(items) && certs == Certs(items) && others == Others(items)
  {
    keys, certs, others := [], [], [];
    for i := 0 to |items|
      invariant keys == Keys(items[..i]) && certs == Certs(items[..i]) && others == Others(items[..i])
    {
      assert items[..i + 1][..i] == items[..i];
      match items[i].kind
      case Certificate => certs := certs + [items[i]];
      case PrivateKey => keys := keys + [items[i]];
      case _ => others := others + [items[i]];
    }
    assert items[..|items|] == items;
  }

  // ---------------------------------------------------------------------------------------------
  // The order of the leaves
  // ---------------------------------------------------------------------------------------------

  /** Go's `<` on strings. */
  predicate StringLess(a: string, b: string) {
    b != [] && (a == [] || a[0] < b[0] || (a[0] == b[0] && StringLess(a[1..], b[1..])))
  }

  lemma {:induction false} StringLessIsTotal(a: string, b: string)
    ensures StringLess(a, b) || StringLess(b, a) || a == b
    ensures !(StringLess(a, b) && StringLess(b, a))
    ensures a == b ==> !StringLess(a, b)
  {
    if a != [] && b != [] && a[0] == b[0] {
      StringLessIsTotal(a[1..], b[1..]);
      assert a == [a[0]] + a[1..] && b == [b[0]] + b[1..];
    }
  }

  lemma {:induction false} StringLessTransitive(a: string, b: string, c: string)
    requires StringLess(a, b) && StringLess(b, c)
    ensures StringLess(a, c)
  {
    if a != [] && a[0] == b[0] == c[0] {
      StringLessTransitive(a[1..], b[1..], c[1..]);
    }
  }

  predicate Before(a: ItemRef, b: ItemRef) {
    if a.filePath != b.filePath then StringLess(a.filePath, b.filePath)
    else if a.containerIdx != b.containerIdx then a.containerIdx < b.containerIdx
    else a.itemIdx < b.itemIdx
  }

  lemma BeforeTransitive(a: ItemRef, b: ItemRef, c: ItemRef)
    requires !Before(b, a) && !Before(c, b)
    ensures !Before(c, a)
  {
    StringLessIsTotal(a.filePath, b.filePath);
    StringLessIsTotal(b.filePath, c.filePath);
    StringLessIsTotal(a.filePath, c.filePath);
    if StringLess(a.filePath, b.filePath) && StringLess(b.filePath, c.filePath) {
      StringLessTransitive(a.filePath, b.filePath, c.filePath);
    }
  }

  predicate SortedRefs(refs: seq<ItemRef>) {
    forall i, j :: 0 <= i < j < |refs| ==> !Before(refs[j], refs[i])
  }

  function Members(refs: seq<ItemRef>): set<ItemRef> {
    set r | r in refs
  }

  method InsertSorted(refs: seq<ItemRef>, ref: ItemRef) returns (out: seq<ItemRef>)
    requires SortedRefs(refs)
    ensures SortedRefs(out) && Members(out) == Members(refs) + {ref}
    ensures NoRepeats(refs) && ref !in refs ==> NoRepeats(out)
  {
    var i := 0;
    while i < |refs| && !Before(ref, refs[i])
      invariant 0 <= i <= |refs|
      invariant forall k :: 0 <= k < i ==> !Before(ref, refs[k])
    {
      i := i + 1;
    }
    if i < |refs| {
      forall k | i <= k < |refs|
        ensures !Before(refs[k], ref)
      {
        StringLessIsTotal(ref.filePath, refs[i].filePath);
        BeforeTransitive(ref, refs[i], refs[k]);
      }
    }
    out := refs[..i] + [ref] + refs[i..];
    assert refs == refs[..i] + refs[i..];
  }

  /** The leaves in path, container and item order, collected in any order. */
  method SortedChainLeaves(chains: map<ItemRef, seq<ItemRef>>) returns (leaves: seq<ItemRef>)
    ensures SortedRefs(leaves) && Members(leaves) == chains.Keys && NoRepeats(leaves)
  {
    leaves := [];
    var pending := chains.Keys;
    while pending != {}
      invariant pending <= chains.Keys
      invariant SortedRefs(leaves) && Members(leaves) == chains.Keys - pending && NoRepeats(leaves)
    {
      var leaf :| leaf in pending;
      assert leaf !in Members(leaves);
      leaves := InsertSorted(leaves, leaf);
      pending := pending - {leaf};
    }
  }

  /** The chosen leaf: the longest chain, and the first leaf in order among equals. */
  predicate BestLeaf(chains: map<ItemRef, seq<ItemRef>>, leaf: ItemRef) {
    && leaf in chains
    && forall l <- chains :: |chains[l]| <= |chains[leaf]| && (Before(l, leaf) ==> |chains[l]| < |chains[leaf]|)
  }

  /** No two leaves differ in their alias alone; true of references into one store. */
  predicate OneRefPerItem(refs: set<ItemRef>) {
    forall a <- refs, b <- refs ::
      a.filePath == b.filePath && a.containerIdx == b.containerIdx && a.itemIdx == b.itemIdx ==> a == b
  }

  /** The choice is determined by the chains, not by the order in which a map yields them. */
  lemma BestLeafIsUnique(chains: map<ItemRef, seq<ItemRef>>, a: ItemRef, b: ItemRef)
    requires OneRefPerItem(chains.Keys) && BestLeaf(chains, a) && BestLeaf(chains, b)
    ensures a == b
  {
    StringLessIsTotal(a.filePath, b.filePath);
    assert !Before(a, b) && !Before(b, a);
  }

  method LongestChain(chains: map<ItemRef, seq<ItemRef>>) returns (best: seq<ItemRef>, ghost leaf: ItemRef)
    requires forall l <- chains :: chains[l] != []
    ensures best == [] <==> chains == map[]
    ensures best != [] ==> BestLeaf(chains, leaf) && best == chains[leaf]
  {
    var leaves := SortedChainLeaves(chains);
    best := [];
    leaf := ItemRef(0, 0, "", "");
    for i := 0 to |leaves|
      invariant best == [] ==> i == 0
      invariant best != [] ==> leaf in leaves[..i] && leaf in chains && best == chains[leaf]
      invariant forall k :: 0 <= k < i ==> leaves[k] in chains && |chains[leaves[k]]| <= |best|
      invariant best != [] ==> forall k :: 0 <= k < i && Before(leaves[k], leaf) ==> |chains[leaves[k]]| < |best|
    {
      assert leaves[i] in Members(leaves);
      var chain := chains[leaves[i]];
      if |chain| > |best| {
        best := chain;
        leaf := leaves[i];
      } else {
        ghost var at :| 0 <= at < i && leaves[at] == leaf;
        assert !Before(leaves[i], leaves[at]);
      }
      assert leaf in leaves[..i + 1];
    }
    forall l | l in chains
      ensures best != [] && |chains[l]| <= |best| && (Before(l, leaf) ==> |chains[l]| < |best|)
    {
      assert l in Members(leaves);
      var k :| 0 <= k < |leaves| && leaves[k] == l;
    }
    if chains != map[] {
      var l :| l in chains;
    }
  }

  // ---------------------------------------------------------------------------------------------
  // Moving a chain to the front keeps every certificate
  // ---------------------------------------------------------------------------------------------

  lemma KeptStep(s: seq<Item>, k: nat, includeRoot: bool)
    requires k < |s|
    ensures Kept(s[..k + 1], includeRoot)
            == if !includeRoot && IsRoot(s[k]) then Kept(s[..k], includeRoot) else Kept(s[..k], includeRoot) + [s[k]]
  {
    assert s[..k + 1][..k] == s[..k];
  }

  lemma {:induction false} KeptAppend(a: seq<Item>, b: seq<Item>, includeRoot: bool)
    ensures Kept(a + b, includeRoot) == Kept(a, includeRoot) + Kept(b, includeRoot)
  {
    if b == [] {
      assert a + b == a;
    } else {
      assert (a + b)[..|a + b| - 1] == a + b[..|b| - 1];
      KeptAppend(a, b[..|b| - 1], includeRoot);
    }
  }

  lemma {:induction false} KeptCount(s: seq<Item>, includeRoot: bool, x: Item)
    ensures multiset(Kept(s, includeRoot))[x] == if !includeRoot && IsRoot(x) then 0 else multiset(s)[x]
  {
    if s != [] {
      KeptCount(s[..|s| - 1], includeRoot, x);
      assert s == s[..|s| - 1] + [s[|s| - 1]];
    }
  }

  lemma KeptOfSame(a: seq<Item>, b: seq<Item>, includeRoot: bool)
    requires multiset(a) == multiset(b)
    ensures multiset(Kept(a, includeRoot)) == multiset(Kept(b, includeRoot))
  {
    forall x
      ensures multiset(Kept(a, includeRoot))[x] == multiset(Kept(b, includeRoot))[x]
    {
      KeptCount(a, includeRoot, x);
      KeptCount(b, includeRoot, x);
    }
  }

  lemma {:induction false} KeptAll(s: seq<Item>, includeRoot: bool)
    requires includeRoot || forall x <- s :: !IsRoot(x)
    ensures Kept(s, includeRoot) == s
  {
    if s != [] {
      KeptAll(s[..|s| - 1], includeRoot);
      assert s == s[..|s| - 1] + [s[|s| - 1]];
    }
  }

  lemma {:induction false} OfKindExact(items: seq<Item>, pick: ContentType -> bool, x: Item)
    ensures multiset(OfKind(items, pick))[x] == if pick(x.kind) then multiset(items)[x] else 0
    ensures x in OfKind(items, pick) ==> pick(x.kind)
  {
    if items != [] {
      OfKindExact(items[..|items| - 1], pick, x);
      assert items == items[..|items| - 1] + [items[|items| - 1]];
    }
  }

  lemma SeparateIsPermutation(items: seq<Item>)
    ensures multiset(Keys(items) + Certs(items) + Others(items)) == multiset(items)
    ensures forall x <- Keys(items) :: !IsRoot(x)
    ensures forall x <- Others(items) :: !IsRoot(x)
  {
    forall x
      ensures multiset(Keys(items) + Certs(items) + Others(items))[x] == multiset(items)[x]
      ensures x in Keys(items) || x in Others(items) ==> !IsRoot(x)
    {
      OfKindExact(items, (k: ContentType) => k == PrivateKey, x);
      OfKindExact(items, (k: ContentType) => k == Certificate, x);
      OfKindExact(items, (k: ContentType) => k != PrivateKey && k != Certificate, x);
    }
  }

  /** Keys, then certificates in whatever order, then the rest: if the certificates are a
      permutation of the input's, so is the whole, with or without its roots. */
  lemma Reassemble(items: seq<Item>, ordered: seq<Item>, includeRoot: bool)
    requires multiset(ordered) == multiset(Kept(Certs(items), includeRoot))
    ensures multiset(Keys(items) + ordered + Others(items)) == multiset(Kept(items, includeRoot))
  {
    var keys, certs, others := Keys(items), Certs(items), Others(items);
    SeparateIsPermutation(items);
    KeptAll(keys, includeRoot);
    KeptAll(others, includeRoot);
    KeptOfSame(items, keys + certs + others, includeRoot);
    KeptAppend(keys + certs, others, includeRoot);
    KeptAppend(keys, certs, includeRoot);
  }

  // ---------------------------------------------------------------------------------------------
  // autoChainItems
  // ---------------------------------------------------------------------------------------------

  /** The store the bundle builds from its certificate items. */
  function BundleStore(certs: seq<Item>): Store {
    [Container("bundle-input", false, certs)]
  }

  function Positions(chain: seq<ItemRef>): seq<int> {
    seq(|chain|, k requires 0 <= k < |chain| => chain[k].itemIdx)
  }

  /** A chain of the bundle's store names distinct certificate items. */
  lemma ChainPositions(certs: seq<Item>, chain: seq<ItemRef>, signs: SignatureCheck)
    requires SignedChain(BundleStore(certs), chain, signs) && |chain| >= 2
    ensures InRange(Positions(chain), |certs|)
    ensures NoRepeats(Positions(chain))
  {
    var store := BundleStore(certs);
    forall k | 0 <= k < |chain|
      ensures ValidRef(store, chain[k])
    {
      assert NewLink(store, chain, if k + 1 < |chain| then k else k - 1, signs);
    }
    forall a, b | 0 <= a < b < |chain|
      ensures chain[a].itemIdx != chain[b].itemIdx
    {
      assert NewLink(store, chain, b - 1, signs);
      assert !Clash(store, chain[b], chain[a]);
    }
  }

  /** The certificates of the chosen chain. */
  method ChainCerts(certs: seq<Item>, chain: seq<int>, includeRoot: bool) returns (ordered: seq<Item>, used: set<int>)
    requires InRange(chain, |certs|)
    ensures ordered == Kept(At(certs, chain), includeRoot) && used == IdxSet(chain)
  {
    ordered, used := [], {};
    ghost var all := At(certs, chain);
    for k := 0 to |chain|
      invariant used == IdxSet(chain[..k])
      invariant ordered == Kept(all[..k], includeRoot)
    {
      KeptStep(all, k, includeRoot);
      assert chain[..k + 1] == chain[..k] + [chain[k]];
      used := used + {chain[k]};
      if !includeRoot && IsRoot(certs[chain[k]]) {
        continue;
      }
      ordered := ordered + [certs[chain[k]]];
    }
    assert chain[..|chain|] == chain && all[..|chain|] == all;
  }

  lemma KeptSnoc(s: seq<Item>, x: Item, includeRoot: bool)
    ensures Kept(s + [x], includeRoot)
            == if !includeRoot && IsRoot(x) then Kept(s, includeRoot) else Kept(s, includeRoot) + [x]
  {
    assert (s + [x])[..|s|] == s;
  }

  /** The certificates outside the chain, in their old order. */
  method OtherCerts(certs: seq<Item>, used: set<int>, includeRoot: bool) returns (others: seq<Item>)
    ensures others == Kept(Rest(certs, used, |certs|), includeRoot)
  {
    others := [];
    for i := 0 to |certs|
      invariant others == Kept(Rest(certs, used, i), includeRoot)
    {
      if i !in used {
        KeptSnoc(Rest(certs, used, i), certs[i], includeRoot);
        if !includeRoot && IsRoot(certs[i]) {
          continue;
        }
        others := others + [certs[i]];
      }
    }
  }

  /** The first chain of every leaf of the store. */
  ghost predicate FirstChainsOf(store: Store, signs: SignatureCheck, chains: map<ItemRef, seq<ItemRef>>) {
    exists g: Graph, alternatives: Alternatives ::
      g.store == store && IndexOf(g, signs) && AlternativesOf(g, alternatives) && chains == FirstChains(alternatives)
  }

  lemma FirstChainsFacts(store: Store, signs: SignatureCheck, chains: map<ItemRef, seq<ItemRef>>)
    requires FirstChainsOf(store, signs, chains)
    ensures forall l <- chains :: LeafRef(store, l) && |chains[l]| >= 2 && chains[l][0] == l
                                  && SignedChain(store, chains[l], signs)
  {
    var g: Graph, alternatives: Alternatives :|
      g.store == store && IndexOf(g, signs) && AlternativesOf(g, alternatives) && chains == FirstChains(alternatives);
    forall l | l in chains
      ensures LeafRef(store, l) && |chains[l]| >= 2 && chains[l][0] == l && SignedChain(store, chains[l], signs)
    {
      assert chains[l] in LeafChains(g, l);
      AlternativesAreSignedChains(g, signs, l, chains[l]);
    }
  }

  /** The longest chain, none when no leaf has an issuer. */
  ghost predicate Chosen(chains: map<ItemRef, seq<ItemRef>>, chain: seq<ItemRef>) {
    if chains == map[] then chain == [] else exists leaf :: BestLeaf(chains, leaf) && chain == chains[leaf]
  }

  /** The reordered items: keys, the chosen chain leaf first, the other certificates in their old order, and
      the rest; roots are left out unless wanted. With fewer than two certificates nothing is left out. */
  ghost predicate AutoChained(items: seq<Item>, includeRoot: bool, signs: SignatureCheck, result: seq<Item>,
                              chain: seq<ItemRef>)
  {
    var certs := Certs(items);
    if |certs| < 2 then chain == [] && result == Keys(items) + certs + Others(items)
    else
      && (exists chains :: FirstChainsOf(BundleStore(certs), signs, chains) && Chosen(chains, chain))
      && InRange(Positions(chain), |certs|)
      && result == Keys(items) + (Kept(At(certs, Positions(chain)), includeRoot)
                                  + Kept(Rest(certs, IdxSet(Positions(chain)), |certs|), includeRoot))
                   + Others(items)
  }

  method AutoChainItems(items: seq<Item>, includeRoot: bool, signs: SignatureCheck)
    returns (result: seq<Item>, chain: seq<ItemRef>)
    ensures AutoChained(items, includeRoot, signs, result, chain)
  {
    var keys, certs, others := Separate(items);
    chain := [];
    if |certs| < 2 {
      result := keys + certs + others;
      return;
    }
    var g, alternatives := AssembleStoreChains(BundleStore(certs), signs);
    var chains := FirstChains(alternatives);
    assert FirstChainsOf(BundleStore(certs), signs, chains);
    FirstChainsFacts(BundleStore(certs), signs, chains);
    ghost var leaf: ItemRef;
    chain, leaf := LongestChain(chains);
    if chain != [] {
      ChainPositions(certs, chain, signs);
    }
    var inChain, used := ChainCerts(certs, Positions(chain), includeRoot);
    var outside := OtherCerts(certs, used, includeRoot);
    var ordered := inChain + outside;
    assert Chosen(chains, chain);
    result := keys + ordered + others;
  }

  lemma ChosenChainIsSigned(items: seq<Item>, includeRoot: bool, signs: SignatureCheck, result: seq<Item>,
                            chain: seq<ItemRef>)
    requires AutoChained(items, includeRoot, signs, result, chain) && chain != []
    ensures |chain| >= 2 && SignedChain(BundleStore(Certs(items)), chain, signs)
    ensures NoRepeats(Positions(chain)) && LeafRef(BundleStore(Certs(items)), chain[0])
  {
    var certs := Certs(items);
    var chains :| FirstChainsOf(BundleStore(certs), signs, chains) && Chosen(chains, chain);
    FirstChainsFacts(BundleStore(certs), signs, chains);
    ChainPositions(certs, chain, signs);
  }

  /** Nothing is lost or doubled: with the roots the result is a permutation of the input, and without them
      exactly the input minus its roots, unless there are fewer than two certificates. */
  lemma AutoChainKeepsItems(items: seq<Item>, includeRoot: bool, signs: SignatureCheck, result: seq<Item>,
                            chain: seq<ItemRef>)
    requires AutoChained(items, includeRoot, signs, result, chain)
    ensures |Certs(items)| < 2 || includeRoot ==> multiset(result) == multiset(items)
    ensures |Certs(items)| >= 2 ==> multiset(result) == multiset(Kept(items, includeRoot))
  {
    var certs := Certs(items);
    SeparateIsPermutation(items);
    if includeRoot {
      KeptAll(items, includeRoot);
    }
    if |certs| >= 2 {
      if chain != [] {
        ChosenChainIsSigned(items, includeRoot, signs, result, chain);
      }
      FrontAndRest(certs, Positions(chain));
      var front, rest := At(certs, Positions(chain)), Rest(certs, IdxSet(Positions(chain)), |certs|);
      KeptOfSame(certs, front + rest, includeRoot);
      KeptAppend(front, rest, includeRoot);
      Reassemble(items, Kept(front, includeRoot) + Kept(rest, includeRoot), includeRoot);
    }
  }

  lemma ChosenIsUnique(store: Store, signs: SignatureCheck, a: map<ItemRef, seq<ItemRef>>,
                       b: map<ItemRef, seq<ItemRef>>, chainA: seq<ItemRef>, chainB: seq<ItemRef>)
    requires FirstChainsOf(store, signs, a) && Chosen(a, chainA)
    requires FirstChainsOf(store, signs, b) && Chosen(b, chainB)
    ensures chainA == chainB
  {
    var g: Graph, m: Alternatives :| g.store == store && IndexOf(g, signs) && AlternativesOf(g, m)
        && a == FirstChains(m);
    var h: Graph, n: Alternatives :| h.store == store && IndexOf(h, signs) && AlternativesOf(h, n)
        && b == FirstChains(n);
    VisitingOrderDoesNotMatter(g, h, m, n, signs);
    FirstChainsFacts(store, signs, a);
    if a != map[] {
      var p :| BestLeaf(a, p) && chainA == a[p];
      var q :| BestLeaf(b, q) && chainB == b[q];
      BestLeafIsUnique(a, p, q);
    }
  }

  /** The result does not depend on the order in which maps are visited: the items, the flag and the
      signatures determine it. */
  lemma AutoChainIsDetermined(items: seq<Item>, includeRoot: bool, signs: SignatureCheck,
                              result: seq<Item>, chain: seq<ItemRef>, result': seq<Item>, chain': seq<ItemRef>)
    requires AutoChained(items, includeRoot, signs, result, chain)
    requires AutoChained(items, includeRoot, signs, result', chain')
    ensures result == result' && chain == chain'
  {
    var certs := Certs(items);
    if |certs| >= 2 {
      var a :| FirstChainsOf(BundleStore(certs), signs, a) && Chosen(a, chain);
      var b :| FirstChainsOf(BundleStore(certs), signs, b) && Chosen(b, chain');
      ChosenIsUnique(BundleStore(certs), signs, a, b, chain, chain');
    }
  }

  // ---------------------------------------------------------------------------------------------
  // removeRootCerts
  // ---------------------------------------------------------------------------------------------

  predicate HasCert(items: seq<Item>) {
    exists x <- items :: x.kind == Certificate
  }

  /** Drops the roots unless that would leave no certificate at all. */
  method RemoveRootCerts(items: seq<Item>) returns (out: seq<Item>)
    ensures out == if HasCert(Kept(items, false)) then Kept(items, false) else items
    ensures HasCert(items) ==> HasCert(out)
  {
    out := [];
    var hasCerts := false;
    for i := 0 to |items|
      invariant out == Kept(items[..i], false)
      invariant hasCerts <==> HasCert(out)
    {
      assert items[..i + 1][..i] == items[..i];
      if IsRoot(items[i]) {
        continue;
      }
      ghost var before := out;
      out := out + [items[i]];
      assert HasCert(out) <==> HasCert(before) || items[i].kind == Certificate by {
        assert items[i] in out && forall x <- before :: x in out;
      }
      hasCerts := hasCerts || items[i].kind == Certificate;
    }
    assert items[..|items|] == items;
    if !hasCerts {
      out := items;
    }
  }
}
