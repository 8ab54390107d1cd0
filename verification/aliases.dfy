/** What is left of a written Java keystore once its entries are filed under their aliases. */
module KeyStoreAliases {
  import opened CertTypes
  import opened KeyStoreWriter

  // ---------------------------------------------------------------------------------------------
  // Which entry an alias ends up with
  // ---------------------------------------------------------------------------------------------

  /** Lower-casing, in the keystore library. */
  type Fold = string -> string

  /** Item `i` is written as an entry. */
  predicate Emits(items: seq<Item>, plan: Plan, i: int) {
    KeyIdx(items, i) || (CertIdx(items, i) && !Skipped(items, plan, i))
  }

  /** Every key can be encoded. */
  ghost predicate Ready(items: seq<Item>, plan: Plan) {
    Covers(items, plan) && forall i :: KeyIdx(items, i) ==> items[i].key.value.pkcs8.Some?
  }

  /** The alias item `i` is written under. */
  ghost function Name(items: seq<Item>, plan: Plan, aliases: Aliases, i: nat): string
    requires i < |items| && Covers(items, plan)
  {
    if KeyIdx(items, i) then KeyAlias(items, aliases, i, plan.chains[i]) else AliasOf(items, aliases, i)
  }

  ghost function EntryOf(items: seq<Item>, plan: Plan, aliases: Aliases, password: Bytes, i: nat): (e: Entry)
    requires Ready(items, plan) && Emits(items, plan, i)
    ensures EntryFor(items, plan, aliases, password, i) == Emit(e)
    ensures e.alias == Name(items, plan, aliases, i) && (e.KeyEntry? <==> KeyIdx(items, i))
  {
    EntryFor(items, plan, aliases, password, i).entry
  }

  ghost predicate FiledUnder(items: seq<Item>, plan: Plan, aliases: Aliases, fold: Fold, a: string, i: nat)
    requires i < |items| && Covers(items, plan)
  {
    Emits(items, plan, i) && fold(Name(items, plan, aliases, i)) == a
  }

  /** The last of the first `n` items that is filed under `a`, -1 when there is none. */
  ghost function Holder(items: seq<Item>, plan: Plan, aliases: Aliases, fold: Fold, a: string, n: nat): (h: int)
    requires n <= |items| && Covers(items, plan)
    ensures -1 <= h < n && (h != -1 ==> FiledUnder(items, plan, aliases, fold, a, h))
    ensures forall m: nat | h < m < n :: !FiledUnder(items, plan, aliases, fold, a, m)
  {
    if n == 0 then -1
    else if FiledUnder(items, plan, aliases, fold, a, n - 1) then n - 1
    else Holder(items, plan, aliases, fold, a, n - 1)
  }

  lemma StoredOne(before: seq<Entry>, e: Entry, fold: Fold)
    ensures Stored(before + [e], fold) == Stored(before, fold)[fold(e.alias) := e]
  {
    assert (before + [e])[..|before|] == before;
  }

  lemma OneMoreEmitted(items: seq<Item>, plan: Plan, aliases: Aliases, password: Bytes, fold: Fold, n: nat)
    requires n < |items| && Ready(items, plan)
    ensures var before := Stored(Emitted(items, plan, aliases, password, n), fold);
            var after := Stored(Emitted(items, plan, aliases, password, n + 1), fold);
            if Emits(items, plan, n) then
              var e := EntryOf(items, plan, aliases, password, n); after == before[fold(e.alias) := e]
            else after == before
  {
    if Emits(items, plan, n) {
      StoredOne(Emitted(items, plan, aliases, password, n), EntryOf(items, plan, aliases, password, n), fold);
    }
  }

  /** `stored` holds under `a` the entry of the last of the first `n` items filed there. */
  ghost predicate HoldsLast(items: seq<Item>, plan: Plan, aliases: Aliases, password: Bytes, fold: Fold, a: string,
                            n: nat, stored: map<string, Entry>)
    requires n <= |items| && Ready(items, plan)
  {
    var h := Holder(items, plan, aliases, fold, a, n);
    (a in stored <==> h != -1) && (h != -1 ==> stored[a] == EntryOf(items, plan, aliases, password, h))
  }

  lemma OneMoreStored(items: seq<Item>, plan: Plan, aliases: Aliases, password: Bytes, fold: Fold, a: string, n: nat,
                      stored: map<string, Entry>)
    requires n < |items| && Ready(items, plan) && HoldsLast(items, plan, aliases, password, fold, a, n, stored)
    ensures if Emits(items, plan, n) then
              var e := EntryOf(items, plan, aliases, password, n);
              HoldsLast(items, plan, aliases, password, fold, a, n + 1, stored[fold(e.alias) := e])
            else HoldsLast(items, plan, aliases, password, fold, a, n + 1, stored)
  {}

  lemma OneMoreHeld(items: seq<Item>, plan: Plan, aliases: Aliases, password: Bytes, fold: Fold, a: string, n: nat)
    requires n < |items| && Ready(items, plan)
    requires HoldsLast(items, plan, aliases, password, fold, a, n,
                       Stored(Emitted(items, plan, aliases, password, n), fold))
    ensures HoldsLast(items, plan, aliases, password, fold, a, n + 1,
                      Stored(Emitted(items, plan, aliases, password, n + 1), fold))
  {
    OneMoreStored(items, plan, aliases, password, fold, a, n, Stored(Emitted(items, plan, aliases, password, n), fold));
    OneMoreEmitted(items, plan, aliases, password, fold, n);
  }

  /** The keystore holds under each alias the entry of the last item filed there. */
  lemma {:induction false} StoredExact(items: seq<Item>, plan: Plan, aliases: Aliases, password: Bytes, fold: Fold,
                                       a: string, n: nat)
    requires n <= |items| && Ready(items, plan)
    ensures HoldsLast(items, plan, aliases, password, fold, a, n,
                      Stored(Emitted(items, plan, aliases, password, n), fold))
  {
    if n > 0 {
      StoredExact(items, plan, aliases, password, fold, a, n - 1);
      OneMoreHeld(items, plan, aliases, password, fold, a, n - 1);
    }
  }

  /** No later item is filed under the alias of item `i`. */
  ghost predicate Survives(items: seq<Item>, plan: Plan, aliases: Aliases, fold: Fold, i: nat)
    requires i < |items| && Covers(items, plan)
  {
    forall m: nat | i < m < |items| :: !FiledUnder(items, plan, aliases, fold, fold(Name(items, plan, aliases, i)), m)
  }

  lemma SurvivorIsStored(items: seq<Item>, plan: Plan, aliases: Aliases, password: Bytes, fold: Fold, i: nat)
    requires Ready(items, plan) && Emits(items, plan, i) && Survives(items, plan, aliases, fold, i)
    ensures var a := fold(Name(items, plan, aliases, i));
            var stored := Stored(Emitted(items, plan, aliases, password, |items|), fold);
            a in stored && stored[a] == EntryOf(items, plan, aliases, password, i)
  {
    var a := fold(Name(items, plan, aliases, i));
    StoredExact(items, plan, aliases, password, fold, a, |items|);
    assert FiledUnder(items, plan, aliases, fold, a, i);
    assert Holder(items, plan, aliases, fold, a, |items|) == i;
  }

  function KeyIdxs(items: seq<Item>): set<int> {
    set i | 0 <= i < |items| && KeyIdx(items, i)
  }

  /** The aliases a keystore holds a key under. */
  function KeyNames(stored: map<string, Entry>): set<string> {
    set a | a in stored && stored[a].KeyEntry?
  }

  /** The key items that survive, each with the alias it is filed under. */
  ghost function SurvivingKeys(items: seq<Item>, plan: Plan, aliases: Aliases, fold: Fold): map<int, string>
    requires Covers(items, plan)
  {
    map i: nat | i < |items| && KeyIdx(items, i) && Survives(items, plan, aliases, fold, i)
      :: i := fold(Name(items, plan, aliases, i))
  }

  lemma Member<T>(s: set<T>) returns (x: T)
    requires s != {}
    ensures x in s
  {
    x :| x in s;
  }

  lemma {:induction false} OneToOneSizes(keys: set<int>, m: map<int, string>)
    requires keys <= m.Keys && forall i, k | i in m && k in m :: m[i] == m[k] ==> i == k
    ensures |set i | i in keys :: m[i]| == |keys|
  {
    if keys != {} {
      var i := Member(keys);
      var rest := keys - {i};
      OneToOneSizes(rest, m);
      assert (set k | k in keys :: m[k]) == (set k | k in rest :: m[k]) + {m[i]};
    }
  }

  lemma SurvivorsDiffer(items: seq<Item>, plan: Plan, aliases: Aliases, fold: Fold, i: nat, k: nat)
    requires Covers(items, plan) && i < k < |items| && Emits(items, plan, i) && Emits(items, plan, k)
    requires Survives(items, plan, aliases, fold, i)
    ensures fold(Name(items, plan, aliases, i)) != fold(Name(items, plan, aliases, k))
  {
    assert !FiledUnder(items, plan, aliases, fold, fold(Name(items, plan, aliases, i)), k);
  }

  lemma KeyNamesAreSurvivors(items: seq<Item>, plan: Plan, aliases: Aliases, password: Bytes, fold: Fold)
    requires Ready(items, plan)
    ensures KeyNames(Stored(Emitted(items, plan, aliases, password, |items|), fold))
         == SurvivingKeys(items, plan, aliases, fold).Values
  {
    var stored, kept := Stored(Emitted(items, plan, aliases, password, |items|), fold), SurvivingKeys(items, plan,
        aliases, fold);
    forall a | a in KeyNames(stored) ensures a in kept.Values {
      StoredExact(items, plan, aliases, password, fold, a, |items|);
      var h := Holder(items, plan, aliases, fold, a, |items|);
      assert KeyIdx(items, h) && Survives(items, plan, aliases, fold, h);
      assert h in kept && kept[h] == a;
    }
    forall i: nat | i in kept ensures kept[i] in KeyNames(stored) {
      SurvivorIsStored(items, plan, aliases, password, fold, i);
    }
  }

  lemma SubsetOfSameSize<T>(a: set<T>, b: set<T>)
    requires a <= b
    ensures |a| <= |b| && (|a| == |b| <==> a == b)
  {
    assert b == a + (b - a);
  }

  ghost predicate AllKeysSurvive(items: seq<Item>, plan: Plan, aliases: Aliases, fold: Fold)
    requires Covers(items, plan)
  {
    forall i: nat | i < |items| && KeyIdx(items, i) :: Survives(items, plan, aliases, fold, i)
  }

  /** The keystore holds one key for every key item that survives, so as many keys as there were key items exactly
      when all of them do. */
  lemma KeysSurviveExactly(items: seq<Item>, plan: Plan, aliases: Aliases, password: Bytes, fold: Fold)
    requires Ready(items, plan)
    ensures var keys := |KeyNames(Stored(Emitted(items, plan, aliases, password, |items|), fold))|;
            && keys == |SurvivingKeys(items, plan, aliases, fold)| <= |KeyIdxs(items)|
            && (keys == |KeyIdxs(items)| <==> AllKeysSurvive(items, plan, aliases, fold))
  {
    var kept := SurvivingKeys(items, plan, aliases, fold);
    KeyNamesAreSurvivors(items, plan, aliases, password, fold);
    forall i, k | i in kept && k in kept && kept[i] == kept[k] ensures i == k {
      if i < k {
        SurvivorsDiffer(items, plan, aliases, fold, i, k);
      } else if k < i {
        SurvivorsDiffer(items, plan, aliases, fold, k, i);
      }
    }
    OneToOneSizes(kept.Keys, kept);
    assert kept.Values == set i | i in kept.Keys :: kept[i];
    SubsetOfSameSize(kept.Keys, KeyIdxs(items));
    if kept.Keys == KeyIdxs(items) {
      forall i: nat | i < |items| && KeyIdx(items, i) ensures Survives(items, plan, aliases, fold, i) {
        assert i in KeyIdxs(items);
        assert i in kept;
      }
    }
  }

  // ---------------------------------------------------------------------------------------------
  // Which items clash
  // ---------------------------------------------------------------------------------------------

  /** Certificate `j` has the public half of key `k`. */
  predicate OwnCert(items: seq<Item>, k: int, j: int) {
    && KeyIdx(items, k) && CertIdx(items, j)
    && items[k].key.value.publicKey.Some? && CertOf(items, j).publicKey == items[k].key.value.publicKey
  }

  /** No two certificate items share a folded alias, and no two key items do: so a keystore is read, where an
      entry's first certificate and its key have the entry's alias, whether or not they match. */
  predicate UniqueAliases(items: seq<Item>, aliases: Aliases, fold: Fold) {
    forall i: nat, m: nat | i < m < |items| :: SameKind(items, i, m) ==> !Alike(items, aliases, fold, i, m)
  }

  predicate SameKind(items: seq<Item>, i: nat, m: nat) {
    (KeyIdx(items, i) && KeyIdx(items, m)) || (CertIdx(items, i) && CertIdx(items, m))
  }

  predicate Alike(items: seq<Item>, aliases: Aliases, fold: Fold, i: nat, m: nat)
    requires i < |items| && m < |items|
  {
    fold(AliasOf(items, aliases, i)) == fold(AliasOf(items, aliases, m))
  }

  /** The key's leaf is among the items and has an alias, which the key then takes. */
  predicate HasNamedLeaf(items: seq<Item>, aliases: Aliases, k: int)
    requires KeyIdx(items, k)
  {
    LeafFor(items, k) != -1 && GivenAlias(items, aliases, LeafFor(items, k)) != ""
  }

  /** Keys `i` and `m` take one leaf's alias, or one takes its leaf's and the other has that alias itself and takes
      no leaf's. */
  predicate KeysClash(items: seq<Item>, aliases: Aliases, fold: Fold, i: nat, m: nat)
    requires KeyIdx(items, i) && KeyIdx(items, m)
  {
    if HasNamedLeaf(items, aliases, i) && HasNamedLeaf(items, aliases, m) then LeafFor(items, i) == LeafFor(items, m)
    else if HasNamedLeaf(items, aliases, i) then Alike(items, aliases, fold, LeafFor(items, i), m)
    else HasNamedLeaf(items, aliases, m) && Alike(items, aliases, fold, LeafFor(items, m), i)
  }

  /** Key `k` takes no leaf's alias, and certificate `j` has the key's. */
  predicate KeyAndCertClash(items: seq<Item>, aliases: Aliases, fold: Fold, k: nat, j: nat)
    requires KeyIdx(items, k) && CertIdx(items, j)
  {
    !HasNamedLeaf(items, aliases, k) && Alike(items, aliases, fold, k, j)
  }

  predicate Clash(items: seq<Item>, aliases: Aliases, fold: Fold, i: nat, m: nat) {
    (KeyIdx(items, i) && KeyIdx(items, m) && KeysClash(items, aliases, fold, i, m))
    || (KeyIdx(items, i) && CertIdx(items, m) && KeyAndCertClash(items, aliases, fold, i, m))
    || (CertIdx(items, i) && KeyIdx(items, m) && KeyAndCertClash(items, aliases, fold, m, i))
  }

  lemma NameOfKey(items: seq<Item>, plan: Plan, aliases: Aliases, signs: SignatureCheck, k: nat)
    requires PlanFor(items, |items|, plan, signs) && Covers(items, plan) && KeyIdx(items, k)
    ensures HasNamedLeaf(items, aliases, k) ==>
              Name(items, plan, aliases, k) == AliasOf(items, aliases, LeafFor(items, k))
    ensures !HasNamedLeaf(items, aliases, k) ==> Name(items, plan, aliases, k) == AliasOf(items, aliases, k)
  {
    WalkStartsAtLeaf(items, plan, signs, k);
  }

  /** A key's leaf has no entry of its own. */
  lemma LeafIsSkipped(items: seq<Item>, plan: Plan, signs: SignatureCheck, k: nat)
    requires PlanFor(items, |items|, plan, signs) && KeyIdx(items, k) && LeafFor(items, k) != -1
    ensures Skipped(items, plan, LeafFor(items, k)) && OwnCert(items, k, LeafFor(items, k))
  {
    WalkStartsAtLeaf(items, plan, signs, k);
    var walk := plan.chains[k].walk;
    TakenExact(plan.chains, |items|, walk[0]);
    LeavesExact(plan.chains, |items|, walk[0]);
  }

  lemma UniqueInKind(items: seq<Item>, aliases: Aliases, fold: Fold, i: nat, m: nat)
    requires UniqueAliases(items, aliases, fold) && SameKind(items, i, m)
    ensures Alike(items, aliases, fold, i, m) <==> i == m
  {
    if i < m {
      assert !Alike(items, aliases, fold, i, m);
    } else if m < i {
      assert !Alike(items, aliases, fold, m, i);
    }
  }

  /** Two keys are written under one alias exactly when they share a named leaf, or one's leaf has the alias of the
      other, which has no named leaf. */
  lemma KeysClashExactly(items: seq<Item>, plan: Plan, aliases: Aliases, fold: Fold, signs: SignatureCheck, i: nat,
                         m: nat)
    requires PlanFor(items, |items|, plan, signs) && Covers(items, plan) && UniqueAliases(items, aliases, fold)
    requires KeyIdx(items, i) && KeyIdx(items, m) && i != m
    ensures fold(Name(items, plan, aliases, i)) == fold(Name(items, plan, aliases, m)) <==>
              KeysClash(items, aliases, fold, i, m)
  {
    NameOfKey(items, plan, aliases, signs, i);
    NameOfKey(items, plan, aliases, signs, m);
    UniqueInKind(items, aliases, fold, i, m);
    if HasNamedLeaf(items, aliases, i) && HasNamedLeaf(items, aliases, m) {
      UniqueInKind(items, aliases, fold, LeafFor(items, i), LeafFor(items, m));
    }
  }

  /** A key and a certificate with an entry of its own are written under one alias exactly when they have it and the
      key has no named leaf. */
  lemma KeyClashesWithCertExactly(items: seq<Item>, plan: Plan, aliases: Aliases, fold: Fold, signs: SignatureCheck,
                                  k: nat, j: nat)
    requires PlanFor(items, |items|, plan, signs) && Covers(items, plan) && UniqueAliases(items, aliases, fold)
    requires KeyIdx(items, k) && CertIdx(items, j) && !Skipped(items, plan, j)
    ensures fold(Name(items, plan, aliases, k)) == fold(Name(items, plan, aliases, j)) <==>
              KeyAndCertClash(items, aliases, fold, k, j)
  {
    NameOfKey(items, plan, aliases, signs, k);
    if HasNamedLeaf(items, aliases, k) {
      LeafIsSkipped(items, plan, signs, k);
      UniqueInKind(items, aliases, fold, LeafFor(items, k), j);
    }
  }

  lemma ClashExactly(items: seq<Item>, plan: Plan, aliases: Aliases, fold: Fold, signs: SignatureCheck, i: nat, m: nat)
    requires PlanFor(items, |items|, plan, signs) && Covers(items, plan) && UniqueAliases(items, aliases, fold)
    requires Emits(items, plan, i) && Emits(items, plan, m) && i != m
    ensures fold(Name(items, plan, aliases, i)) == fold(Name(items, plan, aliases, m)) <==>
              Clash(items, aliases, fold, i, m)
  {
    if KeyIdx(items, i) && KeyIdx(items, m) {
      KeysClashExactly(items, plan, aliases, fold, signs, i, m);
    } else if KeyIdx(items, i) {
      KeyClashesWithCertExactly(items, plan, aliases, fold, signs, i, m);
    } else if KeyIdx(items, m) {
      KeyClashesWithCertExactly(items, plan, aliases, fold, signs, m, i);
    } else {
      UniqueInKind(items, aliases, fold, i, m);
    }
  }

  /** Which entries the keystore keeps: those that clash with no later one. */
  lemma SurvivesExactly(items: seq<Item>, plan: Plan, aliases: Aliases, fold: Fold, signs: SignatureCheck, i: nat)
    requires PlanFor(items, |items|, plan, signs) && Covers(items, plan) && UniqueAliases(items, aliases, fold)
    requires Emits(items, plan, i)
    ensures Survives(items, plan, aliases, fold, i) <==> Stays(items, plan, aliases, fold, i)
  {
    forall m: nat | i < m < |items| && Emits(items, plan, m)
      ensures FiledUnder(items, plan, aliases, fold, fold(Name(items, plan, aliases, i)), m) <==>
                Clash(items, aliases, fold, i, m)
    {
      ClashExactly(items, plan, aliases, fold, signs, i, m);
    }
  }

  /** No later item with an entry clashes with item `i`. */
  predicate Stays(items: seq<Item>, plan: Plan, aliases: Aliases, fold: Fold, i: nat) {
    forall m: nat | i < m < |items| :: Emits(items, plan, m) ==> !Clash(items, aliases, fold, i, m)
  }

  // ---------------------------------------------------------------------------------------------
  // What the keystore holds
  // ---------------------------------------------------------------------------------------------

  ghost predicate InStore(stored: map<string, Entry>, raw: Bytes) {
    exists a <- stored :: raw in CertsIn(stored[a])
  }

  /** Item `i` is written, and its entry has this certificate: its own, or one its key's chain walks through or
      carries when the key's leaf is among the items. */
  predicate Brings(items: seq<Item>, plan: Plan, i: nat, raw: Bytes) {
    if KeyIdx(items, i) then
      && LeafFor(items, i) != -1 && i in plan.chains
      && (raw in items[i].chain || exists j <- plan.chains[i].walk :: CertIdx(items, j) && CertOf(items, j).raw == raw)
    else CertIdx(items, i) && !Skipped(items, plan, i) && CertOf(items, i).raw == raw
  }

  lemma BringsExactly(items: seq<Item>, plan: Plan, aliases: Aliases, password: Bytes, signs: SignatureCheck, i: nat,
                      raw: Bytes)
    requires PlanFor(items, |items|, plan, signs) && Ready(items, plan) && Emits(items, plan, i)
    ensures raw in CertsIn(EntryOf(items, plan, aliases, password, i)) <==> Brings(items, plan, i, raw)
  {
    if KeyIdx(items, i) {
      WalkStartsAtLeaf(items, plan, signs, i);
      ChainHolds(items, plan, signs, i, raw);
    }
  }

  lemma ChainHolds(items: seq<Item>, plan: Plan, signs: SignatureCheck, i: nat, raw: Bytes)
    requires PlanFor(items, |items|, plan, signs) && Covers(items, plan) && KeyIdx(items, i)
    ensures var c := plan.chains[i];
            raw in ChainOf(items, c) <==>
              c.walk != [] && (raw in items[i].chain || exists j <- c.walk :: CertOf(items, j).raw == raw)
  {
    var c := plan.chains[i];
    assert ChainFor(items, i, c, TakenBefore(plan.chains, i), signs);
    RawsExact(items, c.walk, raw);
    if c.walk != [] {
      ChainHasBoth(items, c, items[i].chain, raw);
    }
  }

  lemma ChainHasBoth(items: seq<Item>, c: KeyChain, chain: seq<Bytes>, raw: Bytes)
    requires forall j <- c.walk :: CertIdx(items, j)
    requires c.carried == NotIn(chain, Elements(Raws(items, c.walk)))
    ensures raw in ChainOf(items, c) <==> raw in chain || raw in Raws(items, c.walk)
  {
    var walked := Elements(Raws(items, c.walk));
    NotInExact(chain, walked);
    assert raw in walked + Elements(c.carried) <==> raw in walked + Elements(chain);
  }

  lemma RawsExact(items: seq<Item>, walk: seq<int>, raw: Bytes)
    requires forall j <- walk :: CertIdx(items, j)
    ensures raw in Raws(items, walk) <==> exists j <- walk :: CertOf(items, j).raw == raw
  {
    if j :| j in walk && CertOf(items, j).raw == raw {
      var p :| 0 <= p < |walk| && walk[p] == j;
      assert Raws(items, walk)[p] == raw;
    }
  }

  ghost predicate KeptBy(items: seq<Item>, plan: Plan, aliases: Aliases, fold: Fold, i: nat, raw: Bytes)
    requires i < |items| && Covers(items, plan)
  {
    Brings(items, plan, i, raw) && Survives(items, plan, aliases, fold, i)
  }

  /** The keystore holds a certificate exactly when some entry that survives has it: for any items. */
  lemma CertHeldExactly(items: seq<Item>, plan: Plan, aliases: Aliases, password: Bytes, fold: Fold,
                        signs: SignatureCheck, raw: Bytes)
    requires PlanFor(items, |items|, plan, signs) && Ready(items, plan)
    ensures InStore(Stored(Emitted(items, plan, aliases, password, |items|), fold), raw) <==>
              exists i: nat | i < |items| :: KeptBy(items, plan, aliases, fold, i, raw)
  {
    var stored := Stored(Emitted(items, plan, aliases, password, |items|), fold);
    if a :| a in stored && raw in CertsIn(stored[a]) {
      StoredExact(items, plan, aliases, password, fold, a, |items|);
      var h := Holder(items, plan, aliases, fold, a, |items|);
      BringsExactly(items, plan, aliases, password, signs, h, raw);
      assert KeptBy(items, plan, aliases, fold, h, raw);
    }
    if i: nat :| i < |items| && KeptBy(items, plan, aliases, fold, i, raw) {
      BringsExactly(items, plan, aliases, password, signs, i, raw);
      SurvivorIsStored(items, plan, aliases, password, fold, i);
    }
  }

  /** What the keystore holds of a surviving key: the key under its own password, and, exactly when its leaf is among
      the items, its chain: the leaf first, its issuers, and then the carried certificates in their order. */
  ghost predicate HoldsKey(items: seq<Item>, plan: Plan, k: nat, password: Bytes, signs: SignatureCheck, e: Entry)
    requires KeyIdx(items, k) && k in plan.chains
  {
    && e.KeyEntry? && items[k].key.value.pkcs8 == Some(e.pkcs8)
    && e.password == (match items[k].entryPassword case Some(p) => p case None => password)
    && (if HasLeaf(items, k) then WrittenChain(items, plan, k, signs, e.chain) else e.chain == [])
  }

  lemma SurvivingKeyIsHeld(items: seq<Item>, plan: Plan, aliases: Aliases, password: Bytes, fold: Fold,
                           signs: SignatureCheck, k: nat)
    requires PlanFor(items, |items|, plan, signs) && Ready(items, plan)
    requires KeyIdx(items, k) && Survives(items, plan, aliases, fold, k)
    ensures var a := fold(Name(items, plan, aliases, k));
            var stored := Stored(Emitted(items, plan, aliases, password, |items|), fold);
            a in stored && HoldsKey(items, plan, k, password, signs, stored[a])
  {
    SurvivorIsStored(items, plan, aliases, password, fold, k);
    ChainIsInOrder(items, plan, signs, aliases, password, k);
  }

  ghost predicate IsStored(items: seq<Item>, plan: Plan, k: nat, password: Bytes, signs: SignatureCheck,
                           stored: map<string, Entry>)
    requires KeyIdx(items, k) && k in plan.chains
  {
    exists a <- stored :: HoldsKey(items, plan, k, password, signs, stored[a])
  }

  /** What a keystore written from these items holds, whatever their aliases: a key for every key item exactly when
      all their entries survive; each key whose entry survives, under its password and with its chain; and exactly
      the certificates that a surviving entry has. */
  ghost predicate HoldsItems(items: seq<Item>, plan: Plan, aliases: Aliases, password: Bytes, fold: Fold,
                             signs: SignatureCheck, stored: map<string, Entry>)
    requires Covers(items, plan)
  {
    && (|KeyNames(stored)| == |KeyIdxs(items)| <==> AllKeysSurvive(items, plan, aliases, fold))
    && (forall k: nat | k < |items| && KeyIdx(items, k) ::
          Survives(items, plan, aliases, fold, k) ==> IsStored(items, plan, k, password, signs, stored))
    && (forall raw :: InStore(stored, raw) <==>
          exists i: nat | i < |items| :: KeptBy(items, plan, aliases, fold, i, raw))
  }

  lemma KeystoreHoldsItems(items: seq<Item>, plan: Plan, aliases: Aliases, password: Bytes, fold: Fold,
                           signs: SignatureCheck)
    requires PlanFor(items, |items|, plan, signs) && Ready(items, plan)
    ensures HoldsItems(items, plan, aliases, password, fold, signs,
                       Stored(Emitted(items, plan, aliases, password, |items|), fold))
  {
    var stored := Stored(Emitted(items, plan, aliases, password, |items|), fold);
    KeysSurviveExactly(items, plan, aliases, password, fold);
    forall k: nat | k < |items| && KeyIdx(items, k) && Survives(items, plan, aliases, fold, k)
      ensures IsStored(items, plan, k, password, signs, stored)
    {
      SurvivingKeyIsHeld(items, plan, aliases, password, fold, signs, k);
    }
    forall raw
      ensures InStore(stored, raw) <==> exists i: nat | i < |items| :: KeptBy(items, plan, aliases, fold, i, raw)
    {
      CertHeldExactly(items, plan, aliases, password, fold, signs, raw);
    }
  }

  /** Every certificate item has a written item that brings it and clashes with no later one. */
  predicate CertsStay(items: seq<Item>, plan: Plan, aliases: Aliases, fold: Fold) {
    forall j: nat | j < |items| && CertIdx(items, j) :: CertStays(items, plan, aliases, fold, CertOf(items, j).raw)
  }

  predicate CertStays(items: seq<Item>, plan: Plan, aliases: Aliases, fold: Fold, raw: Bytes) {
    exists i: nat | i < |items| :: Brings(items, plan, i, raw) && Stays(items, plan, aliases, fold, i)
  }

  predicate KeysStay(items: seq<Item>, plan: Plan, aliases: Aliases, fold: Fold) {
    forall k: nat | k < |items| && KeyIdx(items, k) :: Stays(items, plan, aliases, fold, k)
  }

  ghost predicate HoldsCerts(items: seq<Item>, stored: map<string, Entry>) {
    forall j: nat | j < |items| && CertIdx(items, j) :: InStore(stored, CertOf(items, j).raw)
  }

  lemma SurvivorsStay(items: seq<Item>, plan: Plan, aliases: Aliases, fold: Fold, signs: SignatureCheck, raw: Bytes)
    requires PlanFor(items, |items|, plan, signs) && Covers(items, plan) && UniqueAliases(items, aliases, fold)
    ensures (exists i: nat | i < |items| :: KeptBy(items, plan, aliases, fold, i, raw)) <==>
              CertStays(items, plan, aliases, fold, raw)
  {
    forall i: nat | i < |items| && Brings(items, plan, i, raw)
      ensures Survives(items, plan, aliases, fold, i) <==> Stays(items, plan, aliases, fold, i)
    {
      SurvivesExactly(items, plan, aliases, fold, signs, i);
    }
    if i: nat :| i < |items| && KeptBy(items, plan, aliases, fold, i, raw) {
      assert Brings(items, plan, i, raw) && Stays(items, plan, aliases, fold, i);
    }
    if i: nat :| i < |items| && Brings(items, plan, i, raw) && Stays(items, plan, aliases, fold, i) {
      assert KeptBy(items, plan, aliases, fold, i, raw);
    }
  }

  /** For items as a keystore is read: it holds as many keys as there are key items exactly when no key clashes with
      a later entry, and every certificate item exactly when each has an entry that does not. */
  lemma KeystoreHoldsAllExactly(items: seq<Item>, aliases: Aliases, password: Bytes, fold: Fold, signs: SignatureCheck)
    requires Ready(items, PlanOf(items, signs)) && UniqueAliases(items, aliases, fold)
    ensures var plan := PlanOf(items, signs);
            var stored := Stored(Emitted(items, plan, aliases, password, |items|), fold);
            && (|KeyNames(stored)| == |KeyIdxs(items)| <==> KeysStay(items, plan, aliases, fold))
            && (HoldsCerts(items, stored) <==> CertsStay(items, plan, aliases, fold))
  {
    var plan := PlanOf(items, signs);
    PlanOfIsPlan(items, signs);
    KeystoreHoldsItems(items, plan, aliases, password, fold, signs);
    forall k: nat | k < |items| && KeyIdx(items, k)
      ensures Survives(items, plan, aliases, fold, k) <==> Stays(items, plan, aliases, fold, k)
    {
      SurvivesExactly(items, plan, aliases, fold, signs, k);
    }
    forall j: nat | j < |items| && CertIdx(items, j)
      ensures InStore(Stored(Emitted(items, plan, aliases, password, |items|), fold), CertOf(items, j).raw) <==>
                CertStays(items, plan, aliases, fold, CertOf(items, j).raw)
    {
      SurvivorsStay(items, plan, aliases, fold, signs, CertOf(items, j).raw);
    }
  }

  // ---------------------------------------------------------------------------------------------
  // Items as a keystore is read
  // ---------------------------------------------------------------------------------------------

  /** What a keystore is read with: parsers, and which key entries some password opens. */
  datatype Reader = Reader(parse: Parser, parseKey: Bytes -> Option<Key>, opens: Entry -> bool)

  function CertRead(alias: string, cert: Option<Cert>): Item {
    Item(Certificate, alias, cert, None, None, false, None, [])
  }

  /** The items of one entry: its first certificate and its key under one alias, with the rest of the chain carried
      on the key; of a locked entry two placeholders. */
  function ItemsOf(e: Entry, r: Reader): seq<Item> {
    match e
    case TrustedEntry(alias, raw) => [CertRead(alias, r.parse(raw))]
    case KeyEntry(alias, pkcs8, chain, password) =>
      if !r.opens(e) then
        [CertRead(alias, None), Item(PrivateKey, alias, None, None, None, true, None, [])]
      else
        var key := Item(PrivateKey, alias, None, if pkcs8 == [] then None else r.parseKey(pkcs8), None, false,
                        Some(password), if |chain| > 1 then chain[1..] else []);
        if chain == [] then [key] else [CertRead(alias, r.parse(chain[0])), key]
  }

  function ItemsRead(entries: seq<Entry>, r: Reader): seq<Item> {
    if entries == [] then []
    else ItemsRead(entries[..|entries| - 1], r) + ItemsOf(entries[|entries| - 1], r)
  }

  /** The keystore library keeps one entry under a folded alias. */
  predicate FiledApart(entries: seq<Entry>, fold: Fold) {
    forall i, j :: 0 <= i < j < |entries| ==> fold(entries[i].alias) != fold(entries[j].alias)
  }

  predicate NamedApart(items: seq<Item>, fold: Fold) {
    forall i: nat, m: nat | i < m < |items| :: SameKind(items, i, m) ==> fold(items[i].alias) != fold(items[m].alias)
  }

  lemma {:induction false} ReadNames(entries: seq<Entry>, r: Reader, fold: Fold)
    requires FiledApart(entries, fold)
    ensures NamedApart(ItemsRead(entries, r), fold)
    ensures forall it <- ItemsRead(entries, r) :: exists e <- entries :: e.alias == it.alias
  {
    if entries != [] {
      var front, last := entries[..|entries| - 1], entries[|entries| - 1];
      ReadNames(front, r, fold);
      assert entries == front + [last];
      forall it | it in ItemsRead(front, r) ensures fold(it.alias) != fold(last.alias) {
        var e :| e in front && e.alias == it.alias;
        var i :| 0 <= i < |front| && front[i] == e;
        assert entries[i] == e;
      }
      assert forall it <- ItemsOf(last, r) :: it.alias == last.alias;
      OneEntryApart(last, r, fold);
      ApartAppend(ItemsRead(front, r), ItemsOf(last, r), fold);
    }
  }

  lemma OneEntryApart(e: Entry, r: Reader, fold: Fold)
    ensures NamedApart(ItemsOf(e, r), fold)
  {}

  lemma ApartAppend(a: seq<Item>, b: seq<Item>, fold: Fold)
    requires NamedApart(a, fold) && NamedApart(b, fold) && forall x <- a, y <- b :: fold(x.alias) != fold(y.alias)
    ensures NamedApart(a + b, fold)
  {
    var all := a + b;
    forall i: nat, m: nat | i < m < |all| && SameKind(all, i, m) ensures fold(all[i].alias) != fold(all[m].alias) {
      if m < |a| {
        assert SameKind(a, i, m);
      } else if i >= |a| {
        assert SameKind(b, i - |a|, m - |a|);
      } else {
        assert all[i] in a && all[m] in b;
      }
    }
  }

  /** The aliases are the items' own. */
  predicate OwnAliases(items: seq<Item>, aliases: Aliases) {
    forall i <- aliases :: 0 <= i < |items| && aliases[i] == items[i].alias
  }

  /** A keystore that is read, with nothing assumed of how keys and certificates match, meets what the results on
      clashes ask. */
  lemma ReadIsUnique(entries: seq<Entry>, r: Reader, aliases: Aliases, fold: Fold)
    requires FiledApart(entries, fold) && (forall e <- entries :: e.alias != "")
    requires OwnAliases(ItemsRead(entries, r), aliases)
    ensures UniqueAliases(ItemsRead(entries, r), aliases, fold) && CertsNamed(ItemsRead(entries, r), aliases)
  {
    var items := ItemsRead(entries, r);
    ReadNames(entries, r, fold);
    forall i: nat | i < |items| ensures AliasOf(items, aliases, i) == items[i].alias == GivenAlias(items, aliases, i) {
      assert items[i] in items;
      var e :| e in entries && e.alias == items[i].alias;
    }
  }

  // ---------------------------------------------------------------------------------------------
  // Entries whose certificate is their key's
  // ---------------------------------------------------------------------------------------------

  predicate CertsNamed(items: seq<Item>, aliases: Aliases) {
    forall j: nat | j < |items| && CertIdx(items, j) :: GivenAlias(items, aliases, j) != ""
  }

  /** A certificate that has a key's alias is for that key. */
  predicate EntriesMatch(items: seq<Item>, aliases: Aliases, fold: Fold) {
    forall k: nat, j: nat | k < |items| && j < |items| && KeyIdx(items, k) && CertIdx(items, j) ::
      Alike(items, aliases, fold, k, j) ==> OwnCert(items, k, j)
  }

  /** Two key items have one leaf among the items. */
  predicate SharedLeaf(items: seq<Item>, i: nat, m: nat) {
    KeyIdx(items, i) && KeyIdx(items, m) && LeafFor(items, i) == LeafFor(items, m) != -1
  }

  /** Then sharing a leaf is the only clash. */
  lemma MatchedClashExactly(items: seq<Item>, aliases: Aliases, fold: Fold, i: nat, m: nat)
    requires CertsNamed(items, aliases) && EntriesMatch(items, aliases, fold)
    ensures Clash(items, aliases, fold, i, m) <==> SharedLeaf(items, i, m)
  {
    forall k: nat, j: nat | KeyIdx(items, k) && CertIdx(items, j) && Alike(items, aliases, fold, k, j)
      ensures LeafFor(items, k) != -1
    {
      assert OwnCert(items, k, j);
      assert LeafOf(items, j, items[k].key.value.publicKey.value);
    }
  }

  predicate NoSharedLeaf(items: seq<Item>) {
    forall i: nat, m: nat | i < m < |items| :: !SharedLeaf(items, i, m)
  }

  /** No later key item shares the leaf of key `k`. */
  predicate LastOfItsLeaf(items: seq<Item>, k: nat) {
    forall m: nat | k < m < |items| :: !SharedLeaf(items, k, m)
  }

  lemma MatchedStays(items: seq<Item>, plan: Plan, aliases: Aliases, fold: Fold, i: nat)
    requires CertsNamed(items, aliases) && EntriesMatch(items, aliases, fold)
    ensures Stays(items, plan, aliases, fold, i) <==> LastOfItsLeaf(items, i)
  {
    forall m: nat | i < m < |items| ensures Clash(items, aliases, fold, i, m) <==> SharedLeaf(items, i, m) {
      MatchedClashExactly(items, aliases, fold, i, m);
    }
    assert forall m: nat | i < m < |items| :: SharedLeaf(items, i, m) ==> Emits(items, plan, m);
  }

  /** So the keystore holds every key exactly when no two key items share a leaf, and every certificate item exactly
      when each is brought by a written item whose leaf no later key shares. */
  lemma MatchedKeystoreHoldsAllExactly(items: seq<Item>, aliases: Aliases, password: Bytes, fold: Fold,
                                       signs: SignatureCheck)
    requires Ready(items, PlanOf(items, signs)) && UniqueAliases(items, aliases, fold)
    requires CertsNamed(items, aliases) && EntriesMatch(items, aliases, fold)
    ensures var plan := PlanOf(items, signs);
            var stored := Stored(Emitted(items, plan, aliases, password, |items|), fold);
            && (|KeyNames(stored)| == |KeyIdxs(items)| <==> NoSharedLeaf(items))
            && (HoldsCerts(items, stored) <==>
                forall j: nat | j < |items| && CertIdx(items, j) :: BroughtLast(items, plan, CertOf(items, j).raw))
  {
    KeystoreHoldsAllExactly(items, aliases, password, fold, signs);
    forall i: nat | i < |items|
      ensures Stays(items, PlanOf(items, signs), aliases, fold, i) <==> LastOfItsLeaf(items, i)
    {
      MatchedStays(items, PlanOf(items, signs), aliases, fold, i);
    }
    assert KeysStay(items, PlanOf(items, signs), aliases, fold) <==> NoSharedLeaf(items);
    forall raw ensures CertStays(items, PlanOf(items, signs), aliases, fold, raw) <==>
                         BroughtLast(items, PlanOf(items, signs), raw) {}
  }

  predicate BroughtLast(items: seq<Item>, plan: Plan, raw: Bytes) {
    exists i: nat | i < |items| :: Brings(items, plan, i, raw) && LastOfItsLeaf(items, i)
  }

  // ---------------------------------------------------------------------------------------------
  // A renewed key
  // ---------------------------------------------------------------------------------------------

  function CertOfOne(raw: Bytes, subject: string, issuer: string, publicKey: Bytes): Cert {
    Cert(raw, subject, issuer, [], [], false, [], Some(publicKey))
  }

  function NamedCert(alias: string, cert: Cert): Item {
    Item(Certificate, alias, Some(cert), None, None, false, None, [])
  }

  function NamedKey(alias: string, pkcs8: Bytes, publicKey: Bytes): Item {
    Item(PrivateKey, alias, None, Some(Key(Some(pkcs8), Some(publicKey))), None, false, None, [])
  }

  /** Two key entries, "old" and "new", whose certificates the intermediate "ca" issued for one public key. */
  function Renewed(oldKey: Bytes, newKey: Bytes): seq<Item> {
    [NamedCert("old", CertOfOne([1], "leaf", "ca", [7])), NamedKey("old", oldKey, [7]),
     NamedCert("new", CertOfOne([2], "leaf", "ca", [7])), NamedKey("new", newKey, [7]),
     NamedCert("ca", CertOfOne([3], "ca", "root", [8]))]
  }

  ghost predicate RenewedPlan(plan: Plan) {
    && plan.chains == map[1 := KeyChain([0, 4], []), 3 := KeyChain([0], [])]
    && plan.consumed == {0, 4} && plan.leaves == {0}
  }

  /** The key of item `k` has the first certificate as its leaf. */
  lemma RenewedChain(items: seq<Item>, oldKey: Bytes, newKey: Bytes, k: nat, c: KeyChain, taken: set<int>,
                     signs: SignatureCheck)
    requires items == Renewed(oldKey, newKey) && forall child, parent :: signs(child, parent)
    requires (k == 1 || k == 3) && ChainFor(items, k, c, taken, signs) && (taken == {} || taken == {0, 4})
    ensures c == KeyChain(if taken == {} then [0, 4] else [0], [])
  {
    assert LeafOf(items, 0, [7]);
    RenewedFirst(items, signs, oldKey, newKey);
    assert c.walk[0] == 0;
    assert c.carried == NotIn([], Elements(Raws(items, c.walk)));
  }

  lemma RenewedKeys(items: seq<Item>, oldKey: Bytes, newKey: Bytes, plan: Plan, signs: SignatureCheck)
    requires items == Renewed(oldKey, newKey) && PlanFor(items, 5, plan, signs)
    ensures plan.chains.Keys == {1, 3}
  {
    forall i ensures i in plan.chains <==> i == 1 || i == 3 {
      assert KeyIdx(items, 1) && KeyIdx(items, 3) && !KeyIdx(items, 0) && !KeyIdx(items, 2) && !KeyIdx(items, 4);
    }
  }

  lemma RenewedOldWalk(items: seq<Item>, oldKey: Bytes, newKey: Bytes, plan: Plan, signs: SignatureCheck)
    requires items == Renewed(oldKey, newKey) && PlanFor(items, 5, plan, signs) && plan.chains.Keys == {1, 3}
    requires forall child, parent :: signs(child, parent)
    ensures plan.chains[1] == KeyChain([0, 4], [])
  {
    assert KeyIdx(items, 1) && ChainFor(items, 1, plan.chains[1], TakenBefore(plan.chains, 1), signs);
    assert TakenBefore(plan.chains, 0) == {};
    assert TakenBefore(plan.chains, 1) == {};
    RenewedChain(items, oldKey, newKey, 1, plan.chains[1], {}, signs);
  }

  lemma RenewedNewWalk(items: seq<Item>, oldKey: Bytes, newKey: Bytes, plan: Plan, signs: SignatureCheck)
    requires items == Renewed(oldKey, newKey) && PlanFor(items, 5, plan, signs) && plan.chains.Keys == {1, 3}
    requires plan.chains[1] == KeyChain([0, 4], []) && forall child, parent :: signs(child, parent)
    ensures plan.chains[3] == KeyChain([0], [])
  {
    assert KeyIdx(items, 3) && ChainFor(items, 3, plan.chains[3], TakenBefore(plan.chains, 3), signs);
    assert TakenBefore(plan.chains, 1) == {};
    assert TakenBefore(plan.chains, 2) == {0, 4};
    assert TakenBefore(plan.chains, 3) == {0, 4};
    RenewedChain(items, oldKey, newKey, 3, plan.chains[3], {0, 4}, signs);
  }

  lemma RenewedWalks(items: seq<Item>, oldKey: Bytes, newKey: Bytes, plan: Plan, signs: SignatureCheck)
    requires items == Renewed(oldKey, newKey) && PlanFor(items, 5, plan, signs)
    requires forall child, parent :: signs(child, parent)
    ensures RenewedPlan(plan)
  {
    RenewedKeys(items, oldKey, newKey, plan, signs);
    RenewedOldWalk(items, oldKey, newKey, plan, signs);
    RenewedNewWalk(items, oldKey, newKey, plan, signs);
    RenewedTotals(plan);
  }

  lemma RenewedTotals(plan: Plan)
    requires plan.chains.Keys == {1, 3} && plan.chains[1] == KeyChain([0, 4], []) && plan.chains[3] == KeyChain([0], [])
    ensures TakenBefore(plan.chains, 5) == {0, 4} && LeavesBefore(plan.chains, 5) == {0}
  {
    var chains := plan.chains;
    assert TakenBefore(chains, 1) == {} && LeavesBefore(chains, 1) == {};
    assert TakenBefore(chains, 2) == {0, 4} && LeavesBefore(chains, 2) == {0};
    assert TakenBefore(chains, 3) == {0, 4} && LeavesBefore(chains, 3) == {0};
    assert TakenBefore(chains, 4) == {0, 4} && LeavesBefore(chains, 4) == {0};
  }

  lemma RenewedFirst(items: seq<Item>, signs: SignatureCheck, oldKey: Bytes, newKey: Bytes)
    requires items == Renewed(oldKey, newKey) && forall child, parent :: signs(child, parent)
    ensures CertIdx(items, 0) && CertIdx(items, 4)
    ensures WalkFrom(items, 0, {} + {0}, signs) == [0, 4] && WalkFrom(items, 0, {0, 4} + {0}, signs) == [0]
  {
    var leaf, ca := CertOf(items, 0), CertOf(items, 4);
    assert FreeIssuer(items, leaf, {0}, signs, 4);
    assert NextIssuer(items, leaf, {0}, signs, 0) == 4;
    assert NextIssuer(items, ca, {0, 4}, signs, 0) == -1;
    assert NextIssuer(items, leaf, {0, 4}, signs, 0) == -1;
    assert {} + {0} == {0} && {0, 4} + {0} == {0, 4} && {0} + {4} == {0, 4};
  }

  lemma RenewedAliases(items: seq<Item>, oldKey: Bytes, newKey: Bytes)
    requires items == Renewed(oldKey, newKey)
    ensures AliasOf(items, map[], 0) == "old" == AliasOf(items, map[], 1)
    ensures AliasOf(items, map[], 2) == "new" == AliasOf(items, map[], 3)
    ensures AliasOf(items, map[], 4) == "ca" && CertsNamed(items, map[])
  {}

  lemma RenewedDistinct(items: seq<Item>, oldKey: Bytes, newKey: Bytes, fold: Fold)
    requires items == Renewed(oldKey, newKey) && forall a :: fold(a) == a
    ensures UniqueAliases(items, map[], fold) && EntriesMatch(items, map[], fold)
  {
    RenewedAliases(items, oldKey, newKey);
    assert OwnCert(items, 1, 0) && OwnCert(items, 3, 2);
    assert "old"[0] != "new"[0] && "ca"[0] != "old"[0] && "ca"[0] != "new"[0];
  }

  /** What item `i` emits. */
  function RenewedEmission(oldKey: Bytes, newKey: Bytes, password: Bytes, i: nat): Emission {
    if i == 1 then Emit(KeyEntry("old", oldKey, [[1], [3]], password))
    else if i == 2 then Emit(TrustedEntry("new", [2]))
    else if i == 3 then Emit(KeyEntry("old", newKey, [[1]], password))
    else Nothing
  }

  lemma RenewedEntry(items: seq<Item>, oldKey: Bytes, newKey: Bytes, plan: Plan, password: Bytes, i: nat)
    requires items == Renewed(oldKey, newKey) && i < 5 && RenewedPlan(plan) && Covers(items, plan)
    ensures EntryFor(items, plan, map[], password, i) == RenewedEmission(oldKey, newKey, password, i)
  {
    RenewedAliases(items, oldKey, newKey);
    if i == 1 {
      assert ChainOf(items, plan.chains[1]) == [[1], [3]];
    } else if i == 3 {
      assert ChainOf(items, plan.chains[3]) == [[1]];
    }
  }

  lemma RenewedEntries(items: seq<Item>, oldKey: Bytes, newKey: Bytes, plan: Plan, password: Bytes)
    requires items == Renewed(oldKey, newKey) && RenewedPlan(plan) && Covers(items, plan)
    ensures Emitted(items, plan, map[], password, 5)
         == [] + [KeyEntry("old", oldKey, [[1], [3]], password)] + [TrustedEntry("new", [2])]
            + [KeyEntry("old", newKey, [[1]], password)]
  {
    forall i: nat | i < 5
      ensures EntryFor(items, plan, map[], password, i) == RenewedEmission(oldKey, newKey, password, i)
    {
      RenewedEntry(items, oldKey, newKey, plan, password, i);
    }
    assert Emitted(items, plan, map[], password, 1) == [];
    assert Emitted(items, plan, map[], password, 3)
        == [] + [KeyEntry("old", oldKey, [[1], [3]], password)] + [TrustedEntry("new", [2])];
  }

  /** A key that was renewed under the same public key: both entries are written under the leaf's alias, and the
      keystore keeps one key, under "old", and loses the intermediate, which only the lost entry held. */
  lemma RenewedKeyIsLost(oldKey: Bytes, newKey: Bytes, plan: Plan, password: Bytes, fold: Fold, signs: SignatureCheck)
    requires PlanFor(Renewed(oldKey, newKey), 5, plan, signs) && Covers(Renewed(oldKey, newKey), plan)
    requires (forall child, parent :: signs(child, parent)) && forall a :: fold(a) == a
    ensures var items := Renewed(oldKey, newKey);
            UniqueAliases(items, map[], fold) && EntriesMatch(items, map[], fold) && CertsNamed(items, map[])
    ensures Stored(Emitted(Renewed(oldKey, newKey), plan, map[], password, 5), fold)
         == map["old" := KeyEntry("old", newKey, [[1]], password), "new" := TrustedEntry("new", [2])]
  {
    var items := Renewed(oldKey, newKey);
    RenewedWalks(items, oldKey, newKey, plan, signs);
    RenewedAliases(items, oldKey, newKey);
    RenewedDistinct(items, oldKey, newKey, fold);
    RenewedEntries(items, oldKey, newKey, plan, password);
    RenewedStore(KeyEntry("old", oldKey, [[1], [3]], password), TrustedEntry("new", [2]),
                 KeyEntry("old", newKey, [[1]], password), fold);
  }

  lemma RenewedStore(e1: Entry, e2: Entry, e3: Entry, fold: Fold)
    requires e1.alias == "old" == e3.alias && e2.alias == "new" && forall a :: fold(a) == a
    ensures Stored([] + [e1] + [e2] + [e3], fold) == map["old" := e3, "new" := e2]
  {
    StoredOne([], e1, fold);
    StoredOne([] + [e1], e2, fold);
    StoredOne([] + [e1] + [e2], e3, fold);
    assert "old"[0] != "new"[0];
  }

  // ---------------------------------------------------------------------------------------------
  // Entries whose certificate is not their key's
  // ---------------------------------------------------------------------------------------------

  /** A certificate and a key under one alias; `pub` is `None` for a key whose public half cannot be compared. */
  function Mismatched(key: Bytes, pub: Option<Bytes>): seq<Item> {
    [NamedCert("a", CertOfOne([1], "leaf", "ca", [9])),
     Item(PrivateKey, "a", None, Some(Key(Some(key), pub)), None, false, None, [])]
  }

  lemma MismatchedPlan(items: seq<Item>, key: Bytes, pub: Option<Bytes>, plan: Plan, signs: SignatureCheck)
    requires items == Mismatched(key, pub) && pub != Some([9]) && PlanFor(items, 2, plan, signs)
    ensures 1 in plan.chains && plan.chains[1] == KeyChain([], []) && plan.consumed == {}
  {
    assert KeyIdx(items, 1) && !KeyIdx(items, 0) && LeafFor(items, 1) == -1;
    WalkStartsAtLeaf(items, plan, signs, 1);
    ChainIsDetermined(items, 1, plan.chains[1], TakenBefore(plan.chains, 1), signs);
    assert TakenBefore(plan.chains, 1) == {};
    assert TakenBefore(plan.chains, 2) == {};
  }

  lemma MismatchedClash(items: seq<Item>, key: Bytes, pub: Option<Bytes>, fold: Fold)
    requires items == Mismatched(key, pub) && pub != Some([9])
    ensures UniqueAliases(items, map[], fold) && CertsNamed(items, map[])
    ensures NoSharedLeaf(items) && Clash(items, map[], fold, 0, 1)
  {
    assert LeafFor(items, 1) == -1;
  }

  /** An entry whose certificate is not its key's: the key's entry replaces the certificate's, and the keystore holds
      the key alone, although no two keys share a leaf. */
  lemma MismatchedCertIsLost(key: Bytes, pub: Option<Bytes>, plan: Plan, password: Bytes, fold: Fold,
                             signs: SignatureCheck)
    requires pub != Some([9]) && fold("a") == "a"
    requires PlanFor(Mismatched(key, pub), 2, plan, signs) && Covers(Mismatched(key, pub), plan)
    ensures UniqueAliases(Mismatched(key, pub), map[], fold) && CertsNamed(Mismatched(key, pub), map[])
    ensures NoSharedLeaf(Mismatched(key, pub)) && Clash(Mismatched(key, pub), map[], fold, 0, 1)
    ensures Stored(Emitted(Mismatched(key, pub), plan, map[], password, 2), fold)
         == map["a" := KeyEntry("a", key, [], password)]
  {
    var items := Mismatched(key, pub);
    MismatchedPlan(items, key, pub, plan, signs);
    MismatchedClash(items, key, pub, fold);
    MismatchedEntries(items, key, pub, plan, password);
    StoredOne([], TrustedEntry("a", [1]), fold);
    StoredOne([] + [TrustedEntry("a", [1])], KeyEntry("a", key, [], password), fold);
  }

  lemma MismatchedEntries(items: seq<Item>, key: Bytes, pub: Option<Bytes>, plan: Plan, password: Bytes)
    requires items == Mismatched(key, pub) && Covers(items, plan)
    requires 1 in plan.chains && plan.chains[1] == KeyChain([], []) && plan.consumed == {}
    ensures Emitted(items, plan, map[], password, 2)
         == [] + [TrustedEntry("a", [1])] + [KeyEntry("a", key, [], password)]
  {
    assert EntryFor(items, plan, map[], password, 0) == Emit(TrustedEntry("a", [1]));
    assert ChainOf(items, plan.chains[1]) == [];
    assert EntryFor(items, plan, map[], password, 1) == Emit(KeyEntry("a", key, [], password));
    assert Emitted(items, plan, map[], password, 1) == [] + [TrustedEntry("a", [1])];
  }

  /** The certificates of two entries swapped in part: "a" has a certificate for the key of "b". */
  function Swapped(first: Bytes, second: Bytes): seq<Item> {
    [NamedCert("a", CertOfOne([1], "leaf", "ca", [9])), NamedKey("a", first, [7]),
     NamedCert("b", CertOfOne([2], "leaf", "ca", [9])), NamedKey("b", second, [9])]
  }

  /** Then key "b" is written as "a" and replaces key "a": a key can be lost without a shared leaf. */
  lemma SwappedKeyIsLost(first: Bytes, second: Bytes, plan: Plan, fold: Fold)
    requires forall a :: fold(a) == a
    ensures UniqueAliases(Swapped(first, second), map[], fold) && CertsNamed(Swapped(first, second), map[])
    ensures NoSharedLeaf(Swapped(first, second)) && !Stays(Swapped(first, second), plan, map[], fold, 1)
  {
    var items := Swapped(first, second);
    assert "a"[0] != "b"[0];
    assert LeafFor(items, 1) == -1 && LeafOf(items, 0, [9]) && LeafFor(items, 3) == 0;
    assert AliasOf(items, map[], 0) == "a" == AliasOf(items, map[], 1);
    assert AliasOf(items, map[], 2) == "b" == AliasOf(items, map[], 3);
    assert Emits(items, plan, 3) && Clash(items, map[], fold, 1, 3);
  }
}
