/** Key-chain expansion and the JKS writer of `writer.go`. */
module KeyStoreWriter {
  import opened CertTypes

  // ---------------------------------------------------------------------------------------------
  // expandKeyChains
  // ---------------------------------------------------------------------------------------------

  /** `x509.ParseCertificate`: `None` when the bytes are not a certificate. */
  type Parser = Bytes -> Option<Cert>

  /** A parsed certificate's raw bytes are the bytes it was parsed from. */
  ghost predicate KeepsRaw(parse: Parser) {
    forall der :: parse(der).Some? ==> parse(der).value.raw == der
  }

  function CertRaws(items: seq<Item>): set<Bytes> {
    set it | it in items && IsCert(it) :: it.certificate.value.raw
  }

  function CertItem(cert: Cert): Item {
    Item(Certificate, "", Some(cert), None, None, false, None, [])
  }

  /** The certificates a key's carried chain adds, given the raw bytes already present. */
  function NewCerts(chain: seq<Bytes>, seen: set<Bytes>, parse: Parser): (added: seq<Item>) {
    if chain == [] then []
    else if chain[0] in seen || parse(chain[0]).None? then NewCerts(chain[1..], seen, parse)
    else [CertItem(parse(chain[0]).value)] + NewCerts(chain[1..], seen + {chain[0]}, parse)
  }

  /** The raw bytes present after a carried chain. */
  function SeenAfter(chain: seq<Bytes>, seen: set<Bytes>, parse: Parser): set<Bytes> {
    seen + set der | der in chain && parse(der).Some?
  }

  function CarriedBy(item: Item): seq<Bytes> {
    if item.kind == PrivateKey then item.chain else []
  }

  function ExpandFrom(items: seq<Item>, seen: set<Bytes>, parse: Parser): seq<Item> {
    if items == [] then []
    else
      var carried := CarriedBy(items[0]);
      [items[0]] + NewCerts(carried, seen, parse) + ExpandFrom(items[1..], SeenAfter(carried, seen, parse), parse)
  }

  function Expand(items: seq<Item>, parse: Parser): seq<Item> {
    ExpandFrom(items, CertRaws(items), parse)
  }

  lemma SeenAfterStep(chain: seq<Bytes>, seen: set<Bytes>, parse: Parser)
    requires chain != []
    ensures SeenAfter(chain, seen, parse)
            == SeenAfter(chain[1..], if parse(chain[0]).Some? then seen + {chain[0]} else seen, parse)
  {
    assert chain == [chain[0]] + chain[1..];
  }

  /** The inner loop: the certificates of one carried chain that were not seen before. */
  method AddCarried(chain: seq<Bytes>, seen: set<Bytes>, parse: Parser) returns (added: seq<Item>, seen': set<Bytes>)
    ensures added == NewCerts(chain, seen, parse) && seen' == SeenAfter(chain, seen, parse)
  {
    added, seen' := [], seen;
    for k := 0 to |chain|
      invariant added + NewCerts(chain[k..], seen', parse) == NewCerts(chain, seen, parse)
      invariant SeenAfter(chain[k..], seen', parse) == SeenAfter(chain, seen, parse)
    {
      var der := chain[k];
      assert chain[k..][1..] == chain[k + 1..];
      SeenAfterStep(chain[k..], seen', parse);
      if der in seen' {
        assert seen' + {der} == seen';
        continue;
      }
      var cert := parse(der);
      if cert.None? {
        continue;
      }
      assert added + ([CertItem(cert.value)] + NewCerts(chain[k + 1..], seen' + {der}, parse))
          == added + [CertItem(cert.value)] + NewCerts(chain[k + 1..], seen' + {der}, parse);
      seen' := seen' + {der};
      added := added + [CertItem(cert.value)];
    }
    assert chain[|chain|..] == [];
    assert SeenAfter([], seen', parse) == seen';
  }

  lemma ExpandStep(out: seq<Item>, items: seq<Item>, i: nat, seen: set<Bytes>, parse: Parser)
    requires i < |items|
    ensures var carried := CarriedBy(items[i]);
            out + ExpandFrom(items[i..], seen, parse)
            == out + [items[i]] + NewCerts(carried, seen, parse) + ExpandFrom(items[i + 1..],
                SeenAfter(carried, seen, parse), parse)
  {
    assert items[i..][1..] == items[i + 1..];
  }

  method ExpandKeyChains(items: seq<Item>, parse: Parser) returns (out: seq<Item>)
    ensures out == Expand(items, parse)
  {
    var seen: set<Bytes> := {};
    for i := 0 to |items|
      invariant seen == CertRaws(items[..i])
    {
      assert items[..i + 1] == items[..i] + [items[i]];
      if IsCert(items[i]) {
        seen := seen + {items[i].certificate.value.raw};
      }
    }
    assert items[..|items|] == items;
    out := [];
    for i := 0 to |items|
      invariant out + ExpandFrom(items[i..], seen, parse) == Expand(items, parse)
    {
      var it := items[i];
      ExpandStep(out, items, i, seen, parse);
      out := out + [it];
      if it.kind != PrivateKey || |it.chain| == 0 {
        assert CarriedBy(it) == [];
        assert SeenAfter([], seen, parse) == seen;
        assert out + NewCerts([], seen, parse) == out;
        continue;
      }
      var added, seen' := AddCarried(it.chain, seen, parse);
      out, seen := out + added, seen';
    }
    assert items[|items|..] == [];
  }

  /** Every readable certificate the items carry is already among `seen`. */
  predicate NothingToAdd(items: seq<Item>, seen: set<Bytes>, parse: Parser) {
    forall it <- items :: forall der <- CarriedBy(it) :: parse(der).Some? ==> der in seen
  }

  lemma {:induction false} NewCertsNothing(chain: seq<Bytes>, seen: set<Bytes>, parse: Parser)
    requires forall der <- chain :: parse(der).Some? ==> der in seen
    ensures NewCerts(chain, seen, parse) == []
  {
    if chain != [] {
      NewCertsNothing(chain[1..], seen, parse);
    }
  }

  lemma {:induction false} ExpandNothing(items: seq<Item>, seen: set<Bytes>, parse: Parser)
    requires NothingToAdd(items, seen, parse)
    ensures ExpandFrom(items, seen, parse) == items
  {
    if items != [] {
      NewCertsNothing(CarriedBy(items[0]), seen, parse);
      assert SeenAfter(CarriedBy(items[0]), seen, parse) == seen;
      ExpandNothing(items[1..], seen, parse);
      assert [items[0]] + [] + items[1..] == items;
    }
  }

  lemma {:induction false} NewCertsExact(chain: seq<Bytes>, seen: set<Bytes>, parse: Parser)
    requires KeepsRaw(parse)
    ensures seen + CertRaws(NewCerts(chain, seen, parse)) == SeenAfter(chain, seen, parse)
    ensures forall it <- NewCerts(chain, seen, parse) :: IsCert(it) && it.chain == []
  {
    if chain == [] {
      assert CertRaws([]) == {};
    } else {
      SeenAfterStep(chain, seen, parse);
      if chain[0] in seen || parse(chain[0]).None? {
        assert seen + {chain[0]} == seen || parse(chain[0]).None?;
        NewCertsExact(chain[1..], seen, parse);
      } else {
        NewCertsExact(chain[1..], seen + {chain[0]}, parse);
        CertRawsAppend([CertItem(parse(chain[0]).value)], NewCerts(chain[1..], seen + {chain[0]}, parse));
        assert CertItem(parse(chain[0]).value) in [CertItem(parse(chain[0]).value)];
      }
    }
  }

  lemma CertRawsAppend(a: seq<Item>, b: seq<Item>)
    ensures CertRaws(a + b) == CertRaws(a) + CertRaws(b)
  {}

  /** The readable certificates carried on the chains of some keys. */
  function CarriedCerts(items: seq<Item>, parse: Parser): set<Bytes> {
    set it, der | it in items && der in CarriedBy(it) && parse(der).Some? :: der
  }

  lemma CarriedOfOne(item: Item, seen: set<Bytes>, parse: Parser)
    ensures SeenAfter(CarriedBy(item), seen, parse) == seen + CarriedCerts([item], parse)
  {
    assert CarriedCerts([item], parse) == set der | der in CarriedBy(item) && parse(der).Some?;
  }

  lemma {:induction false} ExpandCarries(items: seq<Item>, seen: set<Bytes>, parse: Parser)
    requires KeepsRaw(parse)
    ensures CarriedCerts(ExpandFrom(items, seen, parse), parse) == CarriedCerts(items, parse)
  {
    if items != [] {
      var added := NewCerts(CarriedBy(items[0]), seen, parse);
      var seen' := SeenAfter(CarriedBy(items[0]), seen, parse);
      NewCertsExact(CarriedBy(items[0]), seen, parse);
      ExpandCarries(items[1..], seen', parse);
      assert items == [items[0]] + [] + items[1..];
      Pieces([items[0]], [], items[1..], parse);
      Pieces([items[0]], added, ExpandFrom(items[1..], seen', parse), parse);
      assert CarriedCerts(added, parse) == {};
    }
  }

  lemma {:induction false} ExpandExact(items: seq<Item>, seen: set<Bytes>, parse: Parser)
    requires KeepsRaw(parse)
    ensures seen + CertRaws(ExpandFrom(items, seen, parse)) == seen + CertRaws(items) + CarriedCerts(items, parse)
  {
    if items != [] {
      var added := NewCerts(CarriedBy(items[0]), seen, parse);
      var seen' := SeenAfter(CarriedBy(items[0]), seen, parse);
      var rest := ExpandFrom(items[1..], seen', parse);
      NewCertsExact(CarriedBy(items[0]), seen, parse);
      CarriedOfOne(items[0], seen, parse);
      ExpandExact(items[1..], seen', parse);
      assert items == [items[0]] + [] + items[1..];
      Pieces([items[0]], [], items[1..], parse);
      Pieces([items[0]], added, rest, parse);
      Regroup(seen, CertRaws([items[0]]), CertRaws(added), CertRaws(rest), seen', CertRaws(items[1..]),
              CarriedCerts([items[0]], parse), CarriedCerts(items[1..], parse));
      assert CertRaws([]) == {} && CarriedCerts([], parse) == {};
    }
  }

  lemma Regroup<T>(seen: set<T>, one: set<T>, added: set<T>, rest: set<T>, seen': set<T>, tail: set<T>, c1: set<T>,
                   ct: set<T>)
    requires seen + added == seen' == seen + c1
    requires seen' + rest == seen' + tail + ct
    ensures seen + (one + added + rest) == seen + (one + {} + tail) + (c1 + {} + ct)
  {
    assert seen + (one + added + rest) == one + (seen' + rest);
    assert seen + (one + {} + tail) + (c1 + {} + ct) == one + (seen' + tail + ct);
  }

  lemma Pieces(a: seq<Item>, b: seq<Item>, c: seq<Item>, parse: Parser)
    ensures CertRaws(a + b + c) == CertRaws(a) + CertRaws(b) + CertRaws(c)
    ensures CarriedCerts(a + b + c, parse) == CarriedCerts(a, parse) + CarriedCerts(b, parse) + CarriedCerts(c, parse)
  {
    var ab := a + b;
    CertRawsAppend(ab, c);
    CertRawsAppend(a, b);
    CarriedAppend(ab, c, parse);
    CarriedAppend(a, b, parse);
  }

  lemma CarriedAppend(a: seq<Item>, b: seq<Item>, parse: Parser)
    ensures CarriedCerts(a + b, parse) == CarriedCerts(a, parse) + CarriedCerts(b, parse)
  {}

  /** After expansion the certificate items are the original ones plus every readable carried one. */
  lemma ExpandHoldsEveryCert(items: seq<Item>, parse: Parser)
    requires KeepsRaw(parse)
    ensures CertRaws(Expand(items, parse)) == CertRaws(items) + CarriedCerts(items, parse)
  {
    ExpandExact(items, CertRaws(items), parse);
    ExpandKeeps(items, CertRaws(items), parse);
  }

  lemma {:induction false} ExpandKeeps(items: seq<Item>, seen: set<Bytes>, parse: Parser)
    ensures multiset(items) <= multiset(ExpandFrom(items, seen, parse))
    ensures CertRaws(items) <= CertRaws(ExpandFrom(items, seen, parse))
  {
    if items != [] {
      var carried := CarriedBy(items[0]);
      ExpandKeeps(items[1..], SeenAfter(carried, seen, parse), parse);
      assert items == [items[0]] + items[1..];
      CertRawsAppend([items[0]], items[1..]);
      CertRawsAppend([items[0]] + NewCerts(carried, seen, parse),
          ExpandFrom(items[1..], SeenAfter(carried, seen, parse), parse));
      CertRawsAppend([items[0]], NewCerts(carried, seen, parse));
    }
  }

  /** Expanding twice, as the converter and then the writer do, adds nothing the second time. */
  lemma ExpandIsIdempotent(items: seq<Item>, parse: Parser)
    requires KeepsRaw(parse)
    ensures Expand(Expand(items, parse), parse) == Expand(items, parse)
  {
    var once := Expand(items, parse);
    ExpandHoldsEveryCert(items, parse);
    ExpandCarries(items, CertRaws(items), parse);
    forall it, der | it in once && der in CarriedBy(it) && parse(der).Some?
      ensures der in CertRaws(once)
    {
      assert der in CarriedCerts(once, parse);
    }
    ExpandNothing(once, CertRaws(once), parse);
  }

  // ---------------------------------------------------------------------------------------------
  // The conversion matrix
  // ---------------------------------------------------------------------------------------------

  datatype Format = PEM | DER | PKCS12 | JKS | PKCS7

  function OnlyCertificates(items: seq<Item>): seq<Item> {
    if items == [] then []
    else (if items[0].kind == Certificate then [items[0]] else []) + OnlyCertificates(items[1..])
  }

  /** The items the target format keeps; warnings are not modelled. */
  method ApplyConversionMatrix(items: seq<Item>, target: Format, parse: Parser) returns (out: seq<Item>)
    ensures out == var all := Expand(items, parse);
                   match target
                   case PKCS7 => OnlyCertificates(all)
                   case DER => if |all| > 1 then all[..1] else all
                   case _ => all
  {
    out := ExpandKeyChains(items, parse);
    match target {
      case PKCS7 =>
        var filtered := [];
        for i := 0 to |out|
          invariant filtered + OnlyCertificates(out[i..]) == OnlyCertificates(out)
        {
          assert out[i..][0] == out[i] && out[i..][1..] == out[i + 1..];
          if out[i].kind == Certificate {
            filtered := filtered + [out[i]];
          }
        }
        assert out[|out|..] == [];
        out := filtered;
      case DER =>
        if |out| > 1 {
          out := out[..1];
        }
      case _ =>
    }
  }

  lemma {:induction false} OnlyCertificatesRaws(items: seq<Item>)
    ensures CertRaws(OnlyCertificates(items)) == CertRaws(items)
  {
    if items != [] {
      OnlyCertificatesRaws(items[1..]);
      assert items == [items[0]] + items[1..];
      CertRawsAppend([items[0]], items[1..]);
      CertRawsAppend(if items[0].kind == Certificate then [items[0]] else [], OnlyCertificates(items[1..]));
    }
  }

  /** Converting to a certificates-only format drops keys but no certificate, not even one that
      was only carried on a key. */
  lemma CertificatesSurviveConversion(items: seq<Item>, parse: Parser)
    requires KeepsRaw(parse)
    ensures CertRaws(OnlyCertificates(Expand(items, parse))) == CertRaws(items) + CarriedCerts(items, parse)
  {
    OnlyCertificatesRaws(Expand(items, parse));
    ExpandHoldsEveryCert(items, parse);
  }

  // ---------------------------------------------------------------------------------------------
  // WriteJKS: building the chains
  // ---------------------------------------------------------------------------------------------

  /** Issuer name and signature, and nothing else: the walk does not compare key identifiers. */
  predicate Issues(parent: Cert, child: Cert, signs: SignatureCheck) {
    child.issuer == parent.subject && signs(child, parent)
  }

  predicate CertIdx(items: seq<Item>, j: int) {
    0 <= j < |items| && IsCert(items[j])
  }

  function CertOf(items: seq<Item>, j: int): Cert
    requires CertIdx(items, j)
  {
    items[j].certificate.value
  }

  function CertIdxs(items: seq<Item>): set<int> {
    set j | 0 <= j < |items| && CertIdx(items, j)
  }

  predicate KeyIdx(items: seq<Item>, i: int) {
    0 <= i < |items| && items[i].kind == PrivateKey && items[i].key.Some?
  }

  predicate LeafOf(items: seq<Item>, j: int, pub: Bytes) {
    CertIdx(items, j) && CertOf(items, j).publicKey == Some(pub)
  }

  /** What the writer knows about one key: the certificate items its chain walks through, leaf
      first, and the carried certificates appended after them. Both empty when no certificate has
      the key's public half. */
  datatype KeyChain = KeyChain(walk: seq<int>, carried: seq<Bytes>)

  function Raws(items: seq<Item>, walk: seq<int>): seq<Bytes>
    requires forall j <- walk :: CertIdx(items, j)
  {
    seq(|walk|, k requires 0 <= k < |walk| => CertOf(items, walk[k]).raw)
  }

  function ChainOf(items: seq<Item>, c: KeyChain): seq<Bytes>
    requires forall j <- c.walk :: CertIdx(items, j)
  {
    Raws(items, c.walk) + c.carried
  }

  method FindLeaf(items: seq<Item>, pub: Bytes) returns (leaf: int)
    ensures leaf == -1 ==> forall j :: !LeafOf(items, j, pub)
    ensures leaf != -1 ==> LeafOf(items, leaf, pub) && forall j | 0 <= j < leaf :: !LeafOf(items, j, pub)
  {
    for j := 0 to |items|
      invariant forall k :: 0 <= k < j ==> !LeafOf(items, k, pub)
    {
      if IsCert(items[j]) && items[j].certificate.value.publicKey == Some(pub) {
        return j;
      }
    }
    return -1;
  }

  /** `j` is a certificate item not consumed yet that issued `child`. */
  predicate FreeIssuer(items: seq<Item>, child: Cert, consumed: set<int>, signs: SignatureCheck, j: int) {
    CertIdx(items, j) && j !in consumed && Issues(CertOf(items, j), child, signs)
  }

  predicate NoFreeIssuer(items: seq<Item>, child: Cert, consumed: set<int>, signs: SignatureCheck) {
    forall j | 0 <= j < |items| :: !FreeIssuer(items, child, consumed, signs, j)
  }

  /** The first free issuer at `from` or later, -1 when there is none. */
  function NextIssuer(items: seq<Item>, child: Cert, consumed: set<int>, signs: SignatureCheck, from: nat): (next: int)
    requires from <= |items|
    ensures next == -1 ==> forall j | from <= j < |items| :: !FreeIssuer(items, child, consumed, signs, j)
    ensures next != -1 ==> from <= next < |items| && FreeIssuer(items, child, consumed, signs, next)
    ensures next != -1 ==> forall j | from <= j < next :: !FreeIssuer(items, child, consumed, signs, j)
    decreases |items| - from
  {
    if from == |items| then -1
    else if FreeIssuer(items, child, consumed, signs, from) then from
    else NextIssuer(items, child, consumed, signs, from + 1)
  }

  method FindIssuer(items: seq<Item>, child: Cert, consumed: set<int>, signs: SignatureCheck) returns (next: int)
    ensures next == NextIssuer(items, child, consumed, signs, 0)
  {
    for j := 0 to |items|
      invariant NextIssuer(items, child, consumed, signs, 0) == NextIssuer(items, child, consumed, signs, j)
    {
      if j in consumed || !IsCert(items[j]) {
        continue;
      }
      if Issues(items[j].certificate.value, child, signs) {
        return j;
      }
    }
    return -1;
  }

  /** The walk goes from certificate to issuer, and past its first element only through items
      nobody had consumed. */
  predicate LinkedWalk(items: seq<Item>, walk: seq<int>, taken: set<int>, signs: SignatureCheck) {
    && (forall j <- walk :: CertIdx(items, j))
    && (forall k :: 0 < k < |walk| ==> Issues(CertOf(items, walk[k]), CertOf(items, walk[k - 1]), signs))
    && (forall k :: 0 < k < |walk| ==> walk[k] !in taken)
    && (forall a, b :: 0 <= a < b < |walk| ==> walk[a] != walk[b])
  }

  function Elements<T>(s: seq<T>): set<T> {
    set x | x in s
  }

  /** The walk stopped because every issuer of its last certificate is consumed. */
  predicate Exhausted(items: seq<Item>, walk: seq<int>, consumed: set<int>, signs: SignatureCheck) {
    walk != [] && CertIdx(items, walk[|walk| - 1]) ==>
        NoFreeIssuer(items, CertOf(items, walk[|walk| - 1]), consumed, signs)
  }

  /** The issuer walk from item `cur`, which is consumed already: always to the first free issuer. It ends because
      every step consumes a certificate item. */
  function WalkFrom(items: seq<Item>, cur: int, consumed: set<int>, signs: SignatureCheck): (walk: seq<int>)
    requires CertIdx(items, cur)
    ensures walk != [] && walk[0] == cur && forall j <- walk :: CertIdx(items, j)
    decreases CertIdxs(items) - consumed
  {
    var next := NextIssuer(items, CertOf(items, cur), consumed, signs, 0);
    if next == -1 then [cur]
    else
      assert next in CertIdxs(items) - consumed;
      [cur] + WalkFrom(items, next, consumed + {next}, signs)
  }

  lemma {:induction false} WalkIsLinked(items: seq<Item>, cur: int, consumed: set<int>, signs: SignatureCheck)
    requires CertIdx(items, cur) && cur in consumed
    ensures var walk := WalkFrom(items, cur, consumed, signs);
            LinkedWalk(items, walk, consumed, signs) && Exhausted(items, walk, consumed + Elements(walk), signs)
    decreases CertIdxs(items) - consumed
  {
    var next := NextIssuer(items, CertOf(items, cur), consumed, signs, 0);
    if next == -1 {
      assert consumed + Elements([cur]) == consumed;
    } else {
      assert next in CertIdxs(items) - consumed;
      WalkIsLinked(items, next, consumed + {next}, signs);
      var rest := WalkFrom(items, next, consumed + {next}, signs);
      assert consumed + Elements([cur] + rest) == consumed + {next} + Elements(rest);
      Prepended(items, cur, rest, consumed, signs);
    }
  }

  lemma Prepended(items: seq<Item>, cur: int, rest: seq<int>, consumed: set<int>, signs: SignatureCheck)
    requires CertIdx(items, cur) && cur in consumed
    requires rest != [] && rest[0] !in consumed && LinkedWalk(items, rest, consumed + {rest[0]}, signs)
    requires rest[0] in rest && Issues(CertOf(items, rest[0]), CertOf(items, cur), signs)
    ensures LinkedWalk(items, [cur] + rest, consumed, signs)
  {}

  /** `walk` is the part of the walk from `leaf` that has been made, and `consumed` what it and earlier walks hold. */
  ghost predicate OnTheWay(items: seq<Item>, walk: seq<int>, leaf: int, taken: set<int>, consumed: set<int>,
                           signs: SignatureCheck)
    requires CertIdx(items, leaf)
  {
    && walk != [] && CertIdx(items, walk[|walk| - 1]) && consumed == taken + Elements(walk)
    && walk[..|walk| - 1] + WalkFrom(items, walk[|walk| - 1], consumed, signs)
       == WalkFrom(items, leaf, taken + {leaf}, signs)
  }

  lemma WalkGoesOn(items: seq<Item>, walk: seq<int>, leaf: int, taken: set<int>, consumed: set<int>, next: int,
                   signs: SignatureCheck)
    requires CertIdx(items, leaf) && OnTheWay(items, walk, leaf, taken, consumed, signs)
    requires next == NextIssuer(items, CertOf(items, walk[|walk| - 1]), consumed, signs, 0) && next != -1
    ensures OnTheWay(items, walk + [next], leaf, taken, consumed + {next}, signs)
  {
    var last := |walk| - 1;
    assert next in CertIdxs(items) - consumed;
    assert walk == walk[..last] + [walk[last]];
    assert (walk + [next])[..|walk|] == walk;
    assert Elements(walk + [next]) == Elements(walk) + {next};
    assert walk[..last] + ([walk[last]] + WalkFrom(items, next, consumed + {next}, signs))
        == walk + WalkFrom(items, next, consumed + {next}, signs);
  }

  lemma WalkEnds(items: seq<Item>, walk: seq<int>, leaf: int, taken: set<int>, consumed: set<int>,
                 signs: SignatureCheck)
    requires CertIdx(items, leaf) && OnTheWay(items, walk, leaf, taken, consumed, signs)
    requires NextIssuer(items, CertOf(items, walk[|walk| - 1]), consumed, signs, 0) == -1
    ensures walk == WalkFrom(items, leaf, taken + {leaf}, signs)
    ensures LinkedWalk(items, walk, taken, signs) && Exhausted(items, walk, consumed, signs)
  {
    assert walk == walk[..|walk| - 1] + [walk[|walk| - 1]];
    WalkIsLinked(items, leaf, taken + {leaf}, signs);
    assert taken + {leaf} + Elements(walk) == consumed;
    FewerTaken(items, walk, taken, leaf, signs);
  }

  lemma FewerTaken(items: seq<Item>, walk: seq<int>, taken: set<int>, leaf: int, signs: SignatureCheck)
    requires LinkedWalk(items, walk, taken + {leaf}, signs)
    ensures LinkedWalk(items, walk, taken, signs)
  {}

  method WalkIssuers(items: seq<Item>, leaf: int, consumed: set<int>, signs: SignatureCheck)
    returns (walk: seq<int>, consumed': set<int>)
    requires CertIdx(items, leaf)
    ensures walk == WalkFrom(items, leaf, consumed + {leaf}, signs)
    ensures walk != [] && walk[0] == leaf && LinkedWalk(items, walk, consumed, signs)
    ensures consumed' == consumed + Elements(walk)
    ensures Exhausted(items, walk, consumed', signs)
  {
    walk, consumed' := [leaf], consumed + {leaf};
    var next := FindIssuer(items, CertOf(items, leaf), consumed', signs);
    assert walk[..0] == [] && Elements(walk) == {leaf};
    while next != -1
      invariant OnTheWay(items, walk, leaf, consumed, consumed', signs)
      invariant next == NextIssuer(items, CertOf(items, walk[|walk| - 1]), consumed', signs, 0)
      decreases CertIdxs(items) - consumed', next != -1
    {
      assert next in CertIdxs(items) - consumed';
      WalkGoesOn(items, walk, leaf, consumed, consumed', next, signs);
      walk := walk + [next];
      consumed' := consumed' + {next};
      next := FindIssuer(items, CertOf(items, next), consumed', signs);
    }
    WalkEnds(items, walk, leaf, consumed, consumed', signs);
  }

  /** The carried certificates that are not in the chain yet, each once. */
  function NotIn(carried: seq<Bytes>, have: set<Bytes>): seq<Bytes> {
    if carried == [] then []
    else if carried[0] in have then NotIn(carried[1..], have)
    else [carried[0]] + NotIn(carried[1..], have + {carried[0]})
  }

  method AppendCarried(carried: seq<Bytes>, chain: seq<Bytes>) returns (extra: seq<Bytes>)
    ensures extra == NotIn(carried, Elements(chain))
  {
    var inChain := Elements(chain);
    extra := [];
    for k := 0 to |carried|
      invariant extra + NotIn(carried[k..], inChain) == NotIn(carried, Elements(chain))
    {
      assert carried[k..][1..] == carried[k + 1..];
      if carried[k] in inChain {
        continue;
      }
      assert extra + ([carried[k]] + NotIn(carried[k + 1..], inChain + {carried[k]}))
          == extra + [carried[k]] + NotIn(carried[k + 1..], inChain + {carried[k]});
      inChain := inChain + {carried[k]};
      extra := extra + [carried[k]];
    }
    assert carried[|carried|..] == [];
  }

  lemma {:induction false} NotInExact(carried: seq<Bytes>, have: set<Bytes>)
    ensures have + Elements(NotIn(carried, have)) == have + Elements(carried)
    ensures forall der <- NotIn(carried, have) :: der !in have
  {
    if carried != [] {
      assert carried == [carried[0]] + carried[1..];
      if carried[0] in have {
        NotInExact(carried[1..], have);
      } else {
        NotInExact(carried[1..], have + {carried[0]});
        assert Elements(NotIn(carried, have)) == {carried[0]} + Elements(NotIn(carried[1..], have + {carried[0]}));
      }
    }
  }

  /** `c` is a correct chain for key item `i`, given what earlier keys consumed. */
  predicate ChainFor(items: seq<Item>, i: nat, c: KeyChain, taken: set<int>, signs: SignatureCheck)
    requires KeyIdx(items, i)
  {
    && LinkedWalk(items, c.walk, taken, signs)
    && match items[i].key.value.publicKey
       case None => c == KeyChain([], [])
       case Some(pub) =>
         if forall j | 0 <= j < |items| :: !LeafOf(items, j, pub) then c == KeyChain([], [])
         else && c.walk != [] && LeafOf(items, c.walk[0], pub)
              && c.walk == WalkFrom(items, c.walk[0], taken + {c.walk[0]}, signs)
              && (forall j | 0 <= j < c.walk[0] :: !LeafOf(items, j, pub))
              && c.carried == NotIn(items[i].chain, Elements(Raws(items, c.walk)))
  }

  method ChainForKey(items: seq<Item>, i: int, consumed: set<int>, signs: SignatureCheck)
    returns (c: KeyChain, consumed': set<int>)
    requires KeyIdx(items, i)
    ensures ChainFor(items, i, c, consumed, signs)
    ensures consumed' == consumed + Elements(c.walk)
    ensures Exhausted(items, c.walk, consumed', signs)
  {
    c, consumed' := KeyChain([], []), consumed;
    var pub := items[i].key.value.publicKey;
    if pub.None? {
      return;
    }
    var leaf := FindLeaf(items, pub.value);
    if leaf == -1 {
      return;
    }
    var walk;
    walk, consumed' := WalkIssuers(items, leaf, consumed, signs);
    var extra := AppendCarried(items[i].chain, Raws(items, walk));
    c := KeyChain(walk, extra);
  }

  /** The writer's maps: chains by key item, all consumed certificate items, all leaves. */
  datatype Plan = Plan(chains: map<int, KeyChain>, consumed: set<int>, leaves: set<int>)

  /** What earlier keys had consumed when key `i` was reached. */
  function TakenBefore(chains: map<int, KeyChain>, n: nat): set<int> {
    if n == 0 then {}
    else TakenBefore(chains, n - 1) + if n - 1 in chains then Elements(chains[n - 1].walk) else {}
  }

  /** The leaves of the keys before item `n`. */
  function LeavesBefore(chains: map<int, KeyChain>, n: nat): set<int> {
    if n == 0 then {}
    else LeavesBefore(chains, n - 1) + if n - 1 in chains && chains[n - 1].walk != [] then {chains[n - 1].walk[0]}
        else {}
  }

  lemma {:induction false} LeavesExact(chains: map<int, KeyChain>, n: nat, j: int)
    ensures j in LeavesBefore(chains, n) <==>
        exists k :: 0 <= k < n && k in chains && chains[k].walk != [] && j == chains[k].walk[0]
  {
    if n > 0 {
      LeavesExact(chains, n - 1, j);
    }
  }

  lemma {:induction false} TakenExact(chains: map<int, KeyChain>, n: nat, j: int)
    ensures j in TakenBefore(chains, n) <==> exists k :: 0 <= k < n && k in chains && j in chains[k].walk
  {
    if n > 0 {
      TakenExact(chains, n - 1, j);
    }
  }

  lemma TakenBy(chains: map<int, KeyChain>, n: nat, j: int) returns (k: nat)
    requires j in TakenBefore(chains, n)
    ensures k < n && k in chains && j in chains[k].walk
  {
    TakenExact(chains, n, j);
    k :| 0 <= k < n && k in chains && j in chains[k].walk;
  }

  lemma {:induction false} TakenIgnoresLater(chains: map<int, KeyChain>, i: nat, c: KeyChain, n: nat)
    requires n <= i
    ensures TakenBefore(chains[i := c], n) == TakenBefore(chains, n)
    ensures LeavesBefore(chains[i := c], n) == LeavesBefore(chains, n)
  {
    if n > 0 {
      TakenIgnoresLater(chains, i, c, n - 1);
    }
  }

  ghost predicate PlanFor(items: seq<Item>, n: nat, plan: Plan, signs: SignatureCheck) {
    && (forall i :: i in plan.chains <==> KeyIdx(items, i) && i < n)
    && (forall i <- plan.chains :: ChainFor(items, i, plan.chains[i], TakenBefore(plan.chains, i), signs))
    && plan.consumed == TakenBefore(plan.chains, n)
    && plan.leaves == LeavesBefore(plan.chains, n)
    && (forall i <- plan.chains :: Exhausted(items, plan.chains[i].walk, TakenBefore(plan.chains, i + 1), signs))
  }

  lemma PlanSkips(items: seq<Item>, i: nat, plan: Plan, signs: SignatureCheck)
    requires i < |items| && !KeyIdx(items, i) && PlanFor(items, i, plan, signs)
    ensures PlanFor(items, i + 1, plan, signs)
  {
  }

  lemma PlanStep(items: seq<Item>, i: nat, plan: Plan, c: KeyChain, plan': Plan, signs: SignatureCheck)
    requires KeyIdx(items, i) && PlanFor(items, i, plan, signs)
    requires ChainFor(items, i, c, plan.consumed, signs)
    requires plan' == Plan(plan.chains[i := c], plan.consumed + Elements(c.walk),
                           if c.walk == [] then plan.leaves else plan.leaves + {c.walk[0]})
    requires Exhausted(items, c.walk, plan'.consumed, signs)
    ensures PlanFor(items, i + 1, plan', signs)
  {
    TakenIgnoresLater(plan.chains, i, c, i);
    forall k | k in plan'.chains
      ensures ChainFor(items, k, plan'.chains[k], TakenBefore(plan'.chains, k), signs)
      ensures Exhausted(items, plan'.chains[k].walk, TakenBefore(plan'.chains, k + 1), signs)
    {
      TakenIgnoresLater(plan.chains, i, c, k);
      if k != i {
        TakenIgnoresLater(plan.chains, i, c, k + 1);
      }
    }
  }

  method BuildChains(items: seq<Item>, signs: SignatureCheck) returns (plan: Plan)
    ensures PlanFor(items, |items|, plan, signs)
  {
    plan := Plan(map[], {}, {});
    assert TakenBefore(plan.chains, 0) == {};
    for i := 0 to |items|
      invariant PlanFor(items, i, plan, signs)
    {
      if items[i].kind != PrivateKey || items[i].key.None? {
        PlanSkips(items, i, plan, signs);
        continue;
      }
      var c, consumed := ChainForKey(items, i, plan.consumed, signs);
      var leaves := if c.walk == [] then plan.leaves else plan.leaves + {c.walk[0]};
      var plan' := Plan(plan.chains[i := c], consumed, leaves);
      PlanStep(items, i, plan, c, plan', signs);
      plan := plan';
    }
  }

  // ---------------------------------------------------------------------------------------------
  // WriteJKS: emitting the entries
  // ---------------------------------------------------------------------------------------------

  datatype Entry =
    | KeyEntry(alias: string, pkcs8: Bytes, chain: seq<Bytes>, password: Bytes)
    | TrustedEntry(alias: string, raw: Bytes)

  function CertsIn(e: Entry): set<Bytes> {
    match e
    case KeyEntry(_, _, chain, _) => Elements(chain)
    case TrustedEntry(_, raw) => {raw}
  }

  function Decimal(n: nat): string {
    if n < 10 then [('0' as int + n) as char] else Decimal(n / 10) + Decimal(n % 10)
  }

  type Aliases = map<int, string>

  /** The alias given for an item: the caller's, else the item's own, else none. */
  function GivenAlias(items: seq<Item>, aliases: Aliases, i: int): string
    requires 0 <= i < |items|
  {
    if i in aliases && aliases[i] != "" then aliases[i] else items[i].alias
  }

  /** How many of the first `n` items were numbered automatically. */
  function Numbered(items: seq<Item>, aliases: Aliases, n: nat): nat
    requires n <= |items|
  {
    if n == 0 then 0 else Numbered(items, aliases, n - 1) + if GivenAlias(items, aliases, n - 1) == "" then 1 else 0
  }

  function AliasOf(items: seq<Item>, aliases: Aliases, i: nat): string
    requires i < |items|
  {
    if GivenAlias(items, aliases, i) != "" then GivenAlias(items, aliases, i)
    else "entry-" + Decimal(Numbered(items, aliases, i) + 1)
  }

  /** A key entry takes the alias of its leaf certificate when that has one. */
  function KeyAlias(items: seq<Item>, aliases: Aliases, i: nat, c: KeyChain): string
    requires i < |items| && forall j <- c.walk :: CertIdx(items, j)
  {
    if c.walk != [] && CertIdx(items, c.walk[0]) && GivenAlias(items, aliases, c.walk[0]) != ""
        then GivenAlias(items, aliases, c.walk[0])
    else AliasOf(items, aliases, i)
  }

  /** A certificate item without an entry of its own: some key's chain holds it, and it is either
      that key's leaf or not self-issued. */
  predicate Skipped(items: seq<Item>, plan: Plan, i: int)
    requires CertIdx(items, i)
  {
    i in plan.consumed && (i in plan.leaves || CertOf(items, i).subject != CertOf(items, i).issuer)
  }

  datatype Emission = Nothing | Emit(entry: Entry) | Fails

  function EntryFor(items: seq<Item>, plan: Plan, aliases: Aliases, password: Bytes, i: nat): Emission
    requires i < |items|
    requires KeyIdx(items, i) ==> i in plan.chains && forall j <- plan.chains[i].walk :: CertIdx(items, j)
  {
    if KeyIdx(items, i) then
      match items[i].key.value.pkcs8
      case None => Fails
      case Some(pkcs8) =>
        var c := plan.chains[i];
        var pass := match items[i].entryPassword { case Some(p) => p case None => password };
        Emit(KeyEntry(KeyAlias(items, aliases, i, c), pkcs8, ChainOf(items, c), pass))
    else if CertIdx(items, i) && !Skipped(items, plan, i) then
      Emit(TrustedEntry(AliasOf(items, aliases, i), CertOf(items, i).raw))
    else Nothing
  }

  ghost predicate Covers(items: seq<Item>, plan: Plan) {
    forall i | 0 <= i < |items| && KeyIdx(items, i) :: i in plan.chains
        && forall j <- plan.chains[i].walk :: CertIdx(items, j)
  }

  ghost function Emitted(items: seq<Item>, plan: Plan, aliases: Aliases, password: Bytes, n: nat): seq<Entry>
    requires n <= |items| && Covers(items, plan)
  {
    if n == 0 then []
    else
      var before := Emitted(items, plan, aliases, password, n - 1);
      match EntryFor(items, plan, aliases, password, n - 1)
      case Emit(e) => before + [e]
      case _ => before
  }

  /** The keystore library refuses some entries; which ones is its business. */
  type Accepts = Entry -> bool

  predicate Writable(items: seq<Item>, plan: Plan, aliases: Aliases, password: Bytes, accepts: Accepts, i: nat)
    requires i < |items|
    requires KeyIdx(items, i) ==> i in plan.chains && forall j <- plan.chains[i].walk :: CertIdx(items, j)
  {
    match EntryFor(items, plan, aliases, password, i)
    case Fails => false
    case Emit(e) => accepts(e)
    case Nothing => true
  }

  /** One turn of the emitting loop; `auto` is the alias to use when none is given. */
  method EmitItem(items: seq<Item>, plan: Plan, aliases: Aliases, password: Bytes, i: nat, auto: string)
    returns (out: Emission)
    requires i < |items| && Covers(items, plan)
    requires auto == "entry-" + Decimal(Numbered(items, aliases, i) + 1)
    ensures out == EntryFor(items, plan, aliases, password, i)
  {
    var item := items[i];
    var given := GivenAlias(items, aliases, i);
    var alias := if given == "" then auto else given;
    if item.kind == PrivateKey && item.key.Some? {
      if item.key.value.pkcs8.None? {
        return Fails;
      }
      var c := plan.chains[i];
      if c.walk != [] {
        assert c.walk[0] in c.walk;
        var ofLeaf := GivenAlias(items, aliases, c.walk[0]);
        if ofLeaf != "" {
          alias := ofLeaf;
        }
      }
      var pass := if item.entryPassword.Some? then item.entryPassword.value else password;
      return Emit(KeyEntry(alias, item.key.value.pkcs8.value, ChainOf(items, c), pass));
    }
    if IsCert(item) {
      if i in plan.consumed && (i in plan.leaves || item.certificate.value.subject != item.certificate.value.issuer) {
        return Nothing;
      }
      return Emit(TrustedEntry(alias, item.certificate.value.raw));
    }
    return Nothing;
  }

  ghost predicate AllWritable(items: seq<Item>, plan: Plan, aliases: Aliases, password: Bytes, accepts: Accepts,
                              n: nat)
    requires n <= |items| && Covers(items, plan)
  {
    forall i: nat | i < n :: Writable(items, plan, aliases, password, accepts, i)
  }

  /** The first `n` items were all writable, and `entries` is what they emit. */
  ghost predicate EmittedSoFar(items: seq<Item>, plan: Plan, aliases: Aliases, password: Bytes, accepts: Accepts,
                               n: nat,
                               entries: seq<Entry>)
    requires n <= |items| && Covers(items, plan)
  {
    entries == Emitted(items, plan, aliases, password, n)
    && AllWritable(items, plan, aliases, password, accepts, n)
  }

  /** The item cannot be encoded, or the library refuses its entry. */
  predicate Refused(e: Emission, accepts: Accepts) {
    e.Fails? || (e.Emit? && !accepts(e.entry))
  }

  lemma RefusedIsNotWritable(items: seq<Item>, plan: Plan, aliases: Aliases, password: Bytes, accepts: Accepts, i: nat)
    requires i < |items| && Covers(items, plan)
    requires Refused(EntryFor(items, plan, aliases, password, i), accepts)
    ensures !AllWritable(items, plan, aliases, password, accepts, |items|)
  {
    assert !Writable(items, plan, aliases, password, accepts, i);
  }

  lemma EmitStep(items: seq<Item>, plan: Plan, aliases: Aliases, password: Bytes, accepts: Accepts, i: nat,
                 entries: seq<Entry>)
    requires i < |items| && Covers(items, plan) && EmittedSoFar(items, plan, aliases, password, accepts, i, entries)
    requires !Refused(EntryFor(items, plan, aliases, password, i), accepts)
    ensures var e := EntryFor(items, plan, aliases, password, i);
            EmittedSoFar(items, plan, aliases, password, accepts, i + 1, WithEmitted(entries, e))
  {
    assert Writable(items, plan, aliases, password, accepts, i);
  }

  function WithEmitted(entries: seq<Entry>, e: Emission): seq<Entry> {
    if e.Emit? then entries + [e.entry] else entries
  }

  method EmitEntries(items: seq<Item>, plan: Plan, aliases: Aliases, password: Bytes, accepts: Accepts)
    returns (out: Result<seq<Entry>>)
    requires Covers(items, plan)
    ensures out.Ok? <==> AllWritable(items, plan, aliases, password, accepts, |items|)
    ensures out.Ok? ==> out.value == Emitted(items, plan, aliases, password, |items|)
  {
    var entries: seq<Entry> := [];
    var numbered := 0;
    for i := 0 to |items|
      invariant numbered == Numbered(items, aliases, i)
      invariant EmittedSoFar(items, plan, aliases, password, accepts, i, entries)
    {
      var e := EmitItem(items, plan, aliases, password, i, "entry-" + Decimal(numbered + 1));
      if GivenAlias(items, aliases, i) == "" {
        numbered := numbered + 1;
      }
      if Refused(e, accepts) {
        RefusedIsNotWritable(items, plan, aliases, password, accepts, i);
        return Err("set JKS entry");
      }
      EmitStep(items, plan, aliases, password, accepts, i, entries);
      entries := WithEmitted(entries, e);
    }
    return Ok(entries);
  }

  /** The whole writer: it succeeds exactly when every item can be written, and then sets the entries in order. */
  method WriteJKS(items: seq<Item>, password: Bytes, aliases: Aliases, signs: SignatureCheck, accepts: Accepts)
    returns (out: Result<seq<Entry>>, plan: Plan)
    ensures PlanFor(items, |items|, plan, signs) && plan == PlanOf(items, signs)
    ensures out.Ok? <==> AllWritable(items, plan, aliases, password, accepts, |items|)
    ensures out.Ok? ==> out.value == Emitted(items, plan, aliases, password, |items|)
    ensures out.Ok? ==> forall i :: KeyIdx(items, i) ==> items[i].key.value.pkcs8.Some?
  {
    plan := BuildChains(items, signs);
    PlanIsDetermined(items, plan, signs);
    out := EmitEntries(items, plan, aliases, password, accepts);
    if out.Ok? {
      forall i | KeyIdx(items, i)
        ensures items[i].key.value.pkcs8.Some?
      {
        assert Writable(items, plan, aliases, password, accepts, i);
      }
    }
  }

  lemma {:induction false} EmittedHas(items: seq<Item>, plan: Plan, aliases: Aliases, password: Bytes, n: nat, e: Entry)
    requires n <= |items| && Covers(items, plan)
    ensures e in Emitted(items, plan, aliases, password, n) <==>
            exists i :: 0 <= i < n && EntryFor(items, plan, aliases, password, i) == Emit(e)
  {
    if n > 0 {
      EmittedHas(items, plan, aliases, password, n - 1, e);
    }
  }

  /** Nothing is lost: every certificate item is in a key entry's chain or has its own entry. */
  lemma EveryCertIsWritten(items: seq<Item>, plan: Plan, signs: SignatureCheck, aliases: Aliases, password: Bytes,
                           j: int)
    requires PlanFor(items, |items|, plan, signs) && Covers(items, plan)
    requires forall i :: KeyIdx(items, i) ==> items[i].key.value.pkcs8.Some?
    requires CertIdx(items, j)
    ensures exists e <- Emitted(items, plan, aliases, password, |items|) :: CertOf(items, j).raw in CertsIn(e)
  {
    if Skipped(items, plan, j) {
      var k := ConsumedByChain(items, plan, signs, j);
      var e := EntryFor(items, plan, aliases, password, k).entry;
      EmittedHas(items, plan, aliases, password, |items|, e);
    } else {
      var e := EntryFor(items, plan, aliases, password, j).entry;
      EmittedHas(items, plan, aliases, password, |items|, e);
    }
  }

  lemma ConsumedByChain(items: seq<Item>, plan: Plan, signs: SignatureCheck, j: int) returns (k: nat)
    requires PlanFor(items, |items|, plan, signs) && Covers(items, plan) && CertIdx(items, j) && j in plan.consumed
    ensures KeyIdx(items, k) && CertOf(items, j).raw in ChainOf(items, plan.chains[k])
  {
    TakenExact(plan.chains, |items|, j);
    k :| 0 <= k < |items| && k in plan.chains && j in plan.chains[k].walk;
    var c := plan.chains[k];
    var p :| 0 <= p < |c.walk| && c.walk[p] == j;
    assert ChainOf(items, c)[p] == CertOf(items, j).raw;
  }

  /** Nothing is invented: an entry holds only the items' certificates and the carried ones. */
  lemma NoCertIsInvented(items: seq<Item>, plan: Plan, signs: SignatureCheck, aliases: Aliases, password: Bytes,
                         e: Entry, raw: Bytes)
    requires PlanFor(items, |items|, plan, signs) && Covers(items, plan)
    requires e in Emitted(items, plan, aliases, password, |items|) && raw in CertsIn(e)
    ensures raw in CertRaws(items) || exists it <- items :: raw in CarriedBy(it)
  {
    EmittedHas(items, plan, aliases, password, |items|, e);
    var i: nat :| 0 <= i < |items| && EntryFor(items, plan, aliases, password, i) == Emit(e);
    EntryIsFromItems(items, plan, signs, aliases, password, i, e, raw);
  }

  lemma EntryIsFromItems(items: seq<Item>, plan: Plan, signs: SignatureCheck, aliases: Aliases, password: Bytes,
                         i: nat, e: Entry, raw: Bytes)
    requires i < |items| && PlanFor(items, |items|, plan, signs) && Covers(items, plan)
    requires EntryFor(items, plan, aliases, password, i) == Emit(e) && raw in CertsIn(e)
    ensures raw in CertRaws(items) || exists it <- items :: raw in CarriedBy(it)
  {
    assert items[i] in items;
    if KeyIdx(items, i) {
      assert raw in ChainOf(items, plan.chains[i]);
      ChainIsFromItems(items, i, plan.chains[i], TakenBefore(plan.chains, i), signs, raw);
    }
  }

  lemma ChainIsFromItems(items: seq<Item>, i: nat, c: KeyChain, taken: set<int>, signs: SignatureCheck, raw: Bytes)
    requires KeyIdx(items, i) && ChainFor(items, i, c, taken, signs) && raw in ChainOf(items, c)
    ensures raw in CertRaws(items) || raw in CarriedBy(items[i])
  {
    if raw in Raws(items, c.walk) {
      var p :| 0 <= p < |c.walk| && Raws(items, c.walk)[p] == raw;
      assert c.walk[p] in c.walk;
      assert items[c.walk[p]] in items;
    } else {
      assert raw in Elements(c.carried);
      NotInExact(items[i].chain, Elements(Raws(items, c.walk)));
    }
  }

  /** A carried issuer survives exactly when the key it is carried on has its leaf among the items. */
  lemma CarriedChainSurvives(items: seq<Item>, plan: Plan, signs: SignatureCheck, i: int)
    requires PlanFor(items, |items|, plan, signs) && KeyIdx(items, i)
    ensures plan.chains[i].walk != [] ==> Elements(items[i].chain) <= Elements(ChainOf(items, plan.chains[i]))
    ensures plan.chains[i].walk == [] ==> ChainOf(items, plan.chains[i]) == []
    ensures plan.chains[i].walk != [] <==>
            items[i].key.value.publicKey.Some? && exists j :: LeafOf(items, j, items[i].key.value.publicKey.value)
  {
    var c := plan.chains[i];
    if c.walk != [] {
      NotInExact(items[i].chain, Elements(Raws(items, c.walk)));
      assert Elements(ChainOf(items, c)) == Elements(Raws(items, c.walk)) + Elements(c.carried);
    }
  }

  // ---------------------------------------------------------------------------------------------
  // The order of a written chain
  // ---------------------------------------------------------------------------------------------

  /** The `p`-th carried certificate is not in the chain yet and does not occur before. */
  predicate IsNew(carried: seq<Bytes>, have: set<Bytes>, p: nat) {
    p < |carried| && carried[p] !in have && forall q: nat | q < p :: carried[q] != carried[p]
  }

  /** `rest` is the carried certificates at the positions `at`, in their old order: exactly the new ones. */
  ghost predicate PicksNew(carried: seq<Bytes>, have: set<Bytes>, rest: seq<Bytes>, at: seq<nat>) {
    && |at| == |rest| && (forall i, j :: 0 <= i < j < |at| ==> at[i] < at[j])
    && (forall i :: 0 <= i < |at| ==> IsNew(carried, have, at[i]) && rest[i] == carried[at[i]])
    && (forall p: nat :: IsNew(carried, have, p) ==> p in at)
  }

  function Shifted(at: seq<nat>): seq<nat> {
    seq(|at|, i requires 0 <= i < |at| => at[i] + 1)
  }

  lemma {:induction false} NotInPicks(carried: seq<Bytes>, have: set<Bytes>) returns (at: seq<nat>)
    ensures PicksNew(carried, have, NotIn(carried, have), at)
  {
    if carried == [] {
      at := [];
    } else if carried[0] in have {
      var later := NotInPicks(carried[1..], have);
      at := Shifted(later);
      ShiftedArePicked(carried, have, NotIn(carried[1..], have), later, at);
      FirstIsSkipped(carried, have, NotIn(carried[1..], have), at);
    } else {
      var later := NotInPicks(carried[1..], have + {carried[0]});
      at := [0] + Shifted(later);
      ShiftedArePicked(carried, have, NotIn(carried[1..], have + {carried[0]}), later, Shifted(later));
      PickedInFront(carried, have, NotIn(carried[1..], have + {carried[0]}), Shifted(later));
    }
  }

  lemma FirstIsSkipped(carried: seq<Bytes>, have: set<Bytes>, rest: seq<Bytes>, at: seq<nat>)
    requires carried != [] && carried[0] in have && PicksLater(carried, have, rest, at)
    ensures PicksNew(carried, have, rest, at)
  {}

  /** The positions in `rest` count from the front of `carried`; position 0 is not among them. */
  ghost predicate PicksLater(carried: seq<Bytes>, have: set<Bytes>, rest: seq<Bytes>, at: seq<nat>) {
    && |at| == |rest| && (forall i, j :: 0 <= i < j < |at| ==> at[i] < at[j])
    && (forall i :: 0 <= i < |at| ==> 0 < at[i] && IsNew(carried, have, at[i]) && rest[i] == carried[at[i]])
    && (forall p: nat :: 0 < p && IsNew(carried, have, p) ==> p in at)
  }

  lemma ShiftedArePicked(carried: seq<Bytes>, have: set<Bytes>, rest: seq<Bytes>, later: seq<nat>, shifted: seq<nat>)
    requires carried != [] && |shifted| == |later| && forall i :: 0 <= i < |later| ==> shifted[i] == later[i] + 1
    requires PicksNew(carried[1..], if carried[0] !in have then have + {carried[0]} else have, rest, later)
    ensures PicksLater(carried, have, rest, shifted)
  {
    forall i | 0 <= i < |shifted|
      ensures IsNew(carried, have, shifted[i]) && rest[i] == carried[shifted[i]]
    {
      NewLater(carried, have, later[i]);
    }
    forall p: nat | 0 < p && IsNew(carried, have, p) ensures p in shifted {
      NewLater(carried, have, p - 1);
      assert p - 1 in later;
      var i :| 0 <= i < |later| && later[i] == p - 1;
      assert shifted[i] == p;
    }
  }

  lemma PickedInFront(carried: seq<Bytes>, have: set<Bytes>, rest: seq<Bytes>, at: seq<nat>)
    requires carried != [] && carried[0] !in have && PicksLater(carried, have, rest, at)
    ensures PicksNew(carried, have, [carried[0]] + rest, [0] + at)
  {
    var all := [0] + at;
    assert IsNew(carried, have, 0);
    forall p: nat | IsNew(carried, have, p) ensures p in all {
      assert p > 0 ==> p in at;
    }
  }

  lemma NewLater(carried: seq<Bytes>, have: set<Bytes>, p: nat)
    requires carried != []
    ensures var have' := if carried[0] !in have then have + {carried[0]} else have;
            IsNew(carried, have, p + 1) <==> IsNew(carried[1..], have', p)
  {
    var rest := carried[1..];
    if p < |rest| {
      assert rest[p] == carried[p + 1];
      assert forall q: nat | q < p :: rest[q] == carried[q + 1];
      if IsNew(carried, have, p + 1) {
        assert carried[0] != carried[p + 1];
        forall q: nat | q < p ensures rest[q] != rest[p] {
          assert carried[q + 1] != carried[p + 1];
        }
      }
    }
  }

  /** A certificate item has the public half of key `k`. */
  predicate HasLeaf(items: seq<Item>, k: int)
    requires KeyIdx(items, k)
  {
    items[k].key.value.publicKey.Some? && exists j | 0 <= j < |items| :: IsLeafOf(items, k, j)
  }

  predicate IsLeafOf(items: seq<Item>, k: int, j: int)
    requires KeyIdx(items, k)
  {
    && 0 <= j < |items| && items[j].kind == Certificate && items[j].certificate.Some?
    && items[j].certificate.value.publicKey == items[k].key.value.publicKey
  }

  lemma HasLeafExactly(items: seq<Item>, k: int)
    requires KeyIdx(items, k)
    ensures HasLeaf(items, k) <==> LeafFor(items, k) != -1
    ensures HasLeaf(items, k) ==>
              IsLeafOf(items, k, LeafFor(items, k)) && forall j | 0 <= j < LeafFor(items, k) :: !IsLeafOf(items, k, j)
  {
    if items[k].key.value.publicKey.Some? {
      var pub := items[k].key.value.publicKey.value;
      forall j ensures LeafOf(items, j, pub) <==> IsLeafOf(items, k, j) {}
    }
  }

  predicate NamesAndSigns(child: Cert, parent: Cert, signs: SignatureCheck) {
    child.issuer == parent.subject && signs(child, parent)
  }

  /** Certificate item `p` is in the chain of key `k` or of an earlier one. */
  predicate WalkedBy(plan: Plan, k: int, p: int) {
    exists i <- plan.chains :: i <= k && p in plan.chains[i].walk
  }

  /** A chain as it must be written for key `k`: its leaf, the first certificate with its public half; then each
      certificate's issuer among the items, up to one whose every issuer is in this or an earlier key's chain; then
      the carried certificates that are not there yet, in their old order. */
  ghost predicate WrittenChain(items: seq<Item>, plan: Plan, k: int, signs: SignatureCheck, chain: seq<Bytes>)
    requires KeyIdx(items, k) && k in plan.chains
  {
    var walk := plan.chains[k].walk;
    && (forall j <- walk :: CertIdx(items, j)) && walk != [] && |walk| <= |chain|
    && IsLeafOf(items, k, walk[0]) && (forall j | 0 <= j < walk[0] :: !IsLeafOf(items, k, j))
    && (forall i :: 0 <= i < |walk| ==> chain[i] == CertOf(items, walk[i]).raw)
    && (forall i :: 0 < i < |walk| ==> NamesAndSigns(CertOf(items, walk[i - 1]), CertOf(items, walk[i]), signs))
    && (forall p | 0 <= p < |items| && CertIdx(items, p) ::
          NamesAndSigns(CertOf(items, walk[|walk| - 1]), CertOf(items, p), signs) ==> WalkedBy(plan, k, p))
    && exists at :: PicksNew(items[k].chain, Elements(chain[..|walk|]), chain[|walk|..], at)
  }

  /** The walk ends where every issuer is in this or an earlier key's chain. */
  lemma WalkGoesAllTheWay(items: seq<Item>, plan: Plan, signs: SignatureCheck, k: nat, p: int)
    requires PlanFor(items, |items|, plan, signs) && k in plan.chains && plan.chains[k].walk != [] && CertIdx(items, p)
    requires var walk := plan.chains[k].walk;
             CertIdx(items, walk[|walk| - 1])
             && NamesAndSigns(CertOf(items, walk[|walk| - 1]), CertOf(items, p), signs)
    ensures WalkedBy(plan, k, p)
  {
    var walk := plan.chains[k].walk;
    assert Exhausted(items, walk, TakenBefore(plan.chains, k + 1), signs);
    assert !FreeIssuer(items, CertOf(items, walk[|walk| - 1]), TakenBefore(plan.chains, k + 1), signs, p);
    var i := TakenBy(plan.chains, k + 1, p);
  }

  /** Every key item with a leaf is written with such a chain, the leaf first; without a leaf with none. */
  lemma ChainIsInOrder(items: seq<Item>, plan: Plan, signs: SignatureCheck, aliases: Aliases, password: Bytes, k: nat)
    requires PlanFor(items, |items|, plan, signs) && Covers(items, plan)
    requires KeyIdx(items, k) && items[k].key.value.pkcs8.Some?
    ensures var e := EntryFor(items, plan, aliases, password, k);
            && e.Emit? && e.entry.KeyEntry?
            && if HasLeaf(items, k) then WrittenChain(items, plan, k, signs, e.entry.chain) else e.entry.chain == []
  {
    WalkStartsAtLeaf(items, plan, signs, k);
    HasLeafExactly(items, k);
    if plan.chains[k].walk != [] {
      WalkedAndCarried(items, plan, signs, k);
    }
  }

  lemma WalkedAndCarried(items: seq<Item>, plan: Plan, signs: SignatureCheck, k: nat)
    requires PlanFor(items, |items|, plan, signs) && Covers(items, plan)
    requires KeyIdx(items, k) && plan.chains[k].walk != []
    ensures WrittenChain(items, plan, k, signs, ChainOf(items, plan.chains[k]))
  {
    var c := plan.chains[k];
    WalkStartsAtLeaf(items, plan, signs, k);
    HasLeafExactly(items, k);
    assert ChainFor(items, k, c, TakenBefore(plan.chains, k), signs);
    var at := NotInPicks(items[k].chain, Elements(Raws(items, c.walk)));
    var chain := ChainOf(items, c);
    assert chain[..|c.walk|] == Raws(items, c.walk) && chain[|c.walk|..] == c.carried;
    assert c.walk[|c.walk| - 1] in c.walk;
    forall p | 0 <= p < |items| && CertIdx(items, p)
      ensures NamesAndSigns(CertOf(items, c.walk[|c.walk| - 1]), CertOf(items, p), signs) ==> WalkedBy(plan, k, p)
    {
      if NamesAndSigns(CertOf(items, c.walk[|c.walk| - 1]), CertOf(items, p), signs) {
        WalkGoesAllTheWay(items, plan, signs, k, p);
      }
    }
  }

  /** Certificate item `j` is in some key's chain. */
  predicate InSomeChain(plan: Plan, j: int) {
    exists k <- plan.chains :: j in plan.chains[k].walk
  }

  predicate StartsSomeChain(plan: Plan, j: int) {
    exists k <- plan.chains :: plan.chains[k].walk != [] && plan.chains[k].walk[0] == j
  }

  /** A certificate item has an entry of its own, under its alias, unless it is in a key's chain: there the leaf has
      none, nor has an issuer that another name issued; a root keeps its own. */
  lemma OwnEntryExactly(items: seq<Item>, plan: Plan, signs: SignatureCheck, aliases: Aliases, password: Bytes, j: nat)
    requires PlanFor(items, |items|, plan, signs) && Covers(items, plan) && CertIdx(items, j)
    ensures EntryFor(items, plan, aliases, password, j)
         == if InSomeChain(plan, j) && (StartsSomeChain(plan, j) || CertOf(items, j).subject != CertOf(items, j).issuer)
            then Nothing
            else Emit(TrustedEntry(AliasOf(items, aliases, j), CertOf(items, j).raw))
  {
    TakenExact(plan.chains, |items|, j);
    LeavesExact(plan.chains, |items|, j);
  }

  lemma {:induction false} DecimalsDiffer(m: nat, n: nat)
    ensures Decimal(m) == Decimal(n) ==> m == n
  {
    if Decimal(m) == Decimal(n) {
      if m < 10 {
        DecimalLength(n);
      } else if n < 10 {
        DecimalLength(m);
      } else {
        var dm, dn := Decimal(m), Decimal(n);
        assert dm[..|dm| - 1] == Decimal(m / 10) && dn[..|dn| - 1] == Decimal(n / 10);
        assert dm[|dm| - 1] == Decimal(m % 10)[0] && dn[|dn| - 1] == Decimal(n % 10)[0];
        DecimalsDiffer(m / 10, n / 10);
      }
    }
  }

  lemma DecimalLength(n: nat)
    ensures |Decimal(n)| >= 1 && (n >= 10 ==> |Decimal(n)| >= 2)
  {}

  lemma {:induction false} NumberedGrows(items: seq<Item>, aliases: Aliases, i: nat, j: nat)
    requires i < j <= |items| && GivenAlias(items, aliases, i) == ""
    ensures Numbered(items, aliases, i) < Numbered(items, aliases, j)
  {
    if i < j - 1 {
      NumberedGrows(items, aliases, i, j - 1);
    }
  }

  /** Items without an alias get different ones. */
  lemma NumbersDiffer(items: seq<Item>, aliases: Aliases, i: nat, j: nat)
    requires i < j < |items| && GivenAlias(items, aliases, i) == "" == GivenAlias(items, aliases, j)
    ensures AliasOf(items, aliases, i) != AliasOf(items, aliases, j)
  {
    var m, n := Numbered(items, aliases, i) + 1, Numbered(items, aliases, j) + 1;
    NumberedGrows(items, aliases, i, j);
    DecimalsDiffer(m, n);
    assert ("entry-" + Decimal(m))[6..] == Decimal(m) && ("entry-" + Decimal(n))[6..] == Decimal(n);
  }

  /** No certificate item but the leaf itself issued it. */
  predicate IssuersElsewhere(items: seq<Item>, leaf: int, signs: SignatureCheck)
    requires CertIdx(items, leaf)
  {
    forall p | 0 <= p < |items| && p != leaf && CertIdx(items, p) ::
      !Issues(CertOf(items, p), CertOf(items, leaf), signs)
  }

  /** `at` lists the numbers below `n`, each once, in order. */
  ghost predicate CountsUp(at: seq<nat>, n: nat) {
    && (forall i, j :: 0 <= i < j < |at| ==> at[i] < at[j])
    && (forall i :: 0 <= i < |at| ==> at[i] < n) && forall q: nat | q < n :: q in at
  }

  lemma AllNewArePicked(carried: seq<Bytes>, have: set<Bytes>, rest: seq<Bytes>, at: seq<nat>)
    requires PicksNew(carried, have, rest, at)
    requires forall p: nat | p < |carried| :: IsNew(carried, have, p)
    ensures rest == carried
  {
    forall p: nat | p < |carried| ensures p in at {
      assert IsNew(carried, have, p);
    }
    forall i | 0 <= i < |at| ensures at[i] < |carried| {
      assert IsNew(carried, have, at[i]);
    }
    assert CountsUp(at, |carried|);
    AllPositions(at, |carried|);
  }

  lemma AllPositions(at: seq<nat>, n: nat)
    requires CountsUp(at, n)
    ensures |at| == n && forall p :: 0 <= p < |at| ==> at[p] == p
  {
    forall p | 0 <= p < |at| ensures at[p] == p {
      AtIsIdentity(at, n, p);
    }
    if |at| > 0 {
      assert at[|at| - 1] == |at| - 1;
    }
    LengthIsMissing(at);
  }

  lemma LengthIsMissing(at: seq<nat>)
    requires forall p :: 0 <= p < |at| ==> at[p] == p
    ensures |at| !in at
  {}

  lemma {:induction false} AtIsIdentity(at: seq<nat>, n: nat, p: nat)
    requires p < |at| && CountsUp(at, n)
    ensures at[p] == p
  {
    if p > 0 {
      AtIsIdentity(at, n, p - 1);
    }
    if at[p] > p {
      assert p in at;
      var i :| 0 <= i < |at| && at[i] == p;
      if i < p {
        AtIsIdentity(at, n, i);
      }
    }
  }

  /** An entry as it was read, whose issuers are only carried, is written with the chain it had. */
  lemma ReadChainIsKept(items: seq<Item>, plan: Plan, signs: SignatureCheck, aliases: Aliases, password: Bytes, k: nat)
    requires PlanFor(items, |items|, plan, signs) && Covers(items, plan)
    requires KeyIdx(items, k) && items[k].key.value.pkcs8.Some? && LeafFor(items, k) != -1
    requires IssuersElsewhere(items, LeafFor(items, k), signs)
    requires forall p, q :: 0 <= p < q < |items[k].chain| ==> items[k].chain[p] != items[k].chain[q]
    requires CertOf(items, LeafFor(items, k)).raw !in items[k].chain
    ensures EntryFor(items, plan, aliases, password, k).entry.chain
         == [CertOf(items, LeafFor(items, k)).raw] + items[k].chain
  {
    var leaf := LeafFor(items, k);
    HasLeafExactly(items, k);
    ChainIsInOrder(items, plan, signs, aliases, password, k);
    WalkStartsAtLeaf(items, plan, signs, k);
    assert ChainFor(items, k, plan.chains[k], TakenBefore(plan.chains, k), signs);
    var chain := EntryFor(items, plan, aliases, password, k).entry.chain;
    assert NextIssuer(items, CertOf(items, leaf), TakenBefore(plan.chains, k) + {leaf}, signs, 0) == -1;
    assert plan.chains[k].walk == [leaf];
    assert chain[..1] == [chain[0]];
    var at :| PicksNew(items[k].chain, Elements(chain[..1]), chain[1..], at);
    AllNewArePicked(items[k].chain, Elements(chain[..1]), chain[1..], at);
    assert chain == chain[..1] + chain[1..];
  }

  /** Past its own leaf, a certificate item is walked by at most one key's chain. */
  lemma IssuersAreClaimedOnce(items: seq<Item>, plan: Plan, signs: SignatureCheck, i: int, k: int, a: nat, b: nat)
    requires PlanFor(items, |items|, plan, signs)
    requires i in plan.chains && k in plan.chains && i < k
    requires a < |plan.chains[i].walk| && 0 < b < |plan.chains[k].walk|
    ensures plan.chains[i].walk[a] != plan.chains[k].walk[b]
  {
    TakenExact(plan.chains, k, plan.chains[i].walk[a]);
  }

  /** The chain a key would get if it were the only one. */
  function Solo(items: seq<Item>, leaf: int, signs: SignatureCheck): seq<int>
    requires CertIdx(items, leaf)
  {
    WalkFrom(items, leaf, {leaf}, signs)
  }

  /** Whether the issuers a walk passes through are free of `taken` decides whether `taken` changes it. */
  lemma {:induction false} WalkUnchangedExactly(items: seq<Item>, cur: int, consumed: set<int>, taken: set<int>,
                                                signs: SignatureCheck)
    requires CertIdx(items, cur)
    ensures WalkFrom(items, cur, consumed + taken, signs) == WalkFrom(items, cur, consumed, signs) <==>
              Elements(WalkFrom(items, cur, consumed, signs)[1..]) !! taken
    decreases CertIdxs(items) - consumed
  {
    var child := CertOf(items, cur);
    var next := NextIssuer(items, child, consumed, signs, 0);
    var other := NextIssuer(items, child, consumed + taken, signs, 0);
    assert other != -1 ==> FreeIssuer(items, child, consumed, signs, other);
    if next != -1 {
      assert next in CertIdxs(items) - consumed;
      var rest := WalkFrom(items, next, consumed + {next}, signs);
      assert WalkFrom(items, cur, consumed, signs)[1..] == rest;
      assert rest == [next] + rest[1..];
      if next in taken {
        assert next in Elements(rest);
        WalkDiffers(items, cur, consumed, taken, signs);
      } else {
        assert FreeIssuer(items, child, consumed + taken, signs, next);
        assert other == next;
        WalkUnchangedExactly(items, next, consumed + {next}, taken, signs);
        assert consumed + {next} + taken == consumed + taken + {next};
        SameTail(cur, WalkFrom(items, next, consumed + taken + {next}, signs), rest);
        assert Elements(rest) == {next} + Elements(rest[1..]);
      }
    }
  }

  lemma SameTail(cur: int, a: seq<int>, b: seq<int>)
    ensures [cur] + a == [cur] + b <==> a == b
  {
    assert ([cur] + a)[1..] == a && ([cur] + b)[1..] == b;
  }

  lemma WalkDiffers(items: seq<Item>, cur: int, consumed: set<int>, taken: set<int>, signs: SignatureCheck)
    requires CertIdx(items, cur)
    requires var next := NextIssuer(items, CertOf(items, cur), consumed, signs, 0); next != -1 && next in taken
    ensures WalkFrom(items, cur, consumed + taken, signs) != WalkFrom(items, cur, consumed, signs)
  {
    var next := NextIssuer(items, CertOf(items, cur), consumed, signs, 0);
    var other := NextIssuer(items, CertOf(items, cur), consumed + taken, signs, 0);
    assert next in CertIdxs(items) - consumed;
    assert WalkFrom(items, cur, consumed, signs)[1] == next;
    if other == -1 {
      assert |WalkFrom(items, cur, consumed + taken, signs)| == 1;
    } else {
      assert other in CertIdxs(items) - (consumed + taken);
      assert WalkFrom(items, cur, consumed + taken, signs)[1] == other;
    }
  }

  /** A key's chain climbs as far as the items allow exactly when no issuer on that way was walked for an earlier
      key. */
  lemma ChainIsSoloExactly(items: seq<Item>, plan: Plan, signs: SignatureCheck, k: nat)
    requires PlanFor(items, |items|, plan, signs) && k in plan.chains && plan.chains[k].walk != []
    ensures CertIdx(items, plan.chains[k].walk[0])
    ensures var walk := plan.chains[k].walk;
            var solo := Solo(items, walk[0], signs);
            walk == solo <==> Elements(solo[1..]) !! TakenBefore(plan.chains, k)
  {
    var walk, taken := plan.chains[k].walk, TakenBefore(plan.chains, k);
    assert ChainFor(items, k, plan.chains[k], taken, signs);
    assert walk[0] in walk;
    assert taken + {walk[0]} == {walk[0]} + taken;
    WalkUnchangedExactly(items, walk[0], {walk[0]}, taken, signs);
  }

  /** The first certificate with the key's public half, -1 when there is none. */
  function LeafFrom(items: seq<Item>, pub: Bytes, from: nat): (leaf: int)
    requires from <= |items|
    ensures leaf == -1 ==> forall j | from <= j < |items| :: !LeafOf(items, j, pub)
    ensures leaf != -1 ==> from <= leaf && LeafOf(items, leaf, pub)
    ensures leaf != -1 ==> forall j | from <= j < leaf :: !LeafOf(items, j, pub)
    decreases |items| - from
  {
    if from == |items| then -1 else if LeafOf(items, from, pub) then from else LeafFrom(items, pub, from + 1)
  }

  function LeafFor(items: seq<Item>, i: int): (leaf: int)
    requires KeyIdx(items, i)
    ensures leaf != -1 ==> CertIdx(items, leaf)
  {
    match items[i].key.value.publicKey
    case None => -1
    case Some(pub) => LeafFrom(items, pub, 0)
  }

  /** The chain of certificate items key `i` would get if it were the only key; empty without a leaf. */
  function SoloOf(items: seq<Item>, i: int, signs: SignatureCheck): seq<int>
    requires KeyIdx(items, i)
  {
    if LeafFor(items, i) == -1 then [] else Solo(items, LeafFor(items, i), signs)
  }

  /** Key `k`'s chain, taken alone, has no issuer that key `i`'s chain holds. */
  ghost predicate Unshared(items: seq<Item>, i: int, k: int, signs: SignatureCheck)
    requires KeyIdx(items, i) && KeyIdx(items, k)
  {
    SoloOf(items, k, signs) != [] ==> Elements(SoloOf(items, k, signs)[1..]) !! Elements(SoloOf(items, i, signs))
  }

  lemma WalkStartsAtLeaf(items: seq<Item>, plan: Plan, signs: SignatureCheck, k: nat)
    requires PlanFor(items, |items|, plan, signs) && k in plan.chains
    ensures KeyIdx(items, k)
    ensures plan.chains[k].walk == [] <==> LeafFor(items, k) == -1
    ensures plan.chains[k].walk != [] ==> plan.chains[k].walk[0] == LeafFor(items, k)
  {
    assert ChainFor(items, k, plan.chains[k], TakenBefore(plan.chains, k), signs);
  }

  ghost predicate AllSolo(items: seq<Item>, plan: Plan, signs: SignatureCheck, n: nat) {
    forall k | 0 <= k < n && KeyIdx(items, k) :: k in plan.chains && plan.chains[k].walk == SoloOf(items, k, signs)
  }

  ghost predicate AllUnshared(items: seq<Item>, signs: SignatureCheck, n: nat) {
    forall i, k | 0 <= i < k < n && KeyIdx(items, i) && KeyIdx(items, k) :: Unshared(items, i, k, signs)
  }

  lemma Common<T>(a: set<T>, b: set<T>) returns (x: T)
    requires !(a !! b)
    ensures x in a && x in b
  {
    x :| x in a && x in b;
  }

  lemma TakenAreSolo(items: seq<Item>, plan: Plan, signs: SignatureCheck, k: nat, past: set<int>)
    requires PlanFor(items, |items|, plan, signs) && k in plan.chains && AllSolo(items, plan, signs, k)
    ensures past !! TakenBefore(plan.chains, k) <==>
              forall i | 0 <= i < k && KeyIdx(items, i) :: past !! Elements(SoloOf(items, i, signs))
  {
    if past !! TakenBefore(plan.chains, k) {
      forall i, x | 0 <= i < k && KeyIdx(items, i) && x in SoloOf(items, i, signs) ensures x !in past {
        TakenExact(plan.chains, k, x);
      }
    } else {
      var x := Common(past, TakenBefore(plan.chains, k));
      var i := TakenBy(plan.chains, k, x);
      assert x in Elements(SoloOf(items, i, signs));
    }
  }

  lemma NextIsSolo(items: seq<Item>, plan: Plan, signs: SignatureCheck, k: nat)
    requires PlanFor(items, |items|, plan, signs) && k in plan.chains && AllSolo(items, plan, signs, k)
    ensures KeyIdx(items, k)
    ensures plan.chains[k].walk == SoloOf(items, k, signs) <==> UnsharedBefore(items, signs, k)
  {
    WalkStartsAtLeaf(items, plan, signs, k);
    if plan.chains[k].walk != [] {
      ChainIsSoloExactly(items, plan, signs, k);
      TakenAreSolo(items, plan, signs, k, Elements(SoloOf(items, k, signs)[1..]));
    }
  }

  /** Every key's chain climbs as far as the items allow exactly when no chain, taken alone, needs an issuer that
      an earlier key's chain, taken alone, holds: a condition on the items only. */
  lemma {:induction false} AllChainsAreSoloExactly(items: seq<Item>, plan: Plan, signs: SignatureCheck, n: nat)
    requires PlanFor(items, |items|, plan, signs) && n <= |items|
    ensures AllSolo(items, plan, signs, n) <==> AllUnshared(items, signs, n)
  {
    if n > 0 {
      var k := n - 1;
      AllChainsAreSoloExactly(items, plan, signs, k);
      UnsharedStep(items, signs, k);
      SoloStep(items, plan, signs, k);
      if KeyIdx(items, k) && AllSolo(items, plan, signs, k) {
        NextIsSolo(items, plan, signs, k);
      }
    }
  }

  ghost predicate UnsharedBefore(items: seq<Item>, signs: SignatureCheck, k: int)
    requires KeyIdx(items, k)
  {
    forall i | 0 <= i < k && KeyIdx(items, i) :: Unshared(items, i, k, signs)
  }

  lemma UnsharedStep(items: seq<Item>, signs: SignatureCheck, k: nat)
    ensures AllUnshared(items, signs, k + 1) <==>
              AllUnshared(items, signs, k) && (KeyIdx(items, k) ==> UnsharedBefore(items, signs, k))
  {}

  lemma SoloStep(items: seq<Item>, plan: Plan, signs: SignatureCheck, k: nat)
    ensures AllSolo(items, plan, signs, k + 1) <==>
              AllSolo(items, plan, signs, k)
              && (KeyIdx(items, k) ==> k in plan.chains && plan.chains[k].walk == SoloOf(items, k, signs))
  {}

  // ---------------------------------------------------------------------------------------------
  // The plan is determined by the items
  // ---------------------------------------------------------------------------------------------

  /** The chain of key `k` when `taken` is consumed already. */
  function ChainPast(items: seq<Item>, k: int, taken: set<int>, signs: SignatureCheck): (c: KeyChain)
    requires KeyIdx(items, k)
    ensures forall j <- c.walk :: CertIdx(items, j)
  {
    var leaf := LeafFor(items, k);
    if leaf == -1 then KeyChain([], [])
    else
      var walk := WalkFrom(items, leaf, taken + {leaf}, signs);
      KeyChain(walk, NotIn(items[k].chain, Elements(Raws(items, walk))))
  }

  /** What the keys among the first `n` items consume. */
  function Claimed(items: seq<Item>, n: nat, signs: SignatureCheck): set<int>
    requires n <= |items|
  {
    if n == 0 then {}
    else
      var before := Claimed(items, n - 1, signs);
      if KeyIdx(items, n - 1) then before + Elements(ChainPast(items, n - 1, before, signs).walk) else before
  }

  function PlanOf(items: seq<Item>, signs: SignatureCheck): (plan: Plan)
    ensures Covers(items, plan)
  {
    Plan(map k: nat | k < |items| && KeyIdx(items, k) :: ChainPast(items, k, Claimed(items, k, signs), signs),
         Claimed(items, |items|, signs),
         set k | 0 <= k < |items| && KeyIdx(items, k) && LeafFor(items, k) != -1 :: LeafFor(items, k))
  }

  lemma ChainIsDetermined(items: seq<Item>, k: nat, c: KeyChain, taken: set<int>, signs: SignatureCheck)
    requires KeyIdx(items, k) && ChainFor(items, k, c, taken, signs)
    ensures c == ChainPast(items, k, taken, signs)
  {}

  lemma PlannedChain(items: seq<Item>, plan: Plan, signs: SignatureCheck, k: nat)
    requires PlanFor(items, |items|, plan, signs) && k < |items|
    ensures k in plan.chains <==> KeyIdx(items, k)
    ensures KeyIdx(items, k) ==> plan.chains[k] == ChainPast(items, k, TakenBefore(plan.chains, k), signs)
  {
    if KeyIdx(items, k) {
      ChainIsDetermined(items, k, plan.chains[k], TakenBefore(plan.chains, k), signs);
    }
  }

  lemma {:induction false} TakenIsClaimed(items: seq<Item>, plan: Plan, signs: SignatureCheck, n: nat)
    requires PlanFor(items, |items|, plan, signs) && n <= |items|
    ensures TakenBefore(plan.chains, n) == Claimed(items, n, signs)
  {
    if n > 0 {
      TakenIsClaimed(items, plan, signs, n - 1);
      PlannedChain(items, plan, signs, n - 1);
      OneMoreTaken(items, plan.chains, signs, n - 1);
    }
  }

  lemma OneMoreTaken(items: seq<Item>, chains: map<int, KeyChain>, signs: SignatureCheck, n: nat)
    requires n < |items| && TakenBefore(chains, n) == Claimed(items, n, signs)
    requires n in chains <==> KeyIdx(items, n)
    requires KeyIdx(items, n) ==> chains[n] == ChainPast(items, n, TakenBefore(chains, n), signs)
    ensures TakenBefore(chains, n + 1) == Claimed(items, n + 1, signs)
  {}

  /** The plan the loops make is a function of the items and of who signed whom. */
  lemma PlanIsDetermined(items: seq<Item>, plan: Plan, signs: SignatureCheck)
    requires PlanFor(items, |items|, plan, signs)
    ensures plan == PlanOf(items, signs)
  {
    ChainsAreDetermined(items, plan, signs);
    TakenIsClaimed(items, plan, signs, |items|);
    LeavesAreLeaves(items, plan, signs);
  }

  lemma ChainsAreDetermined(items: seq<Item>, plan: Plan, signs: SignatureCheck)
    requires PlanFor(items, |items|, plan, signs)
    ensures plan.chains == PlanOf(items, signs).chains
  {
    var made := PlanOf(items, signs).chains;
    forall k: nat | k < |items|
      ensures k in plan.chains <==> k in made
      ensures k in made ==> plan.chains[k] == made[k]
    {
      TakenIsClaimed(items, plan, signs, k);
      PlannedChain(items, plan, signs, k);
    }
  }

  lemma LeavesAreLeaves(items: seq<Item>, plan: Plan, signs: SignatureCheck)
    requires PlanFor(items, |items|, plan, signs)
    ensures plan.leaves == set k | 0 <= k < |items| && KeyIdx(items, k) && LeafFor(items, k) != -1 :: LeafFor(items, k)
  {
    forall j
      ensures j in plan.leaves <==> exists k :: 0 <= k < |items| && KeyIdx(items, k) && LeafFor(items, k) == j != -1
    {
      LeavesExact(plan.chains, |items|, j);
      forall k: nat | k < |items| && KeyIdx(items, k)
        ensures plan.chains[k].walk != [] && j == plan.chains[k].walk[0] <==> LeafFor(items, k) == j != -1
      {
        WalkStartsAtLeaf(items, plan, signs, k);
      }
    }
  }

  lemma ChainPastIsRight(items: seq<Item>, k: int, taken: set<int>, signs: SignatureCheck)
    requires KeyIdx(items, k)
    ensures var c := ChainPast(items, k, taken, signs);
            ChainFor(items, k, c, taken, signs) && Exhausted(items, c.walk, taken + Elements(c.walk), signs)
  {
    var leaf := LeafFor(items, k);
    if leaf != -1 {
      var walk := WalkFrom(items, leaf, taken + {leaf}, signs);
      WalkIsLinked(items, leaf, taken + {leaf}, signs);
      FewerTaken(items, walk, taken, leaf, signs);
      assert taken + {leaf} + Elements(walk) == taken + Elements(walk);
    }
  }

  lemma {:induction false} SomePlan(items: seq<Item>, n: nat, signs: SignatureCheck) returns (plan: Plan)
    requires n <= |items|
    ensures PlanFor(items, n, plan, signs)
  {
    if n == 0 {
      plan := Plan(map[], {}, {});
      assert TakenBefore(plan.chains, 0) == {};
    } else {
      plan := SomePlan(items, n - 1, signs);
      if KeyIdx(items, n - 1) {
        plan := WithChain(items, n - 1, plan, signs);
      } else {
        PlanSkips(items, n - 1, plan, signs);
      }
    }
  }

  lemma WithChain(items: seq<Item>, k: nat, plan: Plan, signs: SignatureCheck) returns (next: Plan)
    requires KeyIdx(items, k) && PlanFor(items, k, plan, signs)
    ensures PlanFor(items, k + 1, next, signs)
  {
    var c := ChainPast(items, k, plan.consumed, signs);
    ChainPastIsRight(items, k, plan.consumed, signs);
    var leaves := if c.walk == [] then plan.leaves else plan.leaves + {c.walk[0]};
    next := Plan(plan.chains[k := c], plan.consumed + Elements(c.walk), leaves);
    PlanStep(items, k, plan, c, next, signs);
  }

  /** That function is a plan. */
  lemma PlanOfIsPlan(items: seq<Item>, signs: SignatureCheck)
    ensures PlanFor(items, |items|, PlanOf(items, signs), signs)
  {
    var plan := SomePlan(items, |items|, signs);
    PlanIsDetermined(items, plan, signs);
  }

  predicate OnlyIssuer(items: seq<Item>, leaf: int, signs: SignatureCheck, x: int)
    requires CertIdx(items, leaf)
  {
    forall p | 0 <= p < |items| && CertIdx(items, p) :: Issues(CertOf(items, p), CertOf(items, leaf), signs) ==> p == x
  }

  /** Two keys under one intermediate `x`: once an earlier key's chain went through it, the later key's chain stops
      at its leaf, although `x` issued that leaf too. */
  lemma SharedIssuerGoesToTheFirstKey(items: seq<Item>, plan: Plan, signs: SignatureCheck, i: nat, k: nat, x: int)
    requires PlanFor(items, |items|, plan, signs) && i in plan.chains && k in plan.chains && i < k
    requires LeafFor(items, k) != -1 && OnlyIssuer(items, LeafFor(items, k), signs, x)
    requires x in plan.chains[i].walk
    ensures plan.chains[k].walk == [LeafFor(items, k)]
  {
    WalkStartsAtLeaf(items, plan, signs, k);
    TakenExact(plan.chains, k, x);
    var leaf, taken := LeafFor(items, k), TakenBefore(plan.chains, k);
    assert ChainFor(items, k, plan.chains[k], taken, signs);
    assert NextIssuer(items, CertOf(items, leaf), taken + {leaf}, signs, 0) == -1;
  }

  function KeyBodies(entries: seq<Entry>): seq<Bytes> {
    if entries == [] then []
    else
      var last := entries[|entries| - 1];
      var before := KeyBodies(entries[..|entries| - 1]);
      if last.KeyEntry? then before + [last.pkcs8] else before
  }

  function ItemKeys(items: seq<Item>, n: nat): seq<Bytes>
    requires n <= |items|
  {
    if n == 0 then []
    else if KeyIdx(items, n - 1) && items[n - 1].key.value.pkcs8.Some?
        then ItemKeys(items, n - 1) + [items[n - 1].key.value.pkcs8.value]
    else ItemKeys(items, n - 1)
  }

  /** Every parsed key is written exactly once, in item order. */
  lemma {:induction false} EveryKeyIsWrittenOnce(items: seq<Item>, plan: Plan, aliases: Aliases, password: Bytes,
                                                 n: nat)
    requires n <= |items| && Covers(items, plan)
    ensures KeyBodies(Emitted(items, plan, aliases, password, n)) == ItemKeys(items, n)
  {
    if n > 0 {
      EveryKeyIsWrittenOnce(items, plan, aliases, password, n - 1);
      var before := Emitted(items, plan, aliases, password, n - 1);
      match EntryFor(items, plan, aliases, password, n - 1) {
        case Emit(e) => assert (before + [e])[..|before|] == before;
        case _ => assert before + [] == before;
      }
    }
  }

  // ---------------------------------------------------------------------------------------------
  // Aliases
  // ---------------------------------------------------------------------------------------------

  /** The keystore files entries under folded aliases; a later entry replaces an earlier one. */
  function Stored(entries: seq<Entry>, fold: string -> string): map<string, Entry> {
    if entries == [] then map[]
    else
      var last := entries[|entries| - 1];
      Stored(entries[..|entries| - 1], fold)[fold(last.alias) := last]
  }

  ghost predicate AllSurvive(entries: seq<Entry>, fold: string -> string) {
    forall e <- entries :: fold(e.alias) in Stored(entries, fold) && Stored(entries, fold)[fold(e.alias)] == e
  }

  /** Every entry survives in the keystore if and only if no two different ones share an alias. */
  lemma {:induction false} AliasesDecideSurvival(entries: seq<Entry>, fold: string -> string)
    ensures AllSurvive(entries, fold) <==>
            forall a <- entries, b <- entries :: fold(a.alias) == fold(b.alias) ==> a == b
  {
    if entries != [] && forall a <- entries, b <- entries :: fold(a.alias) == fold(b.alias) ==> a == b {
      var n := |entries| - 1;
      assert entries == entries[..n] + [entries[n]];
      AliasesDecideSurvival(entries[..n], fold);
    }
  }
}
