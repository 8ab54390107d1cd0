/** The values certdiag passes around: certificates, keys, items, containers and references.
    A certificate is a parsed value. SHA-256 is treated as injective, so comparing digests of
    raw bytes is comparing the raw bytes. */
module CertTypes {

  type Byte = b: int | 0 <= b < 256

  type Bytes = seq<Byte>

  datatype Option<+T> = None | Some(value: T)

  datatype Result<+T> = Ok(value: T) | Err(message: string)

  /** The fields of an X.509 certificate the modelled code reads. `publicKey` is the PKIX
      encoding of the key, `None` when encoding it fails. */
  datatype Cert = Cert(
    raw: Bytes,
    subject: string,
    issuer: string,
    subjectKeyId: Bytes,
    authorityKeyId: Bytes,
    isCA: bool,
    issuingUrls: seq<string>,
    publicKey: Option<Bytes>
  )

  /** `signs(child, parent)` stands for `child.CheckSignatureFrom(parent) == nil`. */
  type SignatureCheck = (Cert, Cert) -> bool

  /** A parsed private key: its PKCS#8 encoding and, when it is a signer whose public half
      encodes, the PKIX encoding of that half. */
  datatype Key = Key(pkcs8: Option<Bytes>, publicKey: Option<Bytes>)

  datatype ContentType = Certificate | PrivateKey | PublicKey | CSR

  datatype Item = Item(
    kind: ContentType,
    alias: string,
    certificate: Option<Cert>,
    key: Option<Key>,
    csrPublicKey: Option<Bytes>,
    encrypted: bool,
    entryPassword: Option<Bytes>,
    chain: seq<Bytes>
  )

  datatype Container = Container(filePath: string, relationsOnly: bool, items: seq<Item>)

  type Store = seq<Container>

  datatype ItemRef = ItemRef(containerIdx: int, itemIdx: int, filePath: string, alias: string)

  /** `SafeItem`: the item a reference points at, `None` when out of bounds. */
  function SafeItem(store: Store, ref: ItemRef): Option<Item> {
    if 0 <= ref.containerIdx < |store| && 0 <= ref.itemIdx < |store[ref.containerIdx].items|
    then Some(store[ref.containerIdx].items[ref.itemIdx])
    else None
  }

  /** The certificate behind a reference, if there is one. */
  function CertAt(store: Store, ref: ItemRef): Option<Cert> {
    match SafeItem(store, ref)
    case Some(item) => item.certificate
    case None => None
  }

  function RefTo(store: Store, ci: nat, ii: nat): ItemRef
    requires ci < |store| && ii < |store[ci].items|
  {
    ItemRef(ci, ii, store[ci].filePath, store[ci].items[ii].alias)
  }

  /** Subject and issuer agree, and so do the key identifiers when both are present. */
  predicate IsSelfSigned(cert: Cert) {
    && cert.subject == cert.issuer
    && (|cert.subjectKeyId| > 0 && |cert.authorityKeyId| > 0 ==> cert.subjectKeyId == cert.authorityKeyId)
  }

  predicate MatchesIssuer(child: Cert, parent: Cert, signs: SignatureCheck) {
    && child.issuer == parent.subject
    && (|child.authorityKeyId| > 0 && |parent.subjectKeyId| > 0 ==> child.authorityKeyId == parent.subjectKeyId)
    && signs(child, parent)
  }

  /** The item is a certificate that parsed. */
  predicate IsCert(item: Item) {
    item.kind == Certificate && item.certificate.Some?
  }
}
