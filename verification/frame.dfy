/** The password-encrypted frame (`internal/crypto/crypto.go`): a length-prefixed, randomly padded plaintext
    sealed by AES-GCM, behind its salt and nonce, as text. Key derivation and sealing are abstract. */
module EncryptedFrame {
  import opened CertTypes

  const SALT_LENGTH := 16

  const NONCE_LENGTH := 12

  const MIN_PADDING := 1

  const MAX_PADDING := 32

  const WORD := 0x1_0000_0000

  /** The libraries: Argon2id, AES-GCM (`open` checks the tag) and standard base64. */
  datatype Library = Library(
    deriveKey: (Bytes, Bytes) -> Bytes,
    seal: (Bytes, Bytes, Bytes) -> Bytes,
    open: (Bytes, Bytes, Bytes) -> Option<Bytes>,
    encode: Bytes -> string,
    decode: string -> Option<Bytes>
  )

  function ReadPair(b: Bytes): (n: nat)
    requires |b| >= 2
    ensures n < 0x1_0000
  {
    var high: int, low: int := b[0], b[1];
    high * 0x100 + low
  }

  /** Two bytes, high one first. */
  function Pair(n: nat): (r: Bytes)
    requires n < 0x1_0000
    ensures |r| == 2 && ReadPair(r) == n
  {
    [n / 0x100, n % 0x100]
  }

  lemma PairOf(b: Bytes)
    requires |b| == 2
    ensures Pair(ReadPair(b)) == b
  {}

  /** `binary.BigEndian.PutUint32` of the length, whose higher bits are lost. */
  function Header(length: nat): (r: Bytes)
    ensures |r| == 4
  {
    var n: nat := length % WORD;
    Pair(n / 0x1_0000) + Pair(n % 0x1_0000)
  }

  /** The octets of the length, the highest first. */
  lemma HeaderIsBigEndian(length: nat)
    ensures var h := Header(length);
            var a: int, b: int, c: int, d: int := h[0], h[1], h[2], h[3];
            0x100_0000 * a + 0x1_0000 * b + 0x100 * c + d == length % 0x1_0000_0000
  {
    var n: nat := length % WORD;
    assert n == (n / 0x1_0000) * 0x1_0000 + n % 0x1_0000;
    assert Pair(n / 0x1_0000)[0] == Header(length)[0] && Pair(n / 0x1_0000)[1] == Header(length)[1];
    assert Pair(n % 0x1_0000)[0] == Header(length)[2] && Pair(n % 0x1_0000)[1] == Header(length)[3];
  }

  function ReadHeader(b: Bytes): nat
    requires |b| >= 4
  {
    ReadPair(b) * 0x1_0000 + ReadPair(b[2..])
  }

  lemma HeaderReadsBack(length: nat, rest: Bytes)
    ensures ReadHeader(Header(length) + rest) == length % WORD
  {
    var n: nat := length % WORD;
    assert n == (n / 0x1_0000) * 0x1_0000 + n % 0x1_0000;
    var all := Header(length) + rest;
    assert all[0] == Pair(n / 0x1_0000)[0] && all[1] == Pair(n / 0x1_0000)[1];
    assert all[2..][0] == Pair(n % 0x1_0000)[0] && all[2..][1] == Pair(n % 0x1_0000)[1];
  }

  /** Every four bytes are the header of the length they hold. */
  lemma HeaderOf(b: Bytes)
    requires |b| == 4
    ensures ReadHeader(b) < WORD && Header(ReadHeader(b)) == b
  {
    PairOf(b[..2]);
    PairOf(b[2..]);
    Halves(ReadPair(b[..2]), ReadPair(b[2..]));
    assert b == b[..2] + b[2..];
  }

  lemma Halves(high: nat, low: nat)
    requires high < 0x1_0000 && low < 0x1_0000
    ensures var n := high * 0x1_0000 + low;
            n < WORD && n % WORD == n && n / 0x1_0000 == high && n % 0x1_0000 == low
  {}

  function Inner(plaintext: Bytes, padding: Bytes): Bytes {
    Header(|plaintext|) + plaintext + padding
  }

  /** Between 1 and 32 bytes, by a random byte. */
  function PaddingLength(padByte: Byte): (n: nat)
    ensures MIN_PADDING <= n <= MAX_PADDING
  {
    MIN_PADDING + padByte % (MAX_PADDING - MIN_PADDING + 1)
  }

  /** The random bytes one encryption draws. */
  datatype Randomness = Randomness(salt: Bytes, nonce: Bytes, padByte: Byte, padding: Bytes)

  predicate ValidDraw(r: Randomness) {
    |r.salt| == SALT_LENGTH && |r.nonce| == NONCE_LENGTH && |r.padding| == PaddingLength(r.padByte)
  }

  function Blob(lib: Library, password: Bytes, plaintext: Bytes, r: Randomness): Bytes {
    r.salt + r.nonce + lib.seal(lib.deriveKey(password, r.salt), r.nonce, Inner(plaintext, r.padding))
  }

  /** Fills the inner buffer by offset: the length, the plaintext, the padding. */
  method BuildInner(plaintext: Bytes, padding: Bytes) returns (inner: array<Byte>)
    ensures fresh(inner) && inner[..] == Inner(plaintext, padding)
  {
    var n := |plaintext|;
    inner := new Byte[4 + n + |padding|](_ => 0);
    var header := Header(n);
    forall i | 0 <= i < 4 {
      inner[i] := header[i];
    }
    forall i | 0 <= i < n {
      inner[4 + i] := plaintext[i];
    }
    forall i | 0 <= i < |padding| {
      inner[4 + n + i] := padding[i];
    }
    assert inner[..4] == header && inner[4..4 + n] == plaintext && inner[4 + n..] == padding;
    assert inner[..] == inner[..4] + inner[4..4 + n] + inner[4 + n..];
  }

  method Encrypt(lib: Library, password: Bytes, plaintext: Bytes, r: Randomness) returns (encoded: string)
    requires ValidDraw(r)
    ensures encoded == lib.encode(Blob(lib, password, plaintext, r))
  {
    var key := lib.deriveKey(password, r.salt);
    var inner := BuildInner(plaintext, r.padding);
    var blob := r.salt;
    blob := blob + r.nonce;
    blob := blob + lib.seal(key, r.nonce, inner[..]);
    encoded := lib.encode(blob);
  }

  /** Sixteen octets of salt, twelve of nonce, and sealed under them the length in four octets, the plaintext and one
      to thirty-two octets of padding. */
  lemma BlobLayout(lib: Library, password: Bytes, plaintext: Bytes, r: Randomness)
    requires ValidDraw(r)
    ensures |r.salt| == 16 && |r.nonce| == 12 && 1 <= |r.padding| <= 32
    ensures var blob := Blob(lib, password, plaintext, r);
            && |blob| >= 28 && blob[..16] == r.salt && blob[16..28] == r.nonce
            && exists inner :: |inner| == 4 + |plaintext| + |r.padding| && inner[4..4 + |plaintext|] == plaintext
                               && inner[4 + |plaintext|..] == r.padding
                               && blob[28..] == lib.seal(lib.deriveKey(password, r.salt), r.nonce, inner)
  {
    var inner := Inner(plaintext, r.padding);
    assert inner[4..4 + |plaintext|] == plaintext && inner[4 + |plaintext|..] == r.padding;
    var sealed := lib.seal(lib.deriveKey(password, r.salt), r.nonce, inner);
    assert Blob(lib, password, plaintext, r)[28..] == sealed;
  }

  /** `None` is `ErrDecryptionFailed`. */
  function Decrypt(lib: Library, password: Bytes, encoded: string): Option<Bytes> {
    var blob := lib.decode(encoded);
    if blob == None then None
    else if |blob.value| < SALT_LENGTH + NONCE_LENGTH + 1 then None
    else
      var salt := blob.value[..SALT_LENGTH];
      var nonce := blob.value[SALT_LENGTH..SALT_LENGTH + NONCE_LENGTH];
      var inner := lib.open(lib.deriveKey(password, salt), nonce, blob.value[SALT_LENGTH + NONCE_LENGTH..]);
      if inner == None then None else Unframe(inner.value)
  }

  /** The plaintext inside an opened frame. */
  function Unframe(inner: Bytes): Option<Bytes> {
    if |inner| < 4 then None
    else
      var length := ReadHeader(inner);
      if length > |inner| - 4 then None else Some(inner[4..4 + length])
  }

  /** What the proofs use of the libraries for one frame: the seal opens and is not empty, the text decodes. */
  ghost predicate Opens(lib: Library, password: Bytes, plaintext: Bytes, r: Randomness) {
    var key, inner := lib.deriveKey(password, r.salt), Inner(plaintext, r.padding);
    var sealed := lib.seal(key, r.nonce, inner);
    && |sealed| > 0 && lib.open(key, r.nonce, sealed) == Some(inner)
    && lib.decode(lib.encode(Blob(lib, password, plaintext, r))) == Some(Blob(lib, password, plaintext, r))
  }

  /** Unframing keeps only the low 32 bits of the length. */
  lemma UnframeUndoesFrame(plaintext: Bytes, padding: Bytes)
    ensures Unframe(Inner(plaintext, padding)) == Some(plaintext[..|plaintext| % WORD])
  {
    var inner, n := Inner(plaintext, padding), |plaintext| % WORD;
    assert inner == Header(|plaintext|) + (plaintext + padding);
    HeaderReadsBack(|plaintext|, plaintext + padding);
    assert n <= |plaintext|;
    assert inner[4..4 + n] == plaintext[..n];
  }

  lemma BlobParts(lib: Library, password: Bytes, plaintext: Bytes, r: Randomness)
    requires ValidDraw(r)
    ensures var blob := Blob(lib, password, plaintext, r);
            && |blob| >= SALT_LENGTH + NONCE_LENGTH
            && blob[..SALT_LENGTH] == r.salt && blob[SALT_LENGTH..SALT_LENGTH + NONCE_LENGTH] == r.nonce
            && blob[SALT_LENGTH + NONCE_LENGTH..]
            == lib.seal(lib.deriveKey(password, r.salt), r.nonce, Inner(plaintext, r.padding))
  {}

  /** Decrypting with the same password gives back the first |plaintext| mod 2^32 bytes, whatever salt,
      nonce and padding were drawn. */
  lemma DecryptOfEncrypt(lib: Library, password: Bytes, plaintext: Bytes, r: Randomness)
    requires ValidDraw(r) && Opens(lib, password, plaintext, r)
    ensures Decrypt(lib, password, lib.encode(Blob(lib, password, plaintext, r)))
         == Some(plaintext[..|plaintext| % WORD])
  {
    BlobParts(lib, password, plaintext, r);
    UnframeUndoesFrame(plaintext, r.padding);
  }

  /** So decryption undoes encryption exactly for plaintexts below 2^32 bytes. */
  lemma DecryptUndoesEncrypt(lib: Library, password: Bytes, plaintext: Bytes, r: Randomness)
    requires ValidDraw(r) && Opens(lib, password, plaintext, r)
    ensures Decrypt(lib, password, lib.encode(Blob(lib, password, plaintext, r))) == Some(plaintext)
       <==> |plaintext| < WORD
  {
    DecryptOfEncrypt(lib, password, plaintext, r);
    var n := |plaintext| % WORD;
    assert |plaintext[..n]| == n;
    if |plaintext| < WORD {
      assert plaintext[..n] == plaintext;
    }
  }

  /** Whatever decrypts was sealed under this password's key: it is the front of an opened frame that names
      its length, and any shorter or damaged frame is refused. */
  lemma DecryptedWasFramed(lib: Library, password: Bytes, encoded: string)
    requires Decrypt(lib, password, encoded).Some?
    ensures exists salt, nonce, sealed, rest ::
              && lib.decode(encoded) == Some(salt + nonce + sealed) && |salt| == SALT_LENGTH && |nonce| == NONCE_LENGTH
              && |sealed| > 0
              && lib.open(lib.deriveKey(password, salt), nonce, sealed)
              == Some(Header(|Decrypt(lib, password, encoded).value|) + Decrypt(lib, password, encoded).value + rest)
  {
    var blob := lib.decode(encoded).value;
    var salt, nonce := blob[..SALT_LENGTH], blob[SALT_LENGTH..SALT_LENGTH + NONCE_LENGTH];
    var sealed := blob[SALT_LENGTH + NONCE_LENGTH..];
    var inner := lib.open(lib.deriveKey(password, salt), nonce, sealed).value;
    var plain := Decrypt(lib, password, encoded).value;
    FramePartsOf(inner, plain);
    assert blob == salt + nonce + sealed;
    assert lib.open(lib.deriveKey(password, salt), nonce, sealed)
        == Some(Header(|plain|) + plain + inner[4 + |plain|..]);
  }

  lemma FramePartsOf(inner: Bytes, plain: Bytes)
    requires Unframe(inner) == Some(plain)
    ensures 4 + |plain| <= |inner| && inner == Header(|plain|) + plain + inner[4 + |plain|..]
  {
    HeaderOf(inner[..4]);
    assert ReadHeader(inner) == ReadHeader(inner[..4]) == |plain|;
    assert inner == inner[..4] + inner[4..4 + |plain|] + inner[4 + |plain|..];
  }
}
