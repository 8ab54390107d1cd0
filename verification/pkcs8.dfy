/** Encrypted PKCS#8 keys (`pkcs8.go`): PKCS#7 padding, CBC over an abstract block cipher, and the PBES2
    envelope. ASN.1 structures are datatypes. */
module Pkcs8 {
  import opened CertTypes

  // ---------------------------------------------------------------------------------------------
  // Padding
  // ---------------------------------------------------------------------------------------------

  function PadLength(data: Bytes, blockSize: nat): nat
    requires blockSize > 0
  {
    blockSize - |data| % blockSize
  }

  function Repeat(b: Byte, n: nat): Bytes {
    seq(n, _ => b)
  }

  /** The padding byte is the low byte of the padding's length. */
  function Pad(data: Bytes, blockSize: nat): Bytes
    requires blockSize > 0
  {
    data + Repeat(PadLength(data, blockSize) % 256, PadLength(data, blockSize))
  }

  predicate EndsIn(data: Bytes, n: nat) {
    n <= |data| && forall i :: |data| - n <= i < |data| ==> data[i] == n
  }

  function Unpad(data: Bytes, blockSize: nat): Option<Bytes> {
    if data == [] then None
    else
      var n := data[|data| - 1];
      if n == 0 || n > blockSize || n > |data| || !EndsIn(data, n) then None else Some(data[..|data| - n])
  }

  /** `addPKCS7Padding` fills a buffer with the padding byte and appends it. */
  method AddPKCS7Padding(data: Bytes, blockSize: nat) returns (padded: Bytes)
    requires blockSize > 0
    ensures padded == Pad(data, blockSize)
  {
    var padLen := blockSize - |data| % blockSize;
    var padding := new Byte[padLen](_ => 0);
    for i := 0 to padLen
      invariant forall k :: 0 <= k < i ==> padding[k] == padLen % 256
    {
      padding[i] := padLen % 256;
    }
    assert padding[..] == Repeat(padLen % 256, padLen);
    padded := data + padding[..];
  }

  /** Padding makes whole blocks and adds at least one byte. */
  lemma PadMakesBlocks(data: Bytes, blockSize: nat)
    requires blockSize > 0
    ensures |Pad(data, blockSize)| % blockSize == 0 && |data| < |Pad(data, blockSize)| <= |data| + blockSize
  {
    var q := |data| / blockSize;
    assert |data| == q * blockSize + |data| % blockSize;
    assert (q + 1) * blockSize == q * blockSize + blockSize;
    RemainderIs(|Pad(data, blockSize)|, q + 1, 0, blockSize);
  }

  /** Division with remainder has one answer. */
  lemma RemainderIs(x: int, q: int, r: int, b: int)
    requires x == q * b + r && 0 <= r < b
    ensures x % b == r
  {
    var q', r' := x / b, x % b;
    assert x == q' * b + r';
    assert (q - q') * b == r' - r;
    NotBetween(q - q', b, r' - r);
  }

  lemma NotBetween(d: int, b: int, x: int)
    requires d * b == x && -b < x < b
    ensures x == 0
  {
    if d >= 1 {
      AtLeast(d, b);
      assert false;
    }
    if d <= -1 {
      AtLeast(-d, b);
      assert false;
    }
  }

  lemma AtLeast(d: int, b: int)
    requires d >= 1 && b > 0
    ensures d * b >= b && (-d) * b <= -b
  {
    assert (d - 1) * b >= 0;
  }

  /** Section 6.3 of RFC 5652: unpadding undoes padding exactly when the padding's length fits its byte,
      which it does for every block size up to 255. */
  lemma UnpadUndoesPad(data: Bytes, blockSize: nat)
    requires blockSize > 0
    ensures Unpad(Pad(data, blockSize), blockSize) == Some(data) <==> PadLength(data, blockSize) <= 255
  {
    var n := PadLength(data, blockSize);
    var padded := Pad(data, blockSize);
    assert padded[|padded| - 1] == n % 256;
    if n <= 255 {
      assert n % 256 == n;
      assert EndsIn(padded, n);
      assert padded[..|padded| - n] == data;
    } else if Unpad(padded, blockSize).Some? {
      assert |Unpad(padded, blockSize).value| > |data|;
    }
  }

  /** And padding undoes unpadding on whole blocks. */
  lemma PadUndoesUnpad(padded: Bytes, blockSize: nat)
    requires 0 < blockSize <= 255 && |padded| % blockSize == 0 && Unpad(padded, blockSize).Some?
    ensures Pad(Unpad(padded, blockSize).value, blockSize) == padded
  {
    var data := Unpad(padded, blockSize).value;
    var n := |padded| - |data|;
    assert n == padded[|padded| - 1];
    ShortOfMultiple(|padded|, n, blockSize);
    assert PadLength(data, blockSize) == n;
    assert n % 256 == n;
  }

  lemma ShortOfMultiple(total: nat, n: nat, b: nat)
    requires 0 < n <= b && n <= total && total % b == 0
    ensures b - (total - n) % b == n
  {
    var q := total / b;
    assert total == q * b;
    assert (q - 1) * b == q * b - b;
    RemainderIs(total - n, q - 1, b - n, b);
  }

  // ---------------------------------------------------------------------------------------------
  // CBC
  // ---------------------------------------------------------------------------------------------

  /** A block cipher under a key, as Go's `cipher.Block`. */
  datatype Block = Block(size: nat, encrypt: Bytes -> Bytes, decrypt: Bytes -> Bytes)

  /** Encrypting permutes the blocks and decrypting is its inverse. */
  ghost predicate Permutes(k: Block) {
    && (forall b :: |b| == k.size ==> |k.encrypt(b)| == k.size && k.decrypt(k.encrypt(b)) == b)
    && (forall b :: |b| == k.size ==> |k.decrypt(b)| == k.size && k.encrypt(k.decrypt(b)) == b)
  }

  /** Bitwise exclusive or. */
  function XorBits(a: nat, b: nat): nat
    decreases a + b
  {
    if a == 0 && b == 0 then 0 else 2 * XorBits(a / 2, b / 2) + (a % 2 + b % 2) % 2
  }

  function Power(bits: nat): (r: nat)
    ensures r > 0
  {
    if bits == 0 then 1 else 2 * Power(bits - 1)
  }

  lemma {:induction false} XorFits(a: nat, b: nat, bits: nat)
    requires a < Power(bits) && b < Power(bits)
    ensures XorBits(a, b) < Power(bits)
  {
    if bits > 0 {
      XorFits(a / 2, b / 2, bits - 1);
    }
  }

  lemma ByteHasEightBits()
    ensures Power(8) == 256
  {
    assert Power(4) == 16;
  }

  function XorByte(a: Byte, b: Byte): Byte {
    ByteHasEightBits();
    XorFits(a, b, 8);
    XorBits(a, b)
  }

  lemma {:induction false} XorBitsCancels(a: nat, b: nat)
    ensures XorBits(XorBits(a, b), b) == a
    decreases a + b
  {
    if a != 0 || b != 0 {
      var low := (a % 2 + b % 2) % 2;
      var high := XorBits(a / 2, b / 2);
      XorBitsCancels(a / 2, b / 2);
      assert XorBits(a, b) == 2 * high + low;
      XorSplits(high, low, b);
      LowBit(a, b);
    }
  }

  lemma LowBit(a: nat, b: nat)
    ensures 2 * (a / 2) + ((a % 2 + b % 2) % 2 + b % 2) % 2 == a
  {
    assert a % 2 == 0 || a % 2 == 1;
    assert b % 2 == 0 || b % 2 == 1;
  }

  lemma XorSplits(high: nat, low: nat, b: nat)
    requires low < 2
    ensures XorBits(2 * high + low, b) == 2 * XorBits(high, b / 2) + (low + b % 2) % 2
  {
    assert (2 * high + low) / 2 == high && (2 * high + low) % 2 == low;
  }

  /** Exclusive or of two blocks. */
  function Xor(a: Bytes, b: Bytes): (r: Bytes)
    ensures |r| == |a|
  {
    seq(|a|, i requires 0 <= i < |a| => if i < |b| then XorByte(a[i], b[i]) else a[i])
  }

  lemma XorCancels(a: Bytes, b: Bytes)
    ensures Xor(Xor(a, b), b) == a
  {
    forall i | 0 <= i < |a| ensures Xor(Xor(a, b), b)[i] == a[i] {
      if i < |b| {
        XorBitsCancels(a[i], b[i]);
      }
    }
  }

  /** A whole number of blocks. */
  predicate WholeBlocks(k: Block, length: nat) {
    k.size > 0 && (length == 0 || (length >= k.size && WholeBlocks(k, length - k.size)))
  }

  lemma {:induction false} MultiplesAreWhole(k: Block, length: nat)
    requires k.size == 8 || k.size == 16
    ensures WholeBlocks(k, length) <==> length % k.size == 0
  {
    if length >= k.size {
      MultiplesAreWhole(k, length - k.size);
      if k.size == 8 {
        assert length % 8 == (length - 8) % 8;
      } else {
        assert length % 16 == (length - 16) % 16;
      }
    } else {
      SmallRemainder(length, k.size);
    }
  }

  lemma SmallRemainder(x: nat, b: nat)
    requires x < b
    ensures x % b == x
  {
    RemainderIs(x, 0, x, b);
  }

  /** `CryptBlocks` of a CBC encrypter: each block is mixed with the previous ciphertext block. */
  function CbcEncrypt(k: Block, iv: Bytes, data: Bytes): Bytes
    decreases |data|
  {
    if k.size == 0 || |data| < k.size then []
    else
      var block := k.encrypt(Xor(data[..k.size], iv));
      block + CbcEncrypt(k, block, data[k.size..])
  }

  /** `CryptBlocks` of a CBC decrypter. */
  function CbcDecrypt(k: Block, iv: Bytes, data: Bytes): Bytes
    decreases |data|
  {
    if k.size == 0 || |data| < k.size then []
    else Xor(k.decrypt(data[..k.size]), iv) + CbcDecrypt(k, data[..k.size], data[k.size..])
  }

  lemma EncryptFirst(k: Block, iv: Bytes, block: Bytes, rest: Bytes)
    requires k.size > 0 && |block| == k.size
    ensures CbcEncrypt(k, iv, block + rest)
         == k.encrypt(Xor(block, iv)) + CbcEncrypt(k, k.encrypt(Xor(block, iv)), rest)
  {
    assert (block + rest)[..k.size] == block && (block + rest)[k.size..] == rest;
  }

  lemma DecryptFirst(k: Block, iv: Bytes, block: Bytes, rest: Bytes)
    requires k.size > 0 && |block| == k.size
    ensures CbcDecrypt(k, iv, block + rest) == Xor(k.decrypt(block), iv) + CbcDecrypt(k, block, rest)
  {
    assert (block + rest)[..k.size] == block && (block + rest)[k.size..] == rest;
  }

  lemma {:induction false} CbcDecryptUndoesEncrypt(k: Block, iv: Bytes, data: Bytes)
    requires Permutes(k) && WholeBlocks(k, |data|)
    ensures |CbcEncrypt(k, iv, data)| == |data| && CbcDecrypt(k, iv, CbcEncrypt(k, iv, data)) == data
    decreases |data|
  {
    if data != [] {
      var first, rest := data[..k.size], data[k.size..];
      var block := k.encrypt(Xor(first, iv));
      BlockDecrypts(k, iv, first);
      CbcDecryptUndoesEncrypt(k, block, rest);
      FirstDecrypts(k, iv, first, rest, block, CbcEncrypt(k, block, rest));
      assert data == first + rest;
    }
  }

  lemma FirstDecrypts(k: Block, iv: Bytes, first: Bytes, rest: Bytes, block: Bytes, sealed: Bytes)
    requires k.size > 0 && |first| == |block| == k.size
    requires block == k.encrypt(Xor(first, iv)) && Xor(k.decrypt(block), iv) == first
    requires sealed == CbcEncrypt(k, block, rest) && |sealed| == |rest| && CbcDecrypt(k, block, sealed) == rest
    ensures |CbcEncrypt(k, iv, first + rest)| == |first + rest|
    ensures CbcDecrypt(k, iv, CbcEncrypt(k, iv, first + rest)) == first + rest
  {
    EncryptFirst(k, iv, first, rest);
    DecryptFirst(k, iv, block, sealed);
  }

  lemma BlockDecrypts(k: Block, iv: Bytes, plain: Bytes)
    requires Permutes(k) && |plain| == k.size
    ensures |k.encrypt(Xor(plain, iv))| == k.size && Xor(k.decrypt(k.encrypt(Xor(plain, iv))), iv) == plain
  {
    XorCancels(plain, iv);
  }

  lemma {:induction false} CbcEncryptUndoesDecrypt(k: Block, iv: Bytes, data: Bytes)
    requires Permutes(k) && WholeBlocks(k, |data|)
    ensures |CbcDecrypt(k, iv, data)| == |data| && CbcEncrypt(k, iv, CbcDecrypt(k, iv, data)) == data
    decreases |data|
  {
    if data != [] {
      var first, rest := data[..k.size], data[k.size..];
      var plain := Xor(k.decrypt(first), iv);
      BlockEncrypts(k, iv, first);
      CbcEncryptUndoesDecrypt(k, first, rest);
      FirstEncrypts(k, iv, first, rest, plain, CbcDecrypt(k, first, rest));
      assert data == first + rest;
    }
  }

  lemma FirstEncrypts(k: Block, iv: Bytes, first: Bytes, rest: Bytes, block: Bytes, plain: Bytes)
    requires k.size > 0 && |first| == |block| == k.size
    requires block == Xor(k.decrypt(first), iv) && k.encrypt(Xor(block, iv)) == first
    requires plain == CbcDecrypt(k, first, rest) && |plain| == |rest| && CbcEncrypt(k, first, plain) == rest
    ensures |CbcDecrypt(k, iv, first + rest)| == |first + rest|
    ensures CbcEncrypt(k, iv, CbcDecrypt(k, iv, first + rest)) == first + rest
  {
    DecryptFirst(k, iv, first, rest);
    EncryptFirst(k, iv, block, plain);
  }

  lemma BlockEncrypts(k: Block, iv: Bytes, sealed: Bytes)
    requires Permutes(k) && |sealed| == k.size
    ensures |Xor(k.decrypt(sealed), iv)| == k.size && k.encrypt(Xor(Xor(k.decrypt(sealed), iv), iv)) == sealed
  {
    XorCancels(k.decrypt(sealed), iv);
  }

  // ---------------------------------------------------------------------------------------------
  // The envelope
  // ---------------------------------------------------------------------------------------------

  datatype Oid =
    | PBES2 | PBKDF2 | Scrypt | AES128CBC | AES192CBC | AES256CBC | DESEDE3CBC
    | HmacSHA1 | HmacSHA224 | HmacSHA256 | HmacSHA384 | HmacSHA512 | OtherOid(dotted: string)

  datatype ScryptParams = ScryptParams(salt: Bytes, cost: int, r: int, p: int)

  /** The parameter field of an algorithm identifier, as what it decodes to. */
  datatype Parameters =
    | IV(iv: Bytes)
    | Pbkdf2Params(salt: Bytes, iterations: int, keyLength: int, prf: Option<Oid>)
    | ScryptParameters(scrypt: ScryptParams, keyLength: int)
    | Pbes2Params(kdf: Algorithm, scheme: Algorithm)
    | Undecodable

  datatype Algorithm = Algorithm(oid: Oid, parameters: Parameters)

  datatype EncryptedKey = EncryptedKey(algorithm: Algorithm, data: Bytes)

  datatype Hash = SHA1 | SHA224 | SHA256 | SHA384 | SHA512

  /** The libraries: key derivation, the two block ciphers (`None` for a key of the wrong length), the PKCS#8
      parser and the DER codec. */
  datatype Library = Library(
    pbkdf2: (Bytes, Bytes, int, int, Hash) -> Bytes,
    scrypt: (Bytes, ScryptParams, int) -> Option<Bytes>,
    aes: Bytes -> Option<Block>,
    tripleDES: Bytes -> Option<Block>,
    parses: Bytes -> bool,
    marshal: EncryptedKey -> Bytes,
    unmarshal: Bytes -> Option<EncryptedKey>
  )

  /** What the proofs use of a library cipher. */
  ghost predicate IsCipher(k: Block) {
    Permutes(k) && (k.size == 8 || k.size == 16)
  }

  datatype Failure =
    | BadEnvelope | UnsupportedAlgorithm | BadPbes2 | UnsupportedKdf | BadKdfParameters | UnsupportedPrf
    | ScryptFailed | BadIV | UnsupportedCipher | CipherInit | NotWholeBlocks | IVLength | BadPadding | NotAKey

  datatype Outcome = Plain(bytes: Bytes) | Failed(why: Failure)

  /** The zero key length of an absent field means 32. */
  function KeyLength(n: int): int {
    if n == 0 then 32 else n
  }

  function PrfHash(prf: Option<Oid>): Option<Hash> {
    match prf
    case None => Some(SHA1)
    case Some(oid) =>
      match oid
      case HmacSHA1 => Some(SHA1)
      case HmacSHA224 => Some(SHA224)
      case HmacSHA256 => Some(SHA256)
      case HmacSHA384 => Some(SHA384)
      case HmacSHA512 => Some(SHA512)
      case _ => None
  }

  function DeriveKey(lib: Library, kdf: Algorithm, password: Bytes): Outcome {
    if kdf.oid == PBKDF2 then
      match kdf.parameters
      case Pbkdf2Params(salt, iterations, keyLength, prf) =>
        var hash := PrfHash(prf);
        if hash == None then Failed(UnsupportedPrf)
        else Plain(lib.pbkdf2(password, salt, iterations, KeyLength(keyLength), hash.value))
      case _ => Failed(BadKdfParameters)
    else if kdf.oid == Scrypt then
      match kdf.parameters
      case ScryptParameters(scrypt, keyLength) =>
        var key := lib.scrypt(password, scrypt, KeyLength(keyLength));
        if key == None then Failed(ScryptFailed) else Plain(key.value)
      case _ => Failed(BadKdfParameters)
    else Failed(UnsupportedKdf)
  }

  function Truncate(key: Bytes, n: nat): Bytes {
    if |key| > n then key[..n] else key
  }

  /** The cipher a scheme names, under the part of the key it uses. */
  function CipherOf(lib: Library, scheme: Oid, key: Bytes): Result<Option<Block>> {
    match scheme
    case AES128CBC => Ok(lib.aes(Truncate(key, 16)))
    case AES192CBC => Ok(lib.aes(Truncate(key, 24)))
    case AES256CBC => Ok(lib.aes(Truncate(key, 32)))
    case DESEDE3CBC => Ok(lib.tripleDES(Truncate(key, 24)))
    case _ => Err("unsupported")
  }

  /** `decrypt`. */
  function DecryptData(lib: Library, scheme: Algorithm, key: Bytes, ciphertext: Bytes): Outcome {
    if !scheme.parameters.IV? then Failed(BadIV)
    else
      var iv := scheme.parameters.iv;
      var chosen := CipherOf(lib, scheme.oid, key);
      if chosen.Err? then Failed(UnsupportedCipher)
      else if chosen.value == None then Failed(CipherInit)
      else
        var k := chosen.value.value;
        if k.size == 0 || |ciphertext| % k.size != 0 then Failed(NotWholeBlocks)
        else if |iv| != k.size then Failed(IVLength)
        else
          var plain := Unpad(CbcDecrypt(k, iv, ciphertext), k.size);
          if plain == None then Failed(BadPadding) else Plain(plain.value)
  }

  function DecryptPKCS8(lib: Library, der: Bytes, password: Bytes): Outcome {
    var parsed := lib.unmarshal(der);
    if parsed == None then Failed(BadEnvelope)
    else
      var epki := parsed.value;
      if epki.algorithm.oid != PBES2 then Failed(UnsupportedAlgorithm)
      else if !epki.algorithm.parameters.Pbes2Params? then Failed(BadPbes2)
      else
        var params := epki.algorithm.parameters;
        var key := DeriveKey(lib, params.kdf, password);
        if key.Failed? then key
        else
          var plain := DecryptData(lib, params.scheme, key.bytes, epki.data);
          if plain.Failed? then plain else if !lib.parses(plain.bytes) then Failed(NotAKey) else plain
  }

  const ITERATIONS := 600000

  const KEY_LENGTH := 32

  /** The envelope `EncryptPKCS8` builds around a ciphertext. */
  function Envelope(salt: Bytes, iv: Bytes, ciphertext: Bytes): EncryptedKey {
    EncryptedKey(
      Algorithm(PBES2, Pbes2Params(
        Algorithm(PBKDF2, Pbkdf2Params(salt, ITERATIONS, KEY_LENGTH, Some(HmacSHA256))),
        Algorithm(AES256CBC, IV(iv)))),
      ciphertext)
  }

  /** The key `EncryptPKCS8` encrypts with, and the cipher under it. */
  function StrongKey(lib: Library, password: Bytes, salt: Bytes): Bytes {
    lib.pbkdf2(password, salt, ITERATIONS, KEY_LENGTH, SHA256)
  }

  /** What `EncryptPKCS8` writes for the salt and IV it drew. */
  function Encrypted(lib: Library, der: Bytes, password: Bytes, salt: Bytes, iv: Bytes): Option<EncryptedKey> {
    var k := lib.aes(StrongKey(lib, password, salt));
    if k == None || k.value.size == 0 then None
    else Some(Envelope(salt, iv, CbcEncrypt(k.value, iv, Pad(der, k.value.size))))
  }

  /** `EncryptPKCS8`, given the salt and the IV read from the random source, or `None` when that failed. */
  method EncryptPKCS8(lib: Library, der: Bytes, password: Bytes, salt: Option<Bytes>, iv: Option<Bytes>)
    returns (out: Option<Bytes>)
    ensures salt == None || iv == None ==> out == None
    ensures salt.Some? && iv.Some? ==>
              var e := Encrypted(lib, der, password, salt.value, iv.value);
              out == if e == None then None else Some(lib.marshal(e.value))
  {
    if salt == None || iv == None {
      return None;
    }
    var block := lib.aes(StrongKey(lib, password, salt.value));
    if block == None || block.value.size == 0 {
      return None;
    }
    var padded := AddPKCS7Padding(der, block.value.size);
    var ciphertext := CbcEncrypt(block.value, iv.value, padded);
    out := Some(lib.marshal(Envelope(salt.value, iv.value, ciphertext)));
  }

  lemma PaddedDataDecrypts(k: Block, iv: Bytes, data: Bytes)
    requires IsCipher(k)
    ensures var sealed := CbcEncrypt(k, iv, Pad(data, k.size));
            |sealed| % k.size == 0 && Unpad(CbcDecrypt(k, iv, sealed), k.size) == Some(data)
  {
    PadMakesBlocks(data, k.size);
    MultiplesAreWhole(k, |Pad(data, k.size)|);
    CbcDecryptUndoesEncrypt(k, iv, Pad(data, k.size));
    UnpadUndoesPad(data, k.size);
  }

  /** AES accepts the 32-byte key `EncryptPKCS8` derives, and its blocks match the 16-byte IV. */
  ghost predicate StrongCipherWorks(lib: Library, password: Bytes, salt: Bytes) {
    var key := StrongKey(lib, password, salt);
    |key| == KEY_LENGTH && lib.aes(key).Some? && IsCipher(lib.aes(key).value) && lib.aes(key).value.size == 16
  }

  lemma EncryptedHolds(lib: Library, der: Bytes, password: Bytes, salt: Bytes, iv: Bytes, k: Block)
    requires lib.aes(StrongKey(lib, password, salt)) == Some(k) && k.size > 0
    ensures Encrypted(lib, der, password, salt, iv)
         == Some(Envelope(salt, iv, CbcEncrypt(k, iv, Pad(der, k.size))))
  {}

  lemma DecryptDataWith(lib: Library, iv: Bytes, key: Bytes, k: Block, data: Bytes)
    requires |key| == KEY_LENGTH && lib.aes(key) == Some(k) && k.size > 0 && |iv| == k.size && |data| % k.size == 0
    ensures var plain := Unpad(CbcDecrypt(k, iv, data), k.size);
            DecryptData(lib, Algorithm(AES256CBC, IV(iv)), key, data)
            == if plain == None then Failed(BadPadding) else Plain(plain.value)
  {
    assert Truncate(key, 32) == key;
  }

  lemma DecryptsData(lib: Library, der: Bytes, password: Bytes, salt: Bytes, iv: Bytes)
    requires StrongCipherWorks(lib, password, salt) && |iv| == 16
    ensures Encrypted(lib, der, password, salt, iv).Some?
    ensures var e := Encrypted(lib, der, password, salt, iv).value;
            DecryptData(lib, Algorithm(AES256CBC, IV(iv)), StrongKey(lib, password, salt), e.data) == Plain(der)
  {
    var k := lib.aes(StrongKey(lib, password, salt)).value;
    var sealed := CbcEncrypt(k, iv, Pad(der, k.size));
    EncryptedHolds(lib, der, password, salt, iv, k);
    PaddedDataDecrypts(k, iv, der);
    DecryptDataWith(lib, iv, StrongKey(lib, password, salt), k, sealed);
  }

  lemma EnvelopeDecrypts(lib: Library, password: Bytes, salt: Bytes, iv: Bytes, data: Bytes, e: EncryptedKey,
                         der: Bytes)
    requires e == Envelope(salt, iv, data) && lib.unmarshal(lib.marshal(e)) == Some(e)
    requires DecryptData(lib, Algorithm(AES256CBC, IV(iv)), StrongKey(lib, password, salt), data) == Plain(der)
    ensures DecryptPKCS8(lib, lib.marshal(e), password) == if lib.parses(der) then Plain(der) else Failed(NotAKey)
  {
    assert DeriveKey(lib, e.algorithm.parameters.kdf, password) == Plain(StrongKey(lib, password, salt));
  }

  /** The hash a PBKDF2 parameter names: HMAC-SHA-1 when there is none (appendix A.2 of RFC 8018). */
  predicate NamesHash(prf: Option<Oid>, h: Hash) {
    || (h == SHA1 && (prf == None || prf == Some(HmacSHA1)))
    || (h == SHA224 && prf == Some(HmacSHA224))
    || (h == SHA256 && prf == Some(HmacSHA256))
    || (h == SHA384 && prf == Some(HmacSHA384))
    || (h == SHA512 && prf == Some(HmacSHA512))
  }

  /** The key derivation gives this key for the password; an absent key length means 32 octets. */
  ghost predicate Derives(lib: Library, kdf: Algorithm, password: Bytes, key: Bytes) {
    || (exists h :: kdf.oid == PBKDF2 && kdf.parameters.Pbkdf2Params? && NamesHash(kdf.parameters.prf, h)
          && key == lib.pbkdf2(password, kdf.parameters.salt, kdf.parameters.iterations,
                               if kdf.parameters.keyLength == 0 then 32 else kdf.parameters.keyLength, h))
    || (kdf.oid == Scrypt && kdf.parameters.ScryptParameters?
        && lib.scrypt(password, kdf.parameters.scrypt,
                      if kdf.parameters.keyLength == 0 then 32 else kdf.parameters.keyLength) == Some(key))
  }

  /** How much of the key a scheme uses. */
  predicate UsesOctets(scheme: Oid, n: nat) {
    || (scheme == AES128CBC && n == 16) || (scheme == AES192CBC && n == 24)
    || (scheme == AES256CBC && n == 32) || (scheme == DESEDE3CBC && n == 24)
  }

  /** The scheme's cipher under the key. */
  ghost predicate CipherUnder(lib: Library, scheme: Oid, key: Bytes, k: Block) {
    exists n: nat | n <= 32 :: UsesOctets(scheme, n)
      && (if scheme == DESEDE3CBC then lib.tripleDES(if |key| > n then key[..n] else key)
          else lib.aes(if |key| > n then key[..n] else key)) == Some(k)
  }

  lemma DerivesExactly(lib: Library, kdf: Algorithm, password: Bytes, key: Bytes)
    ensures DeriveKey(lib, kdf, password) == Plain(key) <==> Derives(lib, kdf, password, key)
  {
    if kdf.oid == PBKDF2 && kdf.parameters.Pbkdf2Params? {
      var hash := PrfHash(kdf.parameters.prf);
      forall h ensures NamesHash(kdf.parameters.prf, h) <==> hash == Some(h) {}
    }
  }

  lemma CipherExactly(lib: Library, scheme: Oid, key: Bytes, k: Block)
    ensures CipherOf(lib, scheme, key) == Ok(Some(k)) <==> CipherUnder(lib, scheme, key, k)
  {
    assert UsesOctets(AES128CBC, 16) && UsesOctets(AES192CBC, 24) && UsesOctets(AES256CBC, 32);
    assert UsesOctets(DESEDE3CBC, 24);
  }

  /** Whatever key derivation and cipher of the supported ones another program chose, its envelope decrypts: the
      padded key under the scheme's cipher and the derived key reads back. */
  lemma ForeignEnvelopeDecrypts(lib: Library, der: Bytes, password: Bytes, kdf: Algorithm, scheme: Oid, iv: Bytes,
                                key: Bytes, k: Block, plain: Bytes, data: Bytes)
    requires Derives(lib, kdf, password, key) && CipherUnder(lib, scheme, key, k)
    requires IsCipher(k) && |iv| == k.size && lib.parses(plain)
    requires data == CbcEncrypt(k, iv, Pad(plain, k.size))
    requires lib.unmarshal(der)
          == Some(EncryptedKey(Algorithm(PBES2, Pbes2Params(kdf, Algorithm(scheme, IV(iv)))), data))
    ensures DecryptPKCS8(lib, der, password) == Plain(plain)
  {
    DerivesExactly(lib, kdf, password, key);
    CipherExactly(lib, scheme, key, k);
    SchemeDecrypts(lib, scheme, iv, key, k, plain, data);
  }

  lemma SchemeDecrypts(lib: Library, scheme: Oid, iv: Bytes, key: Bytes, k: Block, plain: Bytes, data: Bytes)
    requires CipherOf(lib, scheme, key) == Ok(Some(k)) && IsCipher(k) && |iv| == k.size
    requires data == CbcEncrypt(k, iv, Pad(plain, k.size))
    ensures DecryptData(lib, Algorithm(scheme, IV(iv)), key, data) == Plain(plain)
  {
    PaddedDataDecrypts(k, iv, plain);
  }

  /** Decrypting what `EncryptPKCS8` made, with the same password, gives back the key exactly when the key
      is well formed; anything else is reported as a wrong password. */
  lemma DecryptUndoesEncrypt(lib: Library, der: Bytes, password: Bytes, salt: Bytes, iv: Bytes, e: EncryptedKey)
    requires StrongCipherWorks(lib, password, salt) && |iv| == 16
    requires Encrypted(lib, der, password, salt, iv) == Some(e) && lib.unmarshal(lib.marshal(e)) == Some(e)
    ensures DecryptPKCS8(lib, lib.marshal(e), password) == if lib.parses(der) then Plain(der) else Failed(NotAKey)
  {
    DecryptsData(lib, der, password, salt, iv);
    EnvelopeDecrypts(lib, password, salt, iv, e.data, e, der);
  }

  /** The block cipher a readable envelope is decrypted with. */
  function EnvelopeCipher(lib: Library, epki: EncryptedKey, password: Bytes): Option<Block> {
    if !epki.algorithm.parameters.Pbes2Params? then None
    else
      var params := epki.algorithm.parameters;
      var key := DeriveKey(lib, params.kdf, password);
      if key.Failed? then None
      else
        var chosen := CipherOf(lib, params.scheme.oid, key.bytes);
        if chosen.Err? then None else chosen.value
  }

  lemma DecryptedDataReencrypts(k: Block, iv: Bytes, data: Bytes, plain: Bytes)
    requires IsCipher(k) && |data| % k.size == 0
    requires Unpad(CbcDecrypt(k, iv, data), k.size) == Some(plain)
    ensures CbcEncrypt(k, iv, Pad(plain, k.size)) == data
  {
    MultiplesAreWhole(k, |data|);
    CbcEncryptUndoesDecrypt(k, iv, data);
    PadUndoesUnpad(CbcDecrypt(k, iv, data), k.size);
  }

  /** Whatever decrypts is a well-formed key, and the stored ciphertext is exactly its padded encryption
      under the key, cipher and IV the file names. */
  lemma DecryptedKeyReencrypts(lib: Library, der: Bytes, password: Bytes, epki: EncryptedKey)
    requires lib.unmarshal(der) == Some(epki) && DecryptPKCS8(lib, der, password).Plain?
    requires EnvelopeCipher(lib, epki, password).Some? ==> IsCipher(EnvelopeCipher(lib, epki, password).value)
    ensures lib.parses(DecryptPKCS8(lib, der, password).bytes)
    ensures var k := EnvelopeCipher(lib, epki, password);
            && k.Some? && k.value.size > 0 && epki.algorithm.parameters.scheme.parameters.IV?
            && CbcEncrypt(k.value, epki.algorithm.parameters.scheme.parameters.iv,
                          Pad(DecryptPKCS8(lib, der, password).bytes, k.value.size)) == epki.data
  {
    var params := epki.algorithm.parameters;
    var k := EnvelopeCipher(lib, epki, password).value;
    DecryptedDataReencrypts(k, params.scheme.parameters.iv, epki.data, DecryptPKCS8(lib, der, password).bytes);
  }

  /** So with one password, IV and salt, different keys never share a ciphertext. */
  lemma EncryptionIsInjective(lib: Library, a: Bytes, b: Bytes, password: Bytes, salt: Bytes, iv: Bytes)
    requires StrongCipherWorks(lib, password, salt) && |iv| == 16
    requires Encrypted(lib, a, password, salt, iv) == Encrypted(lib, b, password, salt, iv)
    ensures a == b
  {
    DecryptsData(lib, a, password, salt, iv);
    DecryptsData(lib, b, password, salt, iv);
  }
}
