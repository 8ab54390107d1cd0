/** Reading a PEM file (`readPEM`) and rewriting its private keys under a new password
    (`reencryptPEMKeys`), which pairs blocks with parsed keys by counting. */
module PemReencryption {
  import opened CertTypes

  datatype Block = Block(kind: string, headers: map<string, string>, bytes: Bytes)

  /** The libraries the reader calls. `encryptPKCS8` takes the draw of salt and IV as a number. */
  datatype Lib = Lib(
    decode: Bytes -> Option<(Block, Bytes)>,
    encode: Block -> Bytes,
    parseCert: Bytes -> Option<Cert>,
    parseKey: (string, Bytes) -> Option<Key>,
    parseCSR: Bytes -> Option<Option<Bytes>>,
    parsePublicKey: Bytes -> bool,
    isEncryptedBlock: Block -> bool,
    decryptBlock: (Block, Bytes) -> Option<Bytes>,
    decryptPKCS8: (Bytes, Bytes) -> Option<Bytes>,
    encryptPKCS8: (Bytes, Bytes, nat) -> Bytes
  )

  /** `pem.Decode` consumes something whenever it finds a block. */
  ghost predicate Shrinks(lib: Lib) {
    forall d :: lib.decode(d).Some? ==> |lib.decode(d).value.1| < |d|
  }

  const PRIVATE := "PRIVATE KEY"
  const RSA := "RSA PRIVATE KEY"
  const EC := "EC PRIVATE KEY"
  const ENCRYPTED := "ENCRYPTED PRIVATE KEY"

  predicate IsKeyBlock(b: Block) {
    b.kind == PRIVATE || b.kind == RSA || b.kind == EC || b.kind == ENCRYPTED
  }

  /** The blocks `pem.Decode` finds in a file, in order. */
  ghost function Blocks(lib: Lib, data: Bytes): seq<Block>
    requires Shrinks(lib)
    decreases |data|
  {
    match lib.decode(data)
    case None => []
    case Some((b, rest)) => [b] + Blocks(lib, rest)
  }

  // ---------------------------------------------------------------------------------------------
  // Reading one block
  // ---------------------------------------------------------------------------------------------

  function WithEmpty(passwords: seq<Bytes>): seq<Bytes> {
    if [] in passwords then passwords else passwords + [[]]
  }

  /** What decrypting with the first password that works gives: the key, its bytes, the password. */
  datatype Unlocked = Unlocked(key: Key, plain: Bytes, password: Bytes)

  datatype Scheme = LegacyBlock(parser: string) | PKCS8Data

  /** One password on one block: decrypts and then parses. */
  function Try(lib: Lib, b: Block, scheme: Scheme, password: Bytes): Option<Unlocked> {
    var plain := match scheme { case LegacyBlock(_) => lib.decryptBlock(b, password)
        case PKCS8Data => lib.decryptPKCS8(b.bytes, password) };
    var parser := match scheme { case LegacyBlock(p) => p case PKCS8Data => PRIVATE };
    match plain
    case None => None
    case Some(der) =>
      match lib.parseKey(parser, der)
      case None => None
      case Some(key) => Some(Unlocked(key, der, password))
  }

  function FirstUnlock(lib: Lib, b: Block, scheme: Scheme, passwords: seq<Bytes>): Option<Unlocked> {
    if passwords == [] then None
    else if Try(lib, b, scheme, passwords[0]).Some? then Try(lib, b, scheme, passwords[0])
    else FirstUnlock(lib, b, scheme, passwords[1..])
  }

  /** Everything one block does to the container. */
  datatype Reading = Reading(items: seq<Item>, errors: nat, password: Option<Bytes>)

  function Plain(kind: ContentType): Item {
    Item(kind, "", None, None, None, false, None, [])
  }

  function KeyItem(key: Option<Key>, encrypted: bool): Item {
    Plain(PrivateKey).(key := key, encrypted := encrypted)
  }

  function ReadLocked(u: Option<Unlocked>): Reading {
    match u
    case Some(u) => Reading([KeyItem(Some(u.key), true)], 0, Some(u.password))
    case None => Reading([KeyItem(None, true)], 1, None)
  }

  function ReadBlock(lib: Lib, b: Block, passwords: seq<Bytes>): Reading {
    var nothing := Reading([], 1, None);
    if b.kind == "CERTIFICATE" then
      match lib.parseCert(b.bytes)
      case Some(c) => Reading([Plain(Certificate).(certificate := Some(c))], 0, None)
      case None => nothing
    else if b.kind == PRIVATE || b.kind == RSA || b.kind == EC then
      if lib.isEncryptedBlock(b) then ReadLocked(FirstUnlock(lib, b, LegacyBlock(b.kind), WithEmpty(passwords)))
      else
        match lib.parseKey(b.kind, b.bytes)
        case Some(key) => Reading([KeyItem(Some(key), false)], 0, None)
        case None => nothing
    else if b.kind == ENCRYPTED then
      var modern := FirstUnlock(lib, b, PKCS8Data, WithEmpty(passwords));
      ReadLocked(if modern.Some? then modern else FirstUnlock(lib, b, LegacyBlock(PRIVATE), WithEmpty(passwords)))
    else if b.kind == "CERTIFICATE REQUEST" || b.kind == "NEW CERTIFICATE REQUEST" then
      match lib.parseCSR(b.bytes)
      case Some(pub) => Reading([Plain(CSR).(csrPublicKey := pub)], 0, None)
      case None => nothing
    else if b.kind == "PUBLIC KEY" then
      if lib.parsePublicKey(b.bytes) then Reading([Plain(PublicKey)], 0, None) else nothing
    else Reading([], 0, None)
  }

  /** The key a private-key block holds, read on its own. */
  function KeyOf(lib: Lib, b: Block, passwords: seq<Bytes>): Option<Key> {
    var items := ReadBlock(lib, b, passwords).items;
    if |items| == 1 then items[0].key else None
  }

  lemma KeyBlockReading(lib: Lib, b: Block, passwords: seq<Bytes>)
    ensures var items := ReadBlock(lib, b, passwords).items;
            if IsKeyBlock(b) then
              (items == [] && KeyOf(lib, b, passwords) == None)
              || (|items| == 1 && items[0].kind == PrivateKey && items[0].key == KeyOf(lib, b, passwords))
            else forall it <- items :: it.kind != PrivateKey
  {}

  // ---------------------------------------------------------------------------------------------
  // Which key a block gives, and with which password
  // ---------------------------------------------------------------------------------------------

  /** The key one password opens a PKCS#8-encrypted block to. */
  function ModernKey(lib: Lib, b: Block, password: Bytes): Option<Key> {
    var plain := lib.decryptPKCS8(b.bytes, password);
    if plain.Some? then lib.parseKey("PRIVATE KEY", plain.value) else None
  }

  /** The key one password opens a block with an encryption header to, read as this kind of key. */
  function LegacyKey(lib: Lib, b: Block, kind: string, password: Bytes): Option<Key> {
    var plain := lib.decryptBlock(b, password);
    if plain.Some? then lib.parseKey(kind, plain.value) else None
  }

  function ModernWith(lib: Lib, b: Block): Bytes -> Option<Key> {
    (p: Bytes) => ModernKey(lib, b, p)
  }

  function LegacyWith(lib: Lib, b: Block, kind: string): Bytes -> Option<Key> {
    (p: Bytes) => LegacyKey(lib, b, kind, p)
  }

  /** The passwords given, and the empty one after them. */
  function Candidate(passwords: seq<Bytes>, i: nat): Bytes {
    if i < |passwords| then passwords[i] else []
  }

  predicate OpensFirst(keyWith: Bytes -> Option<Key>, passwords: seq<Bytes>, i: nat, key: Key) {
    && i <= |passwords| && keyWith(Candidate(passwords, i)) == Some(key)
    && forall j: nat | j < i :: keyWith(Candidate(passwords, j)) == None
  }

  /** The first of the passwords, or else the empty one, that opens it gives this key. */
  ghost predicate Opens(keyWith: Bytes -> Option<Key>, passwords: seq<Bytes>, key: Key, password: Bytes) {
    exists i: nat :: OpensFirst(keyWith, passwords, i, key) && password == Candidate(passwords, i)
  }

  predicate OpensNever(keyWith: Bytes -> Option<Key>, passwords: seq<Bytes>) {
    keyWith([]) == None && forall p <- passwords :: keyWith(p) == None
  }

  /** The block is read as this key, with this password when one was needed: an encrypted PKCS#8 block by PKCS#8
      decryption, and only when no password opens it so, by its header; the other kinds by their header when they have
      an encryption header, and plainly otherwise. */
  ghost predicate ReadsAs(lib: Lib, b: Block, passwords: seq<Bytes>, key: Key, password: Option<Bytes>) {
    if b.kind == "ENCRYPTED PRIVATE KEY" then
      && password.Some?
      && (Opens(ModernWith(lib, b), passwords, key, password.value)
          || (OpensNever(ModernWith(lib, b), passwords)
              && Opens(LegacyWith(lib, b, "PRIVATE KEY"), passwords, key, password.value)))
    else
      && (b.kind == "PRIVATE KEY" || b.kind == "RSA PRIVATE KEY" || b.kind == "EC PRIVATE KEY")
      && if lib.isEncryptedBlock(b) then
           password.Some? && Opens(LegacyWith(lib, b, b.kind), passwords, key, password.value)
         else password == None && lib.parseKey(b.kind, b.bytes) == Some(key)
  }

  function KeyWith(lib: Lib, b: Block, scheme: Scheme): Bytes -> Option<Key> {
    match scheme
    case PKCS8Data => ModernWith(lib, b)
    case LegacyBlock(kind) => LegacyWith(lib, b, kind)
  }

  lemma TryExactly(lib: Lib, b: Block, scheme: Scheme, password: Bytes)
    ensures Try(lib, b, scheme, password).Some? <==> KeyWith(lib, b, scheme)(password).Some?
    ensures var u := Try(lib, b, scheme, password);
            u.Some? ==> u.value.password == password && KeyWith(lib, b, scheme)(password) == Some(u.value.key)
  {}

  /** Trying a list gives the first password of it that opens, wherever it stands. */
  lemma {:induction false} FirstUnlockExactly(lib: Lib, b: Block, scheme: Scheme, list: seq<Bytes>)
    ensures var u := FirstUnlock(lib, b, scheme, list);
            var keyWith := KeyWith(lib, b, scheme);
            if u.None? then forall p <- list :: keyWith(p) == None
            else exists i: nat :: FoundAt(keyWith, list, i, u.value.key, u.value.password)
  {
    if list != [] {
      TryExactly(lib, b, scheme, list[0]);
      if Try(lib, b, scheme, list[0]).Some? {
        var u := Try(lib, b, scheme, list[0]).value;
        assert FoundAt(KeyWith(lib, b, scheme), list, 0, u.key, u.password);
      } else {
        FirstUnlockExactly(lib, b, scheme, list[1..]);
        assert list == [list[0]] + list[1..];
        var u := FirstUnlock(lib, b, scheme, list[1..]);
        if u.Some? {
          var i: nat :| FoundAt(KeyWith(lib, b, scheme), list[1..], i, u.value.key, u.value.password);
          FoundLater(KeyWith(lib, b, scheme), list, i, u.value.key, u.value.password);
        }
      }
    }
  }

  predicate FoundAt(keyWith: Bytes -> Option<Key>, list: seq<Bytes>, i: nat, key: Key, password: Bytes) {
    && i < |list| && list[i] == password && keyWith(password) == Some(key)
    && forall j: nat | j < i :: keyWith(list[j]) == None
  }

  lemma FoundLater(keyWith: Bytes -> Option<Key>, list: seq<Bytes>, i: nat, key: Key, password: Bytes)
    requires list != [] && keyWith(list[0]) == None && FoundAt(keyWith, list[1..], i, key, password)
    ensures FoundAt(keyWith, list, i + 1, key, password)
  {
    forall j: nat | j < i + 1 ensures keyWith(list[j]) == None {
      if j > 0 {
        assert list[j] == list[1..][j - 1];
      }
    }
  }

  /** The empty password is tried last, or where it stands among the given ones. */
  lemma UnlockedExactly(lib: Lib, b: Block, scheme: Scheme, passwords: seq<Bytes>)
    ensures var u := FirstUnlock(lib, b, scheme, WithEmpty(passwords));
            var keyWith := KeyWith(lib, b, scheme);
            if u.None? then OpensNever(keyWith, passwords)
            else Opens(keyWith, passwords, u.value.key, u.value.password)
  {
    var all := WithEmpty(passwords);
    FirstUnlockExactly(lib, b, scheme, all);
    assert [] in all;
    assert forall p <- passwords :: p in all;
    var u := FirstUnlock(lib, b, scheme, all);
    if u.Some? {
      var keyWith := KeyWith(lib, b, scheme);
      var i: nat :| FoundAt(keyWith, all, i, u.value.key, u.value.password);
      forall j: nat | j <= i ensures Candidate(passwords, j) == all[j] {}
      assert OpensFirst(keyWith, passwords, i, u.value.key);
    }
  }

  lemma OpensOnce(keyWith: Bytes -> Option<Key>, passwords: seq<Bytes>, k1: Key, p1: Bytes, k2: Key, p2: Bytes)
    requires Opens(keyWith, passwords, k1, p1) && Opens(keyWith, passwords, k2, p2)
    ensures k1 == k2 && p1 == p2
  {
    var i: nat :| OpensFirst(keyWith, passwords, i, k1) && p1 == Candidate(passwords, i);
    var j: nat :| OpensFirst(keyWith, passwords, j, k2) && p2 == Candidate(passwords, j);
    FirstIsLeast(keyWith, passwords, i, k1, j);
    FirstIsLeast(keyWith, passwords, j, k2, i);
  }

  lemma FirstIsLeast(keyWith: Bytes -> Option<Key>, passwords: seq<Bytes>, i: nat, key: Key, j: nat)
    requires OpensFirst(keyWith, passwords, i, key) && keyWith(Candidate(passwords, j)).Some?
    ensures i <= j
  {}

  lemma OpensOrNever(keyWith: Bytes -> Option<Key>, passwords: seq<Bytes>, key: Key, password: Bytes)
    requires Opens(keyWith, passwords, key, password)
    ensures !OpensNever(keyWith, passwords)
  {
    var i: nat :| OpensFirst(keyWith, passwords, i, key) && password == Candidate(passwords, i);
    assert i < |passwords| ==> passwords[i] in passwords;
  }

  lemma LockedReading(lib: Lib, b: Block, scheme: Scheme, passwords: seq<Bytes>, key: Key, password: Bytes)
    ensures var u := FirstUnlock(lib, b, scheme, WithEmpty(passwords));
            && (u.Some? && u.value.key == key && u.value.password == password <==>
                Opens(KeyWith(lib, b, scheme), passwords, key, password))
            && (u.None? <==> OpensNever(KeyWith(lib, b, scheme), passwords))
  {
    UnlockedExactly(lib, b, scheme, passwords);
    var u, keyWith := FirstUnlock(lib, b, scheme, WithEmpty(passwords)), KeyWith(lib, b, scheme);
    if u.Some? {
      OpensOrNever(keyWith, passwords, u.value.key, u.value.password);
    }
    if Opens(keyWith, passwords, key, password) {
      OpensOrNever(keyWith, passwords, key, password);
      if u.Some? {
        OpensOnce(keyWith, passwords, u.value.key, u.value.password, key, password);
      }
    }
  }

  /** A block is read as a key, with a password or without one, exactly when it says so. */
  lemma BlockReadExactly(lib: Lib, b: Block, passwords: seq<Bytes>, key: Key, password: Option<Bytes>)
    ensures KeyOf(lib, b, passwords) == Some(key) && ReadBlock(lib, b, passwords).password == password <==>
              ReadsAs(lib, b, passwords, key, password)
  {
    if b.kind == ENCRYPTED {
      EncryptedReadExactly(lib, b, passwords, key, password);
    } else if (b.kind == PRIVATE || b.kind == RSA || b.kind == EC) && lib.isEncryptedBlock(b) {
      LegacyReadExactly(lib, b, passwords, key, password);
    }
  }

  lemma LegacyReadExactly(lib: Lib, b: Block, passwords: seq<Bytes>, key: Key, password: Option<Bytes>)
    requires (b.kind == PRIVATE || b.kind == RSA || b.kind == EC) && lib.isEncryptedBlock(b)
    ensures KeyOf(lib, b, passwords) == Some(key) && ReadBlock(lib, b, passwords).password == password <==>
              ReadsAs(lib, b, passwords, key, password)
  {
    if password.Some? {
      LockedReading(lib, b, LegacyBlock(b.kind), passwords, key, password.value);
    }
  }

  lemma EncryptedReadExactly(lib: Lib, b: Block, passwords: seq<Bytes>, key: Key, password: Option<Bytes>)
    requires b.kind == ENCRYPTED
    ensures KeyOf(lib, b, passwords) == Some(key) && ReadBlock(lib, b, passwords).password == password <==>
              ReadsAs(lib, b, passwords, key, password)
  {
    if password.Some? {
      LockedReading(lib, b, PKCS8Data, passwords, key, password.value);
      LockedReading(lib, b, LegacyBlock(PRIVATE), passwords, key, password.value);
      if Opens(ModernWith(lib, b), passwords, key, password.value) {
        OpensOrNever(ModernWith(lib, b), passwords, key, password.value);
      }
    }
  }

  // ---------------------------------------------------------------------------------------------
  // Reading a file
  // ---------------------------------------------------------------------------------------------

  function ReadAll(lib: Lib, blocks: seq<Block>, passwords: seq<Bytes>): Reading {
    if blocks == [] then Reading([], 0, None)
    else
      var before := ReadAll(lib, blocks[..|blocks| - 1], passwords);
      var last := ReadBlock(lib, blocks[|blocks| - 1], passwords);
      Reading(before.items + last.items, before.errors + last.errors,
              if last.password.Some? then last.password else before.password)
  }

  lemma ReadAllStep(lib: Lib, done: seq<Block>, b: Block, passwords: seq<Bytes>)
    ensures var before, last := ReadAll(lib, done, passwords), ReadBlock(lib, b, passwords);
            ReadAll(lib, done + [b], passwords)
            == Reading(before.items + last.items, before.errors + last.errors,
                       if last.password.Some? then last.password else before.password)
  {
    assert (done + [b])[..|done|] == done;
  }

  class Container {
    var items: seq<Item>
    var errors: nat
    var password: Option<Bytes>

    constructor ()
      ensures State() == Reading([], 0, None)
    {
      items, errors, password := [], 0, None;
    }

    function State(): Reading
      reads this
    {
      Reading(items, errors, password)
    }

    /** `decryptLegacyPEMKey`: appends the item whether or not a password worked. */
    method DecryptLegacyKey(lib: Lib, b: Block, parser: string, passwords: seq<Bytes>)
      modifies this
      ensures var r := ReadLocked(FirstUnlock(lib, b, LegacyBlock(parser), passwords));
              State() == Reading(old(items) + r.items, old(errors) + r.errors, if r.password.Some? then r.password
                  else old(password))
    {
      var u := UnlockWith(lib, b, LegacyBlock(parser), passwords);
      if u.Some? {
        password := Some(u.value.password);
        items := items + [KeyItem(Some(u.value.key), true)];
        return;
      }
      errors := errors + 1;
      items := items + [KeyItem(None, true)];
    }

    method Add(item: Item)
      modifies this
      ensures State() == old(State()).(items := old(items) + [item])
    {
      items := items + [item];
    }

    method AddError()
      modifies this
      ensures State() == old(State()).(errors := old(errors) + 1)
    {
      errors := errors + 1;
    }

    /** One turn of the reading loop. */
    method Take(lib: Lib, b: Block, passwords: seq<Bytes>)
      modifies this
      ensures var r := ReadBlock(lib, b, passwords);
              State() == Reading(old(items) + r.items, old(errors) + r.errors, if r.password.Some? then r.password
                  else old(password))
    {
      if b.kind == "CERTIFICATE" {
        var c := lib.parseCert(b.bytes);
        if c.Some? { Add(Plain(Certificate).(certificate := c)); } else { AddError(); }
      } else if b.kind == PRIVATE || b.kind == RSA || b.kind == EC {
        if lib.isEncryptedBlock(b) {
          DecryptLegacyKey(lib, b, b.kind, WithEmpty(passwords));
        } else {
          var key := lib.parseKey(b.kind, b.bytes);
          if key.Some? { Add(KeyItem(key, false)); } else { AddError(); }
        }
      } else if b.kind == ENCRYPTED {
        var u := UnlockWith(lib, b, PKCS8Data, WithEmpty(passwords));
        if u.None? {
          u := UnlockWith(lib, b, LegacyBlock(PRIVATE), WithEmpty(passwords));
        }
        if u.Some? {
          password := Some(u.value.password);
          Add(KeyItem(Some(u.value.key), true));
        } else {
          AddError();
          Add(KeyItem(None, true));
        }
      } else if b.kind == "CERTIFICATE REQUEST" || b.kind == "NEW CERTIFICATE REQUEST" {
        var pub := lib.parseCSR(b.bytes);
        if pub.Some? { Add(Plain(CSR).(csrPublicKey := pub.value)); } else { AddError(); }
      } else if b.kind == "PUBLIC KEY" {
        if lib.parsePublicKey(b.bytes) { Add(Plain(PublicKey)); } else { AddError(); }
      }
    }
  }

  method UnlockWith(lib: Lib, b: Block, scheme: Scheme, passwords: seq<Bytes>) returns (u: Option<Unlocked>)
    ensures u == FirstUnlock(lib, b, scheme, passwords)
  {
    for i := 0 to |passwords|
      invariant FirstUnlock(lib, b, scheme, passwords) == FirstUnlock(lib, b, scheme, passwords[i..])
    {
      assert passwords[i..][1..] == passwords[i + 1..];
      u := Try(lib, b, scheme, passwords[i]);
      if u.Some? {
        return;
      }
    }
    assert passwords[|passwords|..] == [];
    u := None;
  }

  /** `None` when the file yields neither an item nor an error. */
  method ReadPEM(lib: Lib, data: Bytes, passwords: seq<Bytes>) returns (c: Option<Container>)
    requires Shrinks(lib)
    ensures c.Some? ==> fresh(c.value) && c.value.State() == ReadAll(lib, Blocks(lib, data), passwords)
    ensures c.None? <==>
              ReadAll(lib, Blocks(lib, data), passwords).items == []
                  && ReadAll(lib, Blocks(lib, data), passwords).errors == 0
  {
    var container := new Container();
    var remaining := data;
    ghost var done: seq<Block> := [];
    var next := lib.decode(remaining);
    while next.Some?
      invariant next == lib.decode(remaining)
      invariant fresh(container)
      invariant done + Blocks(lib, remaining) == Blocks(lib, data)
      invariant container.State() == ReadAll(lib, done, passwords)
      decreases |remaining|
    {
      var (b, rest) := next.value;
      container.Take(lib, b, passwords);
      ReadAllStep(lib, done, b, passwords);
      BlocksStep(lib, done, remaining, b, rest);
      done := done + [b];
      remaining := rest;
      next := lib.decode(remaining);
    }
    assert done == Blocks(lib, data);
    c := if |container.items| == 0 && container.errors == 0 then None else Some(container);
  }

  predicate HoldsCert(lib: Lib, b: Block, c: Cert) {
    b.kind == "CERTIFICATE" && lib.parseCert(b.bytes) == Some(c)
  }

  predicate HasCertItem(items: seq<Item>, c: Cert) {
    exists it <- items :: it.kind == Certificate && it.certificate == Some(c)
  }

  predicate SomeBlockHolds(lib: Lib, blocks: seq<Block>, c: Cert) {
    exists b <- blocks :: HoldsCert(lib, b, c)
  }

  lemma BlockCertExactly(lib: Lib, b: Block, passwords: seq<Bytes>, c: Cert)
    ensures HasCertItem(ReadBlock(lib, b, passwords).items, c) <==> HoldsCert(lib, b, c)
  {
    if HoldsCert(lib, b, c) {
      assert ReadBlock(lib, b, passwords).items[0].certificate == Some(c);
      assert ReadBlock(lib, b, passwords).items[0] in ReadBlock(lib, b, passwords).items;
    }
  }

  /** The certificates read from a file are those of its certificate blocks that parse. */
  lemma {:induction false} FileCertsExactly(lib: Lib, blocks: seq<Block>, passwords: seq<Bytes>, c: Cert)
    ensures HasCertItem(ReadAll(lib, blocks, passwords).items, c) <==> SomeBlockHolds(lib, blocks, c)
  {
    if blocks != [] {
      var front, last := blocks[..|blocks| - 1], blocks[|blocks| - 1];
      FileCertsExactly(lib, front, passwords, c);
      BlockCertExactly(lib, last, passwords, c);
      CertItemOfBoth(ReadAll(lib, front, passwords).items, ReadBlock(lib, last, passwords).items, c);
      assert blocks == front + [last];
      if SomeBlockHolds(lib, front, c) {
        var b :| b in front && HoldsCert(lib, b, c);
        assert b in blocks;
      }
      assert last in blocks;
    }
  }

  lemma CertItemOfBoth(a: seq<Item>, b: seq<Item>, c: Cert)
    ensures HasCertItem(a + b, c) <==> HasCertItem(a, c) || HasCertItem(b, c)
  {
    if it :| it in a && it.kind == Certificate && it.certificate == Some(c) {
      assert it in a + b;
    }
    if it :| it in b && it.kind == Certificate && it.certificate == Some(c) {
      assert it in a + b;
    }
  }

  // ---------------------------------------------------------------------------------------------
  // Rewriting the keys
  // ---------------------------------------------------------------------------------------------

  function KeyItems(items: seq<Item>): seq<Item> {
    if items == [] then []
    else
      var last := items[|items| - 1];
      if last.kind == PrivateKey then KeyItems(items[..|items| - 1]) + [last] else KeyItems(items[..|items| - 1])
  }

  method PrivateKeyItems(items: seq<Item>) returns (keys: seq<Item>)
    ensures keys == KeyItems(items)
  {
    keys := [];
    for i := 0 to |items|
      invariant keys == KeyItems(items[..i])
    {
      assert items[..i + 1][..i] == items[..i];
      if items[i].kind == PrivateKey {
        keys := keys + [items[i]];
      }
    }
    assert items[..|items|] == items;
  }

  /** The block a key is written as: encrypted under the new password, or plain without one. */
  function NewBlock(lib: Lib, der: Bytes, newPassword: Bytes, draw: nat): Block {
    if newPassword != [] then Block(ENCRYPTED, map[], lib.encryptPKCS8(der, newPassword, draw))
    else Block(PRIVATE, map[], der)
  }

  /** `reencodePEMKey`; fails without a parsed key or when the key does not marshal. */
  function Reencode(lib: Lib, key: Option<Key>, newPassword: Bytes, draw: nat): Option<Block> {
    if key.Some? && key.value.pkcs8.Some? then Some(NewBlock(lib, key.value.pkcs8.value, newPassword, draw)) else None
  }

  function CountKeys(blocks: seq<Block>): nat {
    if blocks == [] then 0
    else CountKeys(blocks[..|blocks| - 1]) + if IsKeyBlock(blocks[|blocks| - 1]) then 1 else 0
  }

  /** The rewritten blocks: the i-th key block takes `keys[i]`, every other block stays. */
  function Rewritten(lib: Lib, blocks: seq<Block>, keys: seq<Item>, newPassword: Bytes): seq<Block>
    requires CanReencode(lib, keys, newPassword, CountKeys(blocks))
  {
    if blocks == [] then []
    else
      var n := |blocks| - 1;
      Rewritten(lib, blocks[..n], keys, newPassword)
      + if IsKeyBlock(blocks[n]) then [Reencode(lib, keys[CountKeys(blocks[..n])].key, newPassword,
          CountKeys(blocks[..n])).value]
        else [blocks[n]]
  }

  function EncodeAll(lib: Lib, blocks: seq<Block>): Bytes {
    if blocks == [] then [] else EncodeAll(lib, blocks[..|blocks| - 1]) + lib.encode(blocks[|blocks| - 1])
  }

  predicate CanReencode(lib: Lib, keys: seq<Item>, newPassword: Bytes, n: nat) {
    n <= |keys| && forall i :: 0 <= i < n ==> Reencode(lib, keys[i].key, newPassword, i).Some?
  }

  lemma CountKeysStep(done: seq<Block>, b: Block)
    ensures CountKeys(done + [b]) == CountKeys(done) + if IsKeyBlock(b) then 1 else 0
  {
    assert (done + [b])[..|done|] == done;
  }

  lemma RewrittenStep(lib: Lib, done: seq<Block>, b: Block, written: Block, keys: seq<Item>, newPassword: Bytes)
    requires CanReencode(lib, keys, newPassword, CountKeys(done + [b])) && CountKeys(done) <= CountKeys(done + [b])
    requires if IsKeyBlock(b) then
               CountKeys(done) < |keys| && Reencode(lib, keys[CountKeys(done)].key, newPassword, CountKeys(done))
                   == Some(written)
             else written == b
    ensures EncodeAll(lib, Rewritten(lib, done + [b], keys, newPassword))
            == EncodeAll(lib, Rewritten(lib, done, keys, newPassword)) + lib.encode(written)
  {
    assert (done + [b])[..|done|] == done;
    var before := Rewritten(lib, done, keys, newPassword);
    assert (before + [written])[..|before|] == before;
  }

  /** One block rewritten: a key block takes the next key, and fails without one. */
  method RewriteBlock(lib: Lib, b: Block, keys: seq<Item>, ki: nat, newPassword: Bytes) returns (out: Option<Block>)
    ensures out == if !IsKeyBlock(b) then Some(b)
                   else if ki < |keys| then Reencode(lib, keys[ki].key, newPassword, ki) else None
  {
    if !IsKeyBlock(b) {
      return Some(b);
    }
    out := if ki < |keys| then Reencode(lib, keys[ki].key, newPassword, ki) else None;
  }

  /** The loop's state: `done` is rewritten into `all` using the first `ki` keys. */
  ghost predicate Rewriting(lib: Lib, blocks: seq<Block>, done: seq<Block>, remaining: Bytes, keys: seq<Item>,
                            newPassword: Bytes, ki: nat, all: Bytes)
    requires Shrinks(lib)
  {
    && done + Blocks(lib, remaining) == blocks
    && ki == CountKeys(done) && CanReencode(lib, keys, newPassword, ki)
    && all == EncodeAll(lib, Rewritten(lib, done, keys, newPassword))
  }

  lemma RewritingStep(lib: Lib, blocks: seq<Block>, done: seq<Block>, remaining: Bytes, keys: seq<Item>,
                      newPassword: Bytes, ki: nat, all: Bytes,
                      b: Block, rest: Bytes, written: Option<Block>)
    requires Shrinks(lib) && Rewriting(lib, blocks, done, remaining, keys, newPassword, ki, all)
    requires lib.decode(remaining) == Some((b, rest))
    requires written == if !IsKeyBlock(b) then Some(b)
                        else if ki < |keys| then Reencode(lib, keys[ki].key, newPassword, ki) else None
    ensures written.Some? ==> Rewriting(lib, blocks, done + [b], rest, keys, newPassword, if IsKeyBlock(b)
        then ki + 1 else ki, all + lib.encode(written.value))
    ensures written.None? ==> !CanReencode(lib, keys, newPassword, CountKeys(blocks))
  {
    BlocksStep(lib, done, remaining, b, rest);
    CountKeysStep(done, b);
    if written.Some? {
      RewrittenStep(lib, done, b, written.value, keys, newPassword);
    } else {
      CountKeysAppend(done + [b], Blocks(lib, rest));
    }
  }

  method ReencryptKeys(lib: Lib, data: Bytes, items: seq<Item>, newPassword: Bytes) returns (out: Option<Bytes>)
    requires Shrinks(lib)
    ensures out.Some? <==> CanReencode(lib, KeyItems(items), newPassword, CountKeys(Blocks(lib, data)))
    ensures out.Some? ==> out.value == EncodeAll(lib, Rewritten(lib, Blocks(lib, data), KeyItems(items), newPassword))
  {
    var keys := PrivateKeyItems(items);
    var ki, all := 0, [];
    var remaining := data;
    ghost var blocks, done: seq<Block> := Blocks(lib, data), [];
    var next := lib.decode(remaining);
    while next.Some?
      invariant next == lib.decode(remaining)
      invariant Rewriting(lib, blocks, done, remaining, keys, newPassword, ki, all)
      decreases |remaining|
    {
      var (b, rest) := next.value;
      var written := RewriteBlock(lib, b, keys, ki, newPassword);
      RewritingStep(lib, blocks, done, remaining, keys, newPassword, ki, all, b, rest, written);
      if written.None? {
        return None;
      }
      if IsKeyBlock(b) {
        ki := ki + 1;
      }
      all := all + lib.encode(written.value);
      done := done + [b];
      remaining := rest;
      next := lib.decode(remaining);
    }
    assert done == blocks;
    return Some(all);
  }

  lemma BlocksStep(lib: Lib, done: seq<Block>, remaining: Bytes, b: Block, rest: Bytes)
    requires Shrinks(lib) && lib.decode(remaining) == Some((b, rest))
    ensures done + Blocks(lib, remaining) == done + [b] + Blocks(lib, rest)
  {}

  lemma {:induction false} CountKeysAppend(a: seq<Block>, b: seq<Block>)
    ensures CountKeys(a + b) == CountKeys(a) + CountKeys(b)
  {
    if b == [] {
      assert a + b == a;
    } else {
      assert (a + b)[..|a + b| - 1] == a + b[..|b| - 1];
      CountKeysAppend(a, b[..|b| - 1]);
    }
  }

  // ---------------------------------------------------------------------------------------------
  // Keys and blocks stay aligned
  // ---------------------------------------------------------------------------------------------

  lemma {:induction false} KeyItemsAppend(a: seq<Item>, b: seq<Item>)
    ensures KeyItems(a + b) == KeyItems(a) + KeyItems(b)
  {
    if b == [] {
      assert a + b == a;
    } else {
      assert (a + b)[..|a + b| - 1] == a + b[..|b| - 1];
      KeyItemsAppend(a, b[..|b| - 1]);
    }
  }

  lemma KeyItemsOfBlock(lib: Lib, b: Block, passwords: seq<Bytes>)
    ensures var keys := KeyItems(ReadBlock(lib, b, passwords).items);
            if IsKeyBlock(b) then keys == ReadBlock(lib, b, passwords).items && |keys| <= 1 else keys == []
  {
    KeyBlockReading(lib, b, passwords);
    var items := ReadBlock(lib, b, passwords).items;
    if |items| == 1 {
      assert items[..0] == [];
    }
  }

  function KeysRead(lib: Lib, blocks: seq<Block>, passwords: seq<Bytes>): seq<Item> {
    KeyItems(ReadAll(lib, blocks, passwords).items)
  }

  lemma KeysReadStep(lib: Lib, before: seq<Block>, b: Block, passwords: seq<Bytes>)
    ensures KeysRead(lib, before + [b], passwords) == KeysRead(lib, before, passwords)
              + if IsKeyBlock(b) then ReadBlock(lib, b, passwords).items else []
    ensures IsKeyBlock(b) ==> |ReadBlock(lib, b, passwords).items| <= 1
    ensures IsKeyBlock(b) && |ReadBlock(lib, b, passwords).items| == 1 ==>
              ReadBlock(lib, b, passwords).items[0].key == KeyOf(lib, b, passwords)
  {
    assert (before + [b])[..|before|] == before;
    KeyItemsAppend(ReadAll(lib, before, passwords).items, ReadBlock(lib, b, passwords).items);
    KeyItemsOfBlock(lib, b, passwords);
    KeyBlockReading(lib, b, passwords);
  }

  /** At most one key item per key block. */
  lemma {:induction false} NoMoreKeysThanBlocks(lib: Lib, blocks: seq<Block>, passwords: seq<Bytes>)
    ensures |KeysRead(lib, blocks, passwords)| <= CountKeys(blocks)
  {
    if blocks != [] {
      var n := |blocks| - 1;
      NoMoreKeysThanBlocks(lib, blocks[..n], passwords);
      assert blocks == blocks[..n] + [blocks[n]];
      KeysReadStep(lib, blocks[..n], blocks[n], passwords);
    }
  }

  /** With as many key items as key blocks nothing was skipped, and the item at the position of a
      block is the key of that very block. */
  lemma {:induction false} KeysAlign(lib: Lib, blocks: seq<Block>, passwords: seq<Bytes>, j: nat)
    requires |KeysRead(lib, blocks, passwords)| == CountKeys(blocks)
    requires j < |blocks| && IsKeyBlock(blocks[j])
    ensures KeyAt(lib, blocks, passwords, j)
  {
    var n := |blocks| - 1;
    var before := blocks[..n];
    assert blocks == before + [blocks[n]];
    KeysReadStep(lib, before, blocks[n], passwords);
    NoMoreKeysThanBlocks(lib, before, passwords);
    assert blocks[..j] == before[..j];
    if j < n {
      KeysAlign(lib, before, passwords, j);
    }
  }

  /** With fewer, some key block gives no key. */
  lemma {:induction false} SkippedBlock(lib: Lib, blocks: seq<Block>, passwords: seq<Bytes>) returns (j: nat)
    requires |KeysRead(lib, blocks, passwords)| < CountKeys(blocks)
    ensures j < |blocks| && IsKeyBlock(blocks[j]) && KeyOf(lib, blocks[j], passwords) == None
  {
    var n := |blocks| - 1;
    assert blocks == blocks[..n] + [blocks[n]];
    KeysReadStep(lib, blocks[..n], blocks[n], passwords);
    if |KeysRead(lib, blocks[..n], passwords)| < CountKeys(blocks[..n]) {
      j := SkippedBlock(lib, blocks[..n], passwords);
    } else {
      j := n;
    }
  }

  predicate KeyAt(lib: Lib, blocks: seq<Block>, passwords: seq<Bytes>, j: nat)
    requires j < |blocks|
  {
    var keys, k := KeysRead(lib, blocks, passwords), CountKeys(blocks[..j]);
    k < |keys| && keys[k].key == KeyOf(lib, blocks[j], passwords)
  }

  /** The block holds a key that can be read and marshalled. */
  ghost predicate KeyReady(lib: Lib, b: Block, passwords: seq<Bytes>) {
    exists key, password :: ReadsAs(lib, b, passwords, key, password) && key.pkcs8.Some?
  }

  predicate IsPrivateKey(b: Block) {
    b.kind in ["PRIVATE KEY", "RSA PRIVATE KEY", "EC PRIVATE KEY", "ENCRYPTED PRIVATE KEY"]
  }

  lemma KeyReadyMeans(lib: Lib, b: Block, passwords: seq<Bytes>)
    ensures KeyReady(lib, b, passwords) <==>
              KeyOf(lib, b, passwords).Some? && KeyOf(lib, b, passwords).value.pkcs8.Some?
  {
    if KeyOf(lib, b, passwords).Some? {
      BlockReadExactly(lib, b, passwords, KeyOf(lib, b, passwords).value, ReadBlock(lib, b, passwords).password);
    }
    if key, password :| ReadsAs(lib, b, passwords, key, password) && key.pkcs8.Some? {
      BlockReadExactly(lib, b, passwords, key, password);
    }
  }

  ghost predicate AllReady(lib: Lib, blocks: seq<Block>, passwords: seq<Bytes>) {
    forall j :: 0 <= j < |blocks| && IsPrivateKey(blocks[j]) ==> KeyReady(lib, blocks[j], passwords)
  }

  lemma AllReadyMeans(lib: Lib, blocks: seq<Block>, passwords: seq<Bytes>)
    ensures AllReady(lib, blocks, passwords) <==>
              forall j :: 0 <= j < |blocks| && IsKeyBlock(blocks[j]) ==>
                KeyOf(lib, blocks[j], passwords).Some? && KeyOf(lib, blocks[j], passwords).value.pkcs8.Some?
  {
    forall j | 0 <= j < |blocks|
      ensures IsPrivateKey(blocks[j]) <==> IsKeyBlock(blocks[j])
      ensures KeyReady(lib, blocks[j], passwords) <==>
                KeyOf(lib, blocks[j], passwords).Some? && KeyOf(lib, blocks[j], passwords).value.pkcs8.Some?
    {
      KeyReadyMeans(lib, blocks[j], passwords);
    }
  }

  lemma {:induction false} NthKeyBlock(blocks: seq<Block>, k: nat) returns (j: nat)
    requires k < CountKeys(blocks)
    ensures j < |blocks| && IsKeyBlock(blocks[j]) && CountKeys(blocks[..j]) == k
  {
    var n := |blocks| - 1;
    if k < CountKeys(blocks[..n]) {
      j := NthKeyBlock(blocks[..n], k);
      assert blocks[..n][..j] == blocks[..j];
    } else {
      j := n;
    }
  }

  lemma {:induction false} CountKeysMonotone(blocks: seq<Block>, j: nat)
    requires j < |blocks| && IsKeyBlock(blocks[j])
    ensures CountKeys(blocks[..j]) < CountKeys(blocks)
  {
    CountKeysStep(blocks[..j], blocks[j]);
    assert blocks == blocks[..j] + [blocks[j]] + blocks[j + 1..];
    CountKeysAppend(blocks[..j] + [blocks[j]], blocks[j + 1..]);
  }

  /** Rewriting succeeds exactly when every key block can be read on its own: one block the reader
      skipped leaves the last key block without a key. */
  lemma RewriteSucceedsExactly(lib: Lib, blocks: seq<Block>, passwords: seq<Bytes>, newPassword: Bytes)
    ensures CanReencode(lib, KeysRead(lib, blocks, passwords), newPassword, CountKeys(blocks)) <==>
        AllReady(lib, blocks, passwords)
  {
    var keys := KeysRead(lib, blocks, passwords);
    NoMoreKeysThanBlocks(lib, blocks, passwords);
    AllReadyMeans(lib, blocks, passwords);
    if CanReencode(lib, keys, newPassword, CountKeys(blocks)) {
      forall j | 0 <= j < |blocks| && IsKeyBlock(blocks[j])
        ensures KeyOf(lib, blocks[j], passwords).Some? && KeyOf(lib, blocks[j], passwords).value.pkcs8.Some?
      {
        KeysAlign(lib, blocks, passwords, j);
        CountKeysMonotone(blocks, j);
        assert Reencode(lib, keys[CountKeys(blocks[..j])].key, newPassword, CountKeys(blocks[..j])).Some?;
      }
    }
    if AllReady(lib, blocks, passwords) {
      if |keys| < CountKeys(blocks) {
        var j := SkippedBlock(lib, blocks, passwords);
        assert false;
      }
      forall k: nat | k < CountKeys(blocks)
        ensures k < |keys| && Reencode(lib, keys[k].key, newPassword, k).Some?
      {
        var j := NthKeyBlock(blocks, k);
        KeysAlign(lib, blocks, passwords, j);
        assert KeyOf(lib, blocks[j], passwords).value.pkcs8.Some?;
      }
    }
  }

  /** The block at position `j` of the output: the same block, or the same key under the new password. */
  ghost predicate RewrittenBlock(lib: Lib, blocks: seq<Block>, passwords: seq<Bytes>, newPassword: Bytes, j: nat,
                                 b: Block)
    requires j < |blocks|
  {
    if IsPrivateKey(blocks[j]) then
      exists key, password :: ReadsAs(lib, blocks[j], passwords, key, password)
                              && SealsKey(lib, b, key, newPassword, CountKeys(blocks[..j]))
    else b == blocks[j]
  }

  /** The block is this key, encrypted under the new password, or plain when that is empty. */
  predicate SealsKey(lib: Lib, b: Block, key: Key, newPassword: Bytes, draw: nat) {
    && key.pkcs8.Some? && b.headers == map[]
    && if newPassword != [] then
         b.kind == "ENCRYPTED PRIVATE KEY" && b.bytes == lib.encryptPKCS8(key.pkcs8.value, newPassword, draw)
       else b.kind == "PRIVATE KEY" && b.bytes == key.pkcs8.value
  }

  lemma NewBlockSeals(lib: Lib, blocks: seq<Block>, passwords: seq<Bytes>, newPassword: Bytes, j: nat, b: Block)
    requires j < |blocks|
    ensures RewrittenBlock(lib, blocks, passwords, newPassword, j, b) <==>
              if IsKeyBlock(blocks[j]) then
                var key := KeyOf(lib, blocks[j], passwords);
                && key.Some? && key.value.pkcs8.Some?
                && b == NewBlock(lib, key.value.pkcs8.value, newPassword, CountKeys(blocks[..j]))
              else b == blocks[j]
  {
    var draw := CountKeys(blocks[..j]);
    ReadsAsOnce(lib, blocks[j], passwords);
    if KeyOf(lib, blocks[j], passwords).Some? {
      SealsNewBlock(lib, b, KeyOf(lib, blocks[j], passwords).value, newPassword, draw);
    }
    assert IsPrivateKey(blocks[j]) <==> IsKeyBlock(blocks[j]);
  }

  lemma SealsNewBlock(lib: Lib, b: Block, key: Key, newPassword: Bytes, draw: nat)
    ensures SealsKey(lib, b, key, newPassword, draw) <==>
              key.pkcs8.Some? && b == NewBlock(lib, key.pkcs8.value, newPassword, draw)
  {}

  lemma ReadsAsOnce(lib: Lib, b: Block, passwords: seq<Bytes>)
    ensures forall key, password :: ReadsAs(lib, b, passwords, key, password) ==> KeyOf(lib, b, passwords) == Some(key)
    ensures KeyOf(lib, b, passwords).Some? ==>
              ReadsAs(lib, b, passwords, KeyOf(lib, b, passwords).value, ReadBlock(lib, b, passwords).password)
  {
    forall key, password | ReadsAs(lib, b, passwords, key, password) ensures KeyOf(lib, b, passwords) == Some(key) {
      BlockReadExactly(lib, b, passwords, key, password);
    }
    if KeyOf(lib, b, passwords).Some? {
      BlockReadExactly(lib, b, passwords, KeyOf(lib, b, passwords).value, ReadBlock(lib, b, passwords).password);
    }
  }

  lemma {:induction false} CountKeysPositive(blocks: seq<Block>)
    ensures CountKeys(blocks) > 0 <==> exists b <- blocks :: IsPrivateKey(b)
  {
    if blocks != [] {
      var n := |blocks| - 1;
      CountKeysPositive(blocks[..n]);
      assert blocks == blocks[..n] + [blocks[n]];
      assert IsPrivateKey(blocks[n]) <==> IsKeyBlock(blocks[n]);
    }
  }

  lemma {:induction false} RewrittenAt(lib: Lib, blocks: seq<Block>, keys: seq<Item>, newPassword: Bytes, j: nat)
    requires CanReencode(lib, keys, newPassword, CountKeys(blocks)) && j < |blocks|
    ensures |Rewritten(lib, blocks, keys, newPassword)| == |blocks|
    ensures IsKeyBlock(blocks[j]) ==> CountKeys(blocks[..j]) < CountKeys(blocks)
    ensures Rewritten(lib, blocks, keys, newPassword)[j] ==
            if IsKeyBlock(blocks[j]) then Reencode(lib, keys[CountKeys(blocks[..j])].key, newPassword,
                CountKeys(blocks[..j])).value
            else blocks[j]
  {
    var n := |blocks| - 1;
    if n > 0 {
      RewrittenAt(lib, blocks[..n], keys, newPassword, if j < n then j else 0);
    }
    if j < n {
      assert blocks[..n][..j] == blocks[..j];
    }
  }

  /** Same blocks, same order, and the i-th key block carries the i-th key of the original file. */
  lemma RewriteIsAligned(lib: Lib, blocks: seq<Block>, passwords: seq<Bytes>, newPassword: Bytes)
    requires CanReencode(lib, KeysRead(lib, blocks, passwords), newPassword, CountKeys(blocks))
    ensures var out := Rewritten(lib, blocks, KeysRead(lib, blocks, passwords), newPassword);
            && |out| == |blocks|
            && forall j :: 0 <= j < |blocks| ==> RewrittenBlock(lib, blocks, passwords, newPassword, j, out[j])
  {
    var keys := KeysRead(lib, blocks, passwords);
    NoMoreKeysThanBlocks(lib, blocks, passwords);
    RewriteSucceedsExactly(lib, blocks, passwords, newPassword);
    AllReadyMeans(lib, blocks, passwords);
    RewrittenLength(lib, blocks, keys, newPassword);
    forall j | 0 <= j < |blocks|
      ensures RewrittenBlock(lib, blocks, passwords, newPassword, j, Rewritten(lib, blocks, keys, newPassword)[j])
    {
      RewrittenAt(lib, blocks, keys, newPassword, j);
      NewBlockSeals(lib, blocks, passwords, newPassword, j, Rewritten(lib, blocks, keys, newPassword)[j]);
      if IsKeyBlock(blocks[j]) {
        KeysAlign(lib, blocks, passwords, j);
      }
    }
  }

  lemma {:induction false} RewrittenLength(lib: Lib, blocks: seq<Block>, keys: seq<Item>, newPassword: Bytes)
    requires CanReencode(lib, keys, newPassword, CountKeys(blocks))
    ensures |Rewritten(lib, blocks, keys, newPassword)| == |blocks|
  {
    if blocks != [] {
      RewrittenLength(lib, blocks[..|blocks| - 1], keys, newPassword);
    }
  }

  // ---------------------------------------------------------------------------------------------
  // The file on disk
  // ---------------------------------------------------------------------------------------------

  /** Blocks that PEM text can hold: those it was decoded from, and the two the writer makes. */
  ghost predicate Encodable(lib: Lib, b: Block) {
    (exists d :: lib.decode(d).Some? && lib.decode(d).value.0 == b)
    || (b.headers == map[] && (b.kind == PRIVATE || b.kind == ENCRYPTED))
  }

  /** PEM text decodes to the blocks it encodes, one after the other. */
  ghost predicate PemRoundTrip(lib: Lib) {
    && Shrinks(lib)
    && lib.decode([]) == None
    && forall b, rest :: Encodable(lib, b) ==> lib.decode(lib.encode(b) + rest) == Some((b, rest))
  }

  lemma {:induction false} BlocksAreEncodable(lib: Lib, data: Bytes)
    requires Shrinks(lib)
    ensures forall b <- Blocks(lib, data) :: Encodable(lib, b)
    decreases |data|
  {
    if lib.decode(data).Some? {
      BlocksAreEncodable(lib, lib.decode(data).value.1);
      assert Encodable(lib, lib.decode(data).value.0);
    }
  }

  lemma {:induction false} DecodeAll(lib: Lib, blocks: seq<Block>, rest: Bytes)
    requires PemRoundTrip(lib) && forall b <- blocks :: Encodable(lib, b)
    ensures Blocks(lib, EncodeAll(lib, blocks) + rest) == blocks + Blocks(lib, rest)
    decreases |blocks|
  {
    if blocks == [] {
      assert EncodeAll(lib, blocks) + rest == rest;
    } else {
      var n := |blocks| - 1;
      var b := blocks[n];
      assert b in blocks;
      DecodeAll(lib, blocks[..n], lib.encode(b) + rest);
      assert EncodeAll(lib, blocks) + rest == EncodeAll(lib, blocks[..n]) + (lib.encode(b) + rest);
      assert blocks[..n] + ([b] + Blocks(lib, rest)) == blocks + Blocks(lib, rest);
    }
  }

  /** Re-encrypting a PEM file: read, refuse a file without keys, rewrite. On success the new file
      has the old file's blocks, each key under the new password in its old place; and it succeeds
      exactly when the file has a key block and every key block is readable. */
  method ReencryptPEM(lib: Lib, data: Bytes, passwords: seq<Bytes>, newPassword: Bytes) returns (out: Option<Bytes>)
    requires PemRoundTrip(lib)
    ensures out.Some? ==>
              && |Blocks(lib, out.value)| == |Blocks(lib, data)|
              && forall j :: 0 <= j < |Blocks(lib, data)| ==>
                   RewrittenBlock(lib, Blocks(lib, data), passwords, newPassword, j, Blocks(lib, out.value)[j])
    ensures out.Some? <==>
              (exists b <- Blocks(lib, data) :: IsPrivateKey(b)) && AllReady(lib, Blocks(lib, data), passwords)
  {
    ghost var blocks := Blocks(lib, data);
    RewriteSucceedsExactly(lib, blocks, passwords, newPassword);
    CountKeysPositive(blocks);
    var c := ReadPEM(lib, data, passwords);
    if c.None? {
      NoKeysNoRewrite(lib, blocks, passwords);
      return None;
    }
    var keys := PrivateKeyItems(c.value.items);
    assert keys == KeysRead(lib, blocks, passwords);
    if |keys| == 0 {
      NoKeysNoRewrite(lib, blocks, passwords);
      return None;
    }
    NoMoreKeysThanBlocks(lib, blocks, passwords);
    out := ReencryptKeys(lib, data, c.value.items, newPassword);
    if out.Some? {
      RewriteIsAligned(lib, blocks, passwords, newPassword);
      RewrittenFile(lib, data, passwords, newPassword);
    }
  }

  lemma NoKeysNoRewrite(lib: Lib, blocks: seq<Block>, passwords: seq<Bytes>)
    requires KeysRead(lib, blocks, passwords) == []
    ensures !(CountKeys(blocks) > 0 && AllReady(lib, blocks, passwords))
  {
    if CountKeys(blocks) > 0 {
      var j := SkippedBlock(lib, blocks, passwords);
      KeyReadyMeans(lib, blocks[j], passwords);
    }
  }

  lemma RewrittenFile(lib: Lib, data: Bytes, passwords: seq<Bytes>, newPassword: Bytes)
    requires PemRoundTrip(lib)
    requires CanReencode(lib, KeysRead(lib, Blocks(lib, data), passwords), newPassword, CountKeys(Blocks(lib, data)))
    ensures var written := Rewritten(lib, Blocks(lib, data), KeysRead(lib, Blocks(lib, data), passwords), newPassword);
            Blocks(lib, EncodeAll(lib, written)) == written
  {
    var blocks := Blocks(lib, data);
    var written := Rewritten(lib, blocks, KeysRead(lib, blocks, passwords), newPassword);
    RewriteIsAligned(lib, blocks, passwords, newPassword);
    BlocksAreEncodable(lib, data);
    forall b | b in written
      ensures Encodable(lib, b)
    {
      var j :| 0 <= j < |written| && written[j] == b;
      assert RewrittenBlock(lib, blocks, passwords, newPassword, j, b);
    }
    DecodeAll(lib, written, []);
    assert EncodeAll(lib, written) + [] == EncodeAll(lib, written);
  }

  /** The key libraries undo each other: PKCS#8 marshalling, PKCS#8 encryption of what is a key (anything else is
      refused on decryption), and a block without headers is not an encrypted one. */
  ghost predicate KeyRoundTrip(lib: Lib) {
    && (forall name, der :: lib.parseKey(name, der).Some? && lib.parseKey(name, der).value.pkcs8.Some? ==>
          lib.parseKey(PRIVATE, lib.parseKey(name, der).value.pkcs8.value) == lib.parseKey(name, der))
    && (forall der, password, draw :: lib.parseKey(PRIVATE, der).Some? ==>
          lib.decryptPKCS8(lib.encryptPKCS8(der, password, draw), password) == Some(der))
    && (forall kind, bytes :: !lib.isEncryptedBlock(Block(kind, map[], bytes)))
  }

  lemma {:induction false} UnlockedWasParsed(lib: Lib, b: Block, scheme: Scheme, passwords: seq<Bytes>)
    ensures var u := FirstUnlock(lib, b, scheme, passwords);
            u.Some? ==> exists name, der :: lib.parseKey(name, der) == Some(u.value.key)
  {
    if passwords != [] {
      UnlockedWasParsed(lib, b, scheme, passwords[1..]);
    }
  }

  /** Reading the rewritten file with the new password gives every key back. */
  lemma RewrittenKeyReadsBack(lib: Lib, blocks: seq<Block>, passwords: seq<Bytes>, newPassword: Bytes, j: nat, b: Block)
    requires KeyRoundTrip(lib) && j < |blocks| && IsKeyBlock(blocks[j])
    requires RewrittenBlock(lib, blocks, passwords, newPassword, j, b)
    ensures KeyOf(lib, b, [newPassword]) == KeyOf(lib, blocks[j], passwords)
  {
    NewBlockSeals(lib, blocks, passwords, newPassword, j, b);
    var key := KeyOf(lib, blocks[j], passwords).value;
    var all := WithEmpty(passwords);
    UnlockedWasParsed(lib, blocks[j], LegacyBlock(blocks[j].kind), all);
    UnlockedWasParsed(lib, blocks[j], PKCS8Data, all);
    UnlockedWasParsed(lib, blocks[j], LegacyBlock(PRIVATE), all);
    var name, der :| lib.parseKey(name, der) == Some(key);
    assert lib.parseKey(PRIVATE, key.pkcs8.value) == Some(key);
    if newPassword != [] {
      assert WithEmpty([newPassword])[0] == newPassword;
      assert Try(lib, b, PKCS8Data, newPassword) == Some(Unlocked(key, key.pkcs8.value, newPassword));
    }
  }
}
