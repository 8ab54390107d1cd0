/** Changing the passwords of a Java keystore (`reencrypt.go`): which entries get the new password, and that
    a store with a locked key entry is refused rather than rewritten without it. */
module KeyStoreReencryption {
  import opened CertTypes
  import Writer = KeyStoreWriter
  import Kept = KeyStoreAliases

  predicate IsKey(item: Item) {
    item.kind == PrivateKey
  }

  /** A key entry whose key was not read: re-encoding would drop it. */
  predicate IsLocked(item: Item) {
    IsKey(item) && item.key == None
  }

  // ---------------------------------------------------------------------------------------------
  // Locked entries
  // ---------------------------------------------------------------------------------------------

  /** The name a locked entry is reported by: its alias, or its position. */
  function ReportedName(item: Item, i: nat): string {
    if item.alias == "" then "#" + Writer.Decimal(i) else item.alias
  }

  function Locked(items: seq<Item>, n: nat): seq<string>
    requires n <= |items|
  {
    if n == 0 then []
    else if IsLocked(items[n - 1]) then Locked(items, n - 1) + [ReportedName(items[n - 1], n - 1)]
    else Locked(items, n - 1)
  }

  method LockedKeyItemAliases(items: seq<Item>) returns (locked: seq<string>)
    ensures locked == Locked(items, |items|)
  {
    locked := [];
    for i := 0 to |items|
      invariant locked == Locked(items, i)
    {
      if IsLocked(items[i]) {
        locked := locked + [ReportedName(items[i], i)];
      }
    }
  }

  lemma {:induction false} NoneLocked(items: seq<Item>, n: nat)
    requires n <= |items|
    ensures Locked(items, n) == [] <==> forall i :: 0 <= i < n && IsKey(items[i]) ==> items[i].key.Some?
  {
    if n > 0 {
      NoneLocked(items, n - 1);
    }
  }

  // ---------------------------------------------------------------------------------------------
  // New passwords
  // ---------------------------------------------------------------------------------------------

  /** A key entry that had the store's password gets the new one; every other item stays as it is. */
  function Repassworded(item: Item, storePassword: Bytes, newPassword: Bytes): Item {
    if IsKey(item) && item.entryPassword == Some(storePassword) then item.(entryPassword := Some(newPassword)) else item
  }

  predicate HasOtherPassword(item: Item, storePassword: Bytes) {
    IsKey(item) && item.entryPassword.Some? && item.entryPassword != Some(storePassword)
  }

  function OtherPasswords(items: seq<Item>, storePassword: Bytes, n: nat): nat
    requires n <= |items|
  {
    if n == 0 then 0
    else OtherPasswords(items, storePassword, n - 1) + if HasOtherPassword(items[n - 1], storePassword) then 1 else 0
  }

  /** `updateKeyStoreEntryPasswords` rewrites the items in place and counts the entries it leaves alone. */
  method UpdateEntryPasswords(items: array<Item>, storePassword: Bytes, newPassword: Bytes) returns (skipped: nat)
    modifies items
    ensures forall i :: 0 <= i < items.Length ==> items[i] == Repassworded(old(items[i]), storePassword, newPassword)
    ensures skipped == OtherPasswords(old(items[..]), storePassword, items.Length)
  {
    ghost var before := items[..];
    skipped := 0;
    for i := 0 to items.Length
      invariant forall k :: 0 <= k < i ==> items[k] == Repassworded(before[k], storePassword, newPassword)
      invariant forall k :: i <= k < items.Length ==> items[k] == before[k]
      invariant skipped == OtherPasswords(before, storePassword, i)
    {
      if items[i].kind != PrivateKey || items[i].entryPassword == None {
        continue;
      }
      if items[i].entryPassword.value == storePassword {
        items[i] := items[i].(entryPassword := Some(newPassword));
      } else {
        skipped := skipped + 1;
      }
    }
  }

  /** `extractAliases`. */
  function Aliases(items: seq<Item>): Writer.Aliases {
    map i | 0 <= i < |items| && items[i].alias != "" :: items[i].alias
  }

  datatype Outcome = Refused(locked: seq<string>) | NotFound | WriteFailed | Written(entries: seq<Writer.Entry>,
                             skipped: nat)

  /** The keys in a written store, each with the password that opens it. */
  function KeysWritten(entries: seq<Writer.Entry>): seq<(Bytes, Bytes)> {
    if entries == [] then []
    else
      var last := entries[|entries| - 1];
      var before := KeysWritten(entries[..|entries| - 1]);
      if last.KeyEntry? then before + [(last.pkcs8, last.password)] else before
  }

  /** The password an item's entry is written under. */
  function PasswordOf(item: Item, storePassword: Bytes): Bytes {
    if item.entryPassword.Some? then item.entryPassword.value else storePassword
  }

  /** Every key item with its key and password, in order. */
  function KeysHeld(items: seq<Item>, storePassword: Bytes, n: nat): seq<(Bytes, Bytes)>
    requires n <= |items|
  {
    if n == 0 then []
    else
      var item := items[n - 1];
      var before := KeysHeld(items, storePassword, n - 1);
      if IsKey(item) && item.key.Some? && item.key.value.pkcs8.Some?
      then before + [(item.key.value.pkcs8.value, PasswordOf(item, storePassword))]
      else before
  }

  lemma {:induction false} WrittenKeysAreHeld(items: seq<Item>, plan: Writer.Plan, aliases: Writer.Aliases,
                                              password: Bytes, n: nat)
    requires n <= |items| && Writer.Covers(items, plan)
    ensures KeysWritten(Writer.Emitted(items, plan, aliases, password, n)) == KeysHeld(items, password, n)
  {
    if n > 0 {
      WrittenKeysAreHeld(items, plan, aliases, password, n - 1);
      var before := Writer.Emitted(items, plan, aliases, password, n - 1);
      match Writer.EntryFor(items, plan, aliases, password, n - 1) {
        case Emit(e) => assert (before + [e])[..|before|] == before;
        case _ =>
      }
    }
  }

  /** The plan for writing these items. */
  function Planned(items: seq<Item>, signs: SignatureCheck): Writer.Plan {
    Writer.PlanOf(items, signs)
  }

  /** What the keystore holds once the entries are filed under their aliases. */
  ghost predicate KeystoreHolds(items: seq<Item>, password: Bytes, fold: Kept.Fold, signs: SignatureCheck,
                                entries: seq<Writer.Entry>) {
    Kept.HoldsItems(items, Planned(items, signs), Aliases(items), password, fold, signs, Writer.Stored(entries, fold))
  }

  /** Every item can be encoded and the library takes every entry. */
  ghost predicate CanWrite(items: seq<Item>, password: Bytes, signs: SignatureCheck, accepts: Writer.Accepts) {
    Writer.AllWritable(items, Planned(items, signs), Aliases(items), password, accepts, |items|)
  }

  /** Writes an entry for every key of `items`, none missing; which of them stay is what `KeystoreHolds` says. */
  method EncodeJKS(items: seq<Item>, password: Bytes, ghost fold: Kept.Fold, signs: SignatureCheck,
                   accepts: Writer.Accepts)
    returns (out: Result<seq<Writer.Entry>>)
    ensures out.Ok? <==> CanWrite(items, password, signs, accepts)
    ensures out.Ok? ==> out.value == Writer.Emitted(items, Planned(items, signs), Aliases(items), password, |items|)
    ensures out.Ok? ==> KeystoreHolds(items, password, fold, signs, out.value)
    ensures out.Ok? ==> KeysWritten(out.value) == KeysHeld(items, password, |items|)
    ensures out.Ok? ==> forall i :: 0 <= i < |items| && IsKey(items[i]) && items[i].key.Some? ==>
                                      items[i].key.value.pkcs8.Some?
  {
    var plan: Writer.Plan;
    out, plan := Writer.WriteJKS(items, password, Aliases(items), signs, accepts);
    WrittenKeysAreHeld(items, plan, Aliases(items), password, |items|);
    if out.Ok? {
      assert forall i :: 0 <= i < |items| && IsKey(items[i]) && items[i].key.Some? ==> Writer.KeyIdx(items, i);
      Kept.KeystoreHoldsItems(items, plan, Aliases(items), password, fold, signs);
    }
  }

  /** No key item was left out of `written`: it holds one key per key item, in order, under the password
      `passwordFor` names. */
  ghost predicate AllKeys(items: seq<Item>, written: seq<(Bytes, Bytes)>, storePassword: Bytes) {
    && (forall i :: 0 <= i < |items| && IsKey(items[i]) ==> items[i].key.Some? && items[i].key.value.pkcs8.Some?)
    && written == KeysHeld(items, storePassword, |items|)
  }

  /** The store-level change: refuses when a key entry is locked, and otherwise writes every key entry. */
  method ReencryptStore(items: array<Item>, storePassword: Bytes, newPassword: Bytes, ghost fold: Kept.Fold,
                        signs: SignatureCheck, accepts: Writer.Accepts)
    returns (out: Outcome)
    modifies items
    ensures out.Refused? <==> exists i :: 0 <= i < items.Length && IsLocked(old(items[i]))
    ensures out.Refused? ==> items[..] == old(items[..]) && out.locked == Locked(old(items[..]), items.Length)
    ensures out.Written? ==> AllKeys(items[..], KeysWritten(out.entries), newPassword)
    ensures !out.NotFound? && (!out.Refused? ==> (out.Written? <==> CanWrite(items[..], newPassword, signs, accepts)))
    ensures out.Written? ==> KeystoreHolds(items[..], newPassword, fold, signs, out.entries)
    ensures !out.Refused? ==>
              forall i :: 0 <= i < items.Length ==> items[i] == Repassworded(old(items[i]), storePassword, newPassword)
    ensures out.Written? ==> out.skipped == OtherPasswords(old(items[..]), storePassword, items.Length)
  {
    var locked := LockedKeyItemAliases(items[..]);
    NoneLocked(items[..], items.Length);
    if locked != [] {
      return Refused(locked);
    }
    var skipped := UpdateEntryPasswords(items, storePassword, newPassword);
    var encoded := EncodeJKS(items[..], newPassword, fold, signs, accepts);
    if encoded.Err? {
      return WriteFailed;
    }
    out := Written(encoded.value, skipped);
  }

  /** The password that opens an entry after a store-level change: the new one for entries without a password
      of their own or with the store's; an entry that had another password keeps it. */
  lemma StoreChangeKeepsOtherPasswords(item: Item, storePassword: Bytes, newPassword: Bytes)
    requires IsKey(item)
    ensures PasswordOf(Repassworded(item, storePassword, newPassword), newPassword)
         == if item.entryPassword.Some? && item.entryPassword.value != storePassword then item.entryPassword.value
            else newPassword
  {}

  /** The first key entry with the alias, `n` when there is none. */
  function FirstNamed(items: seq<Item>, alias: string, from: nat): (r: nat)
    requires from <= |items|
    ensures from <= r <= |items|
    ensures forall i :: from <= i < r ==> !(IsKey(items[i]) && items[i].alias == alias)
    ensures r < |items| ==> IsKey(items[r]) && items[r].alias == alias
    decreases |items| - from
  {
    if from == |items| || (IsKey(items[from]) && items[from].alias == alias) then from
    else FirstNamed(items, alias, from + 1)
  }

  /** The entry-level change (`reencryptEntry`): only the first key entry with the alias gets the password,
      and the store is written under the store password. */
  method ReencryptEntry(items: array<Item>, alias: string, storePassword: Bytes, newPassword: Bytes,
                        ghost fold: Kept.Fold, signs: SignatureCheck, accepts: Writer.Accepts)
    returns (out: Outcome)
    modifies items
    ensures out.Refused? <==> exists i :: 0 <= i < items.Length && IsLocked(old(items[i]))
    ensures out.NotFound? || out.Refused? ==> items[..] == old(items[..])
    ensures out.Written? || out.WriteFailed? ==>
              var k := FirstNamed(old(items[..]), alias, 0);
              k < items.Length && items[..] == old(items[..])[k := old(items[k]).(entryPassword := Some(newPassword))]
    ensures out.Written? ==> AllKeys(items[..], KeysWritten(out.entries), storePassword)
    ensures out.NotFound? <==> !out.Refused? && FirstNamed(old(items[..]), alias, 0) == items.Length
    ensures out.Written? ==> CanWrite(items[..], storePassword, signs, accepts)
    ensures out.WriteFailed? ==> !CanWrite(items[..], storePassword, signs, accepts)
    ensures out.Written? ==> KeystoreHolds(items[..], storePassword, fold, signs, out.entries)
  {
    var locked := LockedKeyItemAliases(items[..]);
    NoneLocked(items[..], items.Length);
    if locked != [] {
      return Refused(locked);
    }
    ghost var before := items[..];
    var found := false;
    for i := 0 to items.Length
      invariant !found && items[..] == before
      invariant FirstNamed(before, alias, 0) == FirstNamed(before, alias, i)
    {
      if items[i].kind == PrivateKey && items[i].alias == alias {
        items[i] := items[i].(entryPassword := Some(newPassword));
        found := true;
        assert items[..] == before[i := before[i].(entryPassword := Some(newPassword))];
        break;
      }
    }
    if !found {
      return NotFound;
    }
    var encoded := EncodeJKS(items[..], storePassword, fold, signs, accepts);
    if encoded.Err? {
      return WriteFailed;
    }
    out := Written(encoded.value, 0);
  }
}
