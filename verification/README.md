# certdiag: verified models of its core

certdiag is a command-line tool that reads certificate files and keystores, relates the
certificates in them, checks them, rewrites them and talks to TLS servers. This project models
the parts of it that have loops, shared mutable state, graph search or protocol runs, and proves
what they keep, over every input and every run.

`dafny verify dfyconfig.toml` checks the whole project.

| file | what it models |
|---|---|
| `types.dfy`, `sequences.dfy` | certificates, keys, items, containers, references; positions in a sequence |
| `relations.dfy` | the relation detectors (nested loops and hash joins) and the two-way relation index |
| `order.dfy` | the order of relations and chains, and which certificates have chains |
| `chains.dfy` | chain enumeration: a backtracking, branch-capped search over mutated maps and an aliased path slice |
| `jks.dfy`, `aliases.dfy`, `keystore.dfy` | key-chain expansion, writing a Java keystore, what is left of it once entries are filed by alias, changing its passwords |
| `pem.dfy` | reading a PEM file and rewriting its private keys by position |
| `bundle.dfy` | ordering a bundle by its longest chain, dropping roots |
| `aia.dfy`, `aiacache.dfy` | the chase of issuer URLs level by level, and the on-disk cache behind it |
| `closures.dfy`, `trust.dfy` | the two issuer closures, the walk to a terminal, trust-store membership and root pool |
| `pool.dfy` | the bounded worker pool as an interleaving state machine |
| `shell.dfy` | rendering openssl commands, and a POSIX shell lexer that reads them back |
| `constraints.dfy` | name constraints: label suffixes and the decision on a certificate |
| `pkcs8.dfy`, `frame.dfy` | PKCS#7 padding, CBC, the PBES2 envelope; the length-prefixed encrypted frame |
| `checks.dfy` | the check runner: filters, stable sort, summary, and the command's re-runs |
| `ber.dfy`, `starttls.dfy` | BER framing over a fragmented connection; SMTP, IMAP, FTP and LDAP upgrades |
| `revocation.dfy` | OCSP staple, OCSP, CRL and their resolution |

Libraries and the outside world are function parameters: signature checks, parsers, ciphers, key
derivation, base64, DER, the network, the clock and random draws. What a proof needs of one (a
cipher permutes blocks, DER reads back, SHA-256 is injective, a parsed certificate keeps its
bytes) is a named predicate in the lemma's `requires`. SHA-256 keys of maps are modelled as the
raw bytes themselves. Text is ASCII; times are integers.

Code that changes things step by step is imperative here too: loops with invariants, classes with
their fields, arrays filled in place. Each such method is proved against a specification, and the
properties are proved of that specification.

What the code does differently from its own documentation, or from what one might expect:

- `isCertSelfSigned` (certops) compares names only, although the comment on `IsSelfSigned` in
  `relations.go` calls that one the only predicate; `Bundle.RootsAreMoreThanSelfSigned` says
  exactly where the two differ.
- The comment on `CheckNameConstraints` says the common name counts only when there are no SANs;
  URI names do not lift it (`NameConstraintRules.UriNamesKeepTheCN`), and adding an email or IP
  name can turn a refusal into an acceptance (`NameConstraintRules.AddingANameCanAccept`).
- Two keys under one intermediate: only the first key's keystore chain reaches it
  (`KeyStoreWriter.SharedIssuerGoesToTheFirstKey`); all chains climb as far as the items allow
  exactly when no key's lone chain needs what an earlier key's lone chain holds
  (`KeyStoreWriter.AllChainsAreSoloExactly`).
- A key without a matching leaf loses the chain it carried (`KeyStoreWriter.CarriedChainSurvives`).
  Conversion expands carried chains first (`convert.go:121`), so the certificates stay there
  (`KeyStoreWriter.ExpandHoldsEveryCert`); changing passwords (`reencrypt.go:76` and `:184`)
  writes the keystore without that step, and loses them. Extracting an item drops its carried
  chain on purpose (`extract.go:231`).
- A key entry takes its leaf's alias, and its leaf is the first certificate with its public half.
  Two entries for one key, as after a renewal under the same key, are therefore written under one
  alias: the keystore keeps one of the keys and can lose an intermediate
  (`KeyStoreAliases.RenewedKeyIsLost`). An entry whose certificate is not its key's, or whose key
  has no public half the program can compare, loses that certificate, unless another entry holds
  it (`KeyStoreAliases.MismatchedCertIsLost`), and can lose its key to another entry
  (`KeyStoreAliases.SwappedKeyIsLost`). For any keystore that is read
  (`KeyStoreAliases.ReadIsUnique`) no key or certificate item is lost in any other way, and
  `KeyStoreAliases.KeystoreHoldsAllExactly` says exactly when none is. Changing passwords refuses
  to rewrite a store with locked keys, but not one of these (`KeyStoreReencryption.ReencryptStore`).
- A rendered note with a line break leaves its comment and can run
  (`ShellQuoting.NoteWithLineBreakRuns`); the block runs exactly its commands if and only if every
  further line of a note is blank or a comment (`ShellQuoting.ScriptRoundTrip`).
- Completing a target's chain repeats one index (`IssuerClosures.AppendedIndexRepeats`).
- The EHLO reply's code is not checked (`StartTlsSessions.RefusalCanOffer`).
- Lengths are truncated: BER elements above 65535 bytes and encrypted frames of 2^32 bytes or
  more do not read back (`BerFraming.ContentsUndoEncode`, `EncryptedFrame.DecryptUndoesEncrypt`).
- Reading an LDAP response indexes an empty element when it builds its error text, and `berContents`
  can slice backwards on eight or more length octets: an answer of the server stops the program.
  `BerFraming.FaultsExactly`, `BerFraming.ParseCrashesExactly` and `BerFraming.MessageCrashesExactly`
  say exactly which bytes do, `BerFraming.EmptyAnswersCrash` gives two.
- SMTP reads one line of the answer to STARTTLS; further lines of it are not read by the session
  (`StartTlsSessions.SmtpLeavesRestOfAnswer`).
- A legal reply that ends in the bare code is not recognised as ended, and neither is an EHLO reply
  whose last line has no text (`StartTlsSessions.LegalReplyReadExactly`,
  `StartTlsSessions.LegalEhloReadExactly`); "whole" below is the program's own test.

## Model

| member | source | states |
|---|---|---|
| Relations.DetectSignedBy | certdiag_app/internal/certlib/relations.go:23-65 | the loop yields, in scan order, the pairs its specification lists |
| Relations.SignedByExact | certdiag_app/internal/certlib/relations.go:23-78 | a signed_by relation is reported if and only if both items are certificates of the store, they differ, the names and key identifiers match and the parent's key verifies the child |
| Relations.DetectPairs | certdiag_app/internal/certlib/relations.go:96-266 | the hash join over public keys equals the nested-loop join, in the same order; which items each kind pairs is `KeyCertExact`, `KeyCSRExact`, `CSRCertExact` |
| Relations.PairsExact | certdiag_app/internal/certlib/relations.go:96-266 | a pair is reported if and only if the two items carry one public key on the two sides of the relation |
| Relations.KeyCertExact | certdiag_app/internal/certlib/relations.go:96-152 | key_cert pairs exactly a parsed private key with a parsed certificate of its public half |
| Relations.KeyCSRExact | certdiag_app/internal/certlib/relations.go:154-210 | key_csr pairs exactly a parsed private key with a request for its public half |
| Relations.CSRCertExact | certdiag_app/internal/certlib/relations.go:212-266 | csr_cert pairs exactly a request with a parsed certificate of its public key |
| ScanOrder.SignedByInOrder | certdiag_app/internal/certlib/relations.go:23-65 | signed_by relations come in scan order of the signed certificate, then of its issuer, each once |
| ScanOrder.PairsInOrder | certdiag_app/internal/certlib/relations.go:96-266 | the pairs of each kind come in scan order of the first item, then of the second, each once |
| Relations.DetectDuplicates | certdiag_app/internal/certlib/relations.go:268-306 | two references are reported if and only if they are certificate items with equal bytes, the earlier one first, each pair once, whatever order the groups are visited in |
| Relations.PairedOnce | certdiag_app/internal/certlib/relations.go:268-306 | a pair of references belongs to one group and is reported in one order only |
| ScanOrder.DuplicatesExact | certdiag_app/internal/certlib/relations.go:268-306 | a duplicate is two certificate items of the store with the same bytes, the first scanned before the second, and every two such |
| Relations.BuildRelationIndex | certdiag_app/internal/certlib/relations.go:308-386 | the index files every relation at both ends, in relation order |
| Relations.IndexIssuersExact | certdiag_app/internal/certlib/relations.go:308-386 | following outgoing signed_by entries is following the signed_by relations, both ways |
| Relations.IndexIsSymmetric | certdiag_app/internal/certlib/relations.go:308-386 | an outgoing entry at one end exists exactly when the incoming one exists at the other |
| Relations.OtherKindsDoNotMatter | certdiag_app/internal/certlib/relations.go:308-386 | relations of other kinds never disturb the issuers of an item |
| Relations.DetectRelations | certdiag_app/internal/certlib/relations.go:13-21 | signed_by, then the three pair kinds, in scan order, then exactly the duplicates |
| Chains.Walker.FreeIssuers | certdiag_app/internal/certlib/relations.go:459-476 | collects exactly the issuers neither guard rules out |
| Chains.Walker.Visit | certdiag_app/internal/certlib/relations.go:486-499 | marks, recurses, unmarks: both guards and the path read afterwards as before |
| Chains.Walker.Walk | certdiag_app/internal/certlib/relations.go:457-501 | the backtracking search over mutated maps and an aliased slice returns the specified paths in fresh arrays, restores both guards, overwrites no stored path and terminates on the references not yet visited |
| Chains.Slice.Append | certdiag_app/internal/certlib/relations.go:487-489 | `append` may write into shared spare capacity; what the old slice shows is unchanged |
| Chains.AllPathsExact | certdiag_app/internal/certlib/relations.go:457-501 | the uncapped search finds a path if and only if it is a maximal climb in which every step goes to an unused issuer |
| Chains.ClimbNeverRepeats | certdiag_app/internal/certlib/relations.go:462-476 | no chain repeats a reference or a certificate's bytes |
| Chains.ClimbIsBounded | certdiag_app/internal/certlib/relations.go:457-501 | a climb has at most as many steps as there are references left |
| Chains.CappedIsPrefix | certdiag_app/internal/certlib/relations.go:450-501 | the capped search is a prefix of the full enumeration, and all of it when fewer than eight paths come back |
| Chains.CappedIsNotEmpty | certdiag_app/internal/certlib/relations.go:478-480 | every node yields at least one path |
| Chains.CappedIsLinear | certdiag_app/internal/certlib/relations.go:450-501 | when no path climbs more than h steps there are at most 7h+1 paths |
| Chains.CappedIsLinearInTheGraph | certdiag_app/internal/certlib/relations.go:450-501 | in any graph there are at most seven paths per reference, plus one |
| Chains.StoreChainsExact | certdiag_app/internal/certlib/relations.go:23-78 | the search finds exactly the chains of the store that are signed link by link, repeat nothing and cannot be extended |
| Chains.LeafAlternatives | certdiag_app/internal/certlib/relations.go:432-444 | a leaf's alternatives are its capped paths of two or more certificates |
| Chains.AssembleChainAlternatives | certdiag_app/internal/certlib/relations.go:418-448 | exactly the non-CA, non-self-signed certificates with an issuer get alternatives |
| Chains.AlternativesAreSignedChains | certdiag_app/internal/certlib/relations.go:418-448 | every reported chain is a signed chain of the store, leaf first; fewer than eight means all of them |
| ScanOrder.LeavesExact | certdiag_app/internal/certlib/relations.go:418-448 | alternatives are listed for exactly the certificates that are neither CAs nor self-signed and have a signed chain of two or more |
| ScanOrder.ChainsInOrder | certdiag_app/internal/certlib/relations.go:450-501 | the chains of a leaf come in scan order of the first certificate they differ in, so none comes twice |
| ScanOrder.FirstChainIsFirst | certdiag_app/internal/certlib/relations.go:401-411 | the one chain shown of a leaf is its first signed chain in that order |
| Chains.AssembleStoreChains | certdiag_app/internal/certlib/relations.go:308-448 | detection, index and enumeration together meet the signed-chain specification in every visiting order |
| Chains.VisitingOrderDoesNotMatter | certdiag_app/internal/certlib/relations.go:308-448 | the chains of a store and their order do not depend on the order in which maps are visited |
| Chains.ChainsContaining | certdiag_app/internal/certlib/relations.go:506-516 | lists a chain under a certificate if and only if the certificate is on it |
| KeyStoreWriter.ExpandKeyChains | certdiag_app/internal/certlib/writer.go:32-58 | the nested loops over a growing seen set compute the expansion |
| KeyStoreWriter.ExpandHoldsEveryCert | certdiag_app/internal/certlib/writer.go:32-58 | afterwards the certificate items are the original ones and every readable carried one |
| KeyStoreWriter.ExpandIsIdempotent | certdiag_app/internal/certlib/writer.go:32-58 | expanding twice, as converter and writer do, adds nothing |
| KeyStoreWriter.ApplyConversionMatrix | certdiag_app/internal/certops/convert.go:114-168 | expands first; PKCS#7 then keeps only certificates, DER only the first item, the other formats everything |
| KeyStoreWriter.CertificatesSurviveConversion | certdiag_app/internal/certops/convert.go:114-168 | a PKCS#7 conversion still holds every certificate item and every readable carried certificate |
| KeyStoreWriter.FindLeaf | certdiag_app/internal/certlib/writer.go:355-370 | the first certificate whose public key is the key's, or none |
| KeyStoreWriter.FindIssuer | certdiag_app/internal/certlib/writer.go:387-402 | the first certificate not consumed yet that issued and signed the child, or none |
| KeyStoreWriter.WalkIssuers | certdiag_app/internal/certlib/writer.go:383-407 | the walk goes each time to the first certificate in item order that issued the last one and is not consumed yet; it terminates, and ends only where none is left |
| KeyStoreWriter.AppendCarried | certdiag_app/internal/certlib/writer.go:408-420 | carried certificates the walk lacks are appended once each |
| KeyStoreWriter.BuildChains | certdiag_app/internal/certlib/writer.go:339-423 | every parsed key gets the walk from its first matching leaf past what earlier keys consumed, each time to the first free issuer, and then its missing carried certificates |
| KeyStoreWriter.EmitEntries | certdiag_app/internal/certlib/writer.go:425-495 | succeeds exactly when every item can be written, and then emits one entry per parsed key, with the chain of `ChainIsInOrder`, and per certificate not skipped, in order |
| KeyStoreWriter.WriteJKS | certdiag_app/internal/certlib/writer.go:324-498 | succeeds exactly when every item can be written, and then sets exactly the planned entries in order, each key with the chain of `ChainIsInOrder`; which of them stay is `KeyStoreAliases.KeysSurviveExactly` |
| KeyStoreWriter.EveryCertIsWritten | certdiag_app/internal/certlib/writer.go:324-498 | every certificate item is in some key entry's chain or has an entry of its own |
| KeyStoreWriter.NoCertIsInvented | certdiag_app/internal/certlib/writer.go:324-498 | every certificate written is an item or was carried by a key |
| KeyStoreWriter.CarriedChainSurvives | certdiag_app/internal/certlib/writer.go:371-422 | a key whose leaf is among the items keeps its whole carried chain; without a leaf the chain written is empty |
| KeyStoreWriter.ChainIsInOrder | certdiag_app/internal/certlib/writer.go:376-422 | a key with a leaf is written with the leaf first, the first certificate with its public half; then each certificate's issuer up to one whose every issuer some chain has; then the carried certificates not there yet, in their old order; a key without one with no chain |
| KeyStoreWriter.ReadChainIsKept | certdiag_app/internal/certlib/writer.go:376-422 | an entry as it was read, whose issuers are only carried and distinct, is written with the chain it had |
| KeyStoreWriter.OwnEntryExactly | certdiag_app/internal/certlib/writer.go:474-490 | a certificate item has its own entry, under its alias, unless it is in a key's chain as the leaf or as an issuer another name issued |
| KeyStoreWriter.NumbersDiffer | certdiag_app/internal/certlib/writer.go:427-434 | items without an alias are written under different numbers |
| KeyStoreWriter.IssuersAreClaimedOnce | certdiag_app/internal/certlib/writer.go:383-407 | a certificate an earlier key walked is never an issuer in a later key's walk |
| KeyStoreWriter.SharedIssuerGoesToTheFirstKey | certdiag_app/internal/certlib/writer.go:383-407 | once an earlier key's chain went through the only issuer of a later key's leaf, the later key's chain is that leaf alone |
| KeyStoreWriter.WalkUnchangedExactly | certdiag_app/internal/certlib/writer.go:383-407 | taking further items away changes a walk exactly when one of the issuers it passes through is among them |
| KeyStoreWriter.ChainIsSoloExactly | certdiag_app/internal/certlib/writer.go:383-407 | a key's chain climbs as far as the items allow exactly when no issuer on that way was walked for an earlier key |
| KeyStoreWriter.AllChainsAreSoloExactly | certdiag_app/internal/certlib/writer.go:339-423 | all keys' chains do exactly when no key's chain, taken alone, has past its leaf anything an earlier key's chain, taken alone, has: a condition on the items |
| KeyStoreWriter.PlanIsDetermined | certdiag_app/internal/certlib/writer.go:339-423 | the chains, the consumed certificates and the leaves are one function of the items and of who signed whom |
| KeyStoreWriter.PlanOfIsPlan | certdiag_app/internal/certlib/writer.go:339-423 | that function meets everything proved of the loops' result |
| KeyStoreWriter.EveryKeyIsWrittenOnce | certdiag_app/internal/certlib/writer.go:424-470 | the keys written are the parsed keys, in order, once each |
| KeyStoreWriter.AliasesDecideSurvival | certdiag_app/internal/certlib/writer.go:424-495 | all entries of a list survive in the keystore if and only if no two different ones share a folded alias |
| KeyStoreAliases.StoredExact | certdiag_app/internal/certlib/writer.go:425-495 | the keystore holds under each folded alias the entry of the last item written under it, and nothing else: for any items |
| KeyStoreAliases.KeysSurviveExactly | certdiag_app/internal/certlib/writer.go:425-495 | the keystore holds one key for each key item no later item shares an alias with, so all of them exactly when every one is such: for any items |
| KeyStoreAliases.CertHeldExactly | certdiag_app/internal/certlib/writer.go:376-490 | the keystore holds a certificate exactly when a written item whose entry survives brings it, as its own or as a key with a leaf that walks through it or carries it: for any items |
| KeyStoreAliases.ReadIsUnique | certdiag_app/internal/certlib/reader.go:528-634 | the items of a keystore that is read meet what the next rows ask: no two certificates and no two keys share a folded alias, and every certificate has one; nothing is assumed of how certificates match keys |
| KeyStoreAliases.KeysClashExactly | certdiag_app/internal/certlib/writer.go:452-470 | two keys are written under one alias exactly when they share a named leaf, or the leaf of one has the alias of the other and the other has no named leaf |
| KeyStoreAliases.KeyClashesWithCertExactly | certdiag_app/internal/certlib/writer.go:452-490 | a key and a certificate with its own entry share an alias exactly when they have the same and the key has no named leaf |
| KeyStoreAliases.SurvivesExactly | certdiag_app/internal/certlib/writer.go:425-495 | an entry stays exactly when no later written item clashes with it in one of these two ways |
| KeyStoreAliases.KeystoreHoldsAllExactly | certdiag_app/internal/certlib/writer.go:324-498 | the keystore holds as many keys as key items exactly when no key clashes with a later entry, and every certificate item exactly when each is brought by an item that clashes with no later one; the plan is the function of the items `PlanOf` |
| KeyStoreAliases.MatchedClashExactly | certdiag_app/internal/certlib/writer.go:452-490 | when a certificate under a key's alias is always for that key, two items clash exactly when they are keys that share a leaf |
| KeyStoreAliases.MatchedKeystoreHoldsAllExactly | certdiag_app/internal/certlib/writer.go:324-498 | then the keystore holds every key exactly when no two share a leaf, and every certificate item exactly when each is brought by an item whose leaf no later key shares |
| KeyStoreAliases.SurvivingKeyIsHeld | certdiag_app/internal/certlib/writer.go:408-475 | a surviving key is held under its own password, with its chain exactly when its leaf is among the items: the leaf, its issuers, then the carried certificates in their order |
| KeyStoreAliases.KeystoreHoldsItems | certdiag_app/internal/certlib/writer.go:324-498 | all that holds of one written keystore for any items: when it has every key, which keys with which password and chain, and exactly which certificates |
| KeyStoreAliases.RenewedKeyIsLost | certdiag_app/internal/certlib/writer.go:452-495 | two entries for one key: the keystore keeps one of the keys and loses the intermediate that only the other entry held |
| KeyStoreAliases.MismatchedCertIsLost | certdiag_app/internal/certlib/writer.go:452-495 | an entry whose certificate is not its key's: the keystore holds the key alone, the certificate is lost |
| KeyStoreAliases.SwappedKeyIsLost | certdiag_app/internal/certlib/writer.go:452-475 | a key without a leaf whose alias is that of another key's leaf: it is lost, though no two keys share a leaf |
| PemReencryption.Container.DecryptLegacyKey | certdiag_app/internal/certlib/reader.go:332-353 | appends one key item whether or not a password worked, and records the password that did; which one does is `BlockReadExactly` |
| PemReencryption.Container.Take | certdiag_app/internal/certlib/reader.go:175-308 | one block's effect on items, errors and password; which key and password is `BlockReadExactly` |
| PemReencryption.ReadPEM | certdiag_app/internal/certlib/reader.go:167-318 | the loop reads exactly the blocks the decoder finds, in order; no items and no errors means no container |
| PemReencryption.BlockReadExactly | certdiag_app/internal/certlib/reader.go:167-353 | a block is read as a key, with a password or without, exactly when: an encrypted PKCS#8 block opens to it with the first of the passwords or else the empty one that PKCS#8 decryption takes, or when none does, by its header; the other kinds open by their header when they have one and parse plainly otherwise |
| PemReencryption.FileCertsExactly | certdiag_app/internal/certlib/reader.go:167-318 | the certificates read from a file are those of its certificate blocks that parse |
| PemReencryption.ReencryptKeys | certdiag_app/internal/certops/reencrypt.go:229-258 | the loop over the remaining bytes re-encodes the i-th key block from the i-th key item and copies the rest |
| PemReencryption.KeysAlign | certdiag_app/internal/certops/reencrypt.go:229-258 | with as many key items as key blocks, the i-th item is the key read from the i-th block |
| PemReencryption.RewriteSucceedsExactly | certdiag_app/internal/certops/reencrypt.go:229-289 | rewriting succeeds exactly when every private-key block reads as a key that marshals: one block the reader skipped makes it fail |
| PemReencryption.RewriteIsAligned | certdiag_app/internal/certops/reencrypt.go:229-258 | same blocks, same order, and each private-key block is its own key, sealed under the new password |
| PemReencryption.ReencryptPEM | certdiag_app/internal/certops/reencrypt.go:76-84 | succeeds exactly when the file has a private-key block and every one reads as a key, in the terms of `BlockReadExactly`, that marshals; the new file has the same blocks, each key sealed under the new password, plain only when that is empty |
| PemReencryption.RewrittenKeyReadsBack | certdiag_app/internal/certops/reencrypt.go:260-279 | reading the rewritten block with the new password gives the old key, for libraries that undo each other on keys |
| KeyStoreReencryption.LockedKeyItemAliases | certdiag_app/internal/certops/reencrypt.go:128-146 | names exactly the key entries whose key was not read, in order |
| KeyStoreReencryption.NoneLocked | certdiag_app/internal/certops/reencrypt.go:128-146 | none are named if and only if every key entry has its key |
| KeyStoreReencryption.UpdateEntryPasswords | certdiag_app/internal/certops/reencrypt.go:102-116 | in place: entries under the store password get the new one, every other item is untouched, and the entries left alone are counted |
| KeyStoreReencryption.WrittenKeysAreHeld | certdiag_app/internal/certlib/writer.go:424-470 | each key is written under its entry password, or the store's when it has none |
| KeyStoreReencryption.EncodeJKS | certdiag_app/internal/certlib/writer.go:534-540 | succeeds exactly when every item can be written; an entry for every key with its password, and what the keystore then holds |
| KeyStoreReencryption.ReencryptStore | certdiag_app/internal/certops/reencrypt.go:57-73 | refused exactly when a key entry is locked, and then unchanged; otherwise written exactly when every item can be; an entry is written for every key with its password, and the keystore, filed by alias, holds every key, and each certificate, exactly as `KeyStoreAliases.HoldsItems` says of any items |
| KeyStoreReencryption.StoreChangeKeepsOtherPasswords | certdiag_app/internal/certops/reencrypt.go:99-116 | afterwards the new password opens exactly the entries that had no other one |
| KeyStoreReencryption.ReencryptEntry | certdiag_app/internal/certops/reencrypt.go:155-191 | only the first key entry with the alias changes, not found exactly when there is none, written exactly when every item can be, and the keystore holds what `ReencryptStore`'s does |
| Bundle.Separate | certdiag_app/internal/certops/bundle.go:217-231 | keys, certificates and the rest, each in input order |
| Bundle.RootsAreMoreThanSelfSigned | certdiag_app/internal/certops/autosign.go:140-142 | this package's root test compares names only: it also holds of same-name certificates whose two key identifiers are present and differ, and of no others |
| Bundle.SortedChainLeaves | certdiag_app/internal/certops/bundle.go:367-383 | the leaves of the chain map, each once, in reference order |
| Bundle.BestLeafIsUnique | certdiag_app/internal/certops/bundle.go:259-266 | the leaf with the longest chain and least reference is one leaf, whatever the map order |
| Bundle.LongestChain | certdiag_app/internal/certops/bundle.go:259-266 | the longest chain, and the first leaf in order among equals |
| Bundle.ChainPositions | certdiag_app/internal/certops/bundle.go:272-285 | the chain is a list of distinct positions in the certificate list |
| Bundle.AutoChainItems | certdiag_app/internal/certops/bundle.go:216-306 | keys, the chosen chain leaf first, the other certificates in their old order, the rest; roots left out unless wanted |
| Bundle.AutoChainKeepsItems | certdiag_app/internal/certops/bundle.go:216-306 | with the root the result is a permutation of the input; without it and with at least two certificates it is exactly the input minus its roots |
| Bundle.ChosenChainIsSigned | certdiag_app/internal/certops/bundle.go:255-285 | the chosen chain is signed link by link from a leaf, repeats nothing and cannot be extended |
| Bundle.AutoChainIsDetermined | certdiag_app/internal/certops/bundle.go:255-266 | the result does not depend on map iteration order |
| Bundle.RemoveRootCerts | certdiag_app/internal/certops/bundle.go:385-405 | drops the roots, unless that would leave no certificate |
| AiaChase.ResolveAIAURL | certdiag_app/internal/certlib/aia.go:184-224 | the cached certificate when it signed the requester; otherwise found exactly when some served certificate did, and then exactly those, in served order, which are put into the cache; a failure with its reason otherwise |
| AiaChase.ResolveYields | certdiag_app/internal/certlib/aia.go:184-224 | the same of the specification the chase uses |
| AiaChase.FetchedReallySigned | certdiag_app/internal/certlib/aia.go:184-224 | every fetched certificate signed the certificate it was fetched for, cached or not |
| AiaChase.TakeURL | certdiag_app/internal/certlib/aia.go:154-173 | a URL some certificate named before is never resolved again |
| AiaChase.Level | certdiag_app/internal/certlib/aia.go:148-176 | one level expands every certificate of the frontier and forgets none |
| AiaChase.ChaseAIA | certdiag_app/internal/certlib/aia.go:124-179 | every URL is resolved at most once; every fetched certificate is new, signed what it was fetched for and is within the depth; every certificate short of it had all its URLs tried; and of what a tried URL served, every certificate that signed its requester is an input or fetched |
| AiaChase.ShallowChaseIsComplete | certdiag_app/internal/certlib/aia.go:124-179 | when nothing stands at the depth limit, every URL of every reached certificate was tried |
| IssuerClosures.ServeSubject | certdiag_app/internal/certops/trust.go:258-272 | picks every store certificate of a wanted subject not known yet and collects the issuers they ask for |
| IssuerClosures.AnchorContainer | certdiag_app/internal/certops/trust.go:229-290 | the worklist picks exactly the least set of OS-store certificates outside the scan closed under the scan's issuer names, each once |
| IssuerClosures.LeastAnchorsUnique | certdiag_app/internal/certops/trust.go:252-276 | that set does not depend on map order |
| IssuerClosures.CompleteTarget | certdiag_app/cmd/remote.go:882-916 | iterating to a fixpoint adds exactly the fetched certificates whose For links lead to one the target served |
| IssuerClosures.CompletedSame | certdiag_app/cmd/remote.go:882-916 | the order in which keys are tried decides neither which certificates are added nor how many |
| IssuerClosures.AppendAIAToChains | certdiag_app/cmd/remote.go:882-916 | every target in place, each from its own certificates alone |
| IssuerClosures.CompletedTwice | certdiag_app/cmd/remote.go:882-916 | completing twice adds nothing |
| IssuerClosures.AppendedIndexRepeats | certdiag_app/cmd/remote.go:895-912 | the first appended certificate repeats the index of the last served one |
| IssuerClosures.TerminalOfPath | certdiag_app/internal/certops/trust.go:337-362 | the walk takes at each step the first scanned signer not on the path yet, repeats nothing and stops at a self-signed one or where no signer is left; its bound never cuts it short |
| IssuerClosures.LongPathUsesAll | certdiag_app/internal/certops/trust.go:337-362 | a path longer than the scan has used every scanned certificate |
| TrustAnchors.OSMembership | certdiag_app/internal/certops/trust.go:183-199 | holds exactly the certificates of the OS stores; a denial is never overwritten, and otherwise the last setting stays |
| TrustAnchors.MembershipExact | certdiag_app/internal/certops/trust.go:181-199 | membership is presence in an OS store, and denial is denial by some OS store, in any order |
| TrustAnchors.OSRootPool | certdiag_app/internal/certops/trust.go:292-314 | the pool holds exactly the OS certificates no OS store denies; none when there are none |
| TrustAnchors.CrossSignedAnchor | certdiag_app/internal/certops/trust.go:145-167 | finds the first anchor in store order with the CA's subject and key, and finds one if and only if one that no OS store denies exists |
| WorkerPool.RunKeepsInv | certdiag_app/internal/certops/remote_fetch.go:148-161 | token count, wait count and slots agree with the goroutines' positions in every state of every interleaving |
| WorkerPool.NeverTooMany | certdiag_app/internal/certops/remote_fetch.go:148-161 | at most `parallel` targets are in flight at every moment of every run |
| WorkerPool.NeverStuck | certdiag_app/internal/certops/remote_fetch.go:148-161 | no state short of completion is stuck |
| WorkerPool.RunsEnd | certdiag_app/internal/certops/remote_fetch.go:148-161 | every run ends, having finished exactly after five steps a target and one more |
| WorkerPool.OnlyTheOwnerWrites | certdiag_app/internal/certops/remote_fetch.go:151-159 | a slot changes only by its own goroutine's write, at most once |
| WorkerPool.FinishedIsSequential | certdiag_app/internal/certops/remote_fetch.go:144-161 | a finished run holds in every slot what the sequential branch would have put there, written once |
| WorkerPool.FetchAll | certdiag_app/internal/certops/remote_fetch.go:134-172 | sequential and parallel branch give the same results; succeeded plus failed is the total, and the issue counts add up |
| WorkerPool.TotalsExactly | certdiag_app/internal/certops/remote_check.go:147-157 | each total grows by its own counter of a result |
| WorkerPool.RunParallel | certdiag_app/internal/certops/remote_check.go:131-144 | the parallel branch under an arbitrary scheduler gives every target's own result |
| ShellQuoting.CommandString | certdiag_app/internal/opensslcmd/command.go:27-34 | collecting and joining the quoted words gives the specified line |
| ShellQuoting.Render | certdiag_app/internal/opensslcmd/command.go:39-54 | header, one line per command that has a tool, then each note once |
| ShellQuoting.DedupeNotes | certdiag_app/internal/opensslcmd/command.go:56-69 | the notes of all commands, later repetitions dropped |
| ShellQuoting.DedupeExact | certdiag_app/internal/opensslcmd/command.go:56-69 | every note is kept once, none is lost |
| ShellQuoting.QuoteIsLiteral | certdiag_app/internal/opensslcmd/command.go:71-85 | any argument, empty or with quotes, spaces or newlines, is read back by the shell as exactly that one word |
| ShellQuoting.CommandRoundTrip | certdiag_app/internal/opensslcmd/command.go:27-34 | tokenizing a rendered command by section 2.2 of the POSIX Shell Command Language gives the tool and exactly its arguments |
| ShellQuoting.RenderingIsInjective | certdiag_app/internal/opensslcmd/command.go:27-34 | two commands that render alike have the same tool and arguments |
| ShellQuoting.ScriptRoundTrip | certdiag_app/internal/opensslcmd/command.go:36-54 | the whole block pastes into a shell and runs exactly its commands in order if and only if every line of every note behind its first is blank or a comment, backslash-newline read as a continuation, and the last note ends in no open backslash |
| ShellQuoting.OneLineNotesAreInert | certdiag_app/internal/opensslcmd/command.go:49-52 | notes of one line each meet that condition |
| ShellQuoting.NoteWithLineBreakRuns | certdiag_app/internal/opensslcmd/command.go:49-52 | a note whose second line is a plain word runs that word as a command |
| ShellQuoting.KnownToolsArePlain | certdiag_app/internal/opensslcmd/command.go:11-14 | both tool names are words the shell reads as themselves |
| NameConstraintRules.DnsTestIsLabelwise | certdiag_app/internal/certlib/nameconstraints.go:219-229 | the string test is exactly the label-wise suffix rule of section 4.2.1.10 of RFC 5280 under the leading-dot convention |
| NameConstraintRules.NormExactly | certdiag_app/internal/certlib/nameconstraints.go:219-221 | names and constraints are compared without regard to case and one trailing dot, and to nothing else |
| NameConstraintRules.EmailExactly | certdiag_app/internal/certlib/nameconstraints.go:249-275 | an email name meets a constraint with an @ exactly when it is that address, in either case, and any other exactly when the labels behind its last @ are in that subtree |
| NameConstraintRules.EmailWithoutAt | certdiag_app/internal/certlib/nameconstraints.go:249-275 | without an @ the whole name is the domain |
| NameConstraintRules.SubtreesNest | certdiag_app/internal/certlib/nameconstraints.go:219-229 | a constraint that lies in another, read as a name, covers no more names |
| NameConstraintRules.AgainstExact | certdiag_app/internal/certlib/nameconstraints.go:199-268 | excluded wins over permitted, an empty permitted list permits everything, and the exclusion reported is the first that applies |
| NameConstraintRules.AcceptsExactly | certdiag_app/internal/certlib/nameconstraints.go:137-275 | accepted if and only if every name avoids all excluded subtrees and lies in a permitted one if there are any |
| NameConstraintRules.OrderDoesNotMatter | certdiag_app/internal/certlib/nameconstraints.go:137-275 | only the sets of names and subtrees matter |
| NameConstraintRules.GrowthAcceptsOnlyByDroppingTheCN | certdiag_app/internal/certlib/nameconstraints.go:137-169 | more names or exclusions turn a refusal into an acceptance exactly when the refusal was about a common name that no longer stands in |
| NameConstraintRules.GrowthKeepsRefusals | certdiag_app/internal/certlib/nameconstraints.go:137-169 | with a DNS, IP or email name present, growth never accepts what was refused |
| NameConstraintRules.AddingANameCanAccept | certdiag_app/internal/certlib/nameconstraints.go:142-146 | without one, adding an email name accepts a refused common name |
| NameConstraintRules.UriNamesKeepTheCN | certdiag_app/internal/certlib/nameconstraints.go:131-146 | URI names do not lift the check of the common name, against the comment above the function |
| Pkcs8.AddPKCS7Padding | certdiag_app/internal/certlib/pkcs8.go:238-245 | the filled buffer is the specified padding |
| Pkcs8.PadMakesBlocks | certdiag_app/internal/certlib/pkcs8.go:238-245 | padding makes whole blocks and adds between one byte and one block |
| Pkcs8.UnpadUndoesPad | certdiag_app/internal/certlib/pkcs8.go:222-245 | unpadding undoes padding exactly when the padding's length fits a byte |
| Pkcs8.PadUndoesUnpad | certdiag_app/internal/certlib/pkcs8.go:222-245 | padding undoes unpadding on whole blocks (section 6.3 of RFC 5652) |
| Pkcs8.CbcDecryptUndoesEncrypt | certdiag_app/internal/certlib/pkcs8.go:208-212 | CBC decryption undoes encryption for every key, IV and block sequence |
| Pkcs8.CbcEncryptUndoesDecrypt | certdiag_app/internal/certlib/pkcs8.go:208-212 | and encryption undoes decryption |
| Pkcs8.EncryptPKCS8 | certdiag_app/internal/certlib/pkcs8.go:247-317 | the envelope written for the salt and IV drawn |
| Pkcs8.DecryptUndoesEncrypt | certdiag_app/internal/certlib/pkcs8.go:65-98 | decrypting gives back the key exactly when it is well formed; otherwise a wrong password is reported |
| Pkcs8.ForeignEnvelopeDecrypts | certdiag_app/internal/certlib/pkcs8.go:65-235 | an envelope made elsewhere with any supported key derivation, hash, key length and cipher decrypts to its key |
| Pkcs8.DecryptedKeyReencrypts | certdiag_app/internal/certlib/pkcs8.go:65-220 | whatever decrypts is a well-formed key whose padded encryption is exactly the stored ciphertext |
| Pkcs8.EncryptionIsInjective | certdiag_app/internal/certlib/pkcs8.go:247-317 | with one password, salt and IV, different keys give different ciphertexts |
| EncryptedFrame.BuildInner | certdiag_app/internal/crypto/crypto.go:68-71 | filling the buffer by offset gives header, plaintext, padding |
| EncryptedFrame.Encrypt | certdiag_app/internal/crypto/crypto.go:32-81 | salt, nonce and sealed frame, encoded as text |
| EncryptedFrame.BlobLayout | certdiag_app/internal/crypto/crypto.go:32-81 | sixteen octets of salt, twelve of nonce, then what is sealed: four of length, the plaintext and one to thirty-two of padding |
| EncryptedFrame.HeaderIsBigEndian | certdiag_app/internal/crypto/crypto.go:69-69 | the length is written highest octet first |
| EncryptedFrame.UnframeUndoesFrame | certdiag_app/internal/crypto/crypto.go:68-123 | unframing gives back the first the length mod 2^32 bytes for every padding |
| EncryptedFrame.DecryptUndoesEncrypt | certdiag_app/internal/crypto/crypto.go:83-124 | decryption undoes encryption exactly below 2^32 bytes, for every salt, nonce and padding length from 1 to 32 |
| EncryptedFrame.DecryptedWasFramed | certdiag_app/internal/crypto/crypto.go:83-124 | whatever decrypts was the named-length front of a frame opened under this password's key |
| CheckRunner.StableSortIsUnique | certdiag_app/internal/certlib/checker.go:233-235 | there is one stable sort by descending severity, the one modelled |
| CheckRunner.SortIsStable | certdiag_app/internal/certlib/checker.go:233-235 | it is ordered and keeps the original order within each severity |
| CheckRunner.RunChecks | certdiag_app/internal/certlib/checker.go:163-250 | the nested loops compute the specified issues, counts, files and revocation records |
| CheckRunner.RunReportsExactly | certdiag_app/internal/certlib/checker.go:182-217 | exactly the issues of enabled checks on items of the kinds they are written for, in containers that are checked |
| CheckRunner.KindExactly | certdiag_app/internal/certlib/checker.go:116-129 | a key, a request, a CA's certificate, any other certificate |
| CheckRunner.PassesExactly | certdiag_app/internal/certlib/checker.go:211-213 | which severities a minimum keeps; an unknown one keeps all |
| CheckRunner.MostSevereFirst | certdiag_app/internal/certlib/checker.go:233-235 | critical before warning before info before anything else |
| CheckRunner.FilteredRunIsTheRunFiltered | certdiag_app/internal/certlib/checker.go:211-235 | a run with a minimum severity is the unfiltered run's sorted list, filtered |
| CheckRunner.SummariesAgree | certdiag_app/internal/certlib/checker.go:192-247 | each count is the unfiltered run's or 0 when hidden; files scanned and revocation records do not depend on the filter |
| CheckRunner.FilesExact | certdiag_app/internal/certlib/checker.go:213-247 | a file counts exactly when one of its checked containers kept an issue |
| CheckRunner.HiddenInfoIsWhatWasDropped | certdiag_app/cmd/check.go:198-208 | with a minimum of warning, the issues reported and those counted as hidden are together every info, warning and critical issue |
| CheckRunner.StrictExitIgnoresTheFilter | certdiag_app/cmd/check.go:228-259 | under --strict the exit code does not depend on the minimum severity |
| BerFraming.BerContents | certdiag_app/internal/certlib/starttls.go:380-406 | the shift loop over a 64-bit length and the slice bounds, fault included |
| BerFraming.FaultsExactly | certdiag_app/internal/certlib/starttls.go:392-405 | the slice goes backwards exactly when there are eight or more length octets and their value, modulo 2^64, plus the start is 2^63 or more |
| BerFraming.ShortLengthsAreExact | certdiag_app/internal/certlib/starttls.go:392-397 | up to seven length octets the loop computes the big-endian number without overflow |
| BerFraming.ContentsOfEncoded | certdiag_app/internal/certlib/starttls.go:322-332 | reading an encoded element gives its first the length mod 65536 bytes, whatever follows |
| BerFraming.ContentsUndoEncode | certdiag_app/internal/certlib/starttls.go:322-406 | reading undoes encoding exactly up to 65535 bytes (section 8.1.3 of ITU-T X.690) |
| BerFraming.Conn.ReadFull | certdiag_app/internal/certlib/starttls.go:284-315 | reading a number of bytes does not depend on how the stream is fragmented |
| BerFraming.ReadLDAPMessage | certdiag_app/internal/certlib/starttls.go:284-316 | takes exactly one message off the stream and leaves the rest, or fails when none is whole |
| BerFraming.MessageIsWhole | certdiag_app/internal/certlib/starttls.go:284-406 | the contents of a message read are everything after its own length |
| BerFraming.EncodedIsTaken | certdiag_app/internal/certlib/starttls.go:284-332 | an encoded element in front of any stream is the message taken |
| BerFraming.ResponseIsRead | certdiag_app/internal/certlib/starttls.go:334-378 | an ExtendedResponse of section 4.1.1 of RFC 4511 yields its result code, whatever follows |
| BerFraming.ParseCrashesExactly | certdiag_app/internal/certlib/starttls.go:334-378 | reading a response panics exactly when nothing follows the message ID, or the operation is tagged 0x78 and its contents are empty or its length makes the slice go backwards; the same of the outer length |
| BerFraming.MessageCrashesExactly | certdiag_app/internal/certlib/starttls.go:284-378 | for a message that was read whole: the same in terms of its bytes, where the outer length cannot fault |
| BerFraming.EmptyAnswersCrash | certdiag_app/internal/certlib/starttls.go:360-372 | two such answers, of five and seven bytes |
| BerFraming.LongLengthFaults | certdiag_app/internal/certlib/starttls.go:396-405 | an element whose eight length octets make the slice go backwards |
| BerFraming.FinishLDAP | certdiag_app/internal/certlib/starttls.go:264-281 | negotiated exactly when one whole message with result code 0 is there, crashed exactly when the whole message is a crashing one, refused otherwise |
| StartTlsSessions.StarttlsSMTP | certdiag_app/internal/certlib/starttls.go:46-104 | the session's outcome, its log of reads and writes, and the lines it leaves unread, for every transcript |
| StartTlsSessions.SmtpNegotiatesExactly | certdiag_app/internal/certlib/starttls.go:46-104 | succeeds on exactly the transcripts of a whole greeting, a whole EHLO reply mentioning STARTTLS and a positive answer, each command sent after the whole reply before it |
| StartTlsSessions.SmtpLeavesRestOfAnswer | certdiag_app/internal/certlib/starttls.go:94-101 | of a positive answer to STARTTLS the session reads the first line only, so it leaves nothing exactly when that line is the final one |
| StartTlsSessions.SmtpUpgradesOnlyWhenOffered | certdiag_app/internal/certlib/starttls.go:65-91 | in every run STARTTLS is sent only after EHLO and a whole reply that mentions it (section 4 of RFC 3207) |
| StartTlsSessions.RefusalCanOffer | certdiag_app/internal/certlib/starttls.go:67-81 | the EHLO reply's code is not looked at: a refusal that mentions STARTTLS counts as an offer |
| StartTlsSessions.MentionsExactly | certdiag_app/internal/certlib/starttls.go:75-78 | a line mentions STARTTLS exactly when it has these letters, in either case, somewhere |
| StartTlsSessions.StarttlsIMAP | certdiag_app/internal/certlib/starttls.go:111-167 | the session's outcome, its log of reads and writes, and the lines it leaves unread, for every transcript |
| StartTlsSessions.ImapNegotiatesExactly | certdiag_app/internal/certlib/starttls.go:111-167 | succeeds exactly when STARTTLS was offered and its own tagged completion is OK; untagged lines never count (section 6.2.1 of RFC 9051) |
| StartTlsSessions.ImapReadsUpToCompletion | certdiag_app/internal/certlib/starttls.go:146-167 | exactly what follows the tagged completion is left unread |
| StartTlsSessions.ImapUpgradesOnlyWhenOffered | certdiag_app/internal/certlib/starttls.go:123-145 | in every run the upgrade is sent only after an offer in the greeting or in a whole tagged CAPABILITY response |
| StartTlsSessions.StarttlsFTP | certdiag_app/internal/certlib/starttls.go:197-236 | the session's outcome, its log of reads and writes, and the lines it leaves unread, for every transcript |
| StartTlsSessions.FtpNegotiatesExactly | certdiag_app/internal/certlib/starttls.go:197-236 | succeeds exactly on a whole 220 reply, AUTH TLS and a whole 234 reply (section 4 of RFC 4217) |
| StartTlsSessions.FtpReadsWholeAnswer | certdiag_app/internal/certlib/starttls.go:220-233 | the whole answer to AUTH TLS is read |
| StartTlsSessions.ReplyExact | certdiag_app/internal/certlib/starttls.go:50-61 | a reply is read exactly when every line has the code and only the last is final |
| StartTlsSessions.LegalReplyReadExactly | certdiag_app/internal/certlib/starttls.go:49-61 | of the replies section 4.2 of RFC 5321 allows, the greeting and AUTH loops take as whole exactly those whose last line is not the bare code |
| StartTlsSessions.LegalEhloReadExactly | certdiag_app/internal/certlib/starttls.go:68-83 | the EHLO loop exactly those whose last line has text that is not blank |
| AiaCache.FileAIACache.constructor | certdiag_app/internal/certops/aia_cache.go:58-72 | opening a directory shows whatever was stored there |
| AiaCache.FileAIACache.Get | certdiag_app/internal/certops/aia_cache.go:101-126 | returns the certificate in view for the URL unless its time has passed |
| AiaCache.FileAIACache.Put | certdiag_app/internal/certops/aia_cache.go:131-174 | the view is updated at that URL only, until the earlier of NotAfter and fetch time plus TTL; what each failed file operation leaves |
| AiaCache.FileAIACache.WriteFile | certdiag_app/internal/certops/aia_cache.go:139-143 | no other URL's stored bytes change |
| AiaCache.FileAIACache.Index | certdiag_app/internal/certops/aia_cache.go:156-172 | one entry per URL always: replaced in place or appended |
| AiaCache.FileAIACache.Clear | certdiag_app/internal/certops/aia_cache.go:190-196 | nothing is in view afterwards |
| AiaCache.Play | certdiag_app/internal/certops/aia_cache.go:83-196 | any run of Get, Put and Clear, with failing file operations and with the directory opened again, leaves the view in memory and the content on disk that the run specifies, and its Gets answer from them |
| AiaCache.RunHoldsLastPuts | certdiag_app/internal/certops/aia_cache.go:83-196 | a URL is in view exactly when some Put for it survives, with the last such certificate and its expiry; the disk holds the last that was also saved. A Put survives when no Clear removed the directory after it and it was saved before each time the memory was dropped |
| AiaCache.GetAnswersExactly | certdiag_app/internal/certops/aia_cache.go:101-126 | a Get anywhere in a run answers with the last surviving Put for the URL, exactly while that has not expired |
| Revocation.RevocationResult.ApplyStaleness | certdiag_app/internal/certlib/revocation.go:470-483 | withdraws a "good" past nextUpdate, never a "revoked" |
| Revocation.CheckOCSPStaple | certdiag_app/internal/certlib/revocation.go:151-185 | the staple's verdict with its one attempt; none for an empty staple |
| Revocation.QueryOCSP | certdiag_app/internal/certlib/revocation.go:187-239 | the loop over responders returns the first determinate answer with every attempt, and clears what an indeterminate one left |
| Revocation.CheckCRL | certdiag_app/internal/certlib/revocation.go:274-352 | the CRL's verdict, in the order of its checks |
| Revocation.CrlVerdictExact | certdiag_app/internal/certlib/revocation.go:274-352 | a CRL revokes if and only if it parses, is of the same issuer, verifies when the issuer is known and lists the serial, stale or partial or not; it says "good" if and only if it is also fresh, neither delta nor partitioned, and omits the serial |
| Revocation.CrlScope | certdiag_app/internal/certlib/revocation.go:359-374 | issuer match, and whether a delta or partition extension narrows the CRL |
| Revocation.ResolveCRL | certdiag_app/internal/certlib/revocation.go:420-447 | the file when one is given, else the distribution points until one decides |
| Revocation.ResolveRevocation | certdiag_app/internal/certlib/revocation.go:376-418 | staple, OCSP, CRL as the method allows |
| Revocation.EarlierSourcesWereIndeterminate | certdiag_app/internal/certlib/revocation.go:376-418 | the winner is the first determinate source and carries the attempts of all sources up to it, in order; with none, nothing is claimed and all attempts are kept |
| Revocation.StapleExactly | certdiag_app/internal/certlib/revocation.go:151-185 | a staple says "revoked" or "good" exactly when it parses, is not for another serial and has that status, "good" only before its nextUpdate; with the answer's dates, revocation time and reason |
| Revocation.AskFromExactly | certdiag_app/internal/certlib/revocation.go:187-239 | the first responder that is asked, answers and says either decides, with its answer's dates, time and reason, and no other does |
| Revocation.PointsExactly | certdiag_app/internal/certlib/revocation.go:420-447 | the first distribution point whose CRL says either decides, with the CRL's dates and its first entry for the certificate |
| Revocation.ResolvedExactly | certdiag_app/internal/certlib/revocation.go:376-447 | a resolution says "revoked" or "good" exactly when the first source the method consults that says either says so: staple, responders, CRL; nothing revoked is passed over |
| Revocation.VerdictIsBacked | certdiag_app/internal/certlib/revocation.go:151-418 | "good" rests on a source not past nextUpdate: an OCSP "good" for this serial, or a complete CRL of the same issuer that omits the serial and verifies when the issuer is known; "revoked" rests on an OCSP "revoked" for this serial or on such a CRL that lists it (sections 5.2.4, 5.2.5 and 6.3 of RFC 5280) |

## Left out

- AutoChainItems: the list of common names it returns beside the items is not modelled.
- ReencryptPEM: PEM text is an abstract codec that decodes what it encoded; headers of private-key blocks are not kept by the program either.
- WriteJKS: the keystore library's own checks are one accept-or-refuse function, its folding of aliases another function, and its file format is not modelled.
- ReadIsUnique: entries with an empty alias are left out; they are written under a number, which can be another entry's alias.
- ResolveAIAURL: the fetch time and the label that tells a cached certificate from a fetched one's date are not modelled; a warm and a cold cache may lead to different results, since a URL is tried once for whichever certificate names it first.
- FileAIACache.Put: a failed file operation changes nothing; a write cut short in the middle is not modelled.
- ResolveRevocation: the clock is read once per resolution; CRL reason codes stay numbers; "good" from OCSP does not claim an authorised responder, because the program only reports that.
- DecryptPKCS8: a negative key length in PBKDF2 parameters is passed to the library as it is.
- CheckNameConstraints: text is ASCII, so case folding is ASCII folding; `net.IPNet.Contains` is a function parameter.
- StarttlsSMTP: deadlines are not modelled; a transcript simply ends. What the session's own buffer took off the connection beyond the lines it read is not modelled.
- TerminalOfPath: the hint text built from the terminal is not modelled.
- POP3, MySQL and PostgreSQL upgrades: one reply or one packet each, without a loop over lines.
- Relation labels, grouped and table formatting, display names.
- Individual checks, key generation, CSR signing, certificate differ, filters and aliases of the other writers.
- Parsing name-constraint arguments, merging them, and carrying them into generation options.
- Directory scanning, format detection, PKCS#12 and PKCS#7 reading, the TUI, output formatters, configuration and flags.
- TLS dialling, HTTP and proxy handling, and the path verification of x509.
