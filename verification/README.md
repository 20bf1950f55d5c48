# HSM service: a verified model

The service keeps signing keys in two places at once: private and public objects inside PKCS#11
tokens, and rows in MySQL. Token PINs are stored under envelope encryption. This project models
eight parts of it in Dafny and proves what every run of them keeps.

| part | specification and theorems | mutable objects |
|---|---|---|
| key lifecycle and signing gate | `KeyStores`, `KeyLifecycle`, `KeyRuns`, `KeyTheorems`, `SigningTheorems` | `KeyServiceObjects` |
| session pool | `SessionPools` | `SessionPoolObjects` |
| AES-GCM values, key wrapping, master keys | `GoSlices`, `AesGcm`, `KeyManagers` | `AesGcm`, `KeyWrap`, `KeyManagers` |
| slot rows, PINs and start-up | `SlotVault`, `SlotBootstrap` | `SlotObjects` |
| tenant slot labels, token lists | `SlotLabels`, `Tokens` | `SlotLabels` |
| PKCS#11 context and client registry | `Pkcs11Process` | `Pkcs11Objects` |
| audit queue | `AuditQueues` | `AuditWorkerObjects` |
| connection strings | `ConnectionStrings` | |

`dafny verify dfyconfig.toml` checks the whole project.

## How it is built

- Every operation that changes state is a method on mutable fields. It is proved equal to a function
  that the theorems are about, over all inputs, all failures and all runs; the methods of the client
  registry instead state their fields and the library's log of closed sessions outright, and share
  the counting of closes with the machine in `Pkcs11Process`.
- A call that can fail takes an argument that says whether it does (`faults`, `fails`, `works`);
  theorems hold for every value of it. Random draws (UUIDs, nonces, data keys) are arguments too.
- The session pool and the audit queue are machines of atomic steps cut where goroutines can
  interleave; runs are arbitrary sequences of enabled steps.
- Byte buffers are windows on heap arrays with Go's capacity rule for `append`.
- AES-GCM is any pair of functions with the three properties of `IsGcm` (sections 7.1 and 7.2 of
  NIST SP 800-38D); `SomePairIsGcm` shows that such pairs exist.
- Besides the theorems about runs, each operation's answer is stated apart from how it is computed:
  when it succeeds, what it then holds, and which error the first failing step gives (the lemmas
  ending in `Exactly` and `Holds`).
- Runs start anywhere in an invariant; the empty stores and a new process are in it
  (`EmptyStoresMeetInv`, `NewProcessMeetsInv`), as is a warmed-up pool (`WarmUpGivesInv`).
- UUIDs drawn are new, and each tenant's slot number does not change during a run.
- A key object carries the algorithm of the row that was created with it.
- A signature is the pair of the key object that made it and the hash: signatures of different
  objects or hashes differ, and nobody else makes one.

## Where the code falls short of its promise

Each item is a theorem; the code is modelled as it is.

- `SoftHSMClient.DeleteKey` destroys the public object when the search for the private one fails,
  and reports success; DeleteKey then removes the row and the private object stays
  (`SilentFallbackLeavesAnOrphan`, `DeleteBreaksAgreementExactly`).
- The MySQL Save is an INSERT, so RotateKey always fails at its second Save (`InsertNeverRotates`).
  With a replacing Save it succeeds (`RotateSucceedsExactly`), but the old row loses the columns its finder does not select
  (`RotateReplaces`).
- RotateKey looks up tenant and slot again after it has created the new key; when that fails the
  new key stays, active (`RotateRestoresExactly`).
- Two deletions whose row deletes fail leave a row that no DeleteKey can remove
  (`TwoHalfDeletionsHollowTheRow`, `HollowRowsAreNeverRemoved`, `DeleteSucceedsExactly`).
- Signing always uses CKM_SHA256_RSA_PKCS, so an ECDSA key can be created and never signs
  (`SignedExactlyBy`).
- Verifying asks for an active key, so signatures of a rotated key cannot be checked any more
  (`InactiveKeysVerifyNothing`, `VerifiedExactlyBy`).
- A failed on-demand session creation never gives its permit back
  (`FailedCreationsShrinkThePool`, `ExhaustionIsReachable`).
- After finalisation GetOrInitPKCS11Context returns neither a context nor an error
  (`ContextOnlyWhileInitialised`, `NoClientAfterFinalise`).
- The audit worker's Close, described as graceful, cancels before it closes the channel: accepted
  events can be lost exactly if the channel is not empty then (`CloseLosesEventsExactly`,
  `CloseMayLoseEvents`). Events are recorded in order only with a single worker
  (`OrderKeptExactly`). A second Close panics (`AuditWorker.Close`); the deferred calls of main close
  the worker twice.
- Empty plaintexts and PINs are encrypted and then refused by decryption
  (`DecryptInvertsEncryptExactly`, `StoredPinComesBackExactly`).
- DecryptAESGCM writes the tag into the capacity behind the ciphertext (`DecryptAESGCM`,
  `DecryptWithIvBehind`); values of the two constructors are safe (`DecryptTwice`).
- GetKey hands out the cached buffer itself (`ZeroTheReturnedKey`).
- A slot row left without metadata makes every later start-up fail, for all slots
  (`OrphanedRowBlocksBootstrap`, `ReadableExactly`).
- Stored slots that resolve to one slot number push each other out of the registry
  (`ClientStaysExactly`).
- Slot numbers can change on restart, but only rows marked temporary are looked up by label, and a
  saved result clears the mark: from then on the stored number is used unchecked
  (`ClientGoesToItsTenantsToken`, `ResolvedNumbersStay`).
- Blanks inside quotes make the second normalisation of a connection string differ from the first
  (`TwiceIsOnceExactly`, `QuotedBlankIsNotStable`).

## Model

| member | source | states |
|---|---|---|
| `KeyRuns.StoresAgreeUnlessACallFailed` | internal/application/services/key_service.go:64-241 | Over every run of create, rotate and delete requests, whatever calls fail, a label has a private object without a row, or a row without a private object, only if a destroying or compensating call for that very label failed, or succeeded on the public object because the search for the private one had failed; each label belongs to at most one row |
| `KeyRuns.CreateEffect` | internal/application/services/key_service.go:280-339 | Success adds both objects and exactly one row, all three under one label; an error adds no row, and a private object left behind is one whose removal was reported as failed, or as done although only the public object went |
| `KeyRuns.RotateEffect` | internal/application/services/key_service.go:146-182 | Once the replacement key exists: success needs a Save that replaces rows; an error of the tenant or slot lookup keeps the new key and its row; an error of Save leaves what the two compensations did not reach |
| `KeyTheorems.SilentFallbackLeavesAnOrphan` | internal/infrastructure/hsm/client_inventory.go:86-106 | A two-step run in which every call reports success and yet the row is gone while the private object remains |
| `KeyTheorems.DeleteBreaksAgreementExactly` | internal/application/services/key_service.go:187-241 | DeleteKey makes token and table disagree about its key if and only if the token destroys an object and exactly one of two things happens: the search for the private object fails, or the row cannot be deleted |
| `KeyTheorems.CreateSucceedsExactly` | internal/application/services/key_service.go:64-103 | CreateKey succeeds if and only if algorithm, size, usage, name and tenant are acceptable, the id is free or Save replaces rows, and no call up to Save fails |
| `KeyTheorems.CreatedKeyHolds` | internal/application/services/key_service.go:280-339 | The record handed back is the row stored, field by field what was asked for, what the caller is and what was drawn, the exported public key included, and both objects lie under its label in the tenant's token |
| `KeyTheorems.CreateErrorsExactly` | internal/application/services/key_service.go:64-103 | Each error occurs if and only if its check is the first to fail |
| `KeyTheorems.KeySizesExactly` | internal/infrastructure/hsm/client_keygen.go:98-148 | RSA 2048, 3072 and 4096 and ECDSA 256, 384 and 521 can be generated, nothing else |
| `KeyTheorems.CreateRestoresExactly` | internal/application/services/key_service.go:280-339 | CreateKey leaves rows and private objects as they were if and only if it made no objects, or failed later and the destroy call of that stage worked, stated on its inputs and failing calls |
| `KeyTheorems.RotateRestoresExactly` | internal/application/services/key_service.go:144-184 | Once the new key exists, RotateKey restores rows and private objects if and only if both lookups work, the final Save fails and both compensations work; a failing tenant or slot lookup leaves the new key in place, active |
| `KeyTheorems.InsertNeverRotates` | internal/infrastructure/storage/mysql/key_storage.go:29-95 | With Save as a plain INSERT on a unique id, RotateKey never succeeds and never changes a row that was there |
| `KeyTheorems.RotateSucceedsExactly` | internal/application/services/key_service.go:117-185 | A rotation succeeds if and only if Save replaces rows, the key is the caller's tenant's, the replacement can be created and no call fails |
| `KeyTheorems.RotatedKeyHolds` | internal/application/services/key_service.go:144-153 | The replacement is the row stored, field by field: the drawn public key, the old name with its suffix, the old algorithm, size and purpose, the caller's owner columns |
| `KeyTheorems.RotateErrorsExactly` | internal/application/services/key_service.go:117-185 | Each error occurs if and only if its call is the first to fail |
| `KeyTheorems.RotateReplaces` | internal/application/services/key_service.go:144-184 | Success leaves the old key inactive and one new active key of the same tenant, algorithm, size and purpose, every other row and object unchanged; the old row keeps its other columns if and only if those the finder does not select were blank |
| `KeyTheorems.OnlyTheLastRotatedKeyIsActive` | internal/application/services/key_service.go:117-185 | After any number of rotations of a key and its successors, exactly the last one is active, with the first one's tenant, algorithm, size and purpose; rows outside the line are unchanged |
| `SigningTheorems.SignedExactlyBy` | internal/application/services/signing_service.go:56-84 | SignHash succeeds if and only if no call fails and the row is in the caller's tenant, active, allowed to sign, an RSA key and its private object exists; the signer belongs to no other row |
| `SigningTheorems.RetiredKeysNeverSignAgain` | internal/application/services/signing_service.go:132-181 | Once an id is retired, no SignHash with it succeeds after any further run, for any tenant |
| `SigningTheorems.RotationRetires` | internal/application/services/key_service.go:175-184 | A successful rotation retires the old id and not the new one |
| `SigningTheorems.DeletionRetiresExactly` | internal/application/services/key_service.go:234-240 | A deletion past its lookups retires the id if and only if the token destroys an object and either the row goes, too, or that object was the private one |
| `SigningTheorems.DeleteSucceedsExactly` | internal/application/services/key_service.go:187-241 | DeleteKey succeeds if and only if no lookup and no row delete fails and the token finds and destroys an object; without any failing call, exactly for the rows that still have one |
| `SigningTheorems.DeleteTakesExactly` | internal/application/services/key_service.go:187-241 | Exactly which object and row a deletion takes away: the public object stays when the private one goes, and no other label is touched; and which error it reports |
| `SigningTheorems.GateErrorsExactly` | internal/application/services/signing_service.go:132-181 | Each error of the gate occurs if and only if its check is the first to fail |
| `SigningTheorems.VerifiedExactlyBy` | internal/application/services/signing_service.go:100-131 | VerifyHashSignature answers if and only if no call fails and the row is in the caller's tenant, active, allowed to sign, an RSA key and its public object exists |
| `SigningTheorems.SignaturesVerifyExactly` | internal/application/services/signing_service.go:100-131 | A signature checked after any further run with any id, tenant and hash: an answer that is no error is yes if and only if id and hash are those that were signed |
| `SigningTheorems.InactiveKeysVerifyNothing` | internal/application/services/signing_service.go:132-181 | After rotation or a completed deletion, verifying with the old id fails for ever, also for signatures made before |
| `SigningTheorems.HollowRowsAreNeverRemoved` | internal/application/services/key_service.go:187-241 | A row whose two objects are gone stays through every run, and every DeleteKey for it fails |
| `SigningTheorems.TwoHalfDeletionsHollowTheRow` | internal/application/services/key_service.go:234-240 | Two deletions whose row deletes fail are enough to bring a row into that state |
| `KeyServiceObjects.SoftHSM.GenerateKeyPair` | internal/infrastructure/hsm/client_keygen.go:15-89 | The two objects appear together or, after a failed export, remain exactly where their destroy call failed |
| `KeyServiceObjects.SoftHSM.DeleteKey` | internal/infrastructure/hsm/client_inventory.go:66-107 | The private object is destroyed if the search finds it, else the public one |
| `KeyServiceObjects.KeyTable.Save` | internal/infrastructure/storage/mysql/key_storage.go:29-95 | Fails with no effect, or the row of that id becomes the given key; as an INSERT it fails for a known id |
| `KeyServiceObjects.LoadedKey.Deactivate` | internal/domain/entities/cryptographic_key.go:81-83 | Changes only the active flag of the loaded record |
| `KeyServiceObjects.KeyService.CreateKey` | internal/application/services/key_service.go:64-103 | The mutable stores end exactly where the specification of the saga puts them, for every combination of failing calls |
| `KeyServiceObjects.KeyService.RotateKey` | internal/application/services/key_service.go:117-185 | The same for RotateKey with its two compensations |
| `KeyServiceObjects.KeyService.DeleteKey` | internal/application/services/key_service.go:187-241 | The same for DeleteKey |
| `KeyServiceObjects.KeyService.SignHash` | internal/application/services/signing_service.go:56-84 | The signing gate and the token call, with the order of errors |
| `KeyServiceObjects.KeyService.VerifyHashSignature` | internal/application/services/signing_service.go:100-131 | The same gate before the public object is used |
| `SessionPools.EveryRunKeepsInv` | internal/infrastructure/hsm/session_pool.go:86-124 | In every interleaving permits in use equal calls in progress plus lent sessions plus failed on-demand creations, idle plus lent plus being-created sessions never exceed the maximum, and each opened session is in exactly one place |
| `SessionPools.BoundKept` | internal/infrastructure/hsm/session_pool.go:86-109 | The capacity bound is kept by each atomic step, from the permits and the emptiness of the idle channel together |
| `SessionPools.NeverFullOnReturn` | internal/infrastructure/hsm/session_pool.go:111-124 | The close-when-full branch of ReturnSession is never reached |
| `SessionPools.NoSessionIsSharedInAnyRun` | internal/infrastructure/hsm/session_pool.go:99-142 | In every run no session has two borrowers, and a lent one is neither idle nor closed |
| `SessionPools.WarmUpGivesInv` | internal/infrastructure/hsm/session_pool.go:74-80 | Whatever opens and logins fail during warm-up, the pool starts in the invariant with no permit used |
| `SessionPools.WarmUpExactly` | internal/infrastructure/hsm/session_pool.go:74-80 | Idle afterwards are exactly the sessions that could be opened and logged in, closed those that could only be opened |
| `SessionPools.FirstBackFirstOut` | internal/infrastructure/hsm/session_pool.go:86-124 | In every interleaving idle sessions are handed out in the order in which they came back |
| `SessionPools.CloseClosesEachSessionOnce` | internal/infrastructure/hsm/session_pool.go:144-161 | Close after all calls have ended: each session ever opened was closed exactly once |
| `SessionPools.FailedCreationsShrinkThePool` | internal/infrastructure/hsm/session_pool.go:105-142 | Each failed on-demand creation takes one permit away for good; with as many failures as permits no call ever starts again |
| `SessionPools.ExhaustionIsReachable` | internal/infrastructure/hsm/session_pool.go:105-142 | From any quiet pool without idle sessions that state is reached by one failing call per remaining permit |
| `SessionPoolObjects.NewSessionPool` | internal/infrastructure/hsm/session_pool.go:26-84 | Fails with the error of the first step that fails, and else gives a warmed-up pool on the first readable token with exactly the configured label |
| `SessionPoolObjects.NamedExactly` | internal/infrastructure/hsm/session_pool.go:45-63 | The slot found is the first whose token is readable and carries exactly the configured label |
| `SessionPoolObjects.SessionPool.constructor` | internal/infrastructure/hsm/session_pool.go:65-84 | The warm-up loop gives the pool the invariant starts from |
| `SessionPoolObjects.SessionPool.Select` | internal/infrastructure/hsm/session_pool.go:95-108 | The three-way select; an idle session is always taken when there is one and the caller has not gone away |
| `SessionPoolObjects.SessionPool.LoginNew` | internal/infrastructure/hsm/session_pool.go:126-142 | A failed login closes the session that was opened and keeps the permit |
| `SessionPoolObjects.SessionPool.PutSessionBack` | internal/infrastructure/hsm/session_pool.go:111-124 | The returned session goes back to the idle channel, or is closed when that is full; a closed pool ignores the call |
| `SessionPoolObjects.SessionPool.Close` | internal/infrastructure/hsm/session_pool.go:144-161 | The drain loop logs out and closes exactly the idle sessions, in order, and finalises; a second call does nothing |
| `SlotLabels.UuidsFitIn25Digits` | pkg/helpers/helper.go:11-29 | 16^32 < 36^25 |
| `SlotLabels.UuidLabel` | pkg/helpers/helper.go:11-29 | A UUID's label has at most 27 characters and is never cut |
| `SlotLabels.LabelsTellTenantsApart` | pkg/helpers/helper.go:11-29 | Two UUIDs get equal labels if and only if they are equal up to hyphens and letter case |
| `SlotLabels.TruncatedExactly` | pkg/helpers/helper.go:11-29 | For every readable text the label is cut if and only if its number needs more than 30 base-36 digits, and never exceeds 32 characters |
| `SlotLabels.Text36ReadsBack` | pkg/helpers/helper.go:16-18 | Reading a base-36 numeral back gives its number |
| `SlotLabels.NumeralsAreUnique` | pkg/helpers/helper.go:16-18 | Each number has one base-36 numeral: writing what a numeral says gives the numeral back |
| `SlotLabels.HexDigitsReadExactly` | pkg/helpers/helper.go:13-17 | Which characters are hexadecimal digits and what each counts |
| `SlotLabels.Value16Concat` | pkg/helpers/helper.go:16-17 | Reading in base 16 is positional |
| `SlotLabels.HyphensDropExactly` | pkg/helpers/helper.go:12-13 | Hyphens are dropped wherever they stand, and nothing else is |
| `SlotLabels.LabelIsTheNumeral` | pkg/helpers/helper.go:11-29 | For every UUID the label is t- and the base-36 numeral of the number its digits spell, and no other |
| `SlotLabels.LabelOfUuidOne` | pkg/helpers/helper.go:11-29 | The UUID that spells the number one has the label t-1 |
| `SlotLabels.TrimPKCS11String` | internal/infrastructure/hsm/bootstrapper.go:221-229 | The longest prefix that does not end in a blank |
| `SlotLabels.TrimUndoesPadding` | internal/infrastructure/hsm/bootstrapper.go:221-229 | Trimming undoes blank padding of any text that does not end in a blank |
| `SlotLabels.FindSlotByLabel` | internal/infrastructure/hsm/bootstrapper.go:177-218 | The loop returns the first readable token with the wanted label |
| `SlotLabels.EachTenantFindsItsOwnSlot` | internal/infrastructure/hsm/bootstrapper.go:177-218 | Among tokens of distinct tenants, in any order and with any numbers, a tenant's label finds that tenant's slot, or nothing if its token cannot be read |
| `AesGcm.DecryptInvertsEncryptExactly` | pkg/crypto/aesgcm.go:28-96 | Decrypting gives the plaintext back if and only if it is not empty |
| `AesGcm.EncryptsUnderTheNonce` | pkg/crypto/aesgcm.go:28-65 | The drawn nonce is the IV, ciphertext and tag are what the cipher made under it, with their lengths; and when each error occurs |
| `AesGcm.DecryptsExactly` | pkg/crypto/aesgcm.go:67-96 | A plaintext comes back if and only if key and value have their shape and the cipher seals it to these bytes; and when each error occurs |
| `AesGcm.WrapsExactly` | pkg/crypto/keywrap.go:14-49 | Wrapping succeeds if and only if both lengths fit and a nonce was drawn; the nonce leads the bytes, and they open again |
| `AesGcm.UnwrapsExactly` | pkg/crypto/keywrap.go:52-76 | Unwrapping gives a key if and only if the lengths fit and the cipher seals it to these bytes |
| `AesGcm.BytesParseBackExactly` | internal/domain/valueobjects/encrypt_aes_gcm.go:17-42 | A value is what its bytes parse to if and only if it has a 12-byte IV, a 16-byte tag, the AES-256-GCM algorithm and no key id |
| `AesGcm.ParsedBytesPrintBack` | internal/domain/valueobjects/encrypt_aes_gcm.go:17-42 | Whatever parses prints back to the same bytes; parsing fails exactly below 28 bytes |
| `AesGcm.OneFormat` | pkg/crypto/keywrap.go:14-76 | WrapKey and ToBytes of EncryptAESGCM give the same bytes, and each side opens the other's data |
| `AesGcm.OnlyWrappedBytesUnwrap` | pkg/crypto/keywrap.go:52-76 | Only what wrapping produces unwraps |
| `AesGcm.DecryptAESGCM` | pkg/crypto/aesgcm.go:67-96 | What the append writes into the ciphertext's array, byte for byte, and the result in terms of the bytes the cipher then reads; nothing changes when the tag follows the ciphertext in its array or there is no room behind the ciphertext |
| `AesGcm.EncryptAESGCM` | pkg/crypto/aesgcm.go:28-65 | Ciphertext and tag are neighbours in one fresh buffer |
| `GoSlices.Append` | pkg/crypto/aesgcm.go:86-88 | Go's append: in place when the capacity suffices, else in a new array |
| `GoSlices.OverwrittenIsSameExactly` | pkg/crypto/aesgcm.go:86-88 | Writing leaves an array unchanged if and only if the data was there already |
| `KeyWrap.WrapKey` | pkg/crypto/keywrap.go:14-49 | The buffer filled by successive appends holds IV, ciphertext and tag; errors by key lengths |
| `KeyWrap.UnwrapKey` | pkg/crypto/keywrap.go:52-76 | The inverse on slices of the caller's buffer, in a buffer of its own |
| `KeyWrap.NewEncryptedDataFromBytes` | internal/domain/valueobjects/encrypt_aes_gcm.go:26-42 | The parts stay windows on the caller's data, ciphertext and tag side by side |
| `KeyWrap.DecryptTwice` | pkg/crypto/aesgcm.go:67-96 | Decrypting a value of either constructor twice gives one answer twice and leaves its buffer alone |
| `KeyWrap.DecryptWithIvBehind` | pkg/crypto/aesgcm.go:86-95 | A value whose IV lies right behind the ciphertext, inside its capacity, is opened with the head of the tag as IV; an answer is then a plaintext that this wrong IV seals to the same bytes |
| `KeyManagers.RewrappedKeysUnwrap` | internal/infrastructure/secrets/k8s_manager.go:313-346 | After a chain of re-wrappings of any length the last version's key gives back the original data key; the chain succeeds if and only if every version has a 32-byte key and a nonce |
| `KeyManagers.LocalAESKeyManager.RewrapKey` | internal/infrastructure/secrets/local_manager.go:136-169 | Re-wraps; zeroing the intermediate key touches neither result, input nor master key |
| `KeyManagers.LocalAESKeyManager.DecryptWithKey` | internal/infrastructure/secrets/local_manager.go:115-134 | The result is the decryption of the value as it was before the call, for values of the two constructors and whenever the IV has an array of its own |
| `KeyManagers.K8sAESKeyManager.GetKey` | internal/infrastructure/secrets/k8s_manager.go:66-135 | With an unchanged Secret, after any history, the returned key is what an uncached lookup of that id gives; every buffer already in the cache stays there unchanged |
| `KeyManagers.ResolvesExactly` | internal/infrastructure/secrets/k8s_manager.go:84-128 | The configured id stands for the current field, the old id for the old field if there is one, any other id for the field of its name; the key is the decoded value if it decodes, else the raw one, and only if it has 32 bytes |
| `KeyManagers.RewrapMovesToTheCurrentKey` | internal/infrastructure/secrets/k8s_manager.go:313-346 | What opened under the previous master key's field opens, re-wrapped, under the current one's field to the same data key |
| `KeyManagers.RewrapsExactly` | internal/infrastructure/secrets/k8s_manager.go:313-346 | When re-wrapping succeeds, and that a missing new key shows only after the old one has opened |
| `KeyManagers.WrapsDataKeyExactly` | internal/infrastructure/secrets/k8s_manager.go:214-240 | A data key can be wrapped if and only if the master key and it have 32 bytes and a nonce was drawn; the nonce leads the 60 bytes |
| `KeyManagers.UnwrapsDataKeyExactly` | internal/infrastructure/secrets/k8s_manager.go:183-211 | When a data key comes back, and when each error occurs |
| `KeyManagers.K8sAESKeyManager.RewrapKey` | internal/infrastructure/secrets/k8s_manager.go:313-346 | The result is the re-wrapping under the keys that a call can find, cached or read, and the cache stays correct although the recovered data key is zeroed on every path |
| `KeyManagers.K8sAESKeyManager.WrapKey` | internal/infrastructure/secrets/k8s_manager.go:214-240 | Wraps under the key that the call finds, cached or read, in a buffer that is not in the cache; the error says when there is none |
| `KeyManagers.K8sAESKeyManager.UnwrapKey` | internal/infrastructure/secrets/k8s_manager.go:183-211 | Unwraps under the key that the call finds, cached or read, into a buffer that is not in the cache; the error says when there is none |
| `KeyManagers.ZeroTheReturnedKey` | internal/infrastructure/secrets/k8s_manager.go:74-134 | The limit of that guarantee: a caller zeroing the key it received makes the cache hand out zeros |
| `SlotVault.CreateAddsBothRowsOrNone` | internal/application/services/slot_service.go:164-262 | A creation succeeds if and only if sealing, wrapping and both inserts work, and then adds exactly two rows that point at each other; otherwise it changes the tables if and only if the metadata insert and both deletions of the slot row fail |
| `SlotVault.StoredRowsHoldTheRequest` | internal/application/services/slot_service.go:182-252 | The stored rows hold the requested label and number, the envelope made under the drawn key and nonce, and the data key wrapped under the named master key |
| `SlotVault.CreationErrorsExactly` | internal/application/services/slot_service.go:164-252 | Each error occurs if and only if its step is the first to fail |
| `SlotVault.StoredPinComesBackExactly` | internal/application/services/slot_service.go:182-259 | A stored PIN is recovered if and only if it is not empty |
| `SlotBootstrap.AllStoredPinsComeBack` | internal/application/services/slot_service.go:164-262 | After any run of creations and start-ups, failing ones included, every PIN stored comes back for its own slot, unless empty, and earlier ones still do |
| `SlotBootstrap.BootstrapUsesEachStoredPin` | internal/infrastructure/hsm/bootstrapper.go:42-146 | After any run, start-up cannot read the slots if and only if the query fails or some creation left its row without metadata, and then opens nothing; otherwise, in any row order, it tries a client with exactly the stored PIN for each slot whose PIN is not empty and whose metadata can be read, and no other client |
| `SlotBootstrap.BootstrapSucceedsExactly` | internal/infrastructure/hsm/bootstrapper.go:42-70 | Start-up succeeds if and only if the slots can be read and some slot with a stored non-empty PIN has readable metadata and a client that can be built; without one it reports that there are no clients |
| `SlotBootstrap.CallsFollowTheRows` | internal/infrastructure/hsm/bootstrapper.go:52-59 | Clients are tried in the order of the rows |
| `SlotBootstrap.LastClientServes` | internal/infrastructure/hsm/bootstrapper.go:148-166 | A slot number is served by the last client built on it |
| `SlotBootstrap.ClientStaysExactly` | internal/infrastructure/hsm/bootstrapper.go:148-166 | A client that was built still serves its number at the end if and only if no later visit built one on the same number |
| `SlotBootstrap.ServedExactly` | internal/infrastructure/hsm/bootstrapper.go:42-70 | A slot number is served if and only if some visit built a client on it |
| `SlotBootstrap.ReadRowsExactly` | internal/infrastructure/storage/mysql/slot_storage.go:74-117 | The rows come back, one for one, if and only if none of them points nowhere |
| `SlotBootstrap.ReadableExactly` | internal/infrastructure/storage/mysql/slot_storage.go:74-117 | Over every run the slot list stays readable if and only if it was and no creation left its row behind |
| `SlotBootstrap.ClientGoesToItsTenantsToken` | internal/infrastructure/hsm/bootstrapper.go:110-146 | Whatever order and numbers the tokens have, the client goes to the readable token of the slot's own tenant if and only if the row's number is marked temporary or happens to be that token's |
| `SlotBootstrap.ResolvedNumbersStay` | internal/infrastructure/hsm/bootstrapper.go:110-146 | A number that was resolved and saved is used by every later start-up, after any run and whatever the tokens are numbered by then |
| `SlotBootstrap.VisitsKeep` | internal/infrastructure/hsm/bootstrapper.go:110-146 | Start-up changes nothing in the tables but slot numbers and their temporary marks |
| `SlotBootstrap.OrphanedRowBlocksBootstrap` | internal/infrastructure/hsm/bootstrapper.go:42-49 | After a creation that left its slot row without metadata every later start-up fails and opens no client, whatever is created or started in between |
| `SlotObjects.Database.CreateMetadata` | internal/infrastructure/storage/mysql/aes_key_metadata_storage.go:23-86 | One transaction: the metadata row and the slot row's pointer, or neither |
| `SlotObjects.CleanupHandler.Cleanup` | internal/application/services/slot_service.go:384-389 | The registered operations are undone last one first |
| `SlotObjects.SlotService.CreateHSMSlot` | internal/application/services/slot_service.go:164-262 | Works on real buffers: the tables end as specified although every buffer is zeroed, so the rows hold copies; the returned slot's own PIN columns are zeros, and only the tables change |
| `SlotObjects.SlotService.Wipe` | internal/application/services/slot_service.go:255-259 | Data key, wrapped key, IV, ciphertext and tag all end as zeros, although ciphertext and tag share a buffer |
| `SlotObjects.Database.GetAllSlots` | internal/infrastructure/storage/mysql/slot_storage.go:74-117 | The scanning loop gives each row's columns in slices of their own, or nothing as soon as one row points nowhere |
| `SlotObjects.HSMBootstrapper.InitializeSlot` | internal/infrastructure/hsm/bootstrapper.go:72-174 | The client's PIN is the stored one, the registry gets the client if it is built, and the row's column bytes are as before although the tag was appended behind the ciphertext |
| `SlotObjects.HSMBootstrapper.UsePin` | internal/infrastructure/hsm/bootstrapper.go:107-166 | Data key and PIN bytes end as zeros, the PIN handed to the client does not |
| `SlotObjects.HSMBootstrapper.VisitAll` | internal/infrastructure/hsm/bootstrapper.go:52-59 | Each slot's turn finds its columns as they were read: no other turn's append or zeroing reaches them or the shared master key |
| `SlotObjects.HSMBootstrapper.Bootstrap` | internal/infrastructure/hsm/bootstrapper.go:42-70 | The calls, the registry, the tables and the error are those specified, for any row order, and the master key is unchanged |
| `Pkcs11Process.ContextOnlyWhileInitialised` | internal/infrastructure/hsm/pkcs11_context.go:40-70 | A context is returned only for the path it was built with and never after finalisation; neither context nor error is returned exactly after finalisation |
| `Pkcs11Process.GetAnswersExactly` | internal/infrastructure/hsm/pkcs11_context.go:40-70 | The first call gives the context if and only if loading and initialising work, else the error of the step that failed, and decides every later answer; another path is refused if and only if a context is there |
| `Pkcs11Process.ContextStaysUntilFinalised` | internal/infrastructure/hsm/pkcs11_context.go:40-99 | Through every run without a successful finalisation every call for the path gets the context |
| `Pkcs11Process.FinalizesExactly` | internal/infrastructure/hsm/pkcs11_context.go:82-99 | Finalising takes effect if and only if there is a context and the library agrees |
| `Pkcs11Process.NewClientExactly` | internal/infrastructure/hsm/client.go:30-95 | A client is built if and only if the context is there and slot list, open, info and login all work; else an opened session is closed again |
| `Pkcs11Process.RegistersExactly` | internal/infrastructure/hsm/manager.go:28-42 | Registering closes the client that served the slot and no other |
| `Pkcs11Process.EveryRunKeepsInv` | internal/infrastructure/hsm/pkcs11_context.go:40-99 | Over every sequence of get, build, register, close, shut-down and finalise calls Initialize runs at most once and no session is closed twice |
| `Pkcs11Process.CloseEachKeepsInv` | internal/infrastructure/hsm/manager.go:213-242 | For any iteration order of the registry, exactly the registered clients end up closed in addition |
| `Pkcs11Process.CloseAllFinalisesLast` | internal/infrastructure/hsm/manager.go:213-242 | When the context is finalised every registered client is closed; all sessions are closed exactly once if and only if no unregistered client was left open |
| `Pkcs11Process.NoClientAfterFinalise` | internal/infrastructure/hsm/client.go:30-95 | Building a client hits the missing context if and only if the library was finalised |
| `Pkcs11Process.NoSecondInitialisation` | internal/infrastructure/hsm/pkcs11_context.go:40-99 | After a failed first attempt or a finalisation no call ever initialises again |
| `Pkcs11Objects.SharedContext.GetOrInitPKCS11Context` | internal/infrastructure/hsm/pkcs11_context.go:40-70 | The init-once state machine on its package variables |
| `Pkcs11Objects.SharedContext.FinalizePKCS11Context` | internal/infrastructure/hsm/pkcs11_context.go:82-99 | Called only when its users are closed; a failing Finalize keeps the context |
| `Pkcs11Objects.NewSoftHSMClient` | internal/infrastructure/hsm/client.go:30-95 | Opens, asks and logs in as specified; a session is closed again when a step after its opening fails |
| `Pkcs11Objects.HSMManager.RegisterClient` | internal/infrastructure/hsm/manager.go:28-42 | The replaced client is closed, its session at most once, and the new one serves the slot; registering a client again for its own slot closes it |
| `Pkcs11Objects.HSMManager.CloseAll` | internal/infrastructure/hsm/manager.go:213-242 | Every registered client is closed before the context is finalised, for any iteration order |
| `Pkcs11Objects.WalkClosesOnce` | internal/infrastructure/hsm/manager.go:213-242 | The walk over the registry closes each open session exactly once and no other, even if one client serves two slots |
| `AuditQueues.NoEventIsRecordedTwice` | internal/infrastructure/audit/worker.go:72-123 | In every interleaving of any number of senders and workers, the events submitted are exactly those dropped, waiting, queued, in a worker's hands or handed to the recorder; each is handed over at most as often as submitted, and leaves the queue in the order it entered |
| `AuditQueues.NothingDroppedWithRoom` | internal/infrastructure/audit/worker.go:104-123 | Events are dropped or wait only when the channel is full or the worker is being closed |
| `AuditQueues.WorkersLiveUntilCancelled` | internal/infrastructure/audit/worker.go:72-88 | No worker stops before the cancellation |
| `AuditQueues.OneWorkerHandsInOrder` | internal/infrastructure/audit/worker.go:72-88 | With one worker events are recorded in the order of acceptance |
| `AuditQueues.OrderKeptExactly` | internal/infrastructure/audit/worker.go:63-88 | For every capacity of at least one: all runs record events in the order of acceptance if and only if there is at most one worker |
| `AuditQueues.CloseTerminates` | internal/infrastructure/audit/worker.go:126-147 | After Close no schedule is longer than the remaining work, a schedule can stop only when every worker has stopped, and then each accepted event was recorded or is still in the channel |
| `AuditQueues.CloseLosesEventsExactly` | internal/infrastructure/audit/worker.go:126-147 | From every closed state some schedule stops all workers with accepted events unrecorded if and only if the channel is not empty at that moment |
| `AuditQueues.CloseMayLoseEvents` | internal/infrastructure/audit/worker.go:126-147 | A closed state with an event in the channel is reached with any number of workers and any room |
| `AuditWorkerObjects.AuditWorker.SendEvent` | internal/infrastructure/audit/worker.go:104-123 | The event is accepted, refused or made to wait; it is accepted when there is room and nothing is cancelled |
| `AuditWorkerObjects.AuditWorker.WorkerRound` | internal/infrastructure/audit/worker.go:72-88 | One round is one enabled step of the machine; after cancellation a live worker can always go on |
| `AuditWorkerObjects.AuditWorker.Close` | internal/infrastructure/audit/worker.go:126-147 | Panics if and only if it is a second call, or a sender still waits and chooses its send as the channel is closed; else it ends, for every schedule, with waiting senders gone, all workers stopped and every accepted event recorded or left in the channel |
| `ConnectionStrings.ParseMySQLConnectionString` | internal/infrastructure/database/parse.go:9-64 | Every result contains tls=, parseTime= and timeout= |
| `ConnectionStrings.NormalisesExactly` | internal/infrastructure/database/parse.go:9-64 | Texts that begin with mysql:// once bare go through the URL parser and can fail, all others are completed |
| `ConnectionStrings.CompletesExactly` | internal/infrastructure/database/parse.go:47-63 | A DSN gets exactly the parameters it lacks, with their values and in order, the first set off with a question mark if there is none |
| `ConnectionStrings.ParamsExactly` | internal/infrastructure/database/parse.go:24-39 | The query of a URL gets the same after its ssl-mode settings were replaced |
| `ConnectionStrings.ReplacesTheFirst` | internal/infrastructure/database/parse.go:26-28 | Replacing touches the first occurrence and nothing else |
| `ConnectionStrings.UrlPartsReadBack` | internal/infrastructure/database/parse.go:20-44 | Reading the rewritten URL as a DSN gives user, password, host, database and query each in its place |
| `ConnectionStrings.SecondTimeExactly` | internal/infrastructure/database/parse.go:9-64 | A string with all three parameters, as every normalised one is, is left alone by a further pass if and only if it has no outer blanks or quotes, provided it does not then read as a mysql:// URL |
| `ConnectionStrings.TwiceIsOnceExactly` | cmd/api/main.go:194 | The same judged from the first input of the two passes at start-up, DSN or URL: stable if and only if the first pass left no blank or quote at an edge, provided its result does not read as a mysql:// URL |
| `ConnectionStrings.InnerBlankIsNotStable` | internal/infrastructure/database/mysql.go:32 | A family of inputs for which the second pass at start-up changes the string |

## Left out

- HTTP handlers, routes, configuration, logging, SQL text, the MySQL driver, the Kubernetes client and the Vault stub: they keep no state of their own between calls.
- Audit emission inside the services, key-operation tracking, the HTTP and hybrid audit recorders: they pass one value on and keep nothing; the hybrid one falls back once and never uses its buffer.
- The JWKS cache: it replaces one map by another, and no other part reads it.
- AES, base64 and url.Parse: parameters of the model, so nothing is said about their internals.
- GetPublicKey, the encryption operations of the token client, cryptoService and HSMKeyService: lookups that change nothing, the last two not wired at start-up.
- Concurrent calls on one SoftHSMClient: its methods are modelled one after the other.
- Pool Close racing with borrowers: Close is one final step after they stop.
- The login state that sessions of one token share.
- Process crashes between two database calls: the code has no recovery for them.
- GetFreshSlotList and GetFreshPKCS11Context: the token list is a parameter, read anew for every slot.
- Tenant ids that big.Int cannot read: the label is then None, because the library leaves the number undefined.
- A tenant row without a slot id: the code dereferences a nil pointer there; the model has the lookup error only.
- The slot and metadata rows are reduced to the columns that the PIN path uses.
- Zeroing of the PIN string in createHSMSlot: it wipes a copy made by the conversion, which nobody reads.
- SlotObjects.SlotService.CreateHSMSlot: the manager is the local one; the theorems about the tables hold for any key lookup.
- SlotObjects.HSMBootstrapper.Bootstrap: the manager is the local one, and a client is the call that makes it; Pkcs11Objects.NewSoftHSMClient has its inside.
- KeyRuns.StoresAgreeUnlessACallFailed: the key label's random suffix of 8 hex digits is taken to be new whenever a key is created; the code draws it at random and does not look.
- KeyStores.RowLoc: the token slot of a label is the tenant's present one, so a tenant moved to another slot during a run is not captured.
- KeyLifecycle.NewKey: the row's slot id and expiration date come with the caller's profile; the code takes them from the slot looked up and from the clock.
