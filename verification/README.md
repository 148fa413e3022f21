# A verified model of the keyring backends

The repository offers one small interface, a map from keys to items, over stores that reach that
map through protocols with many steps. This project models five of them and proves that the steps
add up to the map, and where they do not, says exactly when.

* **Windows Hello** (`winhello/`). `Trace` and `NCrypt` model the key storage provider: an oracle
  decides which calls fail, every call is recorded, and a monitor automaton over the record accepts
  only disciplined use of handles. `Passport` is the lazily created persisted key, `Sealing` the
  envelope encryption over byte buffers, `CredStore` the credential directory, `Backend` the
  keyring, `BackendRuns` its runs and `BackendPairs` those of two services in turns. `Json`, `Base64`, `Naming` and `Envelopes` write out the text
  encodings byte by byte, so that injectivity is proved; `Reading` reads those texts back, and
  `Utf8` holds the reading of UTF-8 against code points.
  `Library` states the only laws assumed of AES-GCM, RSA and the JSON reader, and shows that they
  are consistent.
* **Linux kernel keyrings** (`keyctl.go`). `Kernel` follows add_key(2) and keyctl(2), again with an
  oracle for failures and with other processes that rewrite payloads; `Keyctl` is the reading and
  parsing, `KeyctlKeyring` the keyring, `KeyctlRuns` its runs.
* **1Password** (`opcommon.go`, `opstandard.go`, `opconnect.go`). `Vaults` is the shared vault,
  `OnePassword` the keyring's view of it and both lookups, `OPMembers` that view read off the
  fields of the vault items alone, `OPKeyrings` the two classes, `OPRuns` the runs of both over one
  vault, `Items` the JSON of the stored item.
* **pass and passage** (`pass.go`, `passage.go`). `Paths` is the part of path/filepath they use,
  `PassStore` the walk and the existence test; one model serves both, with the extension as parameter.
* **Secret Service** (`secretservice.go`). `SecretService` is the object path decoder and the choice
  of a collection by it.

`Runs` says what a run of an abstract map is, for all three keyrings that have one. An error is the
set of sentinels it wraps (`Errors`); `errors.Is` is membership. Go strings are sequences of bytes
(`Bytes`, `Splitting`); `Picking` says which positions of a list a loop keeps. Classes and methods stand for the code that changes
state; each is proved against functions of the old state, and lemmas about those functions carry
the properties. `NCrypt.Clean` says that the monitor accepts the record so far, and every operation
keeps it: so the lemmas of `Trace` speak about every record any sequence of operations leaves.

## Where the code is not the map it promises

* The additional authenticated data of an envelope is injective on valid UTF-8 and not beyond:
  encoding/json writes every invalid byte alike (`Naming.AadEqualExactly`, `Naming.AadCollision`). Where
  two pairs share their credential name as well, they are nevertheless equal
  (`Naming.SameNameAndAadIsSamePair`).
* A Windows Hello backend that has cached its wrapper never creates the Passport key again. If the key
  is deleted meanwhile, every item is lost and Set fails from then on: without any fault it fails
  if and only if a wrapper is cached and its key is gone (`Backend.Set`, `BackendRuns.FaultFree`).
* With permissions configured, `Set` and `createNamedKeyring` of `keyctl.go` take a detour over the
  session keyring. When the target is the session keyring, the last step removes what was stored
  and the call reports success (`KeyctlKeyring.DetourStoresExactly`; an instance is
  `KeyctlKeyring.SessionStoreLoses`).
* `Keys` of `keyctl.go` lists the names exactly if and only if none holds a semicolon
  (`KeyctlKeyring.KeysExactly`).
* The two 1Password lookups differ exactly when an archived item of the keyring carries the title and
  the title is not ambiguous anyway (`OnePassword.LookupsAgreeExactly`; an instance is
  `OnePassword.ArchivedItemDivides`). Keys lists the keys that can
  be found if and only if every title carries the prefix (`OPKeyrings.KeysExactly`).
* The listing of pass and passage disagrees with the existence test exactly where a directory carries
  the name of a key with the extension (`PassStore.ListingAgreesExactly`; an instance is
  `PassStore.DirectoryPassesForItem`). Where the store is the working directory, given by a dot, Keys
  cuts the leading dot off a key that has one, and panics on a file that is named by the extension
  alone (`PassStore.ReportedExactly`, `PassStore.DotStoreFails`). Where directory and prefix are both
  empty it lists nothing, although the existence test then looks in the working directory
  (`PassStore.PassKeyring.Keys`).

## Model

| member | source | states |
|---|---|---|
| BackendRuns.Run | winhello/backend.go:58-147 | every run of Set, Get, Remove and Keys, whatever calls fail and whenever the Passport key is deleted from outside, is a run of a map: successes act as the map operations, failures change no item, and a deleted key leaves the names; without a fault Get fails exactly for keys without a readable item, Remove exactly for missing names, and Set exactly through a cached wrapper whose key is gone; no handle is left open, prompts are interactive and name a key of the service, at most one wrapper is acquired and a cached one stays |
| BackendRuns.Apply | winhello/backend.go:57-119 | the same for one action; nothing becomes readable that was not, except that a Set that creates the key may revive what was stored under a lost one, and not even that where key pairs are kept apart (`BackendRuns.GuardedAt`) |
| BackendRuns.GetReturnsLastSet | winhello/backend.go:57-81 | in any run without such a revival, a successful Get returns what the last successful Set of that key stored, with no successful Set or Remove of it and no loss of the key in between, or what was there at the start |
| BackendRuns.EstablishedRunIsQuiet | winhello/backend.go:121-133 | a run that starts with the key or with nothing stored, and in which the key is not lost, revives nothing, whatever the libraries do |
| BackendRuns.SetEffectGuards | winhello/backend.go:84-100 | what keeps keys apart lasts: after a Set no key pair still to be generated opens anything stored |
| BackendRuns.RunBeside | winhello/store.go:148-168 | a whole run of one backend changes no name of an idle backend whose service name with its colon neither begins nor is begun by the other's, and no item either while the key pair is the same, or if the key was only created and opens none of what was stored |
| BackendPairs.RunTwo | winhello/store.go:148-168 | any interleaving of actions of two such backends over one directory and one key is a run of two maps side by side: each action steps the map of its own backend and leaves the other one as it is, unless the shared key comes or goes; where key pairs are kept apart its coming revives nothing |
| BackendRuns.ApartServicesUnaffected | winhello/store.go:166-168 | changes below one service's prefix leave the names of a service apart from it equal, and its items too under the same key pair |
| BackendRuns.SharedNameReadsNothing | winhello/crypto.go:144-155 | where two different pairs share a credential name, what was sealed for one is never returned for the other |
| BackendRuns.ItemsAfterCreation | winhello/passport.go:65-110 | creating the Passport key changes no item, if the generated key pair opens none of what was stored under a lost one |
| Backend.Backend.constructor | winhello/backend.go:40-55 | a new backend has no wrapper, and an empty service name becomes "default" |
| Backend.Backend.Get | winhello/backend.go:58-81 | a success is exactly what the credential opens to; the error matches key-not-found if and only if the store lookup reported it, and then no key was acquired and no provider call made; without a fault a Passport key that is missing is reported as such, behind a cached wrapper too if the stored envelope is addressed to this pair; the prompt names key and service |
| Backend.Backend.Set | winhello/backend.go:84-100 | on success the key reads back as the data and no other credential changed; on failure no credential changed; without a fault it fails if and only if the cached wrapper names a key that is gone, and says so |
| Backend.Backend.SealItem | winhello/backend.go:90-93 | what a cached wrapper seals opens to the data; without a fault it fails if and only if the key is gone |
| Backend.PromptTextSpelled | winhello/backend.go:149-158 | the prompt names the key and then the service, "default" for an empty one |
| Backend.NeverItemNotFound | winhello/backend.go:160-170 | a failure to open the Passport key never matches key-not-found, and a missing key is reported as such |
| Backend.Backend.Remove | winhello/backend.go:103-109 | removes exactly the key's credential, without touching the provider; without a fault it fails only for a missing key |
| Backend.Backend.Keys | winhello/backend.go:112-119 | ascending, each once, exactly the keys with a credential, without touching the provider |
| Backend.Backend.EnsureWrapper | winhello/backend.go:121-133 | a cached wrapper is returned without any call; a failure caches nothing; at most one new key is persisted, in the creation shape |
| Backend.Backend.OpenWrapper | winhello/backend.go:135-147 | a cached wrapper is returned without any call; nothing is ever persisted; without a fault it fails only for a missing key, saying so |
| CredStore.Read | winhello/store.go:107-118 | the stored blob, or key-not-found exactly for the element-not-found code |
| CredStore.Write | winhello/store.go:120-124 | only the credential of this key is replaced, and only on success |
| CredStore.Delete | winhello/store.go:126-146 | the result is that of the lookup, or else that of the deletion, with key-not-found exactly for the element-not-found code of either; a failure deletes nothing |
| CredStore.Keys | winhello/store.go:148-164 | strictly ascending, and k is listed if and only if its credential exists |
| Bytes.LessExactly | winhello/store.go:161-161 | the order of the listed keys is that of the first byte that differs, a proper prefix first |
| Naming.AadEqualExactly | winhello/crypto.go:45-58 | two pairs have the same additional data if and only if the JSON encoder reads both names alike |
| Naming.AadInjectiveOnUtf8 | winhello/crypto.go:45-58 | on valid UTF-8 equal additional data means equal pairs |
| Naming.AadCollision | winhello/crypto.go:45-58 | two different keys of one invalid byte have the same additional data |
| Naming.AadReadsBack | winhello/crypto.go:33-51 | a reader finds the service under service_name and the key under item_key |
| Naming.SameNameAndAadIsSamePair | winhello/store.go:166-168 | equal credential name and equal additional data mean the same pair, for all byte strings |
| Naming.CredentialNameSpelled | winhello/store.go:166-168 | prefix, service and key, separated by colons |
| Naming.ServicesDisjointExactly | winhello/store.go:166-168 | two services can share a credential name if and only if one name with its colon begins the other |
| Json.RepairIsIdentityExactlyOnUtf8 | winhello/crypto.go:46-51 | a string survives JSON if and only if it is valid UTF-8, and never shrinks |
| Json.QuotePrefixUnique | winhello/crypto.go:46-51 | a JSON string literal determines what the encoder read and where the literal ends |
| Utf8.RuneLenExactly | winhello/crypto.go:46-51 | the JSON encoder reads a rune exactly where the UTF-8 encoding of a scalar value stands, and all of it |
| Utf8.ValidExactly | winhello/crypto.go:46-51 | text is valid if and only if it is the encoding of a list of scalar values |
| Base64.DecodeEncode | winhello/envelope.go:39-46 | decoding undoes the padded encoding of every byte string |
| Envelopes.ValidExactly | winhello/envelope.go:49-84 | validation accepts exactly version 1, the Passport provider, the two algorithms, a nonce of 12 bytes, and a key name, wrapped key, ciphertext and additional data that are not empty |
| Envelopes.FlawsAreNamed | winhello/envelope.go:49-84 | of an envelope with one flaw the error names it |
| Envelopes.TextSpelled | winhello/envelope.go:34-47 | the members of the text, with their names and in their order |
| Envelopes.TextDeterminesEnvelope | winhello/envelope.go:86-92 | two valid envelopes have the same text if and only if they are equal up to what JSON cannot tell apart in the key name |
| Envelopes.ReadTextReadsBack | winhello/envelope.go:94-104 | a reader of exactly the marshalled texts, written out, inverts marshalling up to the repair of the key name |
| Envelopes.RoundTripExactly | winhello/envelope.go:94-104 | parsing a marshalled envelope gives it back if and only if its key name is valid UTF-8 |
| Library.LawfulLibraryExists | winhello/crypto.go:82-105 | the assumed laws (open undoes seal, ciphertext is 16 bytes longer, unwrap undoes wrap, wrapped keys are not empty, the reader inverts the writer, no text unwraps under two keys) hold together of one library |
| Sealing.Encrypt | winhello/crypto.go:60-125 | the result is sealed under the key of the first random draw and the nonce of the second, and holds that key as the wrapper wrapped it, even if the wrapper overwrites its argument; on every exit the drawn key is zero, and so is every buffer the wrapper was handed; no buffer of the caller is written |
| Sealing.SealAndWrap | winhello/crypto.go:97-124 | the part behind the draws: the clone handed to the wrapper is zero on every exit, the key itself unchanged |
| Sealing.Decrypt | winhello/crypto.go:127-179 | succeeds only with the plaintext under the unwrapped key; each flaw found before the wrapper is called gives its own error, without any provider call; through any other wrapper the result is the one its unwrapped key determines; on every exit every buffer the wrapper returned is zero; failures of a persisted key mean a fault or text that does not open |
| Sealing.OpenAfterSeal | winhello/crypto.go:60-179 | what was sealed opens to the plaintext, for every content key, nonce and padding |
| Sealing.OpensIsRecover | winhello/crypto.go:157-178 | what Decrypt may return under a Passport key is one function of the persisted key and the text |
| Sealing.AddressedExactly | winhello/crypto.go:144-155 | a text sealed for one pair and key name is accepted for another if and only if JSON cannot tell the pairs apart and the name is the one JSON reads back |
| Sealing.ZeroBytes | winhello/crypto.go:181-185 | every byte is zero afterwards |
| Passport.OpenPassportKey | winhello/passport.go:37-63 | a disciplined probe that gives every handle back, creates and persists nothing; a failed probe with code 0x80090016, 0x8009000d or 0x80090011 is reported as a missing key, any other code as it is, and nothing else is reported as a missing key; a success only if the probed handle was released without an error |
| Passport.ProbeKey | winhello/passport.go:46-57 | one probe: a failure with one of the three codes means missing, any other failure or failed release is passed on |
| Passport.EnsurePassportKey | winhello/passport.go:65-110 | a failed probe with any other code than the three ends in that code, with no creation; with one of the three it ends in a new key, created after the probe, if the name is free and no later call meets a fault; gives every handle back; persists nothing or exactly one new key of length 2048, decrypt usage, auth-mandatory cache type and the create context under a free name; success means the last release, of the probe or of the provider after creating, had no error |
| Passport.CreateMissingKey | winhello/passport.go:74-110 | behind a probe that did not find the key: a success created and persisted it, without another probe; a failure means a fault or a name already taken |
| Passport.CreatePassportKey | winhello/passport.go:82-101 | called only for a name probed missing; success means the key was free before and is persisted now, and its handle was released without an error; a failure means a fault or a name already taken |
| Passport.OpenPassportProvider | winhello/passport.go:119-135 | on success exactly one provider handle is open, on failure none |
| Passport.InitializePassportKey | winhello/passport.go:137-157 | success means length 2048, decrypt usage, the auth-mandatory cache type under one of its names, and the create context |
| Passport.SetPassportNgcCacheType | winhello/passport.go:159-179 | without a fault the current property name is used; it fails only when both names failed |
| Passport.SetWindowHandleIfPresent | winhello/passport.go:181-194 | exactly one property call with the given or else the foreground window, none without a window, and no other property changes |
| Passport.WrapKey | winhello/wrap.go:22-47 | a success is the given 32 bytes wrapped with the persisted key; every handle is given back |
| Passport.UnwrapKeyWithFlags | winhello/wrap.go:54-78 | a success is 32 bytes, what the persisted private key makes of the input; the only decrypts carry the given flags and show the given context or the default |
| Passport.UnwrapKey | winhello/wrap.go:49-51 | the same, never silently |
| Passport.UnwrapWithHandle | winhello/wrap.go:57-72 | without a fault it fails only for input the private key does not unwrap to 32 bytes |
| Passport.OpenOperationKey | winhello/wrap.go:84-107 | on success the provider and the persisted key are open, on failure nothing is; a missing descriptor or name is told apart, and a failed open is a missing key for the three codes only |
| Passport.CloseOperationKey | winhello/wrap.go:96-110 | frees the key, then its provider, and leaves the handles there were before |
| Passport.PreparePassportUnwrap | winhello/wrap.go:117-131 | success means the given use context, or "Unlock keyring secret" without one, is shown and gesture-required is 1 on that handle |
| Trace.UsesLieBetweenAcquisitionAndRelease | winhello/wrap.go:92-110 | every use of a handle lies after its acquisition and not after its release |
| Trace.EveryHandleFreedExactlyOnce | winhello/passport.go:88-104 | in a run that leaves nothing open, each acquired handle is freed exactly once, after its acquisition |
| Trace.KeysFreedBeforeTheirProvider | winhello/passport.go:88-104 | when a provider is freed, each key opened or created under it was freed before |
| Trace.DecryptsAreGated | winhello/wrap.go:117-131 | each private-key decrypt is on a handle acquired before and not freed yet, on which, after it was acquired, the context it shows and gesture-required = 1 were set, with no other successful setting of either since |
| Trace.CreationFollowsProbe | winhello/passport.go:66-82 | creation is attempted only after a probe of that name failed with code 0x80090016, 0x8009000d or 0x80090011, and no call since has opened or created the name or failed to open it with another code |
| KeyctlKeyring.DetourOldOrNew | keyctl.go:131-148 | wherever the add, setperm, link, unlink protocol stops, a target other than the session keyring holds the old or the new data |
| KeyctlKeyring.DetourKeepsOthers | keyctl.go:131-148 | wherever it stops, every other name in every keyring is as it was |
| KeyctlKeyring.DetourStoresExactly | keyctl.go:126-148 | completed, it stores data and permission in the target if and only if that is not the session keyring, and the session keyring does not link the name |
| KeyctlKeyring.SessionStoreLoses | keyctl.go:131-148 | a session keyring with an item under a name has none after a new one was stored there with a permission |
| KeyctlKeyring.DetourRingIsEmpty | keyctl.go:196-213 | a completed protocol for a keyring leaves a new, empty ring with the permission |
| Kernel.EnvironmentExists | keyctl.go:236-313 | the assumptions on the kernel are consistent: some state, listing and special keyrings meet them |
| KeyctlKeyring.KeyctlKeyring.Set | keyctl.go:119-149 | for a failure at any step the name holds its old or its new data and every other name is untouched; a success holds the new data and permission exactly when the target is not the session keyring or no permission is set; without a fault it fails exactly when no serial is left or the payload is empty or too long for a "user" key |
| KeyctlKeyring.KeyctlKeyring.CreateNamedKeyring | keyctl.go:185-214 | the same protocol for a keyring: the returned ring is new, empty and carries the permission, and is linked in the parent exactly when that is not the session keyring or no permission is set; without a fault it fails exactly when no serial is left |
| KeyctlKeyring.KeyctlKeyring.Get | keyctl.go:91-111 | a success is the payload as of the last read, complete: what it was before, or what others wrote last during the call; key-not-found exactly for the no-key code of the search; without a fault it fails only for a name that is not linked |
| KeyctlKeyring.KeyctlKeyring.Remove | keyctl.go:151-158 | unlinks exactly this name from the keyring; every failed search is key-not-found, and a failed unlink is passed on |
| KeyctlKeyring.KeyctlKeyring.Keys | keyctl.go:160-183 | one name for each "user" key the ring reads out and no other, at strictly ascending positions of that reading: the shown description of the key there |
| KeyctlKeyring.ShownInOrder | keyctl.go:172-180 | the names listed are those at the positions of the "user" keys, in order |
| KeyctlKeyring.KeysExactly | keyctl.go:172-180 | the listing names each linked "user" key once and nothing else if and only if no linked name holds a semicolon |
| KeyctlRuns.Run | keyctl.go:91-183 | every run, whatever fails and whatever others write meanwhile, is a run of a map: a Get changes nothing but what others wrote to its name during it and returns what is stored then, a failed Set may or may not have stored its data, and a successful one stores it or, into the session keyring with a permission, removes it; without a fault Get and Remove fail exactly for missing names, and Set exactly when no serial is left or the kernel does not take the payload |
| KeyctlRuns.GetReturnsLastPut | keyctl.go:91-111 | in such a run a successful Get returns what a Set of its name stored, or somebody else wrote during a Get of it, with no successful Set or Remove of the name since, or what was there at the start |
| KeyctlRuns.GetReturnsLastSet | keyctl.go:91-149 | where nobody else writes and no Set of the name fails, it returns what the last successful Set stored, with no Remove since, or what was there at the start |
| Keyctl.Read | keyctl.go:252-269 | terminates for contents of bounded length under arbitrary rewriting, after at most one call more than the bound, with the complete contents as of its last call; the key then holds what others wrote last during the calls, or else what it held |
| Keyctl.ConvertKeyBuffer | keyctl.go:315-327 | fails exactly for a length that is no multiple of four; the result is int32 values whose encoding is the buffer, in both byte orders |
| Keyctl.EncodingUnique | keyctl.go:320-325 | a buffer is the encoding of one list of int32 values |
| Keyctl.ParseDescription | keyctl.go:276-290 | the first four fields as type, uid, gid and perm, the last one as description; names without a field are absent |
| Keyctl.SplitJoined | keyctl.go:276-283 | a record splits into its fields, and its description into further ones, whatever fields stand in between |
| Keyctl.AfterLastSemicolonExactly | keyctl.go:283-283 | a description is read back if and only if it holds no semicolon |
| Keyctl.AfterLastSemicolonSpelled | keyctl.go:276-283 | the shown description is the end of the text behind its last semicolon, or all of it |
| Keyctl.Describe | keyctl.go:271-293 | the type of the key, and its description behind the last semicolon |
| Vaults.KeyOfTitle | opcommon.go:70-86 | the key of the title of a key is that key |
| Vaults.TitleOfKeyExactly | opcommon.go:70-86 | the title of the key of a title is that title if and only if it carries the prefix |
| OPMembers.ChosenExactly | opstandard.go:78-107 | the loops choose exactly the items that carry the tag, have the API category, have one concealed field, with the configured title, and, for the standard form, are active; and return them with that field only |
| OPMembers.FindExactly | opstandard.go:31-59 | a key is found if and only if exactly one such item has the title made of prefix, colon, space and key, and that item is what is returned; not found if and only if none has; ambiguous if and only if two have |
| OPMembers.SetTouchesOnlyOwn | opconnect.go:233-288 | every item that does not hold the key stays where and as it was; the one that does keeps its other parts in the standard form, and only id, state and field id in the Connect form; a new one has the tag, the API category and one concealed field |
| OPMembers.RemoveTouchesOnlyOwn | opstandard.go:194-212 | exactly the one item that holds the key goes; the others keep content and order |
| OPMembers.SelectedExactly | opstandard.go:62-114 | the selected items are those that belong to the keyring, in the order of the vault |
| OnePassword.LookupPaths | opstandard.go:31-114 | listing, pruning and comparing titles finds exactly the keyring's active items of the title; querying by title and pruning finds exactly its items of the title, archived ones included |
| OnePassword.LookupsAgreeExactly | opconnect.go:124-208 | both lookups give the same outcome if and only if no archived item of the keyring has the title or the title is ambiguous among the active ones |
| OnePassword.ArchivedItemDivides | opconnect.go:124-208 | one archived item is found by the title query and not by the listing |
| OnePassword.SetStoresOnlyItsKey | opstandard.go:134-191 | after Set the key's value is the new one and the matches of every other title are the old ones |
| OnePassword.SetConserves | opconnect.go:233-288 | at all places but one the vault holds what it held, and that one was free or held the keyring's own item of this title; an ambiguous title changes nothing |
| OnePassword.SetKeepsTitlesUnique | opstandard.go:134-191 | unique titles stay unique |
| OnePassword.RemoveDeletesOnlyItsKey | opstandard.go:194-212 | exactly the found item leaves the vault, and the key is not found afterwards |
| OnePassword.FormsAgreeAfterSet | opconnect.go:233-288 | the new value is under its key and the old ones under all others, for the form that stored, and for the other one too if none of the keyring's own items is archived |
| OPRuns.Run | opstandard.go:117-240 | any sequence of operations over one vault with unique titles, whatever fails, is a run of one map: of one form alone, or of both in any order if none of the keyring's own items is archived; without a fault only Get and Remove fail, exactly for missing keys or undecodable items; titles stay unique; all foreign items of the vault, archived or not, stay equal and in order |
| OPRuns.OneView | opconnect.go:160-208 | if none of the keyring's own items is archived, both forms see the same items, keys and foreign items |
| OPRuns.SetKeepsForeign | opconnect.go:233-288 | Set leaves the foreign items equal and in order |
| OPRuns.RemoveKeepsForeign | opconnect.go:291-310 | so does Remove |
| OPRuns.ForeignExactly | opstandard.go:79-83 | the foreign items are those that do not belong to the keyring, as they are and in order |
| OPRuns.TitlesDistinctExactly | opstandard.go:221-237 | Keys meets no title twice if and only if no title has two matches |
| OPKeyrings.CollectKeys | opstandard.go:221-239 | succeeds exactly when the titles are pairwise distinct, with one key per title in order |
| OPKeyrings.KeysExactly | opstandard.go:215-240 | with distinct titles, the keys are duplicate-free and exactly those GetOPItem finds if and only if every title carries the prefix |
| OPKeyrings.PruneAndHydrate | opconnect.go:160-208 | the selected overviews with their one concealed field, or an error exactly when a fetch failed |
| OPKeyrings.OPStandardKeyring.GetOPItem | opstandard.go:31-59 | without a fault the outcome is found, not found or multiple as the items that hold the key are one, none or more; an error exactly when a call failed |
| OPKeyrings.OPStandardKeyring.Get | opstandard.go:117-127 | without a fault the item that the one concealed field of the one holder spells; key-not-found exactly if no item holds the key |
| OPKeyrings.OPStandardKeyring.Set | opstandard.go:135-191 | on success every item that does not hold the key stays where and as it was, and the holder is updated or created; errors are multiple matches or failed calls and leave the vault as it was |
| OPKeyrings.OPStandardKeyring.Remove | opstandard.go:194-212 | on success exactly the one item that holds the key is gone, otherwise the vault stays as it was |
| OPKeyrings.OPStandardKeyring.Keys | opstandard.go:215-240 | on success one key for each item that belongs to the keyring and no other, in the order of the vault; else an error for a repeated title or a failed call |
| OPKeyrings.OPConnectKeyring.GetOPItem | opconnect.go:124-156 | the same for the title query, archived items included |
| OPKeyrings.OPConnectKeyring.Get | opconnect.go:211-225 | without a fault the item that the one concealed field of the one holder spells; key-not-found exactly if no item holds the key |
| OPKeyrings.OPConnectKeyring.Set | opconnect.go:233-288 | as above, the updated item rebuilt with its tags reset and its field id kept |
| OPKeyrings.OPConnectKeyring.Remove | opconnect.go:291-310 | on success exactly the one item that holds the key is gone, otherwise the vault stays as it was |
| OPKeyrings.OPConnectKeyring.Keys | opconnect.go:332-361 | on success one key for each item that belongs to the keyring and no other, archived ones included, in the order of the vault |
| OPKeyrings.StoredItemComesBackExactly | opcommon.go:63-81 | a stored item comes back as it was if and only if its three names are valid UTF-8: read by the form that stored it, or by the other one if none of the keyring's own items is archived |
| Items.TextEqualExactly | opcommon.go:75-81 | two items have the same text if and only if they differ at most in bytes JSON cannot tell apart |
| Items.TextSpelled | opcommon.go:75-81 | the members of the text, with their names and in their order |
| Items.ReadTextReadsBack | opcommon.go:63-67 | a reader of exactly the marshalled texts, written out, inverts marshalling up to the repair of the names |
| PassStore.PassKeyring.Keys | pass.go:135-166 | for any directory and prefix, absolute or relative: nothing for a store that does not exist or whose path is empty, an error for one that is no directory or whose path leads through a file, else the keys of the tree in walking order as the callback reports them, or a panic |
| PassStore.BaseExactly | pass.go:137-137 | the store lies where the elements of the prefix lead from the directory; without a directory, where the prefix leads; without both, nowhere |
| PassStore.ItemExactly | passage.go:129-132 | below a directory and a plain prefix, a clean key exists exactly if something lies at the elements of directory, prefix and key with extension |
| PassStore.ReportedExactly | pass.go:155-160 | the keys are reported as they are if and only if the walk does not start at the dot, or no key is empty or begins with a dot; the callback panics if and only if it starts there and some key is empty |
| PassStore.DotStoreFails | pass.go:155-160 | a store in the working directory with one file named by the extension alone, and one whose key begins with a dot |
| PassStore.BlockedExactly | pass.go:139-145 | a lookup fails for a file in the path if and only if some proper front of the path leads to a file |
| PassStore.KeyCollector.Visit | pass.go:150-163 | a file with the extension adds its relative path without it, cut as the store path demands, and nothing else adds anything; it panics exactly when the slice is out of range |
| PassStore.StrippedName | pass.go:156-159 | cutting off the root and a slash leaves a non-empty text with no index out of range: the relative path, without its leading dot if the root is a dot |
| PassStore.ListedExactly | passage.go:150-165 | a key is listed if and only if its path with the extension leads to a file, and then it is clean |
| PassStore.ListingAgreesExactly | passage.go:128-166 | for a clean key, listing and existence test agree if and only if no directory carries its name with the extension |
| PassStore.DirectoryPassesForItem | passage.go:128-166 | a store with nothing but a directory named like an item lists nothing, while the existence test finds the item |
| PassStore.ListedOnce | pass.go:150-165 | no key is listed twice |
| PassStore.ListedInOrder | pass.go:150-163 | if directories are read in the order of their names, the keys come in the order of the elements of their paths |
| Paths.ExtExactly | pass.go:155-155 | the extension test is a suffix test |
| Paths.CleanJoin | pass.go:129-137 | joining goes on from where the first path leads, with empty, single-dot and double-dot elements resolved |
| Paths.CleanRules | pass.go:129-137 | empty elements and "." go; ".." takes a plain name before it back, vanishes at the root and stays in front of a relative path |
| Paths.CleanOfText | pass.go:129-137 | the text of a cleaned path, rooted or relative, cleans to that path |
| SecretService.DecodeKeyringString | secretservice.go:55-74 | the index-jumping loop computes the reference decoding |
| SecretService.HexValueExactly | secretservice.go:64-68 | exactly the sixteen digits in both cases count |
| SecretService.RawIsCodePoint | secretservice.go:58-59 | a raw byte is written as the UTF-8 encoding of the code point with its number |
| SecretService.UnescapeEscape | secretservice.go:55-74 | the decoder undoes the underscore escape of every byte string |
| SecretService.GivesUpExactly | secretservice.go:61-69 | it gives up, and returns its input, if and only if it meets an underscore without two hex digits behind a part that decodes |
| SecretService.DecodedAscii | secretservice.go:55-74 | ASCII input never grows, and is unchanged if and only if it has no underscore or the decoder gives up |
| SecretService.LengthensExactly | secretservice.go:58-59 | input grows if and only if it is decoded and has more than two raw bytes from 0x80 on per escape, which no D-Bus path has |
| SecretService.SecretsKeyring.OpenSecrets | secretservice.go:76-100 | session and collection after every outcome: the first path that decodes to the wanted one, or the collection held before |
| SecretService.ChosenDecodesToName | secretservice.go:91-97 | whatever the paths are, the chosen one decodes to the wanted path |
| SecretService.ChosenExactly | secretservice.go:89-97 | among escaped paths the chosen one is that of exactly the wanted name, and one is chosen if and only if the name is there |
| SecretService.FirstExactly | secretservice.go:91-97 | the chosen path is the first, in the order of the service, that decodes to the wanted one; none is chosen exactly if none does |

## Left out

- BackendRuns.Run: that a newly created key revives nothing stored under a lost one is proved where no text unwraps under two key pairs and no key pair is generated twice, which RSA with PKCS #1 padding promises only with overwhelming probability; replacing the key from outside by another one is not an action of the runs.
- Sealing.Encrypt: makes no secrecy claim, and what a failing draw leaves in its buffer is arbitrary; AES-GCM and RSA are functions with the laws in `Library`, and a failure to construct the cipher from a 32-byte key is not modelled.
- NCrypt: the foreign calls with their two-step size and data protocol, the padding flag of encryption and the search for a foreground window are replaced by the oracle and by parameters.
- Backend.Backend.constructor: the formatting of the Passport key name from user and domain is a parameter, taken to be valid UTF-8 and not empty.
- CredStore.Read: the copy of the blob is a value, so aliasing of the returned slice is not captured.
- KeyctlKeyring.KeyctlKeyring.Get: the search does not descend into keyrings linked in the keyring, and other processes rewrite payloads but neither links nor permissions; permission checks are the oracle's failures.
- KeyctlKeyring.KeyctlKeyring.CreateNamedKeyring: a keyring that nothing links any more, which is what a success leaves when the target is the session keyring, stays in the model; the kernel collects it.
- KeyctlRuns.Run: other processes write only while a Get of the name makes its calls; what they write between operations shows at the next Get.
- KeyctlKeyring: the opener that picks the parent keyring of a scope and looks for the named keyring.
- OPKeyrings: timeouts, contexts, token prompts, client initialisation and update times; items are listed and fetched from one state of the vault per operation.
- PassStore.PassKeyring.Keys: file system errors other than a missing store or a file in the path, symbolic links and changes during the walk; slashes separate paths.
- PassStore: running the pass and passage commands, and so Get, Set and Remove.
- SecretService: items, locking and the D-Bus session behind a collection.
- Envelopes.RoundTripExactly: holds of any reader that inverts the writer on the texts it produces; what a reader makes of other texts is left open.
- The macOS and iOS keychain, KWallet, wincred and file backends, the choice of a backend, the in-memory keyring, metadata, and the text of error messages.
