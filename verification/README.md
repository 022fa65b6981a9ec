# Verified model of netbootd

netbootd boots machines over the network: it keeps one manifest per machine and, from it, answers
DHCP, serves files over TFTP and HTTP, and lets an API change the manifests while it runs. This
project models that core in Dafny and proves how the parts behave and how they fit together.

`dafny verify dfyconfig.toml` checks everything.

## What is modelled

* **Store.** `StoreModel` is the store as a value with an explicit heap of manifest objects; its IP
  and MAC indexes are one map over tagged keys. `ManifestStore.Store` is the class with three maps
  of object references, and each of its methods is proved to act as the model says. `StoreLog` reads
  lookups off the history of operations. `StoreSteps` lets any number of clients interleave, with a
  forget split into its read and its delete, and a suspension into its lookup and its write.
* **Addresses.** `HardwareAddr`, `IPText`, `IPWithNet` and `Net` hold the text and key forms, over the
  printing and parsing functions of Go's `net` package, modelled from their documented formats.
* **Requests.** `Manifests` chooses a mount, `FilePath` and `HostPaths` build and check host paths
  (`filepath.Clean` is a fold over path elements), `Proxy` builds upstream addresses, `FrontEnds`
  chooses the source for TFTP and for HTTP.
* **DHCP.** `Dhcp` decides whether to answer, with which options, to which destination and through
  which interface; `BootRun` follows a client through a boot; `Arp` fills the kernel's ARP request.
* **Composition.** `EndToEnd` joins them: the address offered leads back to the same manifest,
  loaders offered are loaders served, suspension reaches every MAC, host paths are absolute, and
  hardware addresses fit the ARP field, in every state of every run they are claimed for.

A Go string is the sequence of its bytes, each a `char`. A nil address is `None` in a manifest and the
empty sequence elsewhere. A write to one field counts as atomic. Clocks, sockets, the kernel, the
decoders and the embedded files are parameters or constants.

## What the proofs found

* Whatever manifests may be put, the indexes agree with the ID map after every run and interleaving
  exactly when those manifests are pairwise compatible: one IP key and one MAC set for an ID, shared
  with no other (`AgreementIffCompatible`). `PutKeepsAgreementIff` and `DeleteKeepsAgreementIff` give
  the exact condition for one put and for the second half of a forget.
* A put between the halves of a forget ends, from an agreeing store, in what one order of the two
  calls shows exactly when it changes no key of its ID (`RaceIsSerialIff`).
* A suspension looks its object up under the lock and writes later without it: whatever happens in
  between, its write goes to that object (`SuspensionSetsFlag`), so an unsuspension begun earlier
  can undo a later suspension. `LateWriteIsSuspendIff` says when such a write is still the suspension
  asked for; in an agreeing store every other one is unseen (`BareWriteIsUnseen`), and suspensions
  last until a write that resumes (`SuspendedUntilResumedOrReplaced`).
* The mount chosen can depend on the order of the mounts, although the documentation says leading
  slashes are ignored: lengths are compared with them. Its Path does exactly when two top candidates
  (exact matches, else the longest prefix matches as written) have different Paths
  (`PathIgnoresOrderIff`). With equally many leading slashes everywhere they never do;
  `MixedSlashesDependOnOrder` has a pair that does.
* The host path guard compares characters, not path elements. For a mount that appends, all inside
  requests are accepted exactly when the directory is written clean and is not "."
  (`InsideAcceptedIffClean`), and all accepted ones are inside exactly when it is "/" or not written
  clean (`AcceptedInsideIff`), so the guard is exact only for "/" (`GuardIsExactIffRoot`). A relative
  directory, which a relative root gives, is always written clean. Where it has no last name, being
  "." or ".." elements only, requests that climb out of it are accepted (`ParentIsAccepted`), and "."
  rejects every inside name without a leading dot (`RelativeInsideAcceptedIff`). A mount that does
  not append has one host path, accepted always or never (`FixedAcceptedIff`).
* TFTP and HTTP do not always serve a mount alike. For the same path with a leading slash,
  `SameSourceIff` is the exact condition: they differ on bundled names, on mounts with both content
  and proxy, where a proxy address has no path and the suffix no leading slash, so that the host
  swallows it (`JoinedAtHost`), and where its port is a bare colon (`ColonIsLost`). TFTP names often
  have no slash. A name and the path it makes choose the same mount, but appending trims the mount's
  Path from at most one of them, so for an appending localDir mount and a name without dot elements
  the sources differ unless the Path has two leading slashes or more, or nothing else, or both are
  rejected (`SameLocalSourceIff`). The mount documented in netbootd's own README.md leads the two to
  different files (`DocumentedMountDiffers`). `SameSourceByNameIff` is the exact condition for every
  name; for proxies both conditions speak of plain addresses.
* `IPWithNet.MarshalText` is documented to give the CIDR form but prints the mask in hexadecimal; its
  text can be read back at prefix length 0 only (`MarshalTextReadableIffZero`). The code is followed.
* A handler reads the suspension twice, so one written in between can leave a reply with one of
  options 66 and 67 only; `TornAnswerIff` says exactly when.
* An iPXE manifest whose bootFilename is a bundled name never gets past the loader (`BootsEndIff`).
* Section 4.3.2 of RFC 2131 has a client name its server in option 54. The handler looks at siaddr
  instead, so it acknowledges requests for other servers (`OtherServersRequestIsAnswered`); it leaves
  them unanswered exactly when something else rules an answer out (`SilentForOthersIff`).

## Model

| member | source | states |
|---|---|---|
| `StoreModel.PutKeepsFiled` | store/store.go:109-113 | Whatever is put, each ID entry holds a manifest with that ID and each index entry a manifest with that key. |
| `StoreModel.PutIsFound` | store/store.go:98-113 | A manifest with an address and an ID, whatever else it holds, is found right after its put under the ID, the address and each MAC, as one object equal to it. |
| `StoreModel.DeleteKeepsFiled` | store/store.go:133-137 | The delete half keeps that, and leaves neither the captured ID nor any captured key behind. |
| `StoreModel.SetSuspendedKeepsFiled` | api/server.go:181-186 | Suspending through the IP map keeps filing and agreement, because it changes no ID and no key. |
| `StoreModel.WriteFlagKeepsFiled` | api/server.go:186-186 | A write to any object's suspension, whenever that object was looked up, keeps filing and agreement. |
| `StoreModel.LateWriteIsSuspendIff` | api/server.go:181-186 | Writing to an object looked up earlier equals suspending by address now exactly when the address still leads to it, or neither changes a flag. |
| `StoreModel.ReachedIsFoundByIP` | store/store.go:146-165 | In an agreeing store an object is reached by some ID or key exactly when its own address finds it. |
| `StoreModel.KeysOrdered` | store/store.go:110-113 | A manifest's keys are one IP key and its MAC keys: inclusion, equality and disjointness of keys are those of its address and MACs. |
| `StoreModel.PutKeepsAgreementIff` | store/store.go:109-113 | From agreement, an accepted put keeps it exactly when the replaced manifest has the same IP key and no MAC missing from the new one and no other live manifest shares a key. |
| `StoreModel.ForgetKeepsAgreement` | store/store.go:122-144 | An uninterrupted forget always keeps agreement, removes the ID, and clears exactly the keys that led to it. |
| `StoreModel.DeleteIsForgetIff` | store/store.go:123-137 | Deleting a manifest captured earlier equals forgetting its ID now exactly when the keys filed for that ID are still the captured ones. |
| `StoreModel.DeleteKeepsAgreementIff` | store/store.go:130-137 | From agreement, deleting a manifest captured earlier keeps it exactly under that condition. |
| `StoreModel.SafePutKeepsAgreement` | store/store.go:109-113 | A put meeting that condition keeps agreement. |
| `StoreModel.UnsafePutBreaksAgreement` | store/store.go:109-113 | A put failing it breaks agreement: a key is left behind or taken from another manifest. |
| `StoreModel.ForgetUndoesPutIff` | store/store.go:109-137 | Forgetting a manifest just put under a new ID restores the maps exactly when none of its keys was in use before. |
| `StoreModel.ResumeUndoesSuspend` | api/server.go:186-214 | Resuming by the same address undoes suspending. |
| `StoreLog.FindIsLivePut` | store/store.go:146-151 | After any sequential history, Find gives the object of the last accepted put of that ID, unless it was forgotten since. |
| `StoreLog.LookupIsLastTouch` | store/store.go:153-165 | After any sequential history, a lookup by IP or MAC gives the object of the last operation that touched the key if that was a put, and nothing otherwise. |
| `StoreLog.FoundIsWhatWasPut` | store/store.go:153-165 | The manifest found is the one that operation put, with the suspension last set since. |
| `StoreLog.FlagIsLastSet` | api/server.go:181-214 | After any history, every object has the suspension given by the last operation that set it: its put, or a write that hit it. |
| `StoreLog.LastTouch` | store/store.go:110-113 | The last position in a history whose operation touches the key: none later does. |
| `StoreLog.RunConcat` | store/store.go:97-144 | Running two histories in a row is running their concatenation. |
| `StoreSteps.Next` | store/store.go:97-144 | Every step of every client, from any sound state, leads to a sound state: filing holds on all runs with no discipline. |
| `StoreSteps.ForgetRemovesName` | store/store.go:122-144 | Whatever other clients do between its halves, right after a forget's delete step Find of its ID gives nothing. |
| `StoreSteps.DeleteRemovesName` | store/store.go:130-133 | The same for a forget already under way, from any sound state. |
| `StoreSteps.SuspensionSetsFlag` | api/server.go:181-186 | Whatever other clients do between its halves, right after its write the object looked up has the flag asked for, even where the address leads elsewhere by then. |
| `StoreSteps.WriteSetsFlag` | api/server.go:186-186 | The same for one already under way, from any sound state. |
| `StoreSteps.CompatibleDeleteIsForget` | store/store.go:130-137 | In an agreeing store of compatible manifests, deleting any captured manifest is forgetting its ID now. |
| `StoreSteps.DisciplinedRun` | store/store.go:97-144 | If each ID keeps one IP key and one MAC set, disjoint from every other ID's, every interleaving, with forgets and suspensions split, keeps all three maps in agreement and ends where the sequential operations, in order of effect, would. |
| `StoreSteps.DisciplinedRunShowsCalls` | api/server.go:181-214 | Such a run shows, under every ID and key, what its calls alone would, without the bare writes of late suspensions. |
| `StoreSteps.DisciplinedFromStart` | store/store.go:45-144 | The same from the empty store, as a condition on the manifests put alone. |
| `StoreSteps.AgreementIffCompatible` | store/store.go:97-144 | For any set of manifests: every run that puts only those ends in agreement exactly when the acceptable ones are pairwise compatible. |
| `StoreSteps.BareWriteIsUnseen` | api/server.go:181-186 | In an agreeing store a late write counts as a bare write, not as a suspension, exactly when nothing leads to its object. |
| `StoreSteps.ForgetsConserved` | store/store.go:122-144 | Forget calls begun plus those under way before equal forgets effected plus those still under way: each takes effect exactly once. |
| `StoreSteps.RaceIsSerialIff` | store/store.go:122-137 | From an agreeing store, one of the two orders of a forget and a put shows what the put between its halves leaves exactly when the put changes no key of the ID. |
| `StoreSteps.RaceIsPutThenForgetIff` | store/store.go:122-137 | From any store: that is put-then-forget exactly when every key put was read and every other key read is filed nowhere. |
| `StoreSteps.UndisciplinedRace` | store/store.go:122-137 | From any store that holds an ID, a key added by a put between the halves of its forget is left filed for a manifest no ID names; neither order of the two calls shows the same manifests. |
| `ManifestStore.Store.constructor` | store/store.go:45-55 | A new store is empty. |
| `ManifestStore.Store.PutManifest` | store/store.go:97-120 | Rejects a missing address, then a missing ID, changing nothing; any other manifest becomes a new object found under its ID, its address and every MAC, and the three maps change in nothing else. |
| `ManifestStore.Store.FileMACs` | store/store.go:111-113 | The loop files the object under exactly the texts of its MACs. |
| `ManifestStore.Store.ForgetRead` | store/store.go:123-128 | Gives the object the ID names, or nothing. |
| `ManifestStore.Store.ForgetDelete` | store/store.go:130-137 | Deletes the captured object's ID, address and MACs, and nothing else, from whatever the three maps hold by then. |
| `ManifestStore.Store.ForgetManifest` | store/store.go:122-144 | With nothing in between, the two halves are the model's forget. |
| `ManifestStore.Store.FindManifest` | store/store.go:146-151 | Gives the object the model finds under the ID. |
| `ManifestStore.Store.FindManifestByIP` | store/store.go:153-158 | Gives the object the model finds under the address. |
| `ManifestStore.Store.FindManifestByMAC` | store/store.go:160-165 | Gives the object the model finds under the MAC. |
| `ManifestStore.Store.LoadFromDirectory` | store/store.go:57-95 | Puts, in order, exactly the regular YAML files that read, decode and validate; afterwards each ID shows the manifest of the last such file that has it; file failures are skipped and only the listing's error is returned. |
| `ManifestStore.LastLoadedShows` | store/store.go:65-92 | Loading a directory into any store leaves, under each ID, the manifest of the last acceptable *.yml or *.yaml file with that ID. |
| `ManifestStore.OthersAreKept` | store/store.go:65-92 | Every ID no such file has is found as before. |
| `ManifestStore.Store.WriteSuspended` | api/server.go:186-186 | The write through an object looked up at any time before changes that object's flag in the model, seen through all three maps. |
| `Api.PutHandler` | api/server.go:127-147 | Status 201 exactly when the body decodes, has an ID and an address, and its localDirs are absolute unless a root is set; then the manifest is found under all its keys. Otherwise 400 and no change. |
| `Api.DeleteHandler` | api/server.go:157-160 | Always 204; afterwards the ID is gone. |
| `Api.SuspendHandler` | api/server.go:181-188 | With nothing in between lookup and write, exactly the flag of the object found by address changes; 404 and no change without one. |
| `Net.KeysMatchAddresses` | store/store.go:110-110 | Two valid addresses share a key exactly when they are equal across their 4- and 16-byte forms; all invalid ones share one key. |
| `Net.WireFormKeepsKey` | store/store.go:157-157 | The four octets sent for an IPv4 address have the key of the address. |
| `HardwareAddr.ParseMACExact` | manifest/mac.go:24-41 | The parser accepts exactly the colon, hyphen and dotted spellings, in any letter case, of 6-, 8- and 20-byte addresses, and gives the address spelled. |
| `HardwareAddr.TextRoundTrip` | manifest/mac.go:20-47 | Parsing a printed address gives it back exactly for lengths 6, 8 and 20. |
| `HardwareAddr.StringInjective` | manifest/mac.go:20-22 | Printing distinguishes all addresses of all lengths. |
| `HardwareAddr.StringWritten` | manifest/mac.go:20-22 | An address is printed as lower-case hexadecimal pairs with colons between them. |
| `HardwareAddr.SpellingsShareKey` | store/store.go:111-113 | Two accepted texts give the same store key exactly when they spell a common address. |
| `HardwareAddr.HardwareAddrVar.UnmarshalText` | manifest/mac.go:50-62 | Empty text clears the receiver, an accepted spelling sets it, a bad text leaves it; afterwards its length is 0, 6, 8 or 20. |
| `HardwareAddr.HardwareAddrVar.MarshalText` | manifest/mac.go:45-47 | The text of an address parses back to it exactly for lengths 6, 8 and 20. |
| `IPWithNet.MarshalTextReadableIffZero` | manifest/ipnet.go:12-38 | For an IPv4 address with a contiguous mask, the printed text is accepted back exactly at prefix length 0. |
| `IPWithNet.CIDRTextRoundTrip` | manifest/ipnet.go:16-38 | With the prefix length in decimal, the text is accepted back as the same address, network and mask at every length 0 to 32. |
| `IPWithNet.PrefixLengthExact` | manifest/ipnet.go:29-29 | A prefix length is any decimal number up to the length of the address, with leading zeros or without. |
| `IPWithNet.ParseCIDRExact` | manifest/ipnet.go:29-36 | A CIDR text is accepted exactly as an address text, a slash and a prefix length, and denotes that address, network and mask. |
| `IPWithNet.NetworkInFull` | manifest/ipnet.go:29-36 | Byte by byte, the mask is the complement of the block size of the prefix length, and the network is the start of the block the address lies in. |
| `IPWithNet.CIDRMaskBits` | manifest/ipnet.go:29-36 | The mask of length n has exactly its first n bits set. |
| `IPWithNet.BlockStart` | manifest/ipnet.go:29-36 | Masking an octet gives the start of the block of the mask's length that the octet lies in. |
| `IPText.IPv4RoundTrip` | manifest/ipnet.go:12-14 | A printed IPv4 address parses back to its four octets. |
| `IPText.IPv4Written` | manifest/ipnet.go:12-14 | An IPv4 address is printed as its four octets in decimal with dots between them. |
| `IPText.DecimalWritten` | manifest/ipnet.go:12-14 | A number is printed in its decimal digits without leading zeros. |
| `IPText.IPv4Exact` | manifest/ipnet.go:29-29 | An IPv4 text is accepted exactly as the address is printed: four fields without leading zeros. |
| `IPText.IPv6Exact` | manifest/ipnet.go:29-29 | An IPv6 text is accepted exactly in the forms of section 2.2 of RFC 4291: eight groups, or fewer around one double colon, the last two possibly dotted; and what it spells is read. |
| `IPWithNet.IPWithNetVar.UnmarshalText` | manifest/ipnet.go:23-38 | Empty text clears the receiver, a text that spells a CIDR sets it to what it spells, any other leaves it. |
| `Manifests.GetMount` | manifest/schema.go:138-161 | The one-pass loop returns the mount of the declarative answer: one exactly when the path is some mount's text, or for prefix mounts begins with it, after any slashes, and then such a mount. |
| `Manifests.MatchesIff` | manifest/schema.go:139-150 | A mount matches exactly when the path is slashes, the text the mount's Path has behind its own slashes, and for prefix mounts anything more. |
| `Manifests.ChosenIsAskedFor` | manifest/schema.go:138-161 | Something is chosen exactly when such a mount is in the list, and what is chosen is one. |
| `Manifests.EmptyPrefixServesAll` | manifest/schema.go:150-150 | A prefix mount with a Path of slashes, or an empty one, serves every path. |
| `Manifests.ChoiceInFull` | manifest/schema.go:142-155 | Which of several: the first exact one; without any, of the prefixes the earliest with the longest Path as written. |
| `Manifests.BestMount` | manifest/schema.go:138-161 | The first exact match wherever it stands; else the earliest prefix match of greatest raw length; none exactly when nothing matches. |
| `Manifests.BestIsUnique` | manifest/schema.go:138-161 | That answer is unique. |
| `Manifests.MountFor` | manifest/schema.go:157-160 | Fails exactly when no mount matches; what it gives is a matching mount of the manifest. |
| `Manifests.TopIsChosenBySomeOrder` | manifest/schema.go:149-153 | The top candidates are exactly the mounts that some order gets chosen. |
| `Manifests.PathIgnoresOrderIff` | manifest/schema.go:141-155 | No order of the mounts changes the Path chosen exactly when all top candidates have the same Path. |
| `Manifests.MountIgnoresOrderIff` | manifest/schema.go:141-155 | No order changes the mount chosen exactly when there is at most one top candidate. |
| `Manifests.ChoiceIgnoresOrder` | manifest/schema.go:141-155 | With equally many leading slashes everywhere, the chosen Path and kind, and failure, depend only on which mounts there are. |
| `Manifests.ChoiceIgnoresPermutation` | manifest/schema.go:141-155 | In particular they survive any permutation. |
| `Manifests.ChosenIsLongestTrimmed` | manifest/schema.go:149-153 | Then the chosen prefix is also the longest after trimming slashes. |
| `Manifests.MixedSlashesDependOnOrder` | manifest/schema.go:149-153 | The witness: two mounts with mixed slashes are both top, and each order chooses its first. |
| `FilePath.CleanOfJoined` | manifest/schema.go:66-74 | Cleaning a joined path folds the second part over the elements of the first. |
| `FilePath.CleanFirstPart` | manifest/schema.go:66-74 | So the first part may be cleaned beforehand. |
| `FilePath.CleanIdempotent` | manifest/schema.go:66-74 | Cleaning twice is cleaning once. |
| `FilePath.CleanRules` | manifest/schema.go:66-74 | The published rules for a trailing slash, ".", a name, and a name undone by "..". |
| `FilePath.CleanRulesForParent` | manifest/schema.go:66-74 | The published rules for ".." after any path: it takes the last name away, vanishes at the root, and is kept by relative paths that only climb. |
| `FilePath.CleanNoLonger` | manifest/schema.go:66-74 | Cleaning an absolute path never lengthens it. |
| `FilePath.PrefixOfCleanIff` | manifest/schema.go:77-79 | A path as written is a string prefix of a clean path exactly when its pieces are the first elements, but that the last may only begin one; or when both are "/" or ".". |
| `FilePath.DroppedFrontDiffers` | manifest/schema.go:69-75 | A text without dot elements, and the same text without its front, lead to different places. |
| `HostPaths.HostPathElements` | manifest/schema.go:69-75 | For a suffix that stays inside, the host path is the directory's elements followed by the resolved suffix, for absolute and relative directories. |
| `HostPaths.CleanLocalDirServes` | manifest/schema.go:62-79 | With a clean absolute localDir, every request that stays inside resolves below it and is accepted. |
| `HostPaths.RelativeLocalDirServes` | manifest/schema.go:62-79 | A relative localDir is joined below the root, absolute or not; every such request resolves below it and, unless it is ".", is accepted. |
| `HostPaths.InsideAcceptedIffClean` | manifest/schema.go:69-79 | For mounts that append, all inside requests are accepted exactly when the directory is written clean and is not ".". |
| `HostPaths.AcceptedIff` | manifest/schema.go:77-79 | What the guard accepts, for any request and any directory as written, element by element. |
| `HostPaths.CleanAcceptedIff` | manifest/schema.go:77-79 | For a clean directory other than ".", an accepted path is inside, or beside it under a longer last name, or climbs out; and all such are accepted. No path of an absolute directory climbs. |
| `HostPaths.DotAcceptedIff` | manifest/schema.go:77-79 | For the directory ".", an accepted path is "." or begins with a dot; all that climb out do. |
| `HostPaths.BesideIsAccepted` | manifest/schema.go:69-79 | A mount that appends, of a clean directory ending in a name, has an accepted request that is beside it and not inside. |
| `HostPaths.ParentIsAccepted` | manifest/schema.go:69-79 | A mount that appends, of a relative directory without such a name, has an accepted request that climbs out. |
| `HostPaths.AcceptedInsideIff` | manifest/schema.go:69-79 | For mounts that append, all accepted requests are inside exactly when the directory is "/" or not written clean. |
| `HostPaths.GuardIsExactIffRoot` | manifest/schema.go:69-79 | So the guard accepts exactly what is inside only for "/". |
| `HostPaths.InsideAcceptedIff` | manifest/schema.go:69-79 | Which inside requests are accepted, for any directory and both kinds of mount. |
| `HostPaths.RelativeInsideAcceptedIff` | manifest/schema.go:69-79 | In a relative directory all inside requests are accepted, but in "." only those whose resolved suffix is empty or begins with a dot. |
| `HostPaths.TrailingSlashAcceptedIff` | manifest/schema.go:69-79 | With one slash after a clean directory, exactly the inside requests for something below it are accepted. |
| `HostPaths.FixedAcceptedIff` | manifest/schema.go:69-79 | A mount that does not append has one host path; its requests are all accepted, or none is, by that condition on its own Path. |
| `HostPaths.SameFileIff` | manifest/schema.go:69-75 | A name and the path it makes lead to the same file exactly when the mount does not append, its Path has two leading slashes, or leaving the Path out of the name leads to the same place. |
| `HostPaths.DotFreeLeadsAlikeIff` | manifest/schema.go:69-75 | For names without dot elements that last case means a Path of nothing but slashes. |
| `HostPaths.DocumentedMountDiffers` | README.md:125-133 | The mount documented there leads a file's name and its path to two different host files. |
| `HostPaths.HostPathAbsoluteIff` | manifest/schema.go:62-75 | A host path is absolute exactly when localDir or root is. |
| `HostPaths.Validate` | manifest/io.go:33-43 | Accepts exactly the manifests each of whose localDirs is empty or begins with a slash, unless a root is set. |
| `HostPaths.LoadedIsAbsolute` | manifest/io.go:11-43 | A manifest that loads under an empty or absolute root has only absolute host paths, for every request. |
| `HostPaths.AllAbsoluteIff` | manifest/io.go:33-43 | All host paths of a manifest are absolute exactly when the root or every localDir is. |
| `Proxy.UpstreamsEqualIff` | manifest/schema.go:95-110 | Appending to the address as text and appending to its parsed path agree exactly when the address has a path or the suffix is empty or starts with a slash, and the port is not a bare colon. |
| `Proxy.UpstreamsInFull` | manifest/schema.go:95-110 | The text way parses the address followed by what the request has behind the mount's Path; the path way adds that to the parsed path; nothing is added without appendSuffix, and all of the request where the Path does not stand in front. |
| `Proxy.FixedUpstreams` | manifest/schema.go:106-110 | A mount that does not append sends every request to its own address, TFTP without a bare colon. |
| `Proxy.UpstreamsAcrossIff` | manifest/schema.go:95-110 | When appending one request's suffix as text gives the same address as appending another's to the parsed path. |
| `Proxy.JoinedAtHost` | tftpd/handler.go:69-75 | Without a path and slash, the textual address has a shorter path: the host took the rest. |
| `Proxy.ColonIsLost` | tftpd/handler.go:69-75 | With a bare colon for a port, the textual address lacks it. |
| `Proxy.ParsedParts` | manifest/schema.go:82-85 | Parsing an address with a scheme and "//" takes it apart, up to the letter case of the scheme; the host has no slash and the path is empty or starts with one. |
| `Proxy.PartsParse` | manifest/schema.go:82-85 | Every scheme, host and path so written parse back to themselves. |
| `Proxy.PortInFull` | manifest/schema.go:82-85 | A port is what stands behind the last colon, valid exactly when it holds digits only. |
| `Proxy.OtherAddresses` | manifest/schema.go:82-85 | Addresses that are a path alone parse to that path, and a leading colon is an error. |
| `Proxy.Request.Direct` | manifest/schema.go:88-117 | The director leaves the target's scheme and host, and its path alone or followed by the request behind the mount's Path, or by all of it; the raw path loses the mount's Path, or all. |
| `FrontEnds.TftpReadHandler` | tftpd/handler.go:32-225 | What the manifest found by the client's address serves under the name: a loader, else of its mount the proxy before the content before the local file, each in full. |
| `FrontEnds.ServeHTTP` | httpd/handler.go:82-223 | The same for HTTP: a loader after slashes, else of the mount the content before the proxy before the local file. |
| `FrontEnds.TftpInFull` | tftpd/handler.go:41-150 | The same of the choice as a function. |
| `FrontEnds.HttpInFull` | httpd/handler.go:93-191 | And of the choice for HTTP. |
| `FrontEnds.SameSourceIff` | httpd/handler.go:93-191 | For the same slash-leading path both choose the same source exactly when it is no bundled name under iPXE and its mount, if a proxy, has no content and joins at a path. |
| `FrontEnds.SameSourceByNameIff` | tftpd/handler.go:32-225 | For a TFTP name without a leading slash and the HTTP path it makes, both choose the same source exactly when it is bundled, or its mount gives both content, or reaches the proxy alike, or leads both to the same file or to none. |
| `FrontEnds.SameLocalSourceIff` | manifest/schema.go:69-75 | For an appending localDir mount and a name without dot elements: exactly when the Path has two leading slashes or nothing but slashes, or both are rejected. |
| `FrontEnds.SameMountFor` | manifest/schema.go:138-161 | A name and the path it makes always choose the same mount. |
| `FrontEnds.BundleServedByBoth` | tftpd/handler.go:41-53 | A bundled loader is served by TFTP under its name and by HTTP with or without a leading slash. |
| `Arp.FillByLoop` | dhcpd/arp/arp_linux_64.go:42-45 | The loop stays in the field exactly for addresses of at most 14 bytes, and then leaves the address padded with zeros. |
| `Arp.FillByCopy` | dhcpd/arp/arp_linux.go:40-40 | The copy leaves the same octets within that bound and truncates beyond it. |
| `Arp.MatchedAddressFits` | dhcpd/handler.go:193-193 | A packet's address that prints like one loaded from text is that address and has at most eight bytes. |
| `Dhcp.StringSlicesEqual` | dhcpd/handler.go:244-254 | The loop decides equality. |
| `Dhcp.GetIPv4ForInterface` | dhcpd/handler.go:256-273 | Gives the first non-loopback IPv4 address of an existing interface whose addresses can be listed. |
| `Dhcp.FirstIPv4Iff` | dhcpd/handler.go:265-271 | The address taken is the first one listed that has a mask, is IPv4 in either form, and does not begin with 127. |
| `Dhcp.ServerAddressIff` | dhcpd/handler.go:64-69 | The server's address is that of the interface it is bound to or, unbound, the one the packet came in on. |
| `Dhcp.BootFileName` | dhcpd/handler.go:137-151 | iPXE, or any client without iPXE, gets bootFilename; any other client gets a bundled loader, the BIOS one exactly when its first architecture is missing or 0. |
| `Dhcp.BuildOptions` | dhcpd/handler.go:98-167 | The options set one after another are those of the table, and, code by code, hold the manifest's fields and the server's address exactly when requested or due. |
| `Dhcp.Route` | dhcpd/handler.go:172-225 | The branch chain sends to giaddr port 67, else ciaddr, else by broadcast if asked, else to the client's address if a device, the socket and the ARP request are there, else by broadcast, port 68; it names an interface exactly for broadcast and link-local. |
| `Dhcp.HandleMsg4` | dhcpd/handler.go:17-242 | The handler sends exactly when the packet parses and is answerable, and then a proper answer: type, addresses, every option, destination and interface in full. |
| `Dhcp.AnswersIff` | dhcpd/handler.go:36-97 | The server answers exactly discovers and requests of known MACs on a usable interface whose siaddr is empty or its own. |
| `Dhcp.AnswersInFull` | dhcpd/handler.go:36-97 | The same over the fields of host and packet alone. |
| `Dhcp.ReplyHeader` | dhcpd/handler.go:51-103 | A discover is offered and a request acknowledged, from the server's address, with the address of the manifest. |
| `Dhcp.ReplyOptions` | dhcpd/handler.go:98-167 | Options 1, 3, 6, 12, 42, 51, 53, 54, 66, 67 and 176, one by one: which field or address each holds, and when it is there; no other is. |
| `Dhcp.BootFileInFull` | dhcpd/handler.go:136-150 | bootFilename for iPXE or without it; else undionly.kpxe for a first architecture that is missing or 0, ipxe_arm64.efi for a class naming architecture 11, ipxe.efi otherwise. |
| `Dhcp.RouteInFull` | dhcpd/handler.go:172-213 | The destination table, over packet and host fields alone. |
| `Dhcp.NeedsInterfaceIff` | dhcpd/handler.go:215-217 | An interface is named for 255.255.255.255, 169.254.0.0/16 in either form, and fe80::/10 only. |
| `Dhcp.AnswersAreProper` | dhcpd/handler.go:98-225 | Everything that is sent is a proper answer in all these respects. |
| `Dhcp.OtherServersRequestIsAnswered` | dhcpd/handler.go:80-97 | The witness: a request that names another server in option 54, with siaddr empty, is answered. |
| `Dhcp.SilentForOthersIff` | dhcpd/handler.go:36-97 | Requests completed with any other server's name in option 54 go unanswered exactly when opcode, type, interface, MAC or siaddr rule an answer out already. |
| `Dhcp.RepliesAreRouted` | dhcpd/handler.go:98-225 | Every reply is an offer or acknowledgement, follows section 4.1 of RFC 2131, and when broadcast or link-local leaves by the interface whose address is its siaddr and option 54. |
| `Dhcp.OffersBootFile` | dhcpd/handler.go:136-152 | A requested boot file is in the reply exactly when the manifest is not suspended. |
| `Dhcp.SuspendedAnswerFor` | dhcpd/handler.go:131-152 | Suspension removes options 66 and 67 from a reply and changes nothing else. |
| `Dhcp.TornAnswerIff` | dhcpd/handler.go:131-152 | An answer whose two reads of the suspension may differ is one the manifest gets, suspended or not, exactly when they agree, nothing is answered, or not both options are requested. |
| `Dhcp.TornHas` | dhcpd/handler.go:131-152 | Each of options 66 and 67 is sent exactly when requested and not suspended at its own read. |
| `BootRun.BootMakesProgress` | dhcpd/handler.go:136-152 | Each exchange of a boot leaves strictly less to load. |
| `BootRun.BootEnds` | dhcpd/handler.go:136-152 | An unsuspended iPXE manifest whose bootFilename is no bundled name gives a bundled loader at most once and then bootFilename. |
| `BootRun.BootsEndIff` | README.md:99-102 | Boots are that short exactly when bootFilename is not a bundled name. |
| `EndToEnd.OfferLeadsBack` | dhcpd/handler.go:80-103 | In an agreeing store, the manifest found by MAC is found again by the address offered. |
| `EndToEnd.LoaderIsServed` | tftpd/handler.go:32-53 | The loader offered to a client that is not yet iPXE is bundled, and TFTP and HTTP serve it to the address offered. |
| `EndToEnd.DisciplinedOfferLeadsBack` | store/store.go:153-165 | The offer leads back in every state of every disciplined run. |
| `EndToEnd.SuspendReachesAllMACs` | api/server.go:181-186 | In an agreeing store, suspending by IP strips the boot options for every MAC of that manifest and leaves all other replies unchanged. |
| `EndToEnd.SuspendedUntilResumedOrReplaced` | api/server.go:181-214 | Once a suspension has written while its address still led to the object, a MAC of that manifest gets no boot options, under any interleaving, until an unsuspension writes to the object or the MAC is put again. |
| `EndToEnd.StaysSuspended` | api/server.go:209-214 | A suspended object stays suspended until a write resumes it, whenever that was looked up, and its keys lead to it or nowhere until put again. |
| `EndToEnd.Origin` | store/store.go:97-113 | Every object in any state of any run is, but for its suspension, an earlier object or a manifest some step put. |
| `EndToEnd.HostPathsAreAbsolute` | manifest/io.go:11-43 | With an empty or absolute root, in every state of every run of loaded manifests, every host path for every request is absolute. |
| `EndToEnd.AnsweredClientFitsArp` | dhcpd/handler.go:190-194 | In every state of every run whose MACs came from text, an answered client's address has at most eight bytes, so the ARP loop stays in its field. |

## Left out

- IPWithNet.MarshalTextReadableIffZero: speaks of IPv4 addresses with contiguous masks; printing IPv6 addresses is not modelled.
- FrontEnds.SameSourceIff: for proxy mounts, like SameSourceByNameIff, speaks of addresses that parse, have a scheme and "//", and, like the path, consist of letters, digits and `-._~/:`; for others the two ways are modelled but not compared.
- FrontEnds.TftpReadHandler: for proxy addresses or paths with other characters (escapes, queries, user names, brackets) the address parsed here may differ from the source's.
- Proxy.PartsParse: speaks of hosts without brackets, escapes and user names, and paths without escapes, queries and fragments.
- FrontEnds.ServeHTTP: starts after the client address is known; parsing it, and the `spoof` parameter, are left out. Proxy addresses are limited as for TFTP, and whether Go prints the request's raw path or its path is not modelled.
- Dhcp.HandleMsg4: the packet library's parsing, printing and copying of relay, client-identifier and transaction fields are not modelled.
- HostPaths.AcceptedIff: speaks of mounts with a localDir or a root; with neither there is no directory. Symbolic links, and where a relative path starts, are not modelled.
- Arp.FillByLoop: the ioctl and the kernel table are not modelled; whether the request succeeds is a parameter of the host.
- EndToEnd.AnsweredClientFitsArp: covers MACs loaded from text; a YAML list of integers can load other lengths.
- YAML and JSON decoding, templates, routing of API paths, authorization and the reply bodies: abstract or absent.
- Reading sources: opening files, upstream responses and template execution come after the choice modelled here.
- Opening "." in the embedded file system, whose content is taken to be exactly the three named files.
- Dhcp.Prepare: the handler method reads the suspension once; the two reads of the source are modelled by `TornAnswer` only.
- A front end's choice is computed from one state of the store.
- Data races below the level of whole field writes, and `GetAll`, which hands out the live map.
- Persistence: both functions are stubs in the source.
- Syslog, servers, sockets, TLS, flags and configuration: no property of their own.
