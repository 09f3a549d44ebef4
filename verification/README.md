# Verification of the QNTY artifact, continuity and calibration code

This project models the parts of QNTY whose correctness is protocol or exact arithmetic, and proves what they
promise. `dafny verify dfyconfig.toml` checks all of it.

**The artifact plane** (`quantbot/artifacts`).
`Texts`, `Decimal`, `JsonStrings`, `Json`, `JsonRoundTrip`, `JsonPrinting` and `Utf8` model canonical JSON (RFC 8259
sections 2 to 7, on float-free values) down to escapes, surrogate pairs and duplicate keys: printing and reading are
inverse, the re-print comparison accepts exactly the printer's image, and every printed character is fixed. `Manifest`, `ManifestFacts` and `ManifestCheck` hold the
portable manifest, its bytes and the loop that validates it; `Trees`, `Scan` and `Build` the directory walk and the
building of manifests, which identify a (role, path) to bytes map and nothing else.

The store comes in two views. `FileSystem`, `StoreProtocol`, `StoreSafety` and `StoreTheorems` are a state machine:
each file-system call of each `ingest` is one step, any number of calls interleave, any call may raise or stop for
good. `StoreCounting` ties the counters that calls return to what was linked, and says where a call that lost a link or
whose file system raised ends. `StoreReaders` puts `verify_copy` and the reading half of `restore` among the calls.
`Ingestion`, `Workspace`, `Restoration`, `RoundTrip` and `Store` follow one call at a time, written as a class,
against an arbitrary disk (a function that says what is kept of each chunk written at each offset) and against a rival
that gets to the address or the destination first. `StoreAgreement` shows that the two views agree on every whole call
that is left alone, failures included; `Counterexamples` holds concrete inputs for two of the findings below.
`Registry` and `Availability` model artifact records and the live check behind VERIFIED_AVAILABLE; `LiveExample` is a
registry that passes it.

**Append-only history.** `Receipts` models the predecessor walk of `quantbot/continuity/context.py` and the eight
layers in front of it, `Histories` shows that exactly the genuine histories are accepted; `Ledger` the disclosure ledger of `quantbot/assurance/contracts.py`.

**Exact randomness.** `Rng`, `Bootstrap` and `Coordinates` model the rejection sampler, the Bernoulli rule, the
circular bootstrap paths and the addresses of logical draws.

**Replay and acquisition.** `Observer`, `ObserverRows`, `Funding`, `Drawdown` and `Klines` model the rolling observer, the funding
lookup, drawdown with the K2 criterion, and the paginated download.

Conventions. SHA-256 (section 6.2 of FIPS 180-4) is a function `sha` from bytes to text. Safety of the store needs
nothing of it. Where equality of contents is concluded, it is assumed that no two of the byte strings at hand collide
(`CollisionFree`, on a named set of byte strings and never on all), and where a manifest is built, that results are 64
lowercase hexadecimal digits; `Digests.DigestExists` shows that the two assumptions are consistent. A Python exception
is a `None` result. Byte strings and code points are bounded integers, all other integers are unbounded as in Python. A
loop the source has is a method with that loop, proved against a specification function or predicate, and the laws are
proved about that specification.

Where code and documentation differ, the model follows the code. The store's module docstring speaks of `os.replace`;
the code publishes with an exclusive hard link (quantbot/artifacts/store.py:250-264).

Findings. Four properties one might expect do not hold, and the exact condition is proved instead.
- A manifest that is altered while being written is reported by the read-back but not taken back, unlike an object:
  the bad bytes stay at the address and no later write of that manifest succeeds (`Ingestion.BadManifestStays`; one
  manifest and one disk that loses a byte: `Counterexamples.FailedWriteStays`). The store stays sound exactly when what
  gets to the address is the manifest, or it was there already (`Ingestion.PutManifestSoundIff`).
- A manifest that verifies in full need not be restorable: a restore on a faithful disk succeeds exactly when, besides,
  no file of the manifest is a directory of another (`Restoration.RestorableIff`). A manifest of the files `a` and
  `a/b` is valid and verifies, and no restore of it succeeds (`Counterexamples.VerifiesWithoutRestoring`).
- The chain function by itself does not number the receipts behind the layers: it accepts receipt 41 on a document that
  calls itself receipt 1 (`Receipts.NumbersMaySkip`). The indexes of an accepted history fall by one exactly when it
  starts above the layers or the fixed handoff files carry their own numbers (`Receipts.NumberedIff`). This is about
  `_validate_predecessor_chain` alone. The loader also runs a phase validator, which demands exact keys of the receipt
  and pins the handoff files by hash
  (quantbot/continuity/h001_per_run_coordinate_and_seed_orchestration_checkout_path_repair_review_completion_v041.py:15-26,
  with the pins of its predecessors); under such pins every accepted history is in step (`Receipts.PinnedIsInStep`) and
  the root above is excluded (`Receipts.PinsExcludeSkip`).
- The "canonical decimal string" of the sampler's transcripts need not be canonical: decimal digits of any script pass,
  so the number three has a second accepted spelling (`Rng.TwoSpellings`). An accepted spelling is the canonical one
  exactly when it is ASCII (`Rng.CanonicalWordIff`).

Three checks are shown to be redundant: the visited set of the predecessor walk (`Receipts.WalkPredecessors`), the
duplicate-location check of artifact records, since a location embeds its store id (`Registry.LocationFollowsStore`),
and the ledger's scan for forbidden keys and path-like strings (`Ledger.ScanNeverFires`).

## Model

| member | source | states |
|---|---|---|
| Decimal.DigitsRoundTrip | quantbot/artifacts/manifest.py:67-69 | the decimal notation of an integer is a numeral without leading zeros and reads back as that integer |
| Decimal.NumeralRoundTrip | quantbot/artifacts/manifest.py:260-273 | every ASCII numeral without leading zeros is the notation of its value, so the reading is a bijection |
| JsonStrings.StringRoundTrip | quantbot/artifacts/manifest.py:67-69 | a string survives printing and reading exactly when no high surrogate stands directly before a low one |
| JsonStrings.ReadNeverSplits | quantbot/artifacts/manifest.py:266-269 | what is read from scalar text never contains such a split pair |
| Json.RejectDuplicateKeys | quantbot/assurance/contracts.py:442-448 | the hook builds a dict of exactly the given pairs, and fails exactly when a key comes twice |
| JsonRoundTrip.DumpsRoundTrip | quantbot/artifacts/manifest.py:67-69 | reading undoes printing, for exactly the values whose strings can be spelled |
| JsonRoundTrip.DumpsInjective | quantbot/continuity/context.py:1032-1034 | equal canonical bytes come from equal values |
| JsonRoundTrip.AcceptedIsCanonical | quantbot/continuity/context.py:1090-1099 | an accepted document is the canonical print of its own syntax tree: sorted keys, none twice, no space, no leading zero |
| JsonRoundTrip.AcceptedIffImage | quantbot/artifacts/manifest.py:260-273 | the re-print comparison accepts exactly the printer's image |
| JsonRoundTrip.HookNeverMatters | quantbot/assurance/contracts.py:442-448 | the duplicate-key hook never changes the verdict of the re-print comparison |
| JsonPrinting.StringPrints | quantbot/artifacts/manifest.py:67-69 | a string prints between quotes, character by character |
| JsonPrinting.PlainPrints | quantbot/artifacts/manifest.py:67-69 | printable ASCII other than quote and backslash prints as itself |
| JsonPrinting.ShortPrints | quantbot/artifacts/manifest.py:67-69 | quote, backslash, backspace, tab, line feed, form feed and return print as their two characters |
| JsonPrinting.EscapedPrints | quantbot/artifacts/manifest.py:67-69 | every other character of the basic plane prints as its escape with four lowercase hexadecimal digits of that value |
| JsonPrinting.AstralPrints | quantbot/artifacts/manifest.py:67-69 | a character beyond the basic plane prints as its two surrogates do |
| JsonPrinting.ScalarsPrint | quantbot/artifacts/manifest.py:67-69 | the three constants and the integers, in decimal without leading zeros |
| JsonPrinting.ArrayPrints | quantbot/artifacts/manifest.py:67-69 | an array prints its items in order, with commas between them and no space |
| JsonPrinting.ObjectPrints | quantbot/artifacts/manifest.py:67-69 | an object prints its members in key order, with colons and commas and no space |
| JsonPrinting.CollapseIff | quantbot/artifacts/manifest.py:266-269 | a dict holds for each key the value of its last pair, and nothing else |
| Utf8.LoadCanonicalIff | quantbot/assurance/contracts.py:399-402 | loading from bytes succeeds with a value exactly when the bytes are that value's canonical bytes |
| ManifestFacts.CheckBytesIff | quantbot/artifacts/manifest.py:260-273 | the bytes accepted as a manifest are exactly the canonical bytes of a valid manifest, which is returned |
| ManifestFacts.ManifestBytesInjective | quantbot/artifacts/manifest.py:276-279 | different valid manifests have different bytes |
| ManifestCheck.ValidateManifestObject | quantbot/artifacts/manifest.py:216-257 | the loop over previous key, folded paths and total decides exactly: strictly ordered, no duplicates, no case collision, right counts |
| Manifest.SameFoldIff | quantbot/artifacts/manifest.py:246-249 | two paths fold to the same text exactly when they differ in the case of ASCII letters alone |
| Trees.AllPathsIff | quantbot/artifacts/manifest.py:145-188 | the finite set of paths that bounds the walk is exactly the set of nodes |
| Trees.SplitJoin | quantbot/artifacts/manifest.py:96-110 | splitting a joined path gives its segments back |
| Trees.JoinSplit | quantbot/artifacts/manifest.py:96-110 | joining the segments of a path gives the path back |
| Trees.PutFile | quantbot/artifacts/store.py:515-531 | writing a file into a tree adds that file and leaves every other file as it was |
| Scan.ScanRoleRoot | quantbot/artifacts/manifest.py:145-188 | the explicit-stack scan stops, lists each regular file exactly once, and refuses exactly the trees with links, special files, bad paths or no file |
| Scan.PopStep | quantbot/artifacts/manifest.py:166-168 | a directory taken off the stack was never taken before, nor any of its children met |
| Scan.WalkComplete | quantbot/artifacts/manifest.py:167-188 | when the stack is empty every node of the tree has been handled |
| Build.BuildPortableManifest | quantbot/artifacts/manifest.py:191-213 | succeeds exactly for scannable roots without case collisions, and then lists exactly the files of all roles |
| Build.SortOrders | quantbot/artifacts/manifest.py:202-204 | the sort orders strictly by (role, path) and keeps the same entries |
| Build.CollisionIff | quantbot/artifacts/manifest.py:246-249 | two files collide under case folding exactly when two entries of the manifest do |
| Build.ManifestDetermined | quantbot/artifacts/manifest.py:191-213 | one (role, path) to bytes map, one manifest: child order, role order and absolute roots leave no trace |
| Build.MapDetermined | quantbot/artifacts/manifest.py:191-213 | equal manifests mean equal maps, unless contents of the two maps collide |
| Digests.DigestExists | quantbot/artifacts/manifest.py:113-142 | the assumptions made of the digest are consistent: for any byte strings there are digests enough for, some function to 64 hexadecimal digits tells them apart |
| StoreSafety.StepKeepsInv | quantbot/artifacts/store.py:250-264 | every single file-system call of every ingest keeps the store invariant and changes or removes nothing published |
| StoreSafety.LinkedAddressOk | quantbot/artifacts/store.py:340-345 | at the moment of the link the file is complete and hashes to its address, and a manifest's objects are all there |
| StoreSafety.StepReadBackOk | quantbot/artifacts/store.py:381-388 | the comparison made after the link cannot fail while no disk fault intervenes |
| StoreSafety.RunKeepsInv | quantbot/artifacts/store.py:324-388 | the same for every schedule of any number of calls |
| StoreTheorems.AddressesHoldTheirBytes | quantbot/artifacts/store.py:324-388 | in every interleaving a file at an address holds bytes that hash to the address |
| StoreTheorems.PublishedNeverChanges | quantbot/artifacts/store.py:250-264 | what is published at some moment is there, unchanged, at every later moment |
| StoreTheorems.ReadBackNeverRemoves | quantbot/artifacts/store.py:381-387 | no call ever reaches the branch that unlinks a published file |
| StoreTheorems.OneIngestPerAddress | quantbot/artifacts/store.py:371-388 | at most one call, at one of its entries, reports 'ingested' for an address; the counters are tied to the reports in StoreCounting.CounterCountsReports |
| StoreTheorems.ManifestImpliesObjects | quantbot/artifacts/store.py:451-483 | once a manifest is at its address, that copy verifies in full at that moment and ever after |
| StoreTheorems.FinishedCallStoredAll | quantbot/artifacts/store.py:466-483 | a call that finished has stored its manifest and every object, and its two counters add up to the entry count |
| StoreCounting.CounterCountsReports | quantbot/artifacts/store.py:466-483 | in every reachable state a call's `ingested` is the number of addresses it reported as ingested |
| StoreCounting.TotalIngestedIsNewObjects | quantbot/artifacts/store.py:466-483 | the `ingested` counters of all calls together never exceed the number of object addresses that came into use, and equal it when every call has finished |
| StoreCounting.LoserSteps | quantbot/artifacts/store.py:371-380 | a call that lost its link reads what is there, and goes on counting the entry as already present, or fails when it is another file |
| StoreCounting.LoserAgrees | quantbot/artifacts/store.py:357-388 | that is the outcome of the single call when a rival links first |
| StoreCounting.FinderCountsPresent | quantbot/artifacts/store.py:357-380 | in every run in which none of its own calls raises, a call whose address holds the file it wants is never refused and counts it as already present |
| StoreCounting.RaisedFails | quantbot/artifacts/store.py:346-355 | a raised error stores and counts nothing, and ends the call at its entry after its temporary file is dealt with |
| StoreCounting.TempsAreRemoved | quantbot/artifacts/store.py:346-355 | a call lets go of its temporary file only by removing it, except when it lost the link or the removal raised |
| StoreReaders.ReaderStep | quantbot/artifacts/store.py:189-216 | each read of a reader in a sound store keeps what it holds open published and what it has read right, and is never the one that rejects |
| StoreReaders.ReportsAreTrue | quantbot/artifacts/store.py:189-216 | whatever ingest calls do between its reads, a verification that succeeds reports what the store then verifies as |
| StoreReaders.ReaderSucceeds | quantbot/artifacts/store.py:436-538 | a verification or the reading half of a restore that starts when the manifest is there is never rejected, ends after a bounded number of its own calls, and has read the objects as they were at its start |
| StoreReaders.ReadersLeaveNoTrace | quantbot/artifacts/store.py:189-216 | the ingest calls go on as if nobody read |
| StoreReaders.AloneIsVerify | quantbot/artifacts/store.py:189-216 | on any store, sound or not, a reader that is alone succeeds only when the copy verifies, and is rejected only when it does not |
| StoreTheorems.StoreOkIffSound | quantbot/artifacts/store.py:189-216 | the invariant of the protocol and the soundness of the published files are one condition |
| StoreAgreement.SoloIngestAgrees | quantbot/artifacts/store.py:451-483 | started and left alone, a call in the protocol ends, and publishes and reports what the single `ingest` does, for every source and every store: stored, found, refused, missing or mismatched, manifest included |
| StoreAgreement.ObjectAgrees | quantbot/artifacts/store.py:357-388 | the same for one object, on each of its paths |
| StoreAgreement.ManifestAgrees | quantbot/artifacts/store.py:402-434 | the same for the manifest's own write |
| Ingestion.SpoolFaithful | quantbot/artifacts/store.py:331-337 | on a faithful disk the chunk loop leaves exactly the source bytes |
| Ingestion.IngestExtends | quantbot/artifacts/store.py:451-483 | whatever the disk keeps and rivals link, no call changes or removes a published file |
| Ingestion.FilesOnlyMatching | quantbot/artifacts/store.py:357-434 | an object is filed only from a source of the right hash and size, a file already there is accepted exactly when it has them, and an invalid manifest leaves everything alone |
| Ingestion.RolesMustMatch | quantbot/artifacts/store.py:458-465 | a call whose role roots are not exactly the manifest's roles, or whose manifest is invalid, does nothing |
| Ingestion.IngestedVerifies | quantbot/artifacts/store.py:451-483 | an ingest that reports success verifies in full and has counted each entry once, even on a disk that alters what is written |
| Ingestion.IngestFilesCounts | quantbot/artifacts/store.py:468-477 | `ingested` is the number of addresses that were free before, and at most that against rivals |
| Ingestion.FirstIngestCounts | quantbot/artifacts/store.py:468-477 | on a store without objects `ingested` is the number of different hashes |
| Ingestion.VerifyStays | quantbot/artifacts/store.py:189-216 | a copy that verifies keeps verifying while the store only gains files |
| Ingestion.IngestSound | quantbot/artifacts/store.py:451-483 | a call keeps the store sound on any disk for the objects, as long as the manifest's own write is not altered |
| Ingestion.PutManifestSoundIff | quantbot/artifacts/store.py:402-434 | after its objects, a manifest's write succeeds and leaves the store sound exactly when it was there already or what gets to the address, a rival's file or what the disk kept, is the manifest |
| Ingestion.BadManifestStays | quantbot/artifacts/store.py:402-434 | a manifest that fails its read-back stays, and no later write of it succeeds on any disk |
| Counterexamples.FailedWriteStays | quantbot/artifacts/store.py:402-434 | one manifest and a disk that loses its last byte: the write fails, the store is no longer sound, and a second write on a faithful disk fails too |
| Counterexamples.FailedWriteStaysByParity | quantbot/artifacts/store.py:402-434 | the same with a digest written out |
| Store.FilesystemStore.constructor | quantbot/artifacts/store.py:270-276 | a store is opened on a root as it stands, and nothing is written |
| Store.FilesystemStore.HashStoreFile | quantbot/artifacts/store.py:77-96 | the chunk loop returns the hash and size of the whole file |
| Store.FilesystemStore.CopyChunks | quantbot/artifacts/store.py:328-337 | the loop hashes the source it read and leaves on disk what the disk keeps of each chunk |
| Store.FilesystemStore.InstallNewFile | quantbot/artifacts/store.py:250-264 | links only at a free address, never replaces, and drops the temporary name exactly when it installed |
| Store.FilesystemStore.WriteAtomic | quantbot/artifacts/store.py:324-353 | nothing is published unless the source has the promised hash and size; a refused write leaves no temporary file |
| Store.FilesystemStore.IngestObject | quantbot/artifacts/store.py:357-388 | outcome and published files for every source, disk and rival: 'ingested' only when the file read back hashes to its address |
| Store.FilesystemStore.PutManifest | quantbot/artifacts/store.py:402-434 | outcome and published files for every disk and rival |
| Store.FilesystemStore.Ingest | quantbot/artifacts/store.py:451-483 | the loop with its counters stops at the first entry that fails and puts the manifest last; nothing published changes, and success means the copy verifies |
| Store.FilesystemStore.LoadManifest | quantbot/artifacts/store.py:436-447 | returns the manifest exactly when the bytes at the address hash to it and are a valid manifest |
| Store.FilesystemStore.VerifyCopy | quantbot/artifacts/store.py:189-216 | the loop reports success exactly when the manifest and all objects it names are present with the right bytes |
| Store.FilesystemStore.CopyOut | quantbot/artifacts/store.py:513-538 | one object hashed while read and written under a new name, with whatever the disk keeps |
| Store.FilesystemStore.FillWorkspace | quantbot/artifacts/store.py:511-538 | the loop fills the workspace entry by entry and touches nothing else |
| Store.FilesystemStore.RebuildMatches | quantbot/artifacts/store.py:539-546 | the comparison of hashes succeeds exactly when the workspace holds what the manifest describes |
| Store.FilesystemStore.Restore | quantbot/artifacts/store.py:490-557 | publishes exactly the described tree under a name nobody held, or leaves everything else as it was; succeeds exactly when names are free and the rebuilt manifest matches |
| Store.RebuiltIff | quantbot/artifacts/store.py:539-546 | equality of the rebuilt hash is equality of the (role, path) to bytes map, on any disk |
| Store.TreeShape | quantbot/artifacts/store.py:513-539 | a filled workspace holds one directory for each role and no links |
| Workspace.PutIff | quantbot/artifacts/store.py:515-521 | creating a new file fails exactly when a file stands where one of its directories must be |
| Workspace.CreateAllIff | quantbot/artifacts/store.py:513-521 | exclusive creation of a list of files succeeds exactly when no path runs through another |
| Restoration.RestoreIsCreate | quantbot/artifacts/store.py:513-538 | filling the workspace succeeds exactly when every object verifies and every file can be created |
| Restoration.KeptIsRight | quantbot/artifacts/store.py:513-546 | when the disk keeps every byte the tree is what the manifest describes |
| Restoration.RestorableIff | quantbot/artifacts/store.py:490-557 | on a faithful disk a restore succeeds exactly when the copy verifies and no file is a directory of another |
| Counterexamples.VerifiesWithoutRestoring | quantbot/artifacts/store.py:490-557 | a store with a valid manifest of `a` and `a/b` that verifies in full, and that no restore succeeds on, whatever the disk |
| Restoration.RestoredFromStore | quantbot/artifacts/store.py:513-538 | on a faithful disk everything a restore puts into its tree comes from the store |
| RoundTrip.TreeHasNoFileInTheWay | quantbot/artifacts/manifest.py:145-213 | manifests built from directory trees always satisfy that condition |
| RoundTrip.BuildIngestRestore | quantbot/artifacts/store.py:451-557 | building, ingesting into any sound store and restoring succeeds and gives back the same (role, path) to bytes map |
| Registry.LocationRoundTrip | quantbot/artifacts/registry.py:167-182 | a canonical location is the location of one store and one manifest and of no other |
| Registry.LocationFollowsStore | quantbot/artifacts/registry.py:294-301 | copies in different stores have different locations, so the second duplicate check never fires |
| Registry.ValidateArtifactRecord | quantbot/artifacts/registry.py:256-312 | accepts exactly the records whose copies lie in different stores, all verified, in two domains or more when VERIFIED_AVAILABLE |
| Registry.CopyOkIff | quantbot/artifacts/registry.py:223-253 | an accepted copy lies at the one location of its store and manifest, with its evidence about that manifest |
| Registry.TwoCopiesIff | quantbot/artifacts/registry.py:256-312 | two copies in two stores make a verified record exactly when they lie in two failure domains |
| Registry.ValidateStoreRegistry | quantbot/artifacts/registry.py:188-217 | accepts exactly the registries without a repeated store id or root variable |
| Registry.StoresByIdIff | quantbot/artifacts/registry.py:315-316 | the dict finds every store under its own id and nothing else |
| Availability.OpenStores | quantbot/artifacts/registry.py:392-410 | the first pass fails exactly when some copy's store is not usable, and opens each store once |
| Availability.CheckIndependence | quantbot/artifacts/registry.py:412-420 | the pairwise loop decides exactly whether all opened roots differ in variable, identity and device |
| Availability.VerifyRecord | quantbot/artifacts/registry.py:422-431 | the last pass fails exactly when some copy does not verify as recorded |
| Availability.ValidateOperationalRegistry | quantbot/artifacts/registry.py:380-432 | succeeds exactly when every live copy is usable and verifies and the stores of any two differ in root and device |
| Availability.TwoCopiesPassIff | quantbot/artifacts/registry.py:380-432 | a record with two copies passes exactly when both stores are usable, differ in variable and device, and hold the artifact in full |
| Availability.UnderIff | quantbot/artifacts/store.py:64-65 | a path is under a prohibited one exactly when it begins with its segments |
| Availability.OpenRootIff | quantbot/artifacts/registry.py:402-410 | a store's root opens exactly when its variable names a directory outside the prohibited ones |
| LiveExample.LiveRegistryPasses | quantbot/artifacts/registry.py:380-432 | a record with copies on two devices is accepted and passes the live check |
| Availability.SurvivesDomainLoss | quantbot/artifacts/registry.py:285-432 | after the loss of every store of one failure domain some copy still verifies in full |
| Availability.SurvivesDeviceLoss | quantbot/artifacts/registry.py:285-432 | after the loss of one device some copy still verifies in full |
| Availability.CopiesAgree | quantbot/artifacts/registry.py:422-431 | any two copies agree byte for byte, in the manifest and in every object it names |
| Availability.OperationalStays | quantbot/artifacts/registry.py:380-432 | what the live check established holds on while the stores only gain files, as every ingest leaves them |
| Receipts.WalkPredecessors | quantbot/continuity/context.py:3899-3947 | the while loop stops, and its verdict is that of the walk without the visited set |
| Receipts.WalkLinks | quantbot/continuity/context.py:3899-3947 | the walk accepts only hash-linked chains of receipt files to GENESIS with indexes falling by one to 1, all of one task and protocol |
| Histories.ReceiptPathIff | quantbot/continuity/context.py:3899-3947 | the paths of receipts are the directory with handoff_v, three digits and .json |
| Histories.ReadLinkIff | quantbot/continuity/context.py:3899-3947 | the walk reads exactly the links of a receipt path and a digest |
| Histories.WalkIff | quantbot/continuity/context.py:3899-3947 | the walk returns exactly the genuine history of a document: every history whose files, hashes, indexes, task and protocol fit is accepted, and nothing else |
| Receipts.ValidatePredecessorChain | quantbot/continuity/context.py:3981-4217 | each layer peels one receipt or passes the document on, and the layers stop |
| Receipts.AcceptedIsHashLinked | quantbot/continuity/context.py:3981-4217 | through any number of layers an accepted receipt starts a chain linked by path and hash down to GENESIS at index 1 |
| Histories.ChainIff | quantbot/continuity/context.py:3981-4217 | acceptance through the layers: receipts peeled at their fixed paths, then a genuine history, and nothing else |
| Histories.LinkedChainIff | quantbot/continuity/context.py:3981-4217 | above linked and numbered handoff files a receipt is accepted exactly when the lowest of them has a genuine history |
| Receipts.OneHashOneHistory | quantbot/continuity/context.py:2776-2790 | two roots that verify with the same active receipt hash have byte-identical receipt histories |
| Receipts.NumbersMaySkip | quantbot/continuity/context.py:4213-4217 | the chain function alone accepts, on a concrete root, a history that goes from index 41 to index 1 |
| Receipts.NumberedIff | quantbot/continuity/context.py:3981-4217 | the indexes of an accepted history fall by one exactly when it starts above the layers or the handoff files carry their own numbers |
| Receipts.PinnedIsInStep | quantbot/continuity/h001_per_run_coordinate_and_seed_orchestration_checkout_path_repair_review_completion_v041.py:15-26 | with the handoff files pinned by hash, as in one root where they are numbered, the indexes of every accepted history of every root fall by one |
| Receipts.PinsExcludeSkip | quantbot/continuity/h001_per_run_coordinate_and_seed_orchestration_checkout_path_repair_review_completion_v041.py:15-26 | no such pins hold on the root of the skipped numbers |
| Receipts.LoadObjectIff | quantbot/continuity/context.py:1090-1099 | a document loads exactly when its bytes are the canonical bytes of a dict, which is returned |
| Ledger.StampInjective | quantbot/assurance/contracts.py:221-230 | two accepted timestamps are the same moment exactly when they are the same text |
| Ledger.StampOrder | quantbot/assurance/contracts.py:221-230 | of two accepted timestamps one is earlier exactly when its text comes first |
| Ledger.CalendarDays | quantbot/assurance/contracts.py:225 | the calendar is the Gregorian one: the days before a year in closed form |
| Ledger.ReadEntryIff | quantbot/assurance/contracts.py:305-321 | an entry reads from the document of its named fields and from no other |
| Ledger.WellKeptIff | quantbot/assurance/contracts.py:326-342 | entries are well kept exactly when each is well formed, regions begin before they end, and ids, disclosures and times are in order |
| Ledger.ValidateLedgerEntries | quantbot/assurance/contracts.py:326-342 | accepts exactly well-formed, permitted entries with different ids, different disclosures and times that never fall back |
| Ledger.LoadedLedger | quantbot/assurance/contracts.py:344-357 | a loaded ledger is well kept and populated exactly when it has entries |
| Ledger.LoadLedgerIff | quantbot/assurance/contracts.py:344-403 | the accepted documents are exactly the canonical bytes of the ledgers that are well kept and populated exactly when they have entries |
| Ledger.ScanNeverFires | quantbot/assurance/contracts.py:244-258 | the scan for forbidden keys and path-like strings never changes the verdict on an entry or a ledger |
| Ledger.LedgerDetermined | quantbot/assurance/contracts.py:399-403 | status and entries determine the document byte for byte |
| Ledger.AppendIff | quantbot/assurance/contracts.py:359-371 | an append is accepted exactly when both ledgers load and the old entries come first, unchanged |
| Ledger.RunIsAppendOnly | quantbot/assurance/contracts.py:359-371 | over any run of accepted appends entries are only added, no id and no disclosure comes twice, recorded times, compared as texts, never fall back, and a populated status is never undone |
| Rng.LimitIsBest | quantbot/assurance/contracts.py:1253 | the limit is the largest multiple of n not above 2^64, and fewer than half of all words are rejected |
| Rng.EveryResidueEquallyOften | quantbot/assurance/contracts.py:1250-1278 | each residue has exactly limit/n accepted words |
| Rng.BernoulliCount | quantbot/assurance/contracts.py:1281-1297 | the Bernoulli rule says true on exactly p*(limit/q) accepted words |
| Rng.UniformBounded | quantbot/assurance/contracts.py:1520-1524 | the capped loop draws at most eight words, rejects all but the last, and returns the accepted one reduced |
| Rng.DrawShape | quantbot/assurance/contracts.py:1520-1524 | a run rejects all words but its last and gives up only after eight |
| Rng.CheckAcceptedWords | quantbot/assurance/contracts.py:1250-1260 | accepts exactly one to eight words of which only the last is below the limit |
| Rng.CheckBounded | quantbot/assurance/contracts.py:1263-1278 | a transcript is accepted exactly when it records a run of the capped loop that returned this value |
| Rng.CheckBernoulli | quantbot/assurance/contracts.py:1281-1297 | a transcript is accepted exactly when some stream of words makes this Bernoulli draw, for a restart decision |
| Rng.TrueTranscripts | quantbot/assurance/contracts.py:1281-1297 | exactly p*(limit/q) words make a one-word transcript that is accepted and says true |
| Rng.CheckExhaustion | quantbot/assurance/contracts.py:1657-1670 | a transcript is accepted exactly when it records, under the fixed failure category, a run that used up its eight attempts |
| Rng.CanonicalWordIff | quantbot/assurance/contracts.py:1200-1206 | an accepted spelling of a number is its canonical one exactly when it is ASCII |
| Rng.TwoSpellings | quantbot/assurance/contracts.py:1200-1206 | two accepted spellings of three |
| Coordinates.CounterInjective | quantbot/assurance/contracts.py:1239-1247 | within the governed bounds the packed counter determines purpose, position and attempt |
| Coordinates.CounterValue | quantbot/assurance/contracts.py:1239-1247 | the packed counter is attempt + 256 * purpose code + 65536 * position |
| Coordinates.PayloadIff | quantbot/assurance/contracts.py:1215-1227 | read from the right, a payload string has exactly one meaning, whatever colons the identifier holds |
| Coordinates.DrawsNeverShare | quantbot/assurance/contracts.py:1215-1247 | distinct logical draws have distinct addresses |
| Bootstrap.CheckPath | quantbot/assurance/contracts.py:1300-1333 | accepts exactly the circular paths with their restart and wraparound lists and the hash of their canonical bytes |
| Bootstrap.HashPinsPath | quantbot/assurance/contracts.py:1332-1333 | equal recorded hashes mean equal paths, unless their bytes collide |
| Bootstrap.ClosedForm | quantbot/assurance/contracts.py:1319-1322 | an accepted path is, at t, the value at the start of t's block plus the distance, modulo the length |
| Bootstrap.PathDetermined | quantbot/assurance/contracts.py:1300-1333 | initial index, restart positions and restart values determine the path |
| Bootstrap.BlocksPartition | quantbot/assurance/contracts.py:1318-1322 | the blocks between restarts partition the positions |
| Bootstrap.FewWraps | quantbot/assurance/contracts.py:1323-1330 | at most one wraparound in each block, so at most restart_count + 1 |
| Bootstrap.WrapIffFalls | quantbot/assurance/contracts.py:1323-1330 | a path wraps around exactly where it falls without a restart |
| Bootstrap.GeneratePath | quantbot/assurance/contracts.py:1558-1561 | the frozen algorithm produces an accepted path with exactly its own restarts |
| Bootstrap.AcceptedIsGenerated | quantbot/assurance/contracts.py:1300-1333 | every accepted path is the algorithm's, for its own draws |
| Observer.ClosedBarsGrow | scripts/run_validation_v2.py:135-149 | on time-ordered append-only bars the closed bars of an earlier run are a prefix of a later run's |
| Observer.RunValidationWindow | scripts/run_validation_v2.py:162-343 | the loops publish the specified row for each bar, or fail exactly without reference bars; ObserverRows says what the rows hold |
| ObserverRows.RowsHold | scripts/run_validation_v2.py:243-330 | every published row lists the symbols whose signal is long in universe order, the weighted sum of their returns after carry and the weighted sum of their volatilities |
| ObserverRows.AfterIsMemory | scripts/run_validation_v2.py:246-294 | the state of a symbol from the bars it has seen: its first bar only sets the close, the tracker takes the raw return exactly when the regime is known |
| ObserverRows.CarryIs | scripts/run_validation_v2.py:262-276 | the carry is three times the absolute last funding rate at or before the bar, and nothing without a table |
| ObserverRows.ActiveSymbolsIff | scripts/run_validation_v2.py:249-292 | a symbol is active exactly when it is in the universe, has had an earlier bar and its signal on this one is long |
| ObserverRows.PlanIs | scripts/run_validation_v2.py:177-208 | the window is the last 500 bars, its quarter the last that has started by its first bar, the state starts with the quarter |
| Observer.StepBar | scripts/run_validation_v2.py:246-294 | one pass over the universe advances each symbol's state and collects the active symbols in order |
| Observer.AfterSame | scripts/run_validation_v2.py:243-294 | the state of a symbol depends on the bars seen so far and on nothing added since |
| Observer.SamePlan | scripts/run_validation_v2.py:183-208 | runs in the same quarter start from the same bar with the same universe |
| Observer.PublishedRowsNeverChange | scripts/run_validation_v2.py:162-343 | two runs on growing data give identical rows on every shared bar and one row for each bar of their windows |
| Observer.OneRowPerBar | scripts/run_validation_v2.py:243-297 | a run has one row for each bar of its window exactly when the state starts no later than the window |
| Observer.ObserverInputsGrow | scripts/run_validation_v2.py:152-159 | the inputs of a later observer run extend those of an earlier one |
| Observer.ObserverRowsNeverChange | scripts/run_validation_v2.py:135-343 | two observer runs at two times on append-only raw bars: one row for each bar of each window, and no row of the first differs in the second |
| Drawdown.ComputeEquity | scripts/run_stage4_volnorm.py:74-79 | the loop builds the cumulative equity curve |
| Drawdown.MaxDrawdown | scripts/run_stage4_volnorm.py:82-92 | the loop with its running peak computes the one-pass drawdown, which is the greatest relative fall of the curve |
| Drawdown.DrawdownIsGreatestFall | scripts/run_stage4_volnorm.py:82-92 | the one-pass drawdown is the greatest relative fall over all ordered pairs |
| Drawdown.DrawdownScales | scripts/run_stage4_volnorm.py:82-92 | positive scaling does not change it |
| Drawdown.ConcatenationFallsMore | scripts/run_stage4_volnorm.py:399-400 | on a concatenated series it is at least that of each part |
| Drawdown.K2FiresIff | scripts/run_stage4_volnorm.py:541-567 | K2 fires exactly when the whole series of some split falls by more than 35 percent between two points |
| Drawdown.SilentK2BoundsRegimes | scripts/run_stage4_volnorm.py:541-567 | while K2 is silent no split's low-vol or high-vol series falls by more than 35 percent |
| Drawdown.RegimesDoNotBoundK2 | scripts/run_stage4_volnorm.py:566-567 | the converse fails on two falls of 30 percent, one in each regime |
| Funding.BuildFundingLookup | quantbot/data/funding_loader.py:96-116 | the dictionary has exactly the (symbol, time) pairs of the table as keys, each with the rate of its last row |
| Funding.ScanFindsLast | quantbot/data/funding_loader.py:61-93 | the scan returns the rate of the last table row of the symbol at or before the time, and 0 without one |
| Funding.FastIsScan | quantbot/data/funding_loader.py:119-143 | on a table sorted by symbol and time, repetitions included, the dictionary lookup is the scan for every query |
| Funding.UnsortedDisagrees | quantbot/data/funding_loader.py:57 | without the sort the two can differ |
| Funding.OnlyThePastMatters | quantbot/data/funding_loader.py:61-93 | the rate at a time depends only on the symbol's rows at or before it |
| Klines.ValidateKlines | scripts/fetch_first_statistic_btcusdt_1h.py:108-138 | accepts exactly every hour from the first bound to the last, once and in order |
| Klines.PageTimes | scripts/fetch_first_statistic_btcusdt_1h.py:163-170 | the local checks fix every open time of a page |
| Klines.FetchKlines | scripts/fetch_first_statistic_btcusdt_1h.py:141-174 | for any page sizes the loop stops, and the outcome is that of the page checks alone: the final validation never fails |
| Klines.HonestSucceeds | scripts/fetch_first_statistic_btcusdt_1h.py:141-174 | against a server that answers correctly, whatever page sizes it picks, the acquisition succeeds |

## Left out

- Command lines, printing, report and CSV writers, HTTP, pandas, git calls, the paper ledger and sidecar modules.
- Governance constants and per-phase exact-match validation (most of context.py, the v027 to v041 modules, most `validate_h001_*`); a receipt body validator is a parameter that accepts only integer indexes of at least 1.
- Floats and NaN in JSON documents: the reader refuses them, as every modelled field is a string, an integer, a boolean, a list or a dict. Python's recursion limit and limit on integer digits are not modelled.
- Power loss, fsync and the order in which directories reach the disk: processes stop, machines do not. `_fsync_directory` never fails.
- Symbolic links and descriptors inside the store: the store's own paths are plain files.
- Store.FilesystemStore.constructor: the resolution of the root and the policy on its location are not modelled.
- Store.FilesystemStore.VerifyCopy: the identity check of the pinned root at its end is not modelled, nor in StoreReaders.
- StoreReaders.ReaderSucceeds: a read that raises ends the reader without a report and is not a step; of a restore the reading is interleaved, its workspace is followed in Restoration alone.
- Reads are whole and exact; in the class a chunk has 65536 bytes or is the last one, in the protocol any positive number.
- Temporary files after a lost install race: the code leaves them, and nothing is claimed about them.
- Two restores into one destination at the same time: the failing one removes the shared workspace.
- `put_manifest` called directly, without `ingest`: nothing then says that the objects are there.
- StoreSafety.StepReadBackOk: the concurrent protocol runs on a faithful disk; disk faults are modelled one call at a time.
- Store.FilesystemStore.IngestObject: an object that is already there returns early, so a successful ingest need not have read every source.
- Registry.ValidateArtifactRecord: the JSON shape of records (exact keys, kinds, legacy bindings, expected roles) is not modelled, only the parsed fields that carry evidence.
- Registry.ValidateStoreRegistry: likewise the shape of store entries.
- Availability.ValidateOperationalRegistry: root paths are taken as already resolved; a store that no verified record uses may share a root with one that is used, and the code does not look at it.
- Receipts.OneHashOneHistory: `active_task.json` and the entrypoint texts are represented by the pinned path and hash.
- Rng.CheckBounded: the exact keys of a fixture, its payload and coordinate fields, key words derived from the payload digest and the Philox block function are not modelled; which characters are decimal digits is a parameter.
- Rng.CheckBernoulli: likewise.
- Rng.CheckExhaustion: likewise.
- Observer.RunValidationWindow: the overlay, the tracker, the weights and the logarithmic return are abstract deterministic steps; benchmark, equity, Sharpe ratio and counters of the summary are left out; timestamps are integers in time order.
- Drawdown.ComputeEquity: growth factors are positive reals instead of exponentials of floats.
- Causality of the stage-4 weighted pass: it reads trackers after the whole loop, and nothing is claimed about it.
- Funding.FastIsScan: times are instants in UTC; a query without a time zone always takes the scan in the code.
- Klines.ValidateKlines: prices and volumes are carried along unread.
