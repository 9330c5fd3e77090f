# A verified model of the WDC catalog and config-sync service

The service publishes a catalog of downloadable binaries, keeps versioned
configuration snapshots of devices, and guards both with a few small protocols.
This project models the state machines underneath its HTTP layer in Dafny and
proves what they promise over every input, every run or every reachable state.

`dafny verify dfyconfig.toml` checks everything.

| Module | Models |
|---|---|
| `CatalogMerge` | merging scraped releases into the stored catalog and healing URLs |
| `CatalogServe` | the served document of one app |
| `CatalogResponse`, `CatalogRuns` | the cached catalog response, and every run of the catalog service around it |
| `TtlCache` | the in-process cache with expiry |
| `WrappedKey`, `PayloadLanes` | wrapped data keys; inline, compressed, external and encrypted payloads |
| `SnapshotStore`, `Retention`, `SnapshotRuns` | append, HEAD, restore, delete, purge; every run of them |
| `RetentionTies` | exactly when purging once more deletes nothing |
| `LabelSearch` | label search by LIKE pattern, and the page total |
| `Idempotency` | the Idempotency-Key replay cache as a protocol between concurrent requests |
| `EventBus` | drop-oldest queues fed from many threads |
| `Revocation` | logout, denylist, verdict caches and the nightly sweep across workers |
| `Lockout` | login lockout and the time it costs |
| `SyncRotation` | the ten-deep rollback rows of every push |
| `PluginsFallback` | the plugin catalog's last good copy |
| `Common`, `Decimal` | options, time, decimal text |

Protocols are state machines: a run is any sequence of steps, a step that is not
enabled does nothing, and the environment's choices (clocks, row ids, random
bytes, tie-breaking in an ORDER BY, answers of the network) are parameters. Code
that changes rows in place is a class or a loop, proved equal to a function of
the old state, and the theorems are about that function.

## What is not obvious from the code

- The two competing URL rules reach a fixpoint after two passes without any
  assumption on where own builds are hosted (`ThirdPassChangesNothing`). One pass
  is enough if and only if the first offer of every newly scraped key stands
  (`OnePassSettlesExactly`); a dead first offer beside a live one does not
  (`SecondPassMayChange`).
- A pass reports a change, and so drops the cached response, if and only if some
  version or key is new or some offer would be written into its row as it is
  stored (`MergeApp`). After two passes no URL, source or header changes any more, yet
  the response is still dropped exactly when a mirror-only app's row is off the
  mirror while a live own build is offered, or a size differs (`SettledPassReportsExactly`,
  `RowIsHealedAgainExactly`, `UnmirroredOwnBuildIsRewritten`).
- A healed row keeps the SHA-256 recorded for its old URL
  (`PassNeverBreaksLiveUrls`). A row ends with the size of the last sized offer of
  its URL unless healing is on, it was replaceable right after that offer, and a live
  own build at the URL follows (`SizeIsKeptExactly`, `UnsizedOwnBuildClearsTheSize`).
- A second purge at the same instant deletes nothing, whatever the tie-breaking of
  either, if and only if the quota does not end among the rows that share the
  timestamp of an unexpired HEAD (`SecondPurgeIsQuietExactly`). Distinct timestamps
  suffice (`DistinctTimesAreQuiet`); two tied rows and a quota of one do not
  (`TiedHeadUnsettlesThePurge`).
- The older wrapped-key format loses data exactly when the blob happens to begin
  with the new magic or the separator starts early (`LegacyRoundTripsExactly`,
  `LegacyLosesTheMagic`, `LegacyLosesTheSeparator`).
- Two requests that the service can receive share an idempotency record if and
  only if account, endpoint and key are the same, whatever the client writes into
  the device segment (`RecordsAreApart`). The hashed text alone would not promise
  that: it joins path and key with a bar that both may hold (`SeedsAgreeExactly`).
- The replay cache does not lock: a request can run its mutation if and only if no
  valid record is committed when it arrives (`MutationIsOpenExactly`), so two that
  both miss both run (`EarlyRequestsBothMutate`). Still at most one record is stored
  (`ExactlyOneRecord`).
- The plugin fallback file is shared by all repositories. A key has lost its copy if
  and only if, since its last good response, another key's was saved and there was a
  restart or an empty list (`FallbackIsLostExactly`,
  `AnotherRepositoryTakesTheFile`).
- The lockout bound holds if and only if the login requests of one account are
  handled one at a time (`BoundHoldsExactly`): two requests that pass the lock test
  before either writes count as one failure (`OverlapCountsOnce`,
  `OverlapsBeatTheBound`), and any number may be tested at once (`BurstTestsAny`).
  Handled one at a time, the bound is tight for every n (`BoundIsAttained`). An armed
  lock is never taken back under the same condition and no other (`LocksHoldExactly`):
  a write from a stale load can replace a lock until minute ten by one until minute six
  (`StaleWriteTakesTheLockBack`).
- After a logout has committed, a worker can still accept the token at a given delay
  if and only if at the commit it held a good verdict lasting that long
  (`StillAcceptedExactly`), so never from 30 seconds on (`LogoutHoldsEverywhere`), and
  any shorter delay is possible (`StaleVerdictWindow`).
- A caller can read back what it has just written unless the create reused a HEAD that
  somebody sealed under a passphrase (`CallerReadsBackExactly`,
  `PlainCreateAfterSealedOne`). While HEAD is sealed under a passphrase, its device cannot
  be restored to another row (`RestoreSucceedsExactly`).

## Model

| member | source | states |
|---|---|---|
| `CatalogMerge.TextIsPreserved` | app/service.py:308-316 | splitting URLs at the mirror prefix and telling own builds and php.net by their labels loses nothing, so rows over the classified values are rows over the stored text |
| `CatalogMerge.MajorMinorIsTwoParts` | app/service.py:274-276 | the branch of a version is its prefix up to the second dot, or all of it |
| `CatalogMerge.ReviseRow` | app/service.py:392-467 | the in-place update of one stored row equals the declarative revision, and moves one counter per size refresh and per heal |
| `CatalogMerge.RevisionsSettle` | app/service.py:403-467 | after any list of offers, a live offer leaves the row live, and a live own build leaves it beyond both rules |
| `CatalogMerge.RevisionsAreIdempotent` | app/service.py:403-467 | visiting the same offers a second time changes no URL, source or headers, although the two rules compete |
| `CatalogMerge.RevisionsNeverBreakLiveUrls` | app/service.py:403-467 | a live URL outside the own-build rule survives any offers; any new origin is that of a live offer; the hash is kept |
| `CatalogMerge.RowIsHealedAgainExactly` | app/service.py:404-466 | some offer heals the row a pass leaves if and only if healing is on, the app is mirror-only, the row is off the mirror and a live own build is offered |
| `CatalogMerge.UnmirroredOwnBuildIsRewritten` | app/service.py:404-436 | without the prefix, a mirror-only app's row is adopted again by each pass with no change |
| `CatalogMerge.SizeIsKeptExactly` | app/service.py:392-466 | a row ends with the size of the last sized offer of its URL if and only if not: healing is on, the row was replaceable after that offer, and a live own build at the URL follows |
| `CatalogMerge.PassSizesRows` | app/service.py:392-466 | over a whole pass, a row that moved carries the size of an offer scraped for its new URL or none, and none when no such offer has one; a row that stayed without a sized offer keeps its size, with the exact exception |
| `CatalogMerge.UnsizedOwnBuildClearsTheSize` | app/service.py:404-436 | an own build off the mirror that is offered again without a size clears the size |
| `CatalogMerge.StoredRowsSettleInOnePass` | app/service.py:386-482 | a row stored before a pass is final after that pass |
| `CatalogMerge.ThirdPassChangesNothing` | app/service.py:386-482 | after two passes over a scrape, a third adds no release and no download and changes no URL, source or headers |
| `CatalogMerge.FreshRowStaysExactly` | app/service.py:403-480 | a row inserted from the first offer keeps its origin in the next pass if and only if healing is off, or no offer is live, or the first is live and is not replaceable or is the own build it would land at |
| `CatalogMerge.ReplaceableRowLands` | app/service.py:404-436 | a live replaceable row ends at the first final own build, or else at the last live one |
| `CatalogMerge.ReplaceableRowStaysExactly` | app/service.py:404-436 | a live replaceable row keeps its origin if and only if the own build it would land at, if any, has it |
| `CatalogMerge.OnePassSettlesExactly` | app/service.py:367-482 | a second pass changes nothing if and only if the first offer of every newly scraped key stands |
| `CatalogMerge.SecondPassMayChange` | app/service.py:367-379 | a dead first offer beside a live one: the row queued in a pass is healed by the next |
| `CatalogMerge.PassHealsRows` | app/service.py:403-467 | when a live URL is scraped for a stored row, the row ends live; when a live (mirrored) own build is, no superseded source is left |
| `CatalogMerge.PassConserves` | app/service.py:358-482 | every stored release and row stays under its version and platform, exactly the scraped keys are added, and a new row is the first offer for its key |
| `CatalogMerge.PassNeverBreaksLiveUrls` | app/service.py:403-467 | over a whole pass, a live URL that is neither php.net-sourced nor unmirrored in a mirror-only app is kept; a changed URL is alive and was scraped for the same version and platform |
| `CatalogMerge.PassKeepsForeignKeys` | app/service.py:386-480 | every download row keeps naming a stored release |
| `CatalogMerge.MergedReleasesKeepTheFirst` | app/service.py:358-390 | stored releases stay as they are, and the first scraped entry of a new version supplies its row |
| `CatalogMerge.NewReleaseCarriesTheScrape` | app/service.py:389-398 | branch, channel and date of a new release are those of the first scraped entry of its version, the branch derived when none is named |
| `CatalogMerge.VisitKey` | app/service.py:367-379 | one scraped download revises the stored row of its key, is queued, or is ignored in favour of the queued one; the UNIQUE constraint never trips |
| `CatalogMerge.NewReleaseHasNoRows` | app/service.py:387-403 | the guard against healing rows of a new release never stops a heal |
| `CatalogMerge.VisitReleasesCount` | app/service.py:381-400 | the counter of inserted releases is the number of distinct scraped versions that were absent |
| `CatalogMerge.PassIsMerged` | app/service.py:386-482 | the nested loop with its buckets and its queue of unseen rows computes the result defined key by key |
| `CatalogMerge.CountersTellExactly` | app/service.py:381-487 | the four counters stay at zero if and only if no version or key is new and no offer would be written into its row as stored |
| `CatalogMerge.SettledPassReportsExactly` | app/service.py:484-487 | a pass over a settled catalog drops the cached response if and only if some row is healed again or resized |
| `CatalogMerge.VisitDownload` | app/service.py:404-482 | one turn of the inner loop |
| `CatalogMerge.VisitDownloads` | app/service.py:402-482 | the inner loop over the downloads of one scraped release |
| `CatalogMerge.VisitScrape` | app/service.py:386-482 | the outer loop over the scraped releases |
| `CatalogMerge.MergeApp` | app/service.py:358-487 | a pass yields the declarative result and the number of absent versions, and reports a change exactly when there is something to do |
| `CatalogMerge.PassForApp` | app/service.py:381-467 | by app id and settings: with healing off no origin changes; a live URL is kept unless it comes from php.net or is an apache or mysql URL off the mirror; a live offer leaves the row live |
| `CatalogMerge.NewReleaseForApp` | app/service.py:389-398 | a new release whose scrape names no branch gets the first two parts of its version |
| `CatalogMerge.Catalog.ApplyGenerated` | app/service.py:321-487 | the whole operation with replace, an unknown app, and a held response that survives exactly a pass that has nothing to do |
| `CatalogServe.VersionKeyOfDotted` | app/service.py:66-69 | the key of a dotted version is its list of numbers |
| `CatalogServe.VersionKeyOfPieces` | app/service.py:66-69 | for every text, cut into gaps and runs of digits, the key is the list of the runs' values |
| `CatalogServe.LessIsLexicographic` | app/service.py:66-74 | keys compare at their first difference, a proper prefix first |
| `CatalogServe.LessIsTotal` | app/service.py:66-74 | tuple order on version keys is irreflexive, asymmetric and total |
| `CatalogServe.LessIsTransitive` | app/service.py:66-74 | and transitive |
| `CatalogServe.SortedIsInOrder` | app/service.py:74-74 | releases are in descending numeric order, ties in stored order |
| `CatalogServe.SortedHoldsAll` | app/service.py:74-74 | sorting neither loses nor invents a release |
| `CatalogServe.NothingOfferable` | app/service.py:51-63 | nothing is offerable exactly when every download is unmirrored in a mirror-only app or implausibly small |
| `CatalogServe.OfferableIsSelection` | app/service.py:51-63 | the offerable downloads are exactly the stored ones that are mirrored where only mirrors count and not under 100000 bytes, in stored order and multiplicity |
| `CatalogServe.Filter` | app/service.py:75-79 | a release is kept unless it is a stable-channel pre-release or all its downloads were withdrawn |
| `CatalogServe.Collect` | app/service.py:73-100 | the loop shows exactly the kept releases in the given order |
| `CatalogServe.AppToSchema` | app/service.py:72-109 | the document carries the app's fields with their defaults and its releases, sorted, exactly those to be served, each with its columns and exactly the downloads that may be served |
| `CatalogServe.VersionIsServedExactly` | app/service.py:72-100 | a version is served if and only if it is stored, no stable-channel pre-release, and has an offerable download or none at all |
| `CatalogServe.ServedReleaseIsStored` | app/service.py:80-99 | a served release is a stored one, with its columns |
| `CatalogServe.DownloadIsServedExactly` | app/service.py:51-99 | a served release lists a download if and only if the tables hold it for its version and it may be served |
| `CatalogServe.FirstServedIsNewest` | app/service.py:66-100 | the first release served is maximal among those kept |
| `TtlCache.Lookup` | app/_cache.py:35-41 | an entry is found exactly before its expiry instant |
| `TtlCache.StoredIsReadUntilExpiry` | app/_cache.py:35-46 | a value that was set is returned until its TTL has passed, never after, and other keys are unaffected |
| `TtlCache.Cache.constructor` | app/_cache.py:30-33 | a new cache is empty |
| `TtlCache.Cache.Get` | app/_cache.py:35-41 | reading is the lookup |
| `TtlCache.Cache.Set` | app/_cache.py:43-46 | setting replaces one entry, with the given or the default TTL |
| `TtlCache.Cache.Invalidate` | app/_cache.py:56-61 | one key goes, or all of them |
| `CatalogResponse.CatalogApi.GetCatalog` | app/api_catalog.py:29-75 | the cached or rebuilt page is answered, or 304 when the client's tag matches |
| `CatalogResponse.CatalogApi.constructor` | app/_cache.py:64-64 | the response cache starts empty with a TTL of 30 seconds |
| `CatalogResponse.CatalogApi.Invalidate` | app/_cache.py:74-75 | the page and the stable timestamp are dropped |
| `CatalogResponse.ServedContentIsCurrent` | app/api_catalog.py:40-66 | in every run in which changes invalidate, a read is answered with the current content under its tag |
| `CatalogResponse.NotModifiedExactly` | app/api_catalog.py:67-75 | in every run, 304 is answered if and only if the client's tag is that of the current content; else that content under its tag |
| `CatalogResponse.PageIsHeldFor30Seconds` | app/api_catalog.py:40-66 | a page is reused for 30 seconds and rebuilt after them |
| `CatalogResponse.RebuildsAreIdentical` | app/api_catalog.py:55-66 | between invalidations and until the fixed timestamp expires, every rebuild gives the same body |
| `CatalogResponse.ReadAfterInvalidationFixes` | app/api_catalog.py:55-63 | the first read after an invalidation fixes the timestamp for 24 hours |
| `CatalogRuns.ChangesInvalidate` | app/service.py:135-271 | every mutation of the catalog that changes a row invalidates the cache |
| `CatalogRuns.MergeIsAPass` | app/service.py:321-487 | a merge is the pass over the rows, keeps their foreign keys, and one that does not invalidate has changed nothing |
| `CatalogRuns.OtherAppsStay` | app/service.py:135-271 | no mutation touches another app |
| `CatalogRuns.CreateIsExact` | app/service.py:135-159 | a create is refused for an empty or taken id, else adds an app without releases, shown by its id if unnamed |
| `CatalogRuns.UpdateIsExact` | app/service.py:162-187 | an update changes the fields it names; an empty homepage or license is cleared |
| `CatalogRuns.DeletesAreExact` | app/service.py:190-232 | a deleted app is gone; a deleted release takes its own downloads and nothing else |
| `CatalogRuns.AddReleaseIsExact` | app/service.py:200-222 | an added release has the given columns, its branch derived when none is named, and is refused for a stored version |
| `CatalogRuns.AddDownloadIsExact` | app/service.py:235-261 | an added download has the given columns, no hash and no size, and is refused without its release or for a taken platform |
| `CatalogRuns.DeleteDownloadIsExact` | app/service.py:264-271 | a deleted download alone goes |
| `CatalogRuns.MergeIsExact` | app/service.py:340-343 | a merge works on the app's rows, or on none after a replace, and leaves the app's fields alone |
| `CatalogRuns.MutationKeepsForeignKeys` | app/service.py:135-271 | every mutation keeps the foreign keys of the catalog tables |
| `CatalogRuns.RunIsSeen` | app/service.py:123-132 | every run of the service is a run of the response cache in which changes invalidate |
| `CatalogRuns.ServedCatalogIsTheDatabase` | app/api_catalog.py:29-75 | from an empty cache, in every run of reads, mutations, merges and expiries, the served body is the rendering of the current database apart from its timestamp |
| `CatalogRuns.ServedCatalogIsRight` | app/service.py:30-109 | with the real rendering: in every run the served body is the serialized document of the current tables, in which every app shows its fields and exactly the versions its tables offer, newest first, each with exactly the downloads that may be served |
| `WrappedKey.Uint32RoundTrip` | app/snapshots.py:287-294 | the length is big-endian and comes back |
| `WrappedKey.PackRoundTrip` | app/snapshots.py:287-295 | packing and unpacking gives back wrapped key and salt, whatever bytes they hold |
| `WrappedKey.PartitionAtFirst` | app/snapshots.py:299-300 | the older form splits at the first separator |
| `WrappedKey.PartitionWithout` | app/snapshots.py:299-300 | and keeps everything on the left without one |
| `WrappedKey.LegacyRoundTripsExactly` | app/snapshots.py:291-300 | the older form round-trips if and only if the blob does not begin with the magic and no separator starts early |
| `WrappedKey.LegacyLosesTheMagic` | app/snapshots.py:291-295 | every wrapped key of the older form that begins like the magic is lost |
| `WrappedKey.LegacyLosesTheSeparator` | app/snapshots.py:299-300 | and so is every one that holds the separator |
| `PayloadLanes.MintedKeyUnwraps` | app/snapshots.py:206-312 | a new data key opens for the credential that minted it |
| `PayloadLanes.PlainRoundTrip` | app/snapshots.py:79-125 | for every payload and all thresholds, an unencrypted row fills one lane and reads back as the payload |
| `PayloadLanes.LaneFollowsTheSize` | app/snapshots.py:88-125 | inline, compressed or external follows from the two thresholds, and only what no lane takes is refused |
| `PayloadLanes.ShortPassphraseMintsNothing` | app/snapshots.py:231-240 | a new passphrase under twelve characters mints no key |
| `PayloadLanes.OlderSealsOpen` | app/snapshots.py:337-345 | a blob sealed under the older associated data still opens |
| `PayloadLanes.ReadErrors` | app/snapshots.py:178-191 | no lane, object gone, key gone and passphrase needed, in that order |
| `PayloadLanes.SealedRoundTrip` | app/snapshots.py:325-345 | an encrypted row fills one lane and reads back for the credential that wrote it |
| `PayloadLanes.ReadIsLocal` | app/snapshots.py:172-200 | reading depends only on the row's own key and object |
| `SnapshotStore.NewRowReads` | app/snapshots.py:386-421 | what a create packs fills one lane and reads back, and no key row or object is overwritten |
| `SnapshotStore.SealedAsAsked` | app/snapshots.py:386-421 | told from the caller's flags: asked for encryption or given a passphrase, with an account, a create makes a new sealed row under an active key of the account of the right kind; otherwise a new row is not sealed |
| `SnapshotStore.HeadIsReusedExactly` | app/snapshots.py:371-381 | HEAD is reused if and only if it has the same checksum and there is no label, no encryption and no passphrase |
| `SnapshotStore.CreateKeepsStore` | app/snapshots.py:348-447 | a create keeps HEADs, parents, readability and disjoint objects |
| `SnapshotStore.CreateWritesHead` | app/snapshots.py:371-447 | after a create, HEAD is the returned row and holds the payload just given, even when it was reused; a new row carries what the caller gave and the previous HEAD as parent |
| `SnapshotStore.CallerReadsBackExactly` | app/snapshots.py:371-447 | after a create, the caller reads back its payload with its own credential if and only if it did not reuse a HEAD sealed under a passphrase |
| `SnapshotStore.PlainCreateAfterSealedOne` | app/snapshots.py:374-381 | a plain create after a passphrase create of the same payload returns the sealed row and cannot read it |
| `SnapshotStore.CreateKeepsRows` | app/snapshots.py:423-440 | a create changes and removes no row |
| `SnapshotStore.CreateIsLocal` | app/snapshots.py:423-465 | a create moves no other device's HEAD and changes no key or object that is there |
| `SnapshotStore.RemoveKeepsStore` | app/db.py:598-603 | deleting non-HEAD rows, with SET NULL on parents and their own objects, keeps every invariant |
| `SnapshotStore.SetHeadKeepsStore` | app/snapshots.py:450-465 | moving HEAD within its device keeps every invariant |
| `SnapshotStore.DeleteKeepsStore` | app/backups.py:304-327 | a delete that is not refused keeps every invariant |
| `SnapshotStore.DeleteIsExact` | app/backups.py:304-327 | a delete is not found unless the row is the account's on that device, refused for HEAD, and else takes that row alone, forgetting it as a parent |
| `SnapshotStore.RestoreKeepsStore` | app/backups.py:404-421 | a restore keeps every invariant |
| `SnapshotStore.RestoreIsReversible` | app/backups.py:404-421 | HEAD moves to the untouched target, and one new pre-restore row holds the displaced payload, readable without a passphrase |
| `SnapshotStore.RestoreIsLocal` | app/backups.py:404-421 | only an owned row is restored to; no other device's HEAD moves; without a displaced HEAD nothing else changes |
| `SnapshotStore.RestoreSucceedsExactly` | app/backups.py:404-421 | a restore to an owned row succeeds if and only if there is no HEAD, or it is the target, or it is not sealed under a passphrase and a plain copy of it can be stored |
| `SnapshotStore.RetireKeepsStore` | app/crypto.py:20-26 | retiring a key keeps every invariant: what it sealed stays readable |
| `SnapshotStore.RetireIsExact` | app/snapshots.py:216-230 | a retired key is no active key, and nothing else changes |
| `SnapshotStore.AncestorsDescend` | app/snapshots.py:423-440 | a chain of parents has strictly decreasing ids on one device, so it ends and never meets itself |
| `SnapshotStore.SnapshotDb.HeadOf` | app/snapshots.py:468-472 | HEAD is the row that the device row names, if it exists |
| `SnapshotStore.SnapshotDb.SetHead` | app/snapshots.py:450-465 | only this device's HEAD moves |
| `SnapshotStore.SnapshotDb.ActiveKey` | app/snapshots.py:206-273 | an active key is reused, or one is minted and stored, or the unique index refuses it and the key that got there first is used |
| `SnapshotStore.SnapshotDb.CreateSnapshot` | app/snapshots.py:348-447 | the tables change as the specification says, and not at all on an error |
| `SnapshotStore.SnapshotDb.RestoreBackup` | app/backups.py:404-421 | restore with all its errors |
| `SnapshotStore.SnapshotDb.DeleteBackup` | app/backups.py:304-327 | delete: not found, refused for HEAD, or done |
| `Retention.PurgeSpares` | app/snapshots.py:560-601 | with sound HEADs, a purge chooses no HEAD of any device, no row of another kind or account, and no labelled row when labels are kept |
| `Retention.HeadIsChosenExactly` | app/snapshots.py:560-601 | a row is chosen if and only if it is eligible and due and the account has no row on any device whose HEAD it is; so no HEAD of its own device ever is |
| `Retention.DanglingHeadIsPurged` | app/snapshots.py:587-591 | the invariant is needed: a HEAD naming another device's row would be purged |
| `Retention.PurgeKeepsStore` | app/snapshots.py:538-641 | a purge keeps every invariant of the store |
| `Retention.PurgeMeetsQuota` | app/snapshots.py:567-601 | for every tie-breaking, each device keeps at most the quota of eligible rows beside HEAD |
| `Retention.PurgeDeletesExactly` | app/snapshots.py:560-601 | a row goes if and only if it is an automatic row of the account, unlabelled where labels are kept, ranked past the quota or not newer than the cutoff, and no HEAD |
| `Retention.RankedExactly` | app/snapshots.py:560-586 | exactly the rows that may be purged are ranked |
| `Retention.PurgeLeavesTheRest` | app/snapshots.py:603-641 | all other rows stay but for deleted parents, all HEADs and keys stay, and of the objects those go that deleted rows named and that could be deleted |
| `Retention.RankedOutRowsAreOld` | app/snapshots.py:567-593 | a row deleted by rank has at least the quota of eligible rows of its device that are no older |
| `Retention.ChosenAgainIsBehind` | app/snapshots.py:567-601 | what a second purge would choose was within the first quota, and stands behind a survivor from beyond it |
| `RetentionTies.RankByIsRanking` | app/snapshots.py:567-574 | any preference among tied rows is a numbering the window function may produce |
| `RetentionTies.ChosenAgainMeansCut` | app/snapshots.py:567-601 | a row that a second purge would delete means the quota ends among the rows tied with its HEAD |
| `RetentionTies.CutUnsettles` | app/snapshots.py:567-601 | wherever the quota ends among the rows tied with a HEAD, two numberings exist under which the second purge deletes a row |
| `RetentionTies.SecondPurgeIsQuietExactly` | app/snapshots.py:567-601 | a second purge at the same instant deletes nothing under all numberings of both if and only if the quota cuts no unexpired HEAD's tied rows |
| `RetentionTies.DistinctTimesAreQuiet` | app/snapshots.py:567-601 | with distinct timestamps on each device, a second purge at the same instant deletes nothing |
| `RetentionTies.TiedHeadUnsettlesThePurge` | app/snapshots.py:567-601 | two tied rows, one of them HEAD, and a quota of one: the second purge may delete a row |
| `Retention.SnapshotTable.DeleteIn` | app/snapshots.py:638-639 | one batch and its row count, with parents set to NULL |
| `Retention.SnapshotTable.DeleteChunked` | app/snapshots.py:632-641 | chunks delete exactly the given ids and count them |
| `Retention.SnapshotTable.PurgeAutoOlderThan` | app/snapshots.py:538-641 | the purge deletes exactly the chosen rows and their deletable objects, and returns their number |
| `SnapshotRuns.ReachableStoresAreOk` | app/snapshots.py:348-641 | in every reachable state of creates, restores, deletes, purges and key retirements, HEADs, parents, lanes, readability and objects are sound |
| `SnapshotRuns.ReachablePurgesAreSafe` | app/snapshots.py:560-601 | in every reachable state, a purge with any policy and ranking spares HEADs and other accounts |
| `SnapshotRuns.ReachableChainsEnd` | app/snapshots.py:423-440 | in every reachable state, every chain of parents ends on its device, id reuse and SET NULL included |
| `SnapshotRuns.ReachableRowsRead` | app/snapshots.py:172-200 | in every reachable state, whoever wrote a surviving row reads back what they wrote |
| `LabelSearch.ChainedReplacementsEscape` | app/snapshots.py:494-494 | the three chained replacements equal one escape per character |
| `LabelSearch.PatternFindsLiteralText` | app/snapshots.py:491-495 | the pattern is well-formed, and a label matches it if and only if it contains the text literally |
| `LabelSearch.UnescapedPercentMatchesAnything` | app/snapshots.py:492-494 | why the escaping is there |
| `LabelSearch.UnescapedUnderscoreMatchesAnyCharacter` | app/snapshots.py:492-494 | likewise for the underscore |
| `LabelSearch.CountSelected` | app/db.py:96-110 | the count over the filtered rows is the number of matches |
| `LabelSearch.PageIsExact` | app/snapshots.py:496-503 | the page starts at the clamped offset and has as many of the following rows as the clamped limit allows |
| `LabelSearch.SelectedIsWanted` | app/snapshots.py:488-495 | the filters with the escaped pattern select exactly the rows whose label contains the text literally |
| `LabelSearch.ListSnapshots` | app/snapshots.py:475-513 | the page is the right slice, newest first, of the rows the user asks for, labels taken literally, and the total is their number on both branches |
| `Idempotency.SeedsAgreeExactly` | app/idempotency.py:40-42 | two requests share a record if and only if account and method agree and path and key read the same joined by a bar |
| `Idempotency.RecordsAreApart` | app/idempotency.py:40-42 | for the endpoints behind the cache, whatever is in the device segment and the key, two requests share a record if and only if account, endpoint and key are the same |
| `Idempotency.Records.ReplayIfPresent` | app/idempotency.py:63-114 | bad header, miss, expired row deleted, mismatch, or replay |
| `Idempotency.Records.Persist` | app/idempotency.py:117-162 | a taken key keeps its record |
| `Idempotency.ReachableKeysAreOk` | app/idempotency.py:117-162 | in every run a key has at most one row, committed or pending, and a pending row is its owner's |
| `Idempotency.FirstInsertWins` | app/idempotency.py:117-162 | from its insert on, a row either waits, fails with its transaction, or is the record whose response its request returned |
| `Idempotency.RecordIsFinal` | app/idempotency.py:63-162 | a committed record is not replaced or removed while it is valid, whatever runs |
| `Idempotency.InsertIsExact` | app/idempotency.py:136-162 | a stored record has the request's body hash and response and expires after 24 hours |
| `Idempotency.ArrivalIsExact` | app/idempotency.py:87-91 | an arriving request deletes an expired record of its key and changes no other |
| `Idempotency.RecordsExpireInADay` | app/idempotency.py:138-153 | in every run no record stays valid for longer than 24 hours |
| `Idempotency.LateRequestsReplay` | app/idempotency.py:63-114 | a request that arrives after the commit gets exactly the recorded response, or 422 for a different body, and never mutates |
| `Idempotency.MutationIsOpenExactly` | app/idempotency.py:63-114 | a request can run its mutation in some continuation if and only if no valid record is committed when it arrives |
| `Idempotency.EarlyRequestsBothMutate` | app/idempotency.py:63-114 | two requests that arrive with no valid record both mutate, whatever their bodies |
| `Idempotency.ExactlyOneRecord` | app/idempotency.py:63-162 | in every interleaving within the TTL at most one record is stored, the first committed; any answer, fresh or replayed, means exactly one, and every replay is its response |
| `EventBus.Pushed` | app/event_bus.py:43-60 | the newest event is never the one that is lost, and the cap holds |
| `EventBus.Queue.PutNowait` | app/event_bus.py:43-60 | a put on a full queue changes nothing |
| `EventBus.Queue.GetNowait` | app/event_bus.py:43-60 | a get takes the oldest |
| `EventBus.Queue.Deliver` | app/event_bus.py:43-60 | one eviction is always enough |
| `EventBus.Registry.Register` | app/event_bus.py:77-82 | refused at the cap, else added |
| `EventBus.Registry.Unregister` | app/event_bus.py:84-88 | one queue goes |
| `EventBus.QueueIsALossySuffix` | app/event_bus.py:43-122 | in every interleaving the queue is a bounded suffix of the deliveries, received plus queued is a subsequence of them, received + dropped + queued = delivered, and nothing is dropped before more than 128 are delivered |
| `EventBus.PublishIsSentToAll` | app/event_bus.py:92-106 | a publish is sent to exactly the queues registered when it begins |
| `EventBus.EveryPublishArrives` | app/event_bus.py:92-122 | in every run, such a queue has the event exactly once among its deliveries and waiting callbacks once its publisher has handed it on, unless the loop was closed then |
| `EventBus.LostOnlyToAClosedLoop` | app/event_bus.py:113-122 | a delivery is given up only by a step that met a closed loop |
| `EventBus.LineIsDelivered` | app/event_bus.py:113-122 | once the loop has run as many callbacks as were waiting, the event has been delivered |
| `EventBus.CallbacksCanRun` | app/event_bus.py:113-118 | a waiting callback can always run |
| `EventBus.SubscribeRegisters` | app/event_bus.py:77-82 | a fresh queue is registered exactly when fewer than 32 are |
| `EventBus.UnsubscribedStaysOut` | app/event_bus.py:84-88 | once unsubscribed, a queue is never registered again |
| `EventBus.RegistryIsBounded` | app/event_bus.py:77-122 | at most 32 queues are registered, and no delivery is ever owed to a queue that does not exist |
| `EventBus.ReceivedInPublishOrder` | app/event_bus.py:92-149 | no subscriber receives two events of one thread out of order or one twice |
| `Revocation.Service.constructor` | app/_cache.py:71-71 | a restarted worker has no verdicts |
| `Revocation.Service.Revoked` | app/devices.py:202-215 | a fresh verdict, or the denylist, whose answer is cached |
| `Revocation.Service.CurrentAccount` | app/devices.py:274-297 | a token passes if and only if it decodes, is not revoked, and carries its account's version |
| `Revocation.Service.Logout` | app/devices.py:483-515 | the handling worker drops its verdict |
| `Revocation.LogoutHoldsEverywhere` | app/devices.py:202-215 | in every run, from 30 seconds after the commit every worker refuses the token for ever, after the sweep and account deletion too |
| `Revocation.HandlingWorkerRefusesAtOnce` | app/devices.py:511-513 | the worker that handled the logout refuses the token from the commit on, unless it looks it up again in between |
| `Revocation.BumpRefusesAll` | app/devices.py:288-297 | raising an account's token version refuses every earlier token, everywhere, at once and for ever |
| `Revocation.DeletionRefusesAll` | app/db.py:263-281 | deleting an account refuses its tokens at once and for ever, although its denylist rows go with it |
| `Revocation.SweepIsExact` | app/retention.py:137-141 | the sweep deletes exactly the rows whose token has expired |
| `Revocation.OnlyLogoutRevokes` | app/devices.py:274-297 | until its own logout commits, a token is accepted exactly while it is unexpired and matches its account |
| `Revocation.StillAcceptedExactly` | app/devices.py:202-215 | a worker can still accept a token at some delay after the commit if and only if it held a good verdict then that lasts, as the token does |
| `Revocation.StaleVerdictWindow` | app/_cache.py:35-46 | any shorter delay would be wrong |
| `Lockout.Account.RecordFailedLogin` | app/devices.py:173-199 | the counter, the lock and the returned minutes |
| `Lockout.Account.Login` | app/devices.py:377-476 | locked, bad password, disabled or logged in, and what each does to the counters |
| `Lockout.LoneRequestIsALogin` | app/devices.py:377-476 | lock test and write as two steps, with nothing between them, are one login; a success clears counter and lock, a locked or disabled attempt changes nothing |
| `Lockout.SoloRunsAreOk` | app/devices.py:186-199 | while no two requests overlap and none succeeds, the lock reaches as far as the next bound |
| `Lockout.NthFailureIsLate` | app/devices.py:186-199 | without overlapping requests, the n-th failed check comes at least n-5, 5+5(n-10), 30+30(n-15) minutes after the first |
| `Lockout.BoundHoldsExactly` | app/devices.py:377-476 | with at most c requests of the account under way, no run beats the bound if and only if c is at most one |
| `Lockout.OverlapCountsOnce` | app/devices.py:186-187 | two failures that overlap count as one |
| `Lockout.OverlapsBeatTheBound` | app/devices.py:389-450 | three overlapping pairs: the sixth failed check comes at minute zero |
| `Lockout.BurstTestsAny` | app/devices.py:389-450 | any number of overlapping passwords is tested at minute zero |
| `Lockout.LocksHoldExactly` | app/devices.py:377-450 | with at most c requests of the account under way, no step of any run without a success takes an armed lock back if and only if c is at most one |
| `Lockout.StaleWriteTakesTheLockBack` | app/devices.py:186-199 | a request that loaded four failures writes after the tenth: the lock until minute ten becomes one until minute six |
| `Lockout.BoundIsAttained` | app/devices.py:186-199 | for every n some run meets the bound exactly |
| `SyncRotation.SyncDb.Rotate` | app/api_sync_snapshots.py:101-118 | the loop deletes exactly the rows past the tenth |
| `SyncRotation.SyncDb.UpsertConfig` | app/api_sync.py:33-101 | refused for another account's device; else save and rotate, or go on without a copy when making it raises; overwrite, link, describe |
| `SyncRotation.SyncDb.Describe` | app/api_sync.py:88-101 | name, number of sites, system and architecture follow the document where it mentions them |
| `SyncRotation.PushIsExact` | app/api_sync.py:54-85 | a push to another account's device changes nothing; any other leaves the document stored and the device linked to the account, and other devices alone |
| `SyncRotation.CopyIsExact` | app/api_sync.py:61-76 | the copy holds the displaced payload, under the push's own time, account and device |
| `SyncRotation.MetadataIsExact` | app/api_sync.py:88-101 | name, sites, system from "tag" and architecture from "arch" where the document has them, and else unchanged |
| `SyncRotation.ListingIsUnique` | app/api_sync_snapshots.py:103-111 | distinct timestamps leave the database one order to return |
| `SyncRotation.PushHolds` | app/api_sync_snapshots.py:79-118 | a saving push drops the oldest of eleven rows and nothing else |
| `SyncRotation.OthersKeepHolds` | app/api_sync_snapshots.py:101-118 | a push of another account or to another device leaves them as they are |
| `SyncRotation.RollbackRowsAreTheLastTen` | app/api_sync.py:61-81 | in every run of pushes by any accounts to any devices, from any rows that hold the end of an earlier history, the i-th newest row of an account and device is its i-th last non-empty payload overwritten and copied, and there are min(10, k) |
| `SyncRotation.OtherRowsAreUntouched` | app/api_sync_snapshots.py:101-118 | rows of other devices and accounts stay |
| `PluginsFallback.PluginsCatalog.SaveSnapshot` | app/plugins_catalog.py:99-111 | the one file now holds this copy |
| `PluginsFallback.PluginsCatalog.LoadSnapshot` | app/plugins_catalog.py:114-125 | absent, foreign or empty copies are no copies |
| `PluginsFallback.PluginsCatalog.GithubReleases` | app/plugins_catalog.py:128-177 | memo, fetch, save, or fall back to memory and then to the file |
| `PluginsFallback.CopiesAreLastGood` | app/plugins_catalog.py:99-177 | in every run neither copy is anything but the last good response of its key |
| `PluginsFallback.FallbackIsNeverWrong` | app/plugins_catalog.py:144-177 | over any number of repositories, a fallback is the last good response of that very key, or nothing |
| `PluginsFallback.FallbackIsTheLastGood` | app/plugins_catalog.py:144-177 | for one key, a failed fetch returns exactly the last non-empty response with its own time and the stale mark, and nothing only if there never was one |
| `PluginsFallback.AnswerIsRight` | app/plugins_catalog.py:144-177 | every answer in every run: the memo within its TTL, a fetched list unmarked, and on a failure the last non-empty response with its time and the stale mark, or nothing if there never was one |
| `PluginsFallback.FallbackIsLostExactly` | app/plugins_catalog.py:99-177 | with several keys, a copy is lost if and only if, since the key's last good response, another key's was saved and there was a restart or an empty list |
| `PluginsFallback.AnotherRepositoryTakesTheFile` | app/plugins_catalog.py:99-125 | two repositories and a restart bring that about |

## Left out

Assumptions of the model:

- Liveness of a URL is one fixed answer per pass; app ids, device ids and HTTP methods are taken in their normalised case; the test for pre-releases is a parameter; `\d` is taken to match ASCII digits.
- Sizes stay outside the fixpoint: offers of different or missing sizes for one URL can need one more pass; `SettledPassReportsExactly` says when.
- The one-row mutators of the catalog (create, update and delete of apps, releases and downloads) are steps of `CatalogRuns` on values, not methods; the row ids they take are represented by the rows' unique keys.
- Catalog runs are sequential in one process: a rebuild that overlaps a mutation, and a second worker's cache, are not modelled. Serialization is taken to keep content and timestamp apart; nothing is assumed about collisions of the tag.
- JSON, zstd, gzip, SHA-256, AES-GCM and argon2 are functions with inverse or injectivity laws (`PayloadLanes.Lawful`), and the idempotency key is the hashed text itself.
- Snapshot operations are one transaction each; an object uploaded by a create that then fails, and an object deleted by a purge that then rolls back, are not modelled. A row id exceeds every id in the table and may repeat a deleted one.
- The module documentation says that oversized payloads are refused; the code stores them externally when an object store is configured, and the model follows the code.
- Idempotency covers committed transactions and unexpired records; the race around expiry is not claimed.
- Revocation reads and caches as one step, never reuses account ids, and has one clock. A token is refused from its expiry instant on, as section 4.1.4 of RFC 7519 demands. Personal access tokens are not modelled.
- Publishing on the loop's own thread is one step per target; the loop runs callbacks first-in first-out.
- A login loads the row when it tests the lock and writes it once, when it has checked the password; the second factor, rate limits and unknown e-mail addresses are not modelled.
- A rollback copy fails before its row is written; a failing write ends the request. Timestamps of one account's pushes to one device increase, also over what was saved before; the device's last-seen and update times are not modelled.
- The plugin state file is written durably.
- LIKE is that of section 8.5 of ISO/IEC 9075:1992; how two characters compare is a parameter.

Not modelled at all:

- Scrapers, SSO, webhooks, the object store client, asset hashing and plugin manifests: network clients whose results enter as inputs.
- The admin UI, templates, cookies, settings, migrations, observability, security headers.
- `seed_from_json`, the diff of two snapshots, `generate_plugins` and its grouping, the listing endpoints.
- `_batched_delete`, `_do_retention` and `_resolve_policy`: one loop over a counter, sums over accounts, one lookup.
- Device and account deletion cascades, except SET NULL on parents and the denylist rows of an account; the device ownership check before each backup call.
- Recovery codes and TOTP.
