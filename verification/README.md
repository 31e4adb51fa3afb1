# Verified model of the gos3 object store

This project models the storage core of gos3 in Dafny and proves what it keeps.

* **The metadata store.** Each bucket has a latest map and a versions map, the
  latter keyed by object key, a NUL byte and the version id. bbolt is a map from
  byte strings to records whose cursor visits the keys in byte order
  (`SortedKeys`). `StoreModel` says what each transaction makes of the database,
  `MetaStore` is the store itself as a class, `Coherence` proves what every run
  keeps.
* **Listings.** `Listing`, `Paging` and `ListClient` treat objects and common
  prefixes, `VersionListing`, `VersionLoop`, `VersionPaging`, `VersionFollow`
  and `VersionGroups` versions, `Parts` upload parts. A page is a prefix of a set-level listing, and
  following the markers delivers that listing; where that fails, the exact condition
  is proved.
* **The local backend.** Files and metadata, changed in separate steps. `Paths` is how
  bucket, key and version id become a cleaned path, and which names meet on one path.
  `Backend` is the class, `BackendModel` its specification. `RequestOutcomes` and
  `ObjectLock` say of the maps, files and record fields what requests answer and leave,
  object lock in the second, `RoundTrips` what one operation reads back or undoes of another,
  `Interleaving` a machine in which puts, deletes and completions run step by step
  beside each other and may stop anywhere, `InterleavingRuns` what whole runs of it keep.
* **Multipart uploads.** `Uploads` relates the store and the part files to what
  clients expect, over whole runs with restarts; `PartHandler` is the request that
  uploads a part, `MultipartClient` the client's loop that splits a file, against
  the server that joins the parts and a network that loses requests and answers.
* **Background work and streams.** `Lifecycle` is one page of the expiration pass
  that deletes from the store it is listing, `LifecyclePass` the pass as a whole,
  `PlainPass` its pages in a bucket without version ids,
  `Replication` and `ReplicationProtocol` the event queue and its worker, `Chunked`
  and `ChunkedStreams` the decoder of aws-chunked bodies.
* **Policies.** `Policy` folds many policies into one decision.

Code that changes state is a class or a loop here too; each such method is
proved against a function on values, and the theorems are about those functions.
Clocks, generated ids, request bodies, free disk space, network replies and the
sizes of short reads are parameters. MD5 is a free constructor, so equal digests
mean equal contents. Attributes that no operation inspects are one opaque field.

Common assumptions, each visible as a hypothesis where it is needed: object keys
hold no NUL byte, generated version ids are fresh, hold neither `@` nor a slash and
are not "null", and the times of puts increase.

## Where the code departs from what one would expect

Each is proved as stated, with the condition under which the code does well.

* A page that ends on a common prefix makes that prefix its marker, and the next
  page starts with it again (`Paging.Resume`, for versions `VersionGroups.GroupResume`).
  With pages of one item the listing stalls on such a prefix, so that it ends exactly
  when no listed prefix repeats
  (`ListClient.SingleItemPagesStall`, `ListClient.OneItemPagingEnds`).
* A marker that a client makes up may lie before the prefix. Then a key with the prefix is
  listed exactly if no key without it lies between the marker and it, so that such a page
  may be empty (`ListClient.ListedFromMarker`).
* The jump over a group of versions increments the last byte of the common prefix
  without a carry, so it moves forward exactly if that byte is below 255
  (`VersionListing.JumpAdvances`); at 255 it can come back to where it started
  (`VersionListing.WrappedJumpRepeats`). The loop delivers the page it should exactly if
  no such jump comes before the page is full; otherwise it goes on for ever or ends
  with another page (`VersionLoop.LoopDelivers`).
* The markers of a version with an empty id stand for all records of its key, so the
  next page begins with them again. In a bucket that never had versions that is one
  entry a page, and pages of one entry deliver the first entry for ever
  (`VersionFollow.PlainAdvances`, `VersionFollow.PlainStalls`).
* The store looks for the records of a key by the key and a NUL. It takes another
  key's record for one of them exactly when that key starts with the key and a NUL
  (`Coherence.ForeignRecords`). Deleting the one then takes the other's versions
  (`Coherence.NulKeyBreaksCoherence`), or makes its delete marker the latest version
  of the one (`RoundTrips.NulKeyGainsMarker`).
* A path joins key and id by `@` and is then cleaned lexically
  (internal/storage/local/local.go:64-74), so a client can send other names for it: an
  id with an `@`, such as "r@v" for the file of "k@r" and v, or one with a slash, such
  as "v/", or a key such as "./k". `Paths.AliasedPaths` says for all names when their
  path is also that of another clean key and generated id, and `Paths.GuardedNames` what
  a caller can check first: with a clean key and no slash in the id, exactly the ids
  with an `@` and a generated id behind the last one. Deleting under such names removes
  the file of that other version and leaves its record, on every disk that holds the one
  and not the other, in whichever bucket. The lock is looked up under the names asked
  for, so object lock does not keep the file of a locked version from this
  (`InterleavingRuns.AliasedDeleteDangles`). Under all other names it does, and no delete
  touches another version's file (`InterleavingRuns.LockedVersionsStay`,
  `InterleavingRuns.OnlyAliasesDangle`, `InterleavingRuns.GuardedRequestsMiss`).
* Object lock is checked on the record that a delete names. A delete by id never takes a
  version that is held. One without an id, in a bucket whose versioning is suspended,
  replaces the version "null", held or not, by its marker; and in a bucket without
  versioning it takes all records of the key unless the latest entry is held
  (`ObjectLock.HeldSurvives`, `ObjectLock.DeleteMarks`, `ObjectLock.UnversionedDelete`).
* A read of a version in a missing bucket answers NoSuchKey, not NoSuchBucket
  (`RequestOutcomes.ReadOutcome`). A put that the store refuses leaves no file at its path,
  also where there was one before (`RequestOutcomes.PutOutcome`). Deleting a bucket leaves
  its versions map (`RequestOutcomes.DroppedBucket`).
* Form uploads (internal/handler/post_object.go:117-138) put under the empty id also in a
  versioned bucket, and copies put under the id of their source. Such a put replaces the
  record and the file of that key and id, locked or not; the results on locked versions
  and on files except these (`InterleavingRuns.GivenPutIsARun`,
  `InterleavingRuns.GivenPutReplaces`, `InterleavingRuns.LockedVersionsStay`).
* The directory of an upload is cleaned as well, so that the id "x/" reaches the parts of
  "x" (`Paths.AliasedUploads`). A part sent under it is written over that upload's part,
  refused by the store, and taken away (`Uploads.RefusedPartRemoves`). An id without a
  slash never does (`Paths.SlashFreeUploads`).
* An upload's metadata key is the key of an upload in a bucket named "meta"
  (`Uploads.MetaBucketAliases`), and a colon in an upload id shifts the border between
  key and id (`Uploads.ColonIdAliases`), which reaches a live upload exactly if that
  upload's key holds a colon (`Uploads.ColonIdsReach`). The store's part upload
  ignores the bucket and key of the request.
* Opening the backend empties the directory of part files
  (internal/storage/local/local.go:44-63) but not the records: after a restart a live
  upload still lists its parts and cannot be completed until they are sent again
  (`Uploads.RestartLosesParts`).
* Expiring a record with an empty version id in a versioned bucket adds a delete
  marker (`Lifecycle.EmptyIdGainsMarker`). When the pass removes the record that a full
  page ended with, the next page goes on behind its key (`VersionPaging.MarkerDecides`),
  and every older record of that key outlives the pass, expired or not
  (`LifecyclePass.SkippedStays`). Of the expired records that are never locked these are
  the only ones that do (`LifecyclePass.WhoSurvives`), and each such key costs a full page
  (`LifecyclePass.FewBreaks`). A bucket that never had versions has no such keys, and no
  such record outlives a pass (`LifecyclePass.ApplyExpirationRule`).
* A chunked body that is cut short reads as complete, unless the cut falls within
  the line break after a chunk's data (`ChunkedStreams.DecodesCut`). A header that announces
  less than nothing is an empty chunk (`ChunkedStreams.NegativeChunk`).
* Once all events are worked off, a target has an object whose last change sent one as
  the primary has it exactly if the event of the object that entered the queue last is a
  put, or none did, or the primary has no such object (`ReplicationProtocol.DrainedEqualsPrimary`).
  Deleting one version sends a delete event for its key (internal/handler/object.go:379-400),
  and handlers that race on one key may send their events in the other order; both can
  leave a target without an object the primary has
  (`ReplicationProtocol.VersionDeleteDiverges`, `ReplicationProtocol.RacingHandlersDiverge`).
* Copies, multipart completions, form uploads (internal/handler/post_object.go:142)
  and lifecycle deletes send no event at all. Such a change leaves a drained target
  behind exactly if it changes the content (`ReplicationProtocol.SilentDiverges`), and
  may do so for an object whose put was told (`ReplicationProtocol.SilentAfterReadDiverges`).
* An event that meets a full queue leaves no trace (`ReplicationProtocol.DroppedEventIsLost`).
* The event of a chunked upload carries the length of the framed body
  (internal/handler/object.go:74-131), which no attempt can deliver
  (`ReplicationProtocol.ChunkedPutIsStuck`).
* A file of more than 10000 parts fails at part 10001 and its upload stays open; and
  the completion may have happened although the client sees an error, if the answer
  was lost (`MultipartClient.PutObjectMultipart`).
* A policy statement without a principal never applies, neither its Allow nor its
  Deny, also in a policy attached to a user (`Policy.OnlyPrincipalsCount`).

## Model

A row of a method of `MetaStore`, `Backend` or `Replication` says that the code, with
its loops and updates in place, computes what a function on values does; the
properties are those of that function, in the other rows. `Coherence.NulKeyBreaksCoherence`,
`InterleavingRuns.RestingIsInv`, `InterleavingRuns.GivenPutReplaces`,
`MultipartClient.ChunkTiles`, `Lifecycle.EmptyIdGainsMarker`, `Paths.SlashFreeUploads`,
`VersionFollow.NumberedAdvances` and `ReplicationProtocol.SilentDiverges` are remarks that
follow from definitions.

| member | source | states |
|---|---|---|
| `MetaStore.BboltStore.CreateBucket` | internal/storage/metadata/bbolt.go:107-138 | the transaction, its error cases, and that a failed one changes nothing |
| `MetaStore.BboltStore.DeleteBucket` | internal/storage/metadata/bbolt.go:140-161 | only a bucket with an empty latest map goes; the versions map is not looked at |
| `MetaStore.BboltStore.PutObject` | internal/storage/metadata/bbolt.go:209-232 | the version record always, the latest entry if the record is latest or has no id |
| `MetaStore.BboltStore.GetObject` | internal/storage/metadata/bbolt.go:234-264 | the latest entry without an id, the version record with one, and which error otherwise |
| `MetaStore.BboltStore.DeleteObject` | internal/storage/metadata/bbolt.go:266-316 | without an id every record of the key goes, with one that record goes and the newest remaining one becomes the latest entry |
| `MetaStore.EraseVersions` | internal/storage/metadata/bbolt.go:273-284 | the cursor loop removes exactly the records whose key starts with the object key and a NUL |
| `MetaStore.FindNewest` | internal/storage/metadata/bbolt.go:286-303 | the cursor loop finds the record with the greatest time, the first in byte order of several |
| `Coherence.PutKeepsCoherence` | internal/storage/metadata/bbolt.go:209-232 | recording a newer version keeps latest map and versions map in step |
| `Coherence.DeleteVersionKeepsCoherence` | internal/storage/metadata/bbolt.go:286-314 | so does deleting one version, promotion included |
| `Coherence.RunKeepsInvariant` | internal/storage/metadata/bbolt.go:107-316 | after every legal run a key is in the latest map exactly when it has records, with the record under its own id, and no record of the key is newer |
| `Coherence.DeletableBucketHasNoVersions` | internal/storage/metadata/bbolt.go:140-161 | a bucket that can be deleted has no version records left, in every state a run reaches |
| `Coherence.ForeignRecords` | internal/storage/metadata/bbolt.go:273-303 | the store takes another key's record for one of a key exactly when the bucket holds a record of a key that starts with it and a NUL |
| `Coherence.NulKeyBreaksCoherence` | internal/storage/metadata/bbolt.go:273-284 | in every database and bucket, deleting "a" takes the versions of "a\0b" with it and leaves its latest entry, for all a and b |
| `Listing.ListObjects` | internal/storage/metadata/bbolt.go:318-399 | a page is the head of the keys and groups from the marker on, each key with the id, both flags, time, tag and size recorded under it, and with the next marker exactly when it is full |
| `Listing.GroupIsPrefix` | internal/storage/metadata/bbolt.go:353-360 | keys have the same common prefix exactly when they start with it |
| `Paging.ListingPartitions` | internal/storage/metadata/bbolt.go:353-371 | keys without a delimiter after the prefix are listed themselves, every other key is in exactly one group, a group is one contiguous run, nothing is listed twice |
| `Paging.Resume` | internal/storage/metadata/bbolt.go:332-371 | the page after a marker lists what follows it, with a group marker repeated first if keys of the group follow |
| `ListClient.OnePage` | internal/storage/metadata/bbolt.go:318-399 | one page on: what it delivers again, what it delivers anew, and whether more follows |
| `ListClient.ListAll` | client/list.go:24-88 | following the markers delivers every object once in order, with its recorded fields, and every common prefix, with immediate repeats of a prefix only, in at most one page more than there are items; pages of one item included where no prefix repeats |
| `ListClient.UndelimitedListing` | internal/storage/metadata/bbolt.go:332-351 | without a delimiter the listing is exactly the keys with the prefix, in byte order |
| `ListClient.ListedFromMarker` | internal/storage/metadata/bbolt.go:332-351 | from any marker, exactly the keys with the prefix after it that no key without the prefix separates from it |
| `ListClient.SingleItemPagesStall` | internal/storage/metadata/bbolt.go:344-364 | a page of one item repeats itself exactly when it is a group that keys remain of |
| `ListClient.OneItemPagingEnds` | internal/storage/metadata/bbolt.go:332-371 | pages of one item reach the end exactly when no listed common prefix repeats |
| `VersionListing.ListObjectVersions` | internal/storage/metadata/bbolt.go:401-501 | a page is the head of what a linear scan lists after the markers, wherever no jump from a common prefix that ends in 255 comes before the page is full; each entry has the id, both flags, time, tag and size of a record of its key |
| `VersionListing.CollectRun` | internal/storage/metadata/bbolt.go:458-465 | the inner cursor loop collects the records of one key and stops behind them |
| `VersionListing.ScanIsLinear` | internal/storage/metadata/bbolt.go:438-455 | leaving a group at its end lists the same as skipping its members one by one |
| `VersionListing.JumpAdvances` | internal/storage/metadata/bbolt.go:451-454 | the jump lands behind the group exactly when the prefix's last byte is below 255, and otherwise not ahead of where it started |
| `VersionListing.WrappedJumpRepeats` | internal/storage/metadata/bbolt.go:451-454 | a jump from a prefix that ends in 255 comes back to where it started exactly when no key lies between the wrapped prefix and there |
| `VersionLoop.LoopDelivers` | internal/storage/metadata/bbolt.go:401-501 | for every bucket, query and page size the loop ends with the head of the linear scan exactly if no jump from a common prefix that ends in 255 comes before the page is full |
| `VersionPaging.WholeVersionListing` | internal/storage/metadata/bbolt.go:413-496 | without markers: exactly the records under the prefix, each told field by field, by key and then newest first |
| `VersionFollow.VersionResume` | internal/storage/metadata/bbolt.go:413-496 | the markers of a listed version stand exactly for the versions after it, or with an empty id for all entries from the first of its key on |
| `VersionFollow.FollowMarkers` | internal/storage/metadata/bbolt.go:413-496 | following both markers delivers every entry in order, with repeats only where ids are empty, in at most one page more than there are entries, if every page reaches beyond the one before |
| `VersionFollow.NumberedAdvances` | internal/storage/metadata/bbolt.go:471-496 | which every positive page size does where no id is empty |
| `VersionFollow.PlainAdvances` | internal/storage/metadata/bbolt.go:471-496 | and in a bucket without version ids exactly the pages of two entries or more, or any if nothing is listed |
| `VersionFollow.PlainStalls` | internal/storage/metadata/bbolt.go:471-496 | there pages of one entry come back to the first entry's marker after every number of pages |
| `VersionGroups.FullIsTruncated` | internal/storage/metadata/bbolt.go:438-496 | for every query a page has markers exactly if it is full |
| `VersionGroups.GroupResume` | internal/storage/metadata/bbolt.go:413-455 | the marker of a listed group stands for the group again and all entries after it |
| `VersionGroups.DelimitedResume` | internal/storage/metadata/bbolt.go:413-496 | with a delimiter too, the markers of a listed version with an id stand exactly for the entries after it |
| `VersionPaging.ListedAfterMarkers` | internal/storage/metadata/bbolt.go:413-496 | after any markers, of deleted versions too, only records behind them are listed, in order |
| `VersionPaging.ListedAfterMarkersComplete` | internal/storage/metadata/bbolt.go:413-496 | and no record of a later key is left out |
| `VersionPaging.MarkerDecides` | internal/storage/metadata/bbolt.go:471-480 | of the marked key a page lists exactly the records older than the marked version, and none if that version is gone |
| `Parts.PartOrder` | internal/storage/metadata/bbolt.go:588-590 | byte order of padded part names is numeric order below 100000 |
| `Parts.SixDigitsBreakOrder` | internal/storage/metadata/bbolt.go:588-590 | and not with a sixth digit |
| `Parts.ListObjectParts` | internal/storage/metadata/bbolt.go:595-634 | a page of the parts after the marker; the next marker is non-zero exactly when parts remain |
| `Parts.WholePartListing` | internal/storage/metadata/bbolt.go:595-634 | every part once, by ascending number |
| `Parts.PartsBehind` | internal/storage/metadata/bbolt.go:595-634 | from any marker of at most five digits, a part's number or not, exactly the parts of greater numbers |
| `Parts.FollowPartMarkers` | internal/storage/metadata/bbolt.go:595-634 | following the markers delivers every part once, for every positive page size |
| `Backend.LocalBackend.CreateBucket` | internal/storage/local/local.go:87-98 | the store's bucket and its error |
| `Backend.LocalBackend.DeleteBucket` | internal/storage/local/local.go:100-114 | the record first, then every file below the bucket's cleaned path |
| `Backend.LocalBackend.PutObject` | internal/storage/local/local.go:207-274 | file, then record; a refused record takes the file away; an incomplete body or a full disk changes nothing |
| `Backend.LocalBackend.GetObject` | internal/storage/local/local.go:276-341 | record, file and range, with each error case |
| `Backend.LocalBackend.DeleteObject` | internal/storage/local/local.go:357-409 | a delete marker in a versioned bucket; under an id AccessDenied with nothing changed exactly if that record has a legal hold or a retention date to come; else the record and then whatever file has the cleaned path |
| `Backend.LocalBackend.DeleteObjects` | internal/storage/local/local.go:411-427 | the deletes in order, with exactly the failed ones reported as errors |
| `ObjectLock.DeleteRefused` | internal/storage/local/local.go:379-395 | on every disk a delete under an id is refused, and changes nothing, exactly if a record under that key and id has its legal hold on or a retention date after the delete |
| `ObjectLock.DeleteMarks` | internal/storage/local/local.go:357-377 | without an id, under versioning or its suspension: a marker under a new id or "null", and nothing else |
| `ObjectLock.UnversionedDelete` | internal/storage/local/local.go:379-407 | without an id in any other bucket: refused exactly if the latest entry is held, and otherwise the key's entry and all its records go |
| `ObjectLock.DeleteErases` | internal/storage/local/local.go:396-407 | a delete under an id that is not refused takes that record and the file at its path, and changes no other record but its flag |
| `ObjectLock.HeldSurvives` | internal/storage/local/local.go:357-407 | for every delete of its key: a held version stays exactly if the delete has an id, or its marker has another id, or, without versioning, the latest entry is held |
| `ObjectLock.BulkReports` | internal/storage/local/local.go:411-427 | each entry of a bulk request meets the disk the ones before left, and is reported once, as deleted or with its own error |
| `ObjectLock.BulkKeepsHeld` | internal/storage/local/local.go:411-427 | in a versioned bucket a version that is held all along outlives a bulk request, and every entry that names it is reported as denied |
| `Backend.LocalBackend.CopyObject` | internal/storage/local/local.go:493-515 | a read and a put that keeps the source's version id |
| `Backend.LocalBackend.ListObjectVersions` | internal/storage/local/local.go:429-457 | a page of the store, wherever the store's loop delivers it: the objects are, in order, exactly its entries for records that are no delete markers, the delete markers exactly those for the others, each with its record's fields |
| `Backend.LocalBackend.UploadPart` | internal/storage/local/local.go:521-570 | part file under the cleaned path, then part record; a refused record takes the file away |
| `Backend.LocalBackend.CompleteMultipartUpload` | internal/storage/local/local.go:572-673 | the part loop joins the listed files in request order, then the object is recorded, with the lock, attributes and marker flag its upload was started with, and the upload dropped |
| `Backend.LocalBackend.AbortMultipartUpload` | internal/storage/local/local.go:675-686 | the upload's entries, then its files |
| `Backend.LocalBackend.ListParts` | internal/storage/local/local.go:688-707 | a page of a live upload's parts |
| `Paths.CleaningDepth` | internal/storage/local/local.go:64-74 | cleaning refuses a path exactly if some head of it goes up more often than it has gone down and is deep, and how deep what remains is |
| `Paths.CleaningCancels` | internal/storage/local/local.go:64-74 | anywhere in a path a name followed by ".." changes nothing, nor do "" and "."; other names add themselves |
| `Paths.RefusedPaths` | internal/storage/local/local.go:64-74 | a version's path is refused exactly if key and id climb out of the three levels above it |
| `Paths.PathInjective` | internal/storage/local/local.go:64-74 | cleaned file paths tell buckets, clean keys and generated ids apart |
| `Paths.VersionAtMeans` | internal/storage/local/local.go:64-74 | a cleaned path is the file of at most one bucket, clean key and generated id, those read off it |
| `Paths.AliasedPaths` | internal/storage/local/local.go:396-407 | for all names: their path is also that of another clean key and generated id exactly when what is read off it says so |
| `Paths.GuardedNames` | internal/storage/local/local.go:379-407 | under a clean key and an id without a slash, exactly when the id holds an `@` with a generated id behind the last one |
| `Paths.AliasedUploads` | internal/storage/local/local.go:521-536 | the part files of an upload id are those of another single-name id exactly when its cleaned directory is that one's |
| `Paths.SlashFreeUploads` | internal/storage/local/local.go:521-536 | and never without a slash |
| `RequestOutcomes.NewBucket` | internal/storage/metadata/bbolt.go:107-138 | under which names a bucket can be created, and that exactly one with object lock starts with versioning on |
| `RequestOutcomes.NewBucketDeletes` | internal/storage/local/local.go:357-407 | so that there a delete without an id leaves every version, and without object lock none of the key |
| `RequestOutcomes.DroppedBucket` | internal/storage/metadata/bbolt.go:140-161 | a bucket goes exactly if it exists without latest entries, and its versions map stays |
| `RequestOutcomes.ChangedBucket` | internal/storage/metadata/bbolt.go:163-175 | new settings replace those of that bucket alone |
| `RequestOutcomes.BucketFiles` | internal/storage/local/local.go:100-114 | the files that go with a bucket are those of its own versions, for clean names |
| `RequestOutcomes.PutOutcome` | internal/storage/local/local.go:207-274 | for all arguments: when a put succeeds, which error else, every field of the record, and when it becomes the latest entry |
| `RequestOutcomes.ReadOutcome` | internal/storage/local/local.go:276-305 | for all arguments: exactly when a read answers NoSuchBucket or NoSuchKey, and whose metadata it returns |
| `RequestOutcomes.CompletionOutcome` | internal/storage/local/local.go:572-673 | a missing upload or part changes nothing and is told so; a success keeps what the upload was started with |
| `RoundTrips.PutThenGet` | internal/storage/local/local.go:207-341 | a put reads back whole and by every range, with its digest, size and time and all else it was given; out-of-range requests fail |
| `RoundTrips.LatestIsNewest` | internal/storage/metadata/bbolt.go:266-316 | in a coherent bucket the record a delete would promote is the latest entry |
| `RoundTrips.DeleteMarkerRoundTrip` | internal/storage/local/local.go:357-409 | deleting a key and then the marker restores both maps and all files, up to the latest flag |
| `RoundTrips.NulKeyGainsMarker` | internal/storage/local/local.go:357-409 | on every disk: deleting "a\0b" and then the only version of "a" makes the marker of the one the latest version of the other |
| `InterleavingRuns.RestingIsInv` | internal/storage/local/local.go:207-427 | every bucket at rest whose records match their files is a state such runs may start from |
| `Interleaving.StepKeepsInv` | internal/storage/local/local.go:207-427 | every step of puts, deletes and completions, under every key and id a request may bring, with puts under given ids, requests to other buckets and crashes, keeps the invariant; its part on the file of a version holds while no request met its path under another name |
| `InterleavingRuns.RunKeepsInv` | internal/storage/local/local.go:207-427 | so does every run, and every record of content that was not there at the start has its body remembered, or was put under a given id |
| `InterleavingRuns.HistoryMeans` | internal/storage/local/local.go:357-427 | the names that the invariant speaks of are those of the start and exactly those the run's requests asked for |
| `InterleavingRuns.NothingEverDangles` | internal/storage/local/local.go:245-267 | in every state of every interleaving each record of content made in the run has its file with exactly the content put and the size recorded, unless a request of the run met that path under another name or put under its key and id |
| `InterleavingRuns.LockedVersionsStay` | internal/storage/local/local.go:357-427 | over every run the record of a version with a legal hold, or with a retention date still to come, stays, unless a put was given its key and id; its file does too unless a request met its path under another name |
| `InterleavingRuns.GuardedRequestsMiss` | internal/storage/local/local.go:379-407 | of a version with a clean key and a generated id no request does whose own key is clean and whose id holds neither `@` nor a slash |
| `InterleavingRuns.AliasedDeleteDangles` | internal/storage/local/local.go:379-407 | a delete under other names of a version's path removes that version's file, locked or not, and leaves its record, on every disk with that version and no record under the names asked for, in whichever bucket |
| `InterleavingRuns.OnlyAliasesDangle` | internal/storage/local/local.go:396-407 | under names whose path reads as no other version's a delete leaves the files of all versions of clean keys and generated ids alone |
| `InterleavingRuns.PutIsARun` | internal/storage/local/local.go:207-274 | the backend's put is a run of the step machine |
| `InterleavingRuns.GivenPutIsARun` | internal/handler/post_object.go:117-138 | so is its put under an id that the request brings along, as form uploads and copies make it |
| `InterleavingRuns.GivenPutReplaces` | internal/storage/local/local.go:207-274 | on every disk such a put leaves the new content and lock of the version under its key and id, whether the old one was locked or not, and the records of the other versions |
| `InterleavingRuns.DeleteIsARun` | internal/storage/local/local.go:357-409 | so is its delete, under every id not in flight and in each of its outcomes |
| `InterleavingRuns.CompleteIsARun` | internal/storage/local/local.go:572-673 | so is its completion: accepted, refused by the store, or stopped by a missing upload or part |
| `LifecyclePass.ApplyExpirationRule` | internal/server/lifecycle.go:68-116 | the pass ends, removes only expired records under the prefix that are unlocked when removed, and keeps the bucket coherent; with version ids it is a trace of pages the changing store lists one after another, without any it leaves no expired record that was never locked |
| `LifecyclePass.PassCovers` | internal/server/lifecycle.go:68-116 | a whole pass leaves no expired record that was never locked, but of the keys of its breaks |
| `LifecyclePass.WhoSurvives` | internal/server/lifecycle.go:68-116 | an expired record that is never locked survives the pass exactly if some full page lost its last record, and that was a newer one of the same key |
| `LifecyclePass.BreaksAre` | internal/server/lifecycle.go:79-115 | the breaks are exactly the keys of full pages whose last record the pass removed |
| `LifecyclePass.FewBreaks` | internal/server/lifecycle.go:73-115 | ten thousand times their number is at most the number of records under the prefix at the start |
| `LifecyclePass.LostWhenExpired` | internal/server/lifecycle.go:85-109 | the last record of a full page is removed if it is expired and never locked, and only if it is expired and unlocked at some moment |
| `LifecyclePass.SkippedStays` | internal/server/lifecycle.go:111-115 | for every bucket: at a break each record of the key older than the page's last is still there after the pass |
| `Lifecycle.ExpireEntries` | internal/server/lifecycle.go:85-109 | the loop over one list of a page deals with every entry and removes nothing else |
| `Lifecycle.PageDealsWith` | internal/server/lifecycle.go:79-115 | after a page, all records up to its last entry are dealt with although the store shrank between pages |
| `Lifecycle.AheadShrinks` | internal/server/lifecycle.go:79-115 | each page leaves strictly fewer records ahead, which ends the pass |
| `Lifecycle.EmptyIdGainsMarker` | internal/server/lifecycle.go:85-97 | expiring an empty version id in a versioned bucket adds a record |
| `Uploads.UploadKeyInjective` | internal/storage/metadata/bbolt.go:521-534 | upload keys name bucket, key and id if buckets and ids hold no colon |
| `Uploads.MetaKeyAliases` | internal/storage/metadata/bbolt.go:521-534 | an upload's key is another upload's metadata key exactly in a bucket named "meta" |
| `Uploads.PartNameInjective` | internal/storage/metadata/bbolt.go:588-590 | no two part numbers share a name |
| `Uploads.StepHolds` | internal/storage/local/local.go:517-707 | a request succeeds exactly when its client may expect it to, and the disk then holds what the client expects |
| `Uploads.RunHolds` | internal/storage/local/local.go:517-707 | over every run, restarts included: records of exactly the parts of live uploads, and files of those sent since the last restart, none else below the directories of uploads |
| `Uploads.RefusedPartRemoves` | internal/storage/local/local.go:527-565 | a part sent under an id whose directory is a live upload's is refused, and removes that upload's part file |
| `Uploads.ObjectStepsAreElsewhere` | internal/storage/local/local.go:87-427 | the operations on objects and buckets leave uploads and part files alone, a delete if its cleaned path is no part file |
| `Uploads.PartsAreLastUploads` | internal/storage/local/local.go:521-570 | the parts of a live upload are what was last uploaded successfully in the run |
| `Uploads.PartsListed` | internal/storage/local/local.go:688-707 | its part listing has each part with the number, digest, length and time of its last upload, by ascending number |
| `Uploads.AssembleIsJoined` | internal/storage/local/local.go:595-616 | the part loop succeeds exactly when all listed parts were uploaded since the last restart, and joins their contents in request order |
| `Uploads.CompletedObject` | internal/storage/local/local.go:572-673 | the completed object reads back as the joined contents, with the lock, attributes and marker flag its upload was started with, the request's tags, the sum of sizes, and the id that the bucket's versioning asks for; no other file or version changes |
| `Uploads.CompletedKeepsMeta` | internal/storage/local/local.go:572-673 | so it does over every run from the start of an upload to its completion |
| `Uploads.LockedUploadsStay` | internal/storage/local/local.go:379-395 | and an upload that was started with a lock becomes a version whose delete is refused while it lasts |
| `Uploads.ClosedForGood` | internal/storage/local/local.go:572-707 | after a complete or abort no later part upload, complete, abort or part listing of that id succeeds, and each is told that there is no such upload |
| `Uploads.RestartLosesParts` | internal/storage/local/local.go:44-63 | after a restart a live upload lists its parts as before, and every completion that names a part fails and changes nothing |
| `Uploads.MetaBucketAliases` | internal/storage/metadata/bbolt.go:559-575 | through a bucket named "meta" every upload can be aborted twice |
| `Uploads.ColonIdAliases` | internal/storage/metadata/bbolt.go:559-593 | through an id with a colon an upload is aborted and still takes parts |
| `Uploads.ColonIdsReach` | internal/storage/metadata/bbolt.go:521-575 | a request with a colon in its id can reach an entry of a bucket exactly when some live upload there has a colon in its key |
| `Uploads.OwnRecordReadsEmpty` | internal/storage/metadata/bbolt.go:521-534 | an upload in the bucket "meta" reads as the metadata of another one, with no field of any |
| `PartHandler.HandleUploadPart` | internal/handler/multipart.go:86-124 | a part number outside 1 to 10000, a missing or negative length and one above the limit are refused before anything is stored; otherwise the bytes of the body, decoded if chunked, are stored, or nothing if reading fails |
| `MultipartClient.ChunkTiles` | client/multipart.go:90-101 | the parts tile the file, all but the last have 5 MiB, the last is not empty |
| `MultipartClient.SendPart` | client/multipart.go:93-130 | one part over a network that may lose the request or the answer: success means it is stored, and no object changes in any case |
| `MultipartClient.SentJoins` | client/multipart.go:93-130 | joining parts 1 to n in order gives the file back |
| `MultipartClient.PutObjectMultipart` | client/multipart.go:36-157 | with no failure on the way, the upload succeeds exactly up to 10000 times 5 MiB with a limit that admits a part and names the store can record; on success the object is the file; on an error no object changed, or only the answer to the completion was lost, or the names cannot be recorded |
| `Chunked.AWSChunkedReader.Read` | internal/storage/local/chunk.go:27-95 | one read delivers the next bytes of a chunk's data, at most as many as asked for, or ends as the position in the stream says, on every input |
| `Chunked.AWSChunkedReader.ReadChunk` | internal/storage/local/chunk.go:36-48 | a limited read takes no byte beyond its chunk |
| `ChunkedStreams.TotalTakes` | internal/storage/local/chunk.go:36-48 | taking fewer bytes than there are changes nothing of what follows |
| `ChunkedStreams.CopyAll` | internal/storage/local/chunk.go:27-95 | reading to the end with any positive sizes and any short reads delivers all that the stream holds, and ends as the stream ends |
| `ChunkedStreams.DecodesEncoded` | internal/storage/local/chunk.go:27-95 | decoding undoes encoding, for every split into chunks and all headers that fit the buffer |
| `ChunkedStreams.SignedHeader` | internal/storage/local/chunk.go:60-90 | size in hexadecimal, extension and carriage return make such a header |
| `ChunkedStreams.AnyHeader` | internal/storage/local/chunk.go:60-90 | blanks, hexadecimal digits of either case and whatever else is on the line announce the number the digits write |
| `ChunkedStreams.HexIsScanned` | internal/storage/local/chunk.go:78-82 | how a size is read, for all blanks, signs and digits, up to 64 bits |
| `ChunkedStreams.NoHeader` | internal/storage/local/chunk.go:60-90 | a line that starts with no number is refused as invalid |
| `ChunkedStreams.NoLineEnd` | internal/storage/local/chunk.go:60-76 | a line of 4096 bytes or more is refused as overfull, and data that ends within one ends the stream |
| `ChunkedStreams.NegativeChunk` | internal/storage/local/chunk.go:36-58 | a header with a negative number is an empty chunk and its line break |
| `ChunkedStreams.DecodesCut` | internal/storage/local/chunk.go:50-63 | a cut stream delivers exactly the data that arrived; only a cut within a line break is told from the end |
| `ChunkedStreams.FramingIsLonger` | internal/storage/local/chunk.go:66-94 | a stream is longer than the payload it carries |
| `ChunkedStreams.CutDeliversPrefix` | internal/storage/local/chunk.go:27-95 | for every truncation the bytes delivered are a prefix of the payload |
| `Replication.Service.Enqueue` | internal/replication/service.go:68-78 | events queue in order, a full queue drops |
| `Replication.Target.ReplicateToTarget` | internal/replication/service.go:132-183 | for all replies: a bucket rejected but for being there ends the attempt with nothing sent; otherwise a put succeeds exactly if content of the announced size arrives, and is then what the target holds; a delete if it works or the object is answered to be gone; each other error, and what it may leave |
| `Replication.AttemptMeans` | internal/replication/service.go:132-183 | the same of the functions that the retry loop and the protocol are proved against |
| `Replication.Target.ReplicateWithRetry` | internal/replication/service.go:111-130 | up to three attempts until one delivers, waits of 1, 2 and 4 seconds after failures, the last included |
| `Replication.ProcessEvent` | internal/replication/service.go:102-109 | every target goes through its own attempts, whatever became of the targets before |
| `Replication.RetryTouchesOne` | internal/replication/service.go:111-183 | attempts leave the event's object as the first that delivers asks, if the answer NoSuchKey is true, and no other object changes |
| `ReplicationProtocol.StepKeeps` | internal/replication/service.go:68-183 | every step of handlers, queue and worker, handlers that race included, keeps agreement with what was last told, or outstanding work |
| `ReplicationProtocol.AgreementOrWork` | internal/replication/service.go:68-183 | in every reachable state each target has an object as the event last enqueued of it asks, or an event of it is pending, queued or in work, or its last change sent none |
| `ReplicationProtocol.ToldMeans` | internal/replication/service.go:68-78 | what counts as last told is the kind of the object's event that the run enqueued last |
| `ReplicationProtocol.DrainedEqualsPrimary` | internal/replication/service.go:68-183 | once drained, however handlers raced, a target has an object whose last change sent an event as the primary has it exactly when its event enqueued last is a put, or none was enqueued, or the primary has no such object |
| `ReplicationProtocol.VersionDeleteDiverges` | internal/handler/object.go:379-402 | an instance: deleting one version makes a target lose the object |
| `ReplicationProtocol.RacingHandlersDiverge` | internal/handler/object.go:109-132 | an instance: a put sent before the delete it followed makes a target lose the object |
| `ReplicationProtocol.DroppedEventIsLost` | internal/replication/service.go:68-78 | an event that meets a full queue changes nothing but the primary it was sent for |
| `ReplicationProtocol.SilentDiverges` | internal/handler/post_object.go:142-146 | a change without event leaves a drained target equal exactly if it changed nothing |
| `ReplicationProtocol.SilentAfterReadDiverges` | internal/handler/post_object.go:142-146 | a put that is told, read by the worker and then changed silently ends in a drained target with the older content |
| `ReplicationProtocol.ChunkedPutIsStuck` | internal/handler/object.go:74-131 | no attempt delivers the event of a chunked upload, whose announced size is that of the framed body |
| `ReplicationProtocol.RetryIsARun` | internal/replication/service.go:111-130 | the retry loop, left alone, is a run of the protocol with the same result on the target |
| `ReplicationProtocol.ProcessEventIsARun` | internal/replication/service.go:90-109 | so is the worker's handling of one event, on every target |
| `Policy.MatchWildcard` | internal/auth/policy.go:126-134 | a pattern matches itself, and with a star at its end every string that starts with the rest |
| `Policy.MatchListOrString` | internal/auth/policy.go:107-124 | a field matches if it is a matching pattern or a list holding one |
| `Policy.MatchPrincipal` | internal/auth/policy.go:72-105 | exactly a star, a string that ends in a slash and the name or access key of the user, and an object whose "AWS" field matches the user's ARN, the key's ARN or a star name a user |
| `Policy.EvaluatePolicyStatements` | internal/auth/engine.go:85-119 | whether some statement that names the user and matches grants, and whether some such forbids |
| `Policy.EvaluatePolicy` | internal/auth/policy.go:33-70 | granted by one statement that names the user and matches, and forbidden by none |
| `Policy.IsAllowed` | internal/auth/engine.go:23-81 | granted exactly if some statement of a policy that exists and is attached, or of the bucket's, names the user, matches and allows, and none such denies; never to a user whom none names; an error exactly when a store fails; root always |
| `Policy.SamePoliciesSameDecision` | internal/auth/engine.go:32-52 | order and repetition of attached policies do not matter |
| `Policy.AddingDeny` | internal/auth/engine.go:74-80 | a Deny turns the decision exactly where it applies, and never into a grant |
| `Policy.AddingAllow` | internal/auth/engine.go:74-80 | an Allow grants exactly where it applies and nothing forbids, and never refuses |
| `Policy.OnlyPrincipalsCount` | internal/auth/policy.go:72-75 | every decision is that of the statements that name a principal |

## Left out

- ListObjectVersions: requires that no jump from a common prefix ending in the byte 255 comes before the page is full; `LoopDelivers` shows that otherwise the code does not deliver the page, which may mean that it never ends.
- ListAll: requires of pages of one item that no common prefix repeats, because otherwise the code does not end; `OneItemPagingEnds` has both directions. The client's silent return on a failed request is not modelled.
- NewestFirst: fixes the order of records with equal times, which the source's unstable sort leaves open; the paging theorems assume distinct times where it matters.
- ApplyExpirationRule: covers buckets with version ids everywhere or nowhere, and assumes that nothing else changes the bucket during the pass.
- NothingEverDangles: covers one versioning-Enabled bucket that stays; other buckets change files at arbitrary paths and everything else at will, but are not deleted as directories. Requests ask for no id that is still in flight.
- StepHolds: assumes the names of `Uploads.Legal`; `MetaBucketAliases`, `ColonIdAliases` and `RefusedPartRemoves` show what happens under others.
- FollowMarkers: requires that pages advance, of which the exact condition is proved for buckets with ids everywhere and nowhere, not for mixed ones.
- PutObjectMultipart: leaves out the limits on the request that starts the upload and on the body of the completion request, which 10000 parts do not reach.
- ReadSlice: takes 4096 bytes without a line feed as a full buffer also where the data ends right there.
- ScanHex: skips ASCII white space only.
- DrainedEqualsPrimary: says nothing of an object whose last change was silent, where both outcomes occur; assumes that the queue drops no event and that one is given up only if another of its object follows or the object changed silently; covers one worker, since with several the code does not keep the order of events.
- Composite ETags: the client sends quoted ETags, which contribute nothing to the multipart hash; content and size are claimed instead, and the tag only remembers what was hashed.
- Uniqueness of the IsLatest flag: older versions keep it; facts about the latest map are claimed instead.
- Version ids "" and "null", which share one file: the theorems about files are about generated ids, and count requests under these two as any others.
- Paths: directories where files are needed and the reverse, path lengths, object files placed inside the temporary directory, which are not swept with it, and the database file beside it. A path that climbs out of the data directory counts as refused also where it returns by the directory's own name.
- bbolt's limits on key and value sizes, its own errors, JSON, and cursors over a changing bucket: loops work on the map as it was when the transaction began.
- ListMultipartUploads and the rule that aborts incomplete uploads: the listing ignores its markers.
- Listing version 2, HeadObject, policies, CORS, website, notification and domain settings: wrappers around members shown here or single entries.
- HTTP handlers, routing, XML, signatures, sessions, the web UI, rate limits, webhooks, backup and metrics: plumbing over libraries.
