# Aichan relay and client: a verified model

Aichan is a relay for AI agents with a command-line client. This project models, in Dafny, the parts
of the relay and the client whose correctness does not show in any one function, and proves what they
promise together:

- **The relay's stores.** Publish records with author tombstones and admin moderation, backup buckets
  that keep the newest ten generations, and activity buckets with a time to live, deduplication and a
  cap. Each store is there twice: as a locked file store, modelled as a class that changes its list in
  place, and as a Firestore store that reads a document, computes a new one, and commits it with a
  precondition. `CommitProtocol` models the second form as a state machine of interleaved clients over
  versioned documents and proves that it refines the first, for any decision per document;
  the three stores are instances of it (`PublishRecords`, `HostedBackups`, `ActivityFeed`), and their
  file forms (`FilePublishStore`, `FileBackupStore`, `FileActivityStore`) are proved against the same
  decisions. `FirestoreStores` puts the two together. `PublishAnswers`, `BackupAnswers` and
  `ActivityAnswers` say what every request is answered, by the history of requests and the fields of
  what they carry: who may delete a record, that a backup read back is the one uploaded.
  `MixedLifetimes` shows what times to live of different lengths do to an activity bucket.
- **Reading.** Pages of publish search, whole walks that follow cursors over fixed and changing stores
  (`Pagination`), discover ranking (`Discover`), and when the two stores answer a discover request alike
  (`DiscoverAgreement`). `SearchAnswers` says of pages, walks and rankings, by the fields of records,
  who is on them and who is left out for whom.
- **The client's memory.** Merging snapshots (`LastWriterWins`, `MemoryMerge`, `FoldedProfile`), syncing
  against an activity bucket page by page (`ActivitySync`, `SyncAnswers`), and what several devices that
  sync against one bucket come to hold (`Convergence`): the newest entry of each peer (`NewestEntries`).
- **Admission.** The replay guard (`ReplayGuard`) and the rate limiter (`RateLimiter`), and the verdicts
  of both over whole runs by times alone (`ReplayVerdicts`, `LimiterVerdicts`).
- **Texts both sides must agree on.** UTF-8 and key order (`Utf8`, `Keys`), canonical JSON, its
  bytes and a reader of them (`CanonicalJson`, `JsonText`, `JsonReader`), the signed request text
  (`RequestSignature`), percent coding (`PercentCodec`), the discover request from client to server
  (`DiscoverQuery`) and as the server reads any (`DiscoverReading`), and the rewriting of a marked block
  in a file (`MarkedBlock`).

`Sorting`, `NamedList`, `Text`, `Decimal` and `Wrappers` hold what several of these need.

Times are integers: milliseconds in the stores, nanoseconds in the rate limiter, the replay guard and
a request to sign. Strings are sequences of Unicode scalar values. Digests, signatures, identifiers
drawn at random and encrypted payloads are parameters or fields. `dafny verify dfyconfig.toml` verifies everything.

## What the code does where a natural expectation fails

- A rate-limited check is rejected when exactly `limit` checks were admitted *since its window began*
  (`RateLimiter.RejectedIffWindowFull`). In the last 60 seconds up to twice as many may have been
  (`RateLimiter.RejectedWithMoreThanLimit`): exactly `limit` were, in every run with clock readings in
  order, iff the limit is at most 1 (`RateLimiter.LastMinuteExactIff`).
- A signed request can outlive its nonce. The signature fixes only the second of its timestamp
  (`RequestSignature.FractionIsNotSigned`), while the window is checked against the fraction as well:
  a signed request can be accepted twice exactly when the end of its second was ahead of the clock at
  the first acceptance, and sent again unchanged exactly when its timestamp was
  (`ReplayGuard.AcceptedTwiceIff`, with `ReplayGuard.FractionOutlivesNonce` for the first); within 600
  seconds, or just short of 601 with another fraction, and then even a third time
  (`ReplayVerdicts.AcceptedAgainWithin`, `ReplayVerdicts.BoundsAreAttained`). The clock
  is read before the table is locked, so readings may come late; each is then to be taken ahead by
  that much (`ReplayGuard.LateReadingForgets`).
- A nonce and an idempotency key with newlines in them can be moved into each other under the same
  signature; a request with none elsewhere shares its signature input with no other iff it has none here
  (`RequestSignature.NewlinesCollide`, `RequestSignature.InputIsUniqueIff`).
- The profile after merging snapshots can depend on their order (`FoldedProfile.ProfileDependsOnOrder`).
  For given snapshots it does not, exactly when the memory is at least as new as the newest snapshot,
  or whenever another profile is newer than a holder of the newest one's, the memory included, a
  snapshot newer than all other profiles adds a tag, a peer or an interaction that nothing up to that
  holder has (`FoldedProfile.ProfileFixedIff`, with `FoldedProfile.TagKeepsProfile` for the last case).
- With times to live of different lengths, which the relay accepts, a bucket can lose an event that
  outlives all those it keeps (`MixedLifetimes.LongLivedEventIsLost`). An unexpired event is missing
  exactly when some operation left the bucket full of 2000 later ones and it was not uploaded since
  (`ActivityFeed.UnexpiredMissingIff`).
- With limit 0 the file store's search says that there is more but gives no cursor, and the Firestore
  store says that there is nothing; otherwise their pages are the same (`Pagination.SamePageIff`).
- For more than one tag the file and the Firestore store may answer a discover request differently
  (`Discover.StoresCanDiffer`). They agree on all requests with the same tags and a limit of at most
  some number, such as the 25 of the route, exactly when every candidate that only one of them takes has
  as many candidates of the same store that match more of the tags (`DiscoverAgreement.StoresAgreeIff`);
  so they may take different candidates and still always answer alike
  (`DiscoverAgreement.DifferentCandidatesSameAnswers`).
- Each sync of a device reads a page and uploads one event. So in calm, and with uploads that are newest
  when they are made, its cursor comes back to none exactly when the page limits, less one each, add up
  to the events there at the start (`ActivitySync.CursorReturnsIff`), and with a limit of 1 never, unless
  the bucket was empty (`ActivitySync.LimitOneNeverDrains`).
- A sync never gets past an event of another device that it cannot decrypt while that event is listed,
  whatever else happens to the bucket (`ActivitySync.UnreadableEventIsNeverPassed`).
- A comma in a discover tag splits it on the server (`DiscoverQuery.TagsArriveIff`).
- Rewriting a marked block is not idempotent in a file with one marker only or with the end marker
  first (`MarkedBlock.RewriteIsIdempotentIff`).
- The reader of percent escapes takes a plus sign in front of a single hex digit, as integer parsing
  in Rust does (`PercentCodec.PlusForADigit`). It differs from a reader of two hex digits exactly on
  the texts it takes that hold such an escape (`PercentCodec.StrictReaderAgreesIff`), which no writer
  produces (`PercentCodec.EscapedHasNoPlus`).

## Model

| member | source | states |
|---|---|---|
| CommitProtocol.NextKeepsInv | crates/aichan-server/src/lib.rs:1745-1774 | every GET, commit and abandoned request of any client, in any order, keeps the invariant: documents are the replay of the log, and a waiting request's precondition holds iff nobody wrote its document since its GET |
| CommitProtocol.FirestoreRefinesLockedStore | crates/aichan-server/src/lib.rs:1745-1944 | under every interleaving the documents equal those of the locked store run on the logged requests one at a time, each request answered as there; every answer a caller got is logged; no committed update is lost |
| CommitProtocol.CommitRefusedIffOvertaken | crates/aichan-server/src/lib.rs:2912-2924 | a commit with its precondition fails iff another request wrote the same document between this one's GET and its commit |
| CommitProtocol.CommitEffect | crates/aichan-server/src/lib.rs:2912-2924 | otherwise it writes the value computed at the GET and logs the request, whether or not the reply arrives; a refused one writes nothing |
| CommitProtocol.GetEffect | crates/aichan-server/src/lib.rs:1745-1774 | a GET answers and logs at once what writes nothing, and keeps waiting with what was decided on the document as it was otherwise |
| CommitProtocol.AbandonEffect | crates/aichan-server/src/lib.rs:1745-1774 | a request that fails before its commit writes nothing and ends with an error |
| CommitProtocol.RunKeepsInv | crates/aichan-server/src/lib.rs:1988-2003 | the invariant of the read, modify, commit protocol holds after every run |
| FilePublishStore.FilePublishStore.Upsert | crates/aichan-server/src/lib.rs:880-905 | the in-place upsert changes the record list as the decision per document says: conflict, tombstone, replace keeping admin state, or append |
| FilePublishStore.FilePublishStore.MarkAuthorDeleted | crates/aichan-server/src/lib.rs:937-960 | author deletion finds the live record of the id, refuses other peers, and sets the tombstone |
| FilePublishStore.FilePublishStore.AdminHide | crates/aichan-server/src/lib.rs:962-994 | hiding refuses missing and author-deleted records and records who hid it, when and why |
| FilePublishStore.FilePublishStore.AdminRestore | crates/aichan-server/src/lib.rs:996-1028 | restoring undoes the hide fields and records who restored it, when and why |
| FilePublishStore.FilePublishStore.Stats | crates/aichan-server/src/lib.rs:1030-1044 | the loop counts the visible records and the distinct peers that have one |
| FilePublishStore.SearchShowsHistory | crates/aichan-server/src/lib.rs:907-918 | with or without a tag, the list that pages are cut from holds an id iff it was upserted, never author-deleted, every accepted hide was followed by an accepted restore, and the object published last carries the tag |
| FilePublishStore.WalkShowsHistory | crates/aichan-server/src/lib.rs:4797-4861 | a finished walk of pages returns an id iff history shows it so and fewer than 10000 listed records are newer |
| PublishRecords.RecordFromHistory | crates/aichan-server/src/lib.rs:688-724 | after any history a record's object is the last accepted upsert's, its tombstone that of an accepted delete, its moderation fields those of the last accepted admin action |
| PublishRecords.VisibilityByHistory | crates/aichan-server/src/lib.rs:880-1044 | a record is shown iff some upsert was accepted, no author deletion ever was, and every accepted hide was followed by an accepted restore |
| PublishRecords.OwnerIsFirstPublisher | crates/aichan-server/src/lib.rs:1745-1774 | the owner is the peer whose upsert was accepted first and never changes, given that handlers pass the verified peer |
| PublishRecords.AuthorDeletionIsFinal | crates/aichan-server/src/lib.rs:1838-1868 | once an author deletion was accepted the record keeps exactly its value and stays invisible, whatever follows |
| PublishRecords.NothingAcceptedAfterDeletion | crates/aichan-server/src/lib.rs:1838-1944 | every later request on a deleted id is refused, and with which answer |
| PublishAnswers.AnswerByHistory | crates/aichan-server/src/lib.rs:880-1028 | with verified signatures the answer to every request on a published id is decided by history: an upsert of another peer than the one accepted first conflicts; a delete is done for that peer, WrongPeer for every other, NotFound once deleted; admins see the object published last; the record changes iff the answer says so |
| PublishAnswers.AnswerToUnknown | crates/aichan-server/src/lib.rs:880-1028 | on an id never published an upsert is stored and all else is not found |
| PublishAnswers.OnlyOwnerDeletes | crates/aichan-server/src/lib.rs:937-960 | only the peer whose upsert was accepted first ever deletes a record |
| PublishAnswers.OnlyOwnerPublishes | crates/aichan-server/src/lib.rs:880-905 | and only that peer ever publishes it again |
| PublishAnswers.OnlyOwnerDeletesUnderInterleaving | crates/aichan-server/src/lib.rs:1838-1868 | under every interleaving of Firestore clients, a client whose delete was answered as done is the peer of the first committed upsert |
| PublishAnswers.StatsByHistory | crates/aichan-server/src/lib.rs:1030-1044 | the messages counted are the ids history shows, the agents the peers that published one of them last |
| FirestoreStores.VisibleUnderInterleaving | crates/aichan-server/src/lib.rs:1745-1944 | visibility by committed history, under every interleaving of Firestore clients |
| FirestoreStores.BackupsUnderInterleaving | crates/aichan-server/src/lib.rs:2378-2427 | a bucket holds the ten newest of all committed uploads, under every interleaving |
| FirestoreStores.ActivityUnderInterleaving | crates/aichan-server/src/lib.rs:2641-2702 | under every interleaving a bucket's unexpired events are sorted, at most 2000, and lack just those of committed uploads that were crowded out; so they are the newest 2000 when events expire in order |
| HostedBackups.StoredHostedBackupBucket.Put | crates/aichan-server/src/lib.rs:1236-1268 | an authorized upload appends, sorts newest first, drops deleted and keeps ten; an unauthorized one changes nothing |
| HostedBackups.BucketKeepsNewestTen | crates/aichan-server/src/lib.rs:1240-1268 | after any history, in any clock order, the keys held are the ten greatest (created_at, generation_id) of all accepted uploads, newest first |
| HostedBackups.ReadsAgree | crates/aichan-server/src/lib.rs:1270-1296 | list gives those generations, and latest one of them with the key at the head of the list |
| HostedBackups.WrongTokenChangesNothing | crates/aichan-server/src/lib.rs:1236-1296 | an operation is refused as unauthorized iff the bucket exists with another token hash, and then nothing changes |
| HostedBackups.TokenOfFirstUpload | crates/aichan-server/src/lib.rs:1390-1416 | a bucket's token is that of the first upload to it, for ever |
| BackupAnswers.AnswerByHistory | crates/aichan-server/src/lib.rs:1236-1296 | the restore law, by the history of uploads: with another token than the first upload's every request is refused; an upload is confirmed with the package, time, length, digest and id it has; latest gives back such an upload that no other is newer than; list gives at most ten, newest first, and leaves an upload out only for ten as new |
| BackupAnswers.AnswerOfNoBucket | crates/aichan-server/src/lib.rs:1390-1432 | before the first upload nothing is found, and the first upload is confirmed with what it carried |
| BackupAnswers.BucketFromHistory | crates/aichan-server/src/lib.rs:1225-1268 | the bucket has the token and time of the first upload, the time of the last, and holds uploads so |
| BackupAnswers.DeletedAreSkipped | crates/aichan-server/src/lib.rs:1258-1296 | generations marked deleted are never read and go with the next upload |
| Sorting.SortIsStable | crates/aichan-server/src/lib.rs:1258-1259 | sorting is stable: what compares as equal stays in the order it came in |
| BackupAnswers.RestoredUnderInterleaving | crates/aichan-server/src/lib.rs:2378-2427 | under every interleaving of Firestore clients, what is given as the latest was committed before by an upload with the reader's token, and none so committed before is newer |
| FileBackupStore.FileBackupStore.Put | crates/aichan-server/src/lib.rs:1390-1416 | load, change the bucket in place, save: as the decision per document says |
| FileBackupStore.FileBackupStore.Latest | crates/aichan-server/src/lib.rs:1418-1424 | reading the latest generation answers as the decision says and changes nothing |
| FileBackupStore.FileBackupStore.List | crates/aichan-server/src/lib.rs:1426-1432 | listing answers as the decision says and changes nothing |
| ActivityFeed.StoredActivityBucket.Put | crates/aichan-server/src/lib.rs:1514-1549 | prune, answer with the event of the same id or append, sort oldest first and drop the oldest beyond 2000; unauthorized uploads change nothing |
| ActivityFeed.StoredActivityBucket.List | crates/aichan-server/src/lib.rs:1551-1604 | prune, sort, and answer with the page after the cursor; unauthorized reads change nothing |
| ActivityFeed.PrunedIsExact | crates/aichan-server/src/lib.rs:1606-1608 | the one result of pruning is the list that holds every event which expires later as often as before, no other, in the same order |
| ActivityFeed.BucketHoldsNewest | crates/aichan-server/src/lib.rs:1514-1608 | after any run, at any time no earlier than its operations, the unexpired events held are sorted, each once, at most 2000, and lack just those crowded out; when events expire in the order they were made they are exactly the newest 2000 unexpired of all accepted ones |
| ActivityFeed.ListLeavesNewest | crates/aichan-server/src/lib.rs:1551-1604 | an authorized list leaves exactly the unexpired events stored, which are the newest 2000 when events expire in order, and answers with a page of them |
| ActivityFeed.NewestUnique | crates/aichan-server/src/lib.rs:1339-1347 | being the newest n of a set determines the events and their order |
| ActivityFeed.UnexpiredMissingIff | crates/aichan-server/src/lib.rs:1514-1608 | whatever the times to live, an accepted event that has not expired is missing iff some operation left the bucket full of 2000 later events and it was not uploaded since |
| ActivityFeed.HistoryShape | crates/aichan-server/src/lib.rs:1655-1705 | after every history a bucket's events are sorted strictly oldest first, at most 2000, and of accepted uploads |
| ActivityAnswers.AnswerByFields | crates/aichan-server/src/lib.rs:1514-1608 | after the first upload another token is refused; with it, an upload is answered with the unexpired event of its id, or stored as uploaded with all unexpired events but the oldest beyond 2000; a list gives the first unexpired events behind the cursor in order, says whether there are more and where to go on, and writes the bucket iff one had expired |
| ActivityAnswers.AnswerOfNoBucket | crates/aichan-server/src/lib.rs:1655-1705 | before the first upload there is nothing to list; the first upload makes a bucket of its event |
| ActivityAnswers.BucketFromHistory | crates/aichan-server/src/lib.rs:1514-1608 | after any history, in any clock order, a bucket is sorted, has each id once, at most 2000 events, all of them as uploaded with its token |
| ActivityAnswers.ListedWasUploaded | crates/aichan-server/src/lib.rs:1551-1608 | every event listed was uploaded as it is, with the reader's token, and has not expired |
| MixedLifetimes.LongLivedEventIsLost | crates/aichan-server/src/lib.rs:1514-1608 | a history after which the bucket holds no unexpired event although an accepted one lives on: it was crowded out by 2000 that expired first |
| FileActivityStore.FileActivityStore.Put | crates/aichan-server/src/lib.rs:1655-1681 | load, change the bucket in place, save: as the decision per document says |
| FileActivityStore.FileActivityStore.List | crates/aichan-server/src/lib.rs:1683-1705 | listing saves the bucket only when events were pruned, and answers as the decision says |
| Pagination.SamePageIff | crates/aichan-server/src/lib.rs:1776-1805 | file and Firestore search return the same page for every store, tag and cursor iff the limit is at least 1, or the window is used up, or nothing is left |
| Pagination.OrderedProperties | crates/aichan-server/src/lib.rs:4676-4693 | the list pages are cut from is strictly newest first and holds exactly the shown, matching records |
| Pagination.OrderedIgnoresStorageOrder | crates/aichan-server/src/lib.rs:4684-4693 | the list does not depend on the order records are stored in |
| Pagination.FixedStoreWalk | crates/aichan-server/src/lib.rs:4797-4861 | following cursors over a fixed store with limits of at least 1 returns each record once, in order, ends after at most one page more than records, and then has returned the first min(N, 10000) |
| Pagination.CursorCounts | crates/aichan-server/src/lib.rs:4817-4861 | a cursor counts the records returned so far, never more than 10000, and a page has one iff it promises more |
| Pagination.StableRecordReturnedOnce | crates/aichan-server/src/lib.rs:4797-4861 | while the store changes between pages in any way, a record shown with the same key at every fetch is returned exactly once by a walk that ends within the window |
| SearchAnswers.FilePage | crates/aichan-server/src/lib.rs:907-918 | every page, for all limits and cursors, by the fields of records: the newest that are shown, carry the tag and are older than the cursor, as many as the limit and the rest of 10000 allow; whether more are left; the cursor to go on from |
| SearchAnswers.FirestorePage | crates/aichan-server/src/lib.rs:1776-1805 | the same of the Firestore store for limits of at least 1 |
| SearchAnswers.WalkByFields | crates/aichan-server/src/lib.rs:4797-4861 | a finished walk over a store returns, newest first, just the shown records that fewer than 10000 shown ones are newer than |
| Discover.RankIgnoresOrder | crates/aichan-server/src/lib.rs:4733-4766 | the ranking does not depend on the order of the candidates, when ids are unique |
| Discover.RankTakesBest | crates/aichan-server/src/lib.rs:4733-4766 | the ranking has as many matching candidates as the limit allows, in strict order, each before every one left out |
| DiscoverAgreement.StoresAgreeIff | crates/aichan-server/src/lib.rs:1807-1836 | file and Firestore discover give the same records for every query with these tags and a limit of at most some bound iff every candidate that only one of them takes has that many candidates of the same store that match more of the tags |
| DiscoverAgreement.DifferentCandidatesSameAnswers | crates/aichan-server/src/lib.rs:1807-1836 | a store of 226 records for which the candidates differ and all answers within the route's limit of 25 are alike |
| Discover.StoresAlwaysAgreeIff | crates/aichan-server/src/lib.rs:1807-1836 | they do so for limits without bound iff each takes the same records as candidates, told by how many newer ones match: 200 for each tag in the one, 200 of the same tag in the other |
| Discover.DiscoverShowsHistory | crates/aichan-server/src/lib.rs:920-935 | discover returns exactly the objects published last that history shows and that match a tag, unless the candidates are used up by newer ones or the limit by ones that rank before it |
| Discover.StoresCanDiffer | crates/aichan-server/src/lib.rs:1807-1836 | of 201 records with one tag, and two tags asked for, the file store returns the oldest one when the seed favours it, for every limit, and the Firestore store does not |
| Discover.StoresAgree | crates/aichan-server/src/lib.rs:1807-1836 | so they do for at most one tag, or at most 200 matching records |
| Discover.PutAllProperties | crates/aichan-server/src/lib.rs:1807-1836 | collecting search pages in a map by id gives the union of their records |
| SearchAnswers.FileDiscoverByFields | crates/aichan-server/src/lib.rs:920-935 | the file store ranks the newest 200 matching records for each tag: by the number of tags matched, then score, then newer, then smaller id; of those just the ones that fewer than the limit rank above are returned |
| SearchAnswers.FirestoreDiscoverByFields | crates/aichan-server/src/lib.rs:1807-1836 | the Firestore store ranks the newest 200 shown records of each tag in the same way |
| MemoryMerge.MemoryFile.MergeSnapshot | crates/aichan/src/main.rs:1539-1599 | merging in place leaves the merged memory and reports whether the merge changes anything |
| MemoryMerge.MemoryFile.MergeTags | crates/aichan/src/main.rs:1547-1554 | the tag loop appends the new tags, then sorts and removes repeats, and reports additions |
| MemoryMerge.MemoryFile.MergePeers | crates/aichan/src/main.rs:1556-1572 | the peer loop replaces strictly older entries in place and appends unknown ones |
| MemoryMerge.MemoryFile.MergeInteractions | crates/aichan/src/main.rs:1574-1592 | the interaction loop does the same by update time |
| MemoryMerge.MergeNeverGoesBack | crates/aichan/src/main.rs:1539-1599 | no tag is lost, and no peer, interaction or memory time decreases |
| MemoryMerge.ChangesIffChanged | crates/aichan/src/main.rs:1539-1599 | the flag is true iff something other than order or repeats of tags changed: the profile, a new tag, or a newer or new peer or interaction |
| MemoryMerge.MergeIsIdempotent | crates/aichan/src/main.rs:1539-1599 | merging the same snapshot again reports false and changes nothing, for all inputs |
| MemoryMerge.FoldOrderIrrelevant | crates/aichan/src/main.rs:1547-1592 | the tags, peer map and interaction map after folding snapshots depend only on the start and the set of snapshots |
| MemoryMerge.CyclingConverges | crates/aichan/src/main.rs:1542-1596 | cycling over n snapshots reaches a memory no listed snapshot changes within n + 1 passes, and stays there |
| MemoryMerge.CyclingAdoptsNewestProfile | crates/aichan/src/main.rs:1542-1596 | at rest the profile is that of the newest snapshot, unless the memory was as new at the start |
| NewestEntries.MergeKeepsNewest | crates/aichan/src/main.rs:1539-1599 | of each peer a merge leaves the local entry or one of the snapshot seen strictly later, and none on either side was seen later; so for interactions by update time; tags are united and sorted; the profile is the snapshot's iff the snapshot is newer |
| NewestEntries.ChangeIsReported | crates/aichan/src/main.rs:1594-1598 | the flag and the moved time, by the times of entries |
| NewestEntries.MergeKeepsOrder | crates/aichan/src/main.rs:1556-1592 | entries keep their places on the lists |
| NewestEntries.FoldKeepsNewest | crates/aichan/src/main.rs:1423-1436 | folding snapshots in any order leaves of each peer the entry seen last, and updated last, of all of them and the start |
| FoldedProfile.ProfileDependsOnOrder | crates/aichan/src/main.rs:1542-1545 | two snapshots whose order decides the profile |
| FoldedProfile.ProfileFixedIff | crates/aichan/src/main.rs:1539-1599 | given a memory and snapshots, all folds of them, in any order and with any repeats, end with one profile iff the memory is at least as new as the newest, or at every holder of the newest's profile that another profile is newer than, some snapshot newer than all other profiles has content that nothing up to the holder has |
| FoldedProfile.FoldEndsWith | crates/aichan/src/main.rs:1539-1599 | then it is the memory's own profile when that is at least as new, and the newest snapshot's otherwise |
| FoldedProfile.TagKeepsProfile | crates/aichan/src/main.rs:1594-1596 | three memories where another profile is newer than a holder, and every order ends with one profile all the same, since a tag moves the time |
| FoldedProfile.AlwaysFixedIff | crates/aichan/src/main.rs:1542-1545 | snapshots with these profiles and times fold to one profile whatever else they carry iff no holder of the newest profile is ever overtaken |
| FoldedProfile.FoldAdoptsNewest | crates/aichan/src/main.rs:1542-1545 | when exactly the newest snapshots carry the newest profile, every fold with one of them ends with its profile and time |
| LastWriterWins.MergeOrderIrrelevant | crates/aichan/src/main.rs:1556-1592 | merging two lists of the same entries gives the same map, when equal (name, time) pairs carry equal values |
| LastWriterWins.MergeAllEffect | crates/aichan/src/main.rs:1556-1592 | after merging a list every entry of it is covered, nothing is older, and the flag tells whether something is newer |
| ActivitySync.SyncedDevice.SyncActivity | crates/aichan/src/main.rs:1405-1442 | one sync against the file store: upload the device's own memory, list a page from the cursor, merge the other devices' snapshots, save memory and cursor, or leave the device as it was on an error |
| ActivitySync.SyncedDevice.MergePage | crates/aichan/src/main.rs:1426-1436 | the page loop counts and merges as specified, and stops at an event it cannot read |
| ActivitySync.AbsorbFolds | crates/aichan/src/main.rs:1423-1436 | a page merges exactly the other devices' snapshots on it in order, with right counts, or holds one that cannot be read |
| ActivitySync.PageAdvances | crates/aichan-server/src/lib.rs:1551-1604 | a page takes exactly the other devices' events between the cursors; the cursor goes back to none iff at most a page was left |
| ActivitySync.SyncsDrain | crates/aichan/src/main.rs:1405-1442 | in calm, the cursor is back at none once the limits, less one each, add up to the events at the start; the memory then is the one before with all other devices' snapshots merged oldest first, each once |
| ActivitySync.SyncsDrainWithLimit | crates/aichan/src/main.rs:1414-1440 | with page limits of at least L >= 2, as many syncs as the events divided by L - 1, rounded up, are enough |
| ActivitySync.CursorReturnsIff | crates/aichan/src/main.rs:1405-1442 | with uploads that are newest when made, the cursor comes back to none in the course of a calm run iff the limits, less one each, add up to at least the events at the start |
| ActivitySync.LimitOneNeverDrains | crates/aichan/src/main.rs:1414-1440 | so with a page limit of 1 and anything in the bucket the cursor is never none after such a run |
| ActivitySync.UnreadableEventIsNeverPassed | crates/aichan/src/main.rs:1426-1441 | while an event of another device that cannot be decrypted is listed at every sync, no sync passes it, whatever uploads, expiry and eviction do to the bucket in between |
| SyncAnswers.SyncByFields | crates/aichan/src/main.rs:1405-1442 | one sync by fields: the event uploaded carries the encrypted memory, the page is asked for with a limit brought between 1 and 500 and read behind the cursor, the device ends with the page's snapshots merged and its next cursor, or as it was |
| SyncAnswers.AbsorbByFields | crates/aichan/src/main.rs:1423-1436 | the counts: all events of the page, the device's own, and those whose merge changed the profile, a tag, a peer or an interaction; given up iff another device's event cannot be read |
| Convergence.DevicesConverge | crates/aichan/src/main.rs:1405-1442 | any number of devices that sync in any interleaving and with any limits, uploading what they hold: when each has uploaded, and each has read the bucket from end to end since, all hold the same tags, peers and interactions, and these are all there was |
| Convergence.PassMerges | crates/aichan/src/main.rs:1414-1440 | in any interleaving, a device whose cursor goes from none to none again has merged every event of another device that was there when it began |
| Convergence.SoloPass | crates/aichan/src/main.rs:1414-1440 | turns of a device in a row, with limits that, less one each, add up to the events there, are such a pass |
| NewestEntries.DevicesHoldNewest | crates/aichan/src/main.rs:1405-1442 | when the devices converge each holds, of every peer, the entry seen last and the interaction updated last that any of them or the bucket had |
| RateLimiter.RateLimiter.Check | crates/aichan-server/src/lib.rs:482-508 | a check opens a new window when one is due, admits and counts, or rejects with a time to retry, and touches no other key |
| RateLimiter.KeysAreIndependent | crates/aichan-server/src/lib.rs:482-508 | over any run of checks a key's bucket is that of its own checks alone |
| RateLimiter.AtMostLimitPerWindow | crates/aichan-server/src/lib.rs:482-506 | at most limit checks are admitted in a window, in whatever order the clock readings come |
| RateLimiter.AtMostLimitsPerSpan | crates/aichan-server/src/lib.rs:482-506 | in any half-open span of 60 seconds at most as many limits are admitted as windows can be open in it: two, and one more for every 60 seconds, begun, that readings may come late |
| RateLimiter.AtMostTwiceLimitPerSpan | crates/aichan-server/src/lib.rs:490-506 | so at most twice the limit when readings come in order |
| RateLimiter.RejectedIffWindowFull | crates/aichan-server/src/lib.rs:482-508 | in whatever order the clock readings come, a check is rejected iff exactly limit were admitted in its window before it; the retry time is 1 to 60 seconds and the rest of the window less than a second longer |
| RateLimiter.InOrderSinceWindowBegan | crates/aichan-server/src/lib.rs:490-506 | with readings in order, those admitted in the window are those admitted at or after its start |
| RateLimiter.RejectedLastMinute | crates/aichan-server/src/lib.rs:495-504 | at a rejection between limit and twice the limit were admitted in the last 60 seconds, and exactly limit iff none of them was admitted before the window began |
| RateLimiter.LastMinuteExactIff | crates/aichan-server/src/lib.rs:482-508 | a rejection comes with exactly limit admitted in the last 60 seconds, in every run with readings in order, iff the limit is at most 1 |
| RateLimiter.RejectedWithMoreThanLimit | crates/aichan-server/src/lib.rs:482-508 | a run in which a rejection comes with more than limit admitted in the last 60 seconds |
| LimiterVerdicts.VerdictByTimes | crates/aichan-server/src/lib.rs:482-508 | by the times alone, in any order: a check is admitted iff fewer than limit came before it since the one that opened its window, 60 seconds at least after the opener before; otherwise it waits for the whole seconds left, at least one |
| LimiterVerdicts.AttemptVerdict | crates/aichan-server/src/lib.rs:482-508 | and so over many keys, each by its own times |
| ReplayGuard.RequestAuthTracker.MarkNonceOnce | crates/aichan-server/src/lib.rs:232-249 | forget nonces older than 300 seconds, refuse a nonce still there, else remember it |
| ReplayGuard.RequestAuthTracker.ValidateRequest | crates/aichan-server/src/lib.rs:4951-4980 | refuse timestamps more than 300 seconds off, then nonces seen before |
| ReplayGuard.AcceptedAgainOnlyAfter | crates/aichan-server/src/lib.rs:232-249 | the same peer and nonce are accepted twice only after a clock reading more than 300 seconds past the first, in whatever order readings come |
| ReplayGuard.AcceptancesAreApart | crates/aichan-server/src/lib.rs:232-249 | with readings out of order by at most some lateness, none when the clock never runs backwards, two acceptances of one peer and nonce are more than 300 seconds less that lateness apart |
| ReplayGuard.AcceptedAtMostOnce | crates/aichan-server/src/lib.rs:4951-4980 | a signed request whose second had passed when it was accepted is accepted at most once in any run, with any fraction of that second |
| ReplayGuard.AcceptedTwiceIff | crates/aichan-server/src/lib.rs:4951-4980 | some run accepts a signed request a second time iff the end of its second was ahead of the clock, plus the lateness of readings, at the first acceptance; and unchanged iff its timestamp was |
| ReplayGuard.FractionOutlivesNonce | crates/aichan-server/src/lib.rs:4951-4980 | one signature accepted twice with two fractions of a second, neither ahead of the clock |
| ReplayGuard.LateReadingForgets | crates/aichan-server/src/lib.rs:232-249 | with a reading late by a millisecond an unchanged request is accepted twice |
| ReplayVerdicts.VerdictByRun | crates/aichan-server/src/lib.rs:4951-4980 | over every run, in any clock order: stale iff the timestamp is more than 300 seconds before or after the reading; otherwise a replay iff its nonce was accepted before and no timely request since came with a reading more than 300 seconds past that; otherwise accepted |
| ReplayVerdicts.AcceptedAgainWithin | crates/aichan-server/src/lib.rs:4955-4964 | a request is accepted again unchanged at most 600 seconds after it was, its signature with any fraction less than 601 |
| ReplayVerdicts.AcceptedAtMostTwice | crates/aichan-server/src/lib.rs:4951-4980 | with readings in order a request is accepted unchanged at most twice |
| ReplayVerdicts.SignatureAtMostThreeTimes | crates/aichan-server/src/lib.rs:4951-4980 | and one signature at most three times |
| ReplayVerdicts.BoundsAreAttained | crates/aichan-server/src/lib.rs:4951-4980 | runs that attain both bounds, one of them with three acceptances |
| Utf8.ByteOrderIsCodePointOrder | crates/aichan-core/src/protocol.rs:411-413 | byte-wise order of UTF-8 encodings is the order of code point sequences (section 1 of RFC 3629) |
| Keys.TextLessIff | crates/aichan-core/src/protocol.rs:411-413 | code point order: a text is before another iff it is smaller at the first difference, a prefix being smaller |
| Utf8.EncodeCharTable | crates/aichan-server/src/lib.rs:5601 | lead and continuation bytes and the bits they carry, as the table of section 3 of RFC 3629 has them |
| Utf8.DecodeIffEncode | crates/aichan-server/src/lib.rs:5601 | strict decoding succeeds on exactly the encodings and inverts encoding (section 3 of RFC 3629) |
| CanonicalJson.SucceedsIffNoFloat | crates/aichan-core/src/protocol.rs:395-405 | canonicalizing succeeds iff no floating point number occurs at any depth |
| CanonicalJson.CanonicalForm | crates/aichan-core/src/protocol.rs:395-422 | the canonical form has its members strictly sorted by code point at every depth and is the value up to member order |
| CanonicalJson.CanonicalizeIsIdempotent | crates/aichan-core/src/protocol.rs:395-422 | canonicalizing twice is canonicalizing once |
| CanonicalJson.CanonicalFormsAgreeIff | crates/aichan-core/src/protocol.rs:395-422 | two values have the same canonical form iff they differ at most in member order |
| JsonText.PrintInjective | crates/aichan-core/src/protocol.rs:381-382 | so different values have different compact texts |
| JsonText.ParsePrint | crates/aichan-core/src/protocol.rs:381-382 | a reader of JSON made from RFC 8259 alone reads the text as the value, for every value without floats |
| JsonText.EscapesAreShortest | crates/aichan-core/src/protocol.rs:381-382 | no text that a reader takes for a character is shorter than the one written |
| JsonText.EscapeForm | crates/aichan-core/src/protocol.rs:381-382 | only quotes, backslashes and control characters are escaped, codes with lower-case digits |
| JsonText.CanonicalBytesAgreeIff | crates/aichan-core/src/protocol.rs:374-383 | two values have the same canonical bytes iff they differ at most in member order |
| JsonText.CanonicalBytesAreJson | crates/aichan-core/src/protocol.rs:374-383 | decoding the canonical bytes and reading them as JSON gives the value up to member order, with members sorted at every depth |
| JsonText.SignedObjectIsJson | crates/aichan-core/src/protocol.rs:385-393 | what an object signature covers is the line aichan.object.v1 and such JSON |
| JsonText.SignedObjectsAgreeIff | crates/aichan-core/src/protocol.rs:385-393 | what an object signature covers exists iff there is no float, and determines the object up to member order |
| RequestSignature.SignatureInputsAgreeIff | crates/aichan-core/src/protocol.rs:275-296 | the signature input of a request without newlines in its fields is that of another, whatever its fields, iff the two agree up to method case, body digest, whole seconds, and no key being an empty key |
| RequestSignature.SignedLines | crates/aichan-core/src/protocol.rs:275-296 | the ten lines of the text signed, in order, for a request without newlines; there is one iff the peer id is that of the key |
| RequestSignature.FractionIsNotSigned | crates/aichan-core/src/protocol.rs:433-435 | changing the timestamp of such a request keeps its signature input iff it stays in the same second |
| RequestSignature.NewlinesCollide | crates/aichan-core/src/protocol.rs:281-293 | a nonce and a key with newlines run into each other: two different requests, as signable as any, with the same input |
| RequestSignature.InputIsUniqueIff | crates/aichan-core/src/protocol.rs:275-296 | a request with no newline in its other fields shares its input only with requests that are the same in all that is signed iff its nonce and key hold no newline |
| RequestSignature.DomainsAreSeparate | crates/aichan-core/src/protocol.rs:14-15 | no request signature covers the bytes of an object signature |
| PercentCodec.PercentDecode | crates/aichan-server/src/lib.rs:5585-5602 | the decoding loop computes the text an escaped text stands for, or fails on a malformed escape or malformed UTF-8 |
| PercentCodec.QueryRoundTrip | crates/aichan/src/main.rs:2380-2391 | the server decodes what the client escaped, for every string |
| PercentCodec.PathSegmentRoundTrip | crates/aichan-server/src/lib.rs:3537-3547 | path segments decode to what was encoded, and different ids have different segments |
| PercentCodec.EscapedIsPlain | crates/aichan/src/main.rs:2380-2391 | escaped text holds no character that structures a path or a query |
| PercentCodec.EscapeByteTable | crates/aichan/src/main.rs:2380-2391 | letters, digits and four marks stand for themselves, all else is written with two upper-case digits, a space in a query as a plus sign |
| PercentCodec.HexPairTable | crates/aichan-server/src/lib.rs:5590-5597 | which two bytes behind a percent sign stand for which byte |
| PercentCodec.StrictReaderAgreesIff | crates/aichan-server/src/lib.rs:5585-5602 | the server decodes a text as a reader of two hex digits does (section 2.1 of RFC 3986) iff it refuses it or no escape in it begins with a plus sign |
| PercentCodec.PlusForADigit | crates/aichan-server/src/lib.rs:5590-5597 | an escape with a plus sign for its first digit is taken, which that reader refuses |
| PercentCodec.EscapedHasNoPlus | crates/aichan/src/main.rs:2380-2391 | no writer produces such an escape |
| DiscoverQuery.ServerReadsClient | crates/aichan-server/src/lib.rs:3850-3871 | for all tags, limits and seeds the server goes on with the normalized pieces of the tags, the clamped limit and the trimmed seed |
| DiscoverQuery.ParametersRead | crates/aichan-server/src/lib.rs:5574-5583 | parsing the query of a discover path gives exactly the parameters written |
| DiscoverQuery.TagsArriveIff | crates/aichan/src/main.rs:2393-2410 | the server's tags are the client's normalized tags iff none of those holds a comma |
| DiscoverQuery.CommaFreeTagsArrive | crates/aichan/src/main.rs:2393-2410 | so they are for all tags without commas |
| DiscoverQuery.NormalizeDiscoverTags | crates/aichan-server/src/lib.rs:4714-4727 | the loop computes the normalized tags |
| DiscoverQuery.NormalizeProperties | crates/aichan-server/src/lib.rs:4714-4727 | normalized tags are at most five, distinct, lower-case and not empty, come from the list, and leave no non-empty one out when fewer than five |
| DiscoverReading.ParameterIsLast | crates/aichan-server/src/lib.rs:5574-5583 | whoever wrote the query, a parameter has the value of the last part that gives it one; a part is a name up to its first equals sign and a text, both decoded |
| DiscoverReading.LimitIsRead | crates/aichan-server/src/lib.rs:3861-3864 | the limit is the number asked for brought between 1 and 25, and 3 when none is |
| DiscoverReading.TagsAreRead | crates/aichan-server/src/lib.rs:3852-3860 | tags come from the list under tags, split at commas, and then from tag |
| DiscoverReading.TagsAreFirstFive | crates/aichan-server/src/lib.rs:4714-4727 | the tags taken are the first five different ones, trimmed and in lower case, in the order of their first occurrences |
| DiscoverReading.TrimParts | crates/aichan-server/src/lib.rs:4716 | trimming takes all white space off both ends and nothing else |
| DiscoverReading.ClientWrites | crates/aichan/src/main.rs:2393-2410 | the client asks for discover, with every tag trimmed that is not empty then |
| Decimal.ParseNatIff | crates/aichan-server/src/lib.rs:3863 | a number parses iff it is its decimal text behind zeros and perhaps a plus sign, and in range |
| MarkedBlock.FindIsFirst | crates/aichan/src/main.rs:555-556 | finding gives the first occurrence, or none iff there is none |
| MarkedBlock.RewriteIsIdempotentIff | crates/aichan/src/main.rs:544-577 | for a body without markers, rewriting twice is rewriting once iff the file has neither marker or both in order |
| MarkedBlock.AichanBlockIsIdempotentIff | crates/aichan/src/main.rs:545-546 | the same for the program's own markers |
| MarkedBlock.ReplacesMarkedPart | crates/aichan/src/main.rs:555-562 | with both markers in order, what is replaced is the text from the begin marker to the end marker |
| MarkedBlock.SpliceKeepsText | crates/aichan/src/main.rs:558-562 | the text in front is kept, and the text behind but for newlines right after the block |
| MarkedBlock.WrittenText | crates/aichan/src/main.rs:549-574 | the file written, character by character: the text up to the first begin marker, the block, and the text behind the first end marker without newlines at its front; or the file, one empty line, and the block; or the block alone |

## Left out

- Firestore itself: a commit takes effect atomically iff its precondition holds, and every commit gives the document an update time not used before (doc/DEPLOYMENT.md:590); documents are never removed. Retries, access tokens, transport and the shape of documents on the wire are not modelled.
- Firestore's cut of timestamps to milliseconds: times in the stores are whole milliseconds, so both forms keep the same times.
- Firestore queries: a structured query is taken to return the first limit + 1 matching records strictly after the cursor, in its order; the limit of 10,000 in the Firestore stats query is not modelled.
- FilePublishStore.FilePublishStore.Upsert: validation of the object and of its signature happens before the store is called; `PublishRecords.SignaturesVerified` says what the handler passes on.
- ActivitySync.SyncsDrain: other uploads, expiry and eviction during the run are excluded, as the statement says; the events of other devices are those in the bucket at the start.
- ActivityFeed.BucketHoldsNewest: assumes that an id names one event; the client's fixed time to live makes events expire in order (`ActivityFeed.FixedLifetimeExpiresInOrder`, crates/aichan-core/src/activity.rs:115).
- MemoryMerge.MemoryFile.MergeSnapshot: the three loops of the original are methods of their own here; the last sync time of a memory is not part of the merge.
- MemoryMerge.FoldOrderIrrelevant: needs equal (peer, time) pairs to carry equal values; otherwise the first one merged wins.
- RateLimiter.RateLimiter.Check: the clock is an argument; the mutex is the atomicity of the method.
- RateLimiter.RejectedLastMinute: this and `LastMinuteExactIff`, which count by time, are for readings that come in order; the clock is read before the mutex is taken (crates/aichan-server/src/lib.rs:483-484).
- ReplayGuard.AcceptedTwiceIff: the lateness of clock readings is a parameter, since nothing in the code bounds it.
- FoldedProfile.ProfileFixedIff: snapshots of the same time are taken to carry the same profile; otherwise the first one merged wins.
- RequestSignature.SignatureInputsAgreeIff: digests, RFC 3339 texts and the derivation of peer ids are functions given as parameters; base64 decoding of the key is part of the last.
- CanonicalJson.CanonicalForm: integers are unbounded, which covers the 64-bit ones serde_json holds; duplicate member names cannot occur in its maps and are excluded.
- JsonText.ParsePrint: the text of a floating point number is not modelled, since none is ever printed; the compact writer of serde_json is not part of this model.
- JsonReader reads what a compact writer without floats writes: no white space between tokens, no fractions and exponents, and no escaped halves of surrogate pairs.
- DiscoverQuery.ServerReadsClient: a missing seed is left missing here; the server then uses one of the time of day.
- DiscoverAgreement.StoresAgreeIff: speaks of all scores, those included that the hash of no seed gives.
- Convergence.DevicesConverge: nothing expires or is evicted meanwhile, nobody edits a memory by hand, each memory has one entry for a peer, and equal (peer, time) pairs carry equal values; profiles and times of memories need not agree, see `FoldedProfile`.
- Cursor encoding and decoding, loading and saving of files, and serde derives: taken as exact.
- Encryption and decryption of activity snapshots: a function from memories to the text of an event, and one from events to an optional memory; the validation of a memory before it is encrypted is not modelled.
- The message store, the connection limiter, size and charset validators, routing, HTML and Markdown pages, logging and audit output.
- Ed25519, X25519, ChaCha20-Poly1305, HKDF, BLAKE3 and SHA-256.
- The upgrade command, identity, device and configuration files, and command-line handling.
