# Certificate-transparency ingestion: a Dafny model

This project models the parts of a certificate-transparency pipeline whose
correctness spans several steps or several files, and proves what they promise
for every input, every run and every interleaving. SQLite tables are sequences
of rows with the set of unique keys they enforce, the file system is a map,
and hashes, the public suffix list and day names are function parameters.

`dafny verify dfyconfig.toml` checks everything.

## What is proved

- **An archive month** (`SubjectRows`, `ArchiveMonth`, `ArchiveRuns`). Rows are
  identified by certificate hash or by (tile, entry), never both. The cheap
  flush (pre-filter by an SSD set that may miss hashes, batched append without
  a unique index, record afterwards, compact at the end) gives, after sealing,
  exactly the first-occurrence dedup of the archive followed by every pool, as
  a full rebuild would: `DrainAndSeal` for flushes cut by crashes and retried,
  `SealedRunIsRebuild` for any run of the whole state machine. No row is lost
  in any reachable state (`NoRowLost`), none is made up (`RowsAreHandedIn`), and
  a pool holds the first occurrences of what it was handed (`PoolIsFirsts`).
  In-place and scratch sealing agree
  exactly when no legacy tile key repeats (`InPlaceMatchesScratch`).
- **The reverse IP index** (`IpKeys`, `IpShards`, `IpRouting`, `IpIndex`,
  `IpLookup`). The key range of a prefix holds exactly the keys that agree with
  it on every prefix bit, and a lookup's answer is stated in terms of the corpus
  and the prefix as written. The sharded lookup returns the same sequence as the
  single file, for every corpus, split threshold and shard width, exactly when
  the corpus has no address of the other family under the prefix; the prefixes
  for which this holds on every corpus are the v4 ones and the v6 ones clear of
  `::ffff:0:0/96`.
- **SAN routing** (`SanRouting`). Every row that matches a query is in the one
  shard the query opens, whatever the counts and thresholds, and the answer is
  stated in terms of the certificates' own names.
- **Concurrent protocols as step relations** (`Rollover`, `IssuerStore`,
  `TileFetch`): pools are flushed once and in order and teardown ends; if all
  calls on the issuer store return nil, every certificate is stored; with 256
  leaves in every tile body, every requested index of a complete tile reaches
  the sink exactly once, and an index arrives twice exactly when a longer body
  runs into a later one.
- **Coverage and partition files** (`Base36`, `Coverage`, `Partition`,
  `TileIngest`): what is
  written, what a directory scan reports and what a lookup by index finds are
  one set of indices, the gap report is its exact complement, and writing the
  reported gaps leaves none. `TileIngest` joins this to the tile fetcher: what
  is on disk for an index is the leaf fetched for it, under that leaf's day.
- **Export** (`ExportMerge`, `KWayMerge`, `ExportShards`): external sort, k-way
  merge and the split into files equal one unchunked count, for every flush
  interval.
- **Binary formats** (`Wire`, `Framing`, `TileLeaves`, `TileCodec`, `Rfc6962`,
  `Varint`, `RawScan`, `PageScan`): both log protocols give one normalised leaf
  for one entry; tiles round trip and every truncation is classified; the page
  scan emits exactly the stored hashes.

`Octets`, `Hex`, `Lex`, `Division` and `Wrappers` are shared vocabulary.

## Where the code and its comments disagree

- A comment at internal/db/dedup.go:374-377 says that the retry after a crash
  between append and record is a no-op. The append has no unique index on the
  hash, so it is not: `RetryMayDuplicate` shows two copies of a row in the heap
  whenever the set is not empty and missed its hash, and `RepeatIsNoOp` gives the exact condition (the set already knew every hash
  of the pool). Modulo sealing the retry is harmless, which is what the month's
  theorems state.
- A comment at internal/ctv2/partition.go:58-62 says that a stored leaf's chain
  fingerprints always resolve. Under concurrent batches a second call can
  return nil while the first is still writing the certificate:
  `EarlyNilMayDangle`. `StoredExactly` gives the exact condition at every moment
  of every run (marked, and no call between mark and write), and
  `AllNilMeansAllStored` what holds once all calls have returned.

## Model

| member | source | states |
|---|---|---|
| `SubjectRows.SameIdentity` | internal/db/db.go:529-543 | two subjects handed in clash exactly when they carry the same hash, or neither carries one and they come from the same tile entry |
| `SubjectRows.DistinctIsFirstOccurrences` | internal/db/db.go:321-392 | the reference meaning keeps precisely the rows with no earlier row of the same identity, in order |
| `SubjectRows.DistinctIds` | internal/db/db.go:321-392 | dedup loses no identity and invents none |
| `SubjectRows.RebuildIsDistinct` | internal/db/db.go:321-392 | INSERT OR IGNORE through both unique indexes onto a duplicate-free table is the first-occurrence dedup of the concatenation |
| `SubjectRows.RebuildKeepsFirsts` | internal/db/db.go:406-470 | a rebuild through any choice of indexes keeps exactly the first rows of guarded identities and all unguarded ones |
| `SubjectRows.InsertAllKeepsUnique` | internal/db/db.go:321-392 | inserting through an index keeps it valid |
| `SubjectRows.UniqueIsDistinct` | internal/db/db.go:321-392 | a table both indexes accept is its own dedup |
| `SubjectRows.PrefilterIsLossless` | internal/db/dedup.go:182-276 | dropping rows whose hash the set knows changes nothing after dedup, for every set contained in the archive's hashes |
| `SubjectRows.AppendMeansConcat` | internal/db/dedup.go:182-276 | the filtered append stands for the concatenation modulo dedup, whatever indexes the heap has, and keeps every identity |
| `SubjectRows.DistinctRetry` | internal/db/dedup.go:327-392 | a cut-off append followed by a whole one counts once |
| `SubjectRows.DistinctCongruence` | internal/db/dedup.go:327-392 | archives equal modulo dedup stay equal under the same further rows |
| `ArchiveMonth.WindowIsSlice` | internal/db/dedup.go:250-276 | a rowid window selects exactly the next stretch of the active month, over gaps in the rowids |
| `ArchiveMonth.AppendWindows` | internal/db/dedup.go:250-276 | the batch loop gets through exactly when it survives one commit per window of rowids; cut after any commit, it has appended the filtered rows of a prefix of the pool |
| `ArchiveMonth.DeleteLowerTwins` | internal/db/dedup.go:284-311 | deleting every row with a lower-rowid twin leaves the same rows in every evaluation order: the first of each hash |
| `ArchiveMonth.InPlaceMatchesScratch` | internal/db/dedup.go:475-526 | compacting in place equals rebuilding through both indexes if and only if no tile key is repeated |
| `ArchiveMonth.SealIsDistinct` | internal/db/dedup.go:475-526 | the sealed month is the first-occurrence dedup and satisfies both indexes |
| `ArchiveMonth.CompleteSetNeedsNoCompaction` | internal/db/dedup.go:182-276 | when the set knows every archived hash, the index-free append already lands the sealed rows |
| `ArchiveMonth.RepeatIsNoOp` | internal/db/dedup.go:372-377 | repeating a finished append leaves the heap alone if and only if the set knew every hash of the pool |
| `ArchiveMonth.Month.PopulateFromArchive` | internal/db/dedup.go:79-131 | seeding gets through exactly when it survives one commit per batch; cut after any commit, it has added a prefix of the scanned hashes and never runs ahead of the archive |
| `ArchiveMonth.Month.MigrateToAppendOnly` | internal/db/dedup.go:423-436 | dropping the hash index rebuilds the heap and changes nothing modulo dedup; a failed rebuild changes nothing |
| `ArchiveMonth.Month.AppendDedupedNewRows` | internal/db/dedup.go:182-276 | appends the filtered rows of a prefix of the pool, all of them exactly when it survives the index drops and every window, and touches nothing when there is nothing new |
| `ArchiveMonth.Month.RecordSeen` | internal/db/dedup.go:374-392 | adds the pool's hashes to the set only after they are archived |
| `ArchiveMonth.Month.FlushMonthDeduped` | internal/db/dedup.go:327-392 | after a crash at any commit, the month stands for the archive followed by a prefix of the pool; it gets through exactly when it survives seeding, migration, append and record, and then the whole pool is in, with every hash recorded |
| `ArchiveMonth.Month.RebuildUniqueCertHash` | internal/db/dedup.go:284-311 | statement by statement, the helper index included: without duplicates one statement restores the index; with them, a cut after the DELETE leaves the compacted rows, the helper and no unique index, and only the fourth statement restores it |
| `ArchiveMonth.Month.SealMonth` | internal/db/dedup.go:475-526 | a successful seal leaves exactly the dedup of the month and both indexes (in place: when the tile index was there); a failed scratch seal changes nothing, and a failed one in place leaves exactly what its committed statements did, the same month modulo dedup |
| `ArchiveMonth.SealWithRetries` | internal/db/dedup.go:475-526 | any number of cut-off seals followed by one that gets through gives the dedup of the month |
| `ArchiveMonth.RetryMeansLonger` | internal/db/dedup.go:327-392 | two attempts that covered different prefixes of a pool stand for the longer one |
| `ArchiveMonth.FlushWithRetries` | internal/db/dedup.go:327-392 | any number of crashed and immediately retried flushes stands for one flush, and one try that survives long enough completes it |
| `ArchiveMonth.DrainAndSeal` | internal/db/dedup.go:327-526 | flushing any list of pools with crashes and retries and then sealing, again with cut-off attempts, equals the full rebuild of archive and pools, row for row; it succeeds as soon as each pool has one try, and the seal one, that survives long enough |
| `ArchiveRuns.StepKeepsInv` | internal/db/dedup.go:327-392 | every durable step, crash included, keeps the month's invariant |
| `ArchiveRuns.NoRowLost` | internal/db/db.go:646-717 | in every reachable state every subject handed in during the run has its identity in an active pool or in the archive, no archived identity disappears, and the set knows only archived hashes |
| `ArchiveRuns.RowsAreHandedIn` | internal/db/db.go:508-555 | in every run, each row of the archive, of an active pool or of the committed work is a row of the initial state or exactly what a subject handed in stages, identity and columns |
| `ArchiveRuns.PoolIsFirsts` | internal/db/db.go:508-555 | at every moment a pool holds the first occurrences of what it held at the start followed by the subjects handed to it since it was last dropped: a later twin is ignored and replaces nothing |
| `ArchiveRuns.FlushCanFinish` | internal/db/dedup.go:327-392 | from every reachable state with an idle archive month, steps are open that flush a pool to the end: the pool is gone, all its rows are committed in order and its hashes recorded |
| `ArchiveRuns.NothingNewCanFinish` | internal/db/dedup.go:182-240 | where the set knows every hash of the pool, the flush goes through with nothing appended, dropped or rebuilt |
| `ArchiveRuns.FirstFlushCanFinish` | internal/db/db.go:674-692 | where the month has no archive yet, steps are open that copy the pool as it stands, with both indexes, and drop it |
| `ArchiveRuns.SealedRunIsRebuild` | internal/db/db.go:267-308 | sealing at any point of any run gives the dedup of the initial archive and every committed batch in order, and every sealed row is one of the initial archive, of an initial pool, or exactly what a subject of the run stages, columns included |
| `ArchiveRuns.SealsFromHere` | internal/db/dedup.go:423-526 | at any idle moment of any run the month can be sealed through a scratch file or in place, with the same rows where the tile index stands, or be made append-only without changing what it stands for |
| `ArchiveRuns.JournalGrows` | internal/db/dedup.go:327-392 | what has been committed is never taken back |
| `ArchiveRuns.RetryMayDuplicate` | internal/db/dedup.go:171-181 | with a non-empty set that missed the hash, so that no seeding takes place, a crash between append and record, retried, puts a second copy of the row in the heap; dedup removes it |
| `IpKeys.SetBit` | cmd/reindex/main.go:138-140 | setting a bit changes that bit only |
| `IpKeys.Masked` | cmd/reindex/main.go:130-132 | masking keeps the prefix bits and clears the rest |
| `IpKeys.RangeIsPrefix` | cmd/reindex/main.go:129-142 | a key lies between the bounds in bytewise order if and only if it agrees with the address on every prefix bit |
| `IpKeys.PrefixRange` | cmd/reindex/main.go:129-142 | the bit loop yields bounds between which a key lies if and only if it is under the prefix as written: the twelve octets of the mapped block and then the first n bits of the address for v4, the first n bits for v6 |
| `IpKeys.CoversIsUnder` | cmd/reindex/main.go:116-142 | agreement on the prefix bits of the sixteen-octet form is the same as lying under the prefix as written, stated on octets and bits without that form |
| `IpKeys.ExtremeLengths` | cmd/reindex/main.go:129-142 | every length up to that of the address is allowed: length 0 leaves the whole family under the prefix, the full length one address |
| `IpKeys.CoversSomeMapped` | cmd/reindex/main.go:116-127 | a prefix covers some IPv4-mapped address if and only if it and `::ffff:0:0/96` agree on their common bits |
| `IpKeys.V4CoversMapped` | cmd/reindex/main.go:133-136 | every key under a v4 prefix is stored as family 4 |
| `IpShards.ShardPrefixInt` | cmd/reindex/main.go:161-172 | the octet loop gives the leading octets of the family's own offset as a number |
| `IpShards.NameInjective` | cmd/reindex/main.go:180-196 | no two shards of one layout share a file name, across families and between base and fine shards |
| `IpShards.BaseNameIsPiece` | cmd/reindex/main.go:174-196 | the name printed for a shard id is the name of its octets and family |
| `IpShards.FineNameIsPiece` | cmd/reindex/main.go:591-605 | a fine name is the name of the octets extended by one |
| `IpShards.ShardOfIsPiece` | cmd/reindex/main.go:724-779 | a row is written to a shard's file if and only if its key is in that shard's part of the key space |
| `IpShards.ShardFileNames` | cmd/reindex/main.go:174-196 | the file names written out: v4_ or v6_, the leading octets in decimal or hexadecimal for both shard widths, and one octet more where the base shard is split |
| `IpRouting.LeadingDecides` | cmd/reindex/main.go:161-172 | within a family the leading octets order keys before the rest does |
| `IpRouting.ShardsForPrefix` | cmd/reindex/main.go:198-216 | the ids run without gaps from the shard of the lower bound to that of the upper |
| `IpRouting.FineNamesForBase` | cmd/reindex/main.go:636-657 | the names of exactly the fine shards between the bounds, in order |
| `IpRouting.FineInOrder` | cmd/reindex/main.go:643-653 | for every base shard a prefix reaches, the range of fine shards is not empty, so its size is never negative |
| `IpRouting.RouteInOrder` | cmd/reindex/main.go:906-917 | the visited shards are in key order, none twice, base shards only where unsplit and fine ones only where split |
| `IpRouting.EveryKeyReached` | cmd/reindex/main.go:906-917 | every key of the family between the bounds is in a visited shard |
| `IpRouting.RouteNames` | cmd/reindex/main.go:906-917 | the files opened are those of the visited shards, in that order |
| `IpIndex.OrderIsUnique` | cmd/reindex/main.go:1334-1340 | a set of rows has one strictly ordered listing |
| `Lex.LessIsFirstDifference` | cmd/reindex/main.go:1334-1340 | the order of keys and names is that of the first differing octet, a proper beginning coming first |
| `IpIndex.BeforeSpelled` | cmd/reindex/main.go:528-566 | the order of the staged stream written out: address, domain, latest time first, NULL last; any two rows compare, so every corpus has such a stream |
| `IpIndex.BuildIP` | cmd/reindex/main.go:528-566 | the index holds the freshest row of every (ip, domain) pair, strictly ordered, NULL times oldest |
| `IpIndex.FanOut` | cmd/reindex/main.go:787-876 | every shard that has rows has a file with exactly its freshest rows, strictly ordered, although opening a shard replaces any file there |
| `IpLookup.SplitBases` | cmd/reindex/main.go:708-768 | the split set is the base shards whose number of rows, counted as those that would go to its file if nothing were split, reaches a positive threshold |
| `IpLookup.LookupCIDR` | cmd/reindex/main.go:1319-1350 | the single-file answer: freshest rows of the covered addresses, in order |
| `IpLookup.GatherFacts` | cmd/reindex/main.go:919-948 | reading files listed in key order gives an ordered sequence of exactly the matching rows of those shards |
| `IpLookup.RouteIsFamily` | cmd/reindex/main.go:900-917 | between the bounds, a row's file is opened if and only if the row is of the prefix's family |
| `IpLookup.LookupCIDRSharded` | cmd/reindex/main.go:891-952 | the sharded answer: the same, restricted to the prefix's family |
| `IpLookup.SameAnswer` | cmd/reindex/main.go:891-952 | the two answers are the same sequence if and only if no covered staged address is of the other family |
| `IpLookup.AnswerIsRight` | cmd/reindex/main.go:1319-1350 | the answer in terms of the prefix as written, the bytewise order and the fetch times, a NULL time being the oldest |
| `IpLookup.AgreeOnEveryCorpus` | cmd/reindex/main.go:198-216 | they agree on every corpus if and only if the prefix is v4 or clear of the mapped block |
| `IpLookup.LookupBothWays` | cmd/reindex/main.go:661-952 | building and asking both ways, end to end: the single file answers with exactly the rows of the corpus under the prefix as written that no row of the same address and domain was fetched after, by address and then domain; the sharded answer is the same sequence if and only if every row under the prefix is of its family |
| `SanRouting.Stage` | cmd/reindex/main.go:1086-1130 | the staged rows are exactly those of the named entries, each with its name, registrable domain, certificate id and wildcard mark, and the counts are the numbers of staged rows per suffix |
| `SanRouting.TallyIsSize` | cmd/reindex/main.go:1092-1119 | the count of a suffix is the number of staged rows that carry it |
| `SanRouting.ClassifySuffixes` | cmd/reindex/main.go:383-443 | in any iteration order, each counted suffix ends up in exactly the class its count and the thresholds say |
| `SanRouting.MatchIsInQueriedShard` | cmd/reindex/main.go:361-380 | a row whose SAN or registrable domain equals the query was assigned to the one shard the query opens |
| `SanRouting.EveryRowAssigned` | cmd/reindex/main.go:431-436 | no staged row is left without a shard |
| `SanRouting.AssignedIsShardFor` | cmd/reindex/main.go:407-436 | the shard the UPDATE gives a row is the one its suffix's count and the thresholds call for |
| `SanRouting.ShardSpelled` | cmd/reindex/main.go:407-436 | the shard written out: com and every suffix with enough rows by the first character of the label before it, the next class as a whole, the rest by the first character of the suffix |
| `SanRouting.ManifestOptionalWhenOff` | cmd/reindex/main.go:265-281 | with both thresholds off, the static layout routes as the manifest does |
| `SanRouting.FanOut` | cmd/reindex/main.go:1148-1216 | each file holds exactly its shard's rows, in stream order |
| `SanRouting.LookupSANBothWays` | cmd/reindex/main.go:1047-1262 | staging, classifying, fanning out and asking both ways, end to end: a hit is in the answer if and only if some entry has that name, wildcard mark and certificate id, and its name or its registrable domain is the one asked for; both answers are equal, whatever the entries, thresholds and query |
| `SanRouting.HitsAreFound` | cmd/reindex/main.go:1237-1282 | the hits among the staged rows are exactly those the entries themselves call for |
| `Rollover.StepKeepsInv` | internal/ingestion/multilog.go:183-279 | each step of coordinator, worker and teardown moves pools between places and creates or drops none |
| `Rollover.FlushedOnceInOrder` | internal/ingestion/multilog.go:183-221 | pools are flushed at most once and in install order; all of them by the time the call returns |
| `Rollover.StagedPoolsBounded` | internal/ingestion/multilog.go:183-221 | at most seven pools are unflushed at any time: four queued, one being flushed, one in hand and the live one |
| `Rollover.NoSendAfterClose` | internal/ingestion/multilog.go:249-279 | nobody is about to send once the queue is closed |
| `Rollover.TickRollsOver` | internal/ingestion/multilog.go:183-221 | a tick makes a waiting coordinator install the next pool and take the one before it in hand |
| `Rollover.CancelStops` | internal/ingestion/multilog.go:183-221 | cancelling stops a waiting coordinator, and one with a pool in hand once it has sent that pool |
| `Rollover.TeardownIsFinite` | internal/ingestion/multilog.go:249-279 | teardown takes boundedly many steps besides timer ticks |
| `Rollover.TeardownNeverStuck` | internal/ingestion/multilog.go:249-279 | some non-timer step is possible until the call has returned |
| `Rollover.TeardownReturns` | internal/ingestion/multilog.go:249-279 | from every reachable state teardown can finish with every pool flushed in order |
| `Rollover.CallReturns` | internal/ingestion/multilog.go:183-279 | so it can from every moment of a run, still serving or already in teardown |
| `IssuerStore.StepKeepsInv` | internal/ctv2/issuer_store.go:138-158 | every interleaved step keeps: a marked fingerprint is stored or in some call's hands |
| `IssuerStore.CallsEnd` | internal/ctv2/issuer_store.go:138-158 | whatever the other calls do, a call on n certificates is through after at most 3n + 1 steps of its own |
| `IssuerStore.CallCanMove` | internal/ctv2/issuer_store.go:138-158 | a call that is not through can always take a step: it never waits for another |
| `IssuerStore.MissingMeansReported` | internal/ctv2/issuer_store.go:138-158 | once all calls returned, a nil call's missing certificate is one whose write failed, each failed write is the error of a call that failed on that very certificate, and a call fails only for a failed write |
| `IssuerStore.StoredExactly` | internal/ctv2/issuer_store.go:138-158 | at every moment of every run a certificate is in the store if and only if another job wrote it, or it is marked and no call is between mark and write on it |
| `IssuerStore.NilMeansStoredExactly` | internal/ctv2/issuer_store.go:138-158 | with no other job, a nil call's certificate is missing if and only if some call is between mark and write on it, or its write failed and it is not marked again |
| `IssuerStore.MissingMeansUnderWay` | internal/ctv2/issuer_store.go:138-158 | with other jobs writing too, a nil call's certificate is missing only while another call is writing it or because a write failed |
| `IssuerStore.AllNilMeansAllStored` | internal/ctv2/issuer_store.go:138-158 | if all calls returned nil, every certificate handed in is stored under its own hash |
| `IssuerStore.StoredBytesMatch` | internal/ctv2/issuer_store.go:26-28 | a stored file's bytes hash to its name |
| `IssuerStore.PathInjective` | internal/ctv2/issuer_store.go:26-28 | different fingerprints have different paths |
| `IssuerStore.EarlyNilMayDangle` | internal/ctv2/partition.go:58-62 | a run in which a call returns nil before its certificate is stored |
| `TileFetch.ClampMeansComplete` | internal/ctv2/fetch_tiles.go:60-63 | an index is below the clamped end if and only if it was asked for and its tile is complete |
| `TileFetch.BuildBatch` | internal/ctv2/fetch_tiles.go:94-104 | a tile with any number of leaves gives the consecutive indices it holds inside the range: the whole slice when complete, its beginning when short |
| `TileFetch.StepKeepsInv` | internal/ctv2/fetch_tiles.go:80-119 | every tile sent is in exactly one place |
| `TileFetch.TwiceOnlyByOverrun` | internal/ctv2/fetch_tiles.go:80-121 | under every scheduling, any failures and bodies of any length: no index reaches the sink twice if and only if no served body runs into the first index of a later one that has leaves; none arrives from outside the range |
| `TileFetch.DeliveredAtMostOnce` | internal/ctv2/fetch_tiles.go:53-121 | with bodies of at most 256 leaves, no index reaches the sink twice and none from outside the range, under every scheduling and any failures |
| `TileFetch.OverlongDeliversTwice` | internal/ctv2/fetch_tiles.go:141-155 | a run in which a body of 257 leaves makes the sink receive an index twice |
| `TileFetch.DeliveredExactlyOnce` | internal/ctv2/fetch_tiles.go:53-121 | drained without failure, with 256 leaves in every body, every index of the range reached the sink exactly once |
| `TileFetch.FetchDelivers` | internal/ctv2/fetch_tiles.go:53-121 | with 256 leaves in every body, of the range asked for exactly the indices of complete tiles are delivered, each once |
| `TileIngest.BuildEntries` | internal/ctv2/fetch_tiles.go:94-104 | a body's entries are consecutive, are exactly the indices it reaches, and each carries the leaf at its own position, under the index of the tile whatever the leaf says of itself |
| `TileIngest.FetchAndWrite` | internal/ctv2/fetch_tiles.go:53-121 | fetch and write end to end, under the base-36 names on disk and in any order of arrival: the written indices are the earlier ones and exactly those asked for in complete tiles, every entry of a new file is the leaf fetched for its index, in the directory of that leaf's day, and no earlier file is touched; where the indices are new, only the backend can stop the writes |
| `TileFetch.PoolNeverStuck` | internal/ctv2/fetch_tiles.go:80-119 | until the pool has drained, somebody can move |
| `TileFetch.RunLength` | internal/ctv2/fetch_tiles.go:80-119 | under any scheduling and failures each step brings one tile one place further, so a run takes at most three steps a tile |
| `TileFetch.InFlightBounded` | internal/ctv2/fetch_tiles.go:80-119 | at no moment wait more tiles in the channel, or are more in work, than there are workers |
| `Base36.EncodeBase36` | internal/ctv2/base36.go:15-29 | the buffer loop prints the base-36 numeral; thirteen digits suffice for every 63-bit value |
| `Base36.DecodeBase36` | internal/ctv2/base36.go:32-50 | the digit loop computes the wrapping 64-bit value, or fails on the first foreign character |
| `Hex.Alphabet` | internal/ctv2/base36.go:11-11 | the digits in order are 0 to 9 and then a to z, and no other character is one |
| `Base36.AccumulateWraps` | internal/ctv2/base36.go:32-50 | however long the digit string, what is decoded is its value modulo 2^64, as a signed number |
| `Base36.DecodeEncode` | internal/ctv2/base36.go:15-50 | decoding an encoded value gives it back, and after each digit the accumulator holds the plain value of the digits so far, which never exceeds the number: no partial value wraps |
| `Base36.NameReadsBack` | internal/ctv2/coverage.go:28-50 | parsing a partition name gives its half-open range, with or without .gz |
| `Base36.NameRoundTrip` | internal/ctv2/coverage.go:28-50 | the range is exact if and only if the last index is below 2^63-1 |
| `Base36.NameInjective` | internal/ctv2/partition.go:99-99 | different ranges have different names |
| `Coverage.MergeSorted` | internal/ctv2/coverage.go:100-111 | merging sorted ranges in place gives separated ranges that cover the same indices |
| `Coverage.TotalIsSize` | internal/ctv2/coverage.go:113-118 | the sum of the merged lengths is the number of covered indices |
| `Coverage.ContiguousRun` | internal/ctv2/coverage.go:119-128 | the largest N with all of [0, N) covered |
| `Coverage.FindGaps` | internal/ctv2/coverage.go:130-157 | separated non-empty gaps that are exactly the uncovered indices below the bound |
| `Coverage.GapsAreUnique` | internal/ctv2/coverage.go:130-157 | a set of indices has one such list of ranges |
| `Coverage.SummarizeRanges` | internal/ctv2/coverage.go:89-158 | stored, frontier, contiguous and gaps are exact for any ranges, overlapping and unsorted; the gaps reach up to the tree size if it is positive and else up to the frontier |
| `Partition.RunsConcat` | internal/ctv2/partition.go:63-85 | the runs of a batch concatenate to the batch |
| `Partition.RunsMaximal` | internal/ctv2/partition.go:63-85 | each run is of one day and neighbouring runs are of different days |
| `Partition.DiskNamesFaithful` | internal/ctv2/partition.go:99-99 | the names written are the names read |
| `Partition.BatchSink.WriteRun` | internal/ctv2/partition.go:88-115 | a run becomes one new file and the counters move with it; an existing path is refused and nothing changes |
| `Partition.BatchSink.WriteBatch` | internal/ctv2/partition.go:63-85 | the batch loop, stopped by a failed write or not, has written exactly the runs of a prefix of the batch; new files hold these entries only, each in the directory of its day, and earlier ones are untouched; a batch of unwritten indices is never refused |
| `Partition.UnwrittenNotRefused` | internal/ctv2/partition.go:88-115 | a run that starts at an unwritten index never meets an existing path |
| `Partition.AddRunsFacts` | internal/ctv2/partition.go:63-115 | writing runs adds exactly their indices and leaves every earlier file as it was |
| `Partition.BatchIsWritten` | internal/ctv2/partition.go:63-115 | after a batch the written indices are the earlier ones and the batch's |
| `Partition.BatchAdds` | internal/ctv2/partition.go:63-115 | after a batch every entry of it is in a file in the directory of its day, new files hold nothing else and are named by what they hold, and no earlier file is touched |
| `Partition.ScanPartitionRanges` | internal/ctv2/coverage.go:55-80 | the scanned ranges cover exactly the written indices and the count is that of the partition files, in any walk order |
| `Partition.FindEntry` | internal/ctv2/verify.go:25-71 | an entry is found if and only if its index was written, and it is that entry |
| `Partition.CheckCoverage` | internal/ctv2/service.go:339-366 | stored, frontier, contiguous, gaps and file count are exact for what was written; the gaps reach up to the tree size if it is positive, below the frontier too, and else up to the frontier |
| `Partition.WriteAll` | internal/ctv2/partition.go:63-85 | after any list of batches the written indices are the earlier ones and the batches', every entry of a new file comes out of the batches and stands in the directory of its day, and no earlier file is touched; batches of new indices are refused by nothing but the backend |
| `Partition.FillReportedGaps` | internal/ctv2/coverage.go:55-158 | report, write exactly the reported gaps, report again, look up: the second report has no gap, every index below the bound is on disk and is found, nothing else was added, and only the backend can make it fail |
| `ExportMerge.PackedStep` | cmd/export/main.go:66-69 | each increment moves its own half of the packed word, with the carry the machine has |
| `ExportMerge.PackedReadsBack` | cmd/export/main.go:66-69 | both halves read back if and only if both counts are below 2^32 |
| `ExportMerge.CountRow` | cmd/export/main.go:168-186 | after a row the map holds the packed counts of everything since the last flush |
| `ExportMerge.WriteSortedChunk` | cmd/export/main.go:464-485 | a chunk lists each counted name once, strictly ordered, with its unpacked counts |
| `ExportMerge.BuildChunks` | cmd/export/main.go:134-204 | for every flush interval, the chunks tally consecutive stretches that concatenate to all rows |
| `ExportMerge.TalliesAddUp` | cmd/export/main.go:134-204 | wherever the cuts fall, the chunks' totals add up to one uncut count |
| `ExportMerge.TalliesMention` | cmd/export/main.go:134-204 | the chunks mention exactly the names that occur |
| `KWayMerge.MergeStep` | cmd/export/main.go:365-386 | popping one line keeps: output plus current group sum what was popped |
| `KWayMerge.KMerge` | cmd/export/main.go:343-388 | the merge emits each name once, strictly increasing, with the sums of its lines |
| `KWayMerge.MergeOfTallies` | cmd/export/main.go:343-388 | merging tallies gives the tally of all their rows |
| `KWayMerge.BuildDateExport` | cmd/export/main.go:121-129 | one day's export tallies the day, for every flush interval |
| `ExportShards.Distribute` | cmd/export/main.go:236-277 | each line goes to its shard's file in order, and its name to one of the two lists |
| `ExportShards.MergeAndShard` | cmd/export/main.go:208-290 | the merged list tallies every row, each of its lines is in exactly one sorted shard file, and the two lists separate names seen directly from those seen only under a wildcard |
| `ExportShards.ExportAll` | cmd/export/main.go:121-290 | all outputs are those of one plain count of all days, for every flush interval; totals below 2^32 are exact |
| `Wire.NumberEncode` | internal/ctlog/tile.go:105-128 | big-endian numbers read back |
| `Wire.EncodeNumber` | internal/ctlog/tile.go:105-128 | every octet string is the encoding of its number |
| `Wire.FieldEncoded` | internal/ctlog/tile.go:105-128 | a length-prefixed field reads back, whatever follows |
| `Wire.FieldIsStable` | internal/ctlog/tile.go:105-128 | a field that reads in full reads the same with more input behind it |
| `Wire.Reader.ReadField` | internal/ctlog/tile.go:105-128 | the reader consumes exactly the field, and fails exactly when the input is short |
| `Framing.FramesRoundTrip` | internal/ctlog/tile.go:27-41 | values laid end to end in a self-delimiting format read back, up to the quota |
| `Framing.FramesTruncation` | internal/ctlog/tile.go:27-41 | a cut buffer gives an error or a leading part |
| `Framing.FramesCut` | internal/ctlog/tile.go:27-41 | a cut goes unnoticed if and only if it falls inside a header |
| `TileLeaves.ParseTileLeaf` | internal/ctlog/tile.go:43-103 | the reader-driven parser consumes and returns what the format says, and tells a short header from every other failure |
| `TileLeaves.SplitFingerprints` | internal/ctlog/tile.go:96-100 | the copy loop cuts the packed hashes apart and drops a short remainder |
| `TileLeaves.ParseTile` | internal/ctlog/tile.go:27-41 | the loop reads leaves until input or quota ends, quietly on a short header |
| `TileCodec.LeafEncoded` | internal/ctlog/tile.go:43-103 | every leaf the format can carry reads back, and reading stops at its end |
| `TileCodec.LeafIsStable` | internal/ctlog/tile.go:43-103 | a leaf that reads in full reads the same whatever follows |
| `TileCodec.LeafParsed` | internal/ctlog/tile.go:43-103 | whatever the parser accepts is a leaf the format can carry, and encoding it gives the octets that were read, all of them unless a remainder of fewer than 32 octets behind the last fingerprint was dropped |
| `TileCodec.TileRoundTrip` | internal/ctlog/tile.go:27-41 | parsing the encoding of any list returns the list or its first maxEntries |
| `TileCodec.TruncationIsSafe` | internal/ctlog/tile.go:27-41 | cutting any readable tile gives an error or a leading part of its leaves |
| `TileCodec.CutTile` | internal/ctlog/tile.go:27-50 | a cut is silent if and only if it is less than ten octets into a leaf, and then every whole leaf before it is returned |
| `Rfc6962.ParseLeafInput` | internal/ctlog/rfc6962_parse.go:20-75 | accepts version 0, leaf type 0 and a complete timestamped entry, and fills the leaf from it |
| `Rfc6962.ParseCertChain` | internal/ctlog/rfc6962_parse.go:110-123 | splits the chain and appends each certificate's hash in order, or fails on a short entry |
| `Rfc6962.ParseExtraData` | internal/ctlog/rfc6962_parse.go:80-106 | reads the issued certificate for a precertificate, then the chain |
| `Rfc6962.GetEntryEncoded` | internal/ctlog/rfc6962_parse.go:20-123 | the get-entries pair of any entry gives its normalised leaf, stated field by field: type 0 is an X.509 entry and type 1 a precertificate |
| `Rfc6962.GetEntryParsed` | internal/ctlog/rfc6962_parse.go:20-123 | whatever pair the parser accepts begins on both sides with the encoding of an entry, and the result is the normalised leaf of that entry |
| `Rfc6962.ProtocolsConverge` | internal/ctlog/log_client.go:50-65 | the tile leaf and the get-entries pair of one entry, with no more chain certificates than a tile's list of fingerprints can hold, give one normalised leaf, with the chain's hashes in order |
| `Varint.SqliteVarint` | internal/db/rawscan.go:163-174 | the loop computes the varint value and length, or zero length on truncation |
| `Varint.DecodeFits` | internal/db/rawscan.go:163-174 | no value leaves 64 bits on the way |
| `Varint.VarintRoundTrip` | internal/db/rawscan.go:163-174 | every encoding of every 64-bit value, in one to nine octets and shortest or not, reads back |
| `RawScan.SizeOfValue` | internal/db/rawscan.go:143-159 | the size computed from a serial type is the stored size of every kind of value |
| `RawScan.TypesCovered` | internal/db/rawscan.go:143-159 | every serial type but the two reserved ones is that of some value |
| `RawScan.WalkFinds` | internal/db/rawscan.go:114-141 | walking the serial types of a well-formed record finds the wanted column's value |
| `RawScan.CertHashFromCell` | internal/db/rawscan.go:92-141 | the reading loop follows that walk from any offset of any page |
| `RawScan.HashOfCell` | internal/db/rawscan.go:92-141 | a well-formed cell on the page yields the wanted column's octets, or nothing if its serial type is not that of a non-empty blob |
| `RawScan.RowHasCell` | internal/db/rawscan.go:92-141 | every row of values that 64-bit serial types can describe has a well-formed cell, so the exactness claims speak of all rows |
| `PageScan.ScanPage` | internal/db/rawscan.go:59-85 | the pointer loop emits what the cells yield, skipping bad pointers and other page kinds |
| `PageScan.PageScanExact` | internal/db/rawscan.go:59-87 | a table-leaf page whose rows are stored on it, with any of the varint forms, yields exactly their non-empty cert_hash blobs, in cell order |
| `PageScan.FileScanExact` | internal/db/rawscan.go:59-87 | so does a list of pages, page by page |
| `PageScan.ScanArchiveCertHashes` | internal/db/rawscan.go:30-87 | for any file: refuses what does not start as a database, stops the program exactly on page sizes no database has, and otherwise emits what its pages hold; for a file that is whole pages of n octets, with n in octets 16 and 17 of the header, that is exactly the non-empty cert_hash blobs of its rows, page by page and in cell order |
| `PageScan.FileIsRead` | internal/db/rawscan.go:30-58 | a file made of pages of any legal size, that size in octets 16 and 17 and 1 standing for 65536, is taken for a database and cut into exactly these pages, a partial last one dropped |
| `PageScan.ScannableExactly` | internal/db/rawscan.go:44-70 | no read leaves a page if and only if the header's page size is above 100, and at least 105 where the first page is a table leaf |

## Left out

- SQLite itself: journal modes, ATTACH locking and pragmas; INSERT OR IGNORE, ORDER BY, committed batches and atomic rename are taken as contracts, and an ordered stream is a parameter that may order ties in any way.
- Copying a brand-new month is one atomic step; no crash-atomicity is claimed inside it, and archive files are not removed from outside.
- The drain grace that keeps inserts out of a pool under flush is a guard on the step that stages a row, not a timer.
- FlushAll's loop over several months and its collection of errors: each month is flushed on its own as modelled.
- The set that pre-filters an append is seeded from any hashes of the archive; the page scan's exactness is stated separately and not needed for it.
- Read errors in the middle of a page scan, which end it early with what was emitted so far.
- RawScan.CertHashFromCell: uses unbounded integers, so sizes in malformed cells that would overflow a machine integer are not modelled; records that overflow the page are outside the exactness claims.
- Address parsing, lower-casing and the `ver` column of the IP index: rows arrive with their sixteen-octet key, and the family is a function of the key. Lookups return rows where the program prints their domains.
- A rebuild into a non-empty shard directory, and building and querying with different shard widths.
- SanRouting.MatchIsInQueriedShard: assumes that the public suffix list's registrable domain is idempotent. Name clean-up (case, trailing dot, wildcard label) happens before the model; results are compared as sets because the query's order leaves ties open.
- Tile bodies of other than 256 leaves are outside the exactly-once claims; concurrent sink calls arrive one at a time; cancelled contexts, HTTP and the tile path format are not modelled.
- The issuer store's resolver path and the ingest call inside writeBatch; the day name of an entry is a parameter; marshalling and gzip are not modelled.
- The export's name normalisation, its TSV text and line-length limit, the final sort of the list by count; the shard of a name is a function parameter.
- Slices that are nil and slices that are empty are one value in the format modules.
- Log list parsing, HTTP clients and rate limits, gRPC services, X.509 and signature checks, dnsfetch, repartition, dashboards and scripts.
