# A Dafny model of steam2fs

steam2fs mounts a dump of old Steam depots as a read-only file system. A depot
has versions; each version is described by a *blob* (manifest, checksum table,
parent version), and file bytes live in *dat* files as compressed or encrypted
32 KiB blocks. This project models the parts of it that carry state, protocols
or arithmetic, and proves what they promise.

| file | what it models |
|---|---|
| `Reads.dfy`, `BlockCache.dfy`, `VersionReads.dfy` | serving file bytes through the raw-window and decoded-block caches, and reading a file of a version |
| `Versions.dfy`, `Tables.dfy`, `TableCache.dfy` | parent chains, layered file tables, their LRU cache under any number of builders |
| `SingleFlight.dfy`, `ByteCache.dfy`, `Lru.dfy` | the per-key lock protocol and the byte-bounded cache |
| `KeyResolution.dfy`, `Chunks.dfy` | finding the key of a blob, decoding one block |
| `Calendar.dfy`, `Stamps.dfy`, `Depots.dfy`, `Text.dfy`, `Seqs.dfy` | civil dates, time stamps, names and orders of a depot's versions |
| `Manifests.dfy`, `Trees.dfy` | the manifest parser and index, directory listing and lookup |
| `Checksums.dfy`, `Blobs.dfy`, `ParsedBlobs.dfy`, `Bytes.dfy` | the binary formats |
| `Sftp.dfy` | the pipelined remote read |
| `VerifyPool.dfy` | the worker pool of the `verify` command |

How it is modelled:

- Inflation, decryption, the block checksum and crc32 are the function-valued
  fields of `Chunks.Codec`, so every theorem holds for all such functions.
- What a blob parses to and what bytes a dat file holds are fixed for a run
  (`Versions.Dump`, `Reads.Source`). A backend read returns the bytes that are
  there or fails, arbitrarily.
- Threads: `SingleFlight`, `TableCache`, `VerifyPool` and the race in
  `KeyResolution` are step systems whose theorems hold for every schedule. In
  `Reads.Store` the method `OtherThreads` stands between any two lock sections
  for whatever other readers may do meanwhile, overwriting a remembered key
  included.
- Rust's truncating `i64` division is written out in `Calendar.TruncDiv`.

Where the code does not do what its comments, names or tests suggest, the code
is modelled and the exact condition is proved:

- "Keys are dropped once nobody holds them" (a test in `src/cache.rs`) holds in
  every run exactly when at most one thread ever calls:
  `SingleFlight.KeysDroppedIff`.
- A cached file table is the one an empty cache would give, in every run,
  exactly when every walk ends at a root or a self-parented blob:
  `TableCache.CacheTransparentIff`; with a longer cycle a file can disappear,
  as in the two-blob dump of `TableCache.CyclicDumpLosesFile`.
- `resolve_key` releases its lock between looking and storing, and one damaged
  block can deny a blob's key to all its other blocks
  (`KeyResolution.RacingThreadsDisagree`, `KeyResolution.DamagedBlockLocksOut`).
  All answers for a blob agree in every run exactly when one key opens all of
  its blocks and none tried before opens any, or none opens any:
  `KeyResolution.AnswersSteadyIff`. Files whose source meets that, and all
  unencrypted ones, read as decoded directly: `Reads.SteadyRead`.
- `block` serves cached blocks by (dat, start) alone and decodes the others
  under whatever key is remembered for their source. Every block served in
  every interleaving is the directly decoded one exactly when whatever a block
  decodes to, under an answer right for some block of its source, is its direct
  decoding and, where it can be cached, that of every block under the same
  cache key: `BlockCache.TransparentIff`. Both halves can fail: two records
  under one cache key (`BlockCache.SharedKeyMisleads`), and without
  verification one thread that reads an intact and then a damaged file
  (`BlockCache.RememberedKeyServesDamaged`).
- `path` has no bound and the parser accepts parent cycles
  (`Manifests.SelfParentParses`). It ends exactly when the climb never comes
  back to a node: `Manifests.PathEndsIff`.
- Stamps sort by time exactly up to the end of the year 9999:
  `Stamps.StampsSortIff`.
- At the root, `lookup` finds names that are not listed (`+7`, `007`): exactly
  the non-canonical spellings of a depot number, `Trees.RootTreeAgrees`.
- `Tree::parent` answers the root for `latest`, `by-date` and date links, which
  are listed further down: `Trees.ParentOfListed`.
- In `read`, the branch for a block that ends before the wanted position is not
  about missing blocks: it is taken only when a hit serves a shorter block of
  another record, and never where records that share a cache key are coherent
  (`Reads.CoherentBlame`).

## Model

| member | source | states |
|---|---|---|
| `Reads.Store.Read` | src/store.rs:733-756 | Whatever the caches hold and however other readers interleave, overwritten keys included: a successful read has exactly min(len, size - offset) bytes, each from a block served for its position; where records sharing a cache key are coherent, each block is served once and the bytes are those of the file. A failed one names a block in the range that fails, or that was served too short, or exactly one backend read of this call failed |
| `Reads.CoherentBlame` | src/store.rs:744-750 | Served too short cannot happen where records sharing a cache key are coherent |
| `Reads.ServedIsVouched` | src/store.rs:699-710 | With verification on, every block served has the checksum of some record under its cache key |
| `Reads.CoherentServed` | src/store.rs:668-671 | Where records sharing a cache key are coherent, what is served is the block's own decoding, of its full length |
| `VersionReads.ReadFile` | src/tree.rs:304-309 | Locating and reading a file of a version whose path to the root is complete: served from the record of the nearest version on that path that has one, directly decoded bytes where coherent and steady; the missing-record error exactly when none has |
| `VersionReads.ReadIsNearest` | src/store.rs:448-515 | The same of every table answered in every run of builders: a read through it is the bytes of the nearest ancestor-or-self record |
| `Reads.SteadyRead` | src/store.rs:733-756 | For unencrypted files, and encrypted ones whose source has a steady key, a successful read is the bytes of the directly decoded blocks, all of which decode |
| `Reads.SteadyOutcome` | src/store.rs:655-730 | Then every block has exactly one outcome, its direct decoding or that decoding's error, whatever happened before |
| `Reads.SteadyKeyIff` | src/store.rs:569-620 | A source can be given only one answer if and only if one key in try-order opens all its blocks first, or none opens any |
| `Reads.DamagedBlockDenies` | src/store.rs:569-701 | Without a steady key, a block on which no key is found, candidates tried or not, can make any other block of its source fail with that key error |
| `Reads.Store.Block` | src/store.rs:655-730 | What is served is the decoding of the block itself, or of a non-plain block under the same (dat, start), under an answer right for some block of that source, with the checks of its own record; an error is the one such a decoding of this block gives, or exactly one failed backend read; a non-plain block that fits is then cached |
| `Reads.Store.LoadBlock` | src/store.rs:672-729 | After a miss: exactly the outcome of this block under such an answer, and every cached block stays a decoding of some record under its key |
| `Reads.Store.CheckedDecode` | src/store.rs:698-721 | Decoding, checksum and size checks in the source's order, with each failure's own error |
| `Reads.Store.ResolveKey` | src/store.rs:569-620 | With look, search and store in separate lock sections: the answer is right for some stored block of the source, is what the memo holds at the end, a source once resolved is neither forgotten nor searched again, and every remembered answer stays right |
| `Reads.Store.CipherFor` | src/store.rs:682-697 | The key or key error that such an answer determines; unencrypted files need none |
| `Reads.Store.DatBytes` | src/store.rs:549-564 | Bytes assembled from windows are the dat's bytes [start, end), cut off at its end |
| `Reads.Store.FetchWindow` | src/store.rs:530-546 | The window is that slice of the dat below its listed size, it is then cached if it fits, every cached window stays so, and it fails exactly when the backend read does |
| `Reads.Store.RawWindow` | src/store.rs:519-528 | The same through the unlocked cache check |
| `Reads.Store.constructor` | src/store.rs:202-218 | A new store satisfies the cache invariants |
| `Reads.AdjacentReadsConcatenate` | src/store.rs:733-756 | A successful read is never truncated; with a steady key or none needed, two adjacent reads concatenate to the longer one |
| `Reads.ReadIsSlice` | src/store.rs:733-756 | Where all blocks decode, their concatenation is as long as the file and every read is a slice of it |
| `Reads.AlikeBlocksCover` | src/store.rs:668-671 | Records that share a (dat, start) key and agree on mode, end, length and, if encrypted, source may share a cached block |
| `BlockCache.TransparentIff` | src/store.rs:569-730 | For any number of threads, with key memo, cache, evictions and races: every block served in every run is the directly decoded one if and only if every outcome of a block is its direct decoding and, where cacheable, that of every block under the same key |
| `BlockCache.SteadyTransparentIff` | src/store.rs:655-730 | Where every source has a steady key: if and only if records sharing a cache key decode alike wherever a block can be cached |
| `BlockCache.StepKeepsInv` | src/store.rs:569-730 | Under that condition every lock section of every call keeps cache, memo and answers right |
| `BlockCache.OutcomesAreServed` | src/store.rs:569-730 | Every outcome of a block is served in some run |
| `BlockCache.RememberedKeyServesDamaged` | src/store.rs:570-572 | One thread, no shared cache key, verification off: the key remembered from an intact file serves a damaged one that no key opens |
| `BlockCache.SoundIsCoherent` | src/store.rs:668-671 | That condition includes coherence of the cache key |
| `BlockCache.SharedKeyMisleads` | src/store.rs:668-671 | Two records with one key where a hit serves one byte instead of two |
| `Reads.LocatedIsPlaced` | src/store.rs:474-515 | Every location a table answers with has an existing source and dat and contiguous block offsets, and is a record of the file asked for |
| `Versions.ParentMeaning` | src/store.rs:390-423 | Exactly which blob is the parent: the blob parses and records a predecessor, and the parent is the last blob of that identity or, failing that, the depot's only one of that version; a blob that records none has none, and only an unparseable one fails |
| `Versions.ParentIsRecorded` | src/store.rs:390-423 | Every parent is of the child's depot and of the version the child records |
| `Versions.PathIsOneDepot` | src/store.rs:390-439 | All blobs of a path are of one depot, and each records the version of the one before |
| `Versions.Chain` | src/store.rs:426-439 | The loop computes `ChainOf` on every dump |
| `Versions.ChainMeaning` | src/store.rs:426-439 | Cyclic dumps included: the chain ends at the blob, has no duplicates, links parents to children, and stops at a root, a repeat or the limit; it fails only on an unparseable blob of the path |
| `Versions.ChainComplete` | src/store.rs:426-439 | Those properties determine the chain |
| `Versions.LineageUnique` | src/store.rs:390-439 | A complete path is the only one; every path to the blob is a suffix of it |
| `Versions.LineageIsChain` | src/store.rs:426-439 | A complete path of at most 100,001 blobs is the chain |
| `Versions.ChainStartsAtRoot` | src/store.rs:430-433 | If no complete path is longer than 100,001, a chain that starts at a blob with a complete path starts at its root |
| `Tables.PlaceBlocks` | src/store.rs:490-496 | Block offsets are contiguous from the record's offset |
| `Tables.OwnTable` | src/store.rs:474-508 | A layer holds exactly the blob's files, each placed by its last record, over the given parent |
| `Tables.OwnUnique` | src/store.rs:474-508 | That determines the layer |
| `Tables.LocatedDat` | src/store.rs:476-479 | In every well-layered table, a location's dat is the best one listed for its source's depot, version and recorded dat crc, and absent exactly when none is listed |
| `Tables.Get` | src/store.rs:148-156 | The climbing loop computes the layered lookup |
| `Tables.WholeIsNearest` | src/store.rs:147-156 | A table layered down to the root answers with the nearest blob on the path that has the file |
| `Tables.LayerIsGood` | src/store.rs:455-471 | Each layer put on a chain keeps every property of cached tables |
| `TableCache.TableStore.Table` | src/store.rs:448-453 | A hit returns and refreshes the cached table; a miss walks the chain; the answer is good and so is every table left in the cache |
| `TableCache.TableStore.BuildTable` | src/store.rs:455-471 | The loop leaves exactly the cache and table of `Walk`, reusing cached layers; the final table always exists |
| `TableCache.TableStore.Locate` | src/store.rs:510-515 | The file's record in a good table of the version, or the missing-record error |
| `TableCache.PutEvictsAt256` | src/store.rs:212 | The table cache holds 256 tables and evicts the least recently used one |
| `TableCache.HitsRefresh` | src/store.rs:448-471 | In every step, what is found in the cache or stored becomes its most recently used entry and nothing else moves |
| `TableCache.BuildFailsWithChain` | src/store.rs:455-471 | A build fails exactly when the chain does: layering itself cannot |
| `TableCache.StepKeepsInv` | src/store.rs:448-471 | One lock section of any builder keeps every cached, pending and answered table good |
| `TableCache.TablesAreWellLayered` | src/store.rs:448-508 | In every run on every dump each table is its blob's records over nothing or over such a table of its parent |
| `TableCache.TableIsNearest` | src/store.rs:448-508 | In every run with evictions, a table of a blob with a complete path answers with the nearest ancestor-or-self record, as folding the chain on an empty cache does |
| `TableCache.CacheTransparentIff` | src/store.rs:426-471 | Every answer in every run equals the fresh build if and only if every walk ends at a root or a self-parent |
| `TableCache.CycleLosesFiles` | src/store.rs:426-471 | For two blobs that name each other, a run in which a file that a fresh build finds is missing |
| `TableCache.CyclicDumpLosesFile` | src/store.rs:426-471 | A dump of two such blobs |
| `TableCache.AcyclicIsSettled` | src/store.rs:426-439 | Dumps whose every walk has a complete path within the limit are covered |
| `SingleFlight.StepKeepsInv` | src/cache.rs:81-100 | Every step of every thread keeps the counts, locks, links and log of the protocol consistent |
| `SingleFlight.WorkNeverOverlaps` | src/cache.rs:81-100 | In every reachable state two threads inside the closure have different keys |
| `SingleFlight.RepeatedWorkIsExcused` | src/cache.rs:81-100 | Work on a key starts again only after the earlier run ended, and only if it failed, was refused as too large, or its result was evicted |
| `SingleFlight.WorkRunsOnce` | src/cache.rs:113-135 | Without failure, refusal or eviction of a key its work runs once |
| `SingleFlight.RemovalDecision` | src/cache.rs:92-98 | The count is read as two exactly when no other thread has a clone of the slot |
| `SingleFlight.NoDeadlock` | src/cache.rs:81-100 | Whenever a thread is in a call, some thread in a call can step |
| `SingleFlight.SlotCanBeLeftBehind` | src/cache.rs:95-100 | Any two threads have a run that leaves a slot in the map with everybody idle |
| `SingleFlight.KeysDroppedIff` | src/cache.rs:136-140 | The map is empty whenever all threads are idle, in every run, if and only if there is at most one thread |
| `ByteCache.ByteLru.Get` | src/cache.rs:31-33 | A hit returns the value, makes it most recent and changes no contents |
| `ByteCache.ByteLru.Insert` | src/cache.rs:35-50 | The loop leaves exactly `Inserted`, with the byte count right and within capacity |
| `ByteCache.InsertEffect` | src/cache.rs:35-50 | A fitting value is never itself evicted and no value that stays changes |
| `ByteCache.EvictDropsShortestPrefix` | src/cache.rs:44-49 | What is dropped is the shortest least-recently-used prefix that restores the bound |
| `ByteCache.RunKeepsBoundAndValues` | src/cache.rs:31-50 | In every run the total stays within capacity and a hit returns the last accepted value |
| `ByteCache.RunOrdersByRecency` | src/cache.rs:31-50 | In every run entries are ordered by their last use |
| `KeyResolution.Search` | src/store.rs:573-617 | The configured key if it opens the sample, else the first candidate that does, else the number tried |
| `KeyResolution.Answer` | src/store.rs:573-617 | The search as a function: always a right answer for its sample |
| `KeyResolution.ResolutionMeaning` | src/store.rs:573-617 | An answered key opened its sample; no answer means the configured key and, when searching, all candidates failed and were counted |
| `KeyResolution.ResolutionUnique` | src/store.rs:573-617 | A sample has only one right answer |
| `KeyResolution.ConfiguredKeyWins` | src/keys/mod.rs:58-74 | Over the three key sources: a blob's own override goes first, then the depot's override, then the table; whenever that key opens the sample it is every right answer, and no other key is answered as configured |
| `KeyResolution.NoKnownKeyOpens` | src/keys/mod.rs:76-84 | With searching on and all known keys listed, no key means that none of them opens the sample |
| `KeyResolution.FirstAnswerStays` | src/store.rs:569-620 | Over every run of atomic calls, each answer for a blob is right for the sample of its first call: a key opened it, and when searching no key means all failed on it |
| `KeyResolution.RaceAnswersRight` | src/store.rs:569-620 | In every interleaving, each answer for a blob is right for some sample of it that a caller of the run presented |
| `KeyResolution.InTurnIsAtomic` | src/store.rs:569-620 | Callers that do not overlap are answered as whole calls are |
| `KeyResolution.AnswersSteadyIff` | src/store.rs:569-620 | With the lock released in between, answers for a blob agree in every run if and only if one key opens all its samples and none tried earlier opens any, or no key opens any |
| `KeyResolution.AnswersAgreeIff` | src/store.rs:573-617 | Samples resolve alike if and only if that holds of them |
| `KeyResolution.RacingThreadsDisagree` | src/store.rs:570-619 | Two threads racing on an intact and a damaged block are told a key and no key, and the memo keeps no key |
| `KeyResolution.DamagedBlockLocksOut` | src/store.rs:570-619 | Without a race, a damaged block asked for first denies the working key to the intact one |
| `Chunks.Inflate` | src/format/chunk.rs:28-37 | Succeeds if and only if the stream is whole and at most one block; a broken stream is a zlib error if and only if it breaks within the first block size |
| `Chunks.DecodeMeaning` | src/format/chunk.rs:44-100 | Both decoders give an output if and only if the stored bytes mean it: raw, inflated, decrypted, or a sealed block whose header holds both sizes |
| `Chunks.DecodeVerifiedMeaning` | src/format/chunk.rs:103-117 | Verified if and only if the block decodes to bytes of the expected checksum |
| `Chunks.KeyMatters` | src/format/chunk.rs:44-85 | The encrypted modes fail without a key and the others ignore it |
| `Calendar.DaysRoundTrip` | src/index.rs:179-201 | Every day number, negative ones included, is a real Gregorian date and converts back to itself |
| `Calendar.CivilRoundTrip` | src/index.rs:179-201 | Every real date converts to days and back to itself |
| `Calendar.DaysOfNextDay` | src/index.rs:193-201 | Day numbers advance by one across month, year, leap-day and era ends |
| `Calendar.CivilIsTheCalendar` | src/index.rs:179-190 | Day 0 is 1970-01-01 and each day is the next date of the day before |
| `Calendar.CivilIsMonotone` | src/index.rs:179-190 | Later days are later dates |
| `Calendar.TruncIsFloor` | src/index.rs:181 | The adjustment before the truncating division makes it round down |
| `Stamps.StampOrder` | src/index.rs:161-173 | Byte order of stamps is numeric order of seconds, both ways, for years of equal width |
| `Stamps.StampRoundTrip` | src/index.rs:161-173 | A stamp has the documented shape, and the date and time it shows read back as its second |
| `Stamps.StampsSortIff` | src/index.rs:161-173 | All stamps below a limit sort by time if and only if the limit is at most the end of 9999 |
| `Stamps.FiveDigitYearsSortEarly` | src/index.rs:161-173 | The last second of 9999 sorts after the first of 10000 |
| `Depots.BuildDepot` | src/index.rs:293-341 | The loading loops produce the names, maps and order that `IsDepotOf` describes |
| `Depots.NamesInvertIff` | src/index.rs:78-97 | Lookup by name and the names given are inverse if and only if no two blobs share version and crc |
| `Depots.LinksInvertIff` | src/index.rs:78-97 | The same for date links, if and only if no two blobs share version, crc and second |
| `Depots.LookupsInvertNames` | src/index.rs:78-97 | With distinct (version, crc), both are inverse to their names |
| `Depots.NamesSay` | src/index.rs:301-317 | A lone version is named by its decimal, a shared one adds a dash and eight hex digits of the crc; a link is the stamp of the second, or `unknown`, then `_v` and the name |
| `Depots.ListedInVersionOrder` | src/index.rs:294-296 | A depot lists its blobs by version and crc |
| `Depots.ReservedNamesAreFree` | src/index.rs:301-317 | `latest` and `by-date` are never version names |
| `Depots.DateOrderIsPermutation` | src/index.rs:336-339 | The date order holds every blob exactly once |
| `Depots.ListingIsChronological` | src/index.rs:311-341 | Before the year 10000 the date order is chronological to the second, undated blobs last |
| `Depots.LatestIsNewest` | src/index.rs:390-397 | `latest` has the highest version and among those the newest date; absent only for an empty depot |
| `Depots.LatestBreaksTies` | src/index.rs:390-397 | Among equally dated blobs of the highest version, `latest` is the one of the greatest crc |
| `Depots.FindBlob` | src/index.rs:369-371 | The last blob with that depot, version and crc, or none if there is none |
| `Depots.IndexBlobKeys` | src/index.rs:239-259 | The key map built while loading answers as `FindBlob` |
| `Depots.IndexDats` | src/index.rs:268-291 | The dat map answers with the first complete file of an identity, or the last incomplete one |
| `Depots.WithVersion` | src/index.rs:374-382 | Exactly the depot's blobs of a version |
| `Manifests.Parse` | src/format/manifest.rs:105-204 | The parser's loops compute `ParseManifest`, errors included |
| `Manifests.ParseIffLaidOut` | src/format/manifest.rs:3-18 | A buffer parses to a manifest if and only if it is laid out as documented: header with the checksum in closed form, node and string tables, links and names in range, and the index listing all nodes with a parent by (parent, name, position) |
| `Manifests.ParsedIsValid` | src/format/manifest.rs:173-204 | Parsing establishes all link and name ranges and the sorted index |
| `Manifests.NameMeaning` | src/format/manifest.rs:217-224 | A node's name is the string at its offset in the string table, up to the first NUL or the table's end; an unknown node has none |
| `Manifests.RootMeaning` | src/format/manifest.rs:227-232 | The root is the first node without a parent, or node 0 |
| `Manifests.ChecksumIsSums` | src/format/manifest.rs:299-307 | The checksum is the two Adler sums in closed form over the buffer with bytes 0x30 to 0x37 zero |
| `Manifests.ChildByNameIsAScan` | src/format/manifest.rs:251-257 | Binary search finds a child of that parent and name, and none only if there is none |
| `Manifests.ChildByNameIsUnique` | src/format/manifest.rs:251-257 | With distinct sibling names every child is the one found under its name |
| `Manifests.ChildIter.Next` | src/format/manifest.rs:282-297 | Each call yields the head of the remaining sibling list and shortens it |
| `Manifests.Path` | src/format/manifest.rs:260-272 | For every node whose climb ends, the loop ends and joins the names from the root down |
| `Manifests.PathEndsIff` | src/format/manifest.rs:260-272 | The climb ends if and only if it never comes back to a node, and then within as many steps as there are nodes |
| `Manifests.SelfParentParses` | src/format/manifest.rs:105-204 | A buffer the parser accepts on which `path` never ends |
| `Manifests.SplitJoin` | src/format/manifest.rs:260-272 | Splitting a path at slashes undoes the join |
| `Manifests.PathResolves` | src/format/manifest.rs:251-272 | Resolving a node's path name by name from the root returns the node |
| `Trees.ListNode` | src/tree.rs:234-254 | The listing loop computes the entries of a version directory or node |
| `Trees.TreeAgreesIff` | src/tree.rs:234-292 | Listing and lookup of a directory node agree completely if and only if the sibling list holds exactly the nodes their names find, each once; `parent` then leads back |
| `Trees.MatchingSiblingsIff` | src/tree.rs:234-292 | With distinct sibling names, if and only if the sibling list matches the parent fields |
| `Trees.VersionTreeAgrees` | src/tree.rs:184-292 | Where sibling lists match parent fields: each child is listed once, lookup agrees with the listing and finds nothing else, and `parent` leads back |
| `Trees.DepotTreeAgrees` | src/tree.rs:216-278 | The same agreement for a depot directory |
| `Trees.DateTreeAgrees` | src/tree.rs:227-282 | The same agreement for `by-date` |
| `Trees.RootTreeAgrees` | src/tree.rs:211-270 | Listed depots are found; a name found is listed exactly when it is canonical |
| `Trees.RootAcceptsAliases` | src/tree.rs:265-270 | `+7` finds depot 7 without being listed |
| `Trees.ParentOfListed` | src/tree.rs:184-197 | `parent` leads back from depots and versions, and to the root from everything else listed there |
| `Trees.NodeKinds` | src/tree.rs:242-246 | A node is listed as a directory exactly when it can itself be listed, that is when it has no file id, and as a file otherwise |
| `Trees.FixedKinds` | src/tree.rs:211-233 | Elsewhere `latest` and the date links are listed as symlinks and all else as directories |
| `Trees.OnlyDirectoriesList` | src/tree.rs:200-258 | Which keys can be listed, and the error of the others; links hold nothing |
| `Trees.ListingsInOrder` | src/tree.rs:216-233 | Versions are listed by number and crc, date links by the second with undated blobs last |
| `Trees.LinksLead` | src/tree.rs:167-180 | `latest` names the newest version of its directory, a date link its blob's version one directory up |
| `Trees.ParentFallsBack` | src/tree.rs:190-195 | A node that cannot be looked up is put under its version |
| `Trees.ParseU32Meaning` | src/tree.rs:266-267 | The names that are numbers: digits, perhaps with leading zeros, perhaps after a plus sign |
| `Checksums.Parse` | src/format/checksums.rs:76-170 | The cursor loops compute `ParseTable`, errors included |
| `Checksums.EncodeThenParse` | src/format/checksums.rs:3-14 | Parsing a table encoded as documented returns its records, whatever follows |
| `Checksums.AcceptedIsEncoding` | src/format/checksums.rs:76-170 | Every accepted buffer is such an encoding up to unused words and trailing bytes |
| `Checksums.ParseIffHolds` | src/format/checksums.rs:76-170 | Accepted if and only if the buffer starts with an encoding of those records |
| `Checksums.ModeFromU32` | src/format/checksums.rs:33-40 | A mode is the one with that code; none means no mode has it |
| `Blobs.Parse` | src/format/blob.rs:82-115 | The cursor loop computes `ParseEntries`, errors included |
| `Blobs.ParseAcceptsTilings` | src/format/blob.rs:82-115 | Accepted if and only if magic and size are right and the entries tile the buffer from byte 10 |
| `Blobs.TiledValues` | src/format/blob.rs:135-158 | Every value is the buffer slice at its recorded offset |
| `Blobs.EncodeThenParse` | src/format/blob.rs:3-10 | Parsing an encoded entry list returns it, whatever follows |
| `Blobs.Lookup` | src/format/blob.rs:135-140 | The first entry with the key, or none only if no entry has it |
| `Blobs.MetaMeaning` | src/format/blob.rs:228-249 | Version metadata is read if and only if each key holds its field; previous version 0xffffffff means a root |
| `Blobs.WrapThenDecompress` | src/format/blob.rs:197-223 | Unwrapping inverts wrapping and rejects a wrong plain size |
| `Blobs.DecompressMeaning` | src/format/blob.rs:197-223 | Unwraps to a buffer if and only if magic, sizes and zlib stream say so |
| `ParsedBlobs.Parse` | src/store.rs:764-796 | Succeeds exactly on version blobs, with what they hold |
| `ParsedBlobs.AcceptedIff` | src/store.rs:764-796 | Accepted if and only if the entries tile the buffer, the metadata keys hold their fields, key 3 wraps a laid-out manifest, key 2 is its fingerprint, key 10 seals the buffer and key 4 starts with an encoded checksum table |
| `ParsedBlobs.AcceptedIsSealed` | src/store.rs:770-789 | An accepted blob holds at key 10 the crc of itself with exactly those four bytes zeroed, and its manifest's fingerprint at key 2 |
| `ParsedBlobs.LayoutIgnoresOwnCrc` | src/format/blob.rs:82-149 | Changing key 10's four bytes moves no entry |
| `ParsedBlobs.SealIsUnique` | src/store.rs:776-789 | Two accepted blobs that differ at most in key 10 are equal |
| `Sftp.ReadRange` | src/backend/sftp.rs:440-492 | Terminates against every server; where each reply is allowed or a failure, a successful read is exactly the file's bytes in the range, however short the replies, and it fails only if a request it sent was answered with a failure; with an honest server it cannot fail |
| `Sftp.AskBatch` | src/backend/sftp.rs:444-489 | One batch: the bytes taken extend the file's, and a failed scan met a failed reply |
| `Sftp.TakeReplies` | src/backend/sftp.rs:460-489 | Replies up to the first short one extend the file's bytes in order; asking again always follows progress |
| `Sftp.PlanBatch` | src/backend/sftp.rs:443-450 | A batch covers the remaining range contiguously within the limits |
| `VerifyPool.StepKeepsInv` | src/main.rs:334-354 | Every step conserves lines (reported, owed, unclaimed), block counts and claims |
| `VerifyPool.ReportIgnoresSchedule` | src/main.rs:320-361 | For any workers and schedule: each file claimed once, and sorted report, failure count and block count are the sequential ones |
| `VerifyPool.RunsEnd` | src/main.rs:334-354 | Every schedule of unfinished workers is bounded |
| `VerifyPool.Verify` | src/main.rs:314-368 | With workers picked in any order: the report, block count and failures are those of checking one file after another with the outcomes the reader gave, every file read through to its end or its first failure |
| `VerifyPool.FixedReport` | src/main.rs:320-361 | Where reading a block always goes the same way there is only one right report |
| `VerifyPool.ReportIsOfOutcomes` | src/main.rs:320-361 | The same of every finished schedule, each file claimed once |
| `VerifyPool.FinishedReadThrough` | src/main.rs:337-351 | In every finished schedule each file was read block by block to its end or its first failure |
| `VerifyPool.ExpectedSorted` | src/main.rs:357-358 | The sequential report is strictly ordered by node, with at most one line per file |
| `VerifyPool.FileNodes` | src/main.rs:320-326 | Exactly the nodes that are not directories, in tree order |
| `Bytes.UintOccurs` | src/format/mod.rs:26-42 | An integer is read exactly where its little-endian encoding sits |

## Left out

- `src/fs.rs`, `src/winfs.rs`: the FUSE and WinFsp frontends only map errors and attributes onto the tree.
- SSH connection, host keys, remote listing and the handle cache in `src/backend/sftp.rs`: network I/O.
- `src/backend/local.rs` and source strings: a backend appears as its `read_at` contract.
- The on-disk blob cache and its sha256 check (`src/store.rs:231-335`): what a blob parses to is fixed per run, so a blob fetch that fails now and succeeds later is not modelled.
- The parsed-blob LRU (`src/store.rs:304-309`): it follows from the fixed outcome of parsing.
- Internals of zlib, AES-128-CFB, CRC-32 and SHA-256, and the in-place change of the buffer by `decrypt`: they are given functions on values.
- The built-in key table, key files, command line, logging, extended attributes, `inspect`, `key-audit` and `probe_key`: no deeper property.
- Text parsing of `blobs_dates.txt` and file names: the index starts from parsed entries and whole seconds.
- `TableCache.StepKeepsInv`: leaves out the single-flight lock around a build, so it covers more interleavings than can occur.
- `Manifests.Path`: asks that the climb from the node ends, because on a parent cycle the loop never does (`Manifests.PathEndsIff`).
- `BlockCache.TransparentIff`: leaves out the raw-window cache, which `Reads.Store.DatBytes` shows to be transparent.
- Overflow of `u64`, `i64` and `usize` sums: integers are unbounded here.
- `from_utf8_lossy` on node names: names are compared as bytes.
