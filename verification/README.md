# hath-rust, verified

A Dafny model of the parts of hath-rust, a caching edge node, where correctness is not obvious
from any one function: the cache index and its cleaner, the cache-miss download protocol, the
serving of byte ranges, and the connection limiter. `dafny verify dfyconfig.toml` checks it all.

## What is modelled

**File names** (`FileId.dfy`). Files are stored under a name printed from their description; scanner
and cleaner parse the name back. Printing and parsing undo each other exactly for canonical
descriptions, so deleting "the file this name stands for" deletes the listed file. A path is compared
component by component; a type that holds a slash makes the name several components, and the laws
about places hold exactly without one. What the parser accepts is given as a grammar of spellings.

**The cache index** (`Sums`, `CacheIndex`, `CacheCleaner`, `CacheScan`, `CacheManager`, `CacheRuns`,
`CacheInterleaving`).
The class `CacheManager` has the source's mutable state: the files on disk, the per-range table
`(fileCount, size, oldest)`, two gauges and the size limit. `Valid()` says that counts, sizes and
gauges are those of the disk; `Bounded()` says that `oldest` is a lower bound on modification times.
Import, removal, access marking and every cleaner round keep `Valid()`; the start-up scan ends in it
exactly when no saved entry is stale. `Bounded()` survives removal and cleaning always, and import and
access marking exactly when the new modification time is not before the range's bound. The cleaner's
loop is proved to terminate by a lexicographic measure (files left, then ranges that are not settled);
what happens without its preconditions is shown by histories of rounds that never end. Over whole runs
the cleaner is least-recently-used up to the offset each round chose; a round is also described by its
files alone, with the four tiers of the cut-off written out (`RoundLaw`). `CacheInterleaving` cuts a round
at its awaits and lets imports, accesses and removals come in between.

**The download** (`Download`, `DownloadEnding`, `DownloadRegistry`, `DownloadWorker`). A transition system whose steps are
the code between two awaits: the worker with its three attempts, writes that become visible late,
readers that may read ahead of the published progress, receivers, and the two waits before import. Any
number of downloads share the map of running downloads; entries are guarded by scope guards. The
whole worker, from the first attempt to the import, is also written as the loop it is, and each of its
actions is shown to be a machine step. Beside what no run can do stands what some run always can:
import a right file, end, empty the map, and let one more client read.

**Serving** (`FileReader`, `TruncateBody`, `Serving`). The reader's state machine, both read paths of the
cache, the truncating body and the range decision are composed into one statement about status, headers
and body (RFC 9110, sections 14.2, 14.4 and 15.3.7), with the Content-Range header as a client reads it.

**Flood control** (`FloodControl.dfy`). The swept table is a data refinement of one never-swept leaky
bucket per address; the rate, spacing and block laws are proved of the bucket.

SHA-1 is an arbitrary function from byte sequences to digests. Times are nanosecond counts. What the
operating system, the network and the clock decide (read sizes, failures, chunk sizes, interleavings,
clock readings, the order of directory entries and of equal modification times) is a parameter or a
free choice, and the statements hold for every value of it.

## Assumptions

- File operations and size reads of the index succeed, a file has one stable size on disk, and index
  operations run one after the other once the scan has finished (`CacheInterleaving` drops the latter
  for the cleaner).
- Names that parse are in the form the cache writes (`NamesOk`), and types hold no slash (`Storable`,
  `OneComponentIff`). Other files are strays, which every operation leaves alone. `Clean` and
  `CheckCacheUsage` ask for none: one stray can stop the cleaner for good (`StuckForever`).
- A lost reader task is not polled again; its handle would panic.
- The readings of the clock do not go back. Within one call of the limiter they are at most one second
  apart; `SweepLagIsExact` shows that this is exactly what the sweep needs.
- A whole cleaning run needs that the wanted bytes exist (`CleanerNeverEnds` shows the loop does not end
  otherwise), that the directories of all ranges exist, and that every file was modified in an earlier
  second than the run's first clock reading.
- Pending writes of one temp file become visible in the order they were issued.
- Ranges arrive validated against the file size.

## Where the code falls short

- The lower bound `oldest` is not kept by every import. A temp file moved by a rename keeps the time of
  its last write, which can be before the `oldest` its range got in the meantime. `ImportCache` states the
  exact condition, `OldImportBreaksBound` gives an instance. Whole-run statements assume that an imported
  file carries the current time.
- The cleaner raises its goal to 100 MiB. If the cache holds less than that, the loop never ends
  (`CleanerNeverEnds`).
- A file whose name does not parse is never deleted. If it is the newest file of the range with the
  smallest `oldest`, and no cached file is left there, every round picks that range again and changes
  nothing (`StuckForever`, `OneStrayIsEnough`); `FixpointIff` gives the exact condition.
- The start-up scan visits only directories that exist. A saved entry of a range whose directory is gone
  keeps its counts, and the gauges include them (`StaleEntryStays`); `ScanCache` states exactly when the
  index is right afterwards.
- A file that comes into a range while the cleaner reads that directory can be older than the `oldest` the
  round records (`UntimelyImportBreaksBound`); otherwise the bound holds in every interleaving.
- A file accessed after the cleaner read its time is deleted all the same (`AccessedFileIsDeleted`);
  `DeleteIsLruIff` gives the exact condition under which the deletion is still least-recently-used.
- A request id is percent-decoded, so a type may hold a slash. Then distinct descriptions share one place
  (`SlashedTwin`), below a directory level that scanner and cleaner do not enter.

## Model

| member | source | states |
|---|---|---|
| FileId.ParseOfPrint | src/cache_manager.rs:912-923 | parsing a printed name gives back everything the name carries; only the height of a file without a width is lost |
| FileId.RoundTrip | src/cache_manager.rs:912-948 | a description survives printing and parsing if and only if it has a width or no height, and a dash-free type not spelled like a known extension |
| FileId.SamePathIff | src/cache_manager.rs:934-948 | two parsed descriptions without a slash in their types are stored in one place, component by component, if and only if their names carry the same data |
| FileId.DistinctPaths | src/cache_manager.rs:934-948 | distinct canonical descriptions without a slash in their types are stored in distinct places |
| FileId.OneComponentIff | src/cache_manager.rs:941-948 | a path is the two directory levels and the printed name, as one component, if and only if the type holds no slash |
| FileId.SlashedTwin | src/cache_manager.rs:912-948 | every canonical description shares its place with another one that has one slash more, at the end of the type or beside a slash |
| FileId.DottedTwin | src/cache_manager.rs:912-948 | with a slash in the type, so does one that has `/.` more |
| FileId.AcceptedIff | src/cache_manager.rs:912-923 | an id is read as a description if and only if it has three parts, or five and more of which the rest is ignored, with the digest and the numbers in one of their spellings and the type's text |
| FileId.ParseU32Iff | src/cache_manager.rs:917-920 | a number is read from exactly an optional plus sign, any zeros and its decimal notation, below 2^32 |
| FileId.DecodeHashIff | src/cache_manager.rs:916 | a digest is read from exactly its forty hex digits in any letter case, after an optional `0x` |
| FileId.KnownTypes | src/cache_manager.rs:886-901 | the eight known extensions, each with the type it is read as |
| FileId.PrintOfParseIdempotent | src/cache_manager.rs:912-948 | for every accepted id, parse-then-print is stable after one round, whatever letter case, sign, zeros or trailing parts the id had |
| FileId.SplitOfFileName | src/cache_manager.rs:934-940 | a printed name splits at dashes into exactly digest, size, resolution if any, and type |
| FileId.PathInStaticRange | src/cache_manager.rs:944-952 | the two directory levels of a path are the two halves of its static range, and the first four characters of its name |
| FileId.WrittenPathsAreWellNamed | src/cache_manager.rs:683-691 | the name of a written path parses to a description with the same path; the path is that of a listed file if and only if the type holds no slash |
| CacheManager.CacheManager.RemoveCache | src/cache_manager.rs:349-368 | removes exactly the file of the description; count, size and gauges still equal those of the disk, so no counter went below zero; `oldest` is untouched |
| CacheManager.CacheManager.ImportCache | src/cache_manager.rs:315-347 | puts the file in place, also over an existing one, with counts and gauges right; a new range starts at the current time; the bound on times survives if and only if the file is not older than it |
| CacheManager.CacheManager.OldImportBreaksBound | src/cache_manager.rs:315-347 | importing, into an empty cache at second 100, a file last written at second 99 leaves the index right and `oldest` wrong |
| CacheManager.CacheManager.MarkRecentlyAccessed | src/cache_manager.rs:419-427 | changes one modification time; the bound survives if and only if the clock is not behind it |
| CacheManager.CacheManager.ScanEntry | src/cache_manager.rs:489-562 | one file task deletes its entry exactly if the name parses and the size differs from the one in it or, when verifying, the digest does; it skips a name that does not parse and counts the rest |
| CacheManager.CacheManager.ScanRange | src/cache_manager.rs:465-564 | for every completion order, from a mismatched directory exactly the files of wrong size, or when verifying of wrong digest, are gone, and the entry has count, size and minimum time of the rest; a matching one is untouched; without foreign entries a second scan finds a match |
| CacheScan.ScanOrderIrrelevant | src/cache_manager.rs:487-564 | two completion orders of the file tasks end in the same table |
| CacheManager.CacheManager.ScanCache | src/cache_manager.rs:429-592 | scans exactly the directories that exist; in one with as many entries as saved nothing changes, from every other exactly the files of wrong size, or when verifying of wrong digest, are gone, so a verifying scan leaves only intact files there; afterwards table, bounds and gauges are right about the whole disk if and only if no entry without a directory claims files and every saved state that was taken as it is was right; entries without a directory stay; gauges are the table's sums; every range has a directory if and only if that was so before; with no directory and more than twenty ranges it fails |
| CacheScan.RightEverywhereIff | src/cache_manager.rs:432-465 | a table is right about the disk if and only if it is right about every directory and claims nothing for ranges without one |
| CacheManager.CacheManager.StaleEntryStays | src/cache_manager.rs:432-590 | an entry of five files whose directory is gone survives the scan, and the gauges show its five files |
| CacheManager.CacheManager.Totals | src/cache_manager.rs:580-584 | the sums of the table's size and count columns |
| CacheIndex.TableAddsUp | src/cache_manager.rs:580-595 | where the table is right about every range, its columns add up to the bytes and the number of all files on disk |
| CacheManager.CacheManager.SortedFiles | src/cache_manager.rs:648-673 | lists each file of a directory once, by modification time |
| CacheManager.CacheManager.DeleteFiles | src/cache_manager.rs:675-694 | deletes a prefix of the listing, none newer than the cut-off, stops only at a newer file or with enough freed, and without the last deleted file too little was free |
| CacheManager.CacheManager.CleanOnce | src/cache_manager.rs:623-701 | one round works on a range with the smallest `oldest` and, unless enough is free before, deletes exactly its files up to that time plus 30, 7, 3 or 1 days, as it is more than 180, 90, 30 days old or less; it records the first time left; it keeps the bound, leaves no survivor anywhere older than a victim by more than 30 days, or 7, 3, 1 days in a cache of at most 180, 90, 30 days, and deletes a file or settles a range |
| CacheCleaner.RoundIsLawful | src/cache_manager.rs:634-699 | every round over a listing is one told by the files alone: the sweep up to the cut-off of its age, and the recorded second that of the first file left, of the last there was, or of the clock |
| CacheCleaner.PassNearlyLru | src/cache_manager.rs:634-694 | deleting a prefix of the oldest range up to its cut-off is least-recently-used across all ranges, up to that round's own offset |
| CacheManager.CacheManager.Clean | src/cache_manager.rs:622-702 | the loop ends, with the wanted bytes freed, by a lexicographic measure; survivors are at most 30 days older than victims, and 7, 3 or 1 days if the cache is never more than 180, 90 or 30 days old |
| CacheManager.CacheManager.WantedBytes | src/cache_manager.rs:594-620 | the bytes to free, computed from the table |
| CacheCleaner.RaisedNeed | src/cache_manager.rs:594-620 | zero if and only if the cache is within its limit and at least 100 MiB of disk are free; else the excess plus the shortage, and at least 100 MiB |
| CacheManager.CacheManager.CheckCacheUsage | src/cache_manager.rs:594-702 | within the limit and without a shortage a run changes nothing; otherwise it frees at least the raised need and the shortage, ends within the limit, frees less than the need plus the last deleted file, and leaves survivors at most 30 days older than victims, 7, 3 or 1 days if the cache is never more than 180, 90 or 30 days old |
| CacheManager.CacheManager.CleanerNeverEnds | src/cache_manager.rs:594-702 | when the raised need of a run exceeds the bytes on disk, its loop goes through any number of rounds, each one a round of the cleaner, and wants more after every one of them |
| CacheCleaner.ShortForever | src/cache_manager.rs:622-694 | the same for every history of rounds, whatever ties and listings it met |
| CacheCleaner.FixpointIff | src/cache_manager.rs:623-699 | a round changes nothing if and only if its range holds no cached file and its `oldest` is already the second of its newest stray or, if it is empty, of the clock |
| CacheCleaner.StuckForever | src/cache_manager.rs:622-701 | in every history that starts with the only oldest range stuck on a stray, no round frees a byte or changes a bound |
| CacheCleaner.OneStrayIsEnough | src/cache_manager.rs:683-699 | one stray alone in the oldest range gives such a history of every length |
| CacheCleaner.PassSettles | src/cache_manager.rs:676-698 | a pass that deletes nothing shrinks the set of unsettled ranges |
| CacheRuns.Run | src/cache_manager.rs:315-702 | over every run of imports, accesses, removals and cleaner rounds, each with its full effect on files, bounds and directories, the index stays right, the bound holds, and no file present later is older than a file an earlier round deleted by more than the offset of that round, which is 1, 3 or 7 days in a cache of at most 30, 90 or 180 days |
| CacheInterleaving.StepKeepsCore | src/cache_manager.rs:622-694 | between any two awaits of a round, imports, accesses and removals keep the bound, and every deleted file was, by the time the cleaner had read, within the offset of every file left then or later |
| CacheInterleaving.FinishKeepsCoreIff | src/cache_manager.rs:676-699 | the end of a round keeps the bound if and only if no file it does not know of is older than the recorded second |
| CacheInterleaving.TimelyRunKeepsCore | src/cache_manager.rs:622-702 | in every interleaving in which no new file comes into a range while its directory is read, bound and approximate order hold throughout |
| CacheInterleaving.UntimelyImportBreaksBound | src/cache_manager.rs:648-699 | an import into an empty directory after its listing, in a second before the clock is read, makes `oldest` wrong |
| CacheInterleaving.DeleteIsLruIff | src/cache_manager.rs:677-693 | by its present time a deletion is least-recently-used up to the offset if that time is within the cut-off, and only then if a file is left at the round's `oldest` |
| CacheInterleaving.UndividedRoundIsARun | src/cache_manager.rs:622-699 | every round as `CleanOnce` states it is a run of the divided steps with nothing in between, so the two models agree |
| CacheInterleaving.RemovedFirst | src/cache_manager.rs:349-352 | a listed file that was removed in the meantime is passed over and not counted as evicted |
| CacheInterleaving.AccessedFileIsDeleted | src/cache_manager.rs:652-693 | an access past the cut-off after the time was read does not save the file |
| FileReader.FileReader.Read | src/file_reader.rs:50-69 | a read advances by what it gave, gives nothing only at the end, returns the file after an I/O error and loses it with the task |
| FileReader.FileReader.Seek | src/file_reader.rs:71-98 | moves the position or leaves it; fails on a busy reader |
| FileReader.FileReader.PollNext | src/file_reader.rs:104-131 | a pending read is resumed, never repeated; an empty read ends the stream; a lost task fails and is not to be polled again |
| FileReader.FileReader.Drain | src/file_reader.rs:101-132 | any run of polls yields a contiguous stretch of the file, and all the rest if it reaches the end; it goes on for the asked number of polls, to the end or to a lost task; without errors nothing fails, and more ready polls than bytes left reach the end |
| TruncateBody.TruncateBody.PollFrame | src/server/util.rs:115-140 | passes a frame on, cut at the limit, and lowers the limit by what was sent |
| TruncateBody.Truncated | src/server/util.rs:146-156 | the wrapper's bounds stay ordered and bracket the cut length for every length the inner bounds bracket |
| TruncateBody.TruncatedIsTight | src/server/util.rs:146-156 | the wrapper's bounds admit exactly the cut lengths of what the inner bounds admit; an exact hint stays exact |
| TruncateBody.Pump | src/server/util.rs:107-157 | over every frame sequence exactly the first min(limit, total) bytes are emitted, and before every poll the hint brackets what is still to come |
| Serving.ReadAndHash | src/cache_manager.rs:262-300 | for every offset and every read size the whole file is hashed while exactly the file from the offset on is sent |
| Serving.ServeUnchecked | src/cache_manager.rs:246-255 | a stream of the file from the offset if the seek works, else from the start; all of it in an environment without failures and with enough polls |
| Serving.GetFile | src/cache_manager.rs:215-313 | found exactly with the promised size; recent files are served unhashed, from the offset if the seek works; others are hashed in full and deleted exactly when the digest is wrong; without failures and with enough polls the stream is all of the file from there on, on both paths |
| Serving.ContentRangeReads | src/route/cache.rs:132 | what is sent as Content-Range reads back as first position, last position and complete length |
| Serving.Respond | src/route/cache.rs:96-147 | one valid range, without a differing If-Range and without a failed seek to a non-zero start, gives 206, everything else 200; on either read path and for every chunking the Content-Range of a 206 reads as s, e and the file's size, Content-Length is e - s + 1, and without failures and with enough polls the body is exactly content[s..=e], or the whole file with 200 |
| Download.ReceivingKeepsWorker | src/route/cache.rs:248-264 | a chunk never makes the slice index go below zero, and its new bytes are queued right behind the accepted ones |
| Download.StepKeepsOk | src/route/cache.rs:196-336 | every step of worker, file system and readers keeps the invariant, extends the file and extends the hashed bytes |
| Download.RunKeepsOk | src/route/cache.rs:196-336 | over every interleaving: no slice panic, append-only temp file, the first `progress` bytes are the hashed ones |
| Download.ResumedDownloadIsSeamless | src/route/cache.rs:199-265 | if all sources serve one content, then after any attempts, chunkings and failures the temp file is a beginning of it |
| Download.AtMostThreeAttempts | src/route/cache.rs:203-235 | no run makes more than three attempts |
| Download.ReadersSendTheFile | src/route/cache.rs:305-336 | every reader has sent exactly the first `read_off` bytes of the temp file, and exactly `file_size` bytes when it left at the end of the file |
| Download.FinishedReaderSentTheContent | src/route/cache.rs:305-336 | if the sources serve a content of the promised size, a finished reader sent the content |
| Download.ReaderCanCatchUp | src/route/cache.rs:313-334 | once written bytes are visible, a reader can read in pieces of any sizes up to the published progress, or to the promised size if it comes first; it then has sent everything up to there, and has left exactly at the promised size |
| Download.ImportGate | src/route/cache.rs:266-289 | what is imported has the promised size and digest, is what finished readers sent, and no receiver from before the entry's removal is left |
| DownloadEnding.LastStepsImport | src/route/cache.rs:276-282 | with no receiver left and the right digest, the two waits, the removal and the import follow one another, and the file is imported as it is |
| DownloadEnding.ImportPossibleIff | src/route/cache.rs:266-289 | from a complete file, with any receivers still reading, some run imports it if and only if the digest is right; no run imports anything else |
| DownloadEnding.OverStaysOver | src/route/cache.rs:266-295 | after the last byte, or after giving up with all writes landed, no run changes file or digest |
| DownloadEnding.ImportingRun | src/route/cache.rs:196-282 | every content can be downloaded and imported under its own digest and size |
| DownloadEnding.WorkerCanEnd | src/route/cache.rs:196-295 | from every reachable state the worker can come to its end |
| DownloadEnding.ReaderGoesOn | src/route/cache.rs:305-336 | in every run a reader keeps what it has sent and never comes back once it is gone |
| DownloadEnding.SubscriberServedBeforeImport | src/route/cache.rs:276-280 | a client that subscribed before the entry's removal is gone whenever the file is being or has been imported |
| DownloadEnding.NewReaderCanFollow | src/route/cache.rs:163-170 | before the import a new client can join and, once written bytes are visible, read all that is published, in pieces of any sizes |
| DownloadRegistry.EntryAfter | src/route/cache.rs:154-176 | a download begins if and only if its hash has no entry, and then has one; an event takes an entry out if and only if it removes the entry of a download of that hash, drops the guard of one, or is a failed wait for it |
| DownloadRegistry.EntryHolds | src/route/cache.rs:154-170 | in every run without such an event the entry keeps its owner and no second download of the hash begins |
| DownloadRegistry.SecondDownloadNeedsRelease | src/route/cache.rs:154-170 | between two downloads of one hash the first one's entry was released |
| DownloadRegistry.EntriesNeverLeak | src/route/cache.rs:151-298 | in every interleaving of requests and downloads, with cancellation anywhere, each entry belongs to a download whose guard is alive and which has not removed it |
| DownloadRegistry.NothingLeftWithoutGuards | src/route/cache.rs:172-176 | when all guards are gone the map is empty |
| DownloadRegistry.MapCanEmpty | src/route/cache.rs:172-295 | from every reachable state some run ends all downloads and empties the map |
| DownloadRegistry.DownloadProceeds | src/route/cache.rs:192-295 | every run of one download can take place beside all the others |
| DownloadRegistry.ContentCanBeImported | src/route/cache.rs:151-298 | while its hash has no entry, any content can be downloaded: it is imported as it is, and neither entry nor guard stays |
| DownloadRegistry.ImportedFilePasses | src/route/cache.rs:278-280 | a file imported in any run passes the size and digest checks of serving and scanning |
| DownloadWorker.Worker.Receive | src/route/cache.rs:248-264 | one chunk of the loop is a run of the machine; progress becomes the larger of progress and bytes received |
| DownloadWorker.Worker.WriteAll | src/route/cache.rs:256-264 | only a full write is hashed, counted and published |
| DownloadWorker.Worker.TryOnce | src/route/cache.rs:203-290 | an attempt that delivers the missing bytes completes the file; a broken one leads to the next attempt |
| DownloadWorker.Worker.Run | src/route/cache.rs:196-295 | the loop's variables are those of a machine run; if one of three honest attempts delivers the content and the disk works, the file is the content |
| DownloadWorker.Worker.Fetch | src/route/cache.rs:196-295 | the whole task: what is imported has the promised size and digest, and if one of three honest attempts delivers the content and the disk works, the content is imported if and only if it has the expected digest |
| FloodControl.SweepLagIsExact | src/server/util.rs:59-68 | forgetting a ten-second-old entry is invisible if and only if the re-read clock lags by at most one second |
| FloodControl.FloodControl.Hit | src/server/util.rs:58-90 | answers and counts like the never-swept ledger; every counter is at most ten, and ten only under a block or sixty seconds later, so the `u8` sum fits |
| FloodControl.Serve | src/server/util.rs:50-90 | over every well-timed run of all addresses the answers equal those of a version that never cleans |
| FloodControl.AddressesAreIndependent | src/server/util.rs:71-89 | the answers to one address in an interleaved run are those to its hits alone |
| FloodControl.TableFollowsBucket | src/server/util.rs:58-90 | what the table tells an address is what its own bucket says |
| FloodControl.AcceptedFitsRoom | src/server/util.rs:71-89 | from any state of a bucket, blocked or not, the accepted hits are at most nine less its level plus the seconds since its last hit |
| FloodControl.RateBound | src/server/util.rs:71-89 | of all hits of one address in any window, across refusals and blocks, at most nine plus the whole seconds of the window are accepted |
| FloodControl.TableRateBound | src/server/util.rs:58-90 | the same bound for the answers in an interleaved run |
| FloodControl.NineAtOnce | src/server/util.rs:76-86 | nine hits at one instant are accepted and the tenth is refused, so the bound is reached |
| FloodControl.SpacedNeverRefused | src/server/util.rs:76-89 | hits at least one second apart are never refused |
| FloodControl.BlockLastsSixtySeconds | src/server/util.rs:71-89 | when a run of refusals starts at t every hit before t + 60 s is refused, and the first hit from then on is accepted |

## Left out

- Network, TLS, QUIC, certificates and HTTP/3: library plumbing.
- RPC, settings refresh, server commands, keepalive, command line, logging, metrics registration and the tray icon: thin logic.
- Request signature, If-None-Match and the other headers of `hath`; Range-header parsing: they would only add easy members.
- `random_response`, the cached date header, the connection gauge and the gallery downloader: easy members.
- Loading and saving the state file, deletion of directories outside the static ranges, and the low-disk start-up decision.
- Sub-directories inside a range directory, which the scan only warns about.
- Failures of file operations in the index (metadata, delete, rename, size): assumed not to happen.
- A limit changed while the cleaner runs. In `CacheInterleaving`: counts, sizes, strays, and imports that do not carry the current time.
- DistinctPaths: excludes types with a slash, for which `SlashedTwin` shows it false.
- ImportCache: excludes types with a slash, as do the other index operations, `GetFile` and `Respond`: such a file lies below a further directory that the index does not list.
- OneComponentIff: separators are those of Unix paths, and `..` is not resolved.
- Use of the proxy and the rotation of source addresses between attempts: which source serves an attempt is free.
- At most one worker per hash at any time: not stated, because entries are removed by hash and a newer entry can be dropped; `SecondDownloadNeedsRelease` is what holds.
- A request that cloned an entry, subscribes late and opens the temp file after the import: not excluded by the code, so not claimed.
- Overflow of 64-bit counters and of timestamps near the ends of their range.
