# BDUTS load balancer: a verified model

BDUTS is an HTTP load balancer with a page cache. This project models its two cores and the concurrency
inside each of them, and proves what they keep.

**The page cache** stores a page in three places that have to agree: a bucket with metadata and a use
counter in a bolt database, a file below four levels of hash-named directories, and its size in a running
byte counter. Inserts, lookups, removals, cleaning passes, clears and restarts change these stores in
separate steps, any of which can fail.

**The server pool** scans its backends cyclically for an alive one; each backend limits its requests in
flight by a bounded channel; a request handler retries after a full channel or a failed backend.

Each core appears in several forms:

| file | form |
|---|---|
| `Tally`, `UseCounter`, `GoStrings` | sums of finite maps; the 4-byte counter; the string functions the parser calls |
| `CacheControl`, `RequestDirectives`, `ResponseDirectives` | Cache-Control parsing: the loaders as methods with loops, and what a header means |
| `PageTree` | paths, directories, the upward clean-up, writes that stop half way |
| `CacheModel` | the cache as a value, every operation as a function of it, and the properties of each |
| `CachingProperties` | the class with its fields and loops, each method proved against `CacheModel` |
| `KeyHistory`, `CacheRuns` | whole sequential runs: plain-map refinement, freshness, the use counter, restarts |
| `CacheInterleaving` | one step per transaction, atomic addition and file access, in any interleaving: accounting and capacity |
| `CacheRaces` | the same steps: when buckets keep their pages, and when lookups are safe |
| `CacheAlone` | one goroutine's steps alone are the operations of `CacheModel` |
| `RoundRobin` | sequences of picks: fairness, starvation, removals |
| `ServerPool` | the classes with the slot channel and the scanning loop |
| `BackendHandler` | the failover loop alone on the pool |
| `HandlerInterleaving` | handlers, health checks and pool changes, in any interleaving |

`dafny verify dfyconfig.toml` checks all of it.

## What the proofs say about the code

Most of what the code is for holds for all inputs and all runs. Where it does not, the model follows the
code, and the exact condition is proved.

- **Expired pages are never removed.** `cache/cacheCleaner.go:89-90` copies each key into a slice of length
  zero, so the first cleaning loop asks for the key "" and removes nothing, against its documentation at
  lines 68-71. `DeleteExpiredCache` and `Observe` take a flag: `fullCopy` false is the code, `fullCopy` true
  the documented behaviour with the copy of lines 138-143. `CleanedUpOutcome` states both: as coded, a tick
  leaves no expired page exactly if every expired page weighs, together with the pages used more than it,
  more than the fill limit; `ExpiredPageSurvives` is a cache in which an unexpired page goes instead.
- **Joining Cache-Control headers** merges the loaded records exactly when the second header does not reset
  a number that the first one sets, because an explicit zero is stored as the default (for responses
  `ResponseJoined` and `ZeroAgeIsLost`, for requests `RequestJoined` and `ZeroStaleIsLost`). On what headers
  *say*, joining is a homomorphism without exception (`DeltaJoined`, for either kind).
- **A failed write drops the bucket even if an earlier insert had made it** (`cache/insert.go:45-48`).
- **A write that fails before its file is opened leaves directories behind**; the tree then has exactly the
  prefixes of its pages if and only if those directories lead to other pages (`WriteKeepsTree`).
- **`ClearCache` lowers the counter inside a transaction that may be rolled back**; the counter stays right
  exactly if every bucket has its page or the buckets listed before the first one without page are all of
  size zero (`ClearCache`).
- **A restart recounts the counter's value** exactly if every bucket without page is of size zero
  (`RecountAgrees`); sequential runs never reach such a bucket (`RestartRecovers`).
- **Concurrent removal and insert of one key** can end with a bucket without page. It takes a new bucket
  committed while a removal of the key is between its deletion and its unlinking: without such a commit
  every bucket has its page whenever nothing is in flight (`EveryBucketHasItsPage`), and after any such commit
  the page can be lost (`OvertakingLosesPage`, `RemoveOvertaken`). The next fresh lookup repairs it
  (`LookupHeals`).
- **A lookup uses a nil bucket** exactly if its key has no bucket at its second transaction, which takes a
  deletion of that bucket since the first (`LookupCrashes`, `CrashNeedsDeletion`, `OnlyDeletionsCrash`).
- **Concurrent inserts may exceed the maximal size** by up to (n - 1) * M bytes, and the bound is reached
  (`CapacityBound`, `BoundIsReached`).
- **Removing a server leaves the pointer where it is**, so a server can be passed over, exactly in the case
  of `PassedOver` (`RemovalSkips`).
- **A 503 with an alive server in the pool at every moment** is possible when health checks change servers
  during a scan (`UnavailableThoughLive`). Every server that is alive then was dead and was revived since the
  scan began (`UnavailableMeansAllDead`); health checks that find live servers alive do no harm.
- **A backend can get a request twice** (`RevivedGetsItTwice`), but only if it was revived since the request
  arrived (`NeverTwice`).
- Cache-Control is split at `;`, `max-age=0` means unlimited, `max-stale` counts nanoseconds, and numbers
  wrap and saturate as Go's `Atoi` and `time.Duration` do. The model reads headers as the code does.

## Model

| member | source | states |
|---|---|---|
| UseCounter.RoundTrip | cache/read.go:81-88 | little-endian encoding and decoding of the counter are inverse in both directions |
| UseCounter.LeastFirst | cache/read.go:87 | byte i of the stored counter is the digit of weight 256^i |
| UseCounter.Incremented | cache/read.go:86-88 | the stored bytes after one more use decode to the old value plus one, modulo 2^32 |
| GoStrings.SplitJoined | cache/cache.go:338 | splitting a joined text gives the pieces of both parts in order: the separator is a boundary |
| GoStrings.SplitWhole | cache/cache.go:338 | a text without separator is one piece |
| GoStrings.TrimPrinted | cache/cache.go:339-341 | trimming undoes the space that a printed list puts before a piece |
| GoStrings.SpacesTrimmed | cache/cache.go:339-341 | trimming takes all spaces at both ends and nothing else, for any text |
| GoStrings.ContainsAnywhere | cache/cache.go:354 | a text contains each of its stretches |
| GoStrings.ContainedAt | cache/cache.go:354 | and nothing but its stretches |
| GoStrings.CutNothing | cache/cache.go:355 | without a separator there is nothing after it |
| GoStrings.AtoiOfDigits | cache/cache.go:356 | digits with or without a sign give the nearest int64 |
| GoStrings.AtoiOfOther | cache/cache.go:356 | no digits, or something else after digits that fit, give zero |
| GoStrings.CutPrefix | cache/cache.go:355 | cutting `name=value` at the first `=` gives the value |
| GoStrings.LastIndexByte | cache/remove.go:80 | the greatest position holding the byte, or -1 if there is none |
| GoStrings.AtoiPrinted | cache/cache.go:412 | every printed number that fits an int64 is read back, through the parser's overflow tests |
| GoStrings.BeforeIsTotal | cache/cache.go:231-232 | the order of a bolt cursor: of two different keys exactly one comes first |
| GoStrings.BeforeAtDifference | cache/cache.go:231-232 | the smaller character at the first difference comes first, and a key before its extensions |
| GoStrings.First | cache/cache.go:231-232 | every non-empty set of keys has a first one in that order |
| CacheControl.SplitAndTrim | cache/cache.go:389-393 | trimming the slice in place gives the trimmed pieces in order |
| CacheControl.Deadline | cache/cache.go:416 | up to 9223372036 seconds the deadline is that many thousand million nanoseconds from now |
| CacheControl.Wrap64 | cache/cache.go:416 | the identity on int64, and always congruent modulo 2^64 |
| CacheControl.PaddedPiece | cache/cache.go:338-341 | a header of one piece with spaces around it has that piece |
| CacheControl.TrimmedJoined | cache/cache.go:389-393 | `a;b` has the pieces of `a` followed by those of `b` |
| CacheControl.PiecesListed | cache/cache.go:389-393 | any non-empty list of plain pieces is read back from its written form |
| CacheControl.NumberedPiece | cache/cache.go:411-412 | a name and a printed number make a piece whose age is the number |
| RequestDirectives.LoadRequestDirectives | cache/cache.go:326-375 | the loop over the pieces computes the record that RequestMeaning, RequestFlagsNamed, MaxAgeNamed, MaxStaleNamed, MinFreshNamed and NumbersUnnamed determine for any header |
| RequestDirectives.RequestMeaning | cache/cache.go:326-375 | for any header the record is the default with every flag named anywhere and the last max-age, max-stale and min-fresh |
| RequestDirectives.RequestFlagsNamed | cache/cache.go:343-351 | each flag is up if and only if some trimmed piece is its name |
| RequestDirectives.MaxAgeNamed | cache/cache.go:354-361 | the last piece containing `max-age` sets the end: its number in seconds from now, zero meaning the year 9970 |
| RequestDirectives.MaxStaleNamed | cache/cache.go:362-365 | the last `max-stale` not in a `max-age` piece is the allowance in nanoseconds |
| RequestDirectives.MinFreshNamed | cache/cache.go:366-369 | the last `min-fresh` in a piece with neither other name is that many seconds from now |
| RequestDirectives.NumbersUnnamed | cache/cache.go:327-335 | numbers that no piece names are year 1, zero and year 1 |
| RequestDirectives.NumbersInUnits | cache/cache.go:354-370 | `max-age=n` and `min-fresh=n` are n * 1000000000 from now, `max-stale=n` is n |
| RequestDirectives.NothingAsked | cache/cache.go:327-335 | a request without Cache-Control asks for nothing |
| RequestDirectives.DeltaJoined | cache/cache.go:326-375 | what a request header says is a homomorphism from joining to combining |
| RequestDirectives.RequestJoined | cache/cache.go:326-375 | the record of `a;b` updates that of `a`, and is the merge of the two records if and only if `b` does not reset a number set by `a` |
| RequestDirectives.ZeroStaleIsLost | cache/cache.go:362-365 | the failing family: `max-stale=n` joined with `max-stale=0` allows nothing, the merged records allow n |
| RequestDirectives.RequestFlagsAreTimeless | cache/cache.go:326-375 | flags and max-stale are the same at whatever time the header is loaded |
| RequestDirectives.TokensPrinted | cache/cache.go:337-371 | printing any non-empty list of tokens and reading it back gives the list |
| RequestDirectives.WishesRoundTrip | cache/cache.go:326-375 | loading a printed request record gives back all flags and numbers |
| ResponseDirectives.LoadResponseDirectives | cache/cache.go:377-431 | the loop over the pieces computes the record that ResponseMeaning, ResponseFlagsNamed, MaxAgeNamed, SMaxAgeNamed and LifetimesUnnamed determine for any header |
| ResponseDirectives.ResponseMeaning | cache/cache.go:377-431 | for any header the record is the default with every flag named anywhere and the last lifetime of each kind |
| ResponseDirectives.ResponseFlagsNamed | cache/cache.go:395-407 | each flag is up if and only if some trimmed piece is its name |
| ResponseDirectives.MaxAgeNamed | cache/cache.go:410-417 | the last piece containing `max-age` sets the end: its number in seconds from now, zero meaning the year 9970 |
| ResponseDirectives.SMaxAgeNamed | cache/cache.go:418-425 | the last `s-maxage` not in a `max-age` piece sets the shared end, zero meaning year 1 |
| ResponseDirectives.LifetimesUnnamed | cache/cache.go:378-387 | lifetimes that no piece names are 252458294400 seconds after the epoch and year 1 |
| ResponseDirectives.LifetimeInSeconds | cache/cache.go:416 | `max-age=n` and `s-maxage=n` end n * 1000000000 nanoseconds from now |
| ResponseDirectives.ResponseFlagsAreTimeless | cache/cache.go:377-431 | flags are the same at whatever time the header is loaded |
| ResponseDirectives.AppliedInTurn | cache/cache.go:394-427 | applying what two headers say one after the other is applying their combination |
| ResponseDirectives.TokensJoined | cache/cache.go:389-393 | `a;b` has the tokens of `a` followed by those of `b` |
| ResponseDirectives.DeltaJoined | cache/cache.go:377-431 | what a header says is a homomorphism from joining to combining: flags OR-ed, the later lifetime wins |
| ResponseDirectives.ResponseJoined | cache/cache.go:377-431 | the record of `a;b` is the merge of the two records if and only if `b` does not reset a lifetime limited by `a` |
| ResponseDirectives.ZeroAgeIsLost | cache/cache.go:413-414 | the failing family: a limited `max-age` joined with `max-age=0` is unlimited, the merged records are limited |
| ResponseDirectives.TokensPrinted | cache/cache.go:389-427 | printing any non-empty list of tokens and reading it back gives the list |
| ResponseDirectives.PolicyRoundTrip | cache/cache.go:377-431 | loading a printed policy with positive lifetimes gives back all flags and both deadlines |
| PageTree.MakePath | cache/cache.go:298-313 | cutting the key and joining the segments gives the path of the key's deepest directory |
| PageTree.PathSpelled | cache/cache.go:298-313 | the path is `./cache-data/db` and the key in four stretches of ten characters |
| PageTree.PathsDiffer | cache/cache.go:298-313 | paths of directories are equal strings exactly when they are the same directory, for any two keys and depths |
| PageTree.PathAbove | cache/remove.go:80 | cutting at the last slash goes up exactly one level |
| PageTree.IsPagesPath | cache/remove.go:76 | the loop's string comparison holds exactly at the top directory |
| PageTree.NodeAt | cache/remove.go:72-81 | a path string determines the directory it stands for |
| PageTree.OnTheWayNotEmpty | cache/remove.go:77-79 | a directory above a stored page is never empty, so no removal can take it |
| PageTree.PrunedExact | cache/remove.go:76-82 | the upward loop restores exactly the prefixes of the remaining pages and succeeds if and only if no page shares the first segment |
| PageTree.PrunedClosed | cache/remove.go:76-82 | the loop never makes a stored page unreachable, whatever else is in the tree |
| PageTree.RemoveKeepsExact | cache/remove.go:59-83 | removing a stored page keeps the tree exact and all other pages, and returns nil if and only if no other page shares the first ten characters of the key |
| PageTree.RemoveAbsent | cache/remove.go:72-74 | removing a page that is not there is an error and changes nothing |
| PageTree.RemoveKeepsClosed | cache/remove.go:59-83 | with left-over directories and for absent pages too, every page stays reachable |
| PageTree.WriteMakes | cache/insert.go:93-101 | a write makes all four directories, or those before the one that failed |
| PageTree.WriteKeepsTree | cache/insert.go:87-110 | a write keeps all pages reachable however it ends; an exact tree stays exact if the file was opened, and otherwise if and only if the directories made lead to other pages |
| CacheModel.RecountAgrees | cache/cache.go:181-220 | a recount finds the counter's value if and only if all buckets without page have size zero |
| CacheModel.TotalSubset | cache/cache.go:205-211 | summing fewer buckets gives no more, and the same exactly if the rest weigh nothing |
| CacheModel.InsertAnswers | cache/insert.go:24-51 | when an insert is too large, refused, fails in the database or on disk, or stores its page: each if and only if, from sizes, header pieces, method, commit and write |
| CacheModel.SaveAnswers | lb/saveToCache.go:12-14 | an answer is not passed on if and only if its status is below 200 or from 400 up |
| CacheModel.InsertedValid | cache/insert.go:24-51 | an insert with any outcome of commit and disk keeps counter = sum, keeps every bucket with its page, and does not exceed maxFileSize |
| CacheModel.LookupAnswers | cache/read.go:28-56 | missed, not fresh, no page, damaged or a hit: each if and only if, from bucket, deadlines, request numbers, clock and file |
| CacheModel.LookedUpValid | cache/read.go:19-56 | a lookup keeps counter and sum equal and touches no file; a bucket found without page is gone and uncounted afterwards |
| CacheModel.RemovedPageEffect | cache/remove.go:15-27 | a removal takes exactly the key's bucket and page, also when the directory clean-up reports an error |
| CacheModel.SweepEffect | cache/cacheCleaner.go:107-115 | a cleaning loop takes exactly the listed buckets and their pages |
| CacheModel.SweepConserves | cache/cacheCleaner.go:107-121 | the counter's drop is the bytes reported plus the sizes of the pages whose disk deletion failed |
| CacheModel.SweepFailures | cache/remove.go:76-79 | which deletions fail: exactly those of pages that share their first segment with a page still on disk at their turn |
| CacheModel.SweepAbsent | cache/cacheCleaner.go:108-113 | keys without bucket change and report nothing |
| CacheModel.NoShorterFits | cache/cacheCleaner.go:157 | if a prefix of the order does not make the cache fit, no shorter one does |
| CacheModel.EvictingAllFits | cache/cacheCleaner.go:157-164 | evicting everything makes the cache fit, so the loop cannot end still too full |
| CacheModel.EvictionBound | cache/cacheCleaner.go:124-171 | the cache fits afterwards, was too full before every single eviction, and no evicted page was used more than a kept one |
| CacheModel.ExpiresInSeconds | cache/cache.go:322-324 | a page received with `max-age=n` expires after n seconds, whatever its s-maxage |
| CacheModel.CleaningPass | cache/cacheCleaner.go:40-62 | as documented: no expired page is left, the cache fits, and an unexpired page goes only if removing the expired ones was not enough |
| CacheModel.SizeAfter | cache/cacheCleaner.go:157-164 | after i evictions the counter is the sum of the sizes from place i of the order on |
| CacheModel.EvictedByWeight | cache/cacheCleaner.go:157-164 | a page is evicted if and only if it and the pages used more than it weigh more than the fill limit |
| CacheModel.EvictionOnlyPass | cache/cacheCleaner.go:89-90 | as coded: no expired page is left if and only if every expired page, with those used more, weighs more than the fill limit |
| CacheModel.NoPass | cache/cacheCleaner.go:43 | without a triggered pass the same condition says whether an expired page is left |
| CacheModel.ExpiredPageSurvives | cache/cacheCleaner.go:89-90 | for any two keys a cache in which the tick as coded evicts an unexpired page and keeps an expired one |
| CacheModel.StorableAtAnyTime | cache/insert.go:32-37 | whether a page may be stored does not depend on when the headers are loaded |
| CacheModel.NothingLost | cache/cache.go:231-249 | the bytes of the buckets before the first one without page are zero if and only if each of them is empty |
| CachingProperties.Copied | cache/cacheCleaner.go:138-143 | copying into a slice of the key's length gives the key; the result always has the target's length |
| CachingProperties.SortByUses | cache/cacheCleaner.go:152-154 | the items are permuted into ascending order of uses |
| CachingProperties.SortedIsUseOrder | cache/cacheCleaner.go:130-154 | any sorted permutation of the collected items lists every bucket once, by use counter |
| CachingProperties.CleanedUpOutcome | cache/cacheCleaner.go:40-62 | outcome of a triggered tick, with the full copy and as coded, both with the bound on the size |
| CachingProperties.SaveToCache | lb/saveToCache.go:11-34 | only statuses 200 to 399 are inserted; the state and the result are those of the specification |
| CachingProperties.CachingProperties.constructor | cache/cache.go:155-162 | the counter starts at zero over whatever the stores hold |
| CachingProperties.CachingProperties.IncrementSize | cache/cache.go:172-175 | the counter moves by delta |
| CachingProperties.CachingProperties.InsertPageInCache | cache/insert.go:24-51 | with a clock reading for each of the three header loads, refines `Inserted` in state and result; invariants and the size bound kept |
| CachingProperties.CachingProperties.StorePage | cache/insert.go:41-50 | bucket and file in turn; a failed file takes the bucket with it, an uncommitted bucket changes nothing |
| CachingProperties.CachingProperties.InsertPageMetadataToDB | cache/insert.go:53-85 | an existing bucket keeps metadata and counter (rollback) and is not counted again; a new one starts with zero uses |
| CachingProperties.CachingProperties.WritePageToDisk | cache/insert.go:87-110 | directory by directory, then the file, to any of the ends a write can have |
| CachingProperties.CachingProperties.RemovePageFromCache | cache/remove.go:15-27 | refines `RemovedPage`; reports an error if the disk step does, with bucket and size already gone |
| CachingProperties.CachingProperties.RemovePageMetadata | cache/remove.go:30-57 | deletes and uncounts exactly the key's bucket and returns its metadata |
| CachingProperties.CachingProperties.RemoveDirectory | cache/remove.go:77-79 | os.Remove on a directory: only if it exists and is empty |
| CachingProperties.CachingProperties.RemovePageFromDisk | cache/remove.go:59-83 | the string loop over shrinking paths refines the removal on directories |
| CachingProperties.CachingProperties.GetPageFromCache | cache/read.go:19-56 | refines `LookedUp` in state and answer; a valid cache with all pages keeps its counter |
| CachingProperties.CachingProperties.GetPageMetadata | cache/read.go:59-98 | a found bucket counts one use more, stale or not |
| CachingProperties.CachingProperties.CalculateSize | cache/cache.go:181-220 | the loop computes sum and number of the buckets that have their page |
| CachingProperties.CachingProperties.ClearCache | cache/cache.go:222-262 | succeeds if and only if every bucket has its page; the counter is right afterwards if and only if it succeeds or all buckets listed before the first one without page have size zero |
| CachingProperties.CachingProperties.BucketNames | cache/cache.go:231-232 | every bucket once, in ascending order of the keys |
| CachingProperties.CachingProperties.DeleteInOrder | cache/cache.go:232-248 | the loop stops at the first bucket without page, with the sizes before it subtracted and the buckets back |
| CachingProperties.CachingProperties.DeleteBuckets | cache/cache.go:231-249 | on a rollback the counter has lost exactly the sizes of the buckets that come, with all before them, with a page |
| CachingProperties.TakenIsClearedFirst | cache/cache.go:232-244 | what a cursor has passed at the first bucket without page depends on the stores only |
| CachingProperties.CachingProperties.IsSizeExceeded | cache/cacheCleaner.go:64-66 | exactly when the counter is above maxFileSize times the fill factor |
| CachingProperties.CachingProperties.CollectExpired | cache/cacheCleaner.go:81-101 | as documented the keys of exactly the expired pages; as coded only empty keys |
| CachingProperties.CachingProperties.DeleteExpiredCache | cache/cacheCleaner.go:72-122 | as coded nothing changes and -1 is returned; with the full copy exactly the expired pages go, and the counter drops by the bytes reported plus those of failed disk deletions |
| CachingProperties.CachingProperties.ItemsByUses | cache/cacheCleaner.go:130-154 | every bucket once, in ascending order of its counter |
| CachingProperties.CachingProperties.EvictInOrder | cache/cacheCleaner.go:156-170 | evicts the shortest prefix of the order that makes the cache fit |
| CachingProperties.CachingProperties.DeletePagesLRU | cache/cacheCleaner.go:124-171 | evicts the shortest prefix of a use-count order, ends within the fill limit, and the counter drops by the bytes reported plus those of failed disk deletions |
| CachingProperties.CachingProperties.Observe | cache/cacheCleaner.go:40-62 | every tick ends within the fill limit and changes nothing if the cache was within it |
| KeyHistory.Provenance | cache/insert.go:59-72 | through any history of a key the live bucket records what the save that made it recorded |
| KeyHistory.PageIsLastStored | cache/insert.go:98-109 | the page is that of the last completed save, not before the bucket's birth |
| KeyHistory.UsesCountLookups | cache/read.go:79-90 | the counter is the number of lookups since the bucket's birth modulo 2^32 |
| CacheRuns.StepGood | cache/insert.go:24-51 | every operation keeps counter = sum, reachability, page per bucket, and the size limit |
| CacheRuns.SaveRefinesMap | cache/insert.go:24-51 | a save puts the page into the map, drops it on a disk error, and changes nothing when rejected |
| CacheRuns.LookupEnds | cache/read.go:19-56 | with every page in place a lookup changes nothing but the key's counter, and hits if and only if the key is stored and fresh |
| CacheRuns.RefinesMap | cache/read.go:19-56 | every operation acts on the map of pages as a plain map would; a lookup hits if and only if the key is mapped and fresh, with the mapped page, never a damaged or missing file |
| CacheRuns.SaveStores | cache/insert.go:24-51 | a storable GET answered 200 to 399, with room and no fault, is always in the cache afterwards, over an existing page too |
| CacheRuns.PlainLookup | cache/read.go:28-56 | a request without Cache-Control hits until the recorded deadline and then no more |
| CacheRuns.ServedForItsLifetime | cache/read.go:44 | from save to lookup: a new page with `max-age=n` is served for n seconds to the nanosecond |
| CacheRuns.RunExists | lb/saveToCache.go:11-34 | every sequence of operations has a run, so the statements about runs are not empty |
| CacheRuns.RestartRecovers | cache/cache.go:181-220 | after every operation of every run the counter equals a full recount, and a restart is the identity |
| CacheRuns.NeverTooLarge | cache/insert.go:27-30 | no sequential run exceeds maxFileSize |
| CacheRuns.StepOnKey | cache/remove.go:15-27 | every operation, seen from one key, is one event of that key's history |
| CacheRuns.RunIsHistory | cache/read.go:19-56 | every run, seen from any key, is a history of that key |
| CacheRuns.BucketBorn | cache/insert.go:32-39 | a live bucket was made by a GET answered with 200 to 399 that neither side marked no-store and the origin did not mark private, and records those directives |
| CacheRuns.PageSaved | cache/insert.go:45-50 | the stored page is whole and is the one of the last completed save |
| CacheRuns.UsesCountLookups | cache/read.go:79-90 | in every run the stored counter is the number of lookups since the bucket was made, modulo 2^32, across stale lookups and re-inserts |
| CacheRuns.HitJustified | cache/read.go:28-46 | every hit of every run returns the last saved page, from an admissible birth, within the recorded deadline plus the allowed staleness |
| CacheInterleaving.StepWeight | cache/insert.go:53-85 | a step changes what is pending only by its own goroutine's share |
| CacheInterleaving.StepAccounted | cache/remove.go:30-57 | each single step keeps counter plus pending additions minus pending removals equal to the database sum |
| CacheInterleaving.CounterIsAccounted | cache/cache.go:172-175 | so does every interleaving; with nothing in flight the counter is exactly the sum |
| CacheInterleaving.CapacityBound | cache/insert.go:27-30 | with n inserts between test and count and bodies up to m bytes, counter and stored bytes stay within maxFileSize + (n - 1) * m |
| CacheInterleaving.OneAtATime | cache/insert.go:75-78 | one insert at a time never exceeds maxFileSize |
| CacheInterleaving.BoundIsReached | lb/saveToCache.go:17-33 | for any distinct unused keys and every m an interleaving within the window of that many inserts reaches the bound exactly |
| CacheRaces.StepPaged | cache/remove.go:15-27 | a step other than an overtaking commit keeps every bucket without page in some goroutine's hands |
| CacheRaces.EveryBucketHasItsPage | cache/insert.go:41-48 | without overtaking commits, in every interleaving, every bucket has its page whenever nothing is in flight |
| CacheRaces.OvertakingLosesPage | cache/remove.go:15-27 | after any overtaking commit some continuation leaves the new bucket without page |
| CacheRaces.RemoveOvertaken | cache/remove.go:15-27 | from an idle cache: a removal and an insert that end with a bucket without page and a right counter |
| CacheRaces.LookupHeals | cache/read.go:48-51 | a lookup then deletes that bucket and corrects the counter |
| CacheRaces.LookupCrashes | cache/read.go:79-81 | an interleaving in which counting the use meets a nil bucket |
| CacheRaces.StepSafe | cache/read.go:79-81 | a step makes lookups unsafe if and only if it deletes a bucket that a lookup has seen and not yet counted |
| CacheRaces.OnlyDeletionsCrash | cache/read.go:79-81 | in runs without such a deletion, whatever else is deleted, no lookup crashes |
| CacheRaces.CrashNeedsDeletion | cache/read.go:79-81 | a lookup crashes if and only if its bucket is missing at its second transaction, and then the bucket of its own key was deleted meanwhile |
| CacheAlone.InsertAlone | cache/insert.go:24-51 | the steps of an insert that no other interrupts do what `Inserted` does, for every end; it commits and writes exactly under the conditions on sizes, headers, method and faults |
| CacheAlone.RemoveAlone | cache/remove.go:15-27 | likewise for a removal and `RemovedPage`; it comes to the page file if and only if there is a bucket |
| CacheAlone.LookupAlone | cache/read.go:19-56 | likewise for a lookup and `LookedUp`; it comes to the page file if and only if the page is in time |
| RoundRobin.Next | backend/serverPool.go:124-137 | the pick is alive and no alive server is nearer after the pointer; none exactly if none is alive |
| RoundRobin.NextOfAll | backend/serverPool.go:124-137 | with all servers alive the pick is the next one in the list, the first after the last |
| RoundRobin.NextIsUnique | backend/serverPool.go:124-137 | only one server can be first in cyclic order |
| RoundRobin.ScanFinds | backend/serverPool.go:129-133 | a scan that passed dead servers only and meets an alive one has found the pick |
| RoundRobin.ScanEnds | backend/serverPool.go:136 | a scan of all positions without success has shown that none is alive |
| RoundRobin.NextRank | backend/serverPool.go:124-137 | picks go through the alive servers in cyclic order, skipping none |
| RoundRobin.PicksSuccessive | backend/serverPool.go:124-137 | each of many picks follows the one before it |
| RoundRobin.WindowPicksEachOnce | backend/serverPool.go:124-137 | any m calls in a row, m servers being alive, pick each alive server exactly once |
| RoundRobin.CountInRounds | backend/serverPool.go:124-137 | the exact number of picks of each rank after any number of calls |
| RoundRobin.PicksAreFair | backend/serverPool.go:124-137 | after any number of calls the pick counts of two alive servers differ by at most one |
| RoundRobin.OutageKeepsTurn | backend/serverPool.go:129-136 | a call that finds no server alive leaves the pointer where it was, or on the last server from outside the list, and the next call picks what it would have picked without it |
| RoundRobin.PicksAreCalls | backend/serverPool.go:124-137 | while the liveness does not change, the picks of successive calls, each from the pointer the one before left, are those of `Picks` |
| RoundRobin.NoStarvation | backend/serverPool.go:92-97 | with arbitrary liveness of the others and appended servers, a server that stays alive is picked within as many calls as the pool has servers at the end |
| RoundRobin.WaitShrinks | backend/serverPool.go:71-76 | each call that picks another server brings the pointer nearer |
| RoundRobin.RemovalSkips | backend/serverPool.go:110-122 | after a removal the next pick is the one due, if and only if the one due did not slide under the pointer with another server alive |
| ServerPool.Backend.constructor | backend/backend.go:29-38 | a new backend is dead and has an empty channel |
| ServerPool.Backend.AssignRequest | backend/backend.go:82-92 | a slot is taken if and only if the channel gets room before the timer; otherwise nothing changes |
| ServerPool.Backend.Free | backend/backend.go:94-101 | a slot is given back if there is one |
| ServerPool.Backend.SetAlive | backend/backend.go:114-118 | the liveness flag is set |
| ServerPool.ServerPool.constructor | backend/serverPool.go:31-38 | no server, pointer at -1 |
| ServerPool.ServerPool.IncrementCurrent | backend/serverPool.go:71-76 | one position on, back to the first from the last or beyond |
| ServerPool.ServerPool.AddServer | backend/serverPool.go:92-97 | appended at the end, the pointer unmoved |
| ServerPool.ServerPool.FindServerByUrl | backend/serverPool.go:100-107 | a server with the URL, or none exactly if there is none |
| ServerPool.ServerPool.RemoveServerByUrl | backend/serverPool.go:110-122 | exactly the first server with the URL goes, the order of the others and the pointer stay |
| ServerPool.ServerPool.GetNextPeer | backend/serverPool.go:124-137 | from any pointer a removal may leave, the scan stays in range, picks the first alive server in cyclic order, points to it, and fails only if none is alive, with the pointer then once around |
| ServerPool.ServerPool.DueIsAlive | backend/serverPool.go:124-137 | the server that is due is alive and in the pool; none is due if and only if all are dead |
| BackendHandler.TakeTurn | lb/lbHandlers.go:88-117 | one turn: the request goes to the first alive server after the pointer; a failed backend is dead afterwards and every slot is back |
| BackendHandler.TakeSomeTurn | lb/lbHandlers.go:88-117 | the same turn: no server exactly if none is alive |
| BackendHandler.Handle | lb/lbHandlers.go:87-117 | alone on the pool the loop ends, never sends twice to one backend, answers 503 if and only if every backend alive at the start was tried and failed, and leaves exactly the failed ones dead |
| HandlerInterleaving.StepKnown | backend/serverPool.go:92-122 | handlers and pool refer to existing backends only, also after removals |
| HandlerInterleaving.StepLocked | backend/serverPool.go:124-137 | one scan at a time; its pointer is where the number of servers looked at has brought it |
| HandlerInterleaving.StepSlots | backend/backend.go:82-101 | each step keeps every channel equal to the handlers holding its slots |
| HandlerInterleaving.SlotsAccounted | lb/lbHandlers.go:94-117 | in every interleaving occupancy = handlers between assign and free <= capacity, Free never finds the channel empty, and no slot is lost when all are done, however they ended |
| HandlerInterleaving.FullMeansHeld | backend/backend.go:82-92 | a channel is full, and not assignable, if and only if as many handlers hold its slots as it has |
| HandlerInterleaving.NoDeadlock | lb/lbHandlers.go:88-117 | an unfinished handler can go on or waits for the lock of one that can |
| HandlerInterleaving.NeverTwice | lb/lbHandlers.go:107-113 | from any state: a handler sends to a backend twice only if the backend was dead and revived since the request arrived; one that was not is dead once left |
| HandlerInterleaving.UnavailableMeansAllDead | backend/serverPool.go:124-137 | from any consistent state: at a 503 every server of the pool is dead, except those revived since the scan began |
| HandlerInterleaving.ScanIsOneCall | backend/serverPool.go:124-137 | a scan disturbed by health checks that revive no server picks, and leaves the pointer, as one undisturbed call at its end would |
| HandlerInterleaving.PoolChanges | backend/serverPool.go:92-122 | an added server is last and dead; a removed one leaves the order of the others, the pointer and all handlers |
| HandlerInterleaving.ReplyIsEarned | lb/lbHandlers.go:107-131 | in every interleaving a request goes on only after a failure, is answered exactly if the last send was, and 503 only if all failed |
| HandlerInterleaving.FailoverEnds | lb/lbHandlers.go:88-117 | with no dead backend revived and with bounded full channels in a row a handler's steps are bounded by one turn per live backend and a last scan, whatever the others do |
| HandlerInterleaving.StepsAreBounded | lb/lbHandlers.go:88-117 | the potential: steps taken plus steps remaining never exceed what remained at the start |
| HandlerInterleaving.SendsAreBounded | lb/lbHandlers.go:88-117 | a request is sent at most as often as backends were alive at its arrival |
| HandlerInterleaving.UnavailableThoughLive | main.go:155-157 | with a revival during the scan: 503 although some server of the pool is alive at every moment |
| HandlerInterleaving.RevivedGetsItTwice | main.go:155-157 | with a revival between two turns: one backend gets the request twice |

## Left out

- Bolt's internals, JSON and SHA-1: transactions are atomic, serial and rolled back on error, JSON is an exact inverse pair, and keys are 40 characters without `/`.
- A delete transaction that fails to commit; the commit of an insert may fail.
- Disk faults other than those of a page write, a missing file and a non-empty directory.
- Machine widths of `Size`, `PagesCount` and `current`: they are unbounded integers (`CapacityBound` and `GetNextPeer` bound them); the use counter, directive ages and deadlines have Go's widths.
- Floating point in the fill test (`cache/cacheCleaner.go:65`): real numbers are used, with a fill limit that is not negative (main.go:27 sets the factor to 0.9).
- CollectExpired: one reading of the clock serves for all buckets of a pass, where the code reads it for each.
- Wall clock: a loader reads the clock once per call, and instants are nanoseconds in UTC; only `HitJustified` needs a clock that does not go back.
- The 100 ms timer of `AssignRequest`: it fires only while the channel is full.
- The order of equally used items after `sort.Slice`: left open, every statement holds for all of them.
- ClearCache: the cursor's buckets are taken as a snapshot in ascending order, because bolt leaves deleting during iteration undefined, and emptying the pages directory is one step that succeeds.
- CalculateSize: the panic on a bucket without metadata, which no operation makes.
- CacheInterleaving: directories are not part of the step machine, which has the page files; cleaning passes are sequences of its removals, and clears are left out.
- FailoverEnds: bounds the steps while no dead backend is revived; a backend that fails every request and is revived every time keeps a handler in its loop.
- HandlerInterleaving.FailoverEnds: a backend whose channel is full for ever keeps the handler in its loop, so the number of full channels in a row is a parameter.
- Request `max-age`, `min-fresh` and `no-cache` are read and compared as the code does it, not as the standard describes them.
- Handle: alone on the pool every channel has room; channels kept full by other requests are the parameter `fulls` of each round.
- HitJustified: runs start with an empty database, because buckets of an earlier process have no history in the run; a restart within a run is one of its operations.
- `DecrementCurrent` (`backend/serverPool.go:79-84`): nothing in the balancer calls it.
- HTTP transport, TLS, request rewriting, copying of responses, health-check dialling and its schedule: results of sends and of checks are choices of the environment.
- Admin handlers, metrics, loggers, timers, configuration readers, `auth/`, `db/`, `email/`, `admin_app/` and `frontend/`: wrappers with easy properties only.
