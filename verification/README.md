# AetherStream: verified models of its stateful and text-processing core

This project models six parts of AetherStream in Dafny and proves what they promise over every input and every run.

| files | what they model |
|---|---|
| `RateLimiter.dfy`, `Forgetting.dfy` | the token buckets per IP address, the pool of shared limiters, and the sweep that forgets idle buckets |
| `LinkedList.dfy`, `LruCache.dfy`, `LruTheory.dfy` | the LRU cache with expiry: the ring of `container/list`, the map into it, the simple form it refines, and what holds over runs |
| `LeaseTable.dfy`, `LockManager.dfy`, `LockCalls.dfy` | the table of leases, and one process's lock manager with its keep-alive goroutines under every interleaving |
| `Text.dfy`, `GoText.dfy`, `Subtitles.dfy`, `Hls.dfy`, `StreamUrls.dfy`, `SegmentOrder.dfy`, `Dash.dfy`, `DashPeriods.dfy`, `TranscodeKey.dfy` | the text pipelines: subtitles, HLS playlists, segment URLs and names, DASH durations and periods, transcode keys |
| `SmartPlaylist.dfy` | the smart-playlist rule compiler, together with the fragment of SQL it writes |
| `TaskRuns.dfy`, `Tasks.dfy` | the transcode jobs, active and ended |

Code that changes objects in place is a class whose methods are proved against functions on values (`IpRateLimiter`,
`List`, `LRUCache`, `SQLiteLockBackend`, `Manager`); loops that build a result are methods proved against a function.
The theorems over whole runs are about those functions. The lock manager is a transition system, because what matters
there is how callers, goroutines and other processes interleave between its atomic steps.

Reading guide: the rows marked **main** below are the results; the others are the contracts they rest on. Specification
predicates that a reader needs to check are `RateLimiter.WindowRoom` (the sliding window), `LruOrder` (the simple
cache), `LeaseTable.After` (one atomic call), `LockManager.Step` and `Orphaned`, `Subtitles.Shown`, `Sql.Query` (parser
and evaluator of the SQL fragment), `SmartPlaylist.Satisfies`, `Dash.Parse` (the xs:duration grammar, section 3.2.6 of
XML Schema Part 2), `Hls.Uris` and `Entries` (the URI lines and their tags, sections 4.1 and 4.3.2.1 of RFC 8216),
`StreamUrls.QueryParam` (net/url's query strings) and `TaskRuns.Inv` and `Ends`.

The functions that say what one step does are themselves held to laws that do not use them: the windows of the limiter
are written out with the rate of the route; a `Get` must answer when the operations since the `Set` say so
(`LiveKeyAnswers`); which backend calls succeed follows from the answers before (`SucceedsIff`); a goroutine's steps
come in the order of its program (`GoroutineOrder`), and what a whole `Acquire` or `Release` does is stated on map,
entries and table (`AcquireAlone`, `ReleaseAlone`); an active job's record is given from the calls since it was
submitted (`ActiveJobIs`); playlists are read back down to the query strings of their URLs (`ServedSegments`).

## What the proofs found

* The limiter is exactly a sliding window, for any capacity and refill. Forgetting a bucket that was idle for more than
  ten minutes is unobservable if and only if ten minutes refill a bucket, or nothing is ever let through
  (`CleanupUnobservableIff`); the shared limiters, whose capacity is their refill per minute, all qualify.
* A keep-alive goroutine that lost its lease deletes the entry of its key without looking whose it is. A step orphans an
  entry exactly when it is such a clean-up, by another goroutine, of the key under which the map holds the entry
  (`OrphansIff`); a run orphans something if and only if some clean-up finds another entry than its own
  (`RunOrphansIff`), which needs a key to be inserted while an older goroutine of it has not returned
  (`NoOverlapNoOrphan`); conversely, every state with a free mutex and such an overlap can lead to an orphan
  (`OverlapCanOrphan`). Nobody can stop an orphan (`OrphanStays`); `StaleCleanupOrphans` is a run that has one. No
  channel is closed twice all the same.
* With refreshes less than 2ttl/3 after their ticks, the ticker of period ttl/3 refreshes in time if and only if the
  first refresh falls within the first lease, because the ticker starts only after the acquire read its clock
  (`TickerInTimeIff`); a goroutine whose refreshes are in time keeps its lease (`PunctualGoroutineKeepsLease`). A
  refresh that is late can always be beaten by another holder (`LateRefreshLosesLease`);
  `LateTickerLosesLease` is a run in which every refresh is prompt and the lease is lost.
* `Acquire` on a key that is held locally refreshes it with the caller's ttl, not with the ttl of the entry, so until the
  next refresh another holder can win the key after that ttl (`SecondAcquireSetsExpiry`).
* No thread keeps the mutex of the lock manager: its owner's own steps, at most five, always lead to giving it up, even
  while the database does not answer (`MutexComesFree`). A goroutine whose channel is closed always reaches its return
  (`StoppedGoroutineEnds`).
* A subtitle text line that contains both " --> " and a comma is altered; nothing else is (`RoundTripIff`).
* The URI lines of a rewritten playlist are the suffixed paths if and only if the token has no line feed, the suffix does
  not end in a carriage return, and no segment name starts with `#` (`PlaylistSurvives`).
* The token goes into the segment URLs as it was decoded, without being encoded again. The segment handler reads back
  exactly this token if and only if it has none of `&`, `;`, `#`, `+` and `%` (`SegmentUrlReads`); the
  JSON Web Tokens that the program issues (pkg/auth/auth.go:57-58) are written without them.
* With fewer keys touched than the cache has places, a key stays; when nothing else takes keys out, that is exact
  (`PresentIffFewTouched`).
* Sorting segment files by name is numeric order exactly up to 1000 segments: `segment_1000.ts` sorts before
  `segment_999.ts` (`SortIsNumeric`), so the fallback playlist of a longer title plays out of order.
* A `contains` rule means substring exactly when its value has neither `%` nor `_` (`ContainsMeansSubstringIff`). With
  the documented operators, a rule on a numeric field makes the query invalid SQL (`WellFormedIffNoNumericRule`):
  `gt` is passed on as `GT`.
* `LIMIT` counts matching rows, and the scan then leaves out rows with a NULL. The limit counts the items returned if and
  only if it cuts off nothing, or all rows before it can be scanned, or none behind it can (`LimitIsOnItemsIff`). The
  schema permits such rows (pkg/db/db.go:52) but no statement of the program writes them (pkg/db/db.go:396-402), and
  without them the limit is exact (`CompleteRowsAllReturned`).
* A transcode key is parsed back to its item and audio index exactly when, for a further track, the id is not empty,
  and, for the first track, the id does not itself look like the key of a further one (`RoundTripIff`). Ids without
  underscores are always safe.
* `Complete` is keyed by transcode key. It ends the job of its own worker if and only if no other `Complete` of the key
  and no `Cancel` of the job came since the job was submitted (`OwnJobIff`); otherwise it ends whatever job is then
  active under the key (`CancelledWorkerEndsOther`). `StaleWorkerEndsNewJob` is a run in which it does.

## Model

| member | source | states |
|---|---|---|
| `RateLimiter.IpBucket.Take` | pkg/api/security.go:462-473 | the in-place update of one bucket: answers whether the refilled level reaches one token, and leaves the bucket at that level less the token |
| `RateLimiter.IpRateLimiter.constructor` | pkg/api/security.go:431-440 | a new limiter has no buckets, and refills a sixtieth of its rate per second |
| `RateLimiter.LimiterPool.GetGlobalRateLimiter` | pkg/api/security.go:502-511 | one limiter for each rate, made at the first request for it with the rate as capacity and a sixtieth of it as refill per second |
| `RateLimiter.IpRateLimiter.BucketFor` | pkg/api/security.go:451-460 | an unknown address gets a full bucket of its own; all others stay as they are |
| `RateLimiter.IpRateLimiter.Allow` | pkg/api/security.go:446-474 | answer and new buckets are those of the value-level limiter; no two addresses share a bucket |
| `RateLimiter.IpRateLimiter.Cleanup` | pkg/api/security.go:482-489 | one sweep forgets exactly the buckets idle for more than ten minutes |
| `RateLimiter.TokensAreTightestRoom` | pkg/api/security.go:446-474 | invariant of every run: a bucket holds exactly the room of the tightest sliding window of its address |
| `RateLimiter.AcceptedIffEveryWindowHasRoom` | pkg/api/security.go:446-474 | **main**: a request is accepted if and only if every window starting at this or an earlier request of its address has room for one more |
| `RateLimiter.WindowNeverExceeded` | pkg/api/security.go:446-474 | **main**: in no real-time interval are more requests of an address accepted than the capacity plus what the interval refills |
| `RateLimiter.CleanupUnobservable` | pkg/api/security.go:476-494 | **main**: with sweeps inserted anywhere, every answer is the one of the run without them, when ten idle minutes refill a bucket |
| `Forgetting.CleanupUnobservableIff` | pkg/api/security.go:476-494 | **main**: sweeps never change an answer, in any run, if and only if ten idle minutes refill a bucket or nothing is ever let through |
| `Forgetting.NoticedSweep` | pkg/api/security.go:476-494 | for every other limiter, a run on which a sweep changes an answer |
| `RateLimiter.PoolLimiterIsExact` | pkg/api/security.go:502-511 | **main**: a limiter of r requests per minute, for every integer r and with sweeps anywhere, answers yes exactly if in every window the yes answers and one more are at most r + t * r/60 |
| `Forgetting.SweepRemembersTenMinutes` | pkg/api/security.go:476-494 | **main**: after a sweep at t, an address has a bucket if and only if it made a request at t - 600 s or later |
| `LinkedList.List.constructor` | pkg/cache/cache.go:40 | the empty ring of list.New |
| `LinkedList.List.PushFront` | pkg/cache/cache.go:83 | the element becomes the first of the ring, the others keep their order |
| `LinkedList.List.Remove` | pkg/cache/cache.go:112 | the element leaves the ring, the others keep their order |
| `LinkedList.List.MoveToFront` | pkg/cache/cache.go:62 | the element becomes the first of the ring, the others keep their order |
| `LinkedList.List.Back` | pkg/cache/cache.go:119 | the last element, or none of an empty list |
| `LinkedList.List.Init` | pkg/cache/cache.go:107 | the list is empty again |
| `LruCache.LRUCache.constructor` | pkg/cache/cache.go:34-43 | an empty cache of the given size, of 1000 entries where that is not positive |
| `LruCache.LRUCache.Get` | pkg/cache/cache.go:47-64 | the value unless missing or expired; a hit moves to the front, an expired entry goes; map and list stay in bijection |
| `LruCache.LRUCache.Set` | pkg/cache/cache.go:67-89 | the entry is at the front with its value and expiry, and beyond the size the last entry goes |
| `LruCache.LRUCache.Delete` | pkg/cache/cache.go:92-99 | the key goes and the order of the others stays |
| `LruCache.LRUCache.Clear` | pkg/cache/cache.go:102-108 | nothing is left in map or list |
| `LruCache.LRUCache.RemoveElement` | pkg/cache/cache.go:111-115 | one element leaves both list and map |
| `LruCache.LRUCache.EvictOldest` | pkg/cache/cache.go:118-123 | exactly the last entry goes, and nothing of an empty cache |
| `LruTheory.RunShape` | pkg/cache/cache.go:47-123 | in every run keys stay distinct and the size bound holds |
| `LruTheory.HitIsLatest` | pkg/cache/cache.go:47-89 | **main**: a hit returns the value of the latest Set of its key, with no Delete or Clear since, and not past its expiry |
| `LruTheory.LiveKeyAnswers` | pkg/cache/cache.go:47-89 | **main**: after a Set of a key, a Get of it no later than the expiry returns the value set, if the key was not set again, deleted or cleared, every Get of it was in time, and fewer than the size other keys were set or answered in between |
| `LruTheory.UnansweredIsGone` | pkg/cache/cache.go:51-59 | a Get without an answer leaves no entry of its key behind |
| `LruTheory.RecentKeyIsPresent` | pkg/cache/cache.go:62-88 | **main**: a key set or hit, and not dropped since, is present with its latest value while fewer than the size other keys were touched since |
| `LruTheory.PresentIffFewTouched` | pkg/cache/cache.go:47-123 | **main**: when nothing has been dropped since the last operation that touched a key, the key is present if and only if fewer than the size other keys were touched since |
| `LruTheory.StepKeepsIncluded` | pkg/cache/cache.go:47-123 | every operation keeps the smaller cache a subsequence of the larger one with no more free room |
| `LruTheory.LargerCacheHitsMore` | pkg/cache/cache.go:47-123 | **main**: on the same timed run, every hit of a smaller cache is a hit of a larger one with the same value |
| `LeaseTable.SQLiteLockBackend.TryAcquire` | pkg/cluster/lock_backend.go:35-78 | takes a free or expired row, and changes nothing otherwise or when the database fails; the expiry comes from the first clock reading, the test uses the second |
| `LeaseTable.SQLiteLockBackend.Release` | pkg/cluster/lock_backend.go:81-91 | deletes the row of this holder, and fails without one |
| `LeaseTable.SQLiteLockBackend.Refresh` | pkg/cluster/lock_backend.go:94-105 | moves the expiry of this holder's row, and fails without one |
| `LeaseTable.UnexpiredRowKeepsHolder` | pkg/cluster/lock_backend.go:35-105 | an unexpired row keeps its holder through every call but that holder's Release |
| `LeaseTable.LeaseStaysAccounted` | pkg/cluster/lock_backend.go:35-105 | invariant from a win on: the row holds the holder's last expiry, or that expiry has passed |
| `LeaseTable.RowIsWinners` | pkg/cluster/lock_backend.go:35-105 | invariant of every run: a key has a row exactly while its latest winner has not released it, and the row has the expiry that winner wrote last |
| `LeaseTable.SucceedsIff` | pkg/cluster/lock_backend.go:35-105 | **main**: a TryAcquire succeeds if and only if nobody has won the key, or its latest winner released it or has let its last expiry pass; a Refresh or Release if and only if its holder is the latest winner and has not released |
| `LeaseTable.LeaseExclusion` | pkg/cluster/lock_backend.go:35-105 | **main**: of two wins of a key by different holders, the later one's check is strictly after the last expiry the earlier holder wrote, or the earlier one released in between |
| `LeaseTable.RefreshingKeepsLease` | pkg/cluster/lock.go:103-123 | **main**: while each refresh comes no later than the expiry before it, nobody else wins the key and every refresh succeeds |
| `LeaseTable.TickerInTimeIff` | pkg/cluster/lock.go:103-123 | **main**: with refreshes less than ttl - ttl/3 after the ticks of period ttl/3, every refresh is in time if and only if the first one falls within the first lease |
| `LeaseTable.TickerKeepsLease` | pkg/cluster/lock.go:103-123 | **main**: such a ticker keeps the lease against everyone, up to the latest refresh |
| `LeaseTable.LateRefreshLosesLease` | pkg/cluster/lock_backend.go:35-105 | **main**: in every run, a refresh after the expiry of its row can be preceded by the win of any other holder, with any ttl, and then fails |
| `LeaseTable.LateTickerLosesLease` | pkg/cluster/lock.go:77-104 | a concrete run with prompt refreshes, the first one after the first lease, that loses the lease |
| `LockManager.StepKeepsInv` | pkg/cluster/lock.go:41-123 | each atomic step of any caller, goroutine or other process keeps the invariant of mutex, map, channels and goroutines |
| `LockManager.ManagerIsSafe` | pkg/cluster/lock.go:41-123 | **main**: in every interleaving, whoever holds the mutex, no stop channel is closed twice, and every entry in the map has an open channel and a goroutine that has not returned; with the mutex free that goroutine runs |
| `LockManager.GrantsExcludeOthers` | pkg/cluster/lock.go:60-79 | **main**: every lock granted was won in the table, and no other holder wins its key later unless the lease ran out or was released |
| `LockManager.KeepAliveKeepsLease` | pkg/cluster/lock.go:77-123 | in every state satisfying the invariant, an entry whose refreshes in the call log answer a ticker has kept its lease against every caller and process |
| `LockManager.PunctualGoroutineKeepsLease` | pkg/cluster/lock.go:103-123 | **main**: over the steps of a run, if since the grant every call under the holder is a refresh by the entry's goroutine in time for its tick, its next such refresh succeeds and nobody has won the key in between |
| `LockManager.SecondAcquireSetsExpiry` | pkg/cluster/lock.go:46-57 | an Acquire of a key held here opens the row to other holders, until the next refresh, exactly after its own ttl, whatever the ttl of the entry |
| `LockManager.OrphansIff` | pkg/cluster/lock.go:112-118 | **main**: a step orphans an entry if and only if it is the clean-up of another goroutine of the key and the map holds the entry |
| `LockManager.RunOrphansIff` | pkg/cluster/lock.go:112-118 | **main**: a run has an orphan if and only if some clean-up finds another entry than its own under its key |
| `LockManager.NoOverlapNoOrphan` | pkg/cluster/lock.go:68-77 | **main**: no run that inserts a key only once its older goroutines have returned has an orphan |
| `LockManager.OverlapCanOrphan` | pkg/cluster/lock.go:103-123 | **main**: from every reachable state with a free mutex in which an older goroutine of a mapped key has not returned, the steps of that goroutine alone lead to an orphan |
| `LockManager.OrphanStays` | pkg/cluster/lock.go:103-123 | an orphan stays one until its own clean-up, and no step closes its channel |
| `LockManager.StaleCleanupOrphans` | pkg/cluster/lock.go:114-117 | a concrete run in which the clean-up of an old goroutine drops the entry of a newer Acquire and leaves it an orphan |
| `LockCalls.GoroutineOrder` | pkg/cluster/lock.go:103-123 | **main**: in every run, consecutive steps of a goroutine are those of its program: a refresh after a tick, then a tick or the closed channel if the table had its row, else the clean-up |
| `LockCalls.StoppedMakesNoStep` | pkg/cluster/lock.go:107-109 | **main**: in every run, after seeing its closed channel or cleaning up a goroutine makes no step |
| `LockCalls.StopWasAsked` | pkg/cluster/lock.go:107-109 | a goroutine sees a closed channel only after an Acquire or Release closed it |
| `LockCalls.MutexComesFree` | pkg/cluster/lock.go:41-123 | **main**: from every reachable state the owner of the mutex gives it up within five steps of its own, even without the database |
| `LockCalls.StoppedGoroutineEnds` | pkg/cluster/lock.go:103-123 | **main**: from every reachable state in which its channel is closed, a goroutine's own steps lead to its return, after those of the owner of the mutex if it is held |
| `LockCalls.AcquireAlone` | pkg/cluster/lock.go:41-80 | **main**: what an Acquire that runs alone does in every reachable state: it only refreshes if the entry's holder still has its row; else it closes the old entry and grants exactly if the row is free, with the caller's key, holder and ttl in entry and row |
| `LockCalls.ReleaseAlone` | pkg/cluster/lock.go:83-93 | **main**: what a Release that runs alone does in every reachable state: the key leaves the map, its channel is closed, and the row goes exactly if the caller holds it |
| `LockCalls.GoroutineCanStep` | pkg/cluster/lock.go:106-120 | in every reachable state a running goroutine can make its next step, whatever the database answers, unless it waits for the mutex |
| `LockCalls.RefreshMovesExpiry` | pkg/cluster/lock.go:110-120 | a refresh of a goroutine moves the expiry of its row by the ttl of its entry if it has the row, and changes nothing else in the table |
| `Subtitles.SrtToWebVtt` | pkg/stream/stream.go:593-606 | the loop writes the header and every line, commas turned into dots on the lines with an arrow |
| `Subtitles.ParseVtt` | web/ui/src/components/MediaPlayer.tsx:42-59 | the nested loops return the cues of the recursive reading of the lines |
| `Subtitles.StampParses` | web/ui/src/components/MediaPlayer.tsx:60-65 | every printed time stamp parses to its milliseconds |
| `Subtitles.ShortStampParses` | web/ui/src/components/MediaPlayer.tsx:60-65 | a stamp without hours parses to its minutes and milliseconds |
| `Subtitles.SettingsAreIgnored` | web/ui/src/components/MediaPlayer.tsx:48-49 | whatever settings follow the end time, times and text are the same |
| `Subtitles.NoStampNoCue` | web/ui/src/components/MediaPlayer.tsx:47-55 | a line with an arrow but no colon in front of it announces no cue |
| `Subtitles.SubtitlesSurvive` | pkg/stream/stream.go:593-606 | **main**: for all subtitles of text lines, print, convert and parse gives every cue with text and a positive duration, in order |
| `Subtitles.RoundTripIff` | web/ui/src/components/MediaPlayer.tsx:42-65 | **main**: the cues come back exactly as written if and only if no text line has both " --> " and a comma |
| `SmartPlaylist.BuildQuery` | pkg/smartplaylists/smartplaylists.go:116-126 | the loop builds the query text and the arguments of the rules, left to right, and the limit |
| `SmartPlaylist.DocumentedClauses` | pkg/smartplaylists/smartplaylists.go:162-198 | the clause and the argument of every documented field and operator, numeric columns included |
| `SmartPlaylist.RuleInAnyCase` | pkg/smartplaylists/smartplaylists.go:163 | the ASCII letter case of field and operator makes no difference |
| `SmartPlaylist.QuerySplits` | pkg/smartplaylists/smartplaylists.go:116-125 | the text splits at its spaces into four tokens per rule that has a clause, if no numeric operator has a space in it |
| `SmartPlaylist.LikeIsSomewhere` | pkg/smartplaylists/smartplaylists.go:189-190 | LIKE with any value between percent signs asks for a part of the text that matches the value |
| `SmartPlaylist.LikeIsVariant` | pkg/smartplaylists/smartplaylists.go:189-190 | LIKE with a plain value is equality but for the case of ASCII letters |
| `SmartPlaylist.LikeIsIncludes` | pkg/smartplaylists/smartplaylists.go:189-190 | LIKE with a plain value between percent signs is substring, ASCII letters in either case |
| `SmartPlaylist.ContainsMeansSubstringIff` | pkg/smartplaylists/smartplaylists.go:189-190 | **main**: it is so on every text exactly when the value has no wildcard |
| `SmartPlaylist.ConditionsMean` | pkg/smartplaylists/smartplaylists.go:118-124 | placeholder i binds argument i, so the conditions hold of a row if and only if it satisfies every recognised rule |
| `SmartPlaylist.CompilationKeepsMeaning` | pkg/smartplaylists/smartplaylists.go:115-160 | **main**: for any list of rules on text fields, wildcards in contains values included, the query returns exactly the rows that satisfy every recognised rule, up to the limit |
| `SmartPlaylist.PlainRulesMeanSubstring` | pkg/smartplaylists/smartplaylists.go:183-194 | **main**: without wildcards in the contains values, the rules mean equality, inequality and ASCII-case-insensitive substring |
| `SmartPlaylist.WellFormedIffNoNumericRule` | pkg/smartplaylists/smartplaylists.go:196-198 | **main**: with the documented operators the query is well-formed if and only if no rule is on a numeric field |
| `SmartPlaylist.LimitIsOnItemsIff` | pkg/smartplaylists/smartplaylists.go:125-142 | **main**: the limit counts the items returned if and only if it cuts off nothing, or all matching rows before it can be scanned, or none behind it can |
| `SmartPlaylist.CompleteRowsAllReturned` | pkg/db/db.go:396-402 | with rows without NULL, the only ones written, exactly the matching rows up to the limit are returned |
| `SmartPlaylist.LimitCountsIncompleteRows` | pkg/db/db.go:52 | a concrete table, of the schema but not written by the program, in which the limit is spent on a row that the scan leaves out |
| `Hls.VariantPlaylist` | pkg/hls/hls.go:52-68 | the printer writes the header lines, two lines per segment and the end tag |
| `Hls.RewritePlaylist` | pkg/stream/stream.go:255-263 | the loop gives the suffix to exactly the lines that end in .ts, in place |
| `Hls.ParseTargetDuration` | pkg/hls/hls.go:153-164 | the target duration found by the loop is that of the recursive reading of the lines |
| `Hls.TargetIsFirst` | pkg/hls/hls.go:153-164 | it is that of the first line with a readable one, and 4 if there is none |
| `Hls.GetPlaylistDuration` | pkg/hls/hls.go:167-180 | the sum of the readable segment durations of the lines, with the infinities and NaN that the syntax allows |
| `Hls.RewritingIsPrinting` | pkg/stream/stream.go:245-264 | **main**: giving the segment lines of a printed playlist a suffix is printing the playlist of the suffixed segments |
| `Hls.TargetSurvives` | pkg/hls/hls.go:153-164 | **main**: for any paths and any suffix, the target duration printed is the one read back |
| `Hls.PlaylistSurvives` | pkg/hls/hls.go:52-68 | **main**: print, rewrite, parse: the target duration always; the sum of the printed durations if the token is one line; the suffixed paths as the URI lines if and only if there are no segments, or the token is one line, the suffix does not end in a carriage return and no path starts with # |
| `Hls.EntriesSurvive` | pkg/hls/hls.go:63-66 | **main**: print, rewrite, read as a player: each URI is the suffixed path of its segment and is announced with the duration of that segment |
| `Hls.TagsPrinted` | pkg/hls/hls.go:52-68 | the tags at the start and end of a printed playlist, and the two lines of each segment |
| `StreamUrls.AudioOf` | pkg/stream/stream.go:277-282 | the audio track that a handler takes from a URL is one of the first twenty |
| `StreamUrls.SegmentUrlReads` | pkg/stream/stream.go:245-254 | **main**: a segment URL leads to its path; its query gives back the token if and only if it has none of the five characters that mean something there; without a separator in the token it gives back the audio track the handlers accept |
| `StreamUrls.PathIff` | pkg/stream/stream.go:257-259 | the path of a segment URL is the segment's if and only if that has neither ? nor # |
| `StreamUrls.ServedSegments` | pkg/stream/stream.go:244-283 | **main**: in the playlist as served, the URIs request the segments in order, each announced with its duration and carrying exactly this token and this audio track |
| `SegmentOrder.ExtIsSuffix` | pkg/hls/hls.go:89 | a name has the extension .ts exactly when it ends in it |
| `SegmentOrder.ScanSegments` | pkg/hls/hls.go:78-114 | the loop and the sort return exactly the files, not directories, whose name ends in .ts and whose info can be read, ordered by name, each of four seconds |
| `SegmentOrder.SortedUnique` | pkg/hls/hls.go:109-111 | two sorted lists of the same names are the same list, whatever the sorting algorithm |
| `SegmentOrder.SortIsNumeric` | pkg/encoder/encoder.go:211 | **main**: the names segment_%03d.ts of 0 to n - 1, sorted, are in numeric order if and only if n is at most 1000 |
| `SegmentOrder.FallbackPlaylist` | pkg/stream/stream.go:235-241 | **main**: the playlist built from the directory lists the segments in order if and only if there are at most 1000, and its duration is right in any case |
| `Dash.FormatDuration` | pkg/dash/dash.go:408-430 | the step-by-step printer prints the fields of the whole seconds |
| `Dash.SixShapes` | pkg/dash/dash.go:408-430 | the six forms of a printed duration of at least a minute |
| `Dash.DurationRoundTrip` | pkg/dash/dash.go:408-430 | **main**: what is printed parses under the xs:duration grammar to exactly the whole seconds, for those that are not negative and no others |
| `Dash.FormattedReads` | pkg/dash/dash.go:408-430 | a duration that is not negative is read back as its seconds, rounded down |
| `Dash.PrinterInjective` | pkg/dash/dash.go:408-430 | **main**: different whole seconds are printed differently |
| `DashPeriods.SplitPeriods` | pkg/dash/handler.go:228-255 | the loop makes the chapters one after the other |
| `DashPeriods.BuildMultiPeriodMPD` | pkg/dash/dash.go:462-480 | the loop adds up the durations, and the manifest is the one of that total |
| `DashPeriods.GenerateMPD` | pkg/dash/dash.go:298-323 | the time attributes printed for the presentation and for each period, or left out when not positive |
| `DashPeriods.SplitConserves` | pkg/dash/handler.go:228-240 | **main**: the chapters are numbered from 1, start every ten minutes from 0 and are contiguous, as many as the duration needs; they last as long as the item exactly for durations above minus ten minutes |
| `DashPeriods.LeftOutIff` | pkg/dash/dash.go:298-323 | a time attribute is left out exactly if the time is not positive |
| `DashPeriods.PrintedConserves` | pkg/dash/dash.go:298-323 | **main**: the whole seconds printed for the periods add up to those printed for the presentation, one left out counting as 0 |
| `DashPeriods.PrintedContiguous` | pkg/dash/dash.go:318-323 | **main**: each printed start is the printed start and duration of the period before it |
| `TranscodeKey.KeyText` | pkg/stream/stream.go:119-124 | the directory of the first track is the item's own, that of another accepted track adds "_a" and its digits |
| `TranscodeKey.ParseKey` | pkg/stream/stream.go:727-736 | the parsing by the last "_a" and the scanned integer behind it |
| `TranscodeKey.NothingLater` | pkg/stream/stream.go:730 | the mark found is the last one in the key |
| `TranscodeKey.ScanOfInteger` | pkg/stream/stream.go:732 | scanning a printed 64-bit index gives it back |
| `TranscodeKey.ScanIff` | pkg/stream/stream.go:732 | the scan gives n exactly if the text starts, behind blanks other than newlines, with a perhaps signed 64-bit n |
| `TranscodeKey.RoundTripIff` | pkg/stream/stream.go:119-124 | **main**: item and index are recovered exactly when the id is not empty (further tracks), or does not look like the key of a further track (first track) |
| `TranscodeKey.PlainIdsRoundTrip` | pkg/library/manager.go:128 | **main**: an id without underscores is recovered with every audio index |
| `TranscodeKey.SharedKeyIff` | pkg/stream/stream.go:119-124 | **main**: two requests share a directory exactly when they are equal or the id of one, for its first track, is the key of the other |
| `TranscodeKey.PlainIdsNeverShare` | pkg/stream/stream.go:119-124 | different pairs of ids without underscores and indices never share a directory |
| `Tasks.Manager.constructor` | pkg/tasks/tasks.go:50-58 | an empty manager, keeping 100 jobs where the size is not positive |
| `Tasks.Manager.Submit` | pkg/tasks/tasks.go:61-85 | a job active under the key is returned as it is, else a new one is queued |
| `Tasks.Manager.SetRunning` | pkg/tasks/tasks.go:88-99 | the active job with the id, if there is one, is started, and nothing else changes |
| `Tasks.Manager.Complete` | pkg/tasks/tasks.go:102-129 | the job of the key ends with its outcome and goes to the front of the history, cut to its size |
| `Tasks.Manager.Cancel` | pkg/tasks/tasks.go:132-151 | the active job with the id is cancelled and goes to the history; reports whether there was one |
| `Tasks.Manager.List` | pkg/tasks/tasks.go:154-165 | fresh copies of exactly the active jobs, then the history |
| `Tasks.Manager.IsActive` | pkg/tasks/tasks.go:168-173 | whether the key has an active job |
| `TaskRuns.CompleteDecides` | pkg/tasks/tasks.go:115-123 | the test for a cancelled status never fails: an active job ends failed with the error text, or completed, and keeps the rest of its record |
| `TaskRuns.CancelDecides` | pkg/tasks/tasks.go:136-142 | a cancel ends exactly the active job with the id, as cancelled, and keeps the rest of its record |
| `TaskRuns.ManagerInvariant` | pkg/tasks/tasks.go:61-151 | **main**: in every run with fresh ids, each job created is active or ended, never both; active jobs are queued or running with a live context, one per key; ended ones are final with a cancelled context; the history is the newest of the log of ended jobs |
| `TaskRuns.HistoryIsNewest` | pkg/tasks/tasks.go:125-128 | in every run the history is the log of ended jobs, newest first, cut to its size |
| `TaskRuns.ActiveJobIs` | pkg/tasks/tasks.go:61-99 | **main**: in every run, until a call ends it, the job a Submit created is active with exactly what it was submitted with, running if and only if a SetRunning of its id came since, queued otherwise, and started at the latest of them |
| `TaskRuns.ActiveWasSubmitted` | pkg/tasks/tasks.go:61-151 | **main**: every active job was created by a Submit of its key, and no call has ended it since |
| `TaskRuns.EndedForever` | pkg/tasks/tasks.go:61-151 | **main**: a job once in the history is never active again and never seen with another record |
| `TaskRuns.OwnJobIff` | pkg/stream/stream.go:834-873 | **main**: in every run, a Complete ends the job that an earlier Submit of its key created if and only if no Complete of the key and no Cancel of the job came in between |
| `TaskRuns.CancelledWorkerEndsOther` | pkg/stream/stream.go:849-852 | the Complete of a cancelled job's worker ends the other job that is then active under the key |
| `TaskRuns.CompleteEndsTheActive` | pkg/tasks/tasks.go:102-129 | Complete ends whichever job is active under the key, and puts it first in the history |
| `TaskRuns.StaleWorkerEndsNewJob` | pkg/stream/stream.go:849-852 | a concrete run in which the worker of a cancelled job completes the job submitted after it |

## Left out

- Floating point: token levels, seconds and durations are reals; segment durations and subtitle times are given in the
  milliseconds that are printed; no number overflows, so a JavaScript or Go literal beyond the largest float is its
  value, and time.Duration is unbounded.
- One clock: all processes read the same clock and it does not run backwards; a call may read it before it takes effect.
- Database failures: a failed backend call writes nothing; a call that fails after its write took effect is not modelled.
  Timeouts of contexts appear only as such failures.
- LockManager.Step: the manager is a transition system on values and not a class, because its threads interleave inside
  its methods; aliasing of entries is captured by their indices. IsHeld, the unused cancel field and the Stop channel of
  the limiter's sweep are not modelled, nor is the ticker dropping ticks. A
  ttl below 3 nanoseconds, for which time.NewTicker panics, is excluded from the theorems about the ticker.
- LinkedList.List.Remove: only the part of container/list that the cache uses; Remove and MoveToFront are given elements
  of the list, as the cache does.
- SegmentOrder.ScanSegments: sort.Slice is taken as any sort by name; file sizes and errors of reading the directory are
  left out.
- Hls.PlaylistSurvives: segment durations are not negative, and segment paths are one-line names ending in .ts.
- StreamUrls.SegmentUrlReads: a percent escape is decoded to the one character of its byte, and the routes of the server
  and the validation of the token are left out.
- LockCalls.AcquireAlone: for calls that nothing interrupts; LockManager.Step covers the interleavings.
- SmartPlaylist.CompilationKeepsMeaning: the meaning of numeric rules is not modelled; with operators outside the
  documented ones, such as "=", such a rule is passed through as it stands.
- SmartPlaylist.BuildQuery: case mapping covers the letters that can reach an ASCII letter; NULL columns and the row scan
  are modelled by one column and one flag per row.
- Tasks.Manager.Submit: the id is given and fresh, and the 30-minute timeout of the job's context is not modelled.
- Tasks.Manager.List: the history holds the manager's own jobs, not copies; they are final by then.
- Dash: audio and video attributes, segment lists, live manifests and XML serialisation.
- TranscodeKey.ParseKey: file names are taken as sequences of characters; the directory listing around it is left out.
- The brute-force limiter, sessions, tokens, CSRF, CORS and cookies, which are wrappers around libraries.
- HTTP handlers, ffmpeg, the file system, UDP, WebSocket and WebRTC; SQL beyond the fragment of the smart playlists.
- Master playlists, the filename parser, the load balancer and playback pairing.
