# Traffic control of the VantageEdge gateway, modelled and proved in Dafny

The gateway keeps its traffic control in small in-memory structures, each behind a mutex: three load balancers, three
rate limiters and a response cache. Next to them stand a printer and parser for PostgreSQL text arrays and the database
migration runner. Each module here models one of them. It has

* the structure as a value, with a function for each operation and one for whole runs of operations,
* a class with the fields, loops and branches of the Go type, whose methods are proved to do what those functions say
  and what is promised of them, written out on the fields, and
* theorems about all runs.

A mutex is held during each whole method, so a run is a sequence of method calls. The clock is a parameter `now` of each
call that reads it; theorems that need it say that it does not go back. The `int` of Go is modelled with its 64-bit
wrap-around where a counter or the sum of a batch size and a count can reach it.

| file | models | main results |
|---|---|---|
| ConsistentHash.dfy | consistent-hash ring, for any hash function | lookup by binary search finds the successor point; an answer moves only to an added node or away from a removed one; the ring forgets its history if and only if no replicas collide |
| TokenBucket.dfy | token bucket over reals | exact admission condition against all past events; a bound on every interval of time, resets included; idle calls leave no trace |
| SlidingWindow.dfy | sliding-window log | a bound on every window anywhere in time, resets included; pruning is invisible; a batch equals single requests |
| LeastConn.dfy, RoundRobin.dfy | the two other balancers | least-connections turns into round robin after exactly the initial deficit; its spread is bounded by the selections in flight; exact fairness of every window of selections |
| RateLimit.dfy, Cache.dfy | fixed-window limiter, cache with time to live | the exact number admitted in any stretch with ticks, and exactly when a stretch keeps the limit; lookups follow the last write whatever sweeps happen |
| StringArray.dfy | `StringArray.Value`, `Scan` and `splitArray` on bytes | both round trips, with the exact set of inputs on which they hold; every text is cut by the parity of its quotes |
| Migrator.dfy | migration runner over a transactional store | any number of concurrent, failing and restarted runners commit a prefix of the pending scripts, each once; one clean call then completes it |
| Sorting.dfy, Models.dfy | the library sort; shared values | a sorted arrangement is unique |

Six properties turned out to hold only under a condition, and the theorems give it exactly:

* The ring depends only on its current nodes if and only if no replicas of different nodes hash to the same point
  (`HistoryIndependentExactlyWithoutCollisions`). No hash is free of collisions on all nodes (`EveryHashCollides`).
  With them, adding and removing a node can leave another node without any point (`CollisionsCanStrandANode`).
* Through a driver that returns the printed text as bytes, `Scan` undoes `Value` if and only if the elements are ASCII
  without comma and quote and the last one is not empty; printing does not quote, and the splitter drops a trailing
  empty element and re-encodes bytes above 127.
* `AllowN` adds the batch size to the live count in a 64-bit `int`. Its answer is the intended one if and only if that
  sum does not overflow, for which batches of at most the greatest `int` less the maximum are enough
  (`SmallBatchesAreRegular`). A batch that overflows is admitted, whatever remains (`PruningIsInvisible`,
  `RemainingIsExact`, `BatchEqualsSinglesExactly`, `WindowsKeepFittingExactlyWithoutOverflow`, with an instance in
  `OverflowingBatchIsAdmitted`).
* `AllowN` and as many `Allow` calls then agree, in decision and state, for every positive window. With a window that
  is not positive they decide alike if and only if the batch fits the maximum or the maximum is 0
  (`BatchAdmittedLikeSinglesWithoutWindowExactly`), and leave the same state if and only if the batch is at most 1 or
  the maximum is 0 (`BatchEqualsSinglesWithoutWindowExactly`); no later answer can tell the other states apart.
* Migrations run in the order of their file names. That is the order of their versions if and only if no version
  continues another one in a way that sorts before the suffix, as `a-b` does for `a` (`FileOrderIsVersionOrderExactly`
  for two versions, `RunsInVersionOrderExactly` for a directory).
* The fixed-window limiter is configured with a limit per window, but only counts between ticks. A stretch of requests
  and ticks keeps the limit, whatever came before it, if and only if its requests, capped at the limit in each piece
  between ticks, add up to at most the limit (`KeepsLimitExactly`); `AdmittedExactly` gives the number admitted. Twice
  the limit is reached around one tick for every limit (`TwiceTheLimitAcrossATick`), and when ticks are a window apart
  it is the most that any span of that length admits (`EverySpanHoldsAtMostTwiceTheLimit`).

The repository's BACKEND_STATUS.md (lines 91-107) lists the token bucket, the sliding window and the three balancers as
not yet implemented; the model follows the code, which has them.

## Model

| member | source | states |
|---|---|---|
| ConsistentHash.Balancer.AddOrigin | internal/loadbalancer/consistenthash/balancer.go:31-47 | the ring with the three points of the node written one after the other, the old keys and the three new ones in ascending order (duplicates kept), and the node known with 3 replicas; coherence is kept |
| ConsistentHash.Balancer.RemoveOrigin | internal/loadbalancer/consistenthash/balancer.go:50-71 | the ring without the three points, or as it was for an unknown ID; the keys strictly ascending and exactly the points, whatever order the map iteration takes; coherence is kept |
| ConsistentHash.Balancer.Search | internal/loadbalancer/consistenthash/balancer.go:87-89 | the binary search returns the least index whose key is not below the hash |
| ConsistentHash.Balancer.SelectOrigin | internal/loadbalancer/consistenthash/balancer.go:74-105 | written out on the fields: with p the least point at or after the hash of the key, or the least of all when there is none, the answer is the first listed origin with the ID of its owner, or the first of all when none has it; the first of all on an empty ring; an error on an empty list |
| ConsistentHash.PointsOfANode | internal/loadbalancer/consistenthash/balancer.go:16-42 | the points of a node are the hashes of its ID with -0, -1 and -2 appended |
| ConsistentHash.RouteGoesToTheSuccessor | internal/loadbalancer/consistenthash/balancer.go:74-105 | the same of the lookup that the run theorems are about, for every ring, with a successor point whenever there is any point |
| ConsistentHash.FoundKeyIsSuccessor | internal/loadbalancer/consistenthash/balancer.go:87-95 | searching the sorted keys and wrapping finds the successor among the ring's points, whatever duplicates the keys hold |
| ConsistentHash.ChoiceIsFirst | internal/loadbalancer/consistenthash/balancer.go:97-104 | the chosen origin is the first listed one with the owner's ID |
| ConsistentHash.AddedCoherent | internal/loadbalancer/consistenthash/balancer.go:31-47 | adding keeps keys sorted, keys and points equal as sets, owners known and points theirs |
| ConsistentHash.RemovedCoherent | internal/loadbalancer/consistenthash/balancer.go:50-71 | removing keeps coherence, leaves no point owned by the removed node and no duplicate key |
| ConsistentHash.ReachableCoherent | internal/loadbalancer/consistenthash/balancer.go:31-71 | every state of every run is coherent, with collisions, repeated adds and unknown removals |
| ConsistentHash.AddingMovesKeysOnlyToTheNewNode | internal/loadbalancer/consistenthash/balancer.go:31-105 | after an add a key's owner is the new node exactly when its successor point is one of the new node's, and else unchanged |
| ConsistentHash.RemovingKeepsOtherKeys | internal/loadbalancer/consistenthash/balancer.go:50-105 | a removal moves no key whose successor point is not a replica of the removed node |
| ConsistentHash.RemovingMovesExactlyItsKeys | internal/loadbalancer/consistenthash/balancer.go:50-105 | without collisions a removal moves exactly the removed node's keys |
| ConsistentHash.AddingMovesRoutesOnlyToTheNewNode | internal/loadbalancer/consistenthash/balancer.go:31-105 | for any collisions and listed origins, the empty ring included, an answer that an add changes is the new node |
| ConsistentHash.RemovingKeepsOtherRoutes | internal/loadbalancer/consistenthash/balancer.go:50-105 | for any collisions and listed origins, a removal leaves every answer whose successor point is not a replica of the removed node |
| ConsistentHash.RemovingMovesExactlyItsRoutes | internal/loadbalancer/consistenthash/balancer.go:50-105 | over a collision-free ring whose nodes are all listed, a removal changes an answer if and only if it was the removed node |
| ConsistentHash.LastTouchDecides | internal/loadbalancer/consistenthash/balancer.go:31-71 | for every hash and run, a point is in the ring if and only if the last operation that touched it is an add, and then that node owns it |
| ConsistentHash.RunIsExactlyLive | internal/loadbalancer/consistenthash/balancer.go:31-71 | without collisions, after any run the ring holds exactly the replica points of the live nodes |
| ConsistentHash.HistoryIndependentExactlyWithoutCollisions | internal/loadbalancer/consistenthash/balancer.go:31-105 | all runs that end with the same nodes answer every lookup alike if and only if no replicas of different nodes collide |
| ConsistentHash.EveryHashCollides | internal/loadbalancer/consistenthash/balancer.go:38-42 | for every hash into 32 bits some nodes collide, and runs over them depend on their history |
| ConsistentHash.AddsCommuteExactly | internal/loadbalancer/consistenthash/balancer.go:38-42 | two adds commute if and only if the nodes are equal or share no point |
| ConsistentHash.RemoveUndoesAddExactly | internal/loadbalancer/consistenthash/balancer.go:31-71 | removing a just-added new node restores the ring if and only if it took over nobody's point |
| ConsistentHash.CollisionsCanStrandANode | internal/loadbalancer/consistenthash/balancer.go:58-61 | after another node came and went, a node still has a point if and only if it had one that the other did not claim |
| TokenBucket.AdmitsExactly | internal/ratelimit/tokenbucket/limiter.go:26-53 | a request is admitted if and only if it fits the capacity and, for every event since construction or reset, withdrawals since then plus request are at most capacity + rate * time since then; for all runs, signs and clock readings |
| TokenBucket.EveryIntervalBounded | internal/ratelimit/tokenbucket/limiter.go:26-71 | in every interval of time, of all that was ever withdrawn at most capacity + rate * length leaves, and one capacity more for each reset in the interval |
| TokenBucket.EveryIntervalSinceResetBounded | internal/ratelimit/tokenbucket/limiter.go:26-53 | what was withdrawn since the last reset stays within capacity + rate * length in every interval |
| TokenBucket.RefillComposes | internal/ratelimit/tokenbucket/limiter.go:46-53 | refilling in two steps equals refilling once |
| TokenBucket.IdleCallsLeaveNoTrace | internal/ratelimit/tokenbucket/limiter.go:26-62 | leaving out any choice of peeks and refused requests changes no answer to the remaining calls |
| TokenBucket.LevelStaysInBounds | internal/ratelimit/tokenbucket/limiter.go:26-71 | the level stays between 0 and the capacity in every run of non-negative requests |
| TokenBucket.TokenBucket.constructor | internal/ratelimit/tokenbucket/limiter.go:16-23 | starts full at the given moment |
| TokenBucket.TokenBucket.Refill | internal/ratelimit/tokenbucket/limiter.go:46-53 | the level becomes the lesser of the capacity and the old level + rate * elapsed time, and the moment is stored |
| TokenBucket.TokenBucket.Allow | internal/ratelimit/tokenbucket/limiter.go:26-38 | admitted if and only if the request fits the capacity and the old level + rate * elapsed time; the whole new state for both outcomes |
| TokenBucket.TokenBucket.AllowN | internal/ratelimit/tokenbucket/limiter.go:41-43 | the same for a count of tokens |
| TokenBucket.TokenBucket.GetAvailableTokens | internal/ratelimit/tokenbucket/limiter.go:56-62 | the refilled level, which is also stored |
| TokenBucket.TokenBucket.Reset | internal/ratelimit/tokenbucket/limiter.go:65-71 | the state of a new bucket |
| SlidingWindow.EveryWindowHoldsAtMostMaxPerReset | internal/ratelimit/slidingwindow/limiter.go:24-102 | every half-open window of the configured size, wherever it lies, holds at most the maximum of all admissions ever made, and the maximum more for each reset in it; for all runs whose batches do not overflow the live count |
| SlidingWindow.EveryWindowSinceResetHoldsAtMostMax | internal/ratelimit/slidingwindow/limiter.go:24-76 | of the admissions since the last reset every such window holds at most the maximum |
| SlidingWindow.WindowsKeepFittingExactlyWithoutOverflow | internal/ratelimit/slidingwindow/limiter.go:24-76 | after any run, one more call leaves no window overfull if and only if it is not a batch that overflows the live count |
| SlidingWindow.SmallBatchesAreRegular | internal/ratelimit/slidingwindow/limiter.go:50-76 | when no batch is larger than the greatest int less the maximum, no sum overflows in any state of the run |
| SlidingWindow.PruningIsInvisible | internal/ratelimit/slidingwindow/limiter.go:28-95 | after any run, an answer is that of a limiter that keeps all admissions and counts those in the window ending now, if and only if the call does not overflow the live count |
| SlidingWindow.RemainingIsExact | internal/ratelimit/slidingwindow/limiter.go:50-95 | the remaining count is never negative, and a batch is admitted if and only if it is no larger or overflows the live count |
| SlidingWindow.OverflowingBatchIsAdmitted | internal/ratelimit/slidingwindow/limiter.go:65 | with one live time, a batch of the greatest int makes the sum in the guard wrap around and is admitted, although only max - 1 requests remain |
| SlidingWindow.BatchEqualsSinglesExactly | internal/ratelimit/slidingwindow/limiter.go:24-76 | a batch succeeds exactly when as many single requests at once all do, if and only if it does not overflow the live count; then the state is the same too, and a refused batch records nothing |
| SlidingWindow.BatchAdmittedLikeSinglesWithoutWindowExactly | internal/ratelimit/slidingwindow/limiter.go:24-76 | for a window that is not positive, exactly when a batch and as many single requests are decided alike |
| SlidingWindow.BatchEqualsSinglesWithoutWindowExactly | internal/ratelimit/slidingwindow/limiter.go:24-76 | for a window that is not positive, exactly when they also leave the same state |
| SlidingWindow.TimesDoNotMatterWithoutWindow | internal/ratelimit/slidingwindow/limiter.go:28-95 | for a window that is not positive, recorded times change no later answer |
| SlidingWindow.Limiter.ValidRequests | internal/ratelimit/slidingwindow/limiter.go:32-37 | the filtering loop keeps exactly the later times, each as often as it was stored, in order |
| SlidingWindow.AfterKeepsExactly | internal/ratelimit/slidingwindow/limiter.go:32-37 | filtering keeps every later time as often as it was there and nothing else, and so as many as there are later times |
| SlidingWindow.Limiter.Allow | internal/ratelimit/slidingwindow/limiter.go:24-47 | admitted if and only if fewer stored times than the maximum are after the window start; the times that are stored then |
| SlidingWindow.Limiter.AllowN | internal/ratelimit/slidingwindow/limiter.go:50-76 | admitted if and only if the batch and the later times fit the maximum, or their sum overflows; the times that are stored then, for any sign of the count |
| SlidingWindow.Limiter.GetRemainingRequests | internal/ratelimit/slidingwindow/limiter.go:79-95 | the maximum less the live times, without pruning |
| SlidingWindow.Limiter.Reset | internal/ratelimit/slidingwindow/limiter.go:98-102 | forgets all times |
| RoundRobin.WindowFairness | internal/loadbalancer/roundrobin/balancer.go:21-34 | any n successive calls over k origins pick position p n / k times, and once more exactly when (p - counter) mod k < n mod k |
| RoundRobin.WholeRoundsAreEven | internal/loadbalancer/roundrobin/balancer.go:21-34 | m * k successive calls pick every position exactly m times |
| RoundRobin.CounterCountsSelections | internal/loadbalancer/roundrobin/balancer.go:21-34 | a counter that is not negative grows by exactly the number of calls with origins, whatever the lists, until it wraps |
| RoundRobin.FreshBalancerReachesPanic | internal/loadbalancer/roundrobin/balancer.go:21-34 | after as many selections as make the counter wrap, the next one panics if and only if the list length does not divide the least int; 3 is such a length |
| RoundRobin.PanicLastsExactlyUntilDivided | internal/loadbalancer/roundrobin/balancer.go:21-34 | a negative counter, and with it the panic, stays through any later calls if and only if none of their list lengths divides it |
| RoundRobin.Balancer.SelectOrigin | internal/loadbalancer/roundrobin/balancer.go:21-34 | the origin at the counter modulo the list length and the counter advanced, with its wrap-around; error on an empty list; with a negative counter the first origin if the list length divides it and else the panic, which leaves the counter |
| RoundRobin.Balancer.Reset | internal/loadbalancer/roundrobin/balancer.go:37-41 | starts over |
| LeastConn.Balancer.SelectOrigin | internal/loadbalancer/leastconn/balancer.go:23-48 | an origin with the least count, earlier ones having more, where an unknown ID counts 0; also when all counts are the greatest int; error on an empty list |
| LeastConn.Balancer.IncrementConnections | internal/loadbalancer/leastconn/balancer.go:51-55 | one more connection of that origin, nothing else changed |
| LeastConn.Balancer.DecrementConnections | internal/loadbalancer/leastconn/balancer.go:58-64 | one connection less, never below zero, nothing else changed |
| LeastConn.Balancer.GetConnectionCount | internal/loadbalancer/leastconn/balancer.go:67-71 | the count, 0 for an unknown origin |
| LeastConn.Balancer.Reset | internal/loadbalancer/leastconn/balancer.go:74-78 | all counts forgotten |
| LeastConn.ServingKeepsSpread | internal/loadbalancer/leastconn/balancer.go:23-55 | a selection with its increment never raises the spread above the greater of its old value and 1 |
| LeastConn.SpreadWithSelectionsInFlight | internal/loadbalancer/leastconn/balancer.go:23-55 | with selections and increments as separate, freely interleaved steps, the spread never rises above the greater of its old value and the most selections in flight |
| LeastConn.InFlightBoundIsReached | internal/loadbalancer/leastconn/balancer.go:23-55 | for every k, k selections from level loads before any increment give a spread of k |
| LeastConn.MaximumHoldsUntilLevel | internal/loadbalancer/leastconn/balancer.go:23-55 | until the deficit is served no load passes the old maximum |
| LeastConn.CatchingUp | internal/loadbalancer/leastconn/balancer.go:23-55 | each request lowers the deficit by exactly one |
| LeastConn.EventuallyRoundRobin | internal/loadbalancer/leastconn/balancer.go:23-55 | from any counts, after exactly the deficit the loads are level, and from then on request n goes to position n mod k with loads known exactly |
| LeastConn.StaircaseSpread | internal/loadbalancer/leastconn/balancer.go:23-55 | such loads differ by at most 1 |
| LeastConn.FreshBalancersAgree | internal/loadbalancer/leastconn/balancer.go:23-55 | from empty counts pick number n is position n mod k, which is what a fresh round-robin balancer picks after n calls |
| LeastConn.CountIsBalanceAboveLowest | internal/loadbalancer/leastconn/balancer.go:51-64 | after any history of opened and closed connections, the count is the balance above its lowest point |
| RateLimit.EveryStretchBounded | internal/gateway/middleware/ratelimit.go:29-57 | after any past, a stretch with r ticks admits at most (r + 1) * limit requests of a key |
| RateLimit.AdmittedExactly | internal/gateway/middleware/ratelimit.go:29-57 | exactly how many requests of a key any stretch admits after any past: those of each piece between ticks, capped at the limit, less what the past used of the first piece |
| RateLimit.KeepsLimitExactly | internal/gateway/middleware/ratelimit.go:29-57 | a stretch admits at most the limit after every past if and only if its own capped requests add up to at most the limit |
| RateLimit.EverySpanHoldsAtMostTwiceTheLimit | internal/gateway/middleware/ratelimit.go:49-57 | with ticks at least a window apart, any half-open span of that length admits at most twice the limit of a key |
| RateLimit.TwiceTheLimitAcrossATick | internal/gateway/middleware/ratelimit.go:29-57 | an instance above the limit, for every positive limit: twice the limit is admitted around one tick |
| RateLimit.RefusedExactlyAtLimit | internal/gateway/middleware/ratelimit.go:33-42 | a request is refused if and only if its key made `limit` requests since the last tick, whatever other keys did |
| RateLimit.Limiter.Admit | internal/gateway/middleware/ratelimit.go:33-43 | decision and new counts |
| RateLimit.Limiter.CleanupTick | internal/gateway/middleware/ratelimit.go:54-56 | all counts forgotten |
| Cache.LookupFollowsLastSet | internal/gateway/middleware/cache.go:30-65 | under any interleaving of writes, lookups and sweeps, a lookup hits with the data of the last write of its key if and only if the time to live of that write is not over |
| Cache.SweepsAreInvisible | internal/gateway/middleware/cache.go:52-65 | leaving out all sweeps of a run changes no later lookup at any time |
| Cache.SweepKeepsExactlyTheUnexpired | internal/gateway/middleware/cache.go:56-64 | after a sweep exactly the keys that still hit are stored |
| Cache.Cache.Get | internal/gateway/middleware/cache.go:30-40 | a hit exactly up to and including the expiry moment |
| Cache.Cache.Set | internal/gateway/middleware/cache.go:42-50 | replaces the entry of this key only |
| Cache.Cache.CleanupTick | internal/gateway/middleware/cache.go:56-64 | deletes exactly the expired entries, in whatever order the map is visited |
| StringArray.ScanInvertsValueExactly | internal/models/models.go:175-214 | for all arrays: parsing the printed form gives the elements back if and only if they are ASCII, without comma and quote, and the last is not empty |
| StringArray.ValueInvertsScanExactly | internal/models/models.go:175-214 | for all byte strings: `Scan` panics exactly below two bytes, and printing the result gives the bytes back if and only if they are brace-wrapped, ASCII, quote-free and without a comma before the closing brace |
| StringArray.SplitInvertsQuotedJoinExactly | internal/models/models.go:216-247 | with every element in quotes, splitting recovers the elements, commas included, if and only if they are ASCII and quote-free and the last is not empty |
| StringArray.SplitInvertsJoinExactly | internal/models/models.go:216-247 | the same without quotes |
| StringArray.JoinInvertsSplitExactly | internal/models/models.go:216-247 | for which texts joining the split elements gives the text back |
| StringArray.SplitArray | internal/models/models.go:216-247 | for every text, the pieces between the commas that have an even number of quotes before them, without quotes and encoded anew; the last piece only when not empty; nil exactly for texts of nothing but quotes |
| StringArray.SplitCutsAtEvenQuotes | internal/models/models.go:216-247 | the specified split is determined by the parity of the quotes before each comma, for every text, unclosed quotes included |
| StringArray.NilExactlyForQuotes | internal/models/models.go:216-247 | the result is nil if and only if the text is not empty and consists of quotes |
| StringArray.EncodedIsUtf8 | internal/models/models.go:239 | a collected byte stays one byte if it is ASCII and else becomes the two UTF-8 bytes of the character with that number |
| StringArray.Column.Value | internal/models/models.go:175-190 | braces around the elements, each at its offset after the commas and elements before it; the empty braces for nil |
| StringArray.PrintedInBraces | internal/models/models.go:175-190 | the same of the printed text that the round trips are about, where nil and the empty slice print alike |
| StringArray.Column.Scan | internal/models/models.go:192-214 | an empty slice for null; an error for strings and other values; a panic below two bytes; else the pieces between the first and the last byte; unchanged on error and panic |
| StringArray.ParsedSources | internal/models/models.go:192-214 | the same of the parser that the round trips are about |
| Migrator.GetMigrationFiles | cmd/migrator/main.go:88-103 | the names with the suffix, each as often as it is listed, in lexicographic order, whatever order the directory lists them in |
| Migrator.MigrationFilesAreTheScripts | cmd/migrator/main.go:88-103 | exactly the entries with the suffix, sorted, with distinct versions |
| Migrator.FirstDifferenceDecides | cmd/migrator/main.go:101 | in the order of the files a name comes before its continuations, and else the first differing character decides, upward |
| Migrator.ScriptNames | cmd/migrator/main.go:96-130 | scripts are the names that end in .up.sql, and the version is what stands before that |
| Migrator.FileOrderIsVersionOrderExactly | cmd/migrator/main.go:101-130 | when the order of two files is the order of their versions |
| Migrator.RunsInVersionOrderExactly | cmd/migrator/main.go:88-130 | a directory's scripts run in the order of their versions if and only if the two orders agree on every pair of them |
| Migrator.CommittedIsPrefixOfPending | cmd/migrator/main.go:122-170 | for any number of interleaved, failing and relaunched runners, the committed scripts are a prefix of the initially pending ones, each once, and recorded exactly |
| Migrator.CallsAreOneRun | cmd/migrator/main.go:105-173 | any series of calls of the program is one run of the protocol in which its runner is relaunched |
| Migrator.CallsCommitPrefixOfPending | cmd/migrator/main.go:105-173 | after any series of calls, each failing anywhere or not, the committed scripts are a prefix of the initially pending ones, each once |
| Migrator.SuccessCommitsAllPending | cmd/migrator/main.go:128-172 | when a runner gets past the last file, all initially pending scripts are committed |
| Migrator.SuccessIsFinal | cmd/migrator/main.go:128-172 | after a success no further run, of any runners, changes the database |
| Migrator.SoloSucceedsExactly | cmd/migrator/main.go:128-172 | undisturbed by others, a run succeeds if and only if no pending script meets a failure, and then has committed all of them; else exactly those before the first failure, and that script only if its commit took effect unseen |
| Migrator.CallCommitsUpToFailure | cmd/migrator/main.go:105-173 | the same of one call of the program in a series of calls; without files or table it changes nothing |
| Migrator.OneCleanCallCompletes | cmd/migrator/main.go:105-173 | after any calls that failed anywhere, one call that meets no failure leaves all initially pending scripts committed, in order and each once |
| Migrator.Database.ApplyScript | cmd/migrator/main.go:139-167 | succeeds if and only if the script commits and was not recorded; script and record take effect together for these and for a commit that only seems to fail, and not at all for a failure at any other step |
| Migrator.AttemptByFate | cmd/migrator/main.go:139-167 | the same of the transaction in the protocol of concurrent runners, fate by fate |
| Migrator.Database.RunMigrationsUp | cmd/migrator/main.go:105-173 | with a directory and a table that can be read, success if and only if no pending script meets a failure, and then the log has grown by exactly the pending scripts in order; else by those before the first failure, and that one only if its commit took effect unseen; otherwise nothing changes; the same as one call in the series above |
| Migrator.Database.ApplyPending | cmd/migrator/main.go:128-172 | the loop over the files, with the same result |
| Sorting.SortIsAscending | internal/loadbalancer/consistenthash/balancer.go:44-46 | sorting gives the one ascending arrangement, so any sorting algorithm gives the same keys |

## Left out

- HTTP servers, the router, the reverse proxy, handlers, repositories, authentication, configuration, logging and metrics: input and output around the modelled structures.
- CRC-32 and UUID formatting: the hash is any function from strings to 32-bit numbers, an origin's ID is a string.
- Goroutine scheduling, ticker drift and clocks that go back: every locked method is one step, and the sweeps are steps that may come at any point.
- TokenBucket.TokenBucket.Allow: levels and times are reals, so rounding of float64 is not modelled.
- RateLimit.EverySpanHoldsAtMostTwiceTheLimit: takes the spacing of the ticks as given; a ticker that delivers two ticks closer together, after a delay, is not covered.
- RoundRobin.WindowFairness: holds up to the 64-bit wrap-around of the counter; what happens after it is in the contract of `SelectOrigin`.
- LeastConn.EventuallyRoundRobin: holds while the loads stay below the greatest int and no connection is closed meanwhile, for requests whose selection and increment follow each other; SpreadWithSelectionsInFlight is the statement when they do not.
- LeastConn.ServingKeepsSpread: takes a selection and its increment together, as above.
- SlidingWindow.Limiter.AllowN: memory is unbounded, so the exhaustion that follows when the loop records an overflowing batch is not modelled.
- Times and durations do not wrap around: nanosecond clocks and windows near the limits of 64 bits are not modelled.
- Cache.Cache.Set: data is a value, so a caller that later changes the stored byte slice is not modelled.
- StringArray.ScanInvertsValueExactly: `Value` returns a string and `Scan` accepts bytes only, so the round trip is the one through a database driver that returns the text as bytes; handing the string itself to `Scan` is an error, as the contract of `Column.Scan` says.
- Migrator.Database.RunMigrationsUp: the schema is the list of committed scripts, not what their SQL does; each transaction is one step of the concurrent protocol, as the primary key of the version table enforces, and the texts of error messages are not specified. What it says of the pending scripts is for directories that list no name twice.
- The `down` command of the migrator: it only logs that rollback is not implemented.
