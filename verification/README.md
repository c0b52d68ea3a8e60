# Polymarket market fetcher: a verified model

The system is a background worker in two parts. The scanner discovers new
up/down markets by guessing their slugs, asks the Gamma API for them, merges in
order-book data from the CLOB API and keeps the rows of `new_markets` fresh. The
collector polls deep order books of the active tokens, buffers them, drops
repetitions and stores the rest in `book_snapshots`. This project models the
stateful logic of both parts and proves what holds over whole runs of it.

| file | what it models |
|---|---|
| `GoText.dfy` | 64-bit wrap-around, truncated division, `%d`, `strconv.ParseInt` |
| `Slugs.dfy` | printing, parsing and generating slugs |
| `Discovery.dfy`, `DiscoveryRuns.dfy`, `LateFallback.dfy` | a discovery cycle; all runs of cycles; a cycle that leaves a hole |
| `MarketTable.dfy` | the COALESCE upsert |
| `BookMerge.dfy` | fetching order books in batches and merging them into markets |
| `Refresh.dfy`, `RefreshSchedule.dfy` | what refresh writes; which rows it picks |
| `Scanner.dfy` | whole discovery and refresh cycles, put together from the above |
| `Batching.dfy`, `Dedup.dfy`, `SnapshotTable.dfy` | batches; the duplicate filter on streams; ON CONFLICT DO NOTHING |
| `Pipeline.dfy`, `Collector.dfy` | the collector as a step machine; the class whose methods are its steps |
| `RateLimiter.dfy` | the limiter as a step machine for any number of callers; retrying |
| `Models.dfy`, `Wrappers.dfy`, `Arithmetic.dfy` | shared records; steps of arithmetic |

Code that updates state is a class or a loop whose contract ties the new state to
a function of the old one; the theorems are about those functions. The two
concurrent protocols, collector and rate limiter, are step functions over events,
and a run is any sequence of events, so every interleaving is covered.

HTTP, SQL, clocks, randomness and cancellation are parameters: a request answers
or fails, a batch insert succeeds or stores nothing, a clock reading is an
argument, and a query result is any result that its SQL allows. Hypotheses about
them are named where they are used: Gamma answers under the slug it was asked for
and with a `start_date` that increases with the slug's timestamp
(`GammaEchoes`, `StartIncreasing`), the clock is not negative and does not run
backwards within a cycle, and timestamps fit 64 bits (`ClockOk`, `Fits`).

## What turned out not to hold

- The hash map of the filter is written before the insert. It speaks of what is
  *offered*, not of what is *inserted* as its comment says. Two things part them: a
  failed insert (`Pipeline.AgreementAfterFailedFlush` has the exact condition,
  `Pipeline.LostHashIsNotRetried` an input) and, even when every insert succeeds, a
  row whose token and timestamp are taken, which DO NOTHING drops
  (`Pipeline.AgreementAfterFlush`, `Pipeline.TakenKeyHidesHash`).
  `Pipeline.AgreementInRun` has the exact condition for whole runs of both.
  `Pipeline.KnownHashIsNeverStored` shows that a book lost in either way stays
  missing until its hash changes.
- The flush at shutdown does not always empty the buffer: it does exactly if no
  fetch that follows the swap brings a batch that fits
  (`Pipeline.ShutdownDrainsIffNothingFollows`, `Pipeline.LateBatchIsLeft`).
- With a negative `FUTURE_SLUG_COUNT` discovery can ask again for what it has;
  `Discovery.AlwaysNewerIff` gives the exact condition.
- A window that discovery passes over is never asked for again
  (`DiscoveryRuns.GapIsPermanent`). A fallback from a stale anchor passes over the
  window after it exactly if the anchor lies before the window that is open then
  (`DiscoveryRuns.FallbackSkipsIff`), which is always so with a
  `FUTURE_SLUG_COUNT` of at least 1 and need not be with 0
  (`DiscoveryRuns.FallbackMayFollowAnchor`); if it finds anything, the window stays
  missing (`DiscoveryRuns.FallbackLeavesHole`; `LateFallback.LateFallbackLeavesHole`
  is such a cycle). Over any run the store has no hole exactly if every cycle finds a
  prefix of what it asks for, and nothing if it passes over a window
  (`DiscoveryRuns.RunIsGapFreeIff`).
- Refresh leaves a row that Gamma does not answer for at the head of its queue, so
  rows can starve. The wait of a row is bounded exactly if fewer than
  `REFRESH_LIMIT` such rows of active intervals are as old as it or older
  (`RefreshSchedule.WaitIsBoundedIff`, with the bound in `NoStarvation` and the
  starving run in `StarvingRun`). Rows of one upsert have one stamp, so one failing
  row of the same batch can do with a limit of 1 (`RefreshSchedule.TiedRowStarves`).
  With nothing else writing the failing rows, a row is never selected, in any run,
  exactly if `REFRESH_LIMIT` of them are strictly older
  (`RefreshSchedule.MustStarveIff`).
- The token preservation of refresh works row by row. It fails when Gamma answers
  with the slug of another row while the selected row holds an empty token
  (`Refresh.RefreshKeepsTokenIff`). Whatever Gamma answers, refresh keeps every
  token exactly if no row holds an empty one, or none a token to lose
  (`Refresh.StoredTokensStayIff`, `Refresh.TokensStayIff`). Discovery does not
  preserve tokens at all (`Refresh.DiscoveryKeepsTokenIff`).
- A comment says that a 404 ends the retry loop. The code ends it only on the two
  context errors; the model follows the code. Neither API client calls the loop.

## Model

| member | source | states |
|---|---|---|
| GoText.IntTextRoundTrip | internal/scanner/sluggen.go:90-94 | what `%d` prints, ParseInt reads back, or reports a range error outside int64 |
| GoText.WrapsAround | internal/scanner/sluggen.go:29 | 64-bit sums wrap around modulo 2^64 |
| GoText.TruncatesTowardZero | internal/scanner/sluggen.go:23 | integer division leaves a remainder of the sign of the dividend |
| Slugs.SearchBackwards | internal/scanner/sluggen.go:79-96 | the index loop finds the text behind the last infix that has something behind it |
| Slugs.ParseTimestampSlug | internal/scanner/sluggen.go:79-99 | the parser, with its three kinds of errors |
| Slugs.ParseErrors | internal/scanner/sluggen.go:79-99 | which slugs fail to parse in which of the three ways |
| Slugs.InfixPlaces | internal/scanner/sluggen.go:80-90 | an infix in a printed slug is its own, or ends two characters or more before the timestamp |
| Slugs.SlugRoundTrip | internal/scanner/sluggen.go:60-99 | parsing undoes printing for every symbol, both intervals and every int64 |
| Slugs.OtherIntervalFails | internal/scanner/sluggen.go:79-99 | parsing under the other interval is always an error |
| Slugs.PrintSlugInjective | internal/scanner/sluggen.go:60-61 | printing is injective in symbol, interval and timestamp |
| Slugs.GenerateInitialSlugs | internal/scanner/sluggen.go:10-32 | the n slugs after the current window, or an unknown interval |
| Slugs.GenerateNextSlugs | internal/scanner/sluggen.go:35-65 | the n slugs after the anchor, or the error of the anchor |
| Slugs.FollowingIsNextGridPoints | internal/scanner/sluggen.go:58-63 | the candidates are exactly the next n grid points |
| Slugs.LiveAnchorReachesNow | internal/scanner/sluggen.go:51-56 | an anchor is stale exactly if its n-th successor lies before now |
| Slugs.AnchoredCoversCurrentWindow | internal/scanner/sluggen.go:51-63 | from a live anchor no open window is lost and the last candidate is not before now |
| Slugs.FallbackIsNextWindows | internal/scanner/sluggen.go:21-30 | the fallback asks for exactly the next n windows, none opened yet |
| Slugs.CurrentSlugNamesOpenWindow | internal/scanner/sluggen.go:103-119 | the current slug parses to the window that contains now; only an unknown interval has none |
| Slugs.InitialSlugsAreNextWindows | internal/scanner/sluggen.go:10-32 | with 5 or 15 minutes: the i-th slug is written symbol-updown-5m-ts or -15m-ts, ts being the i-th window start after the open one |
| Slugs.NextSlugsAreNextWindows | internal/scanner/sluggen.go:35-65 | with 5 or 15 minutes: the i-th slug is i windows after the anchor; stale exactly if the last lies before now |
| Slugs.CurrentSlugIsOpenWindow | internal/scanner/sluggen.go:103-119 | with 5 or 15 minutes: the slug of the one window that holds now |
| Slugs.FarFutureIsStale | internal/scanner/sluggen.go:52-54 | a timestamp too large for time.Unix wraps around and looks stale |
| Discovery.GeneratePairSlugs | internal/scanner/scanner.go:85-102 | anchored generation, and the fallback on any error |
| Discovery.GenerateTasks | internal/scanner/scanner.go:82-111 | the nested loop yields the tasks of all pairs in order |
| Discovery.TaskIffAsked | internal/scanner/scanner.go:82-111 | for each coin and interval a cycle asks for exactly the timestamps after the anchor or the clock |
| Discovery.FirstCycleAsks | internal/scanner/scanner.go:82-111 | over an empty store: exactly the next windows of 5 and 15 minutes of btc, eth, sol and xrp |
| DiscoveryRuns.TasksDistinct | internal/scanner/scanner.go:82-111 | no slug is asked for twice in a cycle |
| Discovery.CycleCoversOpenWindow | internal/scanner/scanner.go:89-109 | an anchored cycle asks for the open window unless the anchor has passed it |
| Discovery.RequestedIsNewer | internal/scanner/scanner.go:89-98 | anchored or fallback, requests lie after the anchor |
| Discovery.AlwaysNewerIff | internal/scanner/scanner.go:89-98 | they always do exactly if the look-ahead is not negative or the fallback is empty |
| Discovery.AnchorIsNewest | internal/db/postgres.go:50-74 | the slug with the latest start_date is the newest stored market of its pair |
| Discovery.TaskShape | internal/scanner/scanner.go:103-109 | every requested slug parses, lies on the grid and is asked for by the anchor or the clock |
| Discovery.RequestsAreNew | internal/scanner/scanner.go:82-111 | every requested slug is newer than all stored for its pair |
| DiscoveryRuns.CycleKeepsGrid | internal/scanner/scanner.go:119-151 | a cycle, with refresh writes mixed in, keeps every stored slug well formed, on the grid and dated |
| DiscoveryRuns.RunKeepsRows | internal/scanner/scanner.go:146-151 | no stored market disappears or changes its pair |
| DiscoveryRuns.NewestNeverDecreases | internal/scanner/scanner.go:146-151 | over any run the greatest stored timestamp of a pair never decreases |
| DiscoveryRuns.DiscoveryRun | internal/scanner/scanner.go:72-151 | from an empty store, in every reachable state, slugs are well formed and requests are newer than what is stored |
| DiscoveryRuns.GapIsPermanent | internal/scanner/scanner.go:82-135 | a window passed over is never stored in any continuation |
| DiscoveryRuns.StoredIffFound | internal/scanner/scanner.go:119-151 | a requested timestamp is stored after the cycle exactly if the cycle writes its market |
| DiscoveryRuns.AnchoredCycleGapFreeIffPrefix | internal/scanner/scanner.go:89-135 | an anchored cycle opens no gap exactly if the markets it writes are those of a prefix of its requests |
| DiscoveryRuns.CycleGapFreeIff | internal/scanner/scanner.go:85-135 | any cycle, anchored or falling back, opens no gap exactly if it finds a prefix of its requests, and nothing if it passes over a window |
| DiscoveryRuns.RunIsGapFreeIff | internal/scanner/scanner.go:85-135 | over any run the stored windows have no hole exactly if that holds of every cycle |
| LateFallback.LateFallbackLeavesHole | internal/scanner/scanner.go:91-95 | the cycles, one for each stale market and time, that leave a hole |
| DiscoveryRuns.FallbackSkipsIff | internal/scanner/scanner.go:91-95 | a fallback does not ask for the window after the stale anchor exactly if the anchor lies before the open window |
| DiscoveryRuns.FallbackMayFollowAnchor | internal/scanner/sluggen.go:51-56 | without look-ahead a fallback can ask for the very next window |
| DiscoveryRuns.RowWriteIsOk | internal/scanner/scanner.go:231-256 | a refresh of a row that the same cycle inserted answers the task that the row came from |
| MarketTable.ColumnIsRegister | internal/db/postgres.go:178-202 | each COALESCE column holds the last non-null value written, under any interleaving |
| MarketTable.LastWrittenIsLast | internal/db/postgres.go:179-201 | that value is the one of the last write that sets the column |
| MarketTable.ColumnNeverReturnsToNull | internal/db/postgres.go:179-201 | a non-null column never becomes null |
| MarketTable.RowsAndIdentities | internal/db/postgres.go:99-123 | rows are those stored and those written, one per slug; symbol and interval survive conflicts |
| MarketTable.FirstWriteNames | internal/db/postgres.go:164-178 | a new row takes symbol and interval from the first write to it |
| MarketTable.UpdatedByLastWrite | internal/db/postgres.go:202 | updated_at is the stamp of the last write |
| MarketTable.FirstUpsertIsAbsorbed | internal/db/postgres.go:178-202 | an upsert that a later, fuller one follows leaves no trace in any column, whatever comes between |
| MarketTable.FirstUpsertIsAbsorbedInRow | internal/db/postgres.go:178-202 | of a row that existed before, no trace at all |
| MarketTable.MarketStore.UpsertBySlug | internal/db/postgres.go:162-216 | one upsert in place |
| MarketTable.MarketStore.UpsertMarketsBatch | internal/db/postgres.go:140-156 | one transaction, all under one stamp |
| BookMerge.NewMarket.MergeBookData | internal/scanner/scanner.go:312-328 | what the yes book sets |
| BookMerge.NewMarket.Merge | internal/scanner/scanner.go:290-302 | the merge of one answer into one market |
| BookMerge.MergeOnceSettles | internal/scanner/scanner.go:289-302 | one merge in terms of the columns: a non-empty yes hash beats the no hash, quotes come from the yes book |
| BookMerge.YesBookIsMerged | internal/scanner/scanner.go:290-295 | best bid, best ask, last trade and hash after a merge are the first bid, the first ask, the last trade and the hash of the yes book, if it has them |
| BookMerge.NoBookNoChange | internal/scanner/scanner.go:290-302 | an answer without the books of a market leaves it alone |
| BookMerge.NoBookFillsHash | internal/scanner/scanner.go:296-302 | the no book alone fills in a missing hash and nothing else |
| BookMerge.MergeIsOrderFree | internal/scanner/scanner.go:269-304 | the outcome depends only on the market and the books received, whatever the batches and failures |
| BookMerge.MergeIsLastQuote | internal/scanner/scanner.go:269-328 | for any answers: each column holds the last yes quote, the hash failing that the first of the no book |
| BookMerge.MergedBid | internal/scanner/scanner.go:269-316 | over all answers the best bid is the first bid of the last yes book with bids |
| BookMerge.MergedAsk | internal/scanner/scanner.go:269-320 | the same of the best ask |
| BookMerge.MergedLastTrade | internal/scanner/scanner.go:269-324 | the same of the last trade price |
| BookMerge.MergedHash | internal/scanner/scanner.go:269-327 | the same of the hash |
| BookMerge.MergedNoHash | internal/scanner/scanner.go:269-302 | without a yes hash a missing hash is that of the first no book with one |
| BookMerge.ChunkedIsOneShot | internal/scanner/scanner.go:270-304 | for every batch size the result is that of one big request |
| BookMerge.MergeNeverNulls | internal/scanner/scanner.go:312-328 | merging never nulls a column |
| BookMerge.MergedSupersedes | internal/scanner/scanner.go:288-309 | a merged batch supersedes the plain one |
| BookMerge.MergeAnswer | internal/scanner/scanner.go:282-303 | one batch: merged in, or passed over if the request failed |
| BookMerge.FetchAndMergeBatches | internal/scanner/scanner.go:269-304 | the batch loop up to the end or to cancellation |
| BookMerge.FetchAndMergeCLOBData | internal/scanner/scanner.go:269-310 | the loop and its upsert, which cancellation skips |
| Refresh.MappingReadsBack | internal/scanner/scanner.go:331-425 | everything Gamma says can be read back from its column, save numbers that are not positive |
| Refresh.MappingFillsColumns | internal/scanner/scanner.go:331-425 | which columns are always or never set; both tokens or neither; no empty text but a token, no number that is not positive |
| Refresh.RefreshMarkets | internal/scanner/scanner.go:212-250 | the loop over selected rows, with its token list and cancellation |
| Refresh.RefreshedToken | internal/scanner/scanner.go:231-238 | the token written is Gamma's if it has one, else the stored one |
| Refresh.RefreshReadsBack | internal/scanner/scanner.go:231-242 | what refresh writes has Gamma's slug, the stored names, and reads back as Gamma's texts, flags, prices, sizes and status |
| Refresh.RefreshKeepsTokens | internal/scanner/scanner.go:232-238 | its tokens are Gamma's where not empty, else the stored ones |
| Refresh.CollectsTokens | internal/scanner/scanner.go:244-249 | yes before no, empty ones left out |
| Refresh.CollectsAllTokens | internal/scanner/scanner.go:244-249 | books are fetched for exactly the non-empty tokens of the markets |
| Refresh.RefreshKeepsTokenIff | internal/scanner/scanner.go:231-238 | refreshing one row keeps a stored token of any row exactly under the stated condition |
| Refresh.RefreshRunKeepsTokens | internal/scanner/scanner.go:231-256 | if Gamma echoes slugs, over any number of refresh cycles a stored token ID never becomes null or empty |
| Refresh.StoredTokensStayIff | internal/scanner/scanner.go:231-256 | whatever Gamma answers, the tokens of a table survive all refresh cycles exactly if no row holds an empty token or none a token |
| Refresh.TokensStayIff | internal/scanner/scanner.go:231-256 | those stored on the way included, exactly if no row holds an empty token |
| Refresh.DiscoveryKeepsTokenIff | internal/scanner/scanner.go:134-151 | a discovery write keeps a token exactly if Gamma's is absent or not empty |
| RefreshSchedule.CycleWorksOff | internal/db/postgres.go:236-240 | a cycle that passes over a row works off limit rows not newer, save failing ones |
| RefreshSchedule.NoStarvation | internal/db/postgres.go:228-241 | an eligible row is written within k / (limit - f) + 1 cycles, for any tie-breaking |
| RefreshSchedule.StarvingRun | internal/scanner/scanner.go:221-229 | with limit failing rows as old or older there is a run of any length that never writes the row |
| RefreshSchedule.WaitIsBoundedIff | internal/db/postgres.go:228-241 | some number of cycles is enough for the row, whatever happens, exactly if fewer than limit failing rows of active intervals are as old or older |
| RefreshSchedule.TiedRowStarves | internal/db/postgres.go:236-240 | with a limit of 1 a failing row of the same stamp starves another for ever |
| RefreshSchedule.MustStarveIff | internal/db/postgres.go:236-240 | while nothing writes the failing rows, no run selects the row exactly if limit of them are strictly older |
| Scanner.FetchMarkets | internal/scanner/scanner.go:115-144 | the Gamma loop of discovery, with its token list and cancellation |
| Scanner.UpsertAndMerge | internal/scanner/scanner.go:146-156 | upsert, merge, upsert: the table after the cycle |
| Scanner.RunDiscovery | internal/scanner/scanner.go:72-163 | a whole discovery cycle as a list of writes |
| Scanner.RunRefresh | internal/scanner/scanner.go:197-266 | a whole refresh cycle as a list of writes |
| Scanner.UpsertBeforeMergeIsAbsorbed | internal/scanner/scanner.go:146-156 | the upsert before the merge leaves no trace once the one after it is made |
| Scanner.DiscoveryWritesAnswers | internal/scanner/scanner.go:134-151 | what discovery writes, plain or merged, is what the run theorems assume |
| Scanner.WrittenIffAnswered | internal/scanner/scanner.go:119-151 | a cycle whose upsert succeeds writes a requested slug exactly if Gamma answers for it |
| Scanner.FindsIffAnswered | internal/scanner/scanner.go:119-151 | with refresh cycles in between, too: a requested timestamp is found exactly if Gamma has its market |
| Scanner.FindsPrefixIffAnswersPrefix | internal/scanner/scanner.go:119-135 | so a cycle finds a prefix of its requests exactly if Gamma has the markets of one |
| Scanner.RefreshWritesCarryTokens | internal/scanner/scanner.go:212-256 | whatever Gamma answers, refresh writes are what the token theorems assume |
| Scanner.RefreshWritesRewrite | internal/scanner/scanner.go:231-256 | if Gamma echoes, refresh only rewrites rows, keeping names, start dates and tokens |
| Scanner.DiscoveryCycleIsOk | internal/scanner/scanner.go:72-163 | a discovery cycle with any refresh cycles in it is a cycle of the run theorems |
| Scanner.AnsweredIsTouched | internal/scanner/scanner.go:221-256 | a selected row that Gamma answers for is written |
| Scanner.CycleStoresMarket | internal/scanner/scanner.go:146-156 | after a cycle whose first upsert succeeds a column that books do not touch holds what the market says |
| Scanner.CycleStoresMerged | internal/scanner/scanner.go:146-310 | after one whose second upsert succeeds every column holds the market with the books merged in |
| Scanner.RefreshStoresAnswer | internal/scanner/scanner.go:212-256 | a selected row that Gamma answered for holds its status, flags, texts, dates and sizes |
| Scanner.RefreshDecidesEligibility | internal/db/postgres.go:236-238 | such a row is eligible again at once if neither closed nor funded, else when it is old enough |
| Scanner.DiscoveryStoresAnswer | internal/scanner/scanner.go:119-151 | the row of a task that Gamma answered for holds the same, under the names of the task if it is new |
| Batching.ChunkPartitions | internal/collector/collector.go:165-170 | the batches concatenate to the list, none empty or too long, their number rounded up |
| Dedup.KeptIsDestuttered | internal/collector/collector.go:263-279 | per token the kept hashes are the accepted ones without immediate repetitions |
| Dedup.KeptKeepsUnhashed | internal/collector/collector.go:271-277 | every row without a hash is kept, in order |
| Dedup.FilterIsLeastLossless | internal/collector/collector.go:263-279 | a selection tells every token's hash at every point exactly if it has all hashed rows that the filter keeps |
| Dedup.FlushBoundariesDoNotMatter | internal/collector/collector.go:249-279 | any two cuts of one stream into flushes keep the same rows and leave the same map |
| Dedup.FilterIdempotent | internal/collector/collector.go:270-278 | filtering a filtered stream changes nothing |
| SnapshotTable.InsertAllKeepsTable | internal/db/postgres.go:370-375 | stored rows stay, keys stay unique, each offered row is stored or yields to one with its key |
| SnapshotTable.StoredInFullIffFresh | internal/db/migrations.go:80 | a batch is stored in full exactly if its keys are new and distinct |
| SnapshotTable.InsertAllStoresNewRows | internal/db/postgres.go:370-375 | what is stored of a batch are the rows whose key neither the table nor an earlier row has |
| SnapshotTable.RowIsStoredIff | internal/db/migrations.go:80 | a row is turned away exactly if it has a timestamp that a row of its token, stored or offered before, has too |
| SnapshotTable.NewTimestampsAreStored | internal/db/postgres.go:370-375 | rows without a timestamp, or with one new for their token, are all stored |
| SnapshotTable.SnapshotStore.InsertBookSnapshotsBatch | internal/db/postgres.go:365-395 | the batch insert, or nothing when it fails |
| Pipeline.StepKeepsInv | internal/collector/collector.go:199-292 | append, reject, swap, filter and both outcomes of the insert keep the pipeline invariant |
| Pipeline.Conservation | internal/collector/collector.go:199-292 | under every interleaving drained, in-flight and buffered rows are the accepted stream in order, with fates, within the bound |
| Pipeline.LastHashIsLastOffered | internal/collector/collector.go:268-279 | at every moment the map holds the last hash offered per token, and the offered hashes are stutter-free |
| Pipeline.TableIsFilteredStream | internal/collector/collector.go:268-292 | the table is the filtered stream exactly if nothing was lost and no key met; then the map holds the last stored hash |
| Pipeline.AgreementAfterFailedFlush | internal/collector/collector.go:275-292 | after a failed insert, in any state, the map speaks of what is stored exactly if the batch's last hashes are stored already and it spoke of the other tokens |
| Pipeline.AgreementAfterFlush | internal/collector/collector.go:275-292 | after a successful one, in any state, exactly if each token's last hashed row has a new key, or what is stored without it ends on its hash, and it spoke of the other tokens |
| Pipeline.AgreementInRun | internal/collector/collector.go:249-292 | over whole runs exactly if each token's last offered row was sent under a new key, or what was delivered before it ends on its hash |
| Pipeline.TakenKeyHidesHash | internal/db/migrations.go:80 | two rows with one key and different hashes part map and table without any failure |
| Pipeline.KnownHashIsNeverStored | internal/collector/collector.go:272-274 | while a token's book keeps a hash the map holds, nothing of it is stored, in any continuation |
| Pipeline.LostHashIsNotRetried | internal/collector/collector.go:275-292 | a book accepted twice can be stored never |
| Pipeline.ShutdownDrainsIffNothingFollows | internal/collector/collector.go:232-237 | after the last swap the buffer stays empty exactly if every fetch that follows is empty or larger than the bound |
| Pipeline.LateBatchIsLeft | internal/collector/collector.go:232-237 | one row fetched after the last swap is left in the buffer |
| Collector.BatchSize | internal/collector/collector.go:160-163 | the clamp to 1..50 |
| Collector.SnapshotsFollowTokens | internal/collector/collector.go:185-193 | there are snapshots of exactly the tokens with a book, in token order |
| Collector.SnapshotHoldsBook | internal/collector/collector.go:303-333 | a snapshot has its token's names, the bids, asks, hash and last trade of its book, and its timestamp in milliseconds |
| Collector.FetchIsAllOrNothing | internal/collector/collector.go:165-209 | a pass appends whole batches in order and stops early only at an error or a full buffer |
| Collector.Collector.constructor | internal/collector/collector.go:40-48 | a new collector is the initial state |
| Collector.Collector.AppendToBuffer | internal/collector/collector.go:199-208 | the append, all or nothing |
| Collector.Collector.BuildSnapshots | internal/collector/collector.go:185-193 | the loop over one batch |
| Collector.Collector.FetchBatch | internal/collector/collector.go:178-208 | the body of the batch loop |
| Collector.Collector.FetchAndBuffer | internal/collector/collector.go:150-209 | one pass, as append events of the machine |
| Collector.Collector.SwapBuffer | internal/collector/collector.go:250-258 | the swap |
| Collector.Collector.DropDuplicates | internal/collector/collector.go:268-279 | the filter loop, updating the map in place |
| Collector.Collector.FilterDuplicates | internal/collector/collector.go:268-286 | the filter step |
| Collector.Collector.InsertFiltered | internal/collector/collector.go:288-292 | the insert step; a failing batch is dropped |
| Collector.Collector.FlushBuffer | internal/collector/collector.go:249-299 | a whole flush, as swap, filter and insert |
| RateLimiter.StepKeepsExclusive | internal/api/ratelimit.go:29-30 | one caller at most holds the slot, whatever the step |
| RateLimiter.StepKeepsTimed | internal/api/ratelimit.go:32-42 | grants stay spaced and sleepers wake late enough, whatever the step |
| RateLimiter.RateIsLimited | internal/api/ratelimit.go:28-43 | for all callers and schedules: exclusion, spacing, and few grants in any window |
| RateLimiter.SleepEndsOnTime | internal/api/ratelimit.go:32-34 | a sleep ends exactly minDelay after the last request |
| RateLimiter.ServedOnTime | internal/api/ratelimit.go:28-43 | at a free limiter a request goes out as soon as the spacing allows, and the slot is free again |
| RateLimiter.CancelledLeavesNoTrace | internal/api/ratelimit.go:35-39 | a cancelled sleep leaves the limiter as it was |
| RateLimiter.SlotIsFreedAgain | internal/api/ratelimit.go:29-30 | while one is inside no other gets in, and from every reachable state the one inside can leave |
| RateLimiter.BackoffDelay | internal/api/ratelimit.go:70-78 | each delay is within a quarter of its cap, in integer arithmetic |
| RateLimiter.BaseIsCapped | internal/api/ratelimit.go:71-74 | the caps are 2, 4, 8 and 16 seconds, or the maximum |
| RateLimiter.BackoffStartsLow | internal/api/ratelimit.go:75-77 | each number drawn gives its own pause, from a quarter below the cap upwards |
| RateLimiter.TotalPause | internal/api/ratelimit.go:46-78 | all pauses last at most 5/4 of their caps |
| RateLimiter.RateLimiter.Wait | internal/api/ratelimit.go:28-43 | one call without contention: granted late enough, or cancelled and unchanged |
| RateLimiter.RateLimiter.RetryWithBackoff | internal/api/ratelimit.go:46-68 | at most 5 calls, none after a success or a terminal error, and how the loop ends |

## Left out

- HTTP, JSON decoding, SQL text, connection pooling, logging, configuration, tickers, signals and panic recovery: plumbing, present only as parameters.
- What PostgreSQL keeps of a batch that fails part-way: a failing batch stores nothing in the model.
- Floating-point values: `ParseFloat` is uninterpreted, and a price is named by the text or JSON number it comes from.
- RFC 3339 dates, the JSON encoding of book levels and the two formats of token lists: given as parsed.
- The unique index on symbol, interval and start_date of `new_markets`: with distinct start dates per pair it never applies.
- `GetLatestSlugs` and `GetMarketsNeedingRefresh`: SQL queries, modelled by what their results satisfy (`Discovery.IsLatest`, `RefreshSchedule.IsSelection`); the map of latest slugs is keyed by the pair, which the code joins with a colon.
- `refreshTokens` and `GetActiveMarketTokens`: the token cache is an input of each pass, replaced whole between passes, and touches neither buffer nor map.
- `GenerateNextSlug`, `UpsertMarket`, `InsertBookSnapshot` and `GetMarketsByTokenIDs`: not called by the workers.
- Unbounded scanner batch sizes: `fetchAndMergeCLOBData` does not clamp `CLOB_BATCH_SIZE`, so the model requires it to be positive.
- Backoff caps below 2 ns: the random draw panics there, so the model requires a larger cap.
- BookMerge.MergeIsOrderFree: assumes that two answers do not disagree on the book of one token, because the code lets the later one win; `BookMerge.MergeIsLastQuote` covers such answers.
- Refresh.RefreshRunKeepsTokens: assumes that Gamma echoes slugs; `Refresh.StoredTokensStayIff` covers all other answers.
- Collector.Collector.FetchAndBuffer: one pass with no flush in between; flushes between its batches are covered by the step machine.
- RateLimiter.RateLimiter.Wait: one caller; contention is covered by the step machine.
