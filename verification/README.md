# Verification model of the feed reader's server

The server lets users subscribe to feeds, pages through their articles on two database back ends
(SQLite and Datastore), serves unread counts through a cache, refreshes feeds on a staggered
schedule, imports OPML, cleans up stale read marks, and keeps sessions and per-domain rate limiters
in memory. These modules model that behaviour in Dafny and prove what it promises, for every input,
every run and every interleaving of the steps modelled.

Time is an integer number of nanoseconds; every operation that reads a clock takes the reading as a
parameter. Tables are finite maps and sets. A read or write that can fail takes the set of failing
accesses as a parameter, so each contract holds for every combination of failures. Where Go leaves
an order open (map ranges, channel receives, equal elements in `sort.Slice`) the model takes an
arbitrary one, so each contract holds for all of them.

Models share functions with the methods they specify. So that these are fixed too, lemmas state what
operations do in the fields of the tables and in plain numbers: `PageContents`, `ServiceEffects`, and
`DueExactly`, `TrackedExactly`, `EntryInFields`, `NewRowsComeFromItems` and the like in other modules.

Every lemma switches automatic induction off, so each proof rests on the steps it spells out.

| module | what it covers |
|---|---|
| `Results`, `Collections` | option and result types; facts about sets and sequences |
| `Timeline` | the order both back ends page through, and the one listing of a set of articles |
| `Cursor`, `ArticleStore`, `Pages` | cursor texts; the article, subscription and status tables; requests and pages |
| `SqlitePager` | keyset pagination, and whole runs over a store that changes between requests |
| `DatastorePager`, `PagingTheorems` | projections, gather, sort, cursor scan, window, status filter; merge exactness, whole runs, agreement with SQLite |
| `ChangingRuns` | runs of Datastore requests while the merged listing changes between them |
| `PageContents` | what pages of both back ends hold, in the fields of the tables |
| `UnreadPaging` | the unread filter on Datastore: when cursors resume, when runs end early, when a whole run is exact |
| `UnreadCounts` | direct counts; seed-then-subtract; account statistics |
| `Cache`, `UnreadService`, `CountsInFlight` | the unread cache class; service calls over it and the drift of cached counts; the same with count calls in flight |
| `ServiceEffects` | what the service calls change and answer, in the fields of tables and cache |
| `OrphanCleanup` | the paged batch cleanup of read marks |
| `ArticleSave`, `TiedSaves`, `ConcurrentInserts` | sorting, limiting, pre-filtering and inserting the articles of a fetched feed; saving a feed again; inserts from several workers |
| `Feeds`, `FeedSchedule` | feeds; deduplication by URL and the staggered schedule |
| `SchedulerProtocol` | dispatcher, semaphore, wait group and workers as interleaved steps |
| `Polling` | when a feed is due; tracking writes; the running interval average |
| `SessionCache` | the session manager and every interleaving of its lock sections |
| `DomainLimiter` | per-domain limiters and every interleaving of lookups and cleanups |
| `Opml` | the streaming complexity check, feed extraction, deduplication |

Properties one might expect but which the code does not have are stated exactly: when they hold, and
a case in which they fail.

- An unread page on Datastore hands out a cursor whose next request starts over at the first article
  exactly in the case `UnreadPaging.EndsOnOldest` describes (`UnreadCursorResumes`, `UnreadRunCanRepeat`),
  and gives no cursor although unread articles remain exactly when its window does not suffice
  (`UnreadEndsEarlyExactly`, `UnreadCanEndEarly`). Whole unread runs from the first page are exact if and
  only if neither happens at any page start (`UnreadPagingWorksExactly`, `ClientSeesAllUnreadExactly`).
- Datastore paging never reaches an article that has `min(2*limit, 200)` newer ones in its own feed
  (`PagingTheorems.DepthLimit`, `OldestIsOutOfReach`). Its cursors differ from SQLite's exactly at the
  end of that range, when one feed alone holds articles and has more (`CursorsDifferExactly`).
- While articles arrive or projections fail, Datastore paging keeps its order exactly as long as at every
  request something lies behind the cursor, or nothing is left (`ChangingRuns.ChangingRunDescendsExactly`,
  `ArrivalsCanRestart`, `FailedProjectionEndsRun`).
- Saving a feed again under an article limit can add rows, because the order `sort.Slice` gives equal
  dates is not fixed: exactly when some item at the date where the limit falls has a link that is neither
  stored nor a newer item's, and enough items of that date have other links to fill the places left
  (`TiedSaves.RepeatsAreIdleInGeneral`, `TieCanAddRow`); for new articles, when a tie crosses the limit
  (`RepeatsAreIdleExactly`).
- Workers that save at the same time can store an article twice on Datastore: exactly when a row is put
  between the query and the put of another insert of its URL (`ConcurrentInserts.UrlsStayUniqueExactly`,
  `TwoWorkersTwoRows`).
- The number of articles reported as saved is an upper bound on the number of new rows
  (`ArticleSave.SavedCountBoundsNewRows`, `RepeatedLinkIsCountedTwice`).
- A feed that offers only known articles is fetched without its last fetch being written, so the
  schedule's minimum interval counts from an older one (`Polling.LastFetchExactly`,
  `KnownArticlesAreNotSpaced`).
- The Datastore cleanup removes a read mark whose article read failed for any reason
  (`OrphanCleanup.ReadErrorsMisjudge`, `ReadErrorsCutBothWays`), and treats missing articles and the cutoff
  instant differently from SQLite (`BackendsCleanAlike`, `OnlyDatastoreRemoves`). A run whose page cursor
  fails reports success with keys left (`StopsEarlyExactly`, `SilentStop`).
- The comment in the code says feeds are spread across the update window. They are exactly in windows of
  at most 2^32 nanoseconds (4.3 seconds), because the 32-bit hash is used as nanoseconds; in longer ones,
  the default of 15 minutes among them, the hash is the delay (`FeedSchedule.WindowIsFilledExactly`,
  `LongWindowsDelayByHash`, `DefaultWindowIsNotFilled`).
- Being due for a check can lapse again, exactly for feeds whose latest content grows a week or 30 days
  old too soon after the last check (`Polling.DueLastsExactly`, `DueCanLapse`).
- A session is not gone for good after a delete exactly while some call still holds a finished read of it:
  a lookup about to fill the cache, or a Datastore refresh between its read and its put
  (`SessionCache.DeleteIsFinalExactly`, `InFlightReadRevives`, `InFlightRefreshRevives`).
- The session cache serves an expired session exactly between its expiry and the cache deadline, less than
  the TTL late as long as every cache write comes before the expiry, and as late as one likes after a slow
  one (`SessionCache.LateByLessThanTTL`, `StepKeepsPunctualExactly`, `SlowStoreServesLate`).
- A count call in flight misses a status write of its user exactly when the write flips a recent article of
  the feed, and then stores counts beyond the drift bound; without such overlaps the bound holds in every
  interleaving (`CountsInFlight.OwnWriteMissedExactly`, `CalmRunsStayBounded`, `StaleCountsAreStored`).
- OPML extraction misses URLs exactly when one is carried by, or lies inside, an element other than
  `outline` (`Opml.ExtractsEveryUrlExactly`).
- A limiter lookup that is in flight while cleanup evicts its domain returns a limiter other lookups
  no longer share (`DomainLimiter.StaleLookupSplits`, `LookupsAgreeExactly`).

## Model

| member | source | states |
|---|---|---|
| `Cursor.CursorRoundTrip` | internal/database/schema.go:983-1001 | decoding a printed cursor returns the same timestamp and id, for every pair of 64-bit integers, negative ones included |
| `Cursor.DistinctArticlesDistinctCursors` | internal/database/schema.go:983-987 | two different positions never print the same cursor |
| `Cursor.DecodedCursorIsCanonical` | internal/database/schema.go:990-1001 | whatever text a client sends, what it decodes to fits 64 bits and printing it gives a cursor for the same position |
| `Cursor.DecodableShape` | internal/database/schema.go:990-1001 | only text with two digit runs around an underscore decodes; everything else is refused |
| `Cursor.RoundTripExactly` | internal/database/schema.go:983-1001 | a printed position decodes to itself exactly if time and id lie between -9223372036854775808 and 9223372036854775807, and is refused otherwise |
| `Cursor.PrintedExamples` | internal/database/schema.go:983-987 | the time is printed first, both numbers in decimal: article 2 of time 10 gives "10_2" |
| `Cursor.SignsAreAccepted` | internal/database/schema.go:990-1001 | a sign may precede either number |
| `Cursor.RestIsIgnored` | internal/database/schema.go:990-1001 | text behind the second number is ignored |
| `Timeline.ListingUnique` | internal/database/datastore.go:969-975 | the comparator (newest first, larger id first on ties) admits exactly one ordering of a set of articles |
| `Timeline.SuffixListsAfter` | internal/database/schema.go:927-938 | what the keyset condition keeps is exactly the listing behind the cursor's article |
| `SqlitePager.ScanRows` | internal/database/schema.go:944-962 | one row per result, in order, each joined with the user's read and star marks |
| `SqlitePager.TrimToLimit` | internal/database/schema.go:964-979 | from the overfetched rows: the first `limit` ones, and a cursor for the last of them exactly when more articles remain |
| `SqlitePager.GetUserArticlesPaginated` | internal/database/schema.go:903-980 | refuses exactly the malformed cursors; otherwise answers the newest `limit` matching articles behind the cursor |
| `SqlitePager.AnswerSplits` | internal/database/schema.go:924-974 | one answer is descending and shows matching articles only, and every matching article it does not show lies behind the position it gives |
| `SqlitePager.RunIsDescending` | internal/database/schema.go:903-974 | answers fetched one after another, whatever the query matches at each of them (articles arrive, marks flip, subscriptions change), never repeat an article or break the order |
| `SqlitePager.RunIsComplete` | internal/database/schema.go:903-974 | a run that ends without a position has shown every article that matched at each of its requests |
| `SqlitePager.RunIsSound` | internal/database/schema.go:903-974 | every article shown matched the query at the request that showed it |
| `SqlitePager.StaticRunIsListing` | internal/database/schema.go:903-974 | when nothing changes, a finished run shows exactly the full listing |
| `SqlitePager.AnswerMakesProgress` | internal/database/schema.go:927-974 | each position followed leaves exactly `limit` articles fewer, so following positions ends |
| `SqlitePager.PageIsAnswer` | internal/database/schema.go:964-980 | the printed cursor of a page decodes to the position the page gives, and is empty exactly when it gives none |
| `SqlitePager.ClientRunDescends` | internal/database/schema.go:903-980 | the pages a client fetches with the cursor texts it is given, while the store changes, are in order and without repetition |
| `SqlitePager.ClientRunShowsMatching` | internal/database/schema.go:903-980 | each article on them matched the query in the store its page was read from |
| `SqlitePager.ClientRunShowsAll` | internal/database/schema.go:903-980 | after an empty cursor they have shown every article that matched throughout |
| `SqlitePager.ClientRunIsExact` | internal/database/schema.go:903-980 | the three together |
| `DatastorePager.GatherRefs` | internal/database/datastore.go:921-967 | whatever order the goroutines of each batch of five reply in, the gathered refs are those of the feeds that answered, each once |
| `DatastorePager.SortRefs` | internal/database/datastore.go:969-975 | a permutation ordered by the comparator |
| `DatastorePager.SortedGatherIsListing` | internal/database/datastore.go:964-975 | sorting makes the result independent of the order of arrival |
| `DatastorePager.ScanForStart` | internal/database/datastore.go:977-991 | the index behind the cursor, or 0 when no ref lies behind it |
| `DatastorePager.FetchStatuses` | internal/database/datastore.go:1008-1029 | the status map holds exactly the candidates' stored statuses whose read succeeded |
| `DatastorePager.ChoosePage` | internal/database/datastore.go:1031-1044 | the first `limit` candidates that pass the unread filter, in order |
| `DatastorePager.KeepUnreadMembers` | internal/database/datastore.go:1033-1039 | the filter drops exactly the candidates known to be read |
| `DatastorePager.SelectRefs` | internal/database/datastore.go:992-1054 | window, filter and next-cursor decision together |
| `DatastorePager.LoadRows` | internal/database/datastore.go:1060-1094 | one row per page ref whose entity loads, in page order and none for others, with the statuses fetched before |
| `DatastorePager.AnswerFrom` | internal/database/datastore.go:992-1097 | the page and cursor for the refs behind the cursor, under any read failures |
| `DatastorePager.GetUserArticlesPaginated` | internal/database/datastore.go:881-1097 | the answer to a request as a function of the store, the feeds and the cursor: an empty page without feeds, an error exactly for a malformed cursor |
| `PagingTheorems.MergeIsExactToRank` | internal/database/datastore.go:916-975 | with every feed cut to its newest k articles, the first k places of the merged listing are those of the full order over all articles |
| `PagingTheorems.DepthLimit` | internal/database/datastore.go:916-919 | an article can be reached exactly when fewer than k articles of its own feed are newer |
| `PagingTheorems.OldestIsOutOfReach` | internal/database/datastore.go:916-919 | with limit 1 the oldest of three articles of a feed is never merged |
| `PagingTheorems.PositionLeadsTo` | internal/database/datastore.go:977-991 | the cursor of the p-th merged ref leads to p+1, or back to 0 when it is the last |
| `PagingTheorems.NextResumesBehindPage` | internal/database/datastore.go:977-1054 | without the unread filter an emitted cursor resolves to the index behind its page; the fallback to 0 never fires |
| `PagingTheorems.RunPartitions` | internal/database/datastore.go:977-1054 | the answers of a run are consecutive slices of the merged refs, finished exactly when no cursor is given |
| `PagingTheorems.RunEnds` | internal/database/datastore.go:977-1054 | following cursors terminates, the refs left being the measure |
| `PagingTheorems.ClientSeesWholeListing` | internal/database/datastore.go:881-1097 | a client that follows the printed cursors on an unchanged store sees a prefix of the merged listing, and all of it exactly when the last cursor is empty |
| `ChangingRuns.NextPageLiesBehindExactly` | internal/database/datastore.go:977-991 | whatever the merged listing has become, the next page lies behind the cursor exactly when some merged ref does or none is left; otherwise paging starts over |
| `ChangingRuns.AnswerIsKeysetExactly` | internal/database/datastore.go:977-1054 | exactly then the answer is that of a keyset query over the listing |
| `ChangingRuns.ChangingRunDescendsExactly` | internal/database/datastore.go:916-1054 | a run over any sequence of merged listings repeats nothing and keeps the order exactly when every request resumes so |
| `ChangingRuns.ChangingRunIsComplete` | internal/database/datastore.go:916-1054 | such a run, once it ends, has shown every article that was merged at each of its requests |
| `ChangingRuns.ArrivalsCanRestart` | internal/database/datastore.go:977-991 | two arrivals make the second page start over with a newer article |
| `ChangingRuns.FailedProjectionEndsRun` | internal/database/datastore.go:946-966 | a failed projection ends a run without an error, with an article unseen |
| `UnreadPaging.PositionOnOldestExactly` | internal/database/datastore.go:1046-1054 | an unread page gives the position of the oldest merged article exactly when more than `limit` and at most min(2*limit, 200) refs are left, the oldest of them is unread, and exactly `limit` are |
| `UnreadPaging.UnreadCursorResumes` | internal/database/datastore.go:977-1054 | whenever a position is given everything from the next start on lies behind it, exactly outside that case; in it the next request starts at index 0 |
| `UnreadPaging.UnreadRunCanRepeat` | internal/database/datastore.go:977-1054 | a concrete listing whose unread page is shown twice |
| `UnreadPaging.UnreadEndsEarlyExactly` | internal/database/datastore.go:992-1054 | no position is given although an unread article is missing exactly when the window holds less than a page of unread refs and another lies behind it |
| `UnreadPaging.UnreadCanEndEarly` | internal/database/datastore.go:992-1054 | two read articles fill the window of a page of one, and the unread one behind them is missed |
| `UnreadPaging.UnreadAnswerCoversStretch` | internal/database/datastore.go:992-1054 | one unread answer shows exactly the unread refs of a stretch of the listing, a full page of them if it gives a position |
| `UnreadPaging.UnreadRunIsExact` | internal/database/datastore.go:977-1054 | from any start, unless a page start ends on the oldest ref, the pages are the unread refs of one stretch that ends at the last position or the last window; a finished run has shown everything unread exactly when its last window suffices |
| `UnreadPaging.UnreadPagingWorksExactly` | internal/database/datastore.go:977-1054 | some run from the first page finishes having shown exactly the unread refs if and only if at every page start (behind every limit-th unread ref) the window suffices and the page does not end on the oldest ref |
| `UnreadPaging.FinishedRunIsComplete` | internal/database/datastore.go:977-1054 | the same for a given finished run from the first page; one that starts over would not finish |
| `UnreadPaging.ClientSeesAllUnreadExactly` | internal/database/datastore.go:881-1097 | the same for the pages and cursor texts of a client on an unchanged store |
| `UnreadPaging.UnreadListing` | internal/database/schema.go:918-938 | SQLite pages through the full order without the read articles |
| `UnreadPaging.FirstUnreadPageAgrees` | internal/database/datastore.go:992-1044 | the first unread page has the same rows on both back ends exactly when the newest min(2*limit, 200) articles hold a full page of unread ones, or all of them |
| `PagingTheorems.AnswersAgree` | internal/database/datastore.go:916-1054 | merge and keyset query answer a position within the per-feed cap with the same articles; the next positions agree exactly when both or neither have articles left, and always below the cap |
| `PagingTheorems.CapHidesArticlesExactly` | internal/database/datastore.go:916-919 | a merged listing no longer than the cap leaves articles out exactly when one feed alone holds articles and has more than the cap |
| `PagingTheorems.AnswersDifferExactly` | internal/database/datastore.go:916-1054 | so the answers differ exactly for a page that ends at the cap in that case |
| `PagingTheorems.BackendsAgree` | internal/database/datastore.go:881-1097 | the same for pages: equal rows with equal marks, and equal cursor texts exactly when both or neither have articles left |
| `PagingTheorems.CursorsDifferExactly` | internal/database/datastore.go:881-1097 | the cursor texts differ exactly for a page that ends at the cap when one asked feed alone holds articles, more than the cap |
| `PagingTheorems.FirstTwoPagesAgree` | internal/database/datastore.go:916-1006 | for limits up to 100 the first page is identical on both back ends, cursor included, and the second has the same rows |
| `PageContents.SqliteRowsInFields` | internal/database/schema.go:903-980 | in table fields: the rows are at most `limit` stored articles (less their content) of subscribed feeds that the request asks for, with the stored marks, each of an earlier time than the cursor or of its time with a smaller id, and of two rows the first has the later time or, at equal times, the larger id |
| `PageContents.SqliteOrderInFields` | internal/database/schema.go:924-974 | every article asked for that lies behind the cursor and is not on the page comes after every row in that sense; there is a cursor exactly when there is such an article, it is printed from the time and the id of the last row, and the page is full |
| `PageContents.DatastoreRowsInFields` | internal/database/datastore.go:881-1097 | the same of a Datastore page under any failing reads: stored articles of asked feeds with fewer than min(2*limit, 200) newer ones in their feed, in the same order, marks absent where their read fails, the cursor printed from the last row |
| `PageContents.DatastoreOrderInFields` | internal/database/datastore.go:969-1054 | if any such article lies behind the cursor, all rows do; one that passes the filter and is not on the page comes after every row, and then a page of all articles is full |
| `PageContents.TieShowsLargerIdFirst` | internal/database/datastore.go:969-988 | of articles 1 and 2 at time 10, with limit 1, both back ends show article 2 and give the cursor "10_2" |
| `UnreadCounts.DirectCounts` | internal/database/schema.go:1177-1200 | per subscribed feed, the number of recent articles not marked read |
| `UnreadCounts.AppendKeys` | internal/database/datastore.go:1494-1497 | extending the parallel arrays keeps key and feed at the same index, each recent article once |
| `UnreadCounts.SeedCounts` | internal/database/datastore.go:1484-1499 | for every order of replies: the seeded counts are the in-window totals, the arrays are aligned and complete, and any failed query ends the request |
| `UnreadCounts.SubtractRead` | internal/database/datastore.go:1512-1537 | for every chunk size and any failing chunks and statuses: taken off are exactly the read articles whose chunk and status were read, each from its own feed |
| `UnreadCounts.GetUserUnreadCounts` | internal/database/datastore.go:1449-1539 | each count is the direct count plus the recent read articles of the feed whose chunk or status read failed, never above the in-window total, and exact when none fails |
| `UnreadCounts.SumIsUnion` | internal/database/datastore.go:1686-1693 | summing per-feed counts counts each article once |
| `UnreadCounts.Totals` | internal/database/datastore.go:1686-1693 | for every map order: the sum, and the number of feeds with a positive count |
| `UnreadCounts.GetAccountStats` | internal/database/datastore.go:1581-1700 | the article total is always that of the SQLite query (internal/database/schema.go:1216-1259); unread total and active feeds are those with the missed articles counted as unread, too large by at most their number, and exact when no status read fails |
| `UnreadCounts.DirectStatsInFields` | internal/database/schema.go:1216-1261 | in table fields the direct statistics are the articles of the feeds, those published since the cutoff and not marked read, and the feeds that have such an article |
| `Cache.UnreadCache.constructor` | internal/cache/unread_cache.go:26-32 | an empty cache without a user cap |
| `Cache.UnreadCache.SetMaxUsers` | internal/cache/unread_cache.go:70-74 | sets the cap, evicting nobody |
| `Cache.UnreadCache.Get` | internal/cache/unread_cache.go:41-65 | a hit exactly for a cached user not past expiry; the stored counts, one hit or miss counted, nothing else changed |
| `Cache.UnreadCache.Set` | internal/cache/unread_cache.go:77-105 | stores counts and expiry, after evicting an entry of minimum expiry if a new user meets a full cache |
| `Cache.UnreadCache.FindEarliest` | internal/cache/unread_cache.go:84-90 | for every map order the scan ends with an entry of minimum expiry |
| `Cache.UnreadCache.UpdateCount` | internal/cache/unread_cache.go:115-141 | changes one feed's count of an unexpired user by the status transition, clamped at zero |
| `Cache.UnreadCache.Invalidate` | internal/cache/unread_cache.go:145-151 | removes the user from both maps |
| `Cache.UnreadCache.InvalidateAll` | internal/cache/unread_cache.go:154-160 | empties both maps |
| `Cache.UnreadCache.CleanupExpiredEntries` | internal/cache/unread_cache.go:212-222 | for every map order exactly the entries past expiry go |
| `Cache.StepKeepsCap` | internal/cache/unread_cache.go:77-160 | every operation keeps the two maps on one key set and within the cap |
| `Cache.RunsKeepCap` | internal/cache/unread_cache.go:77-160 | so does every run from an empty cache with a positive cap |
| `Cache.EvictionIsMinimal` | internal/cache/unread_cache.go:80-93 | a new user in a full cache displaces exactly one user, of minimum expiry; all other users' counts and expiries stay |
| `Cache.StoredIsServedUntilExpiry` | internal/cache/unread_cache.go:41-105 | counts just stored are served up to their expiry, that moment included, and not after |
| `Cache.SweepIsInvisible` | internal/cache/unread_cache.go:41-65 | a sweep drops exactly the users past expiry and changes no later answer |
| `UnreadService.FeedService.MarkUserArticleRead` | internal/services/feed_service.go:390-404 | writes the status, then adjusts the cached count, or drops the user's counts when the feed is unknown |
| `UnreadService.FeedService.ToggleUserArticleStar` | internal/services/feed_service.go:406-409 | flips the star and leaves the cache alone |
| `UnreadService.FeedService.MarkAllArticlesRead` | internal/services/feed_service.go:411-421 | marks every article of the user's feeds read and unstarred, and drops the user's counts |
| `UnreadService.FeedService.SubscribeUserToFeed` | internal/services/feed_service.go:320-337 | subscribes, writes unread marks for the chosen articles, drops the user's counts |
| `UnreadService.FeedService.UnsubscribeUserFromFeed` | internal/services/feed_service.go:344-355 | unsubscribes and drops the user's counts |
| `UnreadService.FilterCounts` | internal/services/feed_service.go:444-454 | for every map order: the counts of the listed feeds |
| `UnreadService.FeedService.GetUserUnreadCounts` | internal/services/feed_service.go:423-460 | the cached counts on a hit; otherwise the recount restricted to the listed feeds, which is also stored |
| `ServiceEffects.SubscribeEffect` | internal/services/feed_service.go:320-337 | in table fields: the subscription is there, no other one changes, exactly the marked articles become unread and unstarred for the user, and only the user's cached counts are dropped |
| `ServiceEffects.UnsubscribeEffect` | internal/database/schema.go:870-877 | the subscription is gone, no other one and no status changes, and only the user's cached counts are dropped |
| `ServiceEffects.MarkReadEffect` | internal/database/schema.go:1094-1113 | the article has the new read mark and its old star; no other status and no subscription changes |
| `ServiceEffects.MarkReadInCache` | internal/cache/unread_cache.go:115-141 | with a feed and a flipped mark, the count of a user not past expiry goes up by one, or down by one to zero at the least; all other counts and expiries stay; without a feed the user is dropped |
| `ServiceEffects.ToggleStarEffect` | internal/database/schema.go:1115-1134 | the star flips and the read mark stays; nothing else changes, in the cache neither |
| `ServiceEffects.MarkAllReadEffect` | internal/database/schema.go:1163-1175 | exactly the articles of subscribed feeds become read and unstarred for the user, whose cached counts are dropped |
| `ServiceEffects.CountsEffect` | internal/services/feed_service.go:423-460 | a counts call answers what is cached and not past expiry; otherwise it lists exactly the given feeds that are subscribed to, each with the number of its articles of the last 90 days the user has not read, and caches that for the TTL |
| `ServiceEffects.CountsFollowSubscription` | internal/services/feed_service.go:320-355 | the next counts call after subscribing lists the feed with its unread number, the marked recent articles included; after unsubscribing it does not list it |
| `UnreadService.StepKeepsBound` | internal/services/feed_service.go:390-460 | every truthful call and clock tick keeps a user's cached count within the drift accumulated so far |
| `UnreadService.RunsStayBounded` | internal/services/feed_service.go:390-460 | so does every run that starts with an empty cache |
| `UnreadService.AnswersStayClose` | internal/services/feed_service.go:423-460 | at any point of any run an answer differs from a recount by at most the arrivals, age-outs and out-of-window flips since the counts were stored; it is exact when there are none, and on a miss |
| `UnreadService.ArrivalDriftIsSharp` | internal/services/feed_service.go:423-460 | the bound cannot be improved: a cached count that lags by all its drift lags by one more after the next recent arrival |
| `UnreadService.AgingDriftIsSharp` | internal/services/feed_service.go:423-460 | and one that is ahead by all its drift gets further ahead by every unread article that ages out |
| `UnreadService.FlipDriftIsSharp` | internal/services/feed_service.go:390-404 | or by an article outside the window that is marked unread |
| `CountsInFlight.FlightsStayBounded` | internal/services/feed_service.go:423-460 | with the read and the cache write of a count call as separate steps, in every interleaving cached counts and counts in flight are within their booked drift of a recount |
| `CountsInFlight.CountUninterrupted` | internal/services/feed_service.go:423-460 | a count call that nothing interrupts is the single step of the service |
| `CountsInFlight.CalmRunsStayBounded` | internal/services/feed_service.go:390-460 | when no status of the user is written while one of the user's count calls is in flight, the drift bound of sequential calls holds in every interleaving |
| `CountsInFlight.OwnWriteMoves` | internal/services/feed_service.go:390-421 | a status write of the user moves a feed's exact count by the recent articles of the feed whose status it flips |
| `CountsInFlight.OwnWriteMissedExactly` | internal/services/feed_service.go:390-460 | so a status write leaves a count in flight within the plain bound exactly when it flips none |
| `CountsInFlight.StaleCountsAreStored` | internal/services/feed_service.go:411-460 | counts read before everything is marked read and stored after it are served although nothing is unread |
| `OrphanCleanup.ParseKeys` | internal/database/datastore.go:1784-1793 | exactly the keys that parse, each once |
| `OrphanCleanup.SplitByArticle` | internal/database/datastore.go:1808-1820 | deletes at once where the article did not load, skips recent articles, and aligns every other candidate with its subscription key |
| `OrphanCleanup.AddUnsubscribed` | internal/database/datastore.go:1822-1835 | adds exactly the aligned candidates whose subscription is known not to exist |
| `OrphanCleanup.OrphanedKeys` | internal/database/datastore.go:1775-1846 | the keys deleted from a page are exactly its removable ones, each once |
| `OrphanCleanup.UserArticleTable.CleanPage` | internal/database/datastore.go:1720-1752 | one page removes the removable keys of the next 500 of the key order; a failed batch removes nothing |
| `OrphanCleanup.UserArticleTable.CleanupOrphanedUserArticles` | internal/database/datastore.go:1712-1767 | the run ends and reports as the failing batches and cursors determine, has removed exactly the removable keys up to there, and returns their number |
| `OrphanCleanup.StopsEarlyExactly` | internal/database/datastore.go:1723-1764 | an error is reported exactly when the first page to fail fails by its batch; success with keys left exactly when it fails by its cursor |
| `OrphanCleanup.SilentStop` | internal/database/datastore.go:1755-1763 | with 501 keys and no cursor after the first page the run reports success after 500 |
| `OrphanCleanup.CompletedRunIsFilter` | internal/database/datastore.go:1712-1846 | when "not found" is the only read error, a completed run keeps exactly the statuses whose article exists and is recent or subscribed to |
| `OrphanCleanup.ReadErrorsMisjudge` | internal/database/datastore.go:1809-1834 | under other errors, exactly which statuses are treated wrongly |
| `OrphanCleanup.ReadErrorsCutBothWays` | internal/database/datastore.go:1809-1834 | a subscribed article's status removed, an orphan kept |
| `OrphanCleanup.BackendsCleanAlike` | internal/database/schema.go:1290-1335 | exactly where the Datastore and SQLite cleanups decide alike |
| `OrphanCleanup.OnlyDatastoreRemoves` | internal/database/schema.go:1290-1335 | a status whose article is gone and an orphan created at the cutoff, which only Datastore removes |
| `ArticleSave.ArticleTable.AddArticle` | internal/database/schema.go:565-585 | inserts unless the URL is taken, succeeds either way, and returns the id of the row that holds the URL |
| `ArticleSave.SortByDate` | internal/services/feed_service.go:778-783 | some newest-first permutation |
| `ArticleSave.ArticleTable.SaveEach` | internal/services/feed_service.go:808-829 | the loop's table is that of inserting every article, whatever sound answer the pre-filter gave; the count is the inserts that succeeded |
| `ArticleSave.ArticleTable.SaveArticlesFromFeedWithLimit` | internal/services/feed_service.go:774-845 | saves the newest `maxArticles` articles (all when 0); every added row holds one of them under the feed and the time given; the count is the kept articles that were not known and did not fail; an error exactly when there was something to save and nothing was counted |
| `ArticleSave.SavedGrows` | internal/database/schema.go:565-585 | an uninterrupted save alters and removes no existing row and keeps one row per URL |
| `ArticleSave.NewRowsComeFromItems` | internal/services/feed_service.go:808-829 | every added row has the feed saved as its feed, the time of the save as its creation time, and URL, date, title, content, description and author of a kept article whose URL was free |
| `ArticleSave.KeptItemsArePresent` | internal/services/feed_service.go:808-829 | every kept article whose insert did not fail is in the table afterwards |
| `ArticleSave.SecondSaveChangesNothing` | internal/services/feed_service.go:808-829 | after one save, another of any articles changes nothing exactly when each of them whose insert succeeds was stored before or by the first |
| `ArticleSave.SeparatedCutsAgree` | internal/services/feed_service.go:778-792 | when no tie crosses the limit every sort keeps the same articles |
| `ArticleSave.RepeatedSaveChangesNothing` | internal/services/feed_service.go:774-845 | then saving the feed again changes nothing, however equal dates are sorted either time |
| `TiedSaves.RepeatsAreIdleInGeneral` | internal/services/feed_service.go:774-845 | for any feed and table: if and only if every tie at the limit is harmless, its link stored, or that of a newer item, or kept by every sort |
| `TiedSaves.CutDateExists` | internal/services/feed_service.go:778-792 | the limit falls among the items of one date |
| `TiedSaves.RepeatsAreIdleExactly` | internal/services/feed_service.go:774-845 | for a feed of new articles, no pair of sorts makes the second save add a row if and only if no tie crosses the limit |
| `TiedSaves.TieCanAddRow` | internal/services/feed_service.go:774-845 | two new articles of one date under a limit of one |
| `ConcurrentInserts.UrlsStayUniqueExactly` | internal/database/datastore.go:387-425 | in every interleaving of inserts the table holds one row per URL exactly as long as no row was put between the query and the put of another insert of its URL |
| `ConcurrentInserts.TwoWorkersTwoRows` | internal/database/datastore.go:387-425 | two workers that query before either puts store an article twice |
| `ConcurrentInserts.InsertUninterrupted` | internal/database/datastore.go:387-425 | an insert that nothing interrupts adds its row exactly if the URL is free, as on SQLite |
| `ArticleSave.AddedRowsAreNewest` | internal/services/feed_service.go:778-792 | every added row is at least as recent as every article the limit dropped |
| `ArticleSave.FiltersAreSound` | internal/database/datastore.go:528-561 | both back ends' pre-filters report only URLs that are stored, the Datastore one at most what the SQLite one reports |
| `ArticleSave.FiltersMissExactly` | internal/database/datastore.go:528-561 | a stored URL is missed exactly when it is stored under another feed, or, by Datastore, was created more than 90 days ago |
| `ArticleSave.SavedUrls` | internal/services/feed_service.go:808-829 | the URLs afterwards are the old ones and those handed to the insert |
| `ArticleSave.SavedCountBoundsNewRows` | internal/services/feed_service.go:774-845 | the reported count is at least the number of new rows, and equal exactly when the URLs handed to the insert were free and pairwise different |
| `ArticleSave.AttemptsAreCounted` | internal/services/feed_service.go:808-829 | the reported count is the number of kept articles that the pre-filter did not know and whose insert did not fail |
| `ArticleSave.RepeatedLinkIsCountedTwice` | internal/services/feed_service.go:808-829 | a feed that lists one link twice: two counted, one row |
| `FeedSchedule.AddToMap` | internal/services/feed_scheduler.go:180-191 | the map after both loops is the one built from all feeds in order |
| `FeedSchedule.LastFeedWins` | internal/services/feed_scheduler.go:180-191 | one entry per URL, that of the last feed with it: a subscribed copy replaces the global one |
| `FeedSchedule.GetAllUniqueFeeds` | internal/services/feed_scheduler.go:166-199 | for every map order: each distinct URL once, with the winning feed |
| `FeedSchedule.PriorityGrowsWithAge` | internal/services/feed_scheduler.go:252-272 | a feed not fetched for longer never has a lower priority; priorities lie between 30 and 80 |
| `FeedSchedule.EntryInFields` | internal/services/feed_scheduler.go:232-271 | an entry is due at now, plus the hash of its feed id modulo the window, plus what is missing to the minimum interval; priority 50, 55, 65 or 80 by the age of the last fetch (2, 6, 24 hours), less 20 before the minimum interval is over |
| `FeedSchedule.PublishedHashes` | internal/services/feed_scheduler.go:234-238 | the hash of "" is 0x811c9dc5 and that of "a" is 0xe40c292c, the published FNV-1a values |
| `FeedSchedule.FirstFeedHashes` | internal/services/feed_scheduler.go:234-238 | feeds 1 and 2 hash to 873244444 and 923577301 |
| `FeedSchedule.LastCharacterDecides` | internal/services/feed_scheduler.go:234-238 | two texts that differ in their last character only never have the same hash |
| `FeedSchedule.NeighboursHashApart` | internal/services/feed_scheduler.go:233-238 | nor do two feeds whose ids differ in the last digit only |
| `FeedSchedule.NeighboursAreDueApart` | internal/services/feed_scheduler.go:232-249 | in a window of at least 2^32 ns, the default among them, two such feeds with the same wait to the minimum interval are due at different times |
| `FeedSchedule.DueAfterMinInterval` | internal/services/feed_scheduler.go:232-249 | no feed is due before its last fetch plus the minimum interval |
| `FeedSchedule.DelayIsBounded` | internal/services/feed_scheduler.go:232-249 | for every 32-bit hash and past last fetch the delay is below the smaller of the window and 2^32 ns, plus the minimum interval |
| `FeedSchedule.DelaysAttained` | internal/services/feed_scheduler.go:232-249 | over all 32-bit hashes the delays are exactly those from what is missing to the minimum interval on, for the smaller of the window and 2^32 ns |
| `FeedSchedule.WindowIsFilledExactly` | internal/services/feed_scheduler.go:232-238 | the delays spread across the whole update window exactly when it is at most 2^32 ns |
| `FeedSchedule.LongWindowsDelayByHash` | internal/services/feed_scheduler.go:232-249 | in every longer window the hash is the delay beyond what is missing to the minimum interval |
| `FeedSchedule.DefaultWindowIsNotFilled` | internal/config/config.go:96-97 | with the default window of 15 minutes and interval of 5, a feed past the interval is due within 4.3 seconds and never later in the window |
| `FeedSchedule.EntryIsTimely` | internal/services/feed_scheduler.go:202-249 | the entry made for a feed is due neither before its minimum interval is over nor as late as the window or 2^32 ns after that |
| `FeedSchedule.SortScheduled` | internal/services/feed_scheduler.go:221-226 | a permutation ordered by the comparator |
| `FeedSchedule.CreateStaggeredSchedule` | internal/services/feed_scheduler.go:202-229 | one entry per feed, ordered by due time and then descending priority, each within the bounds above |
| `SchedulerProtocol.StepKeepsInv` | internal/services/feed_scheduler.go:281-324 | every step of dispatcher or worker keeps slots, wait group and counters in balance |
| `SchedulerProtocol.RunIsSafe` | internal/services/feed_scheduler.go:281-346 | in every interleaving: held slots are the workers not yet released and never exceed the cap; pending, in flight, checked and skipped add up; a run that is not stopped counts every feed |
| `SchedulerProtocol.StatisticsAreExact` | internal/services/feed_scheduler.go:320-346 | in every interleaving checked and skipped are the numbers of feeds the workers reported as such |
| `SchedulerProtocol.StepCounts` | internal/services/feed_scheduler.go:281-350 | no other step changes them, and each dispatch records the clock |
| `SchedulerProtocol.StoppedExactly` | internal/services/feed_scheduler.go:288-303 | in every interleaving the dispatcher is told to stop exactly if a stop signal came |
| `SchedulerProtocol.StopEndsWaiting` | internal/services/feed_scheduler.go:288-303 | a signal can come at any time, and after it a dispatcher that waits for a due time or a slot can return at once, without another dispatch |
| `SchedulerProtocol.DispatchRespectsMinInterval` | internal/services/feed_scheduler.go:286-303 | in every interleaving no feed is dispatched before its last fetch plus the minimum interval |
| `SchedulerProtocol.NoDeadlock` | internal/services/feed_scheduler.go:281-324 | until everything has ended some goroutine can move, or only time has to pass |
| `SchedulerProtocol.StepDoesWork` | internal/services/feed_scheduler.go:281-324 | every step but ticks and the stop signal uses up remaining work |
| `SchedulerProtocol.RunsAreShort` | internal/services/feed_scheduler.go:281-324 | no interleaving takes more than 7 steps per feed and 4 more |
| `Polling.DueExactly` | internal/services/feed_service.go:959-1000 | a feed never checked is due; otherwise, with a known average, exactly from half of it after the last check on; without one from 30 minutes, 1 hour or 6 hours on, for content under a week, under 30 days, or older, and from 1 hour on before any content |
| `Polling.DueBetweenGaps` | internal/services/feed_service.go:959-1000 | a checked feed is never due before the minimum gap (half its average; without one 30 minutes, or 1 hour before it had content) and always from the maximum gap on (the same, but 6 hours without an average once it had content); with an average, before any content and for content under a week old the minimum gap decides exactly, from 30 days on the maximum gap |
| `Polling.DueLastsExactly` | internal/services/feed_service.go:959-1000 | what is due now is due at every later moment exactly when an average is known, no content was ever seen, or the gaps that apply from a week and from 30 days on are over when they begin to apply |
| `Polling.DueCanLapse` | internal/services/feed_service.go:979-993 | a feed that is due and no longer due a moment later |
| `Polling.UpdateFeedTracking` | internal/services/feed_service.go:1004-1027 | the tracking fields written: check time always, content time and average only on new content |
| `Polling.UpdateFeedAfterRefreshSuccess` | internal/services/feed_service.go:1032-1052 | the same tracking fields and the fetch time |
| `Polling.TrackedExactly` | internal/services/feed_service.go:1004-1027 | the check is recorded at the time given, and new content too; from the second new content on the average is the whole seconds since the previous one, or, once there is an average, seven tenths of it and three tenths of those seconds, rounded towards zero; nothing else changes |
| `Polling.UpdateSingleFeed` | internal/services/feed_scheduler.go:327-375 | exactly one of checked and skipped goes up, checked exactly when the feed is due and allowed; what is stored in each case, a save that reports an error included |
| `Polling.LastFetchExactly` | internal/services/feed_scheduler.go:350-375 | a refresh changes nothing unless it fetches; then the check is recorded; a last fetch is written exactly when the fetch succeeds and some insert is counted or there was nothing to save, new content exactly when some insert is counted |
| `Polling.KnownArticlesKeepLastFetch` | internal/services/feed_service.go:839-843 | over any run of refreshes that offer articles but count no insert the last fetch stays what it was |
| `Polling.KnownArticlesAreNotSpaced` | internal/services/feed_scheduler.go:232-249 | after such a run the schedule counts the minimum interval from the fetch before it |
| `Polling.FetchesAreSpaced` | internal/services/feed_service.go:959-1000 | two consecutive fetches of a feed are at least the minimum gap apart: half its average, or 30 minutes, or 1 hour before it had content |
| `Polling.NoStarvation` | internal/services/feed_scheduler.go:327-350 | in every run of refreshes the domain limiter lets through, after a fetch some refresh fetches the feed again by the time half its average has passed since the recorded check; without an average, 6 hours, or 1 hour if it never had content |
| `Polling.FetchGapsAreBounded` | internal/services/feed_scheduler.go:327-375 | with refreshes at most P apart, consecutive fetches are at most that gap plus P apart |
| `Polling.RunStoresAverage` | internal/services/feed_service.go:1009-1020 | at any point of any run of refreshes the stored average is the 70/30 average of the intervals between counted new contents so far |
| `Polling.AverageStaysInHull` | internal/services/feed_service.go:1009-1020 | the 70/30 integer average stays between the smallest and the largest observed interval |
| `Polling.ConstantIntervalAttracts` | internal/services/feed_service.go:1014-1018 | under a constant interval I the average moves monotonically towards I, a known one stands still exactly in [I-3, I], and the first observation sets it |
| `Polling.AverageConverges` | internal/services/feed_service.go:1014-1018 | from any average, unknown included, and for any I, the average reaches [I-3, I] after at most as many updates as its distance in seconds |
| `Polling.AverageRests` | internal/services/feed_service.go:1014-1018 | once in [I-3, I] it stays there for any number of updates, a known one unmoved |
| `SessionCache.SessionManager.GetSession` | internal/auth/session.go:113-162 | exactly when a session is returned, from cache or table, and the new cache and table in every case, a failing delete of an expired session included; when it has expired already, and then by less than the TTL |
| `SessionCache.LateByLessThanTTL` | internal/auth/session.go:116-124 | a hit serves an expired session exactly between its expiry and the cache deadline; less than the TTL late if it was written before it expired |
| `SessionCache.StepKeepsPunctualExactly` | internal/auth/session.go:113-181 | in interleavings that stays so exactly as long as every cache write comes before the expiry it carries, and every refresh after the write it updates |
| `SessionCache.SlowStoreServesLate` | internal/auth/session.go:142-159 | a cache write long after its read makes the lateness as long as one likes |
| `SessionCache.SessionManager.DeleteSession` | internal/auth/session.go:183-193 | the cache entry goes even when the database delete fails |
| `SessionCache.SessionManager.RefreshSession` | internal/auth/session.go:164-181 | extends table and cached expiry but not the cache deadline; a missing row is an error on Datastore only; nothing changes on an error |
| `SessionCache.SessionManager.CleanupExpiredCache` | internal/auth/session.go:254-265 | for every map order exactly the entries past their cache deadline go |
| `SessionCache.SessionManager.InvalidateCache` | internal/auth/session.go:300-304 | empties the cache |
| `SessionCache.GetUninterrupted` | internal/auth/session.go:113-158 | in the model with steps, a lookup that nothing interrupts does what the uninterrupted one does: table, cache and what is returned, for every failure |
| `SessionCache.DeleteUninterrupted` | internal/auth/session.go:183-193 | so does a delete |
| `SessionCache.RefreshUninterrupted` | internal/auth/session.go:164-180 | and a refresh, on either back end, to seven days from its start |
| `SessionCache.StepKeepsInv` | internal/auth/session.go:113-193 | every step of every call keeps the record of where cached sessions came from |
| `SessionCache.ServedSessionsWereLive` | internal/auth/session.go:113-162 | in every interleaving each session served from cache was written less than the TTL before by a call whose database read found it present and unexpired |
| `SessionCache.GoneForGood` | internal/auth/session.go:183-193 | once a session is in neither table nor cache and no call holds a finished read of it, no later lookup returns it in any interleaving, on either back end |
| `SessionCache.InFlightReadRevives` | internal/auth/session.go:142-159 | a call between its database read and its cache write can serve a session deleted meanwhile |
| `SessionCache.InFlightRefreshRevives` | internal/database/datastore.go:2183-2203 | a refresh between reading its row and putting it back can bring a deleted session back, to be served again |
| `SessionCache.DeleteIsFinalExactly` | internal/auth/session.go:183-193 | a completed delete is final in all continuations exactly when no call holds a finished read of the session, neither a lookup about to fill the cache nor a refresh about to put its row |
| `SessionCache.SequentialDeleteIsFinal` | internal/auth/session.go:183-193 | without other calls in flight a successful delete is final: no lookup returns the session in any continuation, ids not being reused |
| `SessionCache.RefreshLastsAWeek` | internal/auth/session.go:164-180 | a refresh extends a session to exactly seven days from its start |
| `SessionCache.CallsNeverWait` | internal/auth/session.go:113-193 | a call in flight never waits for another: its next step is possible at once |
| `SessionCache.IdsAreNotReused` | internal/auth/session.go:84-110 | in every interleaving no session is created under an id that was in the table before |
| `DomainLimiter.DomainRateLimiter.FindLimiter` | internal/services/rate_limiter.go:72-74 | the read-locked lookup |
| `DomainLimiter.DomainRateLimiter.RecordAccess` | internal/services/rate_limiter.go:76-81 | records the access time and nothing else |
| `DomainLimiter.DomainRateLimiter.CreateLimiter` | internal/services/rate_limiter.go:83-100 | returns the limiter another lookup created meanwhile, or a new one, and records the access |
| `DomainLimiter.DomainRateLimiter.GetLimiterForDomain` | internal/services/rate_limiter.go:71-100 | an uninterrupted lookup returns the domain's one limiter, creating it if needed |
| `DomainLimiter.DomainRateLimiter.CleanupOldLimiters` | internal/services/rate_limiter.go:139-150 | for every map order evicts exactly the domains idle beyond the threshold |
| `DomainLimiter.RunKeepsInv` | internal/services/rate_limiter.go:71-150 | in every reachable state each domain with a limiter has a last-access entry, and no two domains share a limiter |
| `DomainLimiter.SparingRunKeepsSettled` | internal/services/rate_limiter.go:71-100 | while cleanup spares a domain, everything returned for it is its current limiter |
| `DomainLimiter.StaleLookupSplits` | internal/services/rate_limiter.go:71-150 | a lookup holding an evicted limiter returns it while the next lookup returns another |
| `DomainLimiter.LookupsAgreeExactly` | internal/services/rate_limiter.go:71-100 | all lookups return one limiter until eviction, exactly when no lookup in flight holds an older one |
| `DomainLimiter.CleanupEvictsIdleOnly` | internal/services/rate_limiter.go:139-150 | a domain with a limiter is evicted exactly when its recorded access is older than the threshold |
| `DomainLimiter.AccessProtectsForAnHour` | internal/services/rate_limiter.go:71-150 | a cleanup keeps a domain just accessed exactly if at most 3600 seconds have passed, with its limiter, and treats the others as if nothing had been accessed |
| `DomainLimiter.RecentlyUsedSurvives` | internal/services/rate_limiter.go:71-150 | in every interleaving a limiter is neither evicted nor replaced for one hour from a recorded access of its domain on |
| `Opml.ValidateOPMLComplexity` | internal/services/feed_service.go:1056-1082 | the counting loop accepts or refuses as the scan of the token stream does, with the same reason |
| `Opml.CheckMeasuresDocument` | internal/services/feed_service.go:1056-1082 | on the tokens of any element tree the check accepts exactly when height is at most 50 and the element count at most 50000 |
| `Opml.AcceptsExactly` | internal/services/feed_service.go:1056-1082 | of any token stream, well nested or not, the check accepts exactly those without a syntax error that never have more than 50 elements open and have at most 50000 in all |
| `Opml.RefusalNamesReason` | internal/services/feed_service.go:1056-1082 | a refusal comes at the first token that breaks this and names what it breaks: syntax, depth, or else the number of elements |
| `Opml.ExtractInDocumentOrder` | internal/services/feed_service.go:1177-1194 | the recursive extraction yields, in document order, the URLs of the outlines whose ancestors below the body are all outlines |
| `Opml.ExtractsEveryUrlExactly` | internal/services/feed_service.go:1177-1194 | that is every URL of the body exactly when none is carried by, or lies inside, another element |
| `Opml.OtherElementsLoseUrls` | internal/services/feed_service.go:161-172 | a URL on another element is lost, and so is one on an outline inside another element |
| `Opml.AcceptedDocumentsAreBounded` | internal/services/feed_service.go:1084-1108 | on an accepted document the extraction recurses at most 48 deep and yields fewer than 50000 URLs |
| `Opml.DepthIsReached` | internal/services/feed_service.go:1056-1108 | outlines nested 48 deep below a body are accepted, 49 are refused |
| `Opml.DeduplicateFeedURLs` | internal/services/feed_service.go:1165-1175 | the first occurrences of the non-empty URLs |
| `Opml.FirstOccurrencesAreExact` | internal/services/feed_service.go:1165-1175 | each non-empty URL appears exactly once and nothing else does |
| `Opml.FirstOccurrencesKeepOrder` | internal/services/feed_service.go:1165-1175 | URLs keep the order of their first occurrences |

## Left out

- The SQL and Datastore engines: each query is replaced by the set or sequence it means. Article ids
  are unique, a user has at most one subscription per feed and one status per article, and every
  article's feed has a feed row.
- The order of equal publication times inside one Datastore projection: the query orders by time only,
  the model takes the prefix in (time, id) order.
- Failures that end a call before any of the modelled steps (listing the user's feeds, a whole SQL query, the
  final entity fetch as a whole, database errors of service writes), and the retry around listing feeds.
- A key query that fails before it returns a page of the orphan cleanup, and a batched delete that succeeds in part.
- The fields a refreshed session row keeps besides its expiry, and the account read that follows the session read: it only succeeds or fails.
- Two status keys whose names differ but parse to the same pair: keys are written by one format only.
- `Cursor.Decode`: leading white space that `Sscanf` skips is not accepted, and overflow of `UnixNano` is outside
  the range `Encodable` describes.
- The feed title that a page row carries beside the article and its two marks.
- Copies of cached count maps, and the session object that a cache entry shares with callers.
- `Polling.UpdateFeedTracking`: the rounding of `Duration.Seconds` through a float; the model truncates the exact quotient.
- The inside of `sort.Slice`: sorting members state permutation and order and are built by insertion.
- More than one clock reading per call: each call takes one.
- The tokens of `rate.Limiter`: whether a domain is let through is a parameter; limiters are told apart by number only.
- Service statistics on a cache hit, hit-rate figures, the feed list cache, and the refresh path that reads feeds through it.
- Starting and stopping the scheduler's own loops, and the time limit around adding a feed.
- Creating, discovering, fetching and parsing feeds; title and HTML clean-up; domain extraction from URLs.
- XML namespaces, OPML documents with more than one body, and attributes of outlines other than their URL.
- OAuth states, authorisation codes, cookies, HTTP handlers, subscriptions and payments, administration, web and mobile clients.
