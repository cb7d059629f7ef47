# AdvisorBook verification

A Dafny model of the parts of AdvisorBook that compute: the cursor walks of its directory and
feed endpoints, the BrokerCheck employment merge, the advisor search index and its prefix
queries, the login throttle, the user watchlists, the folding of duplicate firms, and the
recruiting totals. `dafny verify dfyconfig.toml` checks all of it.

| file | source |
|---|---|
| `Pagination.dfy`, `DirectorySorting.dfy` | keyset and offset cursors, directory order and keys |
| `FeedPages.dfy`, `PrefixSearch.dfy` | store pages, merged feed categories, two-casing prefix search |
| `OffsetScans.dfy`, `GrowingScans.dfy` | the source-triage queue and the mode-filtered feed, over a fixed and a growing list |
| `ReadinessScan.dfy`, `ReadinessWalks.dfy` | the bounded derived-readiness scan, one page and a whole walk |
| `EmploymentMerge.dfy`, `EmploymentDedupe.dfy`, `EmploymentOrder.dfy` | interval merge of BrokerCheck employment rows |
| `AdvisorTokens.dfy`, `NameWords.dfy`, `AdvisorSearchIndex.dfy`, `TokenQuery.dfy`, `TokenOrder.dfy` | name tokens, reindexer, token queries |
| `LoginThrottle.dfy` | the throttle class and the login that consults it |
| `UriComponent.dfy`, `Watchlists.dfy`, `WatchlistOutcomes.dfy` | composite ids and the six watchlist actions |
| `FirmCanonicalization.dfy`, `FirmColumns.dfy`, `TeamDedupe.dfy` | duplicate firms, references, public team lists |
| `CurrentEmployment.dfy`, `FirmMomentum.dfy`, `MarketTotals.dfy`, `RecruitingSums.dfy` | aggregates with a simpler twin, and what they add up |
| `Sequences.dfy`, `Texts.dfy`, `StableSort.dfy`, `InsertionMaps.dfy` | shared vocabulary: options, UTF-16 text, stable sort, `Map` |

How the model reads the program:

- Text is a sequence of UTF-16 code units where order or encoding matters, and `<` on strings is
  lexicographic on those. A Harper query with `limit` and `offset` is a slice of one fixed order.
- Code written as expressions and recursion is functions and lemmas. The throttle, the index
  table and the watchlist tables are classes whose methods are proved against a function of the
  old state; the two tables carry a ghost history, so that claims about every intermediate state
  can be made. Failing requests are inputs of the methods that send them.
- Filters (`reason`, feed mode, readiness) are arbitrary functions; times, random UUIDs and the
  outcome of the awaited login are inputs.

What the proofs say about the code where its comments or the obvious reading say more:

- Cursor tokens round-trip only for keys without NUL, and a branch directory key always has one.
  A branch walk repeats rows whenever the list does not fit one page
  (`BranchWalkRepeatsRows`), and can repeat one page for ever (`BranchPageCanRepeatForever`).
- The firm-advisors roster reaches `paginate` unsorted. `UnsortedWalkIff` says exactly which lists
  survive that.
- The merged web-research feed compares `publishedDate` as text. For ISO-8601 texts that is date
  order; an in-process `Date` prints its weekday first (`DatesMergeByWeekday`).
  `FeedIsNewestFirstIff` is the exact condition for a right feed, `MergedPageIff` for the short
  fetches to suffice. All other categories are one stored list and need neither.
- The mode-filtered feed drops the matches of a window beyond `limit`. `FeedConserves` says what is
  lost and `FeedCompleteIff` tells from the list when nothing is; the triage queue loses nothing,
  even when rows are inserted while a client pages (`InsertionsLoseNoRow`); a row that leaves the
  list in front of the cursor can make it miss one (`DeletionLosesRow`).
- The derived-readiness scan drops the store's sort under a CRD filter; `BoundedScanIff` says
  exactly when its page is still right, `WalkCompleteIff` when a whole walk is.
- Employment dedupe is idempotent and independent of order for dated rows;
  `MergeIdempotentIff` and `RangesIgnoreOrderIff` give the exact conditions for all rows.
- The throttle's time bound holds for attempts made one after the other. The login is awaited
  between consulting and recording, so attempts can overlap; `TimeBoundIff` is the exact bound for
  any number of them at once.
- `mergeFirmRows` is described as filling gaps in the canonical row; when a duplicate has more
  filled fields it overrides the canonical values instead (`FoldTakesWinner`,
  `ChosenValuesKeptIff`, `FullerDuplicateOverrides`). Stored alias rows are not rewritten, so one
  that names a duplicate names nothing afterwards (`StoredAliasResolvesIff`,
  `StoredAliasLosesFirm`). A reference whose value is not a string is not moved
  (`NoReferenceToDuplicate`, `ReferencesStillResolve`); firm ids are strings by the schema
  (harper-app/schema.graphql:28), so that case does not arise.
- A team name that ends in the non-compliance marker twice keeps one (`PassIsIdempotentIff`), and a
  team whose name is spelled in two canonically equal ways can be listed more than once
  (`ListedOnceIff`).
- A user whose encoded id is longer than 198 units can create watchlists but never address them
  (`CreatedListReachableIff`).
- The watchlist filters of the recruiting page are described as deduplicated but are not, so a
  firm asked for twice is counted twice (`WatchlistTotalsIff`).
- Reaching the per-token fetch limit of 4,000 does not set `truncated` (`FetchLimitHidesMatch`);
  `QueryCompleteIff` says exactly when a query is complete. The ids come in the order of the
  leading token, not always the first one (`FirstOrderKeptIff`), which also decides which 500
  survive the cap (`CapFollowsOtherOrder`).

## Model

| member | source | states |
|---|---|---|
| `Pagination.StablePaging` | src/harper/resource-pagination.ts:185-220 | With rows inserted and deleted between requests, and any page size per request (each state of the rows strictly sorted by key then id, keys free of NUL and kept by surviving rows), following `nextCursor` shows no id twice, and a finished walk shows every row that was there throughout |
| `Pagination.WalkIsIncreasing` | src/harper/resource-pagination.ts:185-220 | Over changing rows everything a walk returns is strictly increasing in (key, id) and lies behind the starting cursor |
| `Pagination.WalkMeetsSurvivor` | src/harper/resource-pagination.ts:185-220 | A position present at every request and behind the cursor is shown before the walk reaches a null cursor |
| `Pagination.PageIsCursorWindow` | src/harper/resource-pagination.ts:185-220 | A page is exactly the stored rows after its cursor and not after the next cursor; with a next cursor it holds `limit` rows |
| `Pagination.CursorCutsSortedRows` | src/harper/resource-pagination.ts:208-220 | On sorted rows the rows after a cursor are one suffix, the one `cursorStart` finds |
| `Texts.LessIff` | src/harper/resource-pagination.ts:208-220 | Texts compare by the first code unit that differs; a proper prefix comes first |
| `Pagination.NextPageContinues` | src/harper/resource-pagination.ts:142-154 | Decoding a next cursor gives the last row shown, and the next page starts right behind it |
| `Pagination.NoCursorStartsAtTop` | src/harper/resource-pagination.ts:146-158 | Without a cursor, or with a token without NUL, the page starts at the first row |
| `Pagination.StaticWalk` | src/harper/resource-pagination.ts:185-220 | On a fixed sorted list the pages, of any sizes, concatenate to exactly the rows behind the first cursor |
| `Pagination.StaticWalkFillsPages` | src/harper/resource-pagination.ts:185-220 | On a fixed sorted list every page but the last holds `limit` rows |
| `Pagination.StaticWalkFinishes` | src/harper/resource-pagination.ts:185-220 | A walk over a fixed list reaches a null cursor within as many requests as there are rows left, plus one |
| `Pagination.DecodeUndoesEncode` | src/harper/resource-pagination.ts:89-154 | `decodeCursor` undoes `encodeCursor` if and only if the sort key has no NUL |
| `Pagination.OffsetRoundTrip` | src/harper/resource-pagination.ts:110-134 | `decodeOffsetCursor` undoes `encodeOffsetCursor` on every non-negative offset and gives 0 for negative ones |
| `Pagination.OffsetTokenReads` | src/harper/resource-pagination.ts:125-138 | An offset token that is anything but decimal digits counts as the first page |
| `Pagination.PageLimit` | src/harper/resource-pagination.ts:66-80 | The page limit is always between 1 and 100, and the requested one when it lies there |
| `Pagination.UnsortedWalkIff` | src/harper/resource-pagination.ts:185-220 | On a fixed list in any order a walk with pages of one size ends and shows exactly the list if and only if at every page boundary no earlier row lies after the last row of the page and the next row does |
| `Pagination.UnsortedRosterLosesRow` | src/harper/resource-profile-endpoints.ts:371-377 | The firm-advisors endpoint passes unsorted rows: two of them in the wrong order, and a walk that ends without showing the second |
| `DirectorySorting.SortedDirectoryIsStrict` | src/harper/resource-directory-sorting.ts:145-157 | Rows sorted by `compareDirectoryRows` meet the cursor's order requirement if and only if no two share key and id, for a collator that orders ids as `>` does |
| `DirectorySorting.CompareRowsIff` | src/harper/resource-directory-sorting.ts:145-157 | `compareDirectoryRows` puts a row first if and only if the other lies after it as a cursor does, and ties only rows that share key and id |
| `DirectorySorting.BranchOrderIff` | src/harper/resource-directory-sorting.ts:51-56 | Branches are ordered by firm name, then state, then city, then display name |
| `DirectorySorting.BranchCursorLosesLocation` | src/harper/resource-directory-sorting.ts:51-56 | A branch cursor never decodes to what was encoded: the key comes back cut to the firm name |
| `DirectorySorting.BranchResumesAtFirm` | src/harper/resource-pagination.ts:208-220 | A decoded branch cursor resumes at the first row of the firm it points into |
| `DirectorySorting.BranchPageStepsBack` | src/harper/resource-pagination.ts:185-220 | After any branch page with a next cursor, the following page starts at or before the last row shown |
| `DirectorySorting.BranchPageCanRepeatForever` | src/harper/resource-pagination.ts:185-220 | A branch page inside the list's first firm is returned again by its own next cursor |
| `DirectorySorting.BranchWalkRepeatsRows` | src/harper/resource-directory-sorting.ts:51-56 | A branch walk shows each row once if and only if a single page holds them all |
| `FeedPages.StreamCount` | src/harper/resource-directory-search-queries.ts:158-167 | The streamed count is the number of rows the query selects |
| `FeedPages.SearchPageAndCount` | src/harper/resource-directory-search-queries.ts:124-156 | A page holds the selected rows from its offset on, at most `limit` of them, and the streamed count of all rows; every page of the other models is one of these |
| `FeedPages.FeedPageIsSliceOfWhole` | src/harper/resource-directory-search-queries.ts:273-369 | For one stored category always, and for several whenever printed dates follow dates, a feed page is the slice of all rows newest first, with the full total, although only `offset + limit` rows of each category are fetched |
| `FeedPages.FeedIsNewestFirstIff` | src/harper/resource-directory-search-queries.ts:326-369 | Every page of a merged feed is newest first if and only if, of any two rows, the one later in alias order prints later exactly when it is newer |
| `FeedPages.MergedPageIff` | src/harper/resource-directory-search-queries.ts:326-369 | The page of the merged prefixes equals the page of the complete merge if and only if every row up to the page's end is among the first `offset + limit` of its own category |
| `FeedPages.ShortFetchMissesRow` | src/harper/resource-directory-search-queries.ts:326-369 | A category whose printed dates do not follow its dates, and a page that misses its first row |
| `FeedPages.DatesMergeByWeekday` | src/harper/resource-directory-search-queries.ts:357-369 | With `Date` values Sunday 31 December 2023 is listed before Monday 1 January 2024, weekday names coming first in the text |
| `FeedPages.WeekdaysAreAlphabetical` | src/harper/resource-directory-search-queries.ts:357-369 | The places used for printed weekdays are the alphabetical order of their names |
| `FeedPages.NewestFirstIsStableMerge` | src/harper/resource-directory-search-queries.ts:326-369 | The newest-first feed is the only list that is ordered by date and keeps rows of one date in alias order |
| `FeedPages.PrefixesDecideMerge` | src/harper/resource-directory-search-queries.ts:357-369 | For categories in the order the merge compares by, the first `n` rows of the merge depend only on the first `n` rows of each |
| `OffsetScans.TriagePageIsFilteredWindow` | src/harper/resource-source-article-triage.ts:144-183 | One triage page is exactly the matching rows between its offset and `nextOffset`, never more than `limit`, none cut off; with more to come it is full |
| `OffsetScans.TriageWalkIsComplete` | src/harper/resource-source-article-triage.ts:75-183 | Following the triage cursors shows the filtered article list in order, each row once, all pages but the last full |
| `OffsetScans.FeedPageIsCutWindow` | src/harper/resource-profile-endpoints.ts:175-267 | One mode-filtered feed page is the first `limit` matches of the raw window it advances over, and leaves fewer than `limit` behind |
| `OffsetScans.CollectIsCutWindow` | src/harper/resource-profile-endpoints.ts:218-267 | The recursive collection, from any already found matches, reads on until `limit` matches or the end and returns the first `limit` |
| `OffsetScans.FeedConserves` | src/harper/resource-profile-endpoints.ts:132-267 | Over a whole feed walk, rows shown plus each window's surplus are all the matches, and no row is shown more often than it is stored |
| `OffsetScans.FeedCompleteIff` | src/harper/resource-profile-endpoints.ts:132-267 | A feed walk shows exactly the matching list if and only if the mode is "all", or no block of `limit` raw rows carries the running count of matches past a multiple of `limit` |
| `OffsetScans.FeedWithoutSurplus` | src/harper/resource-profile-endpoints.ts:175-267 | In mode "all", and with pages of one, no row is ever left out |
| `OffsetScans.FeedLosesRow` | src/harper/resource-profile-endpoints.ts:226-236 | A concrete feed of four articles and pages of two in which one match is never shown |
| `GrowingScans.InsertionsLoseNoRow` | src/harper/resource-source-article-triage.ts:75-183 | When rows are only inserted between requests (any page sizes), a finished triage walk shows every matching row of its first request's list, in order; rows may be shown twice, none is missed |
| `GrowingScans.DeletionLosesRow` | src/harper/resource-source-article-triage.ts:75-183 | A row deleted in front of the cursor makes the walk miss a row that is there at every request |
| `GrowingScans.FeedWindowsLoseNoRow` | src/harper/resource-profile-endpoints.ts:132-267 | When articles are only inserted, the windows of a finished feed walk hold every match of the first request's list, in order; each page shows the first `limit` of its window, in mode "all" all of it |
| `ReadinessScan.ScanIsBoundedFilter` | src/harper/resource-directory-advisor-query.ts:232-262 | The scan returns the first `target` matches among the first 10,000 rows, and sets `truncated` exactly when that many were found or the table has 10,000 rows |
| `ReadinessScan.AtMostHundredReads` | src/harper/resource-directory-advisor-query.ts:232-262 | The scan makes at most 100 store reads |
| `ReadinessScan.ReadsWhileNeeded` | src/harper/resource-directory-advisor-query.ts:232-262 | It reads on exactly while matches are missing, the last batch was full and fewer than 100 batches have been read |
| `ReadinessScan.BoundedScanIff` | src/harper/resource-directory-advisor-query.ts:206-308 | Whatever order the store serves, page and next cursor equal those of filtering and sorting the whole table if and only if the page lies past the last match, or all rows up to the page's end have been scanned and the scan holds more than the page exactly when the table does |
| `ReadinessScan.BoundedScanRefinesFullFilter` | src/harper/resource-directory-advisor-query.ts:206-308 | In particular when the store serves directory order (or all matches fit) and the scan limit is not reached |
| `ReadinessScan.PageTellsTruncation` | src/harper/resource-directory-advisor-query.ts:206-308 | The page's `truncated` is unset if and only if the table has fewer than 10,000 rows and at most `offset + limit` matches, and then `total` is the number of matches; in every case `total` is the number of reachable matches, at most `offset + limit + 1` |
| `ReadinessScan.FinalizeIgnoresOrder` | src/harper/resource-directory-advisor-query.ts:281-308 | The in-memory page does not depend on the order in which its candidates were gathered |
| `ReadinessScan.UnsortedScanMissesFirstRow` | src/harper/resource-directory-advisor-query.ts:220-230 | With a CRD filter the store's sort is dropped: three rows in reverse order, and a first page that shows the wrong one |
| `ReadinessWalks.WalkCompleteIff` | src/harper/resource-directory-advisor-query.ts:206-308 | Following the cursors from the start shows all matches in directory order, each once, if and only if no match lies behind the first 10,000 rows and each page's own scan finds all rows up to the page's end |
| `ReadinessWalks.WalkIsSortedIff` | src/harper/resource-directory-advisor-query.ts:206-308 | From any cursor on, the walk shows the remaining reachable matches in directory order if and only if each page's scan finds all rows up to the page's end |
| `ReadinessWalks.WalkLength` | src/harper/resource-directory-advisor-query.ts:206-308 | In any store order a walk shows exactly as many rows as there are reachable matches ahead of it |
| `ReadinessWalks.SortedWalkShowsReachable` | src/harper/resource-directory-advisor-query.ts:206-308 | When the store serves directory order a walk shows exactly the matches among the first 10,000 rows |
| `ReadinessWalks.UnsortedWalkMissesRow` | src/harper/resource-directory-advisor-query.ts:220-230 | Over three rows in reverse order, without the store's sort, a walk by single rows shows one of them twice and one never |
| `PrefixSearch.CappedScansSuffice` | src/harper/resource-directory-search-queries.ts:418-461 | Capping the lower-case and title-case scans before deduplicating gives the first `cap` rows of deduplicating everything |
| `PrefixSearch.SearchFindsEachOnce` | src/harper/resource-directory-search-queries.ts:418-461 | A two-casing search has no id twice and, below the cap, finds every id either casing selects |
| `PrefixSearch.DedupeOfTwo` | src/harper/resource-directory-search-queries.ts:449-461 | `dedupeById` of two lists without repeats is the first list followed by the rows of the second with new ids |
| `EmploymentMerge.SameGroupIffConnected` | src/lib/brokercheck-employment.ts:101-190 | Two dated rows of one firm land in the same merged row if and only if a chain of rows with gaps of at most 90 days links them |
| `EmploymentMerge.MergedRowsSpanComponents` | src/lib/brokercheck-employment.ts:101-190 | Merged rows span their component's first start and last end, come in start order more than 90 days apart, at most the last one open; `_iaOnly` is true exactly when it was for every row merged |
| `EmploymentMerge.EveryRowIsMerged` | src/lib/brokercheck-employment.ts:101-128 | Every source row stands behind some merged row |
| `EmploymentMerge.BucketComponents` | src/lib/brokercheck-employment.ts:101-128 | The groups behind the merged rows partition the firm's rows into linked groups more than 90 days apart |
| `EmploymentMerge.KeptDates` | src/lib/brokercheck-employment.ts:158-176 | A merge keeps the earlier start, or the only one, and the later end, none if either is open |
| `EmploymentMerge.GapIsNinetyDays` | src/lib/brokercheck-employment.ts:183-190 | A row joins one that ended at most 90 days before its start, or any open one; without a start it joins only an open one |
| `EmploymentMerge.MergedRowKeepsDetails` | src/lib/brokercheck-employment.ts:136-150 | Each SEC number, city and state of a merged row is the first filled one of its group; firm id and name are the first row's |
| `EmploymentDedupe.MergeConservesDays` | src/lib/brokercheck-employment.ts:101-190 | Merging neither adds nor loses a day covered by employment or by its 90-day tail |
| `EmploymentDedupe.DaysDecideRanges` | src/lib/brokercheck-employment.ts:101-190 | Ranges more than 90 days apart are determined by the days they cover |
| `EmploymentOrder.RangesIgnoreOrderIff` | src/lib/brokercheck-employment.ts:101-190 | A firm's merged date ranges are the same for every order of its rows if and only if all rows without a start date agree on their end date |
| `EmploymentOrder.DedupeIgnoresOrderIff` | src/lib/brokercheck-employment.ts:62-128 | The same for a firm's ranges in the whole dedupe, over every order of the whole input |
| `EmploymentDedupe.RangesIgnoreInputOrder` | src/lib/brokercheck-employment.ts:101-128 | In particular a firm's merged date ranges do not depend on the order of dated rows |
| `EmploymentDedupe.MergeIdempotentIff` | src/lib/brokercheck-employment.ts:101-128 | Merging a firm's rows twice equals merging once if and only if no dated row lies within the gap of the last two of the undated rows, counted up to the first open one |
| `EmploymentDedupe.DatedMergeIsIdempotent` | src/lib/brokercheck-employment.ts:101-128 | With start dates on every row merging twice equals merging once |
| `EmploymentDedupe.UndatedRowsBreakIdempotence` | src/lib/brokercheck-employment.ts:183-190 | Three rows, two without start dates, on which a second merge changes the result |
| `EmploymentDedupe.UndatedRowsDependOnOrder` | src/lib/brokercheck-employment.ts:101-128 | One closed and one open row without start dates, whose order decides how many rows remain |
| `EmploymentDedupe.DedupeByFirm` | src/lib/brokercheck-employment.ts:62-99 | The output lists firms in first-seen order, and each firm's rows are its merged bucket |
| `EmploymentDedupe.FirmsInFirstOrder` | src/lib/brokercheck-employment.ts:62-99 | A firm is known by its FINRA id, and by its name without one; firms come in the order in which they first stand in the input, each once |
| `EmploymentDedupe.DedupeIdempotentIff` | src/lib/brokercheck-employment.ts:62-128 | A second dedupe changes nothing if and only if the merge of every firm's rows is settled by the first |
| `EmploymentDedupe.DedupeIgnoresInputOrder` | src/lib/brokercheck-employment.ts:62-128 | Shuffling dated input leaves each firm's date ranges as they were |
| `AdvisorTokens.TokensAreWordsThenName` | src/lib/advisor-tokens.ts:80-159 | The tokens are the distinct single words in field order, then the full legal name, cut at 32; words carry their most specific source as kind and the full name always has kind `name` |
| `AdvisorTokens.FullNameAddsNoMatches` | src/lib/advisor-tokens.ts:118-159 | A query word that starts any emitted token also starts an emitted single word, even when the cap of 32 bites |
| `AdvisorTokens.FirstWordSurvivesCap` | src/lib/advisor-tokens.ts:118-159 | The legal name's first word is always the first token |
| `AdvisorTokens.QueryTokensAreWords` | src/lib/advisor-tokens.ts:57-61 | Every query token has at least two code units and no separator |
| `NameWords.QueryTokensAreStretches` | src/lib/advisor-tokens.ts:57-61 | The query tokens are the texts of all maximal separator-free stretches of two code units or more, in the order in which they stand in the text, each as often as it stands there |
| `NameWords.QueryTokenIff` | src/lib/advisor-tokens.ts:57-61 | A text is a query token if and only if it is such a stretch |
| `NameWords.SeparatorIff` | src/lib/advisor-tokens.ts:60-60 | The ASCII separators are white space, full stop, comma, apostrophe and hyphen |
| `NameWords.SinglesAreFieldWords` | src/lib/advisor-tokens.ts:104-155 | The single words of an advisor are the words of the four fields, each once, in the order in which they first come up in legal, first, last and preferred name |
| `NameWords.TokenKindIff` | src/lib/advisor-tokens.ts:118-159 | A token's kind is `name` for the full name, else `lastName`, `firstName` or `preferredName` by the first of these fields it is a word of, else `name` |
| `AdvisorSearchIndex.LabelIsInjective` | src/lib/advisor-search-index.ts:74-80 | For advisor ids without a colon two row labels agree if and only if advisor, kind and token agree |
| `AdvisorSearchIndex.LabelSpells` | src/lib/advisor-search-index.ts:74-80 | The label of a row is `ASI:`, the advisor id, the kind and the token, joined by colons |
| `AdvisorSearchIndex.LabelsCollideWithColons` | src/lib/advisor-search-index.ts:74-80 | Why colons are excluded: with one in an advisor id two rows could share a label; UUIDs have none |
| `AdvisorSearchIndex.DiffOneIsExact` | src/lib/advisor-search-index.ts:100-116 | The diff by row id is exactly the desired rows that are missing and the stored rows that are not desired |
| `AdvisorSearchIndex.DiffOneCounts` | src/lib/advisor-search-index.ts:100-116 | The diff lists each missing and each superfluous row once |
| `AdvisorSearchIndex.PartialWritesAreBounded` | src/lib/advisor-search-index.ts:125-136 | Whatever subset of a run's writes has reached the store, each reindexed advisor has at least existing ∩ desired and at most existing ∪ desired, and other advisors' rows are untouched |
| `AdvisorSearchIndex.AllWritesSync` | src/lib/advisor-search-index.ts:125-136 | With all writes done every reindexed advisor has exactly the desired rows |
| `AdvisorSearchIndex.SyncedDiffIsEmpty` | src/lib/advisor-search-index.ts:100-136 | For advisors in sync the next diff is empty |
| `AdvisorSearchIndex.IndexTable.UpsertTokens` | src/lib/advisor-search-index.ts:266-279 | Batches of 25 whose requests arrive in any order; the batch with the first failure is the last one sent; at the end exactly the stored requests' rows are in, and every state on the way has some of them |
| `AdvisorSearchIndex.IndexTable.DeleteTokens` | src/lib/advisor-search-index.ts:290-303 | The same for removals |
| `AdvisorSearchIndex.SentThroughFailingBatch` | src/lib/advisor-search-index.ts:253-304 | Requests go out in batches of 25, up to the end of the batch that holds the first one not acknowledged |
| `AdvisorSearchIndex.IndexTable.CollectDiffs` | src/lib/advisor-search-index.ts:125-132 | The collected additions and removals are the exact diff of all requested advisors against the table, with exact counts |
| `AdvisorSearchIndex.IndexTable.ReindexAdvisorTokens` | src/lib/advisor-search-index.ts:125-136 | Every state a run passes through, failing halfway or not, keeps the bounds; a completed run leaves every advisor in sync and reports exact counts; a run on synced advisors writes nothing and reports 0 and 0 |
| `AdvisorSearchIndex.RerunConverges` | src/lib/advisor-search-index.ts:125-136 | After an interrupted run, one run without failures brings every advisor into sync, and the next reports 0 and 0 |
| `TokenQuery.QueryCompleteIff` | src/harper/resource-advisor-token-query.ts:52-138 | A query returns every match if and only if it is not truncated and every match has, for each query token, a row among the first 4,000 its prefix selects |
| `TokenQuery.FetchLimitHidesMatch` | src/harper/resource-advisor-token-query.ts:61-86 | An index of 4,001 advisors in which a two-word query returns nothing, untruncated, although one advisor matches |
| `TokenQuery.QueryRefinesScan` | src/harper/resource-advisor-token-query.ts:52-138 | Over an index in sync the query returns at most 500 distinct ids, all matching the naive rule; when no prefix scan exceeds its fetch limit, `truncated` is set if and only if a match was left out |
| `TokenQuery.QueryNeedsOnlyWords` | src/harper/resource-advisor-token-query.ts:128-138 | For the tokens of any query, the naive rule needs only the advisor's single-word tokens |
| `TokenQuery.IntersectIsIntersection` | src/harper/resource-advisor-token-query.ts:52-59 | Intersecting over the smaller set is set intersection without repeats |
| `TokenQuery.IntersectAllIsIntersection` | src/harper/resource-advisor-token-query.ts:101-118 | Folding over all tokens' id sets gives the ids common to all of them |
| `TokenQuery.TokenIdsAreHits` | src/harper/resource-advisor-token-query.ts:61-86 | The ids of one prefix scan are advisors with a matching row, and all of them while the fetch limit is not exceeded |
| `TokenOrder.FirstOrderKeptIff` | src/harper/resource-advisor-token-query.ts:52-118 | The common ids come in the order of one of the sets, the leading one; the first set's order, which the comment promises, is kept if and only if no two common ids stand the other way round in the two, and always when the first set is smallest |
| `TokenOrder.QueryFollowsLeader` | src/harper/resource-advisor-token-query.ts:101-138 | A query returns the first 500 common ids in the order of its leading token's scan |
| `TokenOrder.CapFollowsOtherOrder` | src/harper/resource-advisor-token-query.ts:52-118 | Ids 0 to 501 met with 501 down to 1: the cap keeps 501, which the first set's order would drop |
| `TokenQuery.SyncedTableScansInSync` | src/lib/advisor-search-index.ts:125-136 | A table the reindexer has brought into sync answers queries as an index in sync |
| `Throttle.TimeBoundIff` | src/harper/resource-login-throttle.ts:50-78 | With at most `c` attempts on a key at once, and the key neither cleared nor evicted, a gap between first and n-th failure is guaranteed if and only if it is no longer than the locks after failures n − c, n − 2c, … |
| `Throttle.FailuresApart` | src/harper/resource-login-throttle.ts:50-78 | A failure and the one `c` later are apart by the lock of the first |
| `Throttle.BoundNeedsOneAtATime` | src/harper/resource-auth-endpoints.ts:114-124 | The bound of 1,022,000 + 900,000·(n − 15) ms holds for all runs if and only if no two attempts overlap |
| `Throttle.ThrottleTimeBound` | src/harper/resource-login-throttle.ts:50-78 | For attempts made one at a time the n-th recorded failure (n ≥ 15) comes at least 1,022,000 + 900,000·(n − 15) ms after the first |
| `Throttle.TimeBoundIsTight` | src/harper/resource-login-throttle.ts:67-78 | That bound is met exactly by a client that retries at each unlock |
| `Throttle.OverlappingAttemptsEscape` | src/harper/resource-auth-endpoints.ts:114-124 | With all attempts in flight while the login is awaited, they can all fail at one instant |
| `Throttle.LockNeverShrinks` | src/harper/resource-login-throttle.ts:67-78 | While a key stays tracked and its failure times do not go back, `lockedUntil` and the failure count never decrease, for any interleaving |
| `Throttle.EvictionIff` | src/harper/resource-login-throttle.ts:67-86 | From its first failure on a key is evicted if and only if, before it succeeds, 10,000 other keys have failed after it and not succeeded since; without successes, if and only if 10,000 other keys fail for the first time |
| `Throttle.EvictedIff` | src/harper/resource-login-throttle.ts:67-86 | The same for any tracked key, counting from the keys already behind it, whatever the interleaving |
| `Throttle.EvictionIsFifo` | src/harper/resource-login-throttle.ts:67-78 | A key is evicted only after at least 10,000 later first failures of other keys |
| `Throttle.EvictionNeedsNewerKeys` | src/harper/resource-login-throttle.ts:67-86 | Keys inserted behind a key, now and during the run, number at least 10,000 when it is evicted |
| `Throttle.RunIsValid` | src/harper/resource-login-throttle.ts:67-86 | The tracker never holds more than 10,000 keys, for any interleaving of failures and successes |
| `Throttle.StateIsRecentFailures` | src/harper/resource-login-throttle.ts:67-86 | While a key is not evicted the tracker holds the number of its failures since it last succeeded, and a lock from the last of them on |
| `Throttle.LockTable` | src/harper/resource-login-throttle.ts:67-78 | Five failures are free, the sixth locks for two seconds, each further one doubles that, and from the fifteenth on it is fifteen minutes |
| `Throttle.LoginThrottle.AssertAllowed` | src/harper/resource-login-throttle.ts:50-59 | An attempt is let through exactly when the key is not inside a lock window; the tracker is unchanged |
| `Throttle.LoginThrottle.RecordFailure` | src/harper/resource-login-throttle.ts:67-78 | The new tracker is the specified one: one more failure, the lock it brings, the oldest key evicted when full |
| `Throttle.LoginThrottle.RecordSuccess` | src/harper/resource-login-throttle.ts:84-86 | The key is forgotten, the others keep their place |
| `Throttle.LoginThrottle.Reset` | src/harper/resource-login-throttle.ts:89-91 | The tracker is empty |
| `Throttle.LoginThrottle.RunLogin` | src/harper/resource-auth-endpoints.ts:109-125 | Status 500, 400, 429, 401 or success in that order of precedence; the throttle is consulted before the login and told its outcome after it, and an attempt that is refused records nothing |
| `UriComponent.EncodeIsInjective` | src/harper/resource-user-watchlists-store.ts:212-224 | Percent-encoding (section 19.2.6.4 of ECMA-262) of different texts is different |
| `UriComponent.EncodeIsColonFree` | src/harper/resource-user-watchlists-store.ts:212-224 | Percent-encoded text has no colon |
| `UriComponent.DecodeUndoesEncode` | src/harper/resource-user-watchlists-store.ts:212-224 | Percent-decoding (section 19.2.6.2 of ECMA-262) undoes the encoding |
| `UriComponent.EncodesIff` | src/harper/resource-user-watchlists-store.ts:212-224 | Encoding throws if and only if a surrogate stands alone |
| `UriComponent.StaysIff` | src/harper/resource-user-watchlists-store.ts:212-224 | A character is its own encoding if and only if it is a letter, a digit or one of the marks `-_.!~*'()` |
| `Watchlists.EntryIdIsInjective` | src/harper/resource-user-watchlists-store.ts:222-224 | An entry id belongs to one (list, advisor) pair only |
| `Watchlists.PostKeepsInvariant` | src/harper/resource-user-watchlists.ts:150-313 | Every action keeps: ids match contents, entries belong to stored lists, at most 50 lists per user; refused requests change nothing; other users' lists and entries are untouched |
| `Watchlists.RunKeepsInvariant` | src/harper/resource-user-watchlists.ts:150-313 | The invariant holds after any sequence of requests |
| `Watchlists.RunLeavesBystandersAlone` | src/harper/resource-user-watchlists.ts:150-313 | A user who sends nothing finds every list and entry as it was after any sequence of other users' requests |
| `Watchlists.PartialDeleteKeepsInvariant` | src/harper/resource-user-watchlists.ts:230-242 | With any subset of a list's entries already deleted the invariant holds and other users are untouched |
| `Watchlists.SavedEntryChangesItsPair` | src/harper/resource-user-watchlists.ts:251-289 | A successful add or update sets rank and note of exactly its (list, advisor) pair |
| `Watchlists.DeletedEntryRemovesItsPair` | src/harper/resource-user-watchlists.ts:298-313 | A successful entry delete removes exactly its pair |
| `Watchlists.DeletedListRemovesItsPairs` | src/harper/resource-user-watchlists.ts:230-242 | A successful list delete removes that list and exactly its entries |
| `Watchlists.EntryFoundIffStored` | src/harper/resource-user-watchlists.ts:386-400 | `requireEntry` finds an entry if and only if its pair is stored |
| `WatchlistOutcomes.AddEntryOutcome` | src/harper/resource-user-watchlists.ts:251-268 | `addEntry` succeeds if and only if the trimmed list id names a list of the user, an advisor is named and both ids encode, whether or not the pair is stored; the pair is stored afterwards; each refusal (400, 404, 400, 500 in that order) leaves the tables alone |
| `WatchlistOutcomes.UpdateEntryOutcome` | src/harper/resource-user-watchlists.ts:275-291 | `updateEntry` succeeds if and only if the list is the user's and the pair is stored, with the status of each refusal |
| `WatchlistOutcomes.DeleteEntryOutcome` | src/harper/resource-user-watchlists.ts:298-313 | `deleteEntry` succeeds if and only if the list is the user's and the pair is stored, with the status of each refusal |
| `WatchlistOutcomes.CreateOutcome` | src/harper/resource-user-watchlists.ts:181-202 | `create` succeeds if and only if the trimmed name is not empty, the user has fewer than 50 lists and the user id encodes; it adds one row, under an id that decodes to the user |
| `WatchlistOutcomes.RenameOutcome` | src/harper/resource-user-watchlists.ts:210-223 | `rename` succeeds if and only if the id names a list of the user and the trimmed name is not empty, and changes that name alone |
| `WatchlistOutcomes.DeleteListOutcome` | src/harper/resource-user-watchlists.ts:230-242 | `delete` succeeds if and only if the id names a list of the user |
| `WatchlistOutcomes.RefusedOutright` | src/harper/resource-user-watchlists.ts:150-173 | Without a signed-in user the answer is 401, for an unknown action 400, and nothing is written |
| `WatchlistOutcomes.EntryIdSpells` | src/harper/resource-user-watchlists-store.ts:222-224 | An entry id exists if and only if neither part has a lone surrogate; it is two colon-free halves that decode to the list and the advisor |
| `Watchlists.CreatedListReachableIff` | src/harper/resource-user-watchlists-store.ts:212-214 | A list just created, under a UUID of 36 units, can be addressed by its owner if and only if the encoded user id has at most 198 units |
| `Watchlists.LongUserIdStrandsList` | src/harper/resource-user-watchlists.ts:181-202 | From an empty store, a user id of 199 letters gives a list no request can address |
| `Watchlists.LongListIdIsUnreachable` | src/harper/resource-user-watchlists.ts:369-378 | A list whose id is longer than the 240 units read from a request can never be addressed |
| `Watchlists.WatchlistTables.DeleteWholeList` | src/harper/resource-user-watchlists.ts:230-242 | Every state on the way keeps the invariant; if the store refuses an entry delete or the list delete the list stays and the refusal is the response, otherwise the result is the specified one |
| `Watchlists.WatchlistTables.DeleteEntries` | src/harper/resource-user-watchlists.ts:234-240 | Deleting entry by entry leaves exactly the refused ones, through safe states only |
| `Watchlists.WatchlistTables.PostSingleWrite` | src/harper/resource-user-watchlists.ts:150-313 | The other actions do at most one write, with the specified new tables and response; a refused write changes nothing and is the response |
| `Watchlists.WatchlistTables.PostEntry` | src/harper/resource-user-watchlists.ts:251-313 | The three entry actions give the specified tables and response, or the refusal and nothing changed |
| `Watchlists.TextValueReads` | src/harper/resource-user-watchlists-store.ts:191-194 | Text is read as the stretch between its outer white space, cut to the limit; anything but a string reads as empty |
| `Watchlists.PositiveIntReads` | src/harper/resource-user-watchlists-store.ts:201-204 | A rank is the decimal number spelled after leading white space and an optional sign, absent when there are no digits, the sign is a minus or the number is zero |
| `FirmCanonicalization.OneCanonicalFirm` | src/harper/resource-firm-canonicalization.ts:110-135 | With duplicates present the firm list is the untouched other firms followed by the one canonical row, and no duplicate is left |
| `FirmColumns.FirmListAfterPass` | src/harper/resource-firm-canonicalization.ts:323-364 | With a duplicate present the firm list is the rows that are neither canonical nor named like the alias, in order, then one row with the canonical id and name |
| `FirmColumns.StoredCanonicalIsChosen` | src/harper/resource-firm-canonicalization.ts:341-342 | The duplicates are folded into the first row stored under the canonical id |
| `FirmCanonicalization.FirmsArePartitioned` | src/harper/resource-firm-canonicalization.ts:323-364 | The kept, folded and canonical rows are together the firm rows, each as often as it is stored |
| `FirmCanonicalization.FirmIsInOnePart` | src/harper/resource-firm-canonicalization.ts:323-364 | A firm row is in exactly one of the three parts, decided by its id and name |
| `FirmCanonicalization.ReferencesMove` | src/harper/resource-firm-canonicalization.ts:412-450 | A reference cell holding a duplicate's id becomes the canonical id; every other reference cell is unchanged |
| `FirmCanonicalization.NoReferenceToDuplicate` | src/harper/resource-firm-canonicalization.ts:431-450 | After the pass a reference equals a duplicate's id if and only if it did before and the id is not a string |
| `FirmCanonicalization.ReferencesStillResolve` | src/harper/resource-firm-canonicalization.ts:110-135 | A reference that found its firm still does, if and only if it is a string or some firm that is no duplicate answers to it |
| `FirmCanonicalization.OtherCellsStay` | src/harper/resource-firm-canonicalization.ts:412-450 | Cells that are no firm reference, other than team names, are unchanged and rows keep their fields |
| `FirmColumns.CellAfterPass` | src/harper/resource-firm-canonicalization.ts:84-135 | After the pass `firmId` of employments, branches, branchAssignments, regApps, deals and mFirm, `currentFirmId` of teams, `firmIdAtTime` of disclosures, `subjectFirmId` of bcSnaps and the three firm fields of transitions hold the canonical id wherever they held a duplicate's; every other cell is as it was, save team names |
| `FirmColumns.TablesAfterPass` | src/harper/resource-firm-canonicalization.ts:110-135 | The pass keeps every table and adds none but the team and alias lists |
| `FirmCanonicalization.MergedFirmKeepsEveryField` | src/harper/resource-firm-canonicalization.ts:337-383 | A field of the canonical row is filled if and only if the chosen row or a duplicate had it filled, with a value of one of them |
| `FirmColumns.FillsIff` | src/harper/resource-firm-canonicalization.ts:480-485 | A value fills its field unless it is missing, blank text or an empty list |
| `FirmCanonicalization.FoldTakesWinner` | src/harper/resource-firm-canonicalization.ts:337-383 | Each field of the folded row has the value of the last source to take over with it filled (more filled fields than all before it together), else of the first source that fills it |
| `FirmCanonicalization.ChosenValuesKeptIff` | src/harper/resource-firm-canonicalization.ts:337-383 | The fold keeps all of the chosen row's values if and only if every field it fills is won by itself or by a duplicate that agrees |
| `FirmCanonicalization.FullerDuplicateOverrides` | src/harper/resource-firm-canonicalization.ts:337-383 | A duplicate with one more field filled replaces the website of the stored canonical firm |
| `FirmCanonicalization.CanonicalValuesKeptIff` | src/harper/resource-firm-canonicalization.ts:370-383 | One merge keeps them if and only if the duplicate is not fuller or does not contradict the row |
| `FirmCanonicalization.FullestDuplicateWins` | src/harper/resource-firm-canonicalization.ts:341-352 | Without a stored canonical row the duplicate with the most filled fields is chosen and keeps every value it has |
| `FirmCanonicalization.AliasOverlay` | src/harper/resource-firm-canonicalization.ts:390-404 | The curated alias is listed once, at the end; other alias rows are kept in order |
| `FirmColumns.AliasListAfterPass` | src/harper/resource-firm-canonicalization.ts:390-404 | The alias list is the stored rows except any under the curated id, in order, then the curated row, field by field; it names the canonical firm |
| `FirmCanonicalization.StoredAliasResolvesIff` | src/harper/resource-firm-canonicalization.ts:84-95 | Stored alias rows are not rewritten: after the pass one names a listed firm if and only if it names the canonical firm of folded duplicates or a firm that is no duplicate |
| `FirmCanonicalization.StoredAliasLosesFirm` | src/harper/resource-firm-canonicalization.ts:84-95 | A stored alias of a duplicate names no listed firm once the duplicate is folded |
| `FirmCanonicalization.SecondPassTouchesOnlyTeamNames` | src/harper/resource-firm-canonicalization.ts:110-135 | A second pass leaves firms, aliases and references unchanged |
| `FirmCanonicalization.PassIsIdempotentIff` | src/harper/resource-firm-canonicalization.ts:110-135 | The whole pass is idempotent if and only if no team name ends in the non-compliance marker twice |
| `FirmCanonicalization.CleaningTwiceIff` | src/harper/resource-team-display.ts:10-15 | Cleaning a cleaned team name changes it if and only if the name is marked twice |
| `FirmCanonicalization.DoubleMarkerNeedsTwoPasses` | src/harper/resource-team-display.ts:10-15 | A name with the marker twice is cleaned only halfway |
| `FirmCanonicalization.TeamNameAfter` | src/harper/resource-firm-canonicalization.ts:257-264 | Every team row is kept, under its trimmed name without the marker |
| `FirmColumns.DisplayNameReads` | src/harper/resource-team-display.ts:10-15 | A public team name is the trimmed name, without the marker and trimmed again if it ends in one; a missing name is empty |
| `FirmColumns.MarkerIff` | src/harper/resource-team-display.ts:3-15 | The marker is the sixteen characters " - NON-COMPLIANT" in any mix of cases, the I also dotless |
| `TeamDedupe.ListedOnceIff` | src/harper/resource-firm-canonicalization.ts:271-284 | Under any consistent collator each identity is listed once, whatever the ids, if and only if no two different identities collate equal |
| `TeamDedupe.OneRowPerTeam` | src/harper/resource-firm-canonicalization.ts:271-284 | Where identities do not tie each is listed once, by its row of lowest id |
| `TeamDedupe.EveryTeamIsListed` | src/harper/resource-firm-canonicalization.ts:271-284 | Under any consistent collator only stored rows are listed, every identity is, and the list is in its order |
| `TeamDedupe.OnceIffTogether` | src/harper/resource-firm-canonicalization.ts:271-284 | Dropping repeats of the neighbour lists each identity once if and only if its rows stand together |
| `TeamDedupe.AccentsRepeatTeam` | src/harper/resource-firm-canonicalization.ts:274-278 | A collator that equates composed and decomposed accents, and three rows of which one team is listed twice |
| `CurrentEmployment.MapAgreesWithScan` | src/harper/resource-search.ts:43-60 | The sort and last-write-wins map gives, per advisor, the lowest-index open row with the latest start, as the plain scan does, and nothing for an advisor without an open row |
| `CurrentEmployment.FirmNameIsScannedFirm` | src/harper/resource-search.ts:76-91 | The firm name shown for an advisor is that of the row the scan finds; advisors whose firm is unknown are left out |
| `FirmMomentum.MomentumRowIsWatchlistItem` | src/harper/resource-recruiting-market-helpers.ts:246-303 | Each momentum row of the grouped fold equals the filter-then-fold watchlist item of its firm, with the same move ids in another order |
| `FirmMomentum.MomentumListsEveryFirmOnce` | src/harper/resource-recruiting-market-helpers.ts:246-303 | Every firm on either side of a move has exactly one row, and rows come by descending net AUM |
| `FirmMomentum.FoldIsFilterThenFold` | src/harper/resource-recruiting-market-helpers.ts:287-303 | What the fold does to one firm's account is the fold of the moves filtered to that firm, in the same order |
| `RecruitingSums.SummaryIsSums` | src/harper/resource-recruiting-market-helpers.ts:358-395 | A summary is the number of its moves, the sum of their known AUMs, and the numbers of moves without a known AUM and without a known T-12 |
| `RecruitingSums.MomentumRowIsSums` | src/harper/resource-recruiting-market-helpers.ts:246-303 | Each momentum row shows those figures for the moves whose `toFirm` is its firm and for those whose `fromFirm` is, and their differences as nets |
| `RecruitingSums.WatchlistItemIsSums` | src/harper/resource-recruiting-watchlist.ts:246-276 | Each watchlist item shows the same figures, and the ids of the moves in, then out |
| `RecruitingSums.MarketRowIsSums` | src/harper/resource-recruiting-market-helpers.ts:313-352 | Each market row shows the figures and ids of the moves with its place label, those without one under "Unknown market", and the city and state of the first |
| `RecruitingSums.WatchlistTotalsAreSums` | src/harper/resource-recruiting-watchlist.ts:314-328 | Over distinct firms the watchlist totals are the figures of all moves to one of them and of all moves from one |
| `MarketTotals.NetsAddUp` | src/harper/resource-recruiting-market-helpers.ts:246-277 | The net columns add up to arrivals minus departures, in moves and in AUM |
| `MarketTotals.NetsCancel` | src/harper/resource-recruiting-market-helpers.ts:246-277 | When every move has a firm on both sides the net columns sum to zero |
| `MarketTotals.MarketsAddUp` | src/harper/resource-recruiting-market-helpers.ts:313-360 | The market summaries add up to `summarizeMoves` over all moves |
| `MarketTotals.MarketRowIsItsMoves` | src/harper/resource-recruiting-market-helpers.ts:333-352 | Each market row is the summary, the ids and the first location of the moves in that market |
| `MarketTotals.MarketsListedOnce` | src/harper/resource-recruiting-market-helpers.ts:313-325 | A market has a row if and only if it has a move, has only one, and rows come by known AUM, then count, descending |
| `MarketTotals.DistinctWatchlistCountsOnce` | src/harper/resource-recruiting-watchlist.ts:156-178 | Over distinct firms the watchlist side totals count every matching move once |
| `MarketTotals.WatchlistTotalsIff` | src/harper/resource-recruiting-watchlist.ts:121-130 | The watchlist totals are right for every set of moves if and only if no firm is watched twice |

## Left out

- Base64url and UTF-8 packing of cursor tokens: a token is the text it carries, the packing being a bijection on well-formed text; texts with lone surrogates, which the packing alters, are not modelled.
- `decodeOffsetCursor` and ranks beyond 2^53 and floating-point rounding: offsets are unbounded integers and AUM is `real`. `FoldIsFilterThenFold` and `MomentumRowIsWatchlistItem` compare folds that add in the same order and use no law of addition; `NetsAddUp`, `NetsCancel`, `MarketsAddUp` and the watchlist totals do.
- `Intl` collation: `localeCompare` on directory ids is assumed to agree with code-unit order (`CollatesByCodeUnit`); for team identities it is any consistent order; the text of a publication date stands for its place in the collation order.
- Unicode normalisation, lower-casing, and regular expressions: names, team identities and throttle keys are taken after them, and the alias key of a firm name is an arbitrary function. Upper-casing matters for the team-name marker only and is modelled for the characters that can match it.
- `Date.parse` and date text: employment dates are day numbers, current-employment starts are milliseconds, and unreadable dates are absent or zero as the code makes them.
- UUIDs: the hash behind an index row id is injective, and a new list's random UUID is unused (`FreshUuid`).
- AdvisorSearchIndex.IndexTable.UpsertTokens: for rows of which no two different ones share an id, as `DiffIdsUnique` shows of every run; otherwise the concurrent requests of a batch would race.
- AdvisorSearchIndex.LabelIsInjective: stated for advisor ids without a colon, which UUIDs are; `LabelsCollideWithColons` shows the need.
- Watchlists.RunKeepsInvariant: requests run one at a time; concurrent requests of one user can pass the list limit together.
- Watchlists.WatchlistTables.DeleteWholeList: a failed request ends only after all entry deletes have been tried; in the program they go on behind the error response, one refused delete deciding its status.
- FeedPages.MergedPageIff: for articles with different ids, which the primary key gives.
- OffsetScans.LoadFeedPage: raw pages are slices of one list; for the merged web-research feed that is so while printed dates follow dates (`FeedPageIsSliceOfWhole`), and other data is not modelled there.
- OffsetScans.TriageWalkIsComplete: a walk over one unchanging list with one page size; for lists that grow between requests see `InsertionsLoseNoRow`, and only rows that leave the list lose others. Changes between the raw reads of one request are not modelled.
- OffsetScans.FeedConserves: likewise for one unchanging list and page size; for growing lists see `FeedWindowsLoseNoRow`.
- ReadinessWalks.WalkCompleteIff: over one unchanging table with one page size.
- Pagination.UnsortedWalkIff: for one page size; the roster's own row selection is not part of this model.
- Impossible dates: `toIsoDate` lets an ISO-shaped impossible date such as "2024-13-45" through, and `withinMergeGap` then answers false; a date of the model is a day number or absent, so it has no such value.
- EmploymentMerge.SameGroupIffConnected: about rows with a start date that end no earlier than they start; rows without start dates are covered by `MergeIdempotentIff` and `RangesIgnoreOrderIff`.
- Employment buckets are looked up in a plain object, so a firm named like an inherited property would misbehave; the model groups by key only.
- Feed hydration, triage row shaping, watchlist decoration and sorting for display, the roles and analyst checks: field copying.
- `sourceCoverage`, `watchlistSourceStatus`, branch coverage and evidence links of a watchlist item: counts and labels of one branch each.
- `rowsByIds`, `firmPrefixSearch` and `teamPrefixSearch`: batched lookups around the prefix search that is modelled.
- The native and token-only advisor directory queries: store paging and `finalizeInMemory` again.
- `inverseDateKey`, `indexBy`, ranked search scores: one expression each.
- The text of a watchlist request's `action` (`create` when missing) and how its body is found: a request carries its action and fields.
- Same-origin guard, session handling, logout, route parsing, content negotiation, MCP tools, static files: no state worth a proof.
- The SQL handle of the reindexer, which writes in one request; the REST handle with its batches is the harder one.
