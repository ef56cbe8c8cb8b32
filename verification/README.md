# A verified model of the feed reader's storage and protocols

This project models, in Dafny, the parts of the feed reader whose behaviour spans several
statements, tables or requests, and proves what they promise.

- **Entries and tombstones.** Refreshes, imports and feed creations are transactions of several
  statements; they interleave with archiving, history flushes, feed removals and user updates
  (`EntryTables`, `EntryArchive`, `EntryLifecycle`, `EntryLifecycleSteps`, `EntryLifecycleRuns`).
  What the store's methods do when they run alone, the set specification they meet, and the rows
  they leave column by column, are in `EntryRefresh`, `EntryRefreshAgain`, `EntryRefreshRows` and
  `EntryStore`; enclosures are in `Enclosures`, text truncation in `TextTruncation`.
- **Query builders.** A chain of builder calls is compiled to conditions with numbered
  placeholders and an argument list. `SqlConditions` gives the conditions a grammar, in which AND
  binds tighter than OR, and a meaning; `Filters` proves that every chain denotes the conjunction
  of the requested filters. On it stand `Catalog`, `Ordering`, `EntryQueries`, `EntryPagination`,
  `EntryPaginationMarkRead`, `FeedQueries` and `Batch`.
- **Paging clients.** `OrderedPages` says what a client can rely on that reads an ordered result
  page by page; `ReaderPaging` (continuations by offset) and `FeverPaging`, `FeverPageRepeats` and
  `FeverWalk` (by the lowest id received) are the two protocols.
- **Reconciliations.** `Categories` and `Icons`.
- **Protocols.** `WorkerPool` (the refresh pool over a buffered channel), `WebSessions`,
  `WebSessionRequests` and `WebSessionProperties` (sessions from login to persistence) and
  `Migrations` (the resumable migration runner).
- **Arithmetic and codecs.** `Scheduling`, `Numerals`, `ItemIds`, `Streams`.

Each table is a map or a set, each SQL statement one atomic step on it. Objects that the program
updates in place are classes; their methods are proved against functions on the tables, and the
properties are proved about those functions and about whole runs. Times are integers, text that is
only compared is `seq<char>`, and text that is cut by length is bytes. Beside each function that
specifies an operation stands a statement of the same effect in the columns of the tables, with the
constants written out, and a lemma or contract that ties the two.

Some promises turn out to hold only under a condition. Those are stated as "exactly when" lemmas,
with the code kept as it is:

- the truncation of indexed text also drops a last multi-byte character that fits;
- a decimal item id of 16 characters is read as hexadecimal, unless its first digit is 8 or 9;
- a label whose title starts with `user/-/label/` does not survive the user's own label prefix;
- over any run of overlapping icon updates every feed keeps one icon if and only if no commit meets
  another icon that its delete did not see; a second icon inflates the total of every page that has
  rows, and a page of the Fever API repeats no entry if and only if each of the first forty-nine
  entries below its max_id has at most one icon;
- removing categories deletes feeds of other users filed under them, and a success return says
  nothing about the commit, whose result is not looked at;
- a migration run that takes an unreadable schema version for 0 repeats nothing exactly when its
  first transaction is not applied, which the first migration takes care of by failing on a schema
  that is there;
- the check interval panics on a product that is a multiple of 2^64, and with overflow a busier
  feed can be checked less often: exactly when, for any refresh delay, is stated;
- offset paging delivers every entry, whatever order each request sees among entries published at
  the same time, if and only if no page ends inside such a group, because nothing breaks ties;
- in a list sorted by the time of change, marking an entry keeps its neighbours exactly when the
  same entries come after its old and its new time.

Check the project with `dafny verify dfyconfig.toml`, adding
`--resource-limit 2000000 --verification-time-limit 0`.

## Model

| member | source | states |
|---|---|---|
| EntryLifecycle.StepKeepsInv | internal/storage/entry.go:81-164 | every step of every client, in any interleaving of checks, guarded writes, commits, rollbacks, archives, flushes, removals and user updates, keeps keys unique, no key both alive and tombstoned, and every pending write valid |
| EntryLifecycle.CommitKeepsInv | internal/storage/entry.go:337-361 | a commit publishes its insert or update without breaking what other open transactions rely on |
| EntryLifecycle.ArchivingKeepsInv | internal/storage/entry.go:376-398 | deleting rows with their tombstones keeps the invariant even while inserts of other keys are pending |
| EntryLifecycle.RemoveFeedsKeepsInv | internal/storage/feed.go:468-473 | removing any set of idle feeds with the cascades, as the removal of a feed, a category or a user does, keeps the invariant |
| EntryLifecycleRuns.KeysStayUniqueAndDead | internal/database/migrations.go:1470-1495 | in every reachable state (feed, hash) is unique and never both an entry and a tombstone, and an uncommitted insert shares its key with no row, no tombstone and no other uncommitted insert |
| EntryLifecycleRuns.ArchivedEntryNeverReappears | internal/storage/entry.go:368-409 | an archived or flushed entry with a hash is in no later state of any run while its feed exists |
| EntryLifecycleRuns.ProtectedEntrySurvives | internal/storage/entry.go:487-503 | over any run an entry that stays starred or shared is never deleted unless its feed is removed |
| EntryLifecycleRuns.TransactionsKeepReaderState | internal/storage/entry.go:169-215 | no step of a refresh, import or creation touches status, starred flag, share code, dates or key of a stored entry |
| EntryLifecycleRuns.ArchiveCountIsExact | internal/storage/entry.go:400-408 | in any run the returned count is the number of deleted rows with a hash |
| EntryLifecycleRuns.NewEntryIsNotArchivedSoon | internal/storage/entry.go:368-409 | in any run the entry whose insert ran at some time is not archived within a day of it, nor within the whole days of the interval |
| EntryLifecycleSteps.ArchiveStep | internal/storage/entry.go:376-398 | in the columns: of the due rows that no open update has locked the oldest go, up to the limit, and exactly their keys with a hash are buried |
| EntryLifecycleSteps.FlushStep | internal/storage/entry.go:487-503 | exactly the read rows of the user that are neither starred nor shared go, and exactly their keys with a hash are buried |
| EntryLifecycleSteps.RemoveStep | internal/storage/feed.go:468-473 | the feeds go with their entries and tombstones and nothing else does; a feed of another user stays |
| EntryLifecycleSteps.CheckStep | internal/storage/entry.go:218-229 | the check finds the entry exactly when a committed row has its feed and hash |
| EntryLifecycleSteps.InsertStep | internal/storage/entry.go:81-164 | a tombstone lets a refresh go on without a row and stops the other callers, a missing feed or a committed key stops everyone, otherwise the next id is taken |
| EntryLifecycleSteps.UpdateStep | internal/storage/entry.go:169-215 | the update takes a row of the feed, hash and user, and without one the transaction is over |
| EntryLifecycleSteps.CommitStep | internal/storage/entry.go:355-359 | a commit shows the pending row with its date as published time, the time of the insert as creation time, unread and private, or the new text of the updated row, and changes no other row |
| EntryLifecycleSteps.ReaderStep | internal/storage/entry.go:412-485 | marking, starring, sharing and rewriting change the named columns of rows of the user himself and nothing else |
| EntryLifecycleSteps.ArchivingIsNeverBlocked | internal/storage/entry.go:383-390 | in every state some choice lets archiving proceed |
| EntryLifecycleSteps.TransactionsGoOn | internal/storage/entry.go:329-361 | a transaction can take its next step unless another one holds its key or its row, and can always roll back |
| EntryLifecycleSteps.ReadersBlockNobody | internal/storage/entry.go:329-361 | without uncommitted writes everyone can act, whatever transactions are open |
| EntryArchive.CountIsDeletedRowsExactlyWhen | internal/storage/entry.go:376-408 | the tombstones inserted number the deleted rows with a hash exactly when none of them had a tombstone |
| EntryArchive.ArchiveChoiceIsUniqueExactlyWhen | internal/storage/entry.go:382-384 | which rows go is determined exactly when the order by creation time does not tie one that goes with one that stays |
| EntryArchive.DueIsEligible | internal/storage/entry.go:371-397 | the rows that the cut-off time selects are exactly those older than a day and than the whole days of the interval |
| EntryArchive.ChosenAreTheOldest | internal/storage/entry.go:376-398 | at most limit due, unlocked rows go, all of them if fewer than limit go, and none younger than a due, unlocked row that stays |
| EntryArchive.ArchiveRunDrains | internal/storage/entry.go:368-409 | whatever other transactions lock at each call, k calls at one time leave n - k*limit of n due rows (of the status, unprotected, older than a day and than the whole days of the interval), or none but rows locked at some call |
| EntryArchive.ArchiveRunDrainsTheUnlocked | internal/storage/entry.go:368-409 | while the same rows are locked, k calls leave max(0, n - k*limit) of n unlocked due rows and all the locked ones |
| EntryRefresh.RefreshRefinesSets | internal/storage/entry.go:320-365 | for every list the stored hashes become the old ones plus the listed ones that are not tombstoned, the result is the previously new entries in order, and nothing else about existing rows changes |
| EntryRefresh.NewOnesAreTheNewEntries | internal/storage/entry.go:283-298 | for distinct hashes the returned entries are exactly the listed ones that IsNewEntry accepted beforehand |
| EntryRefresh.FailingRefreshKeepsValid | internal/storage/entry.go:320-365 | whatever fails in between, the constraints hold and only listed, not tombstoned entries were added |
| EntryRefreshAgain.RefreshIsIdempotent | internal/storage/entry.go:320-365 | running the same list again returns nothing new and leaves entries, tombstones and enclosures as they were |
| EntryRefreshAgain.RerunFindsNothingNew | internal/storage/entry.go:320-365 | with duplicates in the list too, a second run finds nothing new |
| EntryRefreshAgain.AloneRefreshIsARun | internal/storage/entry.go:331-361 | an undisturbed refresh transaction is a run of begin, check, write, commit of the concurrent model |
| EntryStore.Storage.CreateEnclosure | internal/storage/enclosure.go:149-177 | inserts one trimmed, non-blank, not yet stored URL, else leaves the rows alone |
| EntryStore.Storage.UpdateEnclosures | internal/storage/enclosure.go:179-218 | the loop and the final delete compute the specified table |
| EntryStore.Storage.EntryExists | internal/storage/entry.go:218-229 | under the constraints the check finds the key exactly when one row has it, and then its feed exists and it has no tombstone |
| EntryStore.Storage.CreateEntry | internal/storage/entry.go:81-164 | says exactly when the guarded insert is stopped by a tombstone, fails on a constraint, or stores one fresh row: published at the date of the entry, created and changed now, unread, not starred, not shared, with its text and listed enclosures |
| EntryStore.Storage.UpdateEntry | internal/storage/entry.go:169-215 | rewrites text, indexed text and enclosures of the user's row with that feed and hash and no other column, or reports that there is none |
| EntryStore.Storage.IsNewEntry | internal/storage/entry.go:283-298 | true exactly for keys neither stored nor tombstoned |
| EntryStore.Storage.RefreshEntry | internal/storage/entry.go:329-361 | one transaction of the loop has the specified effect and rolls back completely on failure |
| EntryStore.Storage.RefreshFeedEntries | internal/storage/entry.go:320-365 | the loop with a transaction per entry computes the specified tables and new entries, and stops at the first failure; up to there each listed hash is stored or was tombstoned, each added row is that of the first listed entry with its hash, created at the time of its transaction, and each row that was there has at most the text of the last one |
| EntryStore.Storage.InsertEntryForFeed | internal/storage/entry.go:252-281 | reuses a stored entry, refuses a tombstoned one, else stores it; nothing changes otherwise |
| EntryStore.Storage.CreateFeedEntry | internal/storage/feed.go:306-334 | one entry of a new feed is stored, skipped when present, refused when tombstoned |
| EntryStore.Storage.CreateFeed | internal/storage/feed.go:225-337 | succeeds exactly when no statement or commit fails from outside, never for a tombstone because the feed id is fresh; otherwise the feed has exactly the hashes listed before the first failure, each in the row of its first listed entry |
| EntryStore.CreateFeedStoresEveryHash | internal/storage/feed.go:300-334 | afterwards the feed has exactly the listed hashes and other feeds are unchanged |
| EntryRefreshRows.RefreshLeavesRows | internal/storage/entry.go:320-365 | for any list and owners, after a refresh that did not fail every row is either as before, with the text of the last listed entry of its hash when updates are asked for, or was added for the first listed entry of its hash with its date, the clock of its transaction and the defaults |
| EntryStore.Storage.OldestRows | internal/storage/entry.go:380-391 | the ordered, limited subselect picks the oldest candidates |
| EntryStore.Storage.ArchiveEntries | internal/storage/entry.go:368-409 | with any rows locked by others: at most limit rows go, all unprotected, unlocked and older than the whole days of the interval and than a day; if fewer than limit go, no unlocked such row is left, and none goes that is younger than one left; tombstones and count are those of the rows with a hash; nothing for a negative interval or no limit |
| EntryStore.Storage.FlushHistory | internal/storage/entry.go:487-503 | the user's read entries go unless starred or shared, every other row and its enclosures stay as they are, and the new tombstones are the keys of the rows with a hash that went, one for each |
| EntryStore.Storage.SetEntriesStatus | internal/storage/entry.go:412-428 | changes status and change time of the user's listed entries and nothing else |
| Enclosures.TrimSpaceRemovesOuterSpace | internal/storage/enclosure.go:150-153 | trimming removes exactly the white space at both ends |
| Enclosures.UpdateResult | internal/storage/enclosure.go:179-218 | surviving rows keep id, attributes and media progression, other entries' rows are untouched, each missing URL gets one fresh row with the first listed attributes |
| Enclosures.UpdateInColumns | internal/storage/enclosure.go:179-218 | each listed non-blank URL ends up in one row of the entry, a new one with the size, type and progression of the first enclosure listed with it, rows of this user and entry with an unlisted URL go, and every other row stays |
| Enclosures.UpdatedUrlsAreTheListedOnes | internal/storage/enclosure.go:179-218 | the stored URLs become the trimmed non-blank listed ones, exactly unless a stored blank URL meets a listed one |
| Enclosures.UpdateStoresNoBlankUrl | internal/storage/enclosure.go:149-218 | no write stores a blank URL, so the exception does not arise |
| Enclosures.UpdateIsIdempotent | internal/storage/enclosure.go:179-218 | applying an update twice equals applying it once |
| TextTruncation.TruncateStringForTSVectorField | internal/storage/entry.go:685-707 | the backward byte scan computes the specified cut |
| TextTruncation.TruncateTitleAndContentForTSVectorField | internal/storage/entry.go:678-682 | title and content are cut to prefixes below 200,000 and 500,000 bytes, and shorter ones are kept |
| TextTruncation.TruncatedIsShortPrefix | internal/storage/entry.go:685-707 | for any bytes the result is a prefix shorter than the limit |
| TextTruncation.TruncatedIsValidUtf8 | internal/storage/entry.go:685-707 | valid UTF-8 stays valid and at most four of the bytes that fit are lost |
| TextTruncation.TruncatedIsLongestExactlyWhen | internal/storage/entry.go:693-705 | the longest valid prefix below the limit, exactly unless a multi-byte character ends at the cut |
| SqlConditions.WhereIsConjunction | internal/storage/entry_query_builder.go:522-524 | a joined clause parses to the conjunction of its parts and is an error exactly when it is empty or a part is |
| SqlConditions.UnparenthesizedDisjunctionLeaks | internal/storage/entry_pagination_builder.go:85-88 | without its parentheses the disjunction would change the meaning of the clause |
| Filters.ChainDenotesConjunction | internal/storage/entry_query_builder.go:46-188 | for every chain of calls and any further arguments the clause holds on exactly the rows that pass every filter |
| Filters.PlaceholdersMatchArguments | internal/storage/entry_query_builder.go:46-188 | the placeholders used are exactly 1 to the number of arguments |
| EntryQueries.EntryQueryBuilder.constructor | internal/storage/entry_query_builder.go:545-551 | a new builder asks for the user's entries |
| EntryQueries.EntryQueryBuilder.Anonymous | internal/storage/entry_query_builder.go:554-558 | an anonymous builder restricts nothing |
| EntryQueries.EntryQueryBuilder.WithSearchQuery | internal/storage/entry_query_builder.go:46-59 | keeps the entries that match the search and orders them by rank, whose placeholder denotes this query whatever is added later; or nothing for an empty text |
| EntryQueries.EntryQueryBuilder.WithStarred | internal/storage/entry_query_builder.go:62-69 | keeps the starred entries, or those that are not |
| EntryQueries.EntryQueryBuilder.BeforeChangedDate | internal/storage/entry_query_builder.go:72-76 | keeps the entries changed before the date, and the meaning of every earlier placeholder |
| EntryQueries.EntryQueryBuilder.AfterChangedDate | internal/storage/entry_query_builder.go:79-83 | keeps the entries changed after the date, and the meaning of every earlier placeholder |
| EntryQueries.EntryQueryBuilder.BeforePublishedDate | internal/storage/entry_query_builder.go:86-90 | keeps the entries published before the date, and the meaning of every earlier placeholder |
| EntryQueries.EntryQueryBuilder.AfterPublishedDate | internal/storage/entry_query_builder.go:93-97 | keeps the entries published after the date, and the meaning of every earlier placeholder |
| EntryQueries.EntryQueryBuilder.BeforeEntryID | internal/storage/entry_query_builder.go:100-106 | keeps the entries with a lower id; no restriction for 0 |
| EntryQueries.EntryQueryBuilder.AfterEntryID | internal/storage/entry_query_builder.go:109-115 | keeps the entries with a higher id; no restriction for 0 |
| EntryQueries.EntryQueryBuilder.WithEntryIDs | internal/storage/entry_query_builder.go:118-127 | keeps the listed entries; no restriction for an empty list |
| EntryQueries.EntryQueryBuilder.WithFeedID | internal/storage/entry_query_builder.go:130-136 | keeps the entries of the feed for a positive id |
| EntryQueries.EntryQueryBuilder.WithCategoryID | internal/storage/entry_query_builder.go:139-145 | keeps the entries of feeds in the category for a positive id |
| EntryQueries.EntryQueryBuilder.WithStatuses | internal/storage/entry_query_builder.go:148-157 | keeps the entries with one of the statuses; no restriction for none |
| EntryQueries.EntryQueryBuilder.WithTags | internal/storage/entry_query_builder.go:160-166 | keeps the entries that have every tag, in any spelling of ASCII letters; no restriction for none |
| EntryQueries.EntryQueryBuilder.WithoutStatus | internal/storage/entry_query_builder.go:169-175 | keeps the entries with another status; no restriction for an empty one |
| EntryQueries.EntryQueryBuilder.WithShareCode | internal/storage/entry_query_builder.go:178-182 | keeps the entries with the share code |
| EntryQueries.EntryQueryBuilder.WithShareCodeNotEmpty | internal/storage/entry_query_builder.go:185-188 | keeps the shared entries |
| EntryQueries.EntryQueryBuilder.WithGloballyVisible | internal/storage/entry_query_builder.go:226-230 | keeps the entries that neither their feed nor its category hides |
| EntryQueries.EntryQueryBuilder.WithSorting | internal/storage/entry_query_builder.go:191-200 | appends a sort key for asc or desc in any case, else nothing |
| EntryQueries.EntryQueryBuilder.WithLimit | internal/storage/entry_query_builder.go:204-206 | a limit outside 1 to 1000 becomes 1000 |
| EntryQueries.EntryQueryBuilder.WithLimitAndMaximum | internal/storage/entry_query_builder.go:210-216 | a limit outside 1 to maximum becomes the maximum |
| EntryQueries.EntryQueryBuilder.WithOffset | internal/storage/entry_query_builder.go:219-224 | only a positive offset is taken |
| EntryQueries.EntryQueryBuilder.Select | internal/storage/entry_query_builder.go:522-524 | the compiled conditions select exactly the entries whose joined row passes every filter; the statement is rejected exactly when nothing restricts or a table is missing |
| EntryQueries.EntryQueryBuilder.CountEntries | internal/storage/entry_query_builder.go:233-247 | counts the matching entries |
| EntryQueries.EntryQueryBuilder.GetEntryIDs | internal/storage/entry_query_builder.go:468-496 | the part of an ordering of the matching ids that limit and offset ask for, position by position |
| EntryQueries.EntryQueryBuilder.FetchEntries | internal/storage/entry_query_builder.go:297-465 | the part of an ordering of the joined rows that limit and offset ask for, with the row count unless the page is empty |
| EntryQueries.EntryQueryBuilder.GetEntries | internal/storage/entry_query_builder.go:270-273 | the same page without a count |
| EntryQueries.EntryQueryBuilder.GetEntriesWithCount | internal/storage/entry_query_builder.go:278-292 | the fallback count replaces the missing window count of an empty page |
| EntryQueries.TotalIsMatchCount | internal/storage/entry_query_builder.go:278-292 | for every limit and offset the total is the number of matching entries, if no feed has two icons |
| EntryQueries.TotalExactlyWhen | internal/storage/entry_query_builder.go:278-292 | for every limit and offset the total is right exactly when the offset lies past all rows or no feed of a matching entry has two icons |
| EntryQueries.MayPrecedeExactlyWhen | internal/storage/entry_query_builder.go:526-532 | one row may come before another exactly when each sort key that puts the other first has an earlier key that decides against it: columns by their values, a rank from the highest down |
| Ordering.LexLeqExactlyWhen | internal/storage/entry_query_builder.go:526-532 | the first key that tells two rows apart decides |
| Ordering.WindowIsPage | internal/storage/entry_query_builder.go:533-541 | limit and offset leave exactly the elements behind a positive offset, cut to a positive limit, and without both the whole list |
| Catalog.ResultRowsCount | internal/storage/entry_query_builder.go:350-372 | the icon join adds no row exactly when no listed entry's feed has two icons |
| Catalog.ResultRowsExactly | internal/storage/entry_query_builder.go:350-372 | an entry has one result row for each icon of its feed, or one without an icon |
| EntryPagination.EntryPaginationBuilder.constructor | internal/storage/entry_pagination_builder.go:204-213 | a new builder asks for the user's entries |
| EntryPagination.EntryPaginationBuilder.WithSearchQuery | internal/storage/entry_pagination_builder.go:28-35 | keeps the entries that match the search, or all for an empty text |
| EntryPagination.EntryPaginationBuilder.WithStarred | internal/storage/entry_pagination_builder.go:38-42 | keeps the starred entries |
| EntryPagination.EntryPaginationBuilder.WithFeedID | internal/storage/entry_pagination_builder.go:45-52 | keeps the entries of the feed, or all for 0 |
| EntryPagination.EntryPaginationBuilder.WithCategoryID | internal/storage/entry_pagination_builder.go:55-62 | keeps the entries of feeds in the category, or all for 0 |
| EntryPagination.EntryPaginationBuilder.WithStatus | internal/storage/entry_pagination_builder.go:65-72 | keeps the entries with the status, or all for an empty one |
| EntryPagination.EntryPaginationBuilder.WithStatusOrEntryID | internal/storage/entry_pagination_builder.go:75-91 | keeps the entries with the status and the one with the id; only the status for id 0, all for an empty status |
| EntryPagination.EntryPaginationBuilder.WithTags | internal/storage/entry_pagination_builder.go:93-100 | keeps the entries that have every tag, in any spelling of ASCII letters |
| EntryPagination.EntryPaginationBuilder.WithGloballyVisible | internal/storage/entry_pagination_builder.go:103-108 | keeps the entries that neither their feed nor its category hides |
| EntryPagination.SelectsMatching | internal/storage/entry_pagination_builder.go:160-163 | the argument appended last leaves the meaning of all other conditions alone |
| EntryPagination.EntryPaginationBuilder.GetPrevNextID | internal/storage/entry_pagination_builder.go:144-183 | the reported entries are the adjacent matching ones in the order by the column (publication, creation or change), then creation, then descending id, read off the columns; 0 at an end or for an entry outside the filter |
| EntryPagination.EntryPaginationBuilder.Entries | internal/storage/entry_pagination_builder.go:111-142 | the same neighbours, swapped for a descending list |
| EntryPagination.PrecedesIsStrictTotal | internal/storage/entry_pagination_builder.go:145-157 | sort column, created_at and descending id form one strict total order |
| EntryPagination.NeighboursAreUnique | internal/storage/entry_pagination_builder.go:144-183 | next and previous are partial functions |
| EntryPagination.NextThenPrevReturns | internal/storage/entry_pagination_builder.go:144-183 | previous of next is where one started |
| EntryPagination.FollowNext | internal/storage/entry_pagination_builder.go:111-183 | following next from the first entry visits every matching entry once, in the order of the columns, and stops, for any filters and either direction |
| EntryPagination.DescendingIsReversed | internal/storage/entry_pagination_builder.go:137-141 | the descending chain is exactly the ascending one reversed |
| EntryPaginationMarkRead.MarkingReadKeepsMatches | internal/storage/entry_pagination_builder.go:75-91 | keeping the marked entry in restores exactly the set that was unread before |
| EntryPaginationMarkRead.MarkingReadKeepsNeighbours | internal/ui/entry_search.go:40-63 | for every table, other filters and either user sort column, the neighbours after marking an entry read are those of before |
| EntryPaginationMarkRead.MarkingReadKeepsNeighboursByChangeTimeExactlyWhen | internal/storage/entry.go:412-428 | sorted by changed_at, marking an entry keeps its neighbours exactly when the same entries come after its old and its new time of change |
| EntryPaginationMarkRead.MarkedEntryComesLastByChangeTime | internal/storage/entry.go:412-428 | marked later than anything else changed it has no next entry, so its neighbours are those of before exactly when it had none |
| EntryPaginationMarkRead.MarkedShowsRead | internal/storage/entry.go:412-428 | marking an entry shows it read and changed then, and every other one as before |
| FeedQueries.FeedQueryBuilder.constructor | internal/storage/feed_query_builder.go:32-40 | both chains start in step with their arguments |
| FeedQueries.FeedQueryBuilder.WithCategoryID | internal/storage/feed_query_builder.go:43-52 | keeps the feeds of the category for a positive id; both numberings keep their meaning and the counters join the feeds table when they need it |
| FeedQueries.FeedQueryBuilder.WithFeedID | internal/storage/feed_query_builder.go:55-61 | keeps the feed for a positive id, in the feeds chain only |
| FeedQueries.FeedQueryBuilder.FetchFeedCounter | internal/storage/feed_query_builder.go:304-352 | the two maps hold the group sizes of the counter query |
| FeedQueries.CountersAreNaive | internal/storage/feed_query_builder.go:93-99 | on a selected feed the counter chain counts all of the user's entries of that feed and status |
| FeedQueries.FeedQueryBuilder.WithSorting | internal/storage/feed_query_builder.go:70-79 | appends a sort key for asc or desc in any case, else nothing |
| FeedQueries.FeedQueryBuilder.GetFeeds | internal/storage/feed_query_builder.go:139-302 | as many feeds of the user as limit and offset leave, the i-th that of the i-th row behind the skipped ones, all matching ones without limit and offset; sorted by the columns asked for and then by lower-case title, each with an icon of its own and the naive read and unread counts |
| FeedQueries.FeedQueryBuilder.GetFeed | internal/storage/feed_query_builder.go:124-136 | a matching feed, or none exactly when the offset is past the rows |
| FeedQueries.FeedOrderExactlyWhen | internal/storage/feed_query_builder.go:101-122 | a feed may come before another exactly when each sort key that puts the other first has an earlier key that decides against it |
| Batch.BatchBuilder.WithUserID | internal/storage/batch.go:36-40 | keeps the user's feeds |
| Batch.BatchBuilder.WithCategoryID | internal/storage/batch.go:42-46 | keeps the feeds of the category |
| Batch.BatchBuilder.WithErrorLimit | internal/storage/batch.go:48-54 | keeps the feeds with fewer errors for a positive limit |
| Batch.BatchBuilder.WithNextCheckExpired | internal/storage/batch.go:56-59 | keeps the feeds that were due before now |
| Batch.BatchBuilder.WithoutDisabledFeeds | internal/storage/batch.go:61-64 | keeps the feeds that are not disabled |
| Batch.BatchBuilder.WithLimitPerHost | internal/storage/batch.go:66-71 | only a positive limit is taken |
| Batch.BatchBuilder.FetchJobs | internal/storage/batch.go:75-137 | of the first matching feeds by next check, as many as the batch size allows, each with fewer than limit earlier rows of its host; each job holds id, owner and URL of its feed |
| Batch.LimitJobs | internal/storage/batch.go:92-121 | the loop with its host counters keeps exactly those rows |
| Batch.HostsShareTheBatch | internal/storage/batch.go:106-119 | each host gets the smaller of the limit and its rows |
| Batch.HostCountIsNumber | internal/storage/batch.go:106-119 | the count is the number of jobs whose URL has the host |
| Batch.JobsKeepTheOrder | internal/storage/batch.go:96-121 | jobs are picked in row order, each row once, at exactly the fitting positions |
| Batch.NoLimitKeepsAll | internal/storage/batch.go:106 | without a limit nothing is left out |
| ReaderPaging.GetItemRefsAndContinuation | internal/googlereader/handler.go:1111-1131 | a page of the matching ids and where to continue, 0 at the end |
| ReaderPaging.BuildQuery | internal/googlereader/handler.go:1028-1053 | the builder calls of the four stream handlers ask for the requested filters |
| ReaderPaging.HandleStream | internal/googlereader/handler.go:1019-1165 | a stream request returns, in publication order, the page of the entries of the user and source that were published strictly between the given times, at most the count asked for and never more than 10,000, and where to continue |
| ReaderPaging.RequestedExactly | internal/googlereader/handler.go:1019-1165 | the filters of a request pass exactly those entries: unread ones when the reading list excludes the read stream, starred ones, read ones, or those of a feed without the excluded ones |
| ReaderPaging.ReadWholeStream | internal/googlereader/handler.go:1111-1131 | following the continuation stops after as many ids as match; they are all of them, in order, when no page splits a tie, and the very list that the requests saw when it was one and the same |
| ReaderPaging.StreamIsReadCompletelyExactlyWhen | internal/googlereader/handler.go:1111-1131 | for every table, request and page size: every legal sequence of pages delivers each requested entry once if and only if no page ends inside a group of tied entries |
| ReaderPaging.TiesAreSimultaneousEntries | internal/googlereader/handler.go:1030-1031 | whether a page ends inside a tie can be counted from the publication times |
| OrderedPages.PagesCompleteExactlyWhen | internal/storage/entry_query_builder.go:526-542 | the same for any set, total preorder and page size: a split tie always hides an element in some sequence of pages |
| ReaderPaging.TiesCanHideAnEntry | internal/googlereader/handler.go:1019-1165 | a request in which a client that follows the continuation gets one entry twice and the other never |
| Ordering.WindowContinues | internal/storage/entry_query_builder.go:533-541 | a page continues where the previous one stopped and is empty only at the end |
| FeverPaging.HandleItems | internal/fever/handler.go:236-289 | the max_id branch returns at most fifty of the user's ids below max_id, highest first, leaving out only lower ones, and all of them when there are fewer than fifty |
| FeverPageRepeats.PageShowsEachOnceExactlyWhen | internal/fever/handler.go:236-289 | whichever possible page is returned, it repeats no id exactly when each of the first forty-nine entries below max_id has at most one icon |
| FeverWalk.WalkByMaxID | internal/fever/handler.go:236-289 | the walk ends, its ids descend, and it returns every entry present throughout, under any insertions and deletions between requests; no id comes twice exactly when at each request the first forty-nine entries below its max_id have at most one icon each |
| WorkerPool.StepKeepsInv | internal/cli/refresh_feeds.go:37-71 | every schedule conserves the jobs: queued in order, in one worker's hands, or done once |
| WorkerPool.WorkIsRecorded | internal/cli/refresh_feeds.go:43-66 | only the worker that holds a job finishes it, and jobs leave the channel in the order they were sent |
| WorkerPool.ProducerNeverBlocks | internal/cli/refresh_feeds.go:63-66 | the producer always finds room in the channel |
| WorkerPool.OneWorkerPerJob | internal/cli/refresh_feeds.go:43-60 | no two workers hold one job, and a job in hand is not done |
| WorkerPool.WaitReturnsAfterAllJobs | internal/cli/refresh_feeds.go:66-68 | Wait returns with every job done once and the queue empty, if and only if there is a worker or no job |
| WorkerPool.EveryMaximalRunFinishes | internal/cli/refresh_feeds.go:37-71 | every maximal run returns, after a number of steps fixed by batch and pool size |
| WorkerPool.RunsAreBounded | internal/cli/refresh_feeds.go:37-71 | no run is longer |
| WorkerPool.RefreshFeeds | internal/cli/refresh_feeds.go:17-77 | under any scheduler the pool returns with all jobs done |
| Categories.Storage.RemoveAndReplaceCategoriesByName | internal/storage/category.go:256-300 | succeeds exactly when the database answers and a category of the user has another title; then exactly the user's categories with these titles go, his feeds in them move to his remaining category with the first title, other users' feeds in them go with their entries, and nothing else changes; every rejected or failing call leaves the tables alone |
| Categories.RemovalConservesData | internal/storage/category.go:253-300 | with feeds under their owner's categories no feed or entry is lost, affected feeds are in the first remaining category, others unmoved, nothing dangles |
| Categories.MovedFeedsGoToOneCategory | internal/storage/category.go:277-284 | the target category is unique |
| Categories.FeedsAreLostExactlyWhen | internal/storage/category.go:291-292 | just the other users' feeds under removed categories are lost, with just their entries: nothing exactly when there are none |
| Categories.RunLosesNothingExactlyWhen | internal/storage/category.go:256-300 | over any run of calls by any users no feed is lost exactly when no call names a category with another user's feed in it |
| Categories.LostCommitIsHarmlessExactlyWhen | internal/storage/category.go:298-299 | an ignored commit failure keeps the promise exactly when no category is named |
| Icons.Storage.StoreFeedIcon | internal/storage/icon.go:109-156 | reuses the icon of a hash or stores it once, makes it the only icon of the feed and leaves other feeds theirs, or changes nothing |
| Icons.Storage.CleanupOrphanIcons | internal/storage/icon.go:162-175 | removes and counts exactly the icons that no feed uses |
| Icons.NormalizedTypesAreStable | internal/storage/icon.go:211-219 | stored types come from the fixed list and are stable |
| Icons.NormalizedType | internal/storage/icon.go:211-219 | the seven listed types are taken in any spelling of ASCII letters, everything else becomes image/x-icon |
| Icons.OneStorePerFeedKeepsOneIcon | internal/storage/icon.go:109-156 | without overlapping updates of one feed every interleaving keeps at most one icon per feed |
| Icons.StepLinks | internal/storage/icon.go:109-156 | a feed gains an icon only by a commit that stores it, and loses one only by a commit or by its removal |
| Icons.AloneStoreReplaces | internal/storage/icon.go:109-156 | an undisturbed update leaves its feed with this icon only and every other feed as it was |
| Icons.CommitKeepsOneIconExactlyWhen | internal/storage/icon.go:141-155 | in any state of any number of transactions a commit keeps one icon per feed exactly when every row that its delete did not find holds the same icon |
| Icons.OneIconExactlyWhenNoCommitClashes | internal/storage/icon.go:109-156 | over any run every state has at most one icon per feed if and only if no commit puts in a second one |
| Icons.OverlappingStoresKeepOneIconExactlyWhen | internal/storage/icon.go:141-149 | in particular two overlapping updates of a feed leave one icon exactly when they store the same, or the feed is gone |
| Icons.IconInvariantMakesTotalsRight | internal/storage/entry_query_builder.go:350-356 | one icon per feed makes the totals of all pages right |
| WebSessions.ChangesSetDirty | internal/model/web_session.go:171-273 | no call changes user or state without setting dirty |
| WebSessions.WebSession.constructor | internal/model/web_session.go:56-66 | a fresh, clean session with the hashed secret, no user, no messages, no pending flow and no preferences |
| WebSessions.WebSession.Rotate | internal/model/web_session.go:70-76 | a new id and secret, the old id returned |
| WebSessions.WebSession.VerifySecret | internal/model/web_session.go:79-85 | exactly the hashed secret passes |
| WebSessions.WebSession.SetUser | internal/model/web_session.go:244-254 | binds the user and takes over the preferences; nothing for a nil user |
| WebSessions.WebSession.ClearUser | internal/model/web_session.go:257-260 | unbinds the user and nothing else |
| WebSessions.WebSession.ConsumeMessages | internal/model/web_session.go:191-202 | hands out both messages, clears them, and is dirty only if there was one |
| WebSessions.WebSession.ConsumeWebAuthnSession | internal/model/web_session.go:171-180 | hands out the pending data once |
| WebSessions.WebSession.Perform | internal/model/web_session.go:171-273 | every setter and consumer has its effect on user, messages, flows, preferences and dirty flag, field by field, and hands out the messages it consumes |
| WebSessions.Storage.CreateWebSession | internal/storage/web_session.go:16-51 | inserts an anonymous row or changes nothing |
| WebSessions.Storage.WebSessionByID | internal/storage/web_session.go:97-126 | a clean copy of the row, or nothing |
| WebSessions.Storage.RotateWebSession | internal/storage/web_session.go:130-171 | rekeys and rewrites the row exactly when it is there and the new id is free, or changes nothing |
| WebSessions.Storage.UpdateWebSession | internal/storage/web_session.go:174-218 | writes user and state of an existing row, or changes nothing |
| WebSessionRequests.CutJoin | internal/ui/web_session_middleware.go:76-79 | a cookie value splits into the id and secret it was built from |
| WebSessionRequests.CookieOpensExactlyWhen | internal/ui/web_session_middleware.go:76-88 | a cookie id.secret opens row id if that stores the digest of the secret, and nothing otherwise |
| WebSessionRequests.ResolveIsKnows | internal/ui/web_session_middleware.go:70-91 | any cookie opens exactly the row that it names together with its secret |
| WebSessionRequests.Middleware.LoadWebSessionFromCookie | internal/ui/web_session_middleware.go:70-91 | for a cookie id.secret a session is loaded exactly when the row id exists and stores the digest of this secret; it is a clean copy of the row, and any other cookie loads none |
| WebSessionRequests.Middleware.AuthenticateWebSession | internal/ui/auth.go:22-33 | binds the user, takes over the preferences and rotates; the row moves to the new id and the cookie is set exactly when the store answers, the old row exists and the new id is free, and otherwise no row changes |
| WebSessionRequests.Middleware.Handle | internal/ui/web_session_middleware.go:27-68 | a whole request has the specified effect on rows and cookie and shows the specified messages |
| WebSessionProperties.RequestIsServedExactlyWhen | internal/ui/web_session_middleware.go:27-68 | the handler runs exactly for a cookie with the right secret whose session is logged in or whose route is public, or on a public route for a new session |
| WebSessionProperties.StrangerGetsAnonymousSession | internal/ui/web_session_middleware.go:34-55 | whoever sends a wrong secret, an unknown id or another text to a private route is turned away with a new anonymous session, and nothing else is stored or sent |
| WebSessionProperties.StoppedRequestStoresNothing | internal/ui/web_session_middleware.go:34-47 | a request that the store stops changes no row and sends no cookie |
| WebSessionProperties.StrangerTouchesNoRow | internal/ui/web_session_middleware.go:34-66 | whatever the handler does for a cookie that opens nothing, and whatever fails, no stored session changes |
| WebSessionProperties.RequestPersistsMemory | internal/ui/web_session_middleware.go:57-66 | without store errors the row equals the session in memory after the request, no other row changes, and the messages shown are those it held |
| WebSessionProperties.RunsSimulateOneSession | internal/ui/web_session_middleware.go:27-68 | a browser's requests act, and show messages, like all their calls on one session in memory, whatever the logins in between |
| WebSessionProperties.LoginMovesTheSession | internal/ui/auth.go:22-53 | after a login, also in the request that creates the session, one row under the new id, old cookies open nothing, the new one opens it, and no other row is left or changed |
| WebSessionProperties.FailedLoginStoresNothing | internal/ui/auth.go:26-29 | when the rotation is not stored no row changes or gains a user, whatever the handler does |
| WebSessionProperties.MessageIsDeliveredOnce | internal/model/web_session.go:191-226 | in a browser's run of requests a message that one handler sets is handed out by the next consumer, in whatever later request and under whatever identity, and by none after it |
| Migrations.Database.MigrateOne | internal/database/database.go:24-48 | one transaction moves schema and version by one migration together, exactly when the migration succeeds, leaves a version table and the commit is applied, or not at all; nil, a cut and the number of a failed migration are told apart |
| Migrations.Database.Migrate | internal/database/database.go:14-52 | a run may fail or be cut anywhere and still leaves the first v migrations with version v; nil means up to date |
| Migrations.Operate | internal/database/database.go:13-61 | over any sequence of runs, of newer and older programs, each migration commits once and in order, nil satisfies IsSchemaUpToDate, and further runs change nothing |
| Migrations.RestartIsHarmlessExactlyWhen | internal/database/database.go:15-50 | for any history, schema and faults: a run that takes an unreadable version for 0 commits no migration twice exactly when its first transaction is not applied, and then it changes nothing |
| Migrations.RunAdvances | internal/database/database.go:22-50 | from the stored version on, a run leaves the composition of as many or more migrations, and without faults returns nil |
| Migrations.MigrateKeepsInvariant | internal/database/database.go:15-50 | a run keeps schema, version and commits in step whether or not the version can be read |
| Scheduling.Wrap | internal/model/feed.go:131 | 64-bit wrap-around of the product |
| Scheduling.Feed.ScheduleNextCheck | internal/model/feed.go:123-150 | round robin waits its minimum or the longer delay asked for, entry frequency its maximum without a count and otherwise the week divided by count times factor in 64 bits, within the limits; the next check is set to now plus it |
| Scheduling.IntervalWithinLimits | internal/model/feed.go:123-150 | always within the active scheduler's limits; panics exactly when the product is a positive multiple of 2^64 |
| Scheduling.LaterWithLongerDelay | internal/model/feed.go:138 | non-decreasing in the refresh delay |
| Scheduling.NotLaterWithMoreEntries | internal/model/feed.go:127-135 | non-increasing in the weekly count as long as the product fits 64 bits |
| Scheduling.BusierIsNotLaterExactlyWhen | internal/model/feed.go:127-145 | for any refresh delay no smaller count gets a shorter interval exactly when the product fits, wraps to a negative number, or to a positive one by which the week divides into no more than the minimum or the delay (or the delay tops every interval) |
| Scheduling.OverflowBreaksMonotonicity | internal/model/feed.go:131 | with a factor of 2^62 + 1 four entries a week give the longest interval and one the shortest |
| Scheduling.WeeklyCountCoversTheWeek | internal/storage/feed.go:181-193 | zero exactly without a gap, and never below the number of gaps of the week |
| Scheduling.WeeklyCountIsLeast | internal/storage/feed.go:181-193 | the count is the least integer not below the number of average gaps in a week |
| Scheduling.IntervalFitsTheGap | internal/model/feed.go:131 | without overflow the unclamped interval times the factor is at most the average gap |
| Numerals.ValueOfPrint | internal/googlereader/handler.go:1118 | printed numbers read back, without a leading zero |
| Numerals.DigitsAndLetters | internal/googlereader/item.go:19-22 | digits are printed in small letters, read in either case, and nothing else is a digit |
| ItemIds.ParseItemIDs | internal/googlereader/item.go:59-75 | all items parse, or the call fails |
| ItemIds.LongFormRoundTripsExactlyWhen | internal/googlereader/item.go:14-57 | the long form of a 64-bit id reads back exactly when it is positive |
| ItemIds.ShortHexFormsRoundTrip | internal/googlereader/item.go:29-57 | unpadded with the prefix and padded without it read back too |
| ItemIds.LongFormShape | internal/googlereader/item.go:14-22 | the long form is the prefix and sixteen small hexadecimal digits of the id |
| ItemIds.BlanksAndTail | internal/googlereader/item.go:29-40 | blanks before the number are passed over, a line feed is refused, and what follows the sixteenth digit is ignored |
| ItemIds.SignedHexReads | internal/googlereader/item.go:29-40 | a sign is read before a hexadecimal number |
| ItemIds.NegativeDecimalReadsExactlyWhen | internal/googlereader/item.go:51-56 | a negative decimal text of another length than 16 reads back exactly within 64 bits |
| ItemIds.DecimalRoundTripsExactlyWhen | internal/googlereader/item.go:42-56 | decimal text reads back exactly within 64 bits and unless it has 16 characters and starts below 8 |
| Streams.GetStreams | internal/googlereader/stream.go:109-119 | all streams parse, or the error of the first that does not is returned |
| Streams.PrefixesAreDisjoint | internal/googlereader/prefix_suffix.go:6-31 | no identifier has two of the five prefixes, for any user id |
| Streams.FeedStreamRoundTrips | internal/googlereader/stream.go:73-107 | feed identifiers read back |
| Streams.StateStreamRoundTrips | internal/googlereader/stream.go:73-107 | state identifiers read back for every user and in the anonymous spelling |
| Streams.StatesByName | internal/googlereader/stream.go:73-99 | the seven state names, behind the prefix of the user or the anonymous one, name their streams and other names none |
| Streams.SpelledStreams | internal/googlereader/stream.go:73-107 | feed and label spellings give their streams, the empty text none, and a text without any prefix an error |
| Streams.LabelStreamRoundTripsExactlyWhen | internal/googlereader/stream.go:101-102 | labels read back exactly when the title does not start with the anonymous prefix |
| Streams.AnonymousLabelRoundTrips | internal/googlereader/stream.go:101-102 | in the anonymous spelling every label reads back |

## Left out

- Isolation below statements: each statement is atomic and sees committed rows. Row locks that make a statement wait are conditions on when a step may happen. `SKIP LOCKED` is a choice among unlocked rows.
- Removing a user is modelled as the removal of the user's feeds: their entries are taken to lie in these feeds.
- Ids of enclosures are drawn when an insert commits in the concurrent model, not when the statement runs.
- How full-text vectors and ranks are computed: a document matches an uninterpreted set of queries with a rank for each. Sort columns are taken to exist, and columns other than ids and times to be ordered by some numbering of their values.
- Time zones, daylight saving in `now() - interval`, and the rounding of intervals to microseconds.
- Digests and random text: SHA-256 is taken to be injective and random texts to be fresh.
- The JSON form of the session state, the inet form of addresses, session expiry and listing, static asset routes.
- Unicode beyond ASCII in lower-casing, case folding and the blanks that scanning skips; text order is a parameter of `Categories` and plain equality elsewhere.
- The printing of negative item ids: ids come from a bigserial column.
- A commit that is reported as failed but took effect is modelled for migrations only.
- Concurrent requests on one web session: the whole state is written back, so the later request wins.
- Concurrent runs of the migration runner.
- The Fever since_id and with_ids branches, and what the handlers do with a page besides its ids.
- Google Reader tag edits and subscription edits; comment numbering of the API.
- Patch methods, integrations, configuration getters, proxies, templates, HTTP plumbing and logging.
- Batch.BatchBuilder.FetchJobs: the batch size is a limit on rows before the host limit, as in the code; the order of feeds due at the same time is left open.
