/** feedQueryBuilder: two chains of conditions with independent placeholder numberings, one for
    the feeds and one for the counters of their entries
    (internal/storage/feed_query_builder.go). */
module FeedQueries {
  import opened Common
  import opened Ordering
  import opened SqlConditions
  import opened Filters
  import opened Catalog
  import EntryQueries

  /** The fields of a returned feed that this file computes. */
  datatype FeedResult = FeedResult(id: int, iconID: int, readCount: int, unreadCount: int, visibleCount: int)

  /** A feeds row joined to its category. */
  function FeedRowOf(cat: Catalog, id: int): Row {
    if id in cat.feeds && cat.feeds[id].categoryID in cat.categories
    then Row(SOME_ROW.e, cat.feeds[id], cat.categories[cat.feeds[id].categoryID])
    else SOME_ROW
  }

  function MatchingFeeds(cat: Catalog, fs: seq<Filter>, now: int): set<int> {
    set id | id in cat.feeds && AllHold(fs, now, FeedRowOf(cat, id))
  }

  /** LEFT JOIN feed_icons */
  function FeedRows(cat: Catalog, ids: set<int>): set<(int, Option<int>)> {
    (set id, i | id in ids && i in IconsOf(cat, id) :: (id, Some(i)))
    + (set id | id in ids && IconsOf(cat, id) == {} :: (id, None))
  }

  /** The entries of one group of GROUP BY e.feed_id, e.status. */
  function Group(cat: Catalog, ids: set<int>, feedID: int, status: string): set<int> {
    set id | id in ids && id in cat.entries && cat.entries[id].feedID == feedID && cat.entries[id].status == status
  }

  /** The naive count: the user's entries of a feed with a status. */
  function CountOf(cat: Catalog, userID: int, feedID: int, status: string): int {
    |set id | id in cat.entries && cat.entries[id].userID == userID
              && cat.entries[id].feedID == feedID && cat.entries[id].status == status|
  }

  /** counters[feedID], 0 when absent, as Go reads a map. */
  function Lookup(counters: Option<map<int, int>>, feedID: int): int {
    if counters.Some? && feedID in counters.value then counters.value[feedID] else 0
  }

  /** The calls that the builder offers. */
  predicate IsFeedFilter(f: Filter) { f.FeedOwner? || f.PositiveCategoryID? || f.ThisFeed? }

  /** The counter chain: owner, statuses, then category calls that are also in the feeds chain. */
  ghost predicate CounterChain(counterFilters: seq<Filter>, filters: seq<Filter>, userID: int) {
    && |counterFilters| >= 2 && counterFilters[0] == EntryOwner(userID) && counterFilters[1] == CountedStatus
    && forall i :: 2 <= i < |counterFilters| ==> counterFilters[i].PositiveCategoryID? && counterFilters[i] in filters
  }

  ghost predicate FeedsChain(filters: seq<Filter>, userID: int) {
    |filters| > 0 && filters[0] == FeedOwner(userID) && forall f :: f in filters ==> IsFeedFilter(f)
  }

  /** The counter chain asks for nothing that the feeds chain does not, and the tables it needs
      are joined. */
  ghost predicate CountersFit(counterFilters: seq<Filter>, filters: seq<Filter>, joined: bool, userID: int) {
    CounterChain(counterFilters, filters, userID) && !NeedsMissingTable(counterFilters, if joined then {E, F} else {E})
  }

  // ----- ORDER BY -----

  /** A quoted column of ORDER BY. */
  datatype FeedSort = FeedSort(column: string, desc: bool)

  /** lower(f.title), which orders feeds that the chosen columns tie. */
  const LOWER_TITLE := FeedSort("lower(title)", false)

  /** The columns asked for and then the title; no ORDER BY when none is asked for. */
  function SortKeys(sorting: seq<FeedSort>): seq<FeedSort> {
    if sorting == [] then [] else sorting + [LOWER_TITLE]
  }

  /** Smaller values come first; a descending column counts backwards. */
  function FeedSortValue(cat: Catalog, key: FeedSort, id: int): int {
    var keys := FeedRowOf(cat, id).f.sortKeys;
    var value := if key.column == "id" then id else if key.column in keys then keys[key.column] else 0;
    if key.desc then -value else value
  }

  function FeedSortValues(cat: Catalog, keys: seq<FeedSort>, id: int): seq<int> {
    seq(|keys|, i requires 0 <= i < |keys| => FeedSortValue(cat, keys[i], id))
  }

  function FeedOrder(cat: Catalog, keys: seq<FeedSort>): ((int, Option<int>), (int, Option<int>)) -> bool {
    (a: (int, Option<int>), b: (int, Option<int>)) => LexLeq(FeedSortValues(cat, keys, a.0), FeedSortValues(cat, keys, b.0))
  }

  lemma FeedOrderIsPreorder(cat: Catalog, keys: seq<FeedSort>)
    ensures TotalPreorder(FeedOrder(cat, keys))
  {
    forall a: (int, Option<int>), b: (int, Option<int>), c: (int, Option<int>)
      ensures FeedOrder(cat, keys)(a, b) || FeedOrder(cat, keys)(b, a)
      ensures FeedOrder(cat, keys)(a, b) && FeedOrder(cat, keys)(b, c) ==> FeedOrder(cat, keys)(a, c)
    {
      LexIsPreorder(FeedSortValues(cat, keys, a.0), FeedSortValues(cat, keys, b.0), FeedSortValues(cat, keys, c.0));
    }
  }

  /** The key puts feed a strictly before b. */
  predicate FeedKeyPuts(key: FeedSort, a: FeedCols, b: FeedCols) {
    var x := if key.column == "id" then a.id else if key.column in a.sortKeys then a.sortKeys[key.column] else 0;
    var y := if key.column == "id" then b.id else if key.column in b.sortKeys then b.sortKeys[key.column] else 0;
    if key.desc then x > y else x < y
  }

  ghost predicate FeedPutEarlier(keys: seq<FeedSort>, k: nat, a: FeedCols, b: FeedCols)
    requires k <= |keys|
  {
    exists j :: 0 <= j < k && FeedKeyPuts(keys[j], a, b)
  }

  /** A row of feed a may come before one of feed b exactly when each key that puts b first has an
      earlier one that puts a first. */
  lemma {:induction false} FeedOrderExactlyWhen(cat: Catalog, keys: seq<FeedSort>, a: (int, Option<int>), b: (int, Option<int>))
    requires Consistent(cat) && a.0 in cat.feeds && b.0 in cat.feeds
    ensures FeedOrder(cat, keys)(a, b) <==>
            forall k :: 0 <= k < |keys| && FeedKeyPuts(keys[k], cat.feeds[b.0], cat.feeds[a.0]) ==>
              FeedPutEarlier(keys, k, cat.feeds[a.0], cat.feeds[b.0])
  {
    var x, y := FeedSortValues(cat, keys, a.0), FeedSortValues(cat, keys, b.0);
    LexLeqExactlyWhen(x, y);
    forall k | 0 <= k < |keys|
      ensures FeedKeyPuts(keys[k], cat.feeds[a.0], cat.feeds[b.0]) <==> x[k] < y[k]
      ensures FeedKeyPuts(keys[k], cat.feeds[b.0], cat.feeds[a.0]) <==> y[k] < x[k]
    {
      FeedKeyCompares(cat, keys[k], a.0, b.0);
      FeedKeyCompares(cat, keys[k], b.0, a.0);
    }
    forall k | 0 <= k < |keys|
      ensures SmallerBefore(x, y, k) <==> FeedPutEarlier(keys, k, cat.feeds[a.0], cat.feeds[b.0])
    {
    }
  }

  lemma FeedKeyCompares(cat: Catalog, key: FeedSort, a: int, b: int)
    requires Consistent(cat) && a in cat.feeds && b in cat.feeds
    ensures FeedKeyPuts(key, cat.feeds[a], cat.feeds[b]) <==> FeedSortValue(cat, key, a) < FeedSortValue(cat, key, b)
  {
    FeedRow(cat, a);
    FeedRow(cat, b);
  }

  lemma FeedRow(cat: Catalog, id: int)
    requires Consistent(cat) && id in cat.feeds
    ensures FeedRowOf(cat, id).f == cat.feeds[id] && cat.feeds[id].id == id
    ensures FeedRowOf(cat, id).c == cat.categories[cat.feeds[id].categoryID]
  {
  }

  /** One row for each icon of a listed feed, and one without an icon for a feed that has none. */
  lemma FeedRowsExactly(cat: Catalog, ids: set<int>, id: int, icon: Option<int>)
    ensures (id, icon) in FeedRows(cat, ids) <==>
            && id in ids
            && match icon
               case Some(i) => (id, i) in cat.feedIcons
               case None => forall i :: (id, i) !in cat.feedIcons
  {
    IconsExactly(cat, id);
  }

  class FeedQueryBuilder {
    var args: seq<Value>
    var conditions: seq<Condition>
    var sorting: seq<FeedSort>
    var limit: int
    var offset: int
    var withCounters: bool
    var counterJoinFeeds: bool
    var counterArgs: seq<Value>
    var counterConditions: seq<Condition>
    ghost const userID: int
    ghost var filters: seq<Filter>
    ghost var counterFilters: seq<Filter>

    ghost predicate ValidFeeds()
      reads `args, `conditions, `filters
    {
      Compiled(conditions, args) == Compile(filters) && FeedsChain(filters, userID)
    }

    ghost predicate ValidCounters(fs: seq<Filter>)
      reads `counterArgs, `counterConditions, `counterJoinFeeds, `counterFilters
    {
      && Compiled(counterConditions, counterArgs) == Compile(counterFilters)
      && CountersFit(counterFilters, fs, counterJoinFeeds, userID)
    }

    ghost predicate Valid()
      reads this
    {
      ValidFeeds() && ValidCounters(filters)
    }

    constructor (userID: int)
      ensures Valid() && this.userID == userID && filters == [FeedOwner(userID)]
      ensures forall now: int, row: Row :: AllHold(filters, now, row) <==> row.f.userID == userID
      ensures sorting == [] && limit == 0 && offset == 0 && !withCounters
    {
      this.userID := userID;
      args := [IntVal(userID)];
      conditions := [[A(Compare(FUserId, Eq, 1))]];
      counterArgs := [IntVal(userID), StrVal(READ), StrVal(UNREAD)];
      counterConditions := [[A(Compare(EUserId, Eq, 1))], [A(InPair(EStatus, 2, 3))]];
      sorting, limit, offset, withCounters, counterJoinFeeds := [], 0, 0, false, false;
      filters := [FeedOwner(userID)];
      counterFilters := [EntryOwner(userID), CountedStatus];
      new;
      FeedsChainStarts(userID);
      CountersStart(userID);
      CountersFitAtStart(userID);
    }

    /** The step that the With... methods share: append conditions and their arguments. */
    method Append(cs: seq<Condition>, vs: seq<Value>, ghost f: Filter)
      requires Compiled(conditions, args) == Compile(filters) && NewConditions(|args| + 1, f) == cs && NewArgs(f) == vs
      modifies `args, `conditions, `filters
      ensures Compiled(conditions, args) == Compile(filters) && filters == old(filters) + [f]
    {
      EntryQueries.Appends(Compiled(conditions, args), filters, f, cs, vs);
      conditions := conditions + cs;
      args := args + vs;
      filters := filters + [f];
    }

    /** The same step on the counter chain, whose numbering is its own. */
    method AppendCounter(cs: seq<Condition>, vs: seq<Value>, ghost f: Filter)
      requires Compiled(counterConditions, counterArgs) == Compile(counterFilters)
      requires NewConditions(|counterArgs| + 1, f) == cs && NewArgs(f) == vs
      modifies `counterArgs, `counterConditions, `counterFilters
      ensures Compiled(counterConditions, counterArgs) == Compile(counterFilters) && counterFilters == old(counterFilters) + [f]
    {
      EntryQueries.Appends(Compiled(counterConditions, counterArgs), counterFilters, f, cs, vs);
      counterConditions := counterConditions + cs;
      counterArgs := counterArgs + vs;
      counterFilters := counterFilters + [f];
    }

    method CountInCategory(categoryID: int, ghost fs: seq<Filter>)
      requires ValidCounters(fs) && categoryID > 0
      modifies `counterArgs, `counterConditions, `counterFilters, `counterJoinFeeds
      ensures ValidCounters(fs + [PositiveCategoryID(categoryID)])
    {
      CategoryStillFits(counterFilters, fs, categoryID, counterJoinFeeds, userID);
      AppendCounter([[A(Compare(FCategoryId, Eq, |counterArgs| + 1))]], [IntVal(categoryID)], PositiveCategoryID(categoryID));
      counterJoinFeeds := true;
    }

    ghost method Skip(f: Filter)
      requires Valid() && IsFeedFilter(f) && NoOp(f)
      modifies `filters
      ensures Valid() && filters == old(filters) + [f]
    {
      EntryQueries.NoOpAppendsNothing(|args| + 1, f);
      EntryQueries.Appends(Compiled(conditions, args), filters, f, [], []);
      assert conditions + [] == conditions;
      FeedsChainGrows(filters, f, userID);
      filters := filters + [f];
      CounterChainKept(counterFilters, old(filters), f, userID);
    }

    method WithCategoryID(categoryID: int)
      requires Valid()
      modifies `args, `conditions, `counterArgs, `counterConditions, `counterJoinFeeds, `filters, `counterFilters
      ensures Valid() && filters == old(filters) + [PositiveCategoryID(categoryID)]
      ensures Narrows(old(filters), filters, (now, row: Row) => categoryID <= 0 || row.f.categoryID == categoryID)
    {
      CategoryNarrows(filters, categoryID);
      if categoryID > 0 {
        CountInCategory(categoryID, filters);
        FeedsChainGrows(filters, PositiveCategoryID(categoryID), userID);
        Append([[A(Compare(FCategoryId, Eq, |args| + 1))]], [IntVal(categoryID)], PositiveCategoryID(categoryID));
      } else {
        Skip(PositiveCategoryID(categoryID));
      }
    }

    method WithFeedID(feedID: int)
      requires Valid()
      modifies `args, `conditions, `filters
      ensures Valid() && filters == old(filters) + [ThisFeed(feedID)]
      ensures Narrows(old(filters), filters, (now, row: Row) => feedID <= 0 || row.f.id == feedID)
    {
      FeedNarrows(filters, feedID);
      if feedID > 0 {
        FeedsChainGrows(filters, ThisFeed(feedID), userID);
        Append([[A(Compare(FId, Eq, |args| + 1))]], [IntVal(feedID)], ThisFeed(feedID));
        CounterChainKept(counterFilters, old(filters), ThisFeed(feedID), userID);
      } else {
        Skip(ThisFeed(feedID));
      }
    }

    method WithCounters()
      requires Valid()
      modifies `withCounters
      ensures Valid() && withCounters
    {
      withCounters := true;
    }

    method WithSorting(column: string, direction: string)
      requires Valid()
      modifies `sorting
      ensures Valid()
      ensures sorting == old(sorting) +
              if Lower(direction) == "asc" then [FeedSort(column, false)]
              else if Lower(direction) == "desc" then [FeedSort(column, true)]
              else []
    {
      if Lower(direction) == "asc" {
        sorting := sorting + [FeedSort(column, false)];
      } else if Lower(direction) == "desc" {
        sorting := sorting + [FeedSort(column, true)];
      }
    }

    method WithLimit(limit: int)
      requires Valid()
      modifies `limit
      ensures Valid() && this.limit == limit
    {
      this.limit := limit;
    }

    method WithOffset(offset: int)
      requires Valid()
      modifies `offset
      ensures Valid() && this.offset == offset
    {
      this.offset := offset;
    }

    /** SELECT ... FROM entries with the counter conditions. */
    method SelectCounted(cat: Catalog, now: int) returns (ids: set<int>)
      requires ValidCounters(filters)
      ensures ids == Matching(cat, counterFilters, now)
    {
      var scope := if counterJoinFeeds then {E, F} else {E};
      CounterWhere(counterFilters, scope, cat, now);
      ids := set id | id in cat.entries && Where(counterConditions, Context(scope, counterArgs, now), RowOf(cat, id)) == Some(true);
    }

    /** One grouped row per feed and status, sorted into two maps. The named results of the Go
        function are listed in the other order; callers receive the read counters first. */
    method FetchFeedCounter(cat: Catalog, now: int) returns (read: Option<map<int, int>>, unread: Option<map<int, int>>)
      requires Valid() && Consistent(cat)
      ensures if withCounters then CountGroups(cat, Matching(cat, counterFilters, now), read, unread)
              else read == None && unread == None
    {
      if !withCounters {
        return None, None;
      }
      var ids := SelectCounted(cat, now);
      var readCounters, unreadCounters := SortGroups(cat, ids);
      read, unread := Some(readCounters), Some(unreadCounters);
    }

    /** SELECT ... FROM feeds ORDER BY: every matching feed, once per icon. */
    method SelectFeeds(cat: Catalog, now: int) returns (all: seq<(int, Option<int>)>)
      requires ValidFeeds()
      ensures IsOrdering(all, FeedRows(cat, MatchingFeeds(cat, filters, now)), FeedOrder(cat, SortKeys(sorting)))
    {
      var ctx := Context({F, C}, args, now);
      FeedsWhere(filters, cat, now, userID);
      var ids := set id | id in cat.feeds && Where(conditions, ctx, FeedRowOf(cat, id)) == Some(true);
      assert ids == MatchingFeeds(cat, filters, now);
      FeedOrderIsPreorder(cat, SortKeys(sorting));
      all := Order(FeedRows(cat, ids), FeedOrder(cat, SortKeys(sorting)));
    }

    /** A page of the feeds that pass the filters, sorted as asked and then by title; the counters
        of each are the naive counts of the user's entries in that feed. */
    method GetFeeds(cat: Catalog, now: int) returns (feeds: seq<FeedResult>)
      requires Valid() && Consistent(cat)
      ensures exists all ::
                && IsOrdering(all, FeedRows(cat, MatchingFeeds(cat, filters, now)), FeedOrder(cat, SortKeys(sorting)))
                && DescribePage(cat, all, limit, offset, withCounters, userID, feeds)
      ensures forall feed :: feed in feeds ==> feed.id in cat.feeds && cat.feeds[feed.id].userID == userID
      ensures forall feed :: feed in feeds ==> ShowsIcon(cat, feed)
      ensures limit <= 0 && offset <= 0 ==>
                forall id :: id in cat.feeds && AllHold(filters, now, FeedRowOf(cat, id)) ==> Lists(feeds, id)
      ensures sorting == [] || SortedAs(cat, sorting + [FeedSort("lower(title)", false)], feeds)
    {
      var readCounters, unreadCounters := FetchFeedCounter(cat, now);
      var all := SelectFeeds(cat, now);
      feeds := FillAll(Window(all, limit, offset), readCounters, unreadCounters);
      WindowIsPage(Window(all, limit, offset), all, limit, offset);
      FilledRowsAreDescribed(cat, filters, counterFilters, userID, now, all, limit, offset,
                             withCounters, readCounters, unreadCounters, feeds);
      FeedsAsShown(cat, filters, now, all, limit, offset, withCounters, userID, sorting, feeds);
    }

    method GetFeed(cat: Catalog, now: int) returns (feed: Option<FeedResult>)
      requires Valid() && Consistent(cat)
      modifies `limit
      ensures feed.None? <==> |FeedRows(cat, MatchingFeeds(cat, filters, now))| <= Max(offset, 0)
      ensures feed.Some? ==> feed.value.id in MatchingFeeds(cat, filters, now)
      ensures feed.Some? ==> exists icon :: Describes(cat, (feed.value.id, icon), withCounters, userID, feed.value)
    {
      limit := 1;
      var feeds := GetFeeds(cat, now);
      FirstFeed(cat, filters, now, FeedOrder(cat, SortKeys(sorting)), offset, withCounters, userID, feeds);
      if |feeds| != 1 {
        return None;
      }
      feed := Some(feeds[0]);
    }
  }

  /** One feed of the result, with the counters found for it. */
  function Fill(row: (int, Option<int>), read: Option<map<int, int>>, unread: Option<map<int, int>>): FeedResult {
    FeedResult(row.0, match row.1 case None => 0 case Some(i) => i,
               Lookup(read, row.0), Lookup(unread, row.0), Lookup(read, row.0) + Lookup(unread, row.0))
  }

  /** The loop over the grouped rows. */
  method SortGroups(cat: Catalog, ids: set<int>) returns (readCounters: map<int, int>, unreadCounters: map<int, int>)
    requires ids <= cat.entries.Keys
    ensures CountGroups(cat, ids, Some(readCounters), Some(unreadCounters))
  {
    readCounters, unreadCounters := map[], map[];
    var rows := set id | id in ids :: (cat.entries[id].feedID, cat.entries[id].status);
    while rows != {}
      invariant forall id :: id in ids && (cat.entries[id].feedID, cat.entries[id].status) !in rows ==>
                  GroupRead(readCounters, unreadCounters, cat.entries[id].feedID, cat.entries[id].status)
      invariant forall f :: f in readCounters ==> readCounters[f] == |Group(cat, ids, f, READ)|
      invariant forall f :: f in unreadCounters ==> unreadCounters[f] == |Group(cat, ids, f, UNREAD)|
      decreases |rows|
    {
      var row :| row in rows;
      var (feedID, status) := row;
      var count := |Group(cat, ids, feedID, status)|;
      if status == READ {
        readCounters := readCounters[feedID := count];
      } else if status == UNREAD {
        unreadCounters := unreadCounters[feedID := count];
      }
      rows := rows - {row};
    }
    forall feedID
      ensures Lookup(Some(readCounters), feedID) == |Group(cat, ids, feedID, READ)|
      ensures Lookup(Some(unreadCounters), feedID) == |Group(cat, ids, feedID, UNREAD)|
    {
      AbsentGroupsAreEmpty(cat, ids, readCounters, unreadCounters, feedID);
    }
  }

  /** The loop over the result rows. */
  method FillAll(rows: seq<(int, Option<int>)>, read: Option<map<int, int>>, unread: Option<map<int, int>>)
    returns (feeds: seq<FeedResult>)
    ensures |feeds| == |rows|
    ensures forall j :: 0 <= j < |feeds| ==> feeds[j] == Fill(rows[j], read, unread)
  {
    feeds := [];
    for i := 0 to |rows|
      invariant |feeds| == i
      invariant forall j :: 0 <= j < i ==> feeds[j] == Fill(rows[j], read, unread)
    {
      feeds := feeds + [Fill(rows[i], read, unread)];
    }
  }

  ghost predicate DescribeAll(cat: Catalog, rows: seq<(int, Option<int>)>, withCounters: bool, userID: int,
                              feeds: seq<FeedResult>)
  {
    |feeds| == |rows| && forall i :: 0 <= i < |feeds| ==> Describes(cat, rows[i], withCounters, userID, feeds[i])
  }

  /** As many feeds as LIMIT and OFFSET leave; the i-th is that of the i-th row behind the skipped
      ones. */
  ghost predicate DescribePage(cat: Catalog, all: seq<(int, Option<int>)>, limit: int, offset: int,
                               withCounters: bool, userID: int, feeds: seq<FeedResult>)
  {
    exists page :: IsPageOf(page, all, limit, offset) && DescribeAll(cat, page, withCounters, userID, feeds)
  }

  /** The icon shown belongs to the feed; 0 is shown when it has none. */
  ghost predicate ShowsIcon(cat: Catalog, feed: FeedResult) {
    (feed.id, feed.iconID) in cat.feedIcons || (feed.iconID == 0 && forall i :: (feed.id, i) !in cat.feedIcons)
  }

  ghost predicate Lists(feeds: seq<FeedResult>, id: int) { exists i :: 0 <= i < |feeds| && feeds[i].id == id }

  /** Where a later feed is put before an earlier one by a key, an earlier key has decided. */
  ghost predicate SortedAs(cat: Catalog, keys: seq<FeedSort>, feeds: seq<FeedResult>) {
    forall i, j, k :: 0 <= i < j < |feeds| && 0 <= k < |keys| && feeds[i].id in cat.feeds && feeds[j].id in cat.feeds ==>
      (FeedKeyPuts(keys[k], cat.feeds[feeds[j].id], cat.feeds[feeds[i].id]) ==>
         FeedPutEarlier(keys, k, cat.feeds[feeds[i].id], cat.feeds[feeds[j].id]))
  }

  ghost predicate Describes(cat: Catalog, row: (int, Option<int>), withCounters: bool, userID: int, feed: FeedResult) {
    && feed.id == row.0
    && feed.iconID == (match row.1 case None => 0 case Some(i) => i)
    && feed.readCount == (if withCounters then CountOf(cat, userID, row.0, READ) else 0)
    && feed.unreadCount == (if withCounters then CountOf(cat, userID, row.0, UNREAD) else 0)
    && feed.visibleCount == feed.readCount + feed.unreadCount
  }

  ghost predicate CountGroups(cat: Catalog, ids: set<int>, read: Option<map<int, int>>, unread: Option<map<int, int>>) {
    forall feedID ::
      && Lookup(read, feedID) == |Group(cat, ids, feedID, READ)|
      && Lookup(unread, feedID) == |Group(cat, ids, feedID, UNREAD)|
  }

  // ----- Proof -----

  /** The group's row has been read into its map. */
  ghost predicate GroupRead(read: map<int, int>, unread: map<int, int>, feedID: int, status: string) {
    && (status == READ ==> feedID in read)
    && (status == UNREAD ==> feedID in unread)
  }

  lemma AbsentGroupsAreEmpty(cat: Catalog, ids: set<int>, read: map<int, int>, unread: map<int, int>, feedID: int)
    requires ids <= cat.entries.Keys
    requires forall id :: id in ids ==> GroupRead(read, unread, cat.entries[id].feedID, cat.entries[id].status)
    ensures feedID !in read ==> Group(cat, ids, feedID, READ) == {}
    ensures feedID !in unread ==> Group(cat, ids, feedID, UNREAD) == {}
  {
    if Group(cat, ids, feedID, READ) != {} {
      var id := Pick(Group(cat, ids, feedID, READ));
      assert GroupRead(read, unread, feedID, READ);
    }
    if Group(cat, ids, feedID, UNREAD) != {} {
      var id := Pick(Group(cat, ids, feedID, UNREAD));
      assert GroupRead(read, unread, feedID, UNREAD);
    }
  }

  lemma CategoryNarrows(fs: seq<Filter>, categoryID: int)
    ensures Narrows(fs, fs + [PositiveCategoryID(categoryID)],
                    (now, row: Row) => categoryID <= 0 || row.f.categoryID == categoryID)
  {
    OneMoreFilter(fs, PositiveCategoryID(categoryID));
  }

  lemma FeedNarrows(fs: seq<Filter>, feedID: int)
    ensures Narrows(fs, fs + [ThisFeed(feedID)], (now, row: Row) => feedID <= 0 || row.f.id == feedID)
  {
    OneMoreFilter(fs, ThisFeed(feedID));
  }

  lemma FeedsChainGrows(fs: seq<Filter>, f: Filter, userID: int)
    requires FeedsChain(fs, userID) && IsFeedFilter(f)
    ensures FeedsChain(fs + [f], userID)
  {
  }

  lemma CounterChainKept(counterFilters: seq<Filter>, filters: seq<Filter>, f: Filter, userID: int)
    requires CounterChain(counterFilters, filters, userID)
    ensures CounterChain(counterFilters, filters + [f], userID)
  {
  }

  lemma CounterChainGrows(counterFilters: seq<Filter>, filters: seq<Filter>, f: Filter, userID: int)
    requires CounterChain(counterFilters, filters, userID) && f.PositiveCategoryID?
    ensures CounterChain(counterFilters + [f], filters + [f], userID)
  {
    assert (filters + [f])[|filters|] == f;
  }

  lemma FilledRowIsDescribed(cat: Catalog, fs: seq<Filter>, counterFilters: seq<Filter>, userID: int, now: int,
                             row: (int, Option<int>), withCounters: bool,
                             read: Option<map<int, int>>, unread: Option<map<int, int>>)
    requires Consistent(cat) && CounterChain(counterFilters, fs, userID) && row.0 in MatchingFeeds(cat, fs, now)
    requires if withCounters then CountGroups(cat, Matching(cat, counterFilters, now), read, unread)
             else read == None && unread == None
    ensures Describes(cat, row, withCounters, userID, Fill(row, read, unread))
  {
    CountersAreNaive(cat, fs, counterFilters, userID, row.0, now);
  }

  lemma FilledRowsAreDescribed(cat: Catalog, fs: seq<Filter>, counterFilters: seq<Filter>, userID: int, now: int,
                               all: seq<(int, Option<int>)>, limit: int, offset: int, withCounters: bool,
                               read: Option<map<int, int>>, unread: Option<map<int, int>>, feeds: seq<FeedResult>)
    requires Consistent(cat) && CounterChain(counterFilters, fs, userID)
    requires Enumerates(all, FeedRows(cat, MatchingFeeds(cat, fs, now)))
    requires if withCounters then CountGroups(cat, Matching(cat, counterFilters, now), read, unread)
             else read == None && unread == None
    requires |feeds| == |Window(all, limit, offset)|
    requires forall j :: 0 <= j < |feeds| ==> feeds[j] == Fill(Window(all, limit, offset)[j], read, unread)
    ensures DescribeAll(cat, Window(all, limit, offset), withCounters, userID, feeds)
  {
    var rows := Window(all, limit, offset);
    forall i | 0 <= i < |rows| ensures Describes(cat, rows[i], withCounters, userID, feeds[i]) {
      WindowRowsMatch(cat, fs, now, all, limit, offset, i);
      FilledRowIsDescribed(cat, fs, counterFilters, userID, now, rows[i], withCounters, read, unread);
    }
  }

  lemma FeedsAsShown(cat: Catalog, fs: seq<Filter>, now: int, all: seq<(int, Option<int>)>, limit: int, offset: int,
                     withCounters: bool, userID: int, sorting: seq<FeedSort>, feeds: seq<FeedResult>)
    requires Consistent(cat) && FeedsChain(fs, userID)
    requires IsOrdering(all, FeedRows(cat, MatchingFeeds(cat, fs, now)), FeedOrder(cat, SortKeys(sorting)))
    requires DescribeAll(cat, Window(all, limit, offset), withCounters, userID, feeds)
    ensures forall feed :: feed in feeds ==> feed.id in cat.feeds && cat.feeds[feed.id].userID == userID
    ensures forall feed :: feed in feeds ==> ShowsIcon(cat, feed)
    ensures limit <= 0 && offset <= 0 ==> forall id :: id in MatchingFeeds(cat, fs, now) ==> Lists(feeds, id)
    ensures sorting == [] || SortedAs(cat, sorting + [FeedSort("lower(title)", false)], feeds)
  {
    forall i | 0 <= i < |feeds|
      ensures feeds[i].id in cat.feeds && cat.feeds[feeds[i].id].userID == userID && ShowsIcon(cat, feeds[i])
    {
      FeedAsShown(cat, fs, now, all, limit, offset, withCounters, userID, feeds, i);
    }
    if limit <= 0 && offset <= 0 {
      forall id | id in MatchingFeeds(cat, fs, now) ensures Lists(feeds, id) {
        EveryFeedHasRow(cat, MatchingFeeds(cat, fs, now), all, feeds, id);
      }
    }
    if sorting != [] {
      PageIsSorted(cat, SortKeys(sorting), all, limit, offset, feeds);
    }
  }

  lemma FeedRowShown(cat: Catalog, ids: set<int>, all: seq<(int, Option<int>)>, limit: int, offset: int, i: nat)
    requires Enumerates(all, FeedRows(cat, ids)) && i < |Window(all, limit, offset)|
    ensures var row := Window(all, limit, offset)[i];
            && row.0 in ids
            && ((row.1.Some? && (row.0, row.1.value) in cat.feedIcons) ||
                (row.1.None? && forall icon :: (row.0, icon) !in cat.feedIcons))
  {
    var row := Window(all, limit, offset)[i];
    assert row in all;
    FeedRowsExactly(cat, ids, row.0, row.1);
  }

  lemma FeedAsShown(cat: Catalog, fs: seq<Filter>, now: int, all: seq<(int, Option<int>)>, limit: int, offset: int,
                    withCounters: bool, userID: int, feeds: seq<FeedResult>, i: nat)
    requires Consistent(cat) && FeedsChain(fs, userID) && i < |feeds|
    requires Enumerates(all, FeedRows(cat, MatchingFeeds(cat, fs, now)))
    requires DescribeAll(cat, Window(all, limit, offset), withCounters, userID, feeds)
    ensures feeds[i].id in cat.feeds && cat.feeds[feeds[i].id].userID == userID && ShowsIcon(cat, feeds[i])
  {
    var row := Window(all, limit, offset)[i];
    assert Describes(cat, row, withCounters, userID, feeds[i]);
    FeedRowShown(cat, MatchingFeeds(cat, fs, now), all, limit, offset, i);
    assert fs[0] in fs && Holds(FeedOwner(userID), now, FeedRowOf(cat, row.0));
    FeedRow(cat, row.0);
  }

  lemma EveryFeedHasRow(cat: Catalog, ids: set<int>, all: seq<(int, Option<int>)>, feeds: seq<FeedResult>, id: int)
    requires Enumerates(all, FeedRows(cat, ids)) && id in ids
    requires |feeds| == |all| && forall i :: 0 <= i < |all| ==> feeds[i].id == all[i].0
    ensures Lists(feeds, id)
  {
    var icon := None;
    if i :| (id, i) in cat.feedIcons {
      icon := Some(i);
    }
    FeedRowsExactly(cat, ids, id, icon);
    var i :| 0 <= i < |all| && all[i] == (id, icon);
    assert feeds[i].id == id;
  }

  lemma {:induction false} PageIsSorted(cat: Catalog, keys: seq<FeedSort>, all: seq<(int, Option<int>)>,
                                        limit: int, offset: int, feeds: seq<FeedResult>)
    requires Consistent(cat) && Sorted(all, FeedOrder(cat, keys)) && |feeds| == |Window(all, limit, offset)|
    requires forall i :: 0 <= i < |feeds| ==> feeds[i].id == Window(all, limit, offset)[i].0
    ensures SortedAs(cat, keys, feeds)
  {
    var page := Window(all, limit, offset);
    WindowIsPage(page, all, limit, offset);
    forall i, j, k | 0 <= i < j < |feeds| && 0 <= k < |keys| && feeds[i].id in cat.feeds && feeds[j].id in cat.feeds
                     && FeedKeyPuts(keys[k], cat.feeds[feeds[j].id], cat.feeds[feeds[i].id])
      ensures FeedPutEarlier(keys, k, cat.feeds[feeds[i].id], cat.feeds[feeds[j].id])
    {
      assert FeedOrder(cat, keys)(page[i], page[j]);
      FeedOrderExactlyWhen(cat, keys, page[i], page[j]);
    }
  }

  lemma FeedsChainStarts(userID: int)
    ensures Compile([FeedOwner(userID)]) == Compiled([[A(Compare(FUserId, Eq, 1))]], [IntVal(userID)])
    ensures FeedsChain([FeedOwner(userID)], userID)
    ensures forall now: int, row: Row :: AllHold([FeedOwner(userID)], now, row) <==> row.f.userID == userID
  {
    OnlyFilter(FeedOwner(userID));
    EntryQueries.OneFilter(FeedOwner(userID));
  }

  lemma CountersStart(userID: int)
    ensures Compile([EntryOwner(userID), CountedStatus])
         == Compiled([[A(Compare(EUserId, Eq, 1))], [A(InPair(EStatus, 2, 3))]], [IntVal(userID), StrVal(READ), StrVal(UNREAD)])
  {
    EntryQueries.OneFilter(EntryOwner(userID));
    CompileSnoc([EntryOwner(userID)], CountedStatus);
    assert [EntryOwner(userID)] + [CountedStatus] == [EntryOwner(userID), CountedStatus];
  }

  lemma CountersFitAtStart(userID: int)
    ensures CountersFit([EntryOwner(userID), CountedStatus], [FeedOwner(userID)], false, userID)
  {
  }

  lemma CategoryStillFits(counterFilters: seq<Filter>, filters: seq<Filter>, categoryID: int, joined: bool, userID: int)
    requires CountersFit(counterFilters, filters, joined, userID) && categoryID > 0
    ensures CountersFit(counterFilters + [PositiveCategoryID(categoryID)], filters + [PositiveCategoryID(categoryID)],
                        true, userID)
  {
    CategoryCallNeedsFeeds(counterFilters, categoryID, joined);
    CounterChainGrows(counterFilters, filters, PositiveCategoryID(categoryID), userID);
  }

  /** The counter query joins feeds as soon as a category is asked for. */
  lemma CategoryCallNeedsFeeds(counterFilters: seq<Filter>, categoryID: int, joined: bool)
    requires !NeedsMissingTable(counterFilters, if joined then {E, F} else {E})
    ensures !NeedsMissingTable(counterFilters + [PositiveCategoryID(categoryID)], if joined || categoryID > 0 then {E, F} else {E})
  {
    forall f | f in counterFilters + [PositiveCategoryID(categoryID)]
      ensures Needs(f) <= if joined || categoryID > 0 then {E, F} else {E}
    {
      if f in counterFilters {
        assert Needs(f) <= if joined then {E, F} else {E};
      }
    }
  }

  lemma {:induction false} CounterWhere(fs: seq<Filter>, scope: set<Table>, cat: Catalog, now: int)
    requires |fs| > 0 && fs[0].EntryOwner? && !NeedsMissingTable(fs, scope)
    ensures forall id :: id in cat.entries ==>
              Where(Compile(fs).conditions, Context(scope, Compile(fs).args, now), RowOf(cat, id))
              == Some(AllHold(fs, now, RowOf(cat, id)))
  {
    assert Compile(fs).args + [] == Compile(fs).args;
    forall id | id in cat.entries
      ensures Where(Compile(fs).conditions, Context(scope, Compile(fs).args, now), RowOf(cat, id))
              == Some(AllHold(fs, now, RowOf(cat, id)))
    {
      ChainDenotesConjunction(fs, scope, [], now, RowOf(cat, id));
      assert fs[0] in fs && !NoOp(fs[0]);
    }
  }

  lemma {:induction false} FeedsWhere(fs: seq<Filter>, cat: Catalog, now: int, userID: int)
    requires FeedsChain(fs, userID)
    ensures forall id :: id in cat.feeds ==>
              Where(Compile(fs).conditions, Context({F, C}, Compile(fs).args, now), FeedRowOf(cat, id))
              == Some(AllHold(fs, now, FeedRowOf(cat, id)))
  {
    FeedsChainNeeds(fs, userID);
    assert Compile(fs).args + [] == Compile(fs).args;
    forall id | id in cat.feeds
      ensures Where(Compile(fs).conditions, Context({F, C}, Compile(fs).args, now), FeedRowOf(cat, id))
              == Some(AllHold(fs, now, FeedRowOf(cat, id)))
    {
      ChainDenotesConjunction(fs, {F, C}, [], now, FeedRowOf(cat, id));
    }
  }

  lemma FeedsChainNeeds(fs: seq<Filter>, userID: int)
    requires FeedsChain(fs, userID)
    ensures !NeedsMissingTable(fs, {F, C})
    ensures !(forall f :: f in fs ==> NoOp(f))
  {
    assert fs[0] in fs && !NoOp(fs[0]);
    forall f | f in fs ensures Needs(f) <= {F, C} {
      assert IsFeedFilter(f);
    }
  }

  lemma WindowRowsMatch(cat: Catalog, fs: seq<Filter>, now: int, all: seq<(int, Option<int>)>, limit: int,
                        offset: int, i: nat)
    requires Enumerates(all, FeedRows(cat, MatchingFeeds(cat, fs, now)))
    requires i < |Window(all, limit, offset)|
    ensures Window(all, limit, offset)[i].0 in MatchingFeeds(cat, fs, now)
  {
    assert Window(all, limit, offset)[i] in all;
  }

  /** A page of one feed. */
  lemma FirstFeed(cat: Catalog, fs: seq<Filter>, now: int, le: ((int, Option<int>), (int, Option<int>)) -> bool, offset: int,
                  withCounters: bool, userID: int, feeds: seq<FeedResult>)
    requires exists all :: IsOrdering(all, FeedRows(cat, MatchingFeeds(cat, fs, now)), le)
                           && DescribePage(cat, all, 1, offset, withCounters, userID, feeds)
    ensures |feeds| == 1 <==> |FeedRows(cat, MatchingFeeds(cat, fs, now))| > Max(offset, 0)
    ensures |feeds| == 1 ==> feeds[0].id in MatchingFeeds(cat, fs, now)
    ensures |feeds| == 1 ==> exists icon :: Describes(cat, (feeds[0].id, icon), withCounters, userID, feeds[0])
  {
    var all :| IsOrdering(all, FeedRows(cat, MatchingFeeds(cat, fs, now)), le)
               && DescribePage(cat, all, 1, offset, withCounters, userID, feeds);
    var page :| IsPageOf(page, all, 1, offset) && DescribeAll(cat, page, withCounters, userID, feeds);
    WindowIsPage(page, all, 1, offset);
    if |feeds| == 1 {
      var row := Window(all, 1, offset)[0];
      WindowRowsMatch(cat, fs, now, all, 1, offset, 0);
      assert Describes(cat, row, withCounters, userID, feeds[0]) && row == (feeds[0].id, row.1);
    }
  }

  /** On a feed that passes the feeds chain, the counter chain restricts nothing but the owner
      and the status of its entries, though its placeholders are numbered on their own. */
  lemma CountersAreNaive(cat: Catalog, fs: seq<Filter>, counterFilters: seq<Filter>, userID: int, feedID: int, now: int)
    requires Consistent(cat) && CounterChain(counterFilters, fs, userID)
    requires feedID in MatchingFeeds(cat, fs, now)
    ensures |Group(cat, Matching(cat, counterFilters, now), feedID, READ)| == CountOf(cat, userID, feedID, READ)
    ensures |Group(cat, Matching(cat, counterFilters, now), feedID, UNREAD)| == CountOf(cat, userID, feedID, UNREAD)
  {
    forall id | id in cat.entries && cat.entries[id].feedID == feedID && cat.entries[id].status in {READ, UNREAD}
      ensures AllHold(counterFilters, now, RowOf(cat, id)) <==> cat.entries[id].userID == userID
    {
      var row := RowOf(cat, id);
      assert Joins(cat, id) && row.e == cat.entries[id] && row.f == FeedRowOf(cat, feedID).f;
      assert counterFilters[0] in counterFilters;
      forall f | f in counterFilters && f != EntryOwner(userID) ensures Holds(f, now, row) {
        if f.PositiveCategoryID? {
          assert f in fs && Holds(f, now, FeedRowOf(cat, feedID));
        }
      }
    }
    forall status | status in {READ, UNREAD}
      ensures |Group(cat, Matching(cat, counterFilters, now), feedID, status)| == CountOf(cat, userID, feedID, status)
    {
      assert Group(cat, Matching(cat, counterFilters, now), feedID, status)
          == set id | id in cat.entries && cat.entries[id].userID == userID
              && cat.entries[id].feedID == feedID && cat.entries[id].status == status;
    }
  }
}
