/** Offset paging of the Google Reader API (internal/googlereader/handler.go). */
module ReaderPaging {
  import opened Common
  import opened Ordering
  import opened SqlConditions
  import opened Filters
  import opened Catalog
  import opened EntryQueries
  import opened OrderedPages
  import opened Streams

  const MAX_ENTRY_IDS_LIMIT := 10000

  /** The stream a request asks for, one handler each. */
  datatype Source = ReadingList | StarredItems | ReadItems | FeedItems(feedID: int)

  /** The parts of a request that the handlers use. */
  datatype RequestModifiers = RequestModifiers(
    userID: int, source: Source, count: int, offset: int, direction: string, excludes: seq<StreamType>,
    startTime: int, stopTime: int)

  function TimeFilters(rm: RequestModifiers): seq<Filter> {
    (if rm.startTime > 0 then [AfterPublishedDate(rm.startTime)] else [])
    + (if rm.stopTime > 0 then [BeforePublishedDate(rm.stopTime)] else [])
  }

  /** One filter for each time the read stream is excluded. */
  function ExcludeFilters(excludes: seq<StreamType>, f: Filter): seq<Filter> {
    if excludes == [] then []
    else ExcludeFilters(excludes[..|excludes| - 1], f) + if excludes[|excludes| - 1] == ReadStream then [f] else []
  }

  /** The filters a request asks for, besides the owner. */
  function SourceFilters(rm: RequestModifiers): seq<Filter> {
    match rm.source
    case ReadingList => ExcludeFilters(rm.excludes, Statuses([UNREAD])) + TimeFilters(rm)
    case StarredItems => [Starred(true)] + TimeFilters(rm)
    case ReadItems => [Statuses([READ])] + TimeFilters(rm)
    case FeedItems(feedID) => ([PositiveFeedID(feedID)] + TimeFilters(rm)) + ExcludeFilters(rm.excludes, NotStatus(READ))
  }

  function RequestedFilters(rm: RequestModifiers): seq<Filter> { [EntryOwner(rm.userID)] + SourceFilters(rm) }

  function PageLimit(count: int): int { if 1 <= count <= MAX_ENTRY_IDS_LIMIT then count else MAX_ENTRY_IDS_LIMIT }

  function ByPublication(direction: string): seq<SortKey> {
    if Lower(direction) == "asc" then [ByColumn("published_at", false)]
    else if Lower(direction) == "desc" then [ByColumn("published_at", true)]
    else []
  }

  function Requested(cat: Catalog, rm: RequestModifiers, now: int): set<int> {
    Matching(cat, RequestedFilters(rm), now)
  }

  // ----- What a request asks for, in columns -----

  /** Unread entries when the reading list excludes the read stream, starred ones, read ones, or
      those of a feed, without the read ones when they are excluded. */
  predicate IsFrom(source: Source, excludes: seq<StreamType>, e: EntryCols) {
    match source
    case ReadingList => ReadStream in excludes ==> e.status == "unread"
    case StarredItems => e.starred
    case ReadItems => e.status == "read"
    case FeedItems(feedID) => (feedID > 0 ==> e.feedID == feedID) && (ReadStream in excludes ==> e.status != "read")
  }

  /** Entries of the user from the source, published strictly between the times that are given. */
  predicate IsAskedFor(rm: RequestModifiers, e: EntryCols) {
    && e.userID == rm.userID && IsFrom(rm.source, rm.excludes, e)
    && (rm.startTime > 0 ==> e.publishedAt > rm.startTime)
    && (rm.stopTime > 0 ==> e.publishedAt < rm.stopTime)
  }

  function AskedFor(cat: Catalog, rm: RequestModifiers): set<int> {
    set id | id in cat.entries && IsAskedFor(rm, RowOf(cat, id).e)
  }

  /** "asc" lists the oldest first, "desc" the newest; another direction promises no order. */
  ghost predicate InPublicationOrder(cat: Catalog, direction: string, all: seq<int>) {
    forall i, j :: 0 <= i < j < |all| ==>
      && (Lower(direction) == "asc" ==> RowOf(cat, all[i]).e.publishedAt <= RowOf(cat, all[j]).e.publishedAt)
      && (Lower(direction) == "desc" ==> RowOf(cat, all[i]).e.publishedAt >= RowOf(cat, all[j]).e.publishedAt)
  }

  lemma {:induction false} ExcludedHold(excludes: seq<StreamType>, f: Filter, now: int, row: Row)
    ensures AllHold(ExcludeFilters(excludes, f), now, row) <==> (ReadStream in excludes ==> Holds(f, now, row))
  {
    if excludes != [] {
      var init, last := excludes[..|excludes| - 1], excludes[|excludes| - 1];
      ExcludedHold(init, f, now, row);
      HoldTogether(ExcludeFilters(init, f), if last == ReadStream then [f] else [], now, row);
      OnlyFilter(f);
      assert excludes == init + [last];
    }
  }

  lemma {:induction false} RequestedExactly(cat: Catalog, rm: RequestModifiers, now: int)
    ensures Requested(cat, rm, now) == AskedFor(cat, rm)
  {
    forall id | id in cat.entries
      ensures AllHold(RequestedFilters(rm), now, RowOf(cat, id)) <==> IsAskedFor(rm, RowOf(cat, id).e)
    {
      RequestedRow(rm, now, RowOf(cat, id));
    }
  }

  lemma {:induction false} RequestedRow(rm: RequestModifiers, now: int, row: Row)
    ensures AllHold(RequestedFilters(rm), now, row) <==> IsAskedFor(rm, row.e)
  {
    HoldTogether([EntryOwner(rm.userID)], SourceFilters(rm), now, row);
    OnlyFilter(EntryOwner(rm.userID));
    SourceHolds(rm, now, row);
    TimesHold(rm, now, row);
  }

  lemma TimesHold(rm: RequestModifiers, now: int, row: Row)
    ensures AllHold(TimeFilters(rm), now, row) <==>
            (rm.startTime > 0 ==> row.e.publishedAt > rm.startTime) && (rm.stopTime > 0 ==> row.e.publishedAt < rm.stopTime)
  {
    HoldTogether(if rm.startTime > 0 then [AfterPublishedDate(rm.startTime)] else [],
                 if rm.stopTime > 0 then [BeforePublishedDate(rm.stopTime)] else [], now, row);
    OnlyFilter(AfterPublishedDate(rm.startTime));
    OnlyFilter(BeforePublishedDate(rm.stopTime));
  }

  lemma {:induction false} SourceHolds(rm: RequestModifiers, now: int, row: Row)
    ensures AllHold(SourceFilters(rm), now, row) <==>
            AllHold(TimeFilters(rm), now, row) && IsFrom(rm.source, rm.excludes, row.e)
  {
    match rm.source
    case ReadingList =>
      HoldTogether(ExcludeFilters(rm.excludes, Statuses([UNREAD])), TimeFilters(rm), now, row);
      ExcludedHold(rm.excludes, Statuses([UNREAD]), now, row);
    case StarredItems =>
      HoldTogether([Starred(true)], TimeFilters(rm), now, row);
      OnlyFilter(Starred(true));
    case ReadItems =>
      HoldTogether([Statuses([READ])], TimeFilters(rm), now, row);
      OnlyFilter(Statuses([READ]));
    case FeedItems(feedID) =>
      HoldTogether([PositiveFeedID(feedID)] + TimeFilters(rm), ExcludeFilters(rm.excludes, NotStatus(READ)), now, row);
      HoldTogether([PositiveFeedID(feedID)], TimeFilters(rm), now, row);
      OnlyFilter(PositiveFeedID(feedID));
      ExcludedHold(rm.excludes, NotStatus(READ), now, row);
  }

  lemma HoldTogether(a: seq<Filter>, b: seq<Filter>, now: int, row: Row)
    ensures AllHold(a + b, now, row) <==> AllHold(a, now, row) && AllHold(b, now, row)
  {
    assert forall f :: f in a + b <==> f in a || f in b;
  }

  lemma OrderedByPublication(cat: Catalog, direction: string, all: seq<int>)
    requires Sorted(all, IdOrder(cat, ByPublication(direction)))
    ensures InPublicationOrder(cat, direction, all)
  {
    forall i, j | 0 <= i < j < |all|
      ensures Lower(direction) == "asc" ==> RowOf(cat, all[i]).e.publishedAt <= RowOf(cat, all[j]).e.publishedAt
      ensures Lower(direction) == "desc" ==> RowOf(cat, all[i]).e.publishedAt >= RowOf(cat, all[j]).e.publishedAt
    {
      assert IdOrder(cat, ByPublication(direction))(all[i], all[j]);
      if ByPublication(direction) != [] {
        PublicationOrder(cat, ByPublication(direction)[0].desc, all[i], all[j]);
      }
    }
  }

  /** getItemRefsAndContinuation; a continuation of 0 ends the stream. */
  method GetItemRefsAndContinuation(builder: EntryQueryBuilder, cat: Catalog, now: int, offset: int)
    returns (ids: seq<int>, continuation: int)
    requires builder.Valid()
    requires exists f :: f in builder.filters && !NoOp(f)
    requires !NeedsMissingTable(builder.filters, {E, F})
    ensures exists all ::
              && IsOrdering(all, Matching(cat, builder.filters, now), IdOrder(cat, builder.sorting))
              && IsPageOf(ids, all, builder.limit, builder.offset)
    ensures continuation == if |ids| + offset < |Matching(cat, builder.filters, now)| then |ids| + offset else 0
  {
    var rawEntryIDs := builder.GetEntryIDs(cat, now);
    ids := rawEntryIDs.value;
    var total := builder.CountEntries(cat, now);
    continuation := 0;
    if |ids| + offset < total.value {
      continuation := |ids| + offset;
    }
  }

  function PageOffset(offset: int): int { if offset > 0 then offset else 0 }

  lemma {:induction false} OneMoreExcluded(start: seq<Filter>, excludes: seq<StreamType>, f: Filter, i: nat)
    requires i < |excludes|
    ensures start + ExcludeFilters(excludes[..i + 1], f)
         == if excludes[i] == ReadStream then (start + ExcludeFilters(excludes[..i], f)) + [f]
            else start + ExcludeFilters(excludes[..i], f)
  {
    assert excludes[..i + 1][..i] == excludes[..i];
    assert ExcludeFilters(excludes[..i], f) + [] == ExcludeFilters(excludes[..i], f);
  }

  /** The reading list's loop over the excluded streams. */
  method ExcludeFromReadingList(builder: EntryQueryBuilder, excludes: seq<StreamType>)
    requires builder.Valid()
    modifies builder`args, builder`conditions, builder`filters
    ensures builder.Valid() && builder.filters == old(builder.filters) + ExcludeFilters(excludes, Statuses([UNREAD]))
  {
    ghost var start := builder.filters;
    for i := 0 to |excludes|
      invariant builder.Valid() && builder.filters == start + ExcludeFilters(excludes[..i], Statuses([UNREAD]))
    {
      OneMoreExcluded(start, excludes, Statuses([UNREAD]), i);
      if excludes[i] == ReadStream {
        builder.WithStatuses([UNREAD]);
      }
    }
    assert excludes[..|excludes|] == excludes;
  }

  /** The feed stream's. */
  method ExcludeFromFeed(builder: EntryQueryBuilder, excludes: seq<StreamType>)
    requires builder.Valid()
    modifies builder`args, builder`conditions, builder`filters
    ensures builder.Valid() && builder.filters == old(builder.filters) + ExcludeFilters(excludes, NotStatus(READ))
  {
    ghost var start := builder.filters;
    for i := 0 to |excludes|
      invariant builder.Valid() && builder.filters == start + ExcludeFilters(excludes[..i], NotStatus(READ))
    {
      OneMoreExcluded(start, excludes, NotStatus(READ), i);
      if excludes[i] == ReadStream {
        builder.WithoutStatus(READ);
      }
    }
    assert excludes[..|excludes|] == excludes;
  }

  /** Only entries published within the requested times. */
  method RestrictTimes(builder: EntryQueryBuilder, rm: RequestModifiers)
    requires builder.Valid()
    modifies builder`args, builder`conditions, builder`filters
    ensures builder.Valid() && builder.filters == old(builder.filters) + TimeFilters(rm)
  {
    if rm.startTime > 0 {
      builder.AfterPublishedDate(rm.startTime);
    }
    if rm.stopTime > 0 {
      builder.BeforePublishedDate(rm.stopTime);
    }
  }

  method RestrictToSource(builder: EntryQueryBuilder, rm: RequestModifiers)
    requires builder.Valid()
    modifies builder`args, builder`conditions, builder`filters
    ensures builder.Valid() && builder.filters == old(builder.filters) + SourceFilters(rm)
  {
    ghost var start, times := builder.filters, TimeFilters(rm);
    match rm.source
    case ReadingList =>
      ExcludeFromReadingList(builder, rm.excludes);
      RestrictTimes(builder, rm);
      Regroup(start, ExcludeFilters(rm.excludes, Statuses([UNREAD])), times, []);
    case StarredItems =>
      builder.WithStarred(true);
      RestrictTimes(builder, rm);
      Regroup(start, [Starred(true)], times, []);
    case ReadItems =>
      builder.WithStatuses([READ]);
      RestrictTimes(builder, rm);
      Regroup(start, [Statuses([READ])], times, []);
    case FeedItems(feedID) =>
      builder.WithFeedID(feedID);
      RestrictTimes(builder, rm);
      ExcludeFromFeed(builder, rm.excludes);
      Regroup(start, [PositiveFeedID(feedID)], times, ExcludeFilters(rm.excludes, NotStatus(READ)));
  }

  lemma Regroup<T>(a: seq<T>, b: seq<T>, c: seq<T>, d: seq<T>)
    ensures (a + b) + c == a + (b + c)
    ensures ((a + b) + c) + d == a + ((b + c) + d)
  {
  }

  /** The builder calls of the stream handlers. */
  method BuildQuery(rm: RequestModifiers) returns (builder: EntryQueryBuilder)
    ensures fresh(builder) && builder.Valid() && builder.filters == RequestedFilters(rm)
    ensures builder.limit == PageLimit(rm.count) && builder.offset == PageOffset(rm.offset)
    ensures builder.sorting == ByPublication(rm.direction)
  {
    builder := new EntryQueryBuilder(rm.userID);
    builder.WithLimitAndMaximum(rm.count, MAX_ENTRY_IDS_LIMIT);
    builder.WithOffset(rm.offset);
    builder.WithSorting("published_at", rm.direction);
    RestrictToSource(builder, rm);
  }

  /** handleReadingListStreamHandler, handleStarredStreamHandler, handleReadStreamHandler and
      handleFeedStreamHandler */
  method HandleStream(cat: Catalog, now: int, rm: RequestModifiers) returns (ids: seq<int>, continuation: int)
    ensures exists all ::
              && IsOrdering(all, Requested(cat, rm, now), IdOrder(cat, ByPublication(rm.direction)))
              && IsPageOf(ids, all, PageLimit(rm.count), PageOffset(rm.offset))
    ensures exists all ::
              && Enumerates(all, AskedFor(cat, rm)) && InPublicationOrder(cat, rm.direction, all)
              && IsPageOf(ids, all, if 1 <= rm.count <= 10000 then rm.count else 10000, rm.offset)
    ensures continuation == if |ids| + rm.offset < |Requested(cat, rm, now)| then |ids| + rm.offset else 0
    ensures continuation == if |ids| + rm.offset < |AskedFor(cat, rm)| then |ids| + rm.offset else 0
  {
    var builder := BuildQuery(rm);
    assert RequestedFilters(rm)[0] == EntryOwner(rm.userID) && !NoOp(EntryOwner(rm.userID));
    NoCategoriesNeeded(rm);
    ids, continuation := GetItemRefsAndContinuation(builder, cat, now, rm.offset);
    RequestedExactly(cat, rm, now);
    ghost var all :|
      && IsOrdering(all, Requested(cat, rm, now), IdOrder(cat, ByPublication(rm.direction)))
      && IsPageOf(ids, all, PageLimit(rm.count), PageOffset(rm.offset));
    OrderedByPublication(cat, rm.direction, all);
    assert IsPageOf(ids, all, if 1 <= rm.count <= 10000 then rm.count else 10000, rm.offset);
  }

  lemma {:induction false} ExcludesNeedEntriesOnly(excludes: seq<StreamType>, f: Filter)
    requires Needs(f) <= {E, F}
    ensures forall g :: g in ExcludeFilters(excludes, f) ==> Needs(g) <= {E, F}
  {
    if excludes != [] {
      ExcludesNeedEntriesOnly(excludes[..|excludes| - 1], f);
    }
  }

  lemma NoCategoriesNeeded(rm: RequestModifiers)
    ensures !NeedsMissingTable(RequestedFilters(rm), {E, F})
  {
    ExcludesNeedEntriesOnly(rm.excludes, Statuses([UNREAD]));
    ExcludesNeedEntriesOnly(rm.excludes, NotStatus(READ));
    forall f | f in SourceFilters(rm) ensures Needs(f) <= {E, F} {
    }
  }

  // ----- Following the continuation -----

  function StreamOrder(cat: Catalog,
                       rm: RequestModifiers): (int, int) -> bool { IdOrder(cat, ByPublication(rm.direction)) }

  method NextPage(cat: Catalog, now: int, rm: RequestModifiers, offset: nat)
    returns (page: seq<int>, continuation: int, ghost all: seq<int>)
    ensures IsOrdering(all, Requested(cat, rm, now), StreamOrder(cat, rm)) && page == Window(all, PageLimit(rm.count), offset)
    ensures continuation == if |page| + offset < |Requested(cat, rm, now)| then |page| + offset else 0
  {
    page, continuation := HandleStream(cat, now, rm.(offset := offset));
    SameRequest(rm, offset);
    all :|
      && IsOrdering(all, Requested(cat, rm, now), StreamOrder(cat, rm))
      && IsPageOf(page, all, PageLimit(rm.count), offset);
    WindowIsPage(page, all, PageLimit(rm.count), offset);
  }

  /** A client that follows the continuation from 0 until it is 0. It always stops, after as many
      ids as there are matching entries. It has received each of them once, in order, unless a
      page ended inside a group of entries published together, and also then if every request
      saw the same order. */
  method ReadWholeStream(cat: Catalog, now: int, rm: RequestModifiers)
    returns (ids: seq<int>, ghost pages: seq<seq<int>>, ghost orders: seq<seq<int>>)
    ensures IsReading(pages, orders, Requested(cat, rm, now), StreamOrder(cat, rm), PageLimit(rm.count))
    ensures ids == Delivered(pages) && |ids| == |Requested(cat, rm, now)|
    ensures !PageSplitsTie(Requested(cat, rm, now), StreamOrder(cat, rm), PageLimit(rm.count)) ==>
              IsOrdering(ids, Requested(cat, rm, now), StreamOrder(cat, rm))
    ensures (forall i :: 0 <= i < |orders| ==> orders[i] == orders[0]) ==> ids == orders[0]
  {
    ghost var wanted, le, limit := Requested(cat, rm, now), StreamOrder(cat, rm), PageLimit(rm.count);
    var page, continuation;
    ghost var all;
    page, continuation, all := NextPage(cat, now, rm, 0);
    ServedMore([], [], wanted, le, limit, all);
    DeliveredMore([], page);
    ids, pages, orders := page, [page], [all];
    ServedLength(pages, orders, wanted, le, limit);
    while continuation != 0
      invariant pages != [] && Served(pages, orders, wanted, le, limit) && ids == Delivered(pages)
      invariant |ids| <= |wanted| && continuation == if |ids| < |wanted| then |ids| else 0
      decreases |wanted| - |ids|
    {
      page, continuation, all := NextPage(cat, now, rm, continuation);
      WindowLength(all, limit, |ids|);
      ServedMore(pages, orders, wanted, le, limit, all);
      DeliveredMore(pages, page);
      ids, pages, orders := ids + page, pages + [page], orders + [all];
      ServedLength(pages, orders, wanted, le, limit);
    }
    ReadingEnds(pages, orders, wanted, cat, rm);
  }

  lemma {:induction false} ReadingEnds(pages: seq<seq<int>>, orders: seq<seq<int>>, wanted: set<int>, cat: Catalog,
                                       rm: RequestModifiers)
    requires IsReading(pages, orders, wanted, StreamOrder(cat, rm), PageLimit(rm.count))
    ensures !PageSplitsTie(wanted, StreamOrder(cat, rm), PageLimit(rm.count)) ==>
              IsOrdering(Delivered(pages), wanted, StreamOrder(cat, rm))
    ensures (forall i :: 0 <= i < |orders| ==> orders[i] == orders[0]) ==> Delivered(pages) == orders[0]
  {
    var le, limit := StreamOrder(cat, rm), PageLimit(rm.count);
    OrdersArePreorders(cat, ByPublication(rm.direction));
    if !PageSplitsTie(wanted, le, limit) {
      ReadingIsComplete(pages, orders, wanted, le, limit);
    }
    LastOrder(pages, orders, wanted, le, limit);
    if forall i :: 0 <= i < |orders| ==> orders[i] == orders[0] {
      FixedOrderPages(pages, orders, wanted, le, limit, orders[0]);
      assert orders[0][..|orders[0]|] == orders[0];
    }
  }

  lemma {:induction false} LastOrder(pages: seq<seq<int>>, orders: seq<seq<int>>, wanted: set<int>,
                                     le: (int, int) -> bool, limit: int)
    requires pages != [] && Served(pages, orders, wanted, le, limit)
    ensures |orders| == |pages| && IsOrdering(orders[|pages| - 1], wanted, le)
  {
  }

  /** For every table, request and page size: the continuations deliver each requested entry
      exactly once, whatever order each request sees among ties, if and only if no page ends
      inside a group of tied entries. */
  lemma StreamIsReadCompletelyExactlyWhen(cat: Catalog, now: int, rm: RequestModifiers)
    ensures var wanted, le, limit := Requested(cat, rm, now), StreamOrder(cat, rm), PageLimit(rm.count);
            (forall pages, orders :: IsReading(pages, orders, wanted, le, limit) ==> Enumerates(Delivered(pages), wanted))
            <==> !PageSplitsTie(wanted, le, limit)
  {
    OrdersArePreorders(cat, ByPublication(rm.direction));
    PagesCompleteExactlyWhen(Requested(cat, rm, now), StreamOrder(cat, rm), PageLimit(rm.count));
  }

  // ----- Ties in terms of publication times -----

  function PublishedAt(cat: Catalog, id: int): int { RowOf(cat, id).e.publishedAt }

  /** The entries listed before those published with x. */
  function ListedBefore(cat: Catalog, ids: set<int>, x: int, desc: bool): set<int> {
    set y | y in ids && if desc then PublishedAt(cat, y) > PublishedAt(cat, x) else PublishedAt(cat, y) < PublishedAt(cat, x)
  }

  function PublishedWith(cat: Catalog, ids: set<int>, x: int): set<int> {
    set y | y in ids && PublishedAt(cat, y) == PublishedAt(cat, x)
  }

  lemma PublicationOrder(cat: Catalog, desc: bool, a: int, b: int)
    ensures MayPrecede([ByColumn("published_at", desc)], RowOf(cat, a), RowOf(cat, b))
       <==> if desc then PublishedAt(cat, a) >= PublishedAt(cat, b) else PublishedAt(cat, a) <= PublishedAt(cat, b)
  {
    var sort := [ByColumn("published_at", desc)];
    var x, y := SortValues(sort, RowOf(cat, a)), SortValues(sort, RowOf(cat, b));
    assert x[0] == SortValue(sort[0], RowOf(cat, a)) && y[0] == SortValue(sort[0], RowOf(cat, b));
    assert LexLeq(x[1..], y[1..]);
  }

  /** Whether a tie is split can be read off the publication times: position k falls inside the
      group of entries published with some entry. */
  lemma TiesAreSimultaneousEntries(cat: Catalog, ids: set<int>, desc: bool, k: int)
    ensures SplitsTie(ids, IdOrder(cat, [ByColumn("published_at", desc)]), k) <==>
            exists x :: x in ids &&
              |ListedBefore(cat, ids, x, desc)| < k < |ListedBefore(cat, ids, x, desc)| + |PublishedWith(cat, ids, x)|
  {
    var le := IdOrder(cat, [ByColumn("published_at", desc)]);
    forall x | x in ids
      ensures |Earlier(ids, le, x)| == |ListedBefore(cat, ids, x, desc)|
      ensures |UpTo(ids, le, x)| == |ListedBefore(cat, ids, x, desc)| + |PublishedWith(cat, ids, x)|
    {
      CountedByTime(cat, ids, desc, x);
    }
  }

  lemma OrderByTime(cat: Catalog, desc: bool, x: int, y: int)
    ensures IdOrder(cat, [ByColumn("published_at", desc)])(x, y)
       <==> if desc then PublishedAt(cat, x) >= PublishedAt(cat, y) else PublishedAt(cat, x) <= PublishedAt(cat, y)
  {
    PublicationOrder(cat, desc, x, y);
  }

  lemma EarlierByTime(cat: Catalog, ids: set<int>, desc: bool, x: int)
    ensures Earlier(ids, IdOrder(cat, [ByColumn("published_at", desc)]), x) == ListedBefore(cat, ids, x, desc)
  {
    var le := IdOrder(cat, [ByColumn("published_at", desc)]);
    forall y ensures y in Earlier(ids, le, x) <==> y in ListedBefore(cat, ids, x, desc) {
      OrderByTime(cat, desc, x, y);
    }
  }

  lemma UpToByTime(cat: Catalog, ids: set<int>, desc: bool, x: int)
    ensures UpTo(ids, IdOrder(cat, [ByColumn("published_at", desc)]), x)
         == ListedBefore(cat, ids, x, desc) + PublishedWith(cat, ids, x)
  {
    var le := IdOrder(cat, [ByColumn("published_at", desc)]);
    forall y
      ensures y in UpTo(ids, le, x) <==> y in ListedBefore(cat, ids, x, desc) + PublishedWith(cat, ids, x)
    {
      OrderByTime(cat, desc, y, x);
    }
  }

  lemma CountedByTime(cat: Catalog, ids: set<int>, desc: bool, x: int)
    ensures var le := IdOrder(cat, [ByColumn("published_at", desc)]);
            && |Earlier(ids, le, x)| == |ListedBefore(cat, ids, x, desc)|
            && |UpTo(ids, le, x)| == |ListedBefore(cat, ids, x, desc)| + |PublishedWith(cat, ids, x)|
  {
    EarlierByTime(cat, ids, desc, x);
    UpToByTime(cat, ids, desc, x);
    assert ListedBefore(cat, ids, x, desc) !! PublishedWith(cat, ids, x);
  }

  lemma SameRequest(rm: RequestModifiers, offset: int)
    ensures RequestedFilters(rm.(offset := offset)) == RequestedFilters(rm)
  {
  }

  // ----- A request that goes wrong -----

  /** Two unread entries published at the same time. */
  const TIED := Catalog(
    map[1 := EntryCols(1, 1, 1, UNREAD, false, 0, 7, 0, "", [], map[], map[]),
        2 := EntryCols(2, 1, 1, UNREAD, false, 0, 7, 0, "", [], map[], map[])],
    map[1 := FeedCols(1, 1, 1, false, 0, 0, false, map[])], map[1 := CategoryCols(1, false)], {})

  /** The reading list, one item at a time. */
  function OneByOne(direction: string): RequestModifiers { RequestModifiers(1, ReadingList, 1, 0, direction, [], 0, 0) }

  lemma TiedRequest(direction: string, now: int)
    ensures Requested(TIED, OneByOne(direction), now) == {1, 2}
    ensures forall a, b :: a in {1, 2} && b in {1, 2} ==> StreamOrder(TIED, OneByOne(direction))(a, b)
  {
    var rm := OneByOne(direction);
    assert RequestedFilters(rm) == [EntryOwner(1)];
    forall id | id in {1, 2} ensures AllHold(RequestedFilters(rm), now, RowOf(TIED, id)) && PublishedAt(TIED, id) == 7 {
    }
    forall a, b | a in {1, 2} && b in {1, 2} ensures StreamOrder(TIED, rm)(a, b) {
      if ByPublication(direction) != [] {
        PublicationOrder(TIED, ByPublication(direction)[0].desc, a, b);
      }
    }
  }

  /** One more page of one element. */
  lemma {:induction false} OnePageMore(pages: seq<seq<int>>, orders: seq<seq<int>>, s: set<int>, le: (int, int) -> bool,
                                       all: seq<int>)
    returns (pages': seq<seq<int>>, orders': seq<seq<int>>)
    requires Served(pages, orders, s, le, 1) && IsOrdering(all, s, le) && |Delivered(pages)| < |s|
    ensures Served(pages', orders', s, le, 1) && pages' != []
    ensures Delivered(pages') == Delivered(pages) + [all[|Delivered(pages)|]]
  {
    var page := Window(all, 1, |Delivered(pages)|);
    ServedMore(pages, orders, s, le, 1, all);
    DeliveredMore(pages, page);
    pages', orders' := pages + [page], orders + [all];
  }

  /** Two tied elements read one by one. */
  lemma TiedReading(s: set<int>, le: (int, int) -> bool) returns (pages: seq<seq<int>>, orders: seq<seq<int>>)
    requires s == {1, 2} && forall a, b :: a in s && b in s ==> le(a, b)
    ensures IsReading(pages, orders, s, le, 1) && Delivered(pages) == [1, 1]
  {
    TiedOrders(s, le);
    pages, orders := OnePageMore([], [], s, le, [1, 2]);
    pages, orders := OnePageMore(pages, orders, s, le, [2, 1]);
  }

  lemma TiedOrders(s: set<int>, le: (int, int) -> bool)
    requires s == {1, 2} && forall a, b :: a in s && b in s ==> le(a, b)
    ensures IsOrdering([1, 2], s, le) && IsOrdering([2, 1], s, le)
  {
  }

  /** Read one by one in either direction, the client can be shown entry 1 twice and entry 2
      never. */
  lemma TiesCanHideAnEntry(direction: string, now: int) returns (pages: seq<seq<int>>, orders: seq<seq<int>>)
    ensures IsReading(pages, orders, Requested(TIED, OneByOne(direction), now), StreamOrder(TIED, OneByOne(direction)), PageLimit(1))
    ensures Delivered(pages) == [1, 1]
  {
    TiedRequest(direction, now);
    pages, orders := TiedReading(Requested(TIED, OneByOne(direction), now), StreamOrder(TIED, OneByOne(direction)));
  }
}
