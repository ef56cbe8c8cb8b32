/** EntryQueryBuilder: the builder and the statements it runs
    (internal/storage/entry_query_builder.go). */
module EntryQueries {
  import opened Common
  import opened Ordering
  import opened SqlConditions
  import opened Filters
  import opened Catalog

  const MAX_ENTRY_LIMIT := 1000

  /** An expression of ORDER BY: a quoted column, or the rank for the query bound to $n. */
  datatype SortExpression = ColumnExpr(column: string, desc: bool) | RankExpr(n: int)

  /** What a sort expression asks for. */
  datatype SortKey = ByColumn(column: string, desc: bool) | ByRank(query: string)

  /** The key that an expression denotes under the bound arguments; None is an error. */
  function Denoted(e: SortExpression, args: seq<Value>): Option<SortKey> {
    match e
    case ColumnExpr(column, desc) => Some(ByColumn(column, desc))
    case RankExpr(n) => if 1 <= n <= |args| && args[n - 1].StrVal? then Some(ByRank(args[n - 1].s)) else None
  }

  /** The expressions denote the keys, one by one. */
  ghost predicate SortingDenotes(es: seq<SortExpression>, args: seq<Value>, sorting: seq<SortKey>) {
    |es| == |sorting| && forall i :: 0 <= i < |es| ==> Denoted(es[i], args) == Some(sorting[i])
  }

  function DenotedKeys(es: seq<SortExpression>, args: seq<Value>): seq<SortKey>
    requires forall i :: 0 <= i < |es| ==> Denoted(es[i], args).Some?
  {
    seq(|es|, i requires 0 <= i < |es| => Denoted(es[i], args).value)
  }

  /** Smaller values come first; a descending column and a rank count backwards. */
  function SortValue(key: SortKey, row: Row): int {
    match key
    case ByColumn(column, desc) => if desc then -ColumnKey(column, row.e) else ColumnKey(column, row.e)
    case ByRank(query) => if query in row.e.ranks then -row.e.ranks[query] else 0
  }

  function ColumnKey(column: string, e: EntryCols): int {
    if column == "id" then e.id
    else if column == "published_at" then e.publishedAt
    else if column == "created_at" then e.createdAt
    else if column == "changed_at" then e.changedAt
    else if column in e.sortKeys then e.sortKeys[column]
    else 0
  }

  function SortValues(sort: seq<SortKey>, row: Row): seq<int> {
    seq(|sort|, i requires 0 <= i < |sort| => SortValue(sort[i], row))
  }

  /** ORDER BY: row a may come before row b. */
  predicate MayPrecede(sort: seq<SortKey>, a: Row, b: Row) {
    LexLeq(SortValues(sort, a), SortValues(sort, b))
  }

  function IdOrder(cat: Catalog, sort: seq<SortKey>): (int, int) -> bool {
    (a, b) => MayPrecede(sort, RowOf(cat, a), RowOf(cat, b))
  }

  function ResultOrder(cat: Catalog, sort: seq<SortKey>): ((int, Option<int>), (int, Option<int>)) -> bool {
    (a: (int, Option<int>), b: (int, Option<int>)) => MayPrecede(sort, RowOf(cat, a.0), RowOf(cat, b.0))
  }

  // ----- The order in columns -----

  /** The key puts a strictly before b: a column by its values, a rank from the highest down. */
  predicate KeyPuts(key: SortKey, a: EntryCols, b: EntryCols) {
    match key
    case ByColumn("id", desc) => if desc then a.id > b.id else a.id < b.id
    case ByColumn("published_at", desc) => if desc then a.publishedAt > b.publishedAt else a.publishedAt < b.publishedAt
    case ByColumn("created_at", desc) => if desc then a.createdAt > b.createdAt else a.createdAt < b.createdAt
    case ByColumn("changed_at", desc) => if desc then a.changedAt > b.changedAt else a.changedAt < b.changedAt
    case ByColumn(column, desc) =>
      var x := if column in a.sortKeys then a.sortKeys[column] else 0;
      var y := if column in b.sortKeys then b.sortKeys[column] else 0;
      if desc then x > y else x < y
    case ByRank(query) =>
      (if query in a.ranks then a.ranks[query] else 0) > (if query in b.ranks then b.ranks[query] else 0)
  }

  /** One of the first k keys puts a before b. */
  ghost predicate PutEarlier(sort: seq<SortKey>, k: nat, a: EntryCols, b: EntryCols)
    requires k <= |sort|
  {
    exists j :: 0 <= j < k && KeyPuts(sort[j], a, b)
  }

  /** Row a may come before row b exactly when each key that puts b first has an earlier one that
      puts a first. */
  lemma {:induction false} MayPrecedeExactlyWhen(sort: seq<SortKey>, a: Row, b: Row)
    ensures MayPrecede(sort, a, b) <==>
            forall k :: 0 <= k < |sort| && KeyPuts(sort[k], b.e, a.e) ==> PutEarlier(sort, k, a.e, b.e)
  {
    var x, y := SortValues(sort, a), SortValues(sort, b);
    LexLeqExactlyWhen(x, y);
    forall k | 0 <= k < |sort|
      ensures KeyPuts(sort[k], a.e, b.e) <==> x[k] < y[k]
      ensures KeyPuts(sort[k], b.e, a.e) <==> y[k] < x[k]
    {
      KeyComparesValues(sort[k], a, b);
      KeyComparesValues(sort[k], b, a);
    }
    forall k | 0 <= k < |sort| ensures SmallerBefore(x, y, k) <==> PutEarlier(sort, k, a.e, b.e) {
    }
  }

  lemma KeyComparesValues(key: SortKey, a: Row, b: Row)
    ensures KeyPuts(key, a.e, b.e) <==> SortValue(key, a) < SortValue(key, b)
  {
  }

  lemma OrdersArePreorders(cat: Catalog, sort: seq<SortKey>)
    ensures TotalPreorder(IdOrder(cat, sort))
    ensures TotalPreorder(ResultOrder(cat, sort))
  {
    forall a, b, c
      ensures MayPrecede(sort, a, b) || MayPrecede(sort, b, a)
      ensures MayPrecede(sort, a, b) && MayPrecede(sort, b, c) ==> MayPrecede(sort, a, c)
    {
      LexIsPreorder(SortValues(sort, a), SortValues(sort, b), SortValues(sort, c));
    }
  }

  /** The reported total: the window count of a non-empty page, else the fallback count when an
      offset was given, else zero. */
  function Total(cat: Catalog, matching: set<int>, limit: int, offset: int): int {
    var rows := |ResultRows(cat, matching)|;
    if offset < rows || (offset <= 0 && rows > 0) then rows
    else if offset > 0 then |matching|
    else 0
  }

  class EntryQueryBuilder {
    var args: seq<Value>
    var conditions: seq<Condition>
    var sortExpressions: seq<SortExpression>
    var limit: int
    var offset: int
    ghost var filters: seq<Filter>   // the chain of restricting calls so far
    ghost var sorting: seq<SortKey>  // the sort keys asked for so far

    ghost predicate ValidConditions()
      reads `args, `conditions, `filters
    {
      Compiled(conditions, args) == Compile(filters)
    }

    ghost predicate ValidSorting()
      reads `args, `sortExpressions, `sorting
    {
      SortingDenotes(sortExpressions, args, sorting)
    }

    ghost predicate Valid()
      reads this
    {
      ValidConditions() && ValidSorting()
    }

    /** NewEntryQueryBuilder */
    constructor (userID: int)
      ensures Valid() && filters == [EntryOwner(userID)]
      ensures forall now: int, row: Row :: AllHold(filters, now, row) <==> row.e.userID == userID
      ensures sorting == [] && limit == 0 && offset == 0
    {
      args := [IntVal(userID)];
      conditions := [[A(Compare(EUserId, Eq, 1))]];
      sortExpressions, limit, offset := [], 0, 0;
      filters, sorting := [EntryOwner(userID)], [];
      new;
      OneFilter(EntryOwner(userID));
      OnlyFilter(EntryOwner(userID));
    }

    /** NewAnonymousQueryBuilder */
    constructor Anonymous()
      ensures Valid() && filters == [] && forall now: int, row: Row :: AllHold(filters, now, row)
      ensures sorting == [] && limit == 0 && offset == 0
    {
      args, conditions, sortExpressions, limit, offset := [], [], [], 0, 0;
      filters, sorting := [], [];
    }

    /** Append conditions and their arguments. */
    method AppendConditions(cs: seq<Condition>, vs: seq<Value>, ghost f: Filter)
      requires ValidConditions() && NewConditions(|args| + 1, f) == cs && NewArgs(f) == vs
      modifies `args, `conditions, `filters
      ensures ValidConditions() && filters == old(filters) + [f] && args == old(args) + vs
    {
      Appends(Compiled(conditions, args), filters, f, cs, vs);
      conditions := conditions + cs;
      args := args + vs;
      filters := filters + [f];
    }

    /** The step that the With... methods share: sort expressions keep their meaning too. */
    method Append(cs: seq<Condition>, vs: seq<Value>, ghost f: Filter)
      requires Valid() && NewConditions(|args| + 1, f) == cs && NewArgs(f) == vs
      modifies `args, `conditions, `filters
      ensures Valid() && filters == old(filters) + [f] && args == old(args) + vs
    {
      SortingKept(sortExpressions, args, vs, sorting);
      AppendConditions(cs, vs, f);
    }

    method WithSearchQuery(query: string)
      requires Valid()
      modifies `args, `conditions, `filters, `sortExpressions, `sorting
      ensures Valid() && filters == old(filters) + [SearchQuery(query)]
      ensures sorting == old(sorting) + if query != "" then [ByRank(query)] else []
      ensures Narrows(old(filters), filters, (now, row: Row) => query == "" || query in row.e.ranks)
    {
      Narrowed(filters, SearchQuery(query), (now, row: Row) => query == "" || query in row.e.ranks);
      if query != "" {
        var nArgs := |args| + 1;
        Append([[A(MatchesSearch(nArgs))]], [StrVal(query)], SearchQuery(query));
        SortingGrows(sortExpressions, args, sorting, RankExpr(nArgs), ByRank(query));
        sortExpressions := sortExpressions + [RankExpr(nArgs)];
        sorting := sorting + [ByRank(query)];
      } else {
        Skip(SearchQuery(query));
      }
    }

    /** A call that restricts nothing. */
    ghost method Skip(f: Filter)
      requires Valid() && NoOp(f)
      modifies `filters
      ensures Valid() && filters == old(filters) + [f]
    {
      NoOpAppendsNothing(|args| + 1, f);
      Appends(Compiled(conditions, args), filters, f, [], []);
      assert conditions + [] == conditions;
      filters := filters + [f];
    }

    method WithStarred(starred: bool)
      requires Valid()
      modifies `args, `conditions, `filters
      ensures Valid() && filters == old(filters) + [Starred(starred)]
      ensures Narrows(old(filters), filters, (now, row: Row) => row.e.starred == starred)
    {
      Narrowed(filters, Starred(starred), (now, row: Row) => row.e.starred == starred);
      if starred {
        Append([[A(IsBool(EStarred, true))]], [], Starred(true));
      } else {
        Append([[A(IsBool(EStarred, false))]], [], Starred(false));
      }
    }

    method BeforeChangedDate(date: int)
      requires Valid()
      modifies `args, `conditions, `filters
      ensures Valid() && filters == old(filters) + [Filter.BeforeChangedDate(date)]
      ensures Narrows(old(filters), filters, (now, row: Row) => row.e.changedAt < date)
    {
      Narrowed(filters, Filter.BeforeChangedDate(date), (now, row: Row) => row.e.changedAt < date);
      Append([[A(Compare(EChangedAt, Lt, |args| + 1))]], [TimeVal(date)], Filter.BeforeChangedDate(date));
    }

    method AfterChangedDate(date: int)
      requires Valid()
      modifies `args, `conditions, `filters
      ensures Valid() && filters == old(filters) + [Filter.AfterChangedDate(date)]
      ensures Narrows(old(filters), filters, (now, row: Row) => row.e.changedAt > date)
    {
      Narrowed(filters, Filter.AfterChangedDate(date), (now, row: Row) => row.e.changedAt > date);
      Append([[A(Compare(EChangedAt, Gt, |args| + 1))]], [TimeVal(date)], Filter.AfterChangedDate(date));
    }

    method BeforePublishedDate(date: int)
      requires Valid()
      modifies `args, `conditions, `filters
      ensures Valid() && filters == old(filters) + [Filter.BeforePublishedDate(date)]
      ensures Narrows(old(filters), filters, (now, row: Row) => row.e.publishedAt < date)
    {
      Narrowed(filters, Filter.BeforePublishedDate(date), (now, row: Row) => row.e.publishedAt < date);
      Append([[A(Compare(EPublishedAt, Lt, |args| + 1))]], [TimeVal(date)], Filter.BeforePublishedDate(date));
    }

    method AfterPublishedDate(date: int)
      requires Valid()
      modifies `args, `conditions, `filters
      ensures Valid() && filters == old(filters) + [Filter.AfterPublishedDate(date)]
      ensures Narrows(old(filters), filters, (now, row: Row) => row.e.publishedAt > date)
    {
      Narrowed(filters, Filter.AfterPublishedDate(date), (now, row: Row) => row.e.publishedAt > date);
      Append([[A(Compare(EPublishedAt, Gt, |args| + 1))]], [TimeVal(date)], Filter.AfterPublishedDate(date));
    }

    method BeforeEntryID(id: int)
      requires Valid()
      modifies `args, `conditions, `filters
      ensures Valid() && filters == old(filters) + [Filter.BeforeEntryID(id)]
      ensures Narrows(old(filters), filters, (now, row: Row) => id == 0 || row.e.id < id)
    {
      Narrowed(filters, Filter.BeforeEntryID(id), (now, row: Row) => id == 0 || row.e.id < id);
      if id != 0 {
        Append([[A(Compare(EId, Lt, |args| + 1))]], [IntVal(id)], Filter.BeforeEntryID(id));
      } else {
        Skip(Filter.BeforeEntryID(id));
      }
    }

    method AfterEntryID(id: int)
      requires Valid()
      modifies `args, `conditions, `filters
      ensures Valid() && filters == old(filters) + [Filter.AfterEntryID(id)]
      ensures Narrows(old(filters), filters, (now, row: Row) => id == 0 || row.e.id > id)
    {
      Narrowed(filters, Filter.AfterEntryID(id), (now, row: Row) => id == 0 || row.e.id > id);
      if id != 0 {
        Append([[A(Compare(EId, Gt, |args| + 1))]], [IntVal(id)], Filter.AfterEntryID(id));
      } else {
        Skip(Filter.AfterEntryID(id));
      }
    }

    method WithEntryIDs(ids: seq<int>)
      requires Valid()
      modifies `args, `conditions, `filters
      ensures Valid() && filters == old(filters) + [EntryIDs(ids)]
      ensures Narrows(old(filters), filters, (now, row: Row) => ids == [] || row.e.id in ids)
    {
      Narrowed(filters, EntryIDs(ids), (now, row: Row) => ids == [] || row.e.id in ids);
      if |ids| == 1 {
        Append([[A(Compare(EId, Eq, |args| + 1))]], [IntVal(ids[0])], EntryIDs(ids));
      } else if |ids| > 1 {
        Append([[A(EqualsAny(EId, |args| + 1))]], [IntList(ids)], EntryIDs(ids));
      } else {
        Skip(EntryIDs(ids));
      }
    }

    method WithFeedID(feedID: int)
      requires Valid()
      modifies `args, `conditions, `filters
      ensures Valid() && filters == old(filters) + [PositiveFeedID(feedID)]
      ensures Narrows(old(filters), filters, (now, row: Row) => feedID <= 0 || row.e.feedID == feedID)
    {
      Narrowed(filters, PositiveFeedID(feedID), (now, row: Row) => feedID <= 0 || row.e.feedID == feedID);
      if feedID > 0 {
        Append([[A(Compare(EFeedId, Eq, |args| + 1))]], [IntVal(feedID)], PositiveFeedID(feedID));
      } else {
        Skip(PositiveFeedID(feedID));
      }
    }

    method WithCategoryID(categoryID: int)
      requires Valid()
      modifies `args, `conditions, `filters
      ensures Valid() && filters == old(filters) + [PositiveCategoryID(categoryID)]
      ensures Narrows(old(filters), filters, (now, row: Row) => categoryID <= 0 || row.f.categoryID == categoryID)
    {
      Narrowed(filters, PositiveCategoryID(categoryID), (now, row: Row) => categoryID <= 0 || row.f.categoryID == categoryID);
      if categoryID > 0 {
        Append([[A(Compare(FCategoryId, Eq, |args| + 1))]], [IntVal(categoryID)], PositiveCategoryID(categoryID));
      } else {
        Skip(PositiveCategoryID(categoryID));
      }
    }

    method WithStatuses(statuses: seq<string>)
      requires Valid()
      modifies `args, `conditions, `filters
      ensures Valid() && filters == old(filters) + [Statuses(statuses)]
      ensures Narrows(old(filters), filters, (now, row: Row) => statuses == [] || row.e.status in statuses)
    {
      Narrowed(filters, Statuses(statuses), (now, row: Row) => statuses == [] || row.e.status in statuses);
      if |statuses| == 1 {
        Append([[A(Compare(EStatus, Eq, |args| + 1))]], [StrVal(statuses[0])], Statuses(statuses));
      } else if |statuses| > 1 {
        Append([[A(EqualsAny(EStatus, |args| + 1))]], [StrList(statuses)], Statuses(statuses));
      } else {
        Skip(Statuses(statuses));
      }
    }

    method WithTags(tags: seq<string>)
      requires Valid()
      modifies `args, `conditions, `filters
      ensures Valid() && filters == old(filters) + [Tags(tags)]
      ensures Narrows(old(filters), filters,
                      (now, row: Row) => forall tag :: tag in tags ==> exists t :: t in row.e.tags && Lower(t) == Lower(tag))
    {
      Narrowed(filters, Tags(tags),
               (now, row: Row) => forall tag :: tag in tags ==> exists t :: t in row.e.tags && Lower(t) == Lower(tag));
      if |tags| > 0 {
        Append([[A(ContainsTags(|args| + 1))]], [StrList(tags)], Tags(tags));
      } else {
        Skip(Tags(tags));
      }
    }

    method WithoutStatus(status: string)
      requires Valid()
      modifies `args, `conditions, `filters
      ensures Valid() && filters == old(filters) + [NotStatus(status)]
      ensures Narrows(old(filters), filters, (now, row: Row) => status == "" || row.e.status != status)
    {
      Narrowed(filters, NotStatus(status), (now, row: Row) => status == "" || row.e.status != status);
      if status != "" {
        Append([[A(Compare(EStatus, Ne, |args| + 1))]], [StrVal(status)], NotStatus(status));
      } else {
        Skip(NotStatus(status));
      }
    }

    method WithShareCode(shareCode: string)
      requires Valid()
      modifies `args, `conditions, `filters
      ensures Valid() && filters == old(filters) + [ShareCode(shareCode)]
      ensures Narrows(old(filters), filters, (now, row: Row) => row.e.shareCode == shareCode)
    {
      Narrowed(filters, ShareCode(shareCode), (now, row: Row) => row.e.shareCode == shareCode);
      Append([[A(Compare(EShareCode, Eq, |args| + 1))]], [StrVal(shareCode)], ShareCode(shareCode));
    }

    method WithShareCodeNotEmpty()
      requires Valid()
      modifies `args, `conditions, `filters
      ensures Valid() && filters == old(filters) + [ShareCodeNotEmpty]
      ensures Narrows(old(filters), filters, (now, row: Row) => row.e.shareCode != "")
    {
      Narrowed(filters, ShareCodeNotEmpty, (now, row: Row) => row.e.shareCode != "");
      Append([[A(NotEmpty(EShareCode))]], [], ShareCodeNotEmpty);
    }

    method WithGloballyVisible()
      requires Valid()
      modifies `args, `conditions, `filters
      ensures Valid() && filters == old(filters) + [GloballyVisible]
      ensures Narrows(old(filters), filters, (now, row: Row) => !row.c.hideGlobally && !row.f.hideGlobally)
    {
      Narrowed(filters, GloballyVisible, (now, row: Row) => !row.c.hideGlobally && !row.f.hideGlobally);
      Append([[A(IsBool(CHideGlobally, false))], [A(IsBool(FHideGlobally, false))]], [], GloballyVisible);
    }

    method WithSorting(column: string, direction: string)
      requires Valid()
      modifies `sortExpressions, `sorting
      ensures Valid()
      ensures sorting == old(sorting) +
              if Lower(direction) == "asc" then [ByColumn(column, false)]
              else if Lower(direction) == "desc" then [ByColumn(column, true)]
              else []
    {
      if Lower(direction) == "asc" {
        SortingGrows(sortExpressions, args, sorting, ColumnExpr(column, false), ByColumn(column, false));
        sortExpressions := sortExpressions + [ColumnExpr(column, false)];
        sorting := sorting + [ByColumn(column, false)];
      } else if Lower(direction) == "desc" {
        SortingGrows(sortExpressions, args, sorting, ColumnExpr(column, true), ByColumn(column, true));
        sortExpressions := sortExpressions + [ColumnExpr(column, true)];
        sorting := sorting + [ByColumn(column, true)];
      }
    }

    method WithLimit(limit: int)
      modifies `limit
      ensures this.limit == if 1 <= limit <= 1000 then limit else 1000
    {
      WithLimitAndMaximum(limit, MAX_ENTRY_LIMIT);
    }

    method WithLimitAndMaximum(limit: int, maximum: int)
      modifies `limit
      ensures this.limit == if 1 <= limit <= maximum then limit else maximum
    {
      var l := limit;
      if l <= 0 || l > maximum {
        l := maximum;
      }
      this.limit := l;
    }

    method WithOffset(offset: int)
      modifies `offset
      ensures this.offset == if offset > 0 then offset else old(this.offset)
    {
      if offset > 0 {
        this.offset := offset;
      }
    }

    /** The entries a statement over these tables selects; None when the database rejects it. */
    method Select(cat: Catalog, scope: set<Table>, now: int) returns (r: Option<set<int>>)
      requires Valid()
      ensures r.None? <==> (forall f :: f in filters ==> NoOp(f)) || NeedsMissingTable(filters, scope)
      ensures r.Some? ==> r.value == Matching(cat, filters, now)
      ensures r.Some? ==> forall id :: id in r.value <==> id in cat.entries && AllHold(filters, now, RowOf(cat, id))
    {
      var ctx := Context(scope, args, now);
      assert args + [] == args;
      ChainDenotesConjunction(filters, scope, [], now, SOME_ROW);
      if Where(conditions, ctx, SOME_ROW).None? {
        return None;
      }
      forall id | id in cat.entries
        ensures Where(conditions, ctx, RowOf(cat, id)) == Some(AllHold(filters, now, RowOf(cat, id)))
      {
        ChainDenotesConjunction(filters, scope, [], now, RowOf(cat, id));
      }
      r := Some(set id | id in cat.entries && Where(conditions, ctx, RowOf(cat, id)) == Some(true));
    }

    /** SELECT count(*) over entries, feeds and categories */
    method CountEntries(cat: Catalog, now: int) returns (count: Option<int>)
      requires Valid()
      ensures count == if forall f :: f in filters ==> NoOp(f) then None else Some(|Matching(cat, filters, now)|)
    {
      var ids := Select(cat, {E, F, C}, now);
      AllTablesSuffice(filters);
      count := match ids case None => None case Some(s) => Some(|s|);
    }

    /** The ids of a page: no categories table is joined here. */
    method GetEntryIDs(cat: Catalog, now: int) returns (ids: Option<seq<int>>)
      requires Valid()
      ensures ids.None? <==> (forall f :: f in filters ==> NoOp(f)) || NeedsMissingTable(filters, {E, F})
      ensures ids.Some? ==> exists all ::
                && IsOrdering(all, Matching(cat, filters, now), IdOrder(cat, sorting))
                && IsPageOf(ids.value, all, limit, offset)
    {
      var selected := Select(cat, {E, F}, now);
      if selected.None? {
        return None;
      }
      var keys := DenotedKeys(sortExpressions, args);
      assert keys == sorting;
      OrdersArePreorders(cat, keys);
      var all := Order(selected.value, IdOrder(cat, keys));
      WindowIsPage(Window(all, limit, offset), all, limit, offset);
      ids := Some(Window(all, limit, offset));
    }

    /** fetchEntries: one page of result rows, with the window count that its rows carry. */
    method FetchEntries(cat: Catalog, now: int) returns (r: Option<(seq<(int, Option<int>)>, int)>)
      requires Valid()
      ensures r.None? <==> forall f :: f in filters ==> NoOp(f)
      ensures r.Some? ==> exists all ::
                && IsOrdering(all, ResultRows(cat, Matching(cat, filters, now)), ResultOrder(cat, sorting))
                && IsPageOf(r.value.0, all, limit, offset)
                && r.value.1 == if r.value.0 == [] then 0 else |all|
    {
      AllTablesSuffice(filters);
      var selected := Select(cat, {E, F, C}, now);
      if selected.None? {
        return None;
      }
      var keys := DenotedKeys(sortExpressions, args);
      assert keys == sorting;
      OrdersArePreorders(cat, keys);
      var all := Order(ResultRows(cat, selected.value), ResultOrder(cat, keys));
      var page := Window(all, limit, offset);
      WindowIsPage(page, all, limit, offset);
      r := Some((page, if page == [] then 0 else |all|));
    }

    method GetEntries(cat: Catalog, now: int) returns (page: Option<seq<(int, Option<int>)>>)
      requires Valid()
      ensures page.None? <==> forall f :: f in filters ==> NoOp(f)
      ensures page.Some? ==> exists all ::
                && IsOrdering(all, ResultRows(cat, Matching(cat, filters, now)), ResultOrder(cat, sorting))
                && IsPageOf(page.value, all, limit, offset)
    {
      var r := FetchEntries(cat, now);
      page := match r case None => None case Some((rows, _)) => Some(rows);
    }

    /** GetEntriesWithCount: a separate count replaces the window count of an empty page. */
    method GetEntriesWithCount(cat: Catalog, now: int) returns (r: Option<(seq<(int, Option<int>)>, int)>)
      requires Valid()
      ensures r.None? <==> forall f :: f in filters ==> NoOp(f)
      ensures r.Some? ==> exists all ::
                && IsOrdering(all, ResultRows(cat, Matching(cat, filters, now)), ResultOrder(cat, sorting))
                && IsPageOf(r.value.0, all, limit, offset)
      ensures r.Some? ==> r.value.1 == Total(cat, Matching(cat, filters, now), limit, offset)
    {
      r := FetchEntries(cat, now);
      if r.Some? && |r.value.0| == 0 && offset > 0 {
        var count := CountEntries(cat, now);
        r := Some((r.value.0, count.value));
      }
    }
  }

  // ----- Lemmas -----

  lemma OneFilter(f: Filter)
    ensures Compile([f]) == Compiled(NewConditions(1, f), NewArgs(f))
  {
    CompileSnoc([], f);
    assert [] + [f] == [f];
    NothingBefore(NewConditions(1, f), NewArgs(f));
  }

  lemma NothingBefore(cs: seq<Condition>, vs: seq<Value>)
    ensures [] + cs == cs && [] + vs == vs
  {
  }

  /** The builder's slices stay those of its chain when a call's conditions and arguments are
      appended to them. */
  lemma {:induction false} Appends(c: Compiled, fs: seq<Filter>, f: Filter, cs: seq<Condition>, vs: seq<Value>)
    requires c == Compile(fs) && NewConditions(|c.args| + 1, f) == cs && NewArgs(f) == vs
    ensures Compile(fs + [f]) == Compiled(c.conditions + cs, c.args + vs)
    ensures vs == [] ==> Compile(fs + [f]) == Compiled(c.conditions + cs, c.args)
  {
    CompileSnoc(fs, f);
    assert vs == [] ==> c.args + vs == c.args;
  }

  /** Later arguments leave the sort expressions alone. */
  lemma SortingKept(es: seq<SortExpression>, args: seq<Value>, more: seq<Value>, sorting: seq<SortKey>)
    requires SortingDenotes(es, args, sorting)
    ensures SortingDenotes(es, args + more, sorting)
  {
  }

  lemma SortingGrows(es: seq<SortExpression>, args: seq<Value>, sorting: seq<SortKey>, e: SortExpression, key: SortKey)
    requires SortingDenotes(es, args, sorting) && Denoted(e, args) == Some(key)
    ensures SortingDenotes(es + [e], args, sorting + [key])
  {
  }

  lemma NoOpAppendsNothing(n: int, f: Filter)
    requires NoOp(f)
    ensures NewConditions(n, f) == [] && NewArgs(f) == []
  {
  }

  lemma AllTablesSuffice(fs: seq<Filter>)
    ensures !NeedsMissingTable(fs, {E, F, C})
  {
  }

  /** The total is the number of matching entries, whatever the limit and the offset, when no
      feed of a matching entry has two icons. */
  lemma TotalIsMatchCount(cat: Catalog, matching: set<int>, limit: int, offset: int)
    requires matching <= cat.entries.Keys
    requires forall id :: id in matching ==> OneIcon(cat, id)
    ensures Total(cat, matching, limit, offset) == |matching|
  {
    ResultRowsCount(cat, matching);
  }

  /** Exactly when the total is right, for any limit and offset: the page lies past all rows, so
      that the fallback counts, or no feed of a matching entry has two icons. */
  lemma TotalExactlyWhen(cat: Catalog, matching: set<int>, limit: int, offset: int)
    requires matching <= cat.entries.Keys
    ensures Total(cat, matching, limit, offset) == |matching| <==>
            || (offset > 0 && offset >= |ResultRows(cat, matching)|)
            || forall id :: id in matching ==> OneIcon(cat, id)
  {
    ResultRowsCount(cat, matching);
  }
}
