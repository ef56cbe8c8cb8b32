/** Previous and next entry (internal/storage/entry_pagination_builder.go). */
module EntryPagination {
  import opened Common
  import opened Ordering
  import opened SqlConditions
  import opened Filters
  import opened Catalog
  import EntryQueries

  /** The columns callers sort by: a user's entry_order, or changed_at for the history. */
  datatype SortColumn = PublishedAt | CreatedAt | ChangedAt

  function SortTime(col: SortColumn, e: EntryCols): int {
    match col
    case PublishedAt => e.publishedAt
    case CreatedAt => e.createdAt
    case ChangedAt => e.changedAt
  }

  /** ORDER BY e.<col> asc, e.created_at asc, e.id desc: a strictly before b. */
  predicate Precedes(col: SortColumn, a: EntryCols, b: EntryCols) {
    var x, y := SortTime(col, a), SortTime(col, b);
    x < y || (x == y && (a.createdAt < b.createdAt || (a.createdAt == b.createdAt && a.id > b.id)))
  }

  predicate Before(cat: Catalog, col: SortColumn, a: int, b: int) {
    Precedes(col, RowOf(cat, a).e, RowOf(cat, b).e)
  }

  /** b follows a among these entries, with nothing in between. */
  ghost predicate IsNext(cat: Catalog, ids: set<int>, col: SortColumn, a: int, b: int) {
    a in ids && b in ids && Before(cat, col, a, b) &&
    forall c :: c in ids && Before(cat, col, a, c) ==> c == b || Before(cat, col, b, c)
  }

  /** A neighbour id as the code returns it: 0 for none. */
  ghost predicate NextOrZero(cat: Catalog, ids: set<int>, col: SortColumn, a: int, next: int) {
    if next == 0 then a !in ids || forall c :: c in ids ==> !Before(cat, col, a, c)
    else IsNext(cat, ids, col, a, next)
  }

  ghost predicate PrevOrZero(cat: Catalog, ids: set<int>, col: SortColumn, a: int, prev: int) {
    if prev == 0 then a !in ids || forall c :: c in ids ==> !Before(cat, col, c, a)
    else IsNext(cat, ids, col, prev, a)
  }

  // ----- The order in columns -----

  /** a comes before b in a list by this column: ties go by creation, then by descending id. */
  predicate ComesBefore(col: SortColumn, a: EntryCols, b: EntryCols) {
    var tie := a.createdAt < b.createdAt || (a.createdAt == b.createdAt && a.id > b.id);
    match col
    case PublishedAt => a.publishedAt < b.publishedAt || (a.publishedAt == b.publishedAt && tie)
    case CreatedAt => tie
    case ChangedAt => a.changedAt < b.changedAt || (a.changedAt == b.changedAt && tie)
  }

  lemma BeforeInColumns(cat: Catalog, col: SortColumn, a: int, b: int)
    requires Consistent(cat) && a in cat.entries && b in cat.entries
    ensures Before(cat, col, a, b) <==> ComesBefore(col, cat.entries[a], cat.entries[b])
  {
  }

  /** next is the listed entry that comes right after a, or 0 if a is not listed or is the last. */
  ghost predicate LinksForward(cat: Catalog, ids: set<int>, col: SortColumn, a: int, next: int)
    requires ids <= cat.entries.Keys
  {
    if next == 0 then a !in ids || IsLast(cat, ids, col, cat.entries[a])
    else a in ids && next in ids && AreAdjacent(cat, ids, col, cat.entries[a], cat.entries[next])
  }

  /** prev is the listed entry that comes right before a, or 0 if a is not listed or is the first. */
  ghost predicate LinksBack(cat: Catalog, ids: set<int>, col: SortColumn, a: int, prev: int)
    requires ids <= cat.entries.Keys
  {
    if prev == 0 then a !in ids || IsFirst(cat, ids, col, cat.entries[a])
    else a in ids && prev in ids && AreAdjacent(cat, ids, col, cat.entries[prev], cat.entries[a])
  }

  ghost predicate IsFirst(cat: Catalog, ids: set<int>, col: SortColumn, e: EntryCols) {
    forall c :: c in ids && c in cat.entries ==> !ComesBefore(col, cat.entries[c], e)
  }

  ghost predicate IsLast(cat: Catalog, ids: set<int>, col: SortColumn, e: EntryCols) {
    forall c :: c in ids && c in cat.entries ==> !ComesBefore(col, e, cat.entries[c])
  }

  ghost predicate AreAdjacent(cat: Catalog, ids: set<int>, col: SortColumn, e: EntryCols, e': EntryCols) {
    && ComesBefore(col, e, e')
    && forall c :: c in ids && c in cat.entries ==>
         !(ComesBefore(col, e, cat.entries[c]) && ComesBefore(col, cat.entries[c], e'))
  }

  lemma NeighboursInColumns(cat: Catalog, ids: set<int>, col: SortColumn, a: int, prev: int, next: int)
    requires Consistent(cat) && ids <= cat.entries.Keys && 0 !in cat.entries
    requires NextOrZero(cat, ids, col, a, next) && PrevOrZero(cat, ids, col, a, prev)
    ensures LinksForward(cat, ids, col, a, next) && LinksBack(cat, ids, col, a, prev)
  {
    forall x, y | x in ids && y in ids
      ensures Before(cat, col, x, y) <==> ComesBefore(col, cat.entries[x], cat.entries[y])
    {
      BeforeInColumns(cat, col, x, y);
    }
  }

  /** A list in the order of the column, or in the opposite one for "desc". */
  ghost predicate InListOrder(cat: Catalog, col: SortColumn, direction: string, chain: seq<int>) {
    && (forall i :: 0 <= i < |chain| ==> chain[i] in cat.entries)
    && forall i, j :: 0 <= i < j < |chain| ==>
      if direction == "desc" then ComesBefore(col, cat.entries[chain[j]], cat.entries[chain[i]])
      else ComesBefore(col, cat.entries[chain[i]], cat.entries[chain[j]])
  }

  lemma ChainInColumns(cat: Catalog, col: SortColumn, direction: string, chain: seq<int>)
    requires Consistent(cat) && IsChain(cat, col, direction, chain)
    requires forall i :: 0 <= i < |chain| ==> chain[i] in cat.entries
    ensures InListOrder(cat, col, direction, chain)
  {
    forall i, j | 0 <= i < j < |chain|
      ensures if direction == "desc" then ComesBefore(col, cat.entries[chain[j]], cat.entries[chain[i]])
              else ComesBefore(col, cat.entries[chain[i]], cat.entries[chain[j]])
    {
      assert Onward(cat, col, direction, chain[i], chain[j]);
      BeforeInColumns(cat, col, chain[i], chain[j]);
      BeforeInColumns(cat, col, chain[j], chain[i]);
    }
  }

  function NotAfter(cat: Catalog, col: SortColumn): (int, int) -> bool {
    (a, b) => !Before(cat, col, b, a)
  }

  class EntryPaginationBuilder {
    var args: seq<Value>
    var conditions: seq<Condition>
    var entryID: int
    var order: SortColumn
    var direction: string
    ghost var filters: seq<Filter>

    ghost predicate Valid()
      reads this
    {
      Compiled(conditions, args) == Compile(filters)
    }

    constructor (userID: int, entryID: int, order: SortColumn, direction: string)
      ensures Valid() && filters == [EntryOwner(userID)]
      ensures forall now: int, row: Row :: AllHold(filters, now, row) <==> row.e.userID == userID
      ensures this.entryID == entryID && this.order == order && this.direction == direction
    {
      this.args := [IntVal(userID)];
      this.conditions := [[A(Compare(EUserId, Eq, 1))]];
      this.entryID, this.order, this.direction := entryID, order, direction;
      this.filters := [EntryOwner(userID)];
      new;
      EntryQueries.OneFilter(EntryOwner(userID));
      OnlyFilter(EntryOwner(userID));
    }

    /** The step that the With... methods share: append conditions and their arguments. */
    method Append(cs: seq<Condition>, vs: seq<Value>, ghost f: Filter)
      requires Valid() && NewConditions(|args| + 1, f) == cs && NewArgs(f) == vs
      modifies `args, `conditions, `filters
      ensures Valid() && filters == old(filters) + [f]
    {
      EntryQueries.Appends(Compiled(conditions, args), filters, f, cs, vs);
      conditions := conditions + cs;
      args := args + vs;
      filters := filters + [f];
    }

    ghost method Skip(f: Filter)
      requires Valid() && NoOp(f)
      modifies `filters
      ensures Valid() && filters == old(filters) + [f]
    {
      EntryQueries.NoOpAppendsNothing(|args| + 1, f);
      EntryQueries.Appends(Compiled(conditions, args), filters, f, [], []);
      assert conditions + [] == conditions;
      filters := filters + [f];
    }

    method WithSearchQuery(query: string)
      requires Valid()
      modifies `args, `conditions, `filters
      ensures Valid() && filters == old(filters) + [SearchQuery(query)]
      ensures Narrows(old(filters), filters, (now, row: Row) => query == "" || query in row.e.ranks)
    {
      Narrowed(filters, SearchQuery(query), (now, row: Row) => query == "" || query in row.e.ranks);
      if query != "" {
        Append([[A(MatchesSearch(|args| + 1))]], [StrVal(query)], SearchQuery(query));
      } else {
        Skip(SearchQuery(query));
      }
    }

    method WithStarred()
      requires Valid()
      modifies `args, `conditions, `filters
      ensures Valid() && filters == old(filters) + [Starred(true)]
      ensures Narrows(old(filters), filters, (now, row: Row) => row.e.starred)
    {
      Narrowed(filters, Starred(true), (now, row: Row) => row.e.starred);
      Append([[A(IsBool(EStarred, true))]], [], Starred(true));
    }

    method WithFeedID(feedID: int)
      requires Valid()
      modifies `args, `conditions, `filters
      ensures Valid() && filters == old(filters) + [FeedID(feedID)]
      ensures Narrows(old(filters), filters, (now, row: Row) => feedID == 0 || row.e.feedID == feedID)
    {
      Narrowed(filters, FeedID(feedID), (now, row: Row) => feedID == 0 || row.e.feedID == feedID);
      if feedID != 0 {
        Append([[A(Compare(EFeedId, Eq, |args| + 1))]], [IntVal(feedID)], FeedID(feedID));
      } else {
        Skip(FeedID(feedID));
      }
    }

    method WithCategoryID(categoryID: int)
      requires Valid()
      modifies `args, `conditions, `filters
      ensures Valid() && filters == old(filters) + [CategoryID(categoryID)]
      ensures Narrows(old(filters), filters, (now, row: Row) => categoryID == 0 || row.f.categoryID == categoryID)
    {
      Narrowed(filters, CategoryID(categoryID), (now, row: Row) => categoryID == 0 || row.f.categoryID == categoryID);
      if categoryID != 0 {
        Append([[A(Compare(FCategoryId, Eq, |args| + 1))]], [IntVal(categoryID)], CategoryID(categoryID));
      } else {
        Skip(CategoryID(categoryID));
      }
    }

    method WithStatus(status: string)
      requires Valid()
      modifies `args, `conditions, `filters
      ensures Valid() && filters == old(filters) + [Status(status)]
      ensures Narrows(old(filters), filters, (now, row: Row) => status == "" || row.e.status == status)
    {
      Narrowed(filters, Status(status), (now, row: Row) => status == "" || row.e.status == status);
      if status != "" {
        Append([[A(Compare(EStatus, Eq, |args| + 1))]], [StrVal(status)], Status(status));
      } else {
        Skip(Status(status));
      }
    }

    method WithStatusOrEntryID(status: string, entryID: int)
      requires Valid()
      modifies `args, `conditions, `filters
      ensures Valid() && filters == old(filters) + [StatusOrEntryID(status, entryID)]
      ensures Narrows(old(filters), filters,
                      (now, row: Row) => status == "" || row.e.status == status || (entryID != 0 && row.e.id == entryID))
    {
      Narrowed(filters, StatusOrEntryID(status, entryID),
               (now, row: Row) => status == "" || row.e.status == status || (entryID != 0 && row.e.id == entryID));
      ghost var f := StatusOrEntryID(status, entryID);
      if status == "" {
        Skip(f);
        return;
      }
      if entryID == 0 {
        Append([[A(Compare(EStatus, Eq, |args| + 1))]], [StrVal(status)], f);
        return;
      }
      var statusArg, entryArg := |args| + 1, |args| + 2;
      Append([[LParen, A(Compare(EStatus, Eq, statusArg)), Or, A(Compare(EId, Eq, entryArg)), RParen]],
             [StrVal(status), IntVal(entryID)], f);
    }

    method WithTags(tags: seq<string>)
      requires Valid()
      modifies `args, `conditions, `filters
      ensures Valid() && filters == old(filters) + [Tags(tags)]
      ensures Narrows(old(filters), filters,
                      (now, row: Row) => forall tag :: tag in tags ==> exists t :: t in row.e.tags && Lower(t) == Lower(tag))
    {
      Narrowed(filters, Tags(tags),
               (now, row: Row) => forall tag :: tag in tags ==> exists t :: t in row.e.tags && Lower(t) == Lower(tag));
      if |tags| > 0 {
        Append([[A(ContainsTags(|args| + 1))]], [StrList(tags)], Tags(tags));
      } else {
        Skip(Tags(tags));
      }
    }

    method WithGloballyVisible()
      requires Valid()
      modifies `args, `conditions, `filters
      ensures Valid() && filters == old(filters) + [GloballyVisible]
      ensures Narrows(old(filters), filters, (now, row: Row) => !row.c.hideGlobally && !row.f.hideGlobally)
    {
      Narrowed(filters, GloballyVisible, (now, row: Row) => !row.c.hideGlobally && !row.f.hideGlobally);
      Append([[A(IsBool(CHideGlobally, false))], [A(IsBool(FHideGlobally, false))]], [], GloballyVisible);
    }

    /** The rows of the CTE in their order, with one more argument bound than it refers to. */
    method OrderedRows(cat: Catalog, now: int, extra: Value) returns (all: seq<int>)
      requires Valid() && filters != [] && filters[0].EntryOwner?
      ensures IsOrdering(all, Matching(cat, filters, now), NotAfter(cat, order))
    {
      var ctx := Context({E, F, C}, args + [extra], now);
      SelectsMatching(cat, filters, extra, now);
      var ids := set id | id in cat.entries && Where(conditions, ctx, RowOf(cat, id)) == Some(true);
      NotAfterIsPreorder(cat, order);
      all := Order(ids, NotAfter(cat, order));
    }

    /** The CTE with lag and lead over the ordered matching entries, then the row with
        ep.id = $n, where $n is the argument appended last. */
    method GetPrevNextID(cat: Catalog, now: int) returns (prevID: int, nextID: int)
      requires Valid() && filters != [] && filters[0].EntryOwner?
      requires Consistent(cat) && 0 !in cat.entries
      modifies `args
      ensures args == old(args) + [IntVal(entryID)]
      ensures NextOrZero(cat, Matching(cat, filters, now), order, entryID, nextID)
      ensures PrevOrZero(cat, Matching(cat, filters, now), order, entryID, prevID)
      ensures LinksForward(cat, Matching(cat, filters, now), order, entryID, nextID)
      ensures LinksBack(cat, Matching(cat, filters, now), order, entryID, prevID)
    {
      var finalCondition := Compare(EId, Eq, |args| + 1);
      var all := OrderedRows(cat, now, IntVal(entryID));
      args := args + [IntVal(entryID)];
      prevID, nextID :=
        LagAndLead(cat, order, Matching(cat, filters, now), all, finalCondition, Context({E}, args, now), entryID);
      NeighboursInColumns(cat, Matching(cat, filters, now), order, entryID, prevID, nextID);
    }

    /** Entries: the neighbours as shown, swapped for a descending list. */
    method Entries(cat: Catalog, now: int) returns (prev: Option<int>, next: Option<int>)
      requires Valid() && filters != [] && filters[0].EntryOwner?
      requires Consistent(cat) && 0 !in cat.entries
      modifies `args
      ensures var ids := Matching(cat, filters, now);
              if direction == "desc"
              then NextOrZero(cat, ids, order, entryID, IdOrZero(prev)) && PrevOrZero(cat, ids, order, entryID, IdOrZero(next))
              else NextOrZero(cat, ids, order, entryID, IdOrZero(next)) && PrevOrZero(cat, ids, order, entryID, IdOrZero(prev))
      ensures var ids := Matching(cat, filters, now);
              if direction == "desc"
              then LinksForward(cat, ids, order, entryID, IdOrZero(prev)) && LinksBack(cat, ids, order, entryID, IdOrZero(next))
              else LinksForward(cat, ids, order, entryID, IdOrZero(next)) && LinksBack(cat, ids, order, entryID, IdOrZero(prev))
      ensures prev != Some(0) && next != Some(0)
    {
      var prevID, nextID := GetPrevNextID(cat, now);
      var prevEntry, nextEntry := GetEntry(cat, prevID), GetEntry(cat, nextID);
      if direction == "desc" {
        return nextEntry, prevEntry;
      }
      return prevEntry, nextEntry;
    }
  }

  /** SELECT id, title FROM entries WHERE id = $1 */
  function GetEntry(cat: Catalog, id: int): Option<int> {
    if id in cat.entries then Some(id) else None
  }

  function IdOrZero(id: Option<int>): int { match id case None => 0 case Some(n) => n }

  /** The argument appended last disturbs no earlier placeholder. */
  lemma {:induction false} SelectsMatching(cat: Catalog, fs: seq<Filter>, extra: Value, now: int)
    requires fs != [] && fs[0].EntryOwner?
    ensures var ctx := Context({E, F, C}, Compile(fs).args + [extra], now);
            (set id | id in cat.entries && Where(Compile(fs).conditions, ctx, RowOf(cat, id)) == Some(true))
            == Matching(cat, fs, now)
  {
    EntryQueries.AllTablesSuffice(fs);
    assert !NoOp(fs[0]) && fs[0] in fs;
    forall id | id in cat.entries
      ensures Where(Compile(fs).conditions, Context({E, F, C}, Compile(fs).args + [extra], now), RowOf(cat, id))
              == Some(AllHold(fs, now, RowOf(cat, id)))
    {
      ChainDenotesConjunction(fs, {E, F, C}, [extra], now, RowOf(cat, id));
    }
  }

  /** ep.id = $n keeps the row of the entry asked for. */
  lemma LastArgumentSelects(cat: Catalog, ctx: Context, entryID: int, id: int)
    requires Consistent(cat) && id in cat.entries
    requires ctx.args != [] && ctx.args[|ctx.args| - 1] == IntVal(entryID) && E in ctx.scope
    ensures EvalAtom(Compare(EId, Eq, |ctx.args|), ctx, RowOf(cat, id)) == Some(id == entryID)
  {
  }

  /** The outer query: the row of the CTE that the final condition keeps, if any. */
  method LagAndLead(cat: Catalog, col: SortColumn, ghost ids: set<int>, all: seq<int>,
                    finalCondition: Atom, ctx: Context, entryID: int)
    returns (prevID: int, nextID: int)
    requires Consistent(cat) && ids <= cat.entries.Keys && IsOrdering(all, ids, NotAfter(cat, col))
    requires 0 !in ids && finalCondition == Compare(EId, Eq, |ctx.args|)
    requires ctx.args != [] && ctx.args[|ctx.args| - 1] == IntVal(entryID) && E in ctx.scope
    ensures NextOrZero(cat, ids, col, entryID, nextID) && PrevOrZero(cat, ids, col, entryID, prevID)
  {
    prevID, nextID := 0, 0;
    var i := 0;
    while i < |all|
      invariant 0 <= i <= |all|
      invariant forall k :: 0 <= k < i ==> all[k] != entryID
    {
      assert all[i] in ids;
      LastArgumentSelects(cat, ctx, entryID, all[i]);
      if EvalAtom(finalCondition, ctx, RowOf(cat, all[i])) == Some(true) {
        NeighboursInOrder(cat, ids, col, all, i);
        if i > 0 { prevID := all[i - 1]; }
        if i + 1 < |all| { nextID := all[i + 1]; }
        return;
      }
      i := i + 1;
    }
  }

  // ----- One strict total order -----

  lemma PrecedesIsStrictTotal(cat: Catalog, col: SortColumn, a: int, b: int, c: int)
    requires Consistent(cat)
    ensures !Before(cat, col, a, a)
    ensures Before(cat, col, a, b) && Before(cat, col, b, c) ==> Before(cat, col, a, c)
    ensures a in cat.entries && b in cat.entries && a != b ==> Before(cat, col, a, b) != Before(cat, col, b, a)
  {
  }

  lemma PrecedesIsWeakOrder(col: SortColumn, a: EntryCols, b: EntryCols, c: EntryCols)
    ensures !Precedes(col, a, b) || !Precedes(col, b, a)
    ensures !Precedes(col, b, a) && !Precedes(col, c, b) ==> !Precedes(col, c, a)
  {
  }

  lemma NotAfterIsPreorder(cat: Catalog, col: SortColumn)
    ensures TotalPreorder(NotAfter(cat, col))
  {
    forall a, b, c
      ensures !Before(cat, col, a, b) || !Before(cat, col, b, a)
      ensures !Before(cat, col, b, a) && !Before(cat, col, c, b) ==> !Before(cat, col, c, a)
    {
      PrecedesIsWeakOrder(col, RowOf(cat, a).e, RowOf(cat, b).e, RowOf(cat, c).e);
    }
  }

  ghost predicate StrictlySorted(cat: Catalog, col: SortColumn, all: seq<int>) {
    forall i, j :: 0 <= i < j < |all| ==> Before(cat, col, all[i], all[j])
  }

  lemma SortedIsStrict(cat: Catalog, ids: set<int>, col: SortColumn, all: seq<int>)
    requires Consistent(cat) && ids <= cat.entries.Keys && IsOrdering(all, ids, NotAfter(cat, col))
    ensures StrictlySorted(cat, col, all)
  {
    EnumerationIsDistinct(all, ids);
    forall i, j | 0 <= i < j < |all| ensures Before(cat, col, all[i], all[j]) {
      assert all[i] in ids && all[j] in ids && NotAfter(cat, col)(all[i], all[j]);
      PrecedesIsStrictTotal(cat, col, all[i], all[j], all[i]);
    }
  }

  /** What comes after an element is found behind it. */
  lemma AfterIsLater(cat: Catalog, ids: set<int>, col: SortColumn, all: seq<int>, i: nat, c: int) returns (k: nat)
    requires Consistent(cat) && Enumerates(all, ids) && StrictlySorted(cat, col, all) && i < |all| && c in ids
    requires Before(cat, col, all[i], c)
    ensures i < k < |all| && all[k] == c
  {
    k :| 0 <= k < |all| && all[k] == c;
    PrecedesIsStrictTotal(cat, col, c, all[i], c);
  }

  lemma ConsecutiveAreNeighbours(cat: Catalog, ids: set<int>, col: SortColumn, all: seq<int>, i: nat)
    requires Consistent(cat) && Enumerates(all, ids) && StrictlySorted(cat, col, all) && i + 1 < |all|
    ensures IsNext(cat, ids, col, all[i], all[i + 1])
  {
    forall c | c in ids && Before(cat, col, all[i], c) ensures c == all[i + 1] || Before(cat, col, all[i + 1], c) {
      var k := AfterIsLater(cat, ids, col, all, i, c);
    }
    assert all[i] in all && all[i + 1] in all;
  }

  lemma NothingBeyondTheEnds(cat: Catalog, ids: set<int>, col: SortColumn, all: seq<int>)
    requires Consistent(cat) && Enumerates(all, ids) && StrictlySorted(cat, col, all) && all != []
    ensures forall c :: c in ids ==> !Before(cat, col, c, all[0]) && !Before(cat, col, all[|all| - 1], c)
  {
    forall c | c in ids ensures !Before(cat, col, c, all[0]) && !Before(cat, col, all[|all| - 1], c) {
      var k :| 0 <= k < |all| && all[k] == c;
      PrecedesIsStrictTotal(cat, col, c, all[0], c);
      PrecedesIsStrictTotal(cat, col, c, all[|all| - 1], c);
    }
  }

  /** Lag and lead over the ordered rows are the neighbours in the order. */
  lemma NeighboursInOrder(cat: Catalog, ids: set<int>, col: SortColumn, all: seq<int>, i: nat)
    requires Consistent(cat) && ids <= cat.entries.Keys && IsOrdering(all, ids, NotAfter(cat, col)) && i < |all|
    ensures i > 0 ==> IsNext(cat, ids, col, all[i - 1], all[i])
    ensures i == 0 ==> forall c :: c in ids ==> !Before(cat, col, c, all[i])
    ensures i + 1 < |all| ==> IsNext(cat, ids, col, all[i], all[i + 1])
    ensures i + 1 == |all| ==> forall c :: c in ids ==> !Before(cat, col, all[i], c)
  {
    SortedIsStrict(cat, ids, col, all);
    NothingBeyondTheEnds(cat, ids, col, all);
    if i > 0 { ConsecutiveAreNeighbours(cat, ids, col, all, i - 1); }
    if i + 1 < |all| { ConsecutiveAreNeighbours(cat, ids, col, all, i); }
  }

  /** Next and previous are partial functions and inverse to one another. */
  lemma NeighboursAreUnique(cat: Catalog, ids: set<int>, col: SortColumn, a: int, b: int, c: int)
    requires Consistent(cat) && ids <= cat.entries.Keys
    ensures IsNext(cat, ids, col, a, b) && IsNext(cat, ids, col, a, c) ==> b == c
    ensures IsNext(cat, ids, col, b, a) && IsNext(cat, ids, col, c, a) ==> b == c
  {
    PrecedesIsStrictTotal(cat, col, b, c, b);
    PrecedesIsStrictTotal(cat, col, a, b, a);
    PrecedesIsStrictTotal(cat, col, a, c, a);
  }

  /** Following next from one entry leads back by previous: what one call reports as next
      reports the first entry as its previous one. */
  lemma NextThenPrevReturns(cat: Catalog, ids: set<int>, col: SortColumn, a: int, next: int, back: int)
    requires Consistent(cat) && ids <= cat.entries.Keys && 0 !in cat.entries
    requires NextOrZero(cat, ids, col, a, next) && next != 0 && PrevOrZero(cat, ids, col, next, back)
    ensures back == a
  {
    if back != 0 {
      NeighboursAreUnique(cat, ids, col, next, a, back);
    }
  }

  /** The calls that handlers chain on this builder. */
  predicate IsPaginationFilter(f: Filter) {
    || f.SearchQuery? || f == Starred(true) || f.FeedID? || f.CategoryID? || f.Status?
    || f.StatusOrEntryID? || f.Tags? || f.GloballyVisible?
  }

  method Call(builder: EntryPaginationBuilder, f: Filter)
    requires builder.Valid() && IsPaginationFilter(f)
    modifies builder`args, builder`conditions, builder`filters
    ensures builder.Valid() && builder.filters == old(builder.filters) + [f]
  {
    match f
    case SearchQuery(q) => builder.WithSearchQuery(q);
    case FeedID(id) => builder.WithFeedID(id);
    case CategoryID(id) => builder.WithCategoryID(id);
    case Status(s) => builder.WithStatus(s);
    case StatusOrEntryID(s, id) => builder.WithStatusOrEntryID(s, id);
    case Tags(tags) => builder.WithTags(tags);
    case GloballyVisible => builder.WithGloballyVisible();
    case Starred(_) => builder.WithStarred();
  }

  method Apply(builder: EntryPaginationBuilder, calls: seq<Filter>)
    requires builder.Valid() && forall f :: f in calls ==> IsPaginationFilter(f)
    modifies builder`args, builder`conditions, builder`filters
    ensures builder.Valid() && builder.filters == old(builder.filters) + calls
  {
    ghost var start := builder.filters;
    for i := 0 to |calls|
      invariant builder.Valid() && builder.filters == start + calls[..i]
    {
      Call(builder, calls[i]);
      OneMore(start, calls, i);
    }
    assert calls[..|calls|] == calls;
  }

  lemma OneMore<T>(start: seq<T>, calls: seq<T>, i: nat)
    requires i < |calls|
    ensures start + calls[..i + 1] == (start + calls[..i]) + [calls[i]]
  {
  }

  ghost predicate OnwardNext(cat: Catalog, ids: set<int>, col: SortColumn, direction: string, a: int, b: int) {
    if direction == "desc" then IsNext(cat, ids, col, b, a) else IsNext(cat, ids, col, a, b)
  }

  /** One request: the entry that the page of the current one links to as next. */
  method ShowNext(cat: Catalog, now: int, userID: int, calls: seq<Filter>, order: SortColumn, direction: string,
                  current: int)
    returns (next: Option<int>)
    requires Consistent(cat) && 0 !in cat.entries
    requires forall f :: f in calls ==> IsPaginationFilter(f)
    requires current in Matching(cat, [EntryOwner(userID)] + calls, now)
    ensures var ids := Matching(cat, [EntryOwner(userID)] + calls, now);
            match next
            case None => forall c :: c in ids ==> !Onward(cat, order, direction, current, c)
            case Some(id) => OnwardNext(cat, ids, order, direction, current, id)
  {
    var builder := new EntryPaginationBuilder(userID, current, order, direction);
    Apply(builder, calls);
    var prev;
    prev, next := builder.Entries(cat, now);
  }

  /** The chain that "next" links follow from its first entry: in an ascending list from the
      least matching entry, in a descending one from the greatest. Every matching entry comes
      up exactly once, in the order of the list, and the chain stops. */
  method FollowNext(cat: Catalog, now: int, userID: int, calls: seq<Filter>, order: SortColumn, direction: string,
                    start: int)
    returns (chain: seq<int>)
    requires Consistent(cat) && 0 !in cat.entries
    requires forall f :: f in calls ==> IsPaginationFilter(f)
    requires start in Matching(cat, [EntryOwner(userID)] + calls, now)
    requires forall c :: c in Matching(cat, [EntryOwner(userID)] + calls, now) ==> !Onward(cat, order, direction, c, start)
    ensures Enumerates(chain, Matching(cat, [EntryOwner(userID)] + calls, now))
    ensures IsChain(cat, order, direction, chain)
    ensures InListOrder(cat, order, direction, chain)
  {
    ghost var ids := Matching(cat, [EntryOwner(userID)] + calls, now);
    chain := [start];
    var current := start;
    var more := true;
    ghost var visited := {start};
    ChainStarts(cat, order, direction, ids, start);
    while more
      invariant Following(cat, order, direction, ids, visited, chain, current)
      invariant !more ==> visited == ids
      decreases |ids - visited|, if more then 1 else 0
    {
      var next := ShowNext(cat, now, userID, calls, order, direction, current);
      match next {
        case None =>
          LastHasNoNext(cat, order, direction, ids, visited, current);
          more := false;
        case Some(id) =>
          ChainGrows(cat, order, direction, ids, visited, chain, current, id);
          chain := chain + [id];
          visited := visited + {id};
          current := id;
      }
    }
    forall i | 0 <= i < |chain| ensures chain[i] in cat.entries {
      assert chain[i] in ids;
    }
    ChainInColumns(cat, order, direction, chain);
  }

  /** The descending list is exactly the ascending one reversed. */
  lemma DescendingIsReversed(cat: Catalog, ids: set<int>, col: SortColumn, up: seq<int>, down: seq<int>)
    requires Consistent(cat) && ids <= cat.entries.Keys
    requires Enumerates(up, ids) && IsChain(cat, col, "asc", up)
    requires Enumerates(down, ids) && IsChain(cat, col, "desc", down)
    ensures |down| == |up| && forall i :: 0 <= i < |up| ==> down[i] == up[|up| - 1 - i]
  {
    var reversed := seq(|down|, i requires 0 <= i < |down| => down[|down| - 1 - i]);
    ReversedEnumerates(down, ids, reversed);
    NotAfterIsPreorder(cat, col);
    forall i, j | 0 <= i < j < |up| ensures NotAfter(cat, col)(up[i], up[j]) {
      assert Onward(cat, col, "asc", up[i], up[j]);
      PrecedesIsStrictTotal(cat, col, up[i], up[j], up[i]);
    }
    forall i, j | 0 <= i < j < |reversed| ensures NotAfter(cat, col)(reversed[i], reversed[j]) {
      assert Onward(cat, col, "desc", down[|down| - 1 - j], down[|down| - 1 - i]);
      PrecedesIsStrictTotal(cat, col, reversed[i], reversed[j], reversed[i]);
    }
    forall a, b | a in ids && b in ids && NotAfter(cat, col)(a, b) && NotAfter(cat, col)(b, a) ensures a == b {
      PrecedesIsStrictTotal(cat, col, a, b, a);
    }
    OrderingIsUnique(up, reversed, ids, NotAfter(cat, col));
    forall i | 0 <= i < |up| ensures down[i] == up[|up| - 1 - i] {
      assert reversed[|down| - 1 - i] == down[i];
    }
  }

  lemma ReversedEnumerates(down: seq<int>, ids: set<int>, reversed: seq<int>)
    requires Enumerates(down, ids) && |reversed| == |down|
    requires forall i :: 0 <= i < |down| ==> reversed[i] == down[|down| - 1 - i]
    ensures Enumerates(reversed, ids)
  {
    forall x ensures x in reversed <==> x in down {
      if x in down {
        var i :| 0 <= i < |down| && down[i] == x;
        assert reversed[|down| - 1 - i] == x;
      }
    }
  }

  ghost predicate AllOnward(cat: Catalog, col: SortColumn, direction: string, rest: set<int>, current: int) {
    forall c :: c in rest ==> Onward(cat, col, direction, current, c)
  }

  /** The chain so far: some of the entries, in the order of the list, before all others. */
  ghost predicate Following(cat: Catalog, col: SortColumn, direction: string, ids: set<int>, visited: set<int>,
                            chain: seq<int>, current: int)
  {
    && visited <= ids && Enumerates(chain, visited) && chain != [] && chain[|chain| - 1] == current
    && IsChain(cat, col, direction, chain) && AllOnward(cat, col, direction, ids - visited, current)
  }

  lemma ChainStarts(cat: Catalog, col: SortColumn, direction: string, ids: set<int>, start: int)
    requires Consistent(cat) && ids <= cat.entries.Keys && start in ids
    requires forall c :: c in ids ==> !Onward(cat, col, direction, c, start)
    ensures Following(cat, col, direction, ids, {start}, [start], start)
  {
    forall c | c in ids && c != start ensures Onward(cat, col, direction, start, c) {
      PrecedesIsStrictTotal(cat, col, c, start, c);
    }
  }

  lemma LastHasNoNext(cat: Catalog, col: SortColumn, direction: string, ids: set<int>, visited: set<int>, current: int)
    requires visited <= ids && AllOnward(cat, col, direction, ids - visited, current)
    requires forall c :: c in ids ==> !Onward(cat, col, direction, current, c)
    ensures visited == ids
  {
    forall c | c in ids ensures c in visited {
      assert c !in visited ==> c in ids - visited;
    }
  }

  /** c comes later than a in the list as shown. */
  ghost predicate Onward(cat: Catalog, col: SortColumn, direction: string, a: int, c: int) {
    if direction == "desc" then Before(cat, col, c, a) else Before(cat, col, a, c)
  }

  ghost predicate IsChain(cat: Catalog, col: SortColumn, direction: string, chain: seq<int>) {
    forall i, j :: 0 <= i < j < |chain| ==> Onward(cat, col, direction, chain[i], chain[j])
  }

  lemma OnwardIsStrictOrder(cat: Catalog, col: SortColumn, direction: string, a: int, b: int, c: int)
    ensures !Onward(cat, col, direction, a, a)
    ensures Onward(cat, col, direction, a, b) && Onward(cat, col, direction, b, c) ==> Onward(cat, col, direction, a, c)
  {
  }

  lemma OnwardExtendsChain(cat: Catalog, col: SortColumn, direction: string, chain: seq<int>, id: int)
    requires chain != [] && IsChain(cat, col, direction, chain) && Onward(cat, col, direction, chain[|chain| - 1], id)
    ensures IsChain(cat, col, direction, chain + [id]) && id !in chain
  {
    forall i | 0 <= i < |chain| ensures Onward(cat, col, direction, chain[i], id) && chain[i] != id {
      OnwardIsStrictOrder(cat, col, direction, chain[i], chain[|chain| - 1], id);
      OnwardIsStrictOrder(cat, col, direction, id, id, id);
    }
  }

  lemma ChainGrows(cat: Catalog, col: SortColumn, direction: string, ids: set<int>, visited: set<int>,
                   chain: seq<int>, current: int, id: int)
    requires Consistent(cat) && ids <= cat.entries.Keys
    requires Following(cat, col, direction, ids, visited, chain, current)
    requires OnwardNext(cat, ids, col, direction, current, id)
    ensures Following(cat, col, direction, ids, visited + {id}, chain + [id], id)
    ensures |ids - (visited + {id})| < |ids - visited|
  {
    NextIsNearest(cat, col, direction, ids, current, id);
    OnwardExtendsChain(cat, col, direction, chain, id);
    EnumeratesMore(chain, visited, id);
    assert ids - visited == ids - (visited + {id}) + {id};
    forall c | c in ids - (visited + {id}) ensures Onward(cat, col, direction, id, c) {
      assert c in ids - visited && Onward(cat, col, direction, current, c);
    }
  }

  lemma NextIsNearest(cat: Catalog, col: SortColumn, direction: string, ids: set<int>, current: int, id: int)
    requires Consistent(cat) && ids <= cat.entries.Keys
    requires OnwardNext(cat, ids, col, direction, current, id)
    ensures id in ids && Onward(cat, col, direction, current, id)
    ensures forall c :: c in ids && c != id && Onward(cat, col, direction, current, c) ==> Onward(cat, col, direction, id, c)
  {
    forall c | c in ids && c != id && Onward(cat, col, direction, current, c) ensures Onward(cat, col, direction, id, c) {
      PrecedesIsStrictTotal(cat, col, c, id, c);
      PrecedesIsStrictTotal(cat, col, c, current, c);
    }
  }
}
