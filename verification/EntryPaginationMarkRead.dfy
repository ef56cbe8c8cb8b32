/** Opening an unread entry marks it read before its neighbours are looked up
    (internal/ui/entry_search.go); WithStatusOrEntryID makes up for that. */
module EntryPaginationMarkRead {
  import opened Common
  import opened SqlConditions
  import opened Filters
  import opened Catalog
  import opened EntryPagination
  import EntryTables

  /** The search queries that a document vector matches, with its ranks. */
  type Matcher = ((seq<Byte>, seq<Byte>)) -> map<string, int>

  function ColumnsOf(id: int, row: EntryTables.EntryRow, ranks: Matcher): EntryCols {
    EntryCols(id, row.userID, row.feedID, row.status, row.starred, row.changedAt,
              row.publishedAt, row.createdAt, row.shareCode, row.content.tags,
              ranks(row.document), map[])
  }

  /** The stored entries as queries see them, beside some feeds and categories. */
  function View(db: EntryTables.Db, ranks: Matcher, others: Catalog): Catalog {
    others.(entries := map id | id in db.entries :: ColumnsOf(id, db.entries[id], ranks))
  }

  /** The same after one of a user's entries has been marked read. */
  function Marked(db: EntryTables.Db, userID: int, id: int, when: int, ranks: Matcher, others: Catalog): Catalog {
    View(EntryTables.SetStatus(db, userID, {id}, READ, when), ranks, others)
  }

  /** Each column of the stored row under its own name. */
  lemma ViewShowsColumns(db: EntryTables.Db, ranks: Matcher, others: Catalog, id: int)
    ensures View(db, ranks, others).feeds == others.feeds && View(db, ranks, others).categories == others.categories
    ensures View(db, ranks, others).feedIcons == others.feedIcons
    ensures id in View(db, ranks, others).entries <==> id in db.entries
    ensures id in db.entries ==>
              var e, row := View(db, ranks, others).entries[id], db.entries[id];
              && e.id == id && e.userID == row.userID && e.feedID == row.feedID
              && e.status == row.status && e.starred == row.starred && e.shareCode == row.shareCode
              && e.publishedAt == row.publishedAt && e.createdAt == row.createdAt && e.changedAt == row.changedAt
              && e.tags == row.content.tags && e.ranks == ranks(row.document)
  {
  }

  /** Marking changes the entry's status and time of change and no other row. */
  lemma MarkedShowsRead(db: EntryTables.Db, userID: int, id: int, when: int, ranks: Matcher, others: Catalog, other: int)
    requires other in db.entries
    ensures var before, after := View(db, ranks, others), Marked(db, userID, id, when, ranks, others);
            && other in after.entries
            && after.entries[other] ==
               if other == id && db.entries[id].userID == userID
               then before.entries[other].(status := "read", changedAt := when) else before.entries[other]
  {
  }

  /** A call that does not look at the status or at changed_at. */
  predicate IgnoresStatus(f: Filter) {
    IsPaginationFilter(f) && !f.Status? && !f.StatusOrEntryID?
  }

  /** Rows that differ at most in status and changed_at. */
  predicate SameButStatus(a: EntryCols, b: EntryCols) {
    a == b.(status := a.status, changedAt := a.changedAt)
  }

  lemma StatusDoesNotMatter(calls: seq<Filter>, now: int, a: Row, b: Row)
    requires forall f :: f in calls ==> f.EntryOwner? || IgnoresStatus(f)
    requires SameButStatus(a.e, b.e) && a.f == b.f && a.c == b.c
    ensures AllHold(calls, now, a) <==> AllHold(calls, now, b)
  {
    assert forall f :: f in calls ==> (Holds(f, now, a) <==> Holds(f, now, b));
  }

  lemma AllHoldSnoc(fs: seq<Filter>, f: Filter, now: int, row: Row)
    ensures AllHold(fs + [f], now, row) <==> AllHold(fs, now, row) && Holds(f, now, row)
  {
    assert forall g :: g in fs + [f] <==> g in fs || g == f;
  }

  lemma MarkedColumns(db: EntryTables.Db, userID: int, id: int, when: int, ranks: Matcher, other: int)
    requires other in db.entries
    ensures var db' := EntryTables.SetStatus(db, userID, {id}, READ, when);
            && db'.entries.Keys == db.entries.Keys
            && SameButStatus(ColumnsOf(other, db.entries[other], ranks), ColumnsOf(other, db'.entries[other], ranks))
            && (other != id ==> db'.entries[other] == db.entries[other])
  {
  }

  /** Tables that differ at most in the status of some entries join them to the same rows. */
  lemma SameRowButStatus(before: Catalog, after: Catalog, other: int)
    requires after == before.(entries := after.entries) && before.entries.Keys == after.entries.Keys
    requires other in before.entries ==> SameButStatus(before.entries[other], after.entries[other])
    ensures SameButStatus(RowOf(before, other).e, RowOf(after, other).e)
    ensures RowOf(before, other).f == RowOf(after, other).f && RowOf(before, other).c == RowOf(after, other).c
    ensures (other in before.entries ==> before.entries[other] == after.entries[other]) ==>
              RowOf(before, other) == RowOf(after, other)
  {
  }

  lemma MarkedView(db: EntryTables.Db, userID: int, id: int, when: int, ranks: Matcher, others: Catalog, other: int)
    ensures var before, after := View(db, ranks, others), Marked(db, userID, id, when, ranks, others);
            && before.entries.Keys == after.entries.Keys
            && SameButStatus(RowOf(before, other).e, RowOf(after, other).e)
            && RowOf(before, other).f == RowOf(after, other).f && RowOf(before, other).c == RowOf(after, other).c
            && (other != id ==> RowOf(before, other) == RowOf(after, other))
  {
    var before, after := View(db, ranks, others), Marked(db, userID, id, when, ranks, others);
    if other in db.entries { MarkedColumns(db, userID, id, when, ranks, other); }
    SameRowButStatus(before, after, other);
  }

  lemma KeptRowPasses(fs: seq<Filter>, id: int, now: int, before: Row, after: Row)
    requires forall f :: f in fs ==> f.EntryOwner? || IgnoresStatus(f)
    requires SameButStatus(before.e, after.e) && before.f == after.f && before.c == after.c
    requires if before.e.id == id then before.e.status == UNREAD else before == after
    requires id != 0
    ensures AllHold(fs + [Status(UNREAD)], now, before) <==> AllHold(fs + [StatusOrEntryID(UNREAD, id)], now, after)
  {
    StatusDoesNotMatter(fs, now, before, after);
    AllHoldSnoc(fs, Status(UNREAD), now, before);
    AllHoldSnoc(fs, StatusOrEntryID(UNREAD, id), now, after);
  }

  /** One entry passes the filters of the unread list before exactly when it passes those of the
      other list afterwards. */
  lemma MarkedRowPasses(db: EntryTables.Db, userID: int, id: int, when: int, fs: seq<Filter>,
                        ranks: Matcher, others: Catalog, now: int, other: int)
    requires Consistent(View(db, ranks, others))
    requires id in db.entries && id != 0 && db.entries[id].userID == userID && db.entries[id].status == UNREAD
    requires (forall f :: f in fs ==> f.EntryOwner? || IgnoresStatus(f)) && other in db.entries
    ensures var before, after := View(db, ranks, others), Marked(db, userID, id, when, ranks, others);
            AllHold(fs + [Status(UNREAD)], now, RowOf(before, other))
            <==> AllHold(fs + [StatusOrEntryID(UNREAD, id)], now, RowOf(after, other))
  {
    var before, after := View(db, ranks, others), Marked(db, userID, id, when, ranks, others);
    MarkedView(db, userID, id, when, ranks, others, other);
    assert Joins(before, other) && RowOf(before, other).e == before.entries[other];
    KeptRowPasses(fs, id, now, RowOf(before, other), RowOf(after, other));
  }

  /** The entries that the list of unread entries pages through before the entry is marked are
      those that the list with the entry kept in pages through afterwards. */
  lemma MarkingReadKeepsMatches(db: EntryTables.Db, userID: int, id: int, when: int, calls: seq<Filter>,
                                ranks: Matcher, others: Catalog, now: int)
    requires Consistent(View(db, ranks, others))
    requires id in db.entries && id != 0 && db.entries[id].userID == userID && db.entries[id].status == UNREAD
    requires forall f :: f in calls ==> IgnoresStatus(f)
    ensures var fs := [EntryOwner(userID)] + calls;
            Matching(View(db, ranks, others), fs + [Status(UNREAD)], now)
            == Matching(Marked(db, userID, id, when, ranks, others),
                        fs + [StatusOrEntryID(UNREAD, id)], now)
  {
    var fs := [EntryOwner(userID)] + calls;
    var before, after := View(db, ranks, others), Marked(db, userID, id, when, ranks, others);
    MarkedView(db, userID, id, when, ranks, others, id);
    assert forall f :: f in fs <==> f == EntryOwner(userID) || f in calls;
    forall other | other in before.entries
      ensures AllHold(fs + [Status(UNREAD)], now, RowOf(before, other))
         <==> AllHold(fs + [StatusOrEntryID(UNREAD, id)], now, RowOf(after, other))
    {
      MarkedRowPasses(db, userID, id, when, fs, ranks, others, now, other);
    }
    SameMatches(before, after, fs + [Status(UNREAD)], fs + [StatusOrEntryID(UNREAD, id)], now);
  }

  lemma SameMatches(before: Catalog, after: Catalog, fs: seq<Filter>, gs: seq<Filter>, now: int)
    requires before.entries.Keys == after.entries.Keys
    requires forall id :: id in before.entries ==> (AllHold(fs, now, RowOf(before, id)) <==> AllHold(gs, now, RowOf(after, id)))
    ensures Matching(before, fs, now) == Matching(after, gs, now)
  {
  }

  lemma SamePrecedes(col: SortColumn, a: EntryCols, a': EntryCols, b: EntryCols, b': EntryCols)
    requires col != ChangedAt && SameButStatus(a, a') && SameButStatus(b, b')
    ensures Precedes(col, a, b) <==> Precedes(col, a', b')
  {
  }

  lemma MarkingKeepsOrder(db: EntryTables.Db, userID: int, id: int, when: int, ranks: Matcher, others: Catalog,
                          col: SortColumn, a: int, b: int)
    requires col != ChangedAt
    ensures Before(View(db, ranks, others), col, a, b)
       <==> Before(Marked(db, userID, id, when, ranks, others), col, a, b)
  {
    var before, after := View(db, ranks, others), Marked(db, userID, id, when, ranks, others);
    MarkedView(db, userID, id, when, ranks, others, a);
    MarkedView(db, userID, id, when, ranks, others, b);
    SamePrecedes(col, RowOf(before, a).e, RowOf(after, a).e, RowOf(before, b).e, RowOf(after, b).e);
  }

  /** For every table, every combination of other filters and either column a user can sort by:
      the neighbours looked up after marking, with the entry kept in the list, are those that
      the unread list had before. */
  lemma MarkingReadKeepsNeighbours(db: EntryTables.Db, userID: int, id: int, when: int, calls: seq<Filter>,
                                   ranks: Matcher, others: Catalog, now: int, col: SortColumn, neighbour: int)
    requires Consistent(View(db, ranks, others))
    requires id in db.entries && id != 0 && db.entries[id].userID == userID && db.entries[id].status == UNREAD
    requires forall f :: f in calls ==> IgnoresStatus(f)
    requires col != ChangedAt
    ensures var before, after := View(db, ranks, others), Marked(db, userID, id, when, ranks, others);
            var ids := Matching(before, [EntryOwner(userID)] + calls + [Status(UNREAD)], now);
            var kept := Matching(after, [EntryOwner(userID)] + calls + [StatusOrEntryID(UNREAD, id)], now);
            && (NextOrZero(before, ids, col, id, neighbour) <==> NextOrZero(after, kept, col, id, neighbour))
            && (PrevOrZero(before, ids, col, id, neighbour) <==> PrevOrZero(after, kept, col, id, neighbour))
  {
    var before, after := View(db, ranks, others), Marked(db, userID, id, when, ranks, others);
    MarkingReadKeepsMatches(db, userID, id, when, calls, ranks, others, now);
    forall a, b ensures Before(before, col, a, b) <==> Before(after, col, a, b) {
      MarkingKeepsOrder(db, userID, id, when, ranks, others, col, a, b);
    }
    var ids := Matching(before, [EntryOwner(userID)] + calls + [Status(UNREAD)], now);
    SameOrderSameNeighbours(before, after, ids, col, id, neighbour);
  }

  lemma SameOrderSameNeighbours(before: Catalog, after: Catalog, ids: set<int>, col: SortColumn, id: int, neighbour: int)
    requires forall a, b :: a in ids && b in ids ==> (Before(before, col, a, b) <==> Before(after, col, a, b))
    ensures NextOrZero(before, ids, col, id, neighbour) <==> NextOrZero(after, ids, col, id, neighbour)
    ensures PrevOrZero(before, ids, col, id, neighbour) <==> PrevOrZero(after, ids, col, id, neighbour)
  {
  }

  // ----- Lists sorted by the time of the last change -----

  ghost predicate SameNeighbours(one: Catalog, two: Catalog, ids: set<int>, col: SortColumn, id: int) {
    forall n ::
      && (NextOrZero(one, ids, col, id, n) <==> NextOrZero(two, ids, col, id, n))
      && (PrevOrZero(one, ids, col, id, n) <==> PrevOrZero(two, ids, col, id, n))
  }

  /** The orders of two tables differ at most in the place of one entry. */
  ghost predicate SameElsewhere(one: Catalog, two: Catalog, ids: set<int>, col: SortColumn, id: int) {
    forall a, b :: a in ids && b in ids && a != id && b != id ==> (Before(one, col, a, b) <==> Before(two, col, a, b))
  }

  ghost predicate SamePlace(one: Catalog, two: Catalog, ids: set<int>, col: SortColumn, id: int) {
    forall c :: c in ids ==> (Before(one, col, id, c) <==> Before(two, col, id, c))
  }

  /** The nearest of the entries that come after a. */
  lemma {:induction false} NextExists(cat: Catalog, ids: set<int>, col: SortColumn, a: int, c: int) returns (next: int)
    requires Consistent(cat) && ids <= cat.entries.Keys && a in ids && c in ids && Before(cat, col, a, c)
    ensures IsNext(cat, ids, col, a, next)
    decreases set x | x in ids && Before(cat, col, a, x) && Before(cat, col, x, c)
  {
    if IsNext(cat, ids, col, a, c) {
      next := c;
    } else {
      var d :| d in ids && Before(cat, col, a, d) && d != c && !Before(cat, col, c, d);
      PrecedesIsStrictTotal(cat, col, d, c, d);
      Closer(cat, ids, col, a, d, c);
      next := NextExists(cat, ids, col, a, d);
    }
  }

  lemma Closer(cat: Catalog, ids: set<int>, col: SortColumn, a: int, d: int, c: int)
    requires Consistent(cat) && d in ids && Before(cat, col, a, d) && Before(cat, col, d, c)
    ensures (set x | x in ids && Before(cat, col, a, x) && Before(cat, col, x, d))
          < (set x | x in ids && Before(cat, col, a, x) && Before(cat, col, x, c))
  {
    PrecedesIsStrictTotal(cat, col, d, d, d);
    forall x | x in ids && Before(cat, col, x, d) ensures Before(cat, col, x, c) {
      PrecedesIsStrictTotal(cat, col, x, d, c);
    }
    var nearer := set x | x in ids && Before(cat, col, a, x) && Before(cat, col, x, d);
    var near := set x | x in ids && Before(cat, col, a, x) && Before(cat, col, x, c);
    assert nearer <= near && d in near && d !in nearer;
  }

  /** With the same next entry, what came after the entry still does. */
  lemma SameNextKeepsLater(one: Catalog, two: Catalog, ids: set<int>, col: SortColumn, id: int, c: int)
    requires Consistent(one) && Consistent(two) && one.entries.Keys == two.entries.Keys && 0 !in one.entries
    requires ids <= one.entries.Keys && id in ids && c in ids && SameElsewhere(one, two, ids, col, id)
    requires SameNeighbours(one, two, ids, col, id)
    requires Before(one, col, id, c)
    ensures Before(two, col, id, c)
  {
    var next := NextExists(one, ids, col, id, c);
    assert NextOrZero(one, ids, col, id, next);
    assert NextOrZero(two, ids, col, id, next);
    PrecedesIsStrictTotal(one, col, id, id, id);
    if next != c {
      assert Before(one, col, next, c);
      PrecedesIsStrictTotal(two, col, id, next, c);
    }
  }

  /** One entry may move among the others without a change of neighbours exactly when it stays
      between the same ones. */
  lemma SameNeighboursExactlyWhen(one: Catalog, two: Catalog, ids: set<int>, col: SortColumn, id: int)
    requires Consistent(one) && Consistent(two) && one.entries.Keys == two.entries.Keys && 0 !in one.entries
    requires ids <= one.entries.Keys && SameElsewhere(one, two, ids, col, id)
    ensures SameNeighbours(one, two, ids, col, id) <==> id !in ids || SamePlace(one, two, ids, col, id)
  {
    if id in ids {
      if SameNeighbours(one, two, ids, col, id) {
        forall c | c in ids ensures Before(one, col, id, c) <==> Before(two, col, id, c) {
          if Before(one, col, id, c) { SameNextKeepsLater(one, two, ids, col, id, c); }
          if Before(two, col, id, c) { SameNextKeepsLater(two, one, ids, col, id, c); }
        }
      }
      if SamePlace(one, two, ids, col, id) {
        SamePlaceSameOrder(one, two, ids, col, id);
        forall n { SameOrderSameNeighbours(one, two, ids, col, id, n); }
      }
    }
  }

  lemma SamePlaceSameOrder(one: Catalog, two: Catalog, ids: set<int>, col: SortColumn, id: int)
    requires Consistent(one) && Consistent(two) && one.entries.Keys == two.entries.Keys
    requires ids <= one.entries.Keys && id in ids && SameElsewhere(one, two, ids, col, id) && SamePlace(one, two, ids, col, id)
    ensures forall a, b :: a in ids && b in ids ==> (Before(one, col, a, b) <==> Before(two, col, a, b))
  {
    forall a, b | a in ids && b in ids ensures Before(one, col, a, b) <==> Before(two, col, a, b) {
      if b == id && a != id {
        PrecedesIsStrictTotal(one, col, a, id, a);
        PrecedesIsStrictTotal(two, col, a, id, a);
        assert Before(one, col, id, a) <==> Before(two, col, id, a);
      }
    }
  }

  /** An entry changed at some time comes before another one of the table. */
  predicate ChangedBefore(db: EntryTables.Db, id: int, time: int, c: int)
    requires id in db.entries && c in db.entries
  {
    var a, b := db.entries[id], db.entries[c];
    || time < b.changedAt
    || (time == b.changedAt && (a.createdAt < b.createdAt || (a.createdAt == b.createdAt && id > c)))
  }

  lemma PlaceByChangeTime(db: EntryTables.Db, userID: int, id: int, when: int, ranks: Matcher, others: Catalog, c: int)
    requires Consistent(View(db, ranks, others))
    requires id in db.entries && db.entries[id].userID == userID && c in db.entries && c != id
    ensures Before(View(db, ranks, others), ChangedAt, id, c) <==> ChangedBefore(db, id, db.entries[id].changedAt, c)
    ensures Before(Marked(db, userID, id, when, ranks, others), ChangedAt, id, c) <==> ChangedBefore(db, id, when, c)
  {
    var before, after := View(db, ranks, others), Marked(db, userID, id, when, ranks, others);
    JoinedRow(before, id);
    JoinedRow(before, c);
    MarkedIsConsistent(db, userID, id, when, ranks, others);
    JoinedRow(after, id);
    JoinedRow(after, c);
  }

  lemma JoinedRow(cat: Catalog, id: int)
    requires Consistent(cat) && id in cat.entries
    ensures RowOf(cat, id).e == cat.entries[id]
  {
  }

  lemma MarkedIsConsistent(db: EntryTables.Db, userID: int, id: int, when: int, ranks: Matcher, others: Catalog)
    requires Consistent(View(db, ranks, others))
    ensures Consistent(Marked(db, userID, id, when, ranks, others))
  {
  }

  lemma OthersStay(db: EntryTables.Db, userID: int, id: int, when: int, ranks: Matcher, others: Catalog, ids: set<int>)
    ensures SameElsewhere(View(db, ranks, others), Marked(db, userID, id, when, ranks, others), ids, ChangedAt, id)
  {
    var before, after := View(db, ranks, others), Marked(db, userID, id, when, ranks, others);
    forall a, b | a in ids && b in ids && a != id && b != id
      ensures Before(before, ChangedAt, a, b) <==> Before(after, ChangedAt, a, b)
    {
      MarkedView(db, userID, id, when, ranks, others, a);
      MarkedView(db, userID, id, when, ranks, others, b);
    }
  }

  /** A list sorted by changed_at, as the history is, has no such luck: marking at some time keeps
      the neighbours of the entry exactly when the same entries come after the old and the new
      time of change. */
  lemma MarkingReadKeepsNeighboursByChangeTimeExactlyWhen(
      db: EntryTables.Db, userID: int, id: int, when: int, ranks: Matcher, others: Catalog, ids: set<int>)
    requires Consistent(View(db, ranks, others)) && 0 !in db.entries && ids <= db.entries.Keys
    requires id in db.entries && db.entries[id].userID == userID
    ensures var before, after := View(db, ranks, others), Marked(db, userID, id, when, ranks, others);
            SameNeighbours(before, after, ids, ChangedAt, id) <==>
              || id !in ids
              || forall c :: c in ids && c != id ==>
                   (ChangedBefore(db, id, db.entries[id].changedAt, c) <==> ChangedBefore(db, id, when, c))
  {
    var before, after := View(db, ranks, others), Marked(db, userID, id, when, ranks, others);
    MarkedIsConsistent(db, userID, id, when, ranks, others);
    OthersStay(db, userID, id, when, ranks, others, ids);
    SameNeighboursExactlyWhen(before, after, ids, ChangedAt, id);
    PrecedesIsStrictTotal(before, ChangedAt, id, id, id);
    PrecedesIsStrictTotal(after, ChangedAt, id, id, id);
    forall c | c in ids && c != id
      ensures Before(before, ChangedAt, id, c) <==> ChangedBefore(db, id, db.entries[id].changedAt, c)
      ensures Before(after, ChangedAt, id, c) <==> ChangedBefore(db, id, when, c)
    {
      PlaceByChangeTime(db, userID, id, when, ranks, others, c);
    }
  }

  /** Marked later than anything else has changed, the entry keeps its neighbours exactly when it
      had no next entry to begin with. */
  lemma MarkedEntryComesLastByChangeTime(db: EntryTables.Db, userID: int, id: int, when: int, ranks: Matcher,
                                         others: Catalog,
                                         ids: set<int>)
    requires Consistent(View(db, ranks, others)) && 0 !in db.entries && ids <= db.entries.Keys
    requires id in ids && db.entries[id].userID == userID
    requires forall c :: c in ids && c != id ==> db.entries[c].changedAt < when
    ensures var before, after := View(db, ranks, others), Marked(db, userID, id, when, ranks, others);
            && NextOrZero(after, ids, ChangedAt, id, 0)
            && (SameNeighbours(before, after, ids, ChangedAt, id) <==> NextOrZero(before, ids, ChangedAt, id, 0))
  {
    var before, after := View(db, ranks, others), Marked(db, userID, id, when, ranks, others);
    MarkingReadKeepsNeighboursByChangeTimeExactlyWhen(db, userID, id, when, ranks, others, ids);
    MarkedIsConsistent(db, userID, id, when, ranks, others);
    PrecedesIsStrictTotal(before, ChangedAt, id, id, id);
    PrecedesIsStrictTotal(after, ChangedAt, id, id, id);
    forall c | c in ids && c != id
      ensures Before(before, ChangedAt, id, c) <==> ChangedBefore(db, id, db.entries[id].changedAt, c)
      ensures !Before(after, ChangedAt, id, c)
    {
      PlaceByChangeTime(db, userID, id, when, ranks, others, c);
    }
  }
}
