/** Keyset paging of the Fever API by max_id (internal/fever/handler.go). */
module FeverPaging {
  import opened Common
  import opened Ordering
  import opened SqlConditions
  import opened Filters
  import opened Catalog
  import opened EntryQueries

  const PAGE_SIZE := 50

  /** The id column of a page of result rows. */
  function Ids(rows: seq<(int, Option<int>)>): seq<int> { seq(|rows|, i requires 0 <= i < |rows| => rows[i].0) }

  /** A page of the result: one of its orderings by id, cut off. */
  ghost predicate IsPage(cat: Catalog, userID: int, maxID: int, page: seq<int>) {
    exists all :: IsResult(cat, userID, maxID, all) && page == Ids(Window(all, PAGE_SIZE, 0))
  }

  ghost predicate IsResult(cat: Catalog, userID: int, maxID: int, all: seq<(int, Option<int>)>) {
    IsOrdering(all, ResultRows(cat, Below(cat, userID, maxID)), ResultOrder(cat, [ByColumn("id", true)]))
  }

  /** The calls of the max_id branch: 0 asks for the most recent items, otherwise for those
      below maxID. */
  method BuildQuery(userID: int, maxID: int) returns (builder: EntryQueryBuilder)
    requires maxID >= 0
    ensures fresh(builder) && builder.Valid()
    ensures builder.filters == [EntryOwner(userID)] + if maxID != 0 then [BeforeEntryID(maxID)] else []
    ensures builder.sorting == [ByColumn("id", true)] && builder.limit == PAGE_SIZE && builder.offset == 0
  {
    builder := new EntryQueryBuilder(userID);
    builder.WithLimit(PAGE_SIZE);
    LowerDesc();
    if maxID == 0 {
      builder.WithSorting("id", "DESC");
    } else if maxID > 0 {
      builder.BeforeEntryID(maxID);
      builder.WithSorting("id", "DESC");
    }
  }

  method HandleItems(cat: Catalog, now: int, userID: int, maxID: int) returns (ids: seq<int>)
    requires maxID >= 0
    ensures IsPage(cat, userID, maxID, ids)
    ensures |ids| <= 50
    ensures Consistent(cat) && (forall id :: id in cat.entries ==> id > 0) ==> PageOk(cat, userID, maxID, ids)
    ensures Consistent(cat) && |ids| < 50 ==>
              forall id :: id in cat.entries && cat.entries[id].userID == userID && (maxID == 0 || id < maxID) ==> id in ids
  {
    var builder := BuildQuery(userID, maxID);
    assert builder.filters[0] == EntryOwner(userID) && !NoOp(EntryOwner(userID));
    MatchingIsBelow(cat, now, userID, maxID, builder.filters);
    var page := builder.GetEntries(cat, now);
    ids := Ids(page.value);
    ghost var all :|
      && IsOrdering(all, ResultRows(cat, Below(cat, userID, maxID)), ResultOrder(cat, [ByColumn("id", true)]))
      && IsPageOf(page.value, all, PAGE_SIZE, 0);
    WindowIsPage(page.value, all, PAGE_SIZE, 0);
    assert IsPage(cat, userID, maxID, ids);
    if Consistent(cat) {
      ShortPageIsAll(cat, userID, maxID, all, ids);
      if forall id :: id in cat.entries ==> id > 0 {
        PageFacts(cat, userID, maxID, ids);
      }
    }
  }

  /** Fewer than fifty rows are all there are. */
  lemma ShortPageIsAll(cat: Catalog, userID: int, maxID: int, all: seq<(int, Option<int>)>, page: seq<int>)
    requires Consistent(cat) && IsResult(cat, userID, maxID, all) && page == Ids(Window(all, PAGE_SIZE, 0))
    ensures |page| < 50 ==>
              forall id :: id in cat.entries && cat.entries[id].userID == userID && (maxID == 0 || id < maxID) ==> id in page
  {
    if |page| < 50 {
      forall id | id in cat.entries && cat.entries[id].userID == userID && (maxID == 0 || id < maxID) ensures id in page {
        assert id in Below(cat, userID, maxID);
        var i := HasRow(cat, userID, maxID, all, id);
        assert page[i] == id;
      }
    }
  }

  lemma LowerDesc()
    ensures Lower("DESC") == "desc"
  {
    assert "DESC"[1..] == "ESC" && "ESC"[1..] == "SC" && "SC"[1..] == "C";
    assert Lower("C") == "c" && Lower("SC") == "sc" && Lower("ESC") == "esc";
  }

  /** The user's entries with an id below maxID, or all of them when maxID is 0. */
  function Below(cat: Catalog, userID: int, maxID: int): set<int> {
    set id | id in cat.entries && RowOf(cat, id).e.userID == userID && (maxID == 0 || RowOf(cat, id).e.id < maxID)
  }

  lemma MatchingIsBelow(cat: Catalog, now: int, userID: int, maxID: int, fs: seq<Filter>)
    requires fs == [EntryOwner(userID)] + if maxID != 0 then [BeforeEntryID(maxID)] else []
    ensures Matching(cat, fs, now) == Below(cat, userID, maxID)
  {
    assert forall f :: f in fs <==> f == EntryOwner(userID) || (maxID != 0 && f == BeforeEntryID(maxID));
    forall id | id in cat.entries ensures id in Matching(cat, fs, now) <==> id in Below(cat, userID, maxID) {
      var row := RowOf(cat, id);
      assert AllHold(fs, now, row) <==>
             Holds(EntryOwner(userID), now, row) && (maxID != 0 ==> Holds(BeforeEntryID(maxID), now, row));
    }
  }

  ghost predicate OwnedAt(cat: Catalog, userID: int, id: int) {
    id in cat.entries && cat.entries[id].userID == userID
  }

  ghost predicate Descending(ids: seq<int>) { forall i, j :: 0 <= i < j < |ids| ==> ids[i] >= ids[j] }

  ghost predicate StrictlyDescending(ids: seq<int>) { forall i, j :: 0 <= i < j < |ids| ==> ids[i] > ids[j] }

  /** One page: owned ids below maxID, descending, and nothing that it leaves out is above its
      last id; an empty page means there is nothing below maxID. */
  ghost predicate PageOk(cat: Catalog, userID: int, maxID: int, page: seq<int>) {
    && (forall id :: id in page ==> OwnedAt(cat, userID, id) && id > 0 && (maxID == 0 || id < maxID))
    && Descending(page)
    && (forall id :: OwnedAt(cat, userID, id) && (maxID == 0 || id < maxID) ==>
          page != [] && (id in page || id < page[|page| - 1]))
  }

  lemma PageMembers(cat: Catalog, userID: int, maxID: int, all: seq<(int, Option<int>)>, page: seq<int>)
    requires Consistent(cat) && (forall id :: id in cat.entries ==> id > 0) && page == Ids(all[..Min(PAGE_SIZE, |all|)])
    requires forall i :: 0 <= i < |all| ==> all[i].0 in Below(cat, userID, maxID)
    requires forall i, j :: 0 <= i < j < |all| ==> all[i].0 >= all[j].0
    ensures forall id :: id in page ==> OwnedAt(cat, userID, id) && id > 0 && (maxID == 0 || id < maxID)
    ensures Descending(page)
  {
    assert forall i :: 0 <= i < |page| ==> page[i] == all[i].0;
    forall id | id in page ensures id in Below(cat, userID, maxID) && OwnedAt(cat, userID, id) {
      var i :| 0 <= i < |page| && page[i] == id;
    }
  }

  lemma PageFacts(cat: Catalog, userID: int, maxID: int, page: seq<int>)
    requires maxID >= 0 && Consistent(cat) && forall id :: id in cat.entries ==> id > 0
    requires IsPage(cat, userID, maxID, page)
    ensures PageOk(cat, userID, maxID, page)
  {
    var all :| IsResult(cat, userID, maxID, all) && page == Ids(Window(all, PAGE_SIZE, 0));
    assert Window(all, PAGE_SIZE, 0) == all[..Min(PAGE_SIZE, |all|)];
    ResultDescends(cat, userID, maxID, all);
    PageMembers(cat, userID, maxID, all, page);
    forall id | OwnedAt(cat, userID, id) && (maxID == 0 || id < maxID)
      ensures page != [] && (id in page || id < page[|page| - 1])
    {
      PageCovers(cat, userID, maxID, all, page, id);
    }
  }

  lemma ResultDescends(cat: Catalog, userID: int, maxID: int, all: seq<(int, Option<int>)>)
    requires Consistent(cat) && IsResult(cat, userID, maxID, all)
    ensures forall i :: 0 <= i < |all| ==> all[i].0 in Below(cat, userID, maxID)
    ensures forall i, j :: 0 <= i < j < |all| ==> all[i].0 >= all[j].0
  {
    forall i | 0 <= i < |all| ensures all[i].0 in Below(cat, userID, maxID) {
      assert all[i] in ResultRows(cat, Below(cat, userID, maxID));
    }
    forall i, j | 0 <= i < j < |all| ensures all[i].0 >= all[j].0 {
      OrderedById(cat, all[i].0, all[j].0);
    }
  }

  /** An entry below maxID has a row. */
  lemma HasRow(cat: Catalog, userID: int, maxID: int, all: seq<(int, Option<int>)>, id: int) returns (i: nat)
    requires IsResult(cat, userID, maxID, all) && OwnedAt(cat, userID, id) && id in Below(cat, userID, maxID)
    ensures i < |all| && all[i].0 == id
  {
    WithIconsSize(cat, id);
    var row :| row in WithIcons(cat, id);
    assert row in ResultRows(cat, Below(cat, userID, maxID)) && row.0 == id;
    i :| 0 <= i < |all| && all[i] == row;
  }

  /** An entry below maxID is on the page or below everything on it. */
  lemma PageCovers(cat: Catalog, userID: int, maxID: int, all: seq<(int, Option<int>)>, page: seq<int>, id: int)
    requires Consistent(cat) && IsResult(cat, userID, maxID, all) && page == Ids(all[..Min(PAGE_SIZE, |all|)])
    requires forall i, j :: 0 <= i < j < |all| ==> all[i].0 >= all[j].0
    requires OwnedAt(cat, userID, id) && (maxID == 0 || id < maxID)
    ensures page != [] && (id in page || id < page[|page| - 1])
  {
    assert id in Below(cat, userID, maxID);
    var i := HasRow(cat, userID, maxID, all, id);
    if i < |page| {
      assert page[i] == id;
    } else {
      assert page[|page| - 1] == all[|page| - 1].0 >= id;
      if page[|page| - 1] == id { assert id in page; }
    }
  }

  lemma OrderedById(cat: Catalog, a: int, b: int)
    requires Consistent(cat) && a in cat.entries && b in cat.entries
    requires MayPrecede([ByColumn("id", true)], RowOf(cat, a), RowOf(cat, b))
    ensures a >= b
  {
    assert RowOf(cat, a).e.id == a && RowOf(cat, b).e.id == b;
  }

  lemma SingleRow(cat: Catalog, id: int, r: (int, Option<int>), q: (int, Option<int>))
    requires id in cat.entries && OneIcon(cat, id) && r in WithIcons(cat, id) && q in WithIcons(cat, id)
    ensures r == q
  {
    WithIconsSize(cat, id);
    if r != q {
      var both := {r, q};
      assert both <= WithIcons(cat, id);
      SubsetSize(both, WithIcons(cat, id));
    }
  }
}
