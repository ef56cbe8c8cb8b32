/** The tables that the query builders read, and the joins of their statements. */
module Catalog {
  import opened Common
  import opened SqlConditions
  import opened Filters

  /** feedIcons holds the (feed_id, icon_id) pairs of feed_icons. */
  datatype Catalog = Catalog(
    entries: map<int, EntryCols>, feeds: map<int, FeedCols>,
    categories: map<int, CategoryCols>, feedIcons: set<(int, int)>)

  /** Primary and foreign keys. */
  ghost predicate Consistent(cat: Catalog) {
    && (forall id :: id in cat.entries ==> cat.entries[id].id == id && cat.entries[id].feedID in cat.feeds)
    && (forall id :: id in cat.feeds ==> cat.feeds[id].id == id && cat.feeds[id].categoryID in cat.categories)
    && (forall id :: id in cat.categories ==> cat.categories[id].id == id)
  }

  /** A row for which any condition can be checked: a statement is prepared before it reads. */
  const SOME_ROW := Row(
    EntryCols(0, 0, 0, "", false, 0, 0, 0, "", [], map[], map[]),
    FeedCols(0, 0, 0, false, 0, 0, false, map[]), CategoryCols(0, false))

  predicate Joins(cat: Catalog, id: int) {
    && id in cat.entries && cat.entries[id].feedID in cat.feeds
    && cat.feeds[cat.entries[id].feedID].categoryID in cat.categories
  }

  /** The joined row of an entry. */
  function RowOf(cat: Catalog, id: int): Row {
    if Joins(cat, id) then
      var f := cat.feeds[cat.entries[id].feedID];
      Row(cat.entries[id], f, cat.categories[f.categoryID])
    else SOME_ROW
  }

  /** The ids of the entries that pass every filter. */
  function Matching(cat: Catalog, fs: seq<Filter>, now: int): set<int> {
    set id | id in cat.entries && AllHold(fs, now, RowOf(cat, id))
  }

  function IconsOf(cat: Catalog, feedID: int): set<int> {
    set p | p in cat.feedIcons && p.0 == feedID :: p.1
  }

  /** LEFT JOIN feed_icons: one result row per icon of the feed, or one without an icon. */
  function WithIcons(cat: Catalog, id: int): set<(int, Option<int>)>
    requires id in cat.entries
  {
    var icons := IconsOf(cat, cat.entries[id].feedID);
    if icons == {} then {(id, None)} else set i | i in icons :: (id, Some(i))
  }

  function ResultRows(cat: Catalog, ids: set<int>): set<(int, Option<int>)> {
    set id, r | id in ids && id in cat.entries && r in WithIcons(cat, id) :: r
  }

  /** The joined row of an entry, table by table. */
  lemma JoinedRow(cat: Catalog, id: int)
    requires Consistent(cat) && id in cat.entries
    ensures RowOf(cat, id).e == cat.entries[id] && RowOf(cat, id).e.id == id
    ensures RowOf(cat, id).f == cat.feeds[cat.entries[id].feedID]
    ensures RowOf(cat, id).c == cat.categories[cat.feeds[cat.entries[id].feedID].categoryID]
  {
  }

  /** A feed without an icon has one result row for each entry, and otherwise one for each pair
      of the entry with an icon of its feed. */
  lemma ResultRowsExactly(cat: Catalog, ids: set<int>, id: int, icon: Option<int>)
    ensures (id, icon) in ResultRows(cat, ids) <==>
            && id in ids && id in cat.entries
            && match icon
               case Some(i) => (cat.entries[id].feedID, i) in cat.feedIcons
               case None => forall i :: (cat.entries[id].feedID, i) !in cat.feedIcons
  {
    if id in ids && id in cat.entries {
      IconsExactly(cat, cat.entries[id].feedID);
      assert (id, icon) in ResultRows(cat, ids) <==> (id, icon) in WithIcons(cat, id);
    }
  }

  lemma IconsExactly(cat: Catalog, feedID: int)
    ensures forall i :: i in IconsOf(cat, feedID) <==> (feedID, i) in cat.feedIcons
    ensures IconsOf(cat, feedID) == {} <==> forall i :: (feedID, i) !in cat.feedIcons
  {
    forall i ensures i in IconsOf(cat, feedID) <==> (feedID, i) in cat.feedIcons {
      if i in IconsOf(cat, feedID) {
        var p :| p in cat.feedIcons && p.0 == feedID && p.1 == i;
        assert p == (feedID, i);
      }
      if (feedID, i) in cat.feedIcons {
        assert (feedID, i).1 == i;
      }
    }
    if IconsOf(cat, feedID) != {} {
      var i := Pick(IconsOf(cat, feedID));
      assert (feedID, i) in cat.feedIcons;
    }
  }

  ghost predicate OneIcon(cat: Catalog, id: int)
    requires id in cat.entries
  {
    |IconsOf(cat, cat.entries[id].feedID)| <= 1
  }

  lemma WithIconsSize(cat: Catalog, id: int)
    requires id in cat.entries
    ensures |WithIcons(cat, id)| == Max(1, |IconsOf(cat, cat.entries[id].feedID)|)
  {
    SomePairsSize(id, IconsOf(cat, cat.entries[id].feedID));
  }

  lemma {:induction false} SomePairsSize(id: int, icons: set<int>)
    ensures |set i | i in icons :: (id, Some(i))| == |icons|
    decreases |icons|
  {
    var pairs := set i | i in icons :: (id, Some(i));
    if icons == {} {
      assert pairs == {};
    } else {
      var i := Pick(icons);
      SomePairsSize(id, icons - {i});
      assert pairs == (set j | j in icons - {i} :: (id, Some(j))) + {(id, Some(i))};
    }
  }

  lemma OneMoreResult(cat: Catalog, ids: set<int>, id: int)
    requires id in cat.entries && id !in ids
    ensures |ResultRows(cat, ids + {id})| == |ResultRows(cat, ids)| + Max(1, |IconsOf(cat, cat.entries[id].feedID)|)
  {
    WithIconsSize(cat, id);
    assert forall r :: r in WithIcons(cat, id) ==> r.0 == id;
    assert forall r :: r in ResultRows(cat, ids) ==> r.0 in ids;
    assert ResultRows(cat, ids) !! WithIcons(cat, id);
    assert ResultRows(cat, ids + {id}) == ResultRows(cat, ids) + WithIcons(cat, id);
  }

  /** There are at least as many result rows as entries, and as many exactly when no listed
      entry's feed has two icons. */
  lemma {:induction false} ResultRowsCount(cat: Catalog, ids: set<int>)
    requires ids <= cat.entries.Keys
    ensures |ResultRows(cat, ids)| >= |ids|
    ensures |ResultRows(cat, ids)| == |ids| <==> forall id :: id in ids ==> OneIcon(cat, id)
    decreases |ids|
  {
    if ids == {} {
      assert ResultRows(cat, ids) == {};
    } else {
      var id := Pick(ids);
      ResultRowsCount(cat, ids - {id});
      OneMoreResult(cat, ids - {id}, id);
      assert ids - {id} + {id} == ids;
    }
  }
}
