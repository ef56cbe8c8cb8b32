/** Removing categories by title and moving their feeds (internal/storage/category.go). */
module Categories {
  import opened Common
  import Ordering

  datatype Category = Category(userID: int, title: string)
  datatype Feed = Feed(userID: int, categoryID: int)

  /** entries maps an entry to its feed. */
  datatype Tables = Tables(categories: map<int, Category>, feeds: map<int, Feed>, entries: map<int, int>)

  /** How the database answers the statements of one call. LostCommit is a commit that fails. */
  datatype Fault = NoFault | BeginFails | CountFails | UpdateFails | DeleteFails | LostCommit

  /** The order in which the database sorts text; a total order on titles. */
  type Collation = (string, string) -> bool

  ghost predicate IsCollation(le: Collation) {
    Ordering.TotalPreorder(le) && forall s, t :: le(s, t) && le(t, s) ==> s == t
  }

  /** Foreign keys, and unique (user_id, title). */
  ghost predicate Consistent(t: Tables) {
    && (forall f :: f in t.feeds ==> t.feeds[f].categoryID in t.categories)
    && (forall e :: e in t.entries ==> t.entries[e] in t.feeds)
    && (forall b, c :: b in t.categories && c in t.categories && t.categories[b] == t.categories[c] ==> b == c)
  }

  /** Feeds are filed under categories of their own user. */
  ghost predicate SharedOwners(t: Tables) {
    forall f :: f in t.feeds ==>
      t.feeds[f].categoryID in t.categories && t.categories[t.feeds[f].categoryID].userID == t.feeds[f].userID
  }

  /** title = ANY($2): nothing equals an element of NULL, which a nil slice becomes. */
  function Named(t: Tables, userID: int, titles: Option<seq<string>>): set<int> {
    set c | c in t.categories && t.categories[c].userID == userID && titles.Some? && t.categories[c].title in titles.value
  }

  function CategoriesOf(t: Tables, userID: int): set<int> {
    set c | c in t.categories && t.categories[c].userID == userID
  }

  /** title <> ALL($2): unknown, so no row, when the array is NULL. */
  function Unnamed(t: Tables, userID: int, titles: Option<seq<string>>): set<int> {
    set c | c in t.categories && t.categories[c].userID == userID && titles.Some? && t.categories[c].title !in titles.value
  }

  function MoveFeeds(t: Tables, userID: int, from: set<int>, target: int): Tables {
    t.(feeds := map f | f in t.feeds :: if t.feeds[f].userID == userID && t.feeds[f].categoryID in from
                                        then t.feeds[f].(categoryID := target) else t.feeds[f])
  }

  /** DELETE FROM categories cascades to feeds, and from those to entries. */
  function DeleteCategories(t: Tables, gone: set<int>): Tables {
    var feeds := map f | f in t.feeds && t.feeds[f].categoryID !in gone :: t.feeds[f];
    Tables(t.categories - gone, feeds, map e | e in t.entries && t.entries[e] in feeds :: t.entries[e])
  }

  /** The first category by title among some. */
  ghost predicate IsFirst(t: Tables, le: Collation, ids: set<int>, first: int) {
    first in ids && first in t.categories &&
    forall c :: c in ids && c in t.categories ==> le(t.categories[first].title, t.categories[c].title)
  }

  /** Feeds of other users filed under the categories that go. */
  function ForeignFeeds(t: Tables, userID: int, gone: set<int>): set<int> {
    set f | f in t.feeds && t.feeds[f].userID != userID && t.feeds[f].categoryID in gone
  }

  /** What a successful call does to the tables. */
  ghost predicate Reorganized(before: Tables, after: Tables, le: Collation, userID: int, titles: Option<seq<string>>) {
    var named := Named(before, userID, titles);
    && after.categories == before.categories - named
    && after.feeds.Keys == before.feeds.Keys - ForeignFeeds(before, userID, named)
    && (forall f :: f in after.feeds ==>
          if before.feeds[f].categoryID in named
          then after.feeds[f].userID == userID == before.feeds[f].userID
            && IsFirst(after, le, CategoriesOf(after, userID), after.feeds[f].categoryID)
          else after.feeds[f] == before.feeds[f])
    && after.entries == map e | e in before.entries && before.entries[e] in after.feeds :: before.entries[e]
  }

  /** Just these feeds are lost, with just their entries: nothing exactly when there are none. */
  ghost predicate LosesForeignFeeds(before: Tables, after: Tables, foreign: set<int>) {
    && before.feeds.Keys - after.feeds.Keys == foreign
    && (after.feeds.Keys == before.feeds.Keys <==> foreign == {})
    && (forall e :: e in before.entries ==> (e in after.entries <==> before.entries[e] !in foreign))
    && (after.entries == before.entries <==> forall e :: e in before.entries ==> before.entries[e] !in foreign)
  }

  // ----- The effect in columns -----

  /** The category belongs to the user and bears one of the titles. */
  predicate IsNamed(c: Category, userID: int, titles: seq<string>) { c.userID == userID && c.title in titles }

  /** Where the feed of a named category goes: to the user's remaining category with the first
      title. */
  ghost predicate IsTarget(t: Tables, le: Collation, userID: int, c: int) {
    && c in t.categories && t.categories[c].userID == userID
    && forall d :: d in t.categories && t.categories[d].userID == userID ==> le(t.categories[c].title, t.categories[d].title)
  }

  /** The user's categories with these titles go. Feeds filed under them move if they are the
      user's own and go with their entries otherwise; nothing else changes. */
  ghost predicate RemovesNamed(before: Tables, after: Tables, le: Collation, userID: int, titles: seq<string>)
    requires Consistent(before)
  {
    && (forall c :: c in after.categories <==> c in before.categories && !IsNamed(before.categories[c], userID, titles))
    && (forall c :: c in after.categories ==> after.categories[c] == before.categories[c])
    && (forall f :: f in after.feeds <==> f in before.feeds && FeedStays(before, userID, titles, f))
    && (forall f :: f in after.feeds ==> FeedAfter(before, after, le, userID, titles, f))
    && (forall e :: e in after.entries <==> e in before.entries && before.entries[e] in after.feeds)
    && (forall e :: e in after.entries ==> after.entries[e] == before.entries[e])
  }

  predicate FeedStays(before: Tables, userID: int, titles: seq<string>, f: int)
    requires f in before.feeds && before.feeds[f].categoryID in before.categories
  {
    before.feeds[f].userID == userID || !IsNamed(before.categories[before.feeds[f].categoryID], userID, titles)
  }

  ghost predicate FeedAfter(before: Tables, after: Tables, le: Collation, userID: int, titles: seq<string>, f: int)
    requires f in before.feeds && before.feeds[f].categoryID in before.categories && f in after.feeds
  {
    && after.feeds[f].userID == before.feeds[f].userID
    && if IsNamed(before.categories[before.feeds[f].categoryID], userID, titles)
       then IsTarget(after, le, userID, after.feeds[f].categoryID)
       else after.feeds[f].categoryID == before.feeds[f].categoryID
  }

  /** A category of the user has another title. */
  ghost predicate KeepsOne(t: Tables, userID: int, titles: seq<string>) {
    exists c :: c in t.categories && t.categories[c].userID == userID && t.categories[c].title !in titles
  }

  lemma KeepsOneExactlyWhen(t: Tables, userID: int, titles: Option<seq<string>>)
    ensures Unnamed(t, userID, titles) != {} <==> titles.Some? && KeepsOne(t, userID, titles.value)
  {
    if Unnamed(t, userID, titles) != {} {
      var c := Pick(Unnamed(t, userID, titles));
      assert t.categories[c].userID == userID && t.categories[c].title !in titles.value;
    }
    if titles.Some? && KeepsOne(t, userID, titles.value) {
      var c :| c in t.categories && t.categories[c].userID == userID && t.categories[c].title !in titles.value;
      assert c in Unnamed(t, userID, titles);
    }
  }

  lemma ReorganizedInColumns(before: Tables, after: Tables, le: Collation, userID: int, titles: Option<seq<string>>)
    requires Consistent(before) && titles.Some? && Reorganized(before, after, le, userID, titles)
    ensures RemovesNamed(before, after, le, userID, titles.value)
  {
    var named := Named(before, userID, titles);
    assert forall c :: c in before.categories ==> (c in named <==> IsNamed(before.categories[c], userID, titles.value));
    forall f | f in before.feeds
      ensures f in after.feeds.Keys <==> FeedStays(before, userID, titles.value, f)
    {
      assert f in ForeignFeeds(before, userID, named) <==>
             before.feeds[f].userID != userID && before.feeds[f].categoryID in named;
    }
    forall f | f in after.feeds ensures f in before.feeds.Keys {
    }
    forall f | f in after.feeds ensures FeedAfter(before, after, le, userID, titles.value, f) {
      FirstIsTarget(after, le, userID, after.feeds[f].categoryID);
    }
  }

  lemma FirstIsTarget(t: Tables, le: Collation, userID: int, c: int)
    ensures IsFirst(t, le, CategoriesOf(t, userID), c) <==> IsTarget(t, le, userID, c)
  {
    assert forall d :: d in CategoriesOf(t, userID) <==> d in t.categories && t.categories[d].userID == userID;
  }

  class Storage {
    var tables: Tables

    constructor (tables: Tables)
      ensures this.tables == tables
    {
      this.tables := tables;
    }

    /** ok is false for an error return. The result of the commit is not looked at. */
    method RemoveAndReplaceCategoriesByName(userID: int, titles: Option<seq<string>>, le: Collation, fault: Fault)
      returns (ok: bool)
      requires Consistent(tables) && IsCollation(le)
      modifies `tables
      ensures Consistent(tables)
      ensures ok <==> (fault.NoFault? || fault.LostCommit?) && Unnamed(old(tables), userID, titles) != {}
      ensures ok <==> (fault.NoFault? || fault.LostCommit?) && titles.Some? && KeepsOne(old(tables), userID, titles.value)
      ensures ok && !fault.LostCommit? ==> Reorganized(old(tables), tables, le, userID, titles)
      ensures ok && !fault.LostCommit? ==> RemovesNamed(old(tables), tables, le, userID, titles.value)
      ensures ok && !fault.LostCommit? ==>
                LosesForeignFeeds(old(tables), tables, ForeignFeeds(old(tables), userID, Named(old(tables), userID, titles)))
      ensures !ok || fault.LostCommit? ==> tables == old(tables)
    {
      KeepsOneExactlyWhen(tables, userID, titles);
      if fault.BeginFails? {
        return false;
      }
      var work := tables;
      if fault.CountFails? {
        return false;
      }
      var count := |Unnamed(work, userID, titles)|;
      if count < 1 {
        return false;
      }
      if fault.UpdateFails? {
        return false;
      }
      var named := Named(work, userID, titles);
      var remaining := CategoriesOf(work, userID) - named;
      assert remaining == Unnamed(work, userID, titles);
      var target := First(work, le, remaining);
      work := MoveFeeds(work, userID, named, target);
      if fault.DeleteFails? {
        return false;
      }
      assert named == Named(work, userID, titles);
      work := DeleteCategories(work, Named(work, userID, titles));
      MovedAndDeleted(tables, le, userID, titles, target);
      FeedsAreLostExactlyWhen(tables, work, le, userID, titles);
      ReorganizedInColumns(tables, work, le, userID, titles);
      if !fault.LostCommit? {
        tables := work;
      }
      ok := true;
    }
  }

  method First(t: Tables, le: Collation, ids: set<int>) returns (first: int)
    requires ids != {} && ids <= t.categories.Keys && IsCollation(le)
    ensures IsFirst(t, le, ids, first)
  {
    var byTitle := (a: int, b: int) =>
      le(if a in t.categories then t.categories[a].title else "", if b in t.categories then t.categories[b].title else "");
    first := Ordering.Least(ids, byTitle);
    forall c | c in ids ensures le(t.categories[first].title, t.categories[c].title) {
      assert byTitle(first, c);
    }
  }

  lemma MovedAndDeleted(t: Tables, le: Collation, userID: int, titles: Option<seq<string>>, target: int)
    requires Consistent(t) && IsFirst(t, le, CategoriesOf(t, userID) - Named(t, userID, titles), target)
    ensures var named := Named(t, userID, titles);
            var after := DeleteCategories(MoveFeeds(t, userID, named, target), named);
            Consistent(after) && Reorganized(t, after, le, userID, titles)
  {
    var named := Named(t, userID, titles);
    var moved := MoveFeeds(t, userID, named, target);
    var after := DeleteCategories(moved, named);
    assert CategoriesOf(after, userID) == CategoriesOf(t, userID) - named;
    assert after.feeds.Keys == t.feeds.Keys - ForeignFeeds(t, userID, named);
  }

  // ----- What it means for the data -----

  /** With feeds filed under their owner's categories nothing is lost: the user is left with
      exactly the unnamed categories, at least one; every feed and entry is still there; the
      feeds of removed categories are in the one remaining category that comes first by title
      and no other feed moved; no feed refers to a missing category. */
  lemma RemovalConservesData(before: Tables, after: Tables, le: Collation, userID: int, titles: Option<seq<string>>)
    requires Consistent(before) && SharedOwners(before) && IsCollation(le)
    requires Unnamed(before, userID, titles) != {} && Reorganized(before, after, le, userID, titles)
    ensures CategoriesOf(after, userID) == Unnamed(before, userID, titles) != {}
    ensures forall c :: c in before.categories && before.categories[c].userID != userID ==> c in after.categories
    ensures after.feeds.Keys == before.feeds.Keys && after.entries == before.entries
    ensures forall f :: f in after.feeds && after.feeds[f] != before.feeds[f] ==>
              && before.feeds[f].categoryID in Named(before, userID, titles)
              && IsFirst(after, le, CategoriesOf(after, userID), after.feeds[f].categoryID)
    ensures Consistent(after) && SharedOwners(after)
  {
    var named := Named(before, userID, titles);
    assert CategoriesOf(after, userID) == Unnamed(before, userID, titles);
    forall f | f in before.feeds ensures f !in ForeignFeeds(before, userID, named) {
      assert before.categories[before.feeds[f].categoryID].userID == before.feeds[f].userID;
    }
    assert ForeignFeeds(before, userID, named) == {};
    assert after.feeds.Keys == before.feeds.Keys;
    assert forall e :: e in before.entries ==> before.entries[e] in after.feeds.Keys;
    forall f | f in after.feeds
      ensures after.feeds[f].categoryID in after.categories
      ensures after.categories[after.feeds[f].categoryID].userID == after.feeds[f].userID
    {
      if before.feeds[f].categoryID in named {
        assert IsFirst(after, le, CategoriesOf(after, userID), after.feeds[f].categoryID);
      }
    }
  }

  /** The feeds that move all go to the same category. */
  lemma MovedFeedsGoToOneCategory(t: Tables, le: Collation, ids: set<int>, a: int, b: int)
    requires Consistent(t) && IsCollation(le)
    requires forall c, d :: c in ids && d in ids && c in t.categories && d in t.categories ==>
               t.categories[c].userID == t.categories[d].userID
    requires IsFirst(t, le, ids, a) && IsFirst(t, le, ids, b)
    ensures a == b
  {
    assert t.categories[a] == t.categories[b];
  }

  /** Exactly when data is lost: some other user's feed is filed under a category that goes. */
  lemma FeedsAreLostExactlyWhen(before: Tables, after: Tables, le: Collation, userID: int, titles: Option<seq<string>>)
    requires Consistent(before) && Reorganized(before, after, le, userID, titles)
    ensures LosesForeignFeeds(before, after, ForeignFeeds(before, userID, Named(before, userID, titles)))
  {
    var foreign := ForeignFeeds(before, userID, Named(before, userID, titles));
    assert foreign <= before.feeds.Keys;
    assert before.feeds.Keys - after.feeds.Keys == foreign;
    if foreign != {} {
      var f := Pick(foreign);
      assert f in before.feeds.Keys && f !in after.feeds.Keys;
    }
    forall e | e in before.entries ensures e in after.entries <==> before.entries[e] !in foreign {
      assert before.entries[e] in before.feeds.Keys;
    }
    if forall e :: e in before.entries ==> before.entries[e] !in foreign {
      assert after.entries.Keys == before.entries.Keys;
    }
  }

  /** A run of successful calls by any users. */
  datatype Removal = Removal(userID: int, titles: Option<seq<string>>)

  ghost predicate IsRun(states: seq<Tables>, calls: seq<Removal>, le: Collation) {
    && |states| == |calls| + 1 && Consistent(states[0])
    && forall i :: 0 <= i < |calls| ==> IsCall(states[i], states[i + 1], calls[i], le)
  }

  ghost predicate IsCall(before: Tables, after: Tables, call: Removal, le: Collation) {
    && Unnamed(before, call.userID, call.titles) != {} && Consistent(after)
    && Reorganized(before, after, le, call.userID, call.titles)
  }

  /** Over any run of calls: no feed is lost exactly when no call names a category with another
      user's feed in it. */
  lemma {:induction false} RunLosesNothingExactlyWhen(states: seq<Tables>, calls: seq<Removal>, le: Collation)
    requires IsRun(states, calls, le)
    ensures states[|calls|].feeds.Keys <= states[0].feeds.Keys
    ensures states[|calls|].feeds.Keys == states[0].feeds.Keys <==>
            forall i :: 0 <= i < |calls| ==> Foreign(states[i], calls[i]) == {}
  {
    if calls != [] {
      var n := |calls| - 1;
      RunShortens(states, calls, le);
      RunLosesNothingExactlyWhen(states[..n + 1], calls[..n], le);
      assert IsCall(states[n], states[n + 1], calls[n], le);
      FeedsAreLostExactlyWhen(states[n], states[n + 1], le, calls[n].userID, calls[n].titles);
      assert states[n + 1].feeds.Keys <= states[n].feeds.Keys;
      assert forall i :: 0 <= i < n ==> Foreign(states[..n + 1][i], calls[..n][i]) == Foreign(states[i], calls[i]);
    }
  }

  function Foreign(t: Tables,
                   call: Removal): set<int> { ForeignFeeds(t, call.userID, Named(t, call.userID, call.titles)) }

  lemma RunShortens(states: seq<Tables>, calls: seq<Removal>, le: Collation)
    requires IsRun(states, calls, le) && calls != []
    ensures IsRun(states[..|calls|], calls[..|calls| - 1], le) && Consistent(states[|calls| - 1])
  {
    forall i | 0 <= i < |calls| - 1
      ensures IsCall(states[..|calls|][i], states[..|calls|][i + 1], calls[..|calls| - 1][i], le)
    {
      assert IsCall(states[i], states[i + 1], calls[i], le);
    }
    if |calls| > 1 { assert IsCall(states[|calls| - 2], states[|calls| - 1], calls[|calls| - 2], le); }
  }

  /** A success return whose commit failed has done nothing. That is what a success promises
      only when no category of the user is named. */
  lemma LostCommitIsHarmlessExactlyWhen(t: Tables, le: Collation, userID: int, titles: Option<seq<string>>)
    requires Consistent(t)
    ensures Reorganized(t, t, le, userID, titles) <==> Named(t, userID, titles) == {}
  {
    var named := Named(t, userID, titles);
    if named != {} {
      var c := Pick(named);
      assert c in t.categories && c !in t.categories - named;
    } else {
      assert t.categories - named == t.categories;
      assert ForeignFeeds(t, userID, named) == {};
      assert forall e :: e in t.entries ==> t.entries[e] in t.feeds.Keys;
      var same := map e | e in t.entries && t.entries[e] in t.feeds :: t.entries[e];
      assert forall e :: e in t.entries ==> e in same && same[e] == t.entries[e];
      assert same.Keys == t.entries.Keys;
    }
  }
}
