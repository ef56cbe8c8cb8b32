/** When a page of the Fever API shows an entry twice: the icon join repeats an entry whose feed
    has two icons (internal/fever/handler.go, internal/storage/entry_query_builder.go). */
module FeverPageRepeats {
  import opened Common
  import opened Ordering
  import opened SqlConditions
  import opened Catalog
  import opened FeverPaging
  import opened OrderedPages

  /** The user's entries below maxID that come before one of them. */
  function Above(cat: Catalog, userID: int, maxID: int, last: int): set<int> {
    set id | id in Below(cat, userID, maxID) && id > last
  }

  /** Each of the first forty-nine entries below maxID has at most one icon. What further icons
      the next one has is cut off with its page. */
  ghost predicate ShowsEachOnce(cat: Catalog, userID: int, maxID: int) {
    forall id :: id in Below(cat, userID, maxID) && |Above(cat, userID, maxID, id)| < PAGE_SIZE - 1 ==> OneIcon(cat, id)
  }

  /** The same, seen from the last id of the page: each entry above it has at most one icon, and
      so has the last one unless its first row is the fiftieth. */
  ghost predicate OnceUpTo(cat: Catalog, userID: int, maxID: int, last: int)
    requires last in cat.entries
  {
    && (forall id :: id in Above(cat, userID, maxID, last) ==> OneIcon(cat, id))
    && (OneIcon(cat, last) || |Above(cat, userID, maxID, last)| == PAGE_SIZE - 1)
  }

  lemma RowIn(cat: Catalog, ids: set<int>, r: (int, Option<int>))
    ensures r in ResultRows(cat, ids) <==> r.0 in ids && r.0 in cat.entries && r in WithIcons(cat, r.0)
  {
    assert forall id, q :: id in cat.entries && q in WithIcons(cat, id) ==> q.0 == id;
  }

  lemma RowsAboveComeFirst(cat: Catalog, userID: int, maxID: int, all: seq<(int, Option<int>)>, p: nat,
                           r: (int, Option<int>))
    requires Consistent(cat) && IsResult(cat, userID, maxID, all) && p < |all|
    requires forall i :: 0 <= i < p ==> all[i].0 > all[p].0
    ensures r in ResultRows(cat, Above(cat, userID, maxID, all[p].0)) <==> r in SetOf(all[..p])
  {
    ResultDescends(cat, userID, maxID, all);
    var below, last := Below(cat, userID, maxID), all[p].0;
    RowIn(cat, below, r);
    RowIn(cat, Above(cat, userID, maxID, last), r);
    if r in SetOf(all[..p]) {
      var i := EarlierPosition(all, p, r);
    } else if r in all {
      var i := LaterPosition(all, p, r);
    }
  }

  /** The rows before the first one of an entry are those of the entries above it. */
  lemma RowsAbove(cat: Catalog, userID: int, maxID: int, all: seq<(int, Option<int>)>, p: nat)
    requires Consistent(cat) && IsResult(cat, userID, maxID, all) && p < |all|
    requires forall i :: 0 <= i < p ==> all[i].0 > all[p].0
    ensures SetOf(all[..p]) == ResultRows(cat, Above(cat, userID, maxID, all[p].0))
    ensures |ResultRows(cat, Above(cat, userID, maxID, all[p].0))| == p
  {
    PrefixSize(all, ResultRows(cat, Below(cat, userID, maxID)), p);
    forall r ensures r in ResultRows(cat, Above(cat, userID, maxID, all[p].0)) <==> r in SetOf(all[..p]) {
      RowsAboveComeFirst(cat, userID, maxID, all, p, r);
    }
  }

  /** Some rows have different ids exactly when their entries have one icon each. */
  lemma RowsAreStrictExactlyWhen(cat: Catalog, ids: set<int>, rows: seq<(int, Option<int>)>)
    requires ids <= cat.entries.Keys && SetOf(rows) == ResultRows(cat, ids) && |rows| == |ResultRows(cat, ids)|
    requires Descending(Ids(rows))
    ensures StrictlyDescending(Ids(rows)) <==> forall id :: id in ids ==> OneIcon(cat, id)
    ensures StrictlyDescending(Ids(rows)) ==> |ids| == |rows|
    ensures |ids| <= |rows|
  {
    ResultRowsCount(cat, ids);
    IdsOfRows(cat, ids, rows);
    if StrictlyDescending(Ids(rows)) {
      DistinctSize(Ids(rows));
    }
    if |ids| == |rows| {
      AsManyIdsAsRows(Ids(rows), ids);
    }
  }

  lemma AsManyIdsAsRows(page: seq<int>, ids: set<int>)
    requires Descending(page) && SetOf(page) == ids && |ids| == |page|
    ensures StrictlyDescending(page)
  {
    assert Enumerates(page, ids);
    EnumerationIsDistinct(page, ids);
  }

  lemma IdsOfRows(cat: Catalog, ids: set<int>, rows: seq<(int, Option<int>)>)
    requires ids <= cat.entries.Keys && SetOf(rows) == ResultRows(cat, ids)
    ensures SetOf(Ids(rows)) == ids
  {
    forall id | id in ids ensures id in Ids(rows) {
      WithIconsSize(cat, id);
      var r :| r in WithIcons(cat, id);
      assert r in ResultRows(cat, ids) && r.0 == id;
      var i :| 0 <= i < |rows| && rows[i] == r;
      assert Ids(rows)[i] == id;
    }
    forall id | id in Ids(rows) ensures id in ids {
      var i :| 0 <= i < |rows| && Ids(rows)[i] == id;
      assert rows[i] in SetOf(rows);
    }
  }

  /** With no further row after it, the first row of an entry is its only one. */
  lemma OnlyRow(cat: Catalog, userID: int, maxID: int, all: seq<(int, Option<int>)>, p: nat)
    requires Consistent(cat) && IsResult(cat, userID, maxID, all) && p < |all| && all[p].0 in Below(cat, userID, maxID)
    requires forall i, j :: 0 <= i < j < |all| ==> all[i].0 >= all[j].0
    requires forall i :: 0 <= i < p ==> all[i].0 > all[p].0
    requires !(p + 1 < |all| && all[p + 1].0 == all[p].0)
    ensures OneIcon(cat, all[p].0)
  {
    var id := all[p].0;
    WithIconsSize(cat, id);
    RowIn(cat, Below(cat, userID, maxID), all[p]);
    forall q | p < q < |all| ensures all[q].0 < id {
      assert q == p + 1 || all[p + 1].0 >= all[q].0;
    }
    forall r | r in WithIcons(cat, id) ensures r == all[p] {
      RowIn(cat, Below(cat, userID, maxID), r);
      var q :| 0 <= q < |all| && all[q] == r;
    }
    assert all[p] in all && WithIcons(cat, id) == {all[p]};
  }

  /** The row after the first one of an entry is again its own exactly when it has two icons. */
  lemma SecondRow(cat: Catalog, userID: int, maxID: int, all: seq<(int, Option<int>)>, p: nat)
    requires Consistent(cat) && IsResult(cat, userID, maxID, all) && p < |all|
    requires forall i :: 0 <= i < p ==> all[i].0 > all[p].0
    ensures all[p].0 in cat.entries
    ensures OneIcon(cat, all[p].0) <==> !(p + 1 < |all| && all[p + 1].0 == all[p].0)
  {
    ResultDescends(cat, userID, maxID, all);
    if p + 1 < |all| && all[p + 1].0 == all[p].0 {
      EnumerationIsDistinct(all, ResultRows(cat, Below(cat, userID, maxID)));
      RowIn(cat, Below(cat, userID, maxID), all[p]);
      RowIn(cat, Below(cat, userID, maxID), all[p + 1]);
      if OneIcon(cat, all[p].0) {
        SingleRow(cat, all[p].0, all[p], all[p + 1]);
      }
    } else {
      OnlyRow(cat, userID, maxID, all, p);
    }
  }

  /** The two ways to repeat an id: above the last one, or the last one itself. */
  lemma RepeatsBefore(cat: Catalog, userID: int, maxID: int, all: seq<(int, Option<int>)>, p: nat)
    requires Consistent(cat) && IsResult(cat, userID, maxID, all) && p < |all|
    requires forall i :: 0 <= i < p ==> all[i].0 > all[p].0
    ensures var above := Above(cat, userID, maxID, all[p].0);
            && |above| <= p
            && (StrictlyDescending(Ids(all[..p])) <==> forall id :: id in above ==> OneIcon(cat, id))
            && (StrictlyDescending(Ids(all[..p])) ==> |above| == p)
  {
    ResultDescends(cat, userID, maxID, all);
    RowsAbove(cat, userID, maxID, all, p);
    RowsAreStrictExactlyWhen(cat, Above(cat, userID, maxID, all[p].0), all[..p]);
  }

  lemma ShownOnceExactlyWhen(cat: Catalog, userID: int, maxID: int, all: seq<(int, Option<int>)>, page: seq<int>, p: nat)
    requires Consistent(cat) && IsResult(cat, userID, maxID, all)
    requires |page| == Min(PAGE_SIZE, |all|) && forall i :: 0 <= i < |page| ==> page[i] == all[i].0
    requires p < |page| && (forall i :: 0 <= i < p ==> page[i] > page[p]) && forall i :: p <= i < |page| ==> page[i] == page[p]
    ensures page[p] in cat.entries && |Above(cat, userID, maxID, page[p])| <= p
    ensures StrictlyDescending(page) <==> OnceUpTo(cat, userID, maxID, page[p])
  {
    assert Ids(all[..p]) == page[..p] && page[|page| - 1] == page[p] == all[p].0;
    RepeatsBefore(cat, userID, maxID, all, p);
    SecondRow(cat, userID, maxID, all, p);
    StrictAtLast(page, p);
    SecondRowIsShown(all, page, p);
  }

  /** What a page tells about the entries above its last id. */
  lemma PageEndsAt(cat: Catalog, userID: int, maxID: int, page: seq<int>)
    requires Consistent(cat) && IsPage(cat, userID, maxID, page) && page != []
    ensures var last := page[|page| - 1];
            && last in Below(cat, userID, maxID) && |Above(cat, userID, maxID, last)| < PAGE_SIZE
            && (StrictlyDescending(page) <==> OnceUpTo(cat, userID, maxID, last))
  {
    var all: seq<(int, Option<int>)> :| IsResult(cat, userID, maxID, all) && page == Ids(Window(all, PAGE_SIZE, 0));
    assert Window(all, PAGE_SIZE, 0) == all[..|page|];
    ResultDescends(cat, userID, maxID, all);
    var p := FirstOf(page);
    ShownOnceExactlyWhen(cat, userID, maxID, all, page, p);
  }

  /** A page with room left holds everything, and an empty one means that there is nothing. */
  lemma ShortPageHoldsAll(cat: Catalog, userID: int, maxID: int, page: seq<int>)
    requires Consistent(cat) && IsPage(cat, userID, maxID, page) && |page| < PAGE_SIZE
    ensures forall id :: id in Below(cat, userID, maxID) ==> id in page
  {
    var all: seq<(int, Option<int>)> :| IsResult(cat, userID, maxID, all) && page == Ids(Window(all, PAGE_SIZE, 0));
    assert Window(all, PAGE_SIZE, 0) == all;
    forall id | id in Below(cat, userID, maxID) ensures id in page {
      WithIconsSize(cat, id);
      var r :| r in WithIcons(cat, id);
      RowIn(cat, Below(cat, userID, maxID), r);
      var i :| 0 <= i < |all| && all[i] == r;
      assert page[i] == id;
    }
  }

  lemma PageWithoutIsFull(cat: Catalog, userID: int, maxID: int, page: seq<int>, id: int)
    requires Consistent(cat) && IsPage(cat, userID, maxID, page)
    requires id in Below(cat, userID, maxID) && id !in page
    ensures |page| >= PAGE_SIZE
  {
    if |page| < PAGE_SIZE {
      ShortPageHoldsAll(cat, userID, maxID, page);
    }
  }

  /** All but the last id of a page without repeats lie above it. */
  lemma StrictPageIsAbove(cat: Catalog, userID: int, maxID: int, page: seq<int>)
    requires Consistent(cat) && IsPage(cat, userID, maxID, page) && page != [] && StrictlyDescending(page)
    ensures |page| - 1 <= |Above(cat, userID, maxID, page[|page| - 1])|
  {
    var rest := page[..|page| - 1];
    forall x | x in SetOf(rest) ensures x in Above(cat, userID, maxID, page[|page| - 1]) {
      var i :| 0 <= i < |rest| && rest[i] == x;
      IdsOfPage(cat, userID, maxID, page, i);
    }
    DistinctSize(rest);
    SubsetSize(SetOf(rest), Above(cat, userID, maxID, page[|page| - 1]));
  }

  /** A page without repeats that ends above some entry is full. */
  lemma StrictPageIsFull(cat: Catalog, userID: int, maxID: int, page: seq<int>, id: int)
    requires Consistent(cat) && IsPage(cat, userID, maxID, page) && page != [] && StrictlyDescending(page)
    requires id in Below(cat, userID, maxID) && id < page[|page| - 1]
    ensures |Above(cat, userID, maxID, page[|page| - 1])| >= PAGE_SIZE - 1
  {
    PageWithoutIsFull(cat, userID, maxID, page, id);
    StrictPageIsAbove(cat, userID, maxID, page);
  }

  lemma IdsOfPage(cat: Catalog, userID: int, maxID: int, page: seq<int>, i: nat)
    requires Consistent(cat) && IsPage(cat, userID, maxID, page) && i < |page|
    ensures page[i] in Below(cat, userID, maxID) && |page| <= PAGE_SIZE
  {
    var all: seq<(int, Option<int>)> :| IsResult(cat, userID, maxID, all) && page == Ids(Window(all, PAGE_SIZE, 0));
    assert Window(all, PAGE_SIZE, 0) == all[..|page|];
    ResultDescends(cat, userID, maxID, all);
  }

  lemma FewerAbove(cat: Catalog, userID: int, maxID: int, higher: int, lower: int)
    requires higher in Below(cat, userID, maxID) && lower < higher
    ensures |Above(cat, userID, maxID, higher)| < |Above(cat, userID, maxID, lower)|
  {
    var above, more := Above(cat, userID, maxID, higher), Above(cat, userID, maxID, lower);
    assert above + {higher} <= more && higher !in above;
    SubsetSize(above + {higher}, more);
  }

  lemma TopIsOnce(cat: Catalog, userID: int, maxID: int, last: int)
    requires last in Below(cat, userID, maxID) && |Above(cat, userID, maxID, last)| < PAGE_SIZE
    requires ShowsEachOnce(cat, userID, maxID)
    ensures OnceUpTo(cat, userID, maxID, last)
  {
    forall id | id in Above(cat, userID, maxID, last) ensures OneIcon(cat, id) {
      FewerAbove(cat, userID, maxID, id, last);
    }
  }

  lemma OnceIsTop(cat: Catalog, userID: int, maxID: int, page: seq<int>, id: int)
    requires Consistent(cat) && IsPage(cat, userID, maxID, page) && page != [] && StrictlyDescending(page)
    requires page[|page| - 1] in cat.entries && OnceUpTo(cat, userID, maxID, page[|page| - 1])
    requires id in Below(cat, userID, maxID) && |Above(cat, userID, maxID, id)| < PAGE_SIZE - 1
    ensures OneIcon(cat, id)
  {
    var last := page[|page| - 1];
    if id < last {
      IdsOfPage(cat, userID, maxID, page, |page| - 1);
      FewerAbove(cat, userID, maxID, last, id);
      StrictPageIsFull(cat, userID, maxID, page, id);
      assert false;
    }
    assert id == last || id in Above(cat, userID, maxID, last);
  }

  /** Exactly when no id comes twice on a page, whichever of the possible pages it is: when each
      of the first forty-nine entries below maxID has at most one icon. */
  lemma PageShowsEachOnceExactlyWhen(cat: Catalog, userID: int, maxID: int, page: seq<int>)
    requires maxID >= 0 && Consistent(cat) && IsPage(cat, userID, maxID, page)
    ensures StrictlyDescending(page) <==> ShowsEachOnce(cat, userID, maxID)
  {
    if page == [] {
      ShortPageHoldsAll(cat, userID, maxID, page);
    } else {
      PageEndsAt(cat, userID, maxID, page);
      if ShowsEachOnce(cat, userID, maxID) {
        TopIsOnce(cat, userID, maxID, page[|page| - 1]);
      }
      if StrictlyDescending(page) {
        forall id | id in Below(cat, userID, maxID) && |Above(cat, userID, maxID, id)| < PAGE_SIZE - 1
          ensures OneIcon(cat, id)
        {
          OnceIsTop(cat, userID, maxID, page, id);
        }
      }
    }
  }

  /** The first position of the last id. */
  lemma FirstOf(page: seq<int>) returns (p: nat)
    requires page != [] && Descending(page)
    ensures p < |page| && page[p] == page[|page| - 1]
    ensures forall i :: 0 <= i < p ==> page[i] > page[p]
    ensures forall i :: p <= i < |page| ==> page[i] == page[p]
  {
    p := |page| - 1;
    while p > 0 && page[p - 1] == page[|page| - 1]
      invariant p < |page| && forall i :: p <= i < |page| ==> page[i] == page[|page| - 1]
    {
      p := p - 1;
    }
  }

  lemma StrictAtLast(page: seq<int>, p: nat)
    requires p < |page| && (forall i :: 0 <= i < p ==> page[i] > page[p]) && forall i :: p <= i < |page| ==> page[i] == page[p]
    ensures StrictlyDescending(page) <==> StrictlyDescending(page[..p]) && p == |page| - 1
  {
    assert p < |page| - 1 ==> page[p] == page[p + 1];
  }

  /** The first position is the only one exactly when there is no second row or no room for it. */
  lemma SecondRowIsShown(all: seq<(int, Option<int>)>, page: seq<int>, p: nat)
    requires |page| == Min(PAGE_SIZE, |all|) && p < |page| && forall i :: 0 <= i < |page| ==> page[i] == all[i].0
    requires forall i :: p <= i < |page| ==> page[i] == page[p]
    ensures p == |page| - 1 <==> !(p + 1 < |all| && all[p + 1].0 == all[p].0) || p == PAGE_SIZE - 1
  {
    if p + 1 < |page| {
      assert page[p + 1] == page[p];
    }
  }
}
