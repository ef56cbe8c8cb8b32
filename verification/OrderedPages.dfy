/** Reading an ordered result page by page with LIMIT and OFFSET, when every request may order
    tied rows in its own way. */
module OrderedPages {
  import opened Common
  import opened Ordering

  function SetOf<T>(a: seq<T>): set<T> { set x | x in a }

  // ----- Ties across a page boundary -----

  /** The elements that must come before x. */
  function Earlier<T>(s: set<T>, le: (T, T) -> bool, x: T): set<T> { set y | y in s && !le(x, y) }

  /** These and the ones tied with x, x included. */
  function UpTo<T>(s: set<T>, le: (T, T) -> bool, x: T): set<T> { set y | y in s && le(y, x) }

  /** Position k lies inside a group of tied elements. */
  ghost predicate SplitsTie<T>(s: set<T>, le: (T, T) -> bool, k: int) {
    exists x :: x in s && |Earlier(s, le, x)| < k < |UpTo(s, le, x)|
  }

  /** Some page ends inside a group of tied elements. */
  ghost predicate PageSplitsTie<T>(s: set<T>, le: (T, T) -> bool, limit: int)
    requires limit > 0
  {
    exists k :: 0 < k < |s| && k % limit == 0 && SplitsTie(s, le, k)
  }

  // ----- A client that follows the pages -----

  /** All pages put together. */
  function Delivered<T>(pages: seq<seq<T>>): seq<T> {
    if pages == [] then [] else Delivered(pages[..|pages| - 1]) + pages[|pages| - 1]
  }

  /** A legal sequence of answers: each page continues where the previous ones stopped, in the
      order that its own request saw, and a further page is asked for only while rows are left. */
  ghost predicate Served<T(!new)>(pages: seq<seq<T>>, orders: seq<seq<T>>, s: set<T>, le: (T, T) -> bool, limit: int)
    decreases |pages|
  {
    && |orders| == |pages|
    && (pages == [] ||
        (var n := |pages| - 1;
         && Served(pages[..n], orders[..n], s, le, limit)
         && (n > 0 ==> |Delivered(pages[..n])| < |s|)
         && IsOrdering(orders[n], s, le)
         && pages[n] == Window(orders[n], limit, |Delivered(pages[..n])|)))
  }

  /** The client has followed the pages to the end. */
  ghost predicate IsReading<T(!new)>(pages: seq<seq<T>>, orders: seq<seq<T>>, s: set<T>, le: (T, T) -> bool, limit: int) {
    pages != [] && Served(pages, orders, s, le, limit) && |Delivered(pages)| >= |s|
  }

  // ----- Positions and prefixes -----

  lemma {:induction false} DistinctSize<T>(a: seq<T>)
    requires forall i, j :: 0 <= i < j < |a| ==> a[i] != a[j]
    ensures |SetOf(a)| == |a|
  {
    if a == [] {
      assert SetOf(a) == {};
    } else {
      var n := |a| - 1;
      DistinctSize(a[..n]);
      assert SetOf(a) == SetOf(a[..n]) + {a[n]};
    }
  }

  lemma PrefixSize<T(!new)>(all: seq<T>, s: set<T>, k: nat)
    requires Enumerates(all, s) && k <= |all|
    ensures |SetOf(all[..k])| == k && SetOf(all[..k]) <= s
    ensures k == |all| ==> SetOf(all[..k]) == s
  {
    EnumerationIsDistinct(all, s);
    DistinctSize(all[..k]);
    assert forall x :: x in all[..k] ==> x in all;
    assert k == |all| ==> all[..k] == all;
  }

  lemma InOrder<T(!new)>(all: seq<T>, s: set<T>, le: (T, T) -> bool, i: nat, j: nat)
    requires IsOrdering(all, s, le) && TotalPreorder(le) && i <= j < |all|
    ensures le(all[i], all[j])
  {
    if i == j {
      assert le(all[i], all[i]);
    }
  }

  /** Counting tells whether an ordering has a tie at position k, so all orderings agree on it. */
  lemma TieAt<T(!new)>(all: seq<T>, s: set<T>, le: (T, T) -> bool, k: nat)
    requires IsOrdering(all, s, le) && TotalPreorder(le) && 0 < k < |all|
    ensures SplitsTie(s, le, k) <==> le(all[k], all[k - 1])
  {
    if le(all[k], all[k - 1]) {
      TieIsCounted(all, s, le, k);
    } else {
      forall x | x in s ensures !(|Earlier(s, le, x)| < k < |UpTo(s, le, x)|) {
        GapIsCounted(all, s, le, k, x);
      }
    }
  }

  /** What is not among the first k elements has a position from k on. */
  lemma LaterPosition<T(!new)>(all: seq<T>, k: nat, x: T) returns (i: nat)
    requires k <= |all| && x in all && x !in SetOf(all[..k])
    ensures k <= i < |all| && all[i] == x
  {
    assert all == all[..k] + all[k..];
    var j :| 0 <= j < |all[k..]| && all[k..][j] == x;
    i := k + j;
  }

  lemma EarlierPosition<T(!new)>(all: seq<T>, k: nat, x: T) returns (i: nat)
    requires k <= |all| && x in SetOf(all[..k])
    ensures i < k && all[i] == x && x in all
  {
    var j :| 0 <= j < |all[..k]| && all[..k][j] == x;
    i := j;
  }

  lemma BeforeOrNotLess<T(!new)>(all: seq<T>, s: set<T>, le: (T, T) -> bool, k: nat, y: T)
    requires IsOrdering(all, s, le) && TotalPreorder(le) && k < |all| && y in s
    ensures y in SetOf(all[..k]) || le(all[k], y)
  {
    if y !in SetOf(all[..k]) {
      var i := LaterPosition(all, k, y);
      InOrder(all, s, le, k, i);
    }
  }

  lemma TieFollows<T(!new)>(all: seq<T>, s: set<T>, le: (T, T) -> bool, k: nat, i: nat, p: nat)
    requires IsOrdering(all, s, le) && TotalPreorder(le) && i < k <= p < |all| && le(all[p], all[i])
    ensures le(all[k], all[k - 1])
  {
    InOrder(all, s, le, k, p);
    InOrder(all, s, le, i, k - 1);
    assert le(all[k], all[i]);
  }

  lemma TieIsCounted<T(!new)>(all: seq<T>, s: set<T>, le: (T, T) -> bool, k: nat)
    requires IsOrdering(all, s, le) && TotalPreorder(le) && 0 < k < |all| && le(all[k], all[k - 1])
    ensures SplitsTie(s, le, k)
  {
    assert all[k] in s;
    FewEarlier(all, s, le, k);
    ManyUpTo(all, s, le, k);
  }

  lemma FewEarlier<T(!new)>(all: seq<T>, s: set<T>, le: (T, T) -> bool, k: nat)
    requires IsOrdering(all, s, le) && TotalPreorder(le) && 0 < k < |all| && le(all[k], all[k - 1])
    ensures |Earlier(s, le, all[k])| < k
  {
    forall y | y in s ensures y in SetOf(all[..k - 1]) || le(all[k], y) {
      BeforeOrNotLess(all, s, le, k - 1, y);
    }
    PrefixSize(all, s, k - 1);
    SubsetSize(Earlier(s, le, all[k]), SetOf(all[..k - 1]));
  }

  lemma ManyUpTo<T(!new)>(all: seq<T>, s: set<T>, le: (T, T) -> bool, k: nat)
    requires IsOrdering(all, s, le) && TotalPreorder(le) && k < |all|
    ensures k < |UpTo(s, le, all[k])|
  {
    forall y | y in SetOf(all[..k + 1]) ensures y in UpTo(s, le, all[k]) {
      var i := EarlierPosition(all, k + 1, y);
      InOrder(all, s, le, i, k);
    }
    PrefixSize(all, s, k + 1);
    SubsetSize(SetOf(all[..k + 1]), UpTo(s, le, all[k]));
  }

  lemma GapIsCounted<T(!new)>(all: seq<T>, s: set<T>, le: (T, T) -> bool, k: nat, x: T)
    requires IsOrdering(all, s, le) && TotalPreorder(le) && 0 < k < |all| && !le(all[k], all[k - 1]) && x in s
    ensures !(|Earlier(s, le, x)| < k < |UpTo(s, le, x)|)
  {
    PrefixSize(all, s, k);
    if x in SetOf(all[..k]) {
      forall y | y in UpTo(s, le, x) ensures y in SetOf(all[..k]) {
        PrefixIsBelow(all, s, le, k, x, y);
      }
      SubsetSize(UpTo(s, le, x), SetOf(all[..k]));
    } else {
      forall y | y in SetOf(all[..k]) ensures y in Earlier(s, le, x) {
        PrefixIsBelow(all, s, le, k, y, x);
      }
      SubsetSize(SetOf(all[..k]), Earlier(s, le, x));
    }
  }

  /** Without a tie at k everything before k is strictly before everything from k on. */
  lemma PrefixIsBelow<T(!new)>(all: seq<T>, s: set<T>, le: (T, T) -> bool, k: nat, y: T, z: T)
    requires IsOrdering(all, s, le) && TotalPreorder(le) && 0 < k < |all| && !le(all[k], all[k - 1])
    requires y in SetOf(all[..k]) && z in s
    ensures y in s
    ensures z in SetOf(all[..k]) || !le(z, y)
  {
    var i := EarlierPosition(all, k, y);
    if z !in SetOf(all[..k]) {
      var p := LaterPosition(all, k, z);
      if le(all[p], all[i]) {
        TieFollows(all, s, le, k, i, p);
      }
    }
  }

  /** Where no tie is split all orderings have the same elements before k. */
  lemma PrefixesAgree<T(!new)>(a: seq<T>, b: seq<T>, s: set<T>, le: (T, T) -> bool, k: nat)
    requires IsOrdering(a, s, le) && IsOrdering(b, s, le) && TotalPreorder(le) && k <= |s|
    requires 0 < k < |s| ==> !SplitsTie(s, le, k)
    ensures SetOf(a[..k]) == SetOf(b[..k])
  {
    PrefixSize(a, s, k);
    PrefixSize(b, s, k);
    if 0 < k < |s| {
      TieAt(a, s, le, k);
      if !(SetOf(b[..k]) <= SetOf(a[..k])) {
        OutsidersAreOrdered(a, b, s, le, k);
      }
      SubsetSize(SetOf(b[..k]), SetOf(a[..k]));
    } else if k == 0 {
      assert a[..0] == b[..0];
    }
  }

  /** If b starts with other elements than a, some pair is the wrong way round: a tie at k. */
  lemma OutsidersAreOrdered<T(!new)>(a: seq<T>, b: seq<T>, s: set<T>, le: (T, T) -> bool, k: nat)
    requires IsOrdering(a, s, le) && IsOrdering(b, s, le) && TotalPreorder(le) && 0 < k < |s|
    requires !(SetOf(b[..k]) <= SetOf(a[..k]))
    ensures le(a[k], a[k - 1])
  {
    PrefixSize(a, s, k);
    PrefixSize(b, s, k);
    var y :| y in SetOf(b[..k]) && y !in SetOf(a[..k]);
    if SetOf(a[..k]) <= SetOf(b[..k]) {
      SubsetSize(SetOf(a[..k]), SetOf(b[..k]));
    }
    var x :| x in SetOf(a[..k]) && x !in SetOf(b[..k]);
    var q := LaterPosition(b, k, x);
    var j := EarlierPosition(b, k, y);
    InOrder(b, s, le, j, q);
    var i := EarlierPosition(a, k, x);
    var p := LaterPosition(a, k, y);
    TieFollows(a, s, le, k, i, p);
  }

  // ----- Page lengths -----

  lemma WindowLength<T>(all: seq<T>, limit: int, k: nat)
    requires limit > 0 && k <= |all|
    ensures |Window(all, limit, k)| == Min(limit, |all| - k)
    ensures Window(all, limit, k) == all[k..k + Min(limit, |all| - k)]
  {
  }

  lemma NextMultiple(k: int, l: int)
    requires l > 0
    ensures (k + l) % l == k % l
  {
    var q, r := k / l, k % l;
    assert k + l == l * (q + 1) + r;
    RemainderIs(k + l, l, q + 1, r);
  }

  lemma RemainderIs(x: int, l: int, q: int, r: int)
    requires l > 0 && x == l * q + r && 0 <= r < l
    ensures x % l == r
  {
    var d := x / l - q;
    assert l * d == r - x % l;
    NoSmallMultiple(l, d);
  }

  lemma NoSmallMultiple(l: int, d: int)
    requires l > 0 && -l < l * d < l
    ensures d == 0
  {
    MultipleAtLeast(l, d);
  }

  lemma MultipleAtLeast(l: int, d: int)
    requires l > 0
    ensures d >= 1 ==> l * d >= l
    ensures d <= -1 ==> l * d <= -l
  {
  }

  lemma MultiplesApart(k: int, b: int, l: int)
    requires l > 0 && k % l == 0 && b % l == 0 && k < b
    ensures k + l <= b
  {
    var d := b / l - k / l;
    assert l * d == b - k;
    MultipleAtLeast(l, d);
    if d <= 0 { NonPositiveMultiple(l, d); }
  }

  lemma NonPositiveMultiple(l: int, d: int)
    requires l > 0 && d <= 0
    ensures l * d <= 0
  {
  }

  /** What has been delivered is a whole number of pages, or everything. */
  lemma {:induction false} ServedLength<T(!new)>(pages: seq<seq<T>>, orders: seq<seq<T>>, s: set<T>,
                                                 le: (T, T) -> bool, limit: int)
    requires limit > 0 && Served(pages, orders, s, le, limit)
    ensures |Delivered(pages)| <= |s|
    ensures |Delivered(pages)| < |s| ==> |Delivered(pages)| % limit == 0
    decreases |pages|
  {
    if pages != [] {
      var n := |pages| - 1;
      ServedLength(pages[..n], orders[..n], s, le, limit);
      var k := |Delivered(pages[..n])|;
      WindowLength(orders[n], limit, k);
      NextMultiple(k, limit);
    }
  }

  // ----- Completeness -----

  /** In order, and exactly the elements that the ordering has up to there. */
  ghost predicate StartsLike<T(!new)>(ids: seq<T>, all: seq<T>, le: (T, T) -> bool) {
    Sorted(ids, le) && |ids| <= |all| && SetOf(ids) == SetOf(all[..|ids|])
  }

  /** What is delivered without a split tie starts like the order of the last request. */
  lemma {:induction false} PagesAreFaithful<T(!new)>(pages: seq<seq<T>>, orders: seq<seq<T>>, s: set<T>,
                                                     le: (T, T) -> bool, limit: int)
    requires limit > 0 && TotalPreorder(le) && Served(pages, orders, s, le, limit) && !PageSplitsTie(s, le, limit)
    ensures pages != [] ==> StartsLike(Delivered(pages), orders[|pages| - 1], le)
    decreases |pages|
  {
    if pages != [] {
      var n := |pages| - 1;
      PagesAreFaithful(pages[..n], orders[..n], s, le, limit);
      ServedLength(pages[..n], orders[..n], s, le, limit);
      var before := Delivered(pages[..n]);
      if n == 0 {
        FirstPageStartsLike(orders[n], s, le, limit);
        assert [] + pages[n] == pages[n];
      } else {
        assert orders[n - 1] == orders[..n][n - 1] && Served(pages[..n], orders[..n], s, le, limit);
        NextPageStartsLike(before, orders[n - 1], orders[n], s, le, limit);
      }
    }
  }

  lemma FirstPageStartsLike<T(!new)>(all: seq<T>, s: set<T>, le: (T, T) -> bool, limit: int)
    requires limit > 0 && IsOrdering(all, s, le)
    ensures StartsLike(Window(all, limit, 0), all, le)
  {
    WindowLength(all, limit, 0);
    assert all[0..|Window(all, limit, 0)|] == all[..|Window(all, limit, 0)|];
  }

  /** Where a page begins no tie is split. */
  lemma NoTieAtPage<T(!new)>(s: set<T>, le: (T, T) -> bool, limit: int, k: int)
    requires limit > 0 && !PageSplitsTie(s, le, limit) && 0 < k < |s| && k % limit == 0
    ensures !SplitsTie(s, le, k)
  {
  }

  lemma PagesStartAlike<T(!new)>(a: seq<T>, b: seq<T>, s: set<T>, le: (T, T) -> bool, limit: int, k: nat)
    requires limit > 0 && TotalPreorder(le) && !PageSplitsTie(s, le, limit)
    requires IsOrdering(a, s, le) && IsOrdering(b, s, le) && k < |s| && k % limit == 0
    ensures SetOf(a[..k]) == SetOf(b[..k])
  {
    if k > 0 {
      NoTieAtPage(s, le, limit, k);
    }
    PrefixesAgree(a, b, s, le, k);
  }

  lemma NextPageStartsLike<T(!new)>(before: seq<T>, prev: seq<T>, all: seq<T>, s: set<T>, le: (T, T) -> bool, limit: int)
    requires limit > 0 && TotalPreorder(le) && !PageSplitsTie(s, le, limit)
    requires IsOrdering(prev, s, le) && IsOrdering(all, s, le) && StartsLike(before, prev, le)
    requires |before| < |s| && |before| % limit == 0
    ensures StartsLike(before + Window(all, limit, |before|), all, le)
  {
    var k := |before|;
    PagesStartAlike(prev, all, s, le, limit, k);
    WindowLength(all, limit, k);
    PageFits(before, all, s, le, |Window(all, limit, k)|);
  }

  lemma {:induction false} DeliveredMore<T>(pages: seq<seq<T>>, page: seq<T>)
    ensures Delivered(pages + [page]) == Delivered(pages) + page
  {
    assert (pages + [page])[..|pages|] == pages;
  }

  lemma {:induction false} ServedMore<T(!new)>(pages: seq<seq<T>>, orders: seq<seq<T>>, s: set<T>,
                                               le: (T, T) -> bool, limit: int,
                            all: seq<T>)
    requires Served(pages, orders, s, le, limit) && IsOrdering(all, s, le) && (pages != [] ==> |Delivered(pages)| < |s|)
    ensures Served(pages + [Window(all, limit, |Delivered(pages)|)], orders + [all], s, le, limit)
  {
    var page := Window(all, limit, |Delivered(pages)|);
    assert (pages + [page])[..|pages|] == pages && (orders + [all])[..|orders|] == orders;
  }

  lemma SetOfConcat<T>(a: seq<T>, b: seq<T>)
    ensures SetOf(a + b) == SetOf(a) + SetOf(b)
  {
  }

  /** A stretch of the ordering continues what starts like it. */
  lemma PageFits<T(!new)>(before: seq<T>, all: seq<T>, s: set<T>, le: (T, T) -> bool, size: nat)
    requires IsOrdering(all, s, le) && TotalPreorder(le) && |before| + size <= |all|
    requires Sorted(before, le) && SetOf(before) == SetOf(all[..|before|])
    ensures StartsLike(before + all[|before|..|before| + size], all, le)
  {
    var k := |before|;
    PageIsInOrder(before, all, s, le, size);
    SetOfConcat(before, all[k..k + size]);
    SetOfConcat(all[..k], all[k..k + size]);
    assert all[..k] + all[k..k + size] == all[..k + size];
  }

  lemma PageIsInOrder<T(!new)>(before: seq<T>, all: seq<T>, s: set<T>, le: (T, T) -> bool, size: nat)
    requires IsOrdering(all, s, le) && TotalPreorder(le) && |before| + size <= |all|
    requires Sorted(before, le) && SetOf(before) == SetOf(all[..|before|])
    ensures Sorted(before + all[|before|..|before| + size], le)
  {
    var k := |before|;
    forall i, j | 0 <= i < k <= j < k + size ensures le(before[i], all[j]) {
      assert before[i] in SetOf(before);
      var p := EarlierPosition(all, k, before[i]);
      InOrder(all, s, le, p, j);
    }
    SortedJoin(before, all[k..k + size], le);
  }

  lemma SortedJoin<T(!new)>(a: seq<T>, b: seq<T>, le: (T, T) -> bool)
    requires Sorted(a, le) && Sorted(b, le)
    requires forall i, j :: 0 <= i < |a| && 0 <= j < |b| ==> le(a[i], b[j])
    ensures Sorted(a + b, le)
  {
  }

  lemma {:induction false} ReadingIsComplete<T(!new)>(pages: seq<seq<T>>, orders: seq<seq<T>>, s: set<T>,
                                                      le: (T, T) -> bool, limit: int)
    requires limit > 0 && TotalPreorder(le) && IsReading(pages, orders, s, le, limit) && !PageSplitsTie(s, le, limit)
    ensures IsOrdering(Delivered(pages), s, le)
  {
    PagesAreFaithful(pages, orders, s, le, limit);
    ServedLength(pages, orders, s, le, limit);
    PrefixSize(orders[|pages| - 1], s, |s|);
    assert forall x :: x in Delivered(pages) <==> x in SetOf(Delivered(pages));
  }

  /** When every request sees the same order, ties or not, the pages are the whole list. */
  lemma {:induction false} FixedOrderPages<T(!new)>(pages: seq<seq<T>>, orders: seq<seq<T>>, s: set<T>,
                                                    le: (T, T) -> bool, limit: int, all: seq<T>)
    requires limit > 0 && Served(pages, orders, s, le, limit) && IsOrdering(all, s, le)
    requires forall i :: 0 <= i < |orders| ==> orders[i] == all
    ensures |Delivered(pages)| <= |all| && Delivered(pages) == all[..|Delivered(pages)|]
    decreases |pages|
  {
    if pages != [] {
      var n := |pages| - 1;
      FixedOrderPages(pages[..n], orders[..n], s, le, limit, all);
      WindowContinues(all, limit, |Delivered(pages[..n])|);
    }
  }

  // ----- Incompleteness -----

  lemma LeastExists<T(!new)>(s: set<T>, le: (T, T) -> bool) returns (m: T)
    requires s != {} && TotalPreorder(le)
    ensures m in s && forall x :: x in s ==> le(m, x)
    decreases |s|
  {
    var first :| first in s;
    assert le(first, first);
    m := first;
    if s != {first} {
      var rest := LeastExists(s - {first}, le);
      if !le(first, rest) {
        m := rest;
      }
      forall x | x in s ensures le(m, x) {
        assert x == first || le(rest, x);
        assert le(first, rest) || le(rest, first);
      }
    }
  }

  lemma {:induction false} OrderingExists<T(!new)>(s: set<T>, le: (T, T) -> bool) returns (all: seq<T>)
    requires TotalPreorder(le)
    ensures IsOrdering(all, s, le)
    decreases |s|
  {
    if s == {} {
      all := [];
    } else {
      var m := LeastExists(s, le);
      var rest := OrderingExists(s - {m}, le);
      all := [m] + rest;
      forall i | 0 <= i < |rest| ensures le(m, rest[i]) {
        assert rest[i] in s - {m};
      }
    }
  }

  lemma SwapTied<T(!new)>(all: seq<T>, s: set<T>, le: (T, T) -> bool, k: nat) returns (swapped: seq<T>)
    requires IsOrdering(all, s, le) && TotalPreorder(le) && 0 < k < |all| && le(all[k], all[k - 1])
    ensures swapped == all[k - 1 := all[k]][k := all[k - 1]] && IsOrdering(swapped, s, le)
  {
    swapped := all[k - 1 := all[k]][k := all[k - 1]];
    forall x ensures x in swapped <==> x in all {
      if x in all {
        var i :| 0 <= i < |all| && all[i] == x;
        assert swapped[if i == k then k - 1 else if i == k - 1 then k else i] == x;
      }
    }
    forall i, j | 0 <= i < j < |all| ensures le(swapped[i], swapped[j]) {
      SwappedInOrder(all, s, le, k, i, j);
    }
  }

  lemma SwappedInOrder<T(!new)>(all: seq<T>, s: set<T>, le: (T, T) -> bool, k: nat, i: nat, j: nat)
    requires IsOrdering(all, s, le) && TotalPreorder(le) && 0 < k < |all| && le(all[k], all[k - 1]) && i < j < |all|
    ensures var swapped := all[k - 1 := all[k]][k := all[k - 1]]; le(swapped[i], swapped[j])
  {
    var i', j' := if i == k then k - 1 else if i == k - 1 then k else i, if j == k then k - 1 else if j == k - 1 then k else j;
    if i' < j' {
      InOrder(all, s, le, i', j');
    }
  }

  /** Pages from order a before the bound and from order b after it. */
  ghost predicate ReadsAcross<T(!new)>(pages: seq<seq<T>>, orders: seq<seq<T>>, a: seq<T>, b: seq<T>, s: set<T>,
                                       le: (T, T) -> bool, limit: int, bound: nat)
    requires bound <= |a| == |b|
  {
    && Served(pages, orders, s, le, limit) && |Delivered(pages)| <= |a|
    && Delivered(pages) == Across(a, b, bound, |Delivered(pages)|)
  }

  /** The order that request k sees, and its page. */
  lemma AcrossPage<T>(a: seq<T>, b: seq<T>, limit: int, bound: nat, k: nat) returns (all: seq<T>, page: seq<T>)
    requires limit > 0 && bound <= |a| == |b| && bound % limit == 0 && k < |a| && k % limit == 0
    ensures (all == a || all == b) && page == Window(all, limit, k) && page != [] && k + |page| <= |a|
    ensures Across(a, b, bound, k) + page == Across(a, b, bound, k + |page|)
  {
    all := if k < bound then a else b;
    page := Window(all, limit, k);
    WindowLength(all, limit, k);
    if k < bound { MultiplesApart(k, bound, limit); }
    AcrossGrows(a, b, bound, k, |page|);
  }

  /** One more page. */
  lemma AcrossGoesOn<T(!new)>(pages: seq<seq<T>>, orders: seq<seq<T>>, a: seq<T>, b: seq<T>, s: set<T>,
                              le: (T, T) -> bool, limit: int, bound: nat)
    returns (all: seq<T>, page: seq<T>)
    requires limit > 0 && IsOrdering(a, s, le) && IsOrdering(b, s, le) && bound < |s| && bound % limit == 0
    requires ReadsAcross(pages, orders, a, b, s, le, limit, bound) && |Delivered(pages)| < |s|
    ensures ReadsAcross(pages + [page], orders + [all], a, b, s, le, limit, bound)
    ensures |Delivered(pages + [page])| > |Delivered(pages)|
  {
    ServedLength(pages, orders, s, le, limit);
    all, page := AcrossPage(a, b, limit, bound, |Delivered(pages)|);
    ServedMore(pages, orders, s, le, limit, all);
    DeliveredMore(pages, page);
  }

  lemma ReadingAcross<T(!new)>(a: seq<T>, b: seq<T>, s: set<T>, le: (T, T) -> bool, limit: int, bound: nat)
    returns (pages: seq<seq<T>>, orders: seq<seq<T>>)
    requires limit > 0 && IsOrdering(a, s, le) && IsOrdering(b, s, le) && 0 < bound < |s| && bound % limit == 0
    ensures IsReading(pages, orders, s, le, limit) && Delivered(pages) == a[..bound] + b[bound..]
  {
    pages, orders := [], [];
    while |Delivered(pages)| < |s|
      invariant ReadsAcross(pages, orders, a, b, s, le, limit, bound)
      decreases |s| - |Delivered(pages)|
    {
      var all, page := AcrossGoesOn(pages, orders, a, b, s, le, limit, bound);
      pages, orders := pages + [page], orders + [all];
    }
    assert b[bound..|s|] == b[bound..];
  }

  function Across<T>(a: seq<T>, b: seq<T>, bound: nat, k: nat): seq<T>
    requires bound <= |a| == |b| && k <= |a|
  {
    if k <= bound then a[..k] else a[..bound] + b[bound..k]
  }

  lemma AcrossGrows<T>(a: seq<T>, b: seq<T>, bound: nat, k: nat, size: nat)
    requires bound <= |a| == |b| && k + size <= |a| && (k < bound ==> k + size <= bound)
    ensures Across(a, b, bound, k) + (if k < bound then a else b)[k..k + size] == Across(a, b, bound, k + size)
  {
  }

  /** A tie split at a page boundary can hide an element: one is shown twice, another never. */
  lemma SplitTieHidesAnElement<T(!new)>(s: set<T>, le: (T, T) -> bool, limit: int, k: int)
    returns (pages: seq<seq<T>>, orders: seq<seq<T>>)
    requires limit > 0 && TotalPreorder(le) && 0 < k < |s| && k % limit == 0 && SplitsTie(s, le, k)
    ensures IsReading(pages, orders, s, le, limit) && !Enumerates(Delivered(pages), s)
  {
    var all := OrderingExists(s, le);
    TieAt(all, s, le, k);
    var swapped := SwapTied(all, s, le, k);
    pages, orders := ReadingAcross(all, swapped, s, le, limit, k);
    var ids := Delivered(pages);
    assert ids[k - 1] == all[k - 1] && ids[k] == swapped[k] == all[k - 1];
    if Enumerates(ids, s) {
      EnumerationIsDistinct(ids, s);
      assert false;
    }
  }

  /** Following the pages delivers every element exactly once, whatever order each request sees
      among ties, if and only if no page ends inside a group of tied elements. */
  lemma PagesCompleteExactlyWhen<T(!new)>(s: set<T>, le: (T, T) -> bool, limit: int)
    requires limit > 0 && TotalPreorder(le)
    ensures (forall pages, orders :: IsReading(pages, orders, s, le, limit) ==> Enumerates(Delivered(pages), s))
       <==> !PageSplitsTie(s, le, limit)
  {
    if PageSplitsTie(s, le, limit) {
      var k :| 0 < k < |s| && k % limit == 0 && SplitsTie(s, le, k);
      var pages, orders := SplitTieHidesAnElement(s, le, limit, k);
    } else {
      forall pages, orders | IsReading(pages, orders, s, le, limit) ensures Enumerates(Delivered(pages), s) {
        ReadingIsComplete(pages, orders, s, le, limit);
      }
    }
  }
}
