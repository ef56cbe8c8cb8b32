/** Feed icons: rows shared by content hash, and one icon per feed
    (internal/storage/icon.go). */
module Icons {
  import opened Common
  import SqlConditions
  import Catalog
  import EntryQueries

  const FALLBACK := "image/x-icon"

  const KNOWN_TYPES := {"image/png", "image/jpeg", "image/jpg", "image/webp", "image/svg+xml", "image/x-icon", "image/gif"}

  function NormalizeMimeType(mimeType: string): string {
    var lower := SqlConditions.Lower(mimeType);
    if lower in KNOWN_TYPES then lower else FALLBACK
  }

  /** Stored types come from the fixed list, and storing a stored type again changes nothing. */
  lemma NormalizedTypesAreStable(mimeType: string)
    ensures NormalizeMimeType(mimeType) in KNOWN_TYPES
    ensures NormalizeMimeType(NormalizeMimeType(mimeType)) == NormalizeMimeType(mimeType)
  {
    if SqlConditions.Lower(mimeType) in KNOWN_TYPES {
      LowerTwice(mimeType);
    } else {
      LowerOfLower(FALLBACK);
    }
  }

  /** The listed types are taken in any spelling of the letters; everything else is stored as
      image/x-icon. */
  lemma NormalizedType(mimeType: string)
    ensures var lower := SqlConditions.Lower(mimeType);
            NormalizeMimeType(mimeType) ==
            if || lower == "image/png" || lower == "image/jpeg" || lower == "image/jpg" || lower == "image/webp"
               || lower == "image/svg+xml" || lower == "image/x-icon" || lower == "image/gif"
            then lower else "image/x-icon"
  {
  }

  lemma {:induction false} LowerTwice(s: string)
    ensures SqlConditions.Lower(SqlConditions.Lower(s)) == SqlConditions.Lower(s)
  {
    if s != [] {
      LowerTwice(s[1..]);
      assert SqlConditions.Lower(s)[1..] == SqlConditions.Lower(s[1..]);
    }
  }

  lemma {:induction false} LowerOfLower(s: string)
    requires forall i :: 0 <= i < |s| ==> !('A' <= s[i] <= 'Z')
    ensures SqlConditions.Lower(s) == s
  {
    if s != [] {
      LowerOfLower(s[1..]);
      assert s == [s[0]] + s[1..];
    }
  }

  datatype Icon = Icon(hash: string, mimeType: string, content: seq<Byte>)
  datatype IconRow = IconRow(hash: string, mimeType: string, content: seq<Byte>, externalID: string)

  /** Which statement of a call fails. FailedCommit is reported and has no effect. */
  datatype Fault = NoFault | BeginFails | SelectFails | InsertIconFails | DeleteFails | LinkFails | FailedCommit

  function RowsOf(links: set<(int, int)>, feedID: int): set<(int, int)> {
    set p | p in links && p.0 == feedID
  }

  /** EXISTS (SELECT 1 FROM feed_icons WHERE icon_id = ...) */
  predicate Used(links: set<(int, int)>, iconID: int) {
    exists p :: p in links && p.1 == iconID
  }

  lemma UsedByFeed(links: set<(int, int)>, iconID: int)
    ensures Used(links, iconID) <==> exists f :: (f, iconID) in links
  {
    if Used(links, iconID) {
      var p :| p in links && p.1 == iconID;
      var (f, i) := p;
      assert (f, iconID) in links;
    }
    if f :| (f, iconID) in links {
      var p := (f, iconID);
      assert p in links && p.1 == iconID;
    }
  }

  ghost predicate OneIconPerFeed(links: set<(int, int)>) {
    forall p, q :: p in links && q in links && p.0 == q.0 ==> p == q
  }

  /** Unique hash and unique external id; ids are drawn from a sequence. */
  ghost predicate UniqueIcons(icons: map<int, IconRow>, nextIconID: int, externalIDs: set<string>) {
    && (forall i, j :: i in icons && j in icons && icons[i].hash == icons[j].hash ==> i == j)
    && (forall i, j :: i in icons && j in icons && icons[i].externalID == icons[j].externalID ==> i == j)
    && (forall i :: i in icons ==> i < nextIconID && icons[i].externalID in externalIDs)
  }

  /** Foreign keys, and at most one icon per feed. */
  ghost predicate Linked(links: set<(int, int)>, feeds: set<int>, icons: map<int, IconRow>) {
    (forall p :: p in links ==> p.0 in feeds && p.1 in icons) && OneIconPerFeed(links)
  }

  lemma NewIconIsUnique(icons: map<int, IconRow>, next: int, externalIDs: set<string>, row: IconRow)
    requires UniqueIcons(icons, next, externalIDs) && row.externalID !in externalIDs
    requires forall i :: i in icons ==> icons[i].hash != row.hash
    ensures UniqueIcons(icons[next := row], next + 1, externalIDs + {row.externalID})
    ensures UniqueIcons(icons, next + 1, externalIDs + {row.externalID})
    ensures next !in icons
  {
  }

  lemma RelinkedFeed(links: set<(int, int)>, feeds: set<int>, icons: map<int, IconRow>, more: map<int, IconRow>,
                     feedID: int, iconID: int)
    requires Linked(links, feeds, icons) && feedID in feeds && iconID in more && icons.Keys <= more.Keys
    ensures Linked(links - RowsOf(links, feedID) + {(feedID, iconID)}, feeds, more)
  {
  }

  lemma FewerIconsAreUnique(icons: map<int, IconRow>, next: int, externalIDs: set<string>, gone: set<int>)
    requires UniqueIcons(icons, next, externalIDs)
    ensures UniqueIcons(icons - gone, next, externalIDs)
  {
  }

  lemma UsedIconsStayLinked(links: set<(int, int)>, feeds: set<int>, icons: map<int, IconRow>, gone: set<int>)
    requires Linked(links, feeds, icons) && forall i :: i in gone ==> !Used(links, i)
    ensures Linked(links, feeds, icons - gone)
  {
    forall p | p in links ensures p.1 in icons - gone {
      assert Used(links, p.1);
    }
  }

  lemma UsedIconsStay(links: set<(int, int)>, icons: map<int, IconRow>, orphans: set<int>)
    requires orphans == set i | i in icons && !Used(links, i)
    ensures icons - orphans == map i | i in icons && Used(links, i) :: icons[i]
    ensures |icons - orphans| == |icons| - |orphans|
  {
    RemovedCount(icons, orphans);
  }

  lemma KeptAreUsed(links: set<(int, int)>, icons: map<int, IconRow>, orphans: set<int>)
    requires orphans == set i | i in icons && !Used(links, i)
    ensures forall i :: i in icons - orphans ==> exists f :: (f, i) in links
    ensures forall f, i :: (f, i) in links && i in icons ==> i in icons - orphans
  {
    forall i ensures Used(links, i) <==> exists f :: (f, i) in links {
      UsedByFeed(links, i);
    }
  }

  lemma OrphansRemoved(links: set<(int, int)>, feeds: set<int>, icons: map<int, IconRow>, next: int,
                       externalIDs: set<string>, orphans: set<int>)
    requires UniqueIcons(icons, next, externalIDs) && Linked(links, feeds, icons)
    requires orphans == set i | i in icons && !Used(links, i)
    ensures UniqueIcons(icons - orphans, next, externalIDs) && Linked(links, feeds, icons - orphans)
    ensures icons - orphans == map i | i in icons && Used(links, i) :: icons[i]
    ensures |icons - orphans| == |icons| - |orphans|
  {
    FewerIconsAreUnique(icons, next, externalIDs, orphans);
    UsedIconsStayLinked(links, feeds, icons, orphans);
    UsedIconsStay(links, icons, orphans);
  }

  class Storage {
    var feeds: set<int>
    var icons: map<int, IconRow>
    var feedIcons: set<(int, int)>
    var nextIconID: int
    var externalIDs: set<string>   // the external ids ever drawn

    /** The schema's keys, and the invariant of StoreFeedIcon. */
    ghost predicate Valid()
      reads this
    {
      UniqueIcons(icons, nextIconID, externalIDs) && Linked(feedIcons, feeds, icons)
    }

    constructor ()
      ensures Valid() && feeds == {} && icons == map[] && feedIcons == {}
    {
      feeds, icons, feedIcons, nextIconID, externalIDs := {}, map[], {}, 1, {};
    }

    /** random is a fresh random string. The icon id sequence moves on even if the transaction
        is rolled back. */
    method StoreFeedIcon(feedID: int, icon: Icon, random: string, fault: Fault) returns (ok: bool, iconID: int)
      requires Valid() && random !in externalIDs
      modifies `icons, `feedIcons, `nextIconID, `externalIDs
      ensures Valid()
      ensures ok ==> fault.NoFault? || fault.InsertIconFails?
      ensures ok && fault.InsertIconFails? ==> icons == old(icons)
      ensures fault.NoFault? ==> (ok <==> feedID in feeds)
      ensures !ok ==> icons == old(icons) && feedIcons == old(feedIcons)
      ensures ok ==> feedIcons == old(feedIcons) - RowsOf(old(feedIcons), feedID) + {(feedID, iconID)}
      ensures ok ==> forall f, i :: (f, i) in feedIcons <==> if f == feedID then i == iconID else (f, i) in old(feedIcons)
      ensures ok ==> iconID in icons && icons[iconID].hash == icon.hash
      ensures ok && iconID in old(icons) ==> icons == old(icons)
      ensures ok && iconID !in old(icons) ==>
                && (forall i :: i in old(icons) ==> old(icons)[i].hash != icon.hash)
                && icons == old(icons)[iconID := IconRow(icon.hash, NormalizeMimeType(icon.mimeType), icon.content, random)]
    {
      iconID := 0;
      if fault.BeginFails? || fault.SelectFails? {
        return false, 0;
      }
      var icons', links := icons, feedIcons;   // as this transaction sees them
      var found := set i | i in icons && icons[i].hash == icon.hash;
      if found != {} {
        NonEmpty(found);
        iconID :| iconID in found;
      } else {
        assert forall i :: i in icons ==> icons[i].hash == icon.hash ==> i in found;
        var row := IconRow(icon.hash, NormalizeMimeType(icon.mimeType), icon.content, random);
        NewIconIsUnique(icons, nextIconID, externalIDs, row);
        iconID := nextIconID;
        nextIconID := nextIconID + 1;
        externalIDs := externalIDs + {random};
        if fault.InsertIconFails? {
          return false, iconID;
        }
        icons' := icons'[iconID := row];
      }
      if fault.DeleteFails? {
        return false, iconID;
      }
      links := links - RowsOf(links, feedID);
      // foreign keys: the feed may have been removed
      if fault.LinkFails? || feedID !in feeds {
        return false, iconID;
      }
      links := links + {(feedID, iconID)};
      if fault.FailedCommit? {
        return false, iconID;
      }
      RelinkedFeed(feedIcons, feeds, icons, icons', feedID, iconID);
      icons, feedIcons := icons', links;
      ok := true;
    }

    /** Removes exactly the icons that no feed uses, and says how many. */
    method CleanupOrphanIcons() returns (n: int)
      requires Valid()
      modifies `icons
      ensures Valid()
      ensures icons == map i | i in old(icons) && Used(feedIcons, i) :: old(icons)[i]
      ensures forall i :: i in icons ==> i in old(icons) && icons[i] == old(icons)[i] && exists f :: (f, i) in feedIcons
      ensures forall f, i :: (f, i) in feedIcons && i in old(icons) ==> i in icons
      ensures n == |old(icons)| - |icons|
    {
      var orphans := set i | i in icons && !Used(feedIcons, i);
      OrphansRemoved(feedIcons, feeds, icons, nextIconID, externalIDs, orphans);
      KeptAreUsed(feedIcons, icons, orphans);
      icons := icons - orphans;
      n := |orphans|;
    }

    /** DELETE FROM feeds, with the cascade. */
    method RemoveFeed(feedID: int)
      requires Valid()
      modifies `feeds, `feedIcons
      ensures Valid() && feeds == old(feeds) - {feedID}
      ensures forall f, i :: (f, i) in feedIcons <==> (f, i) in old(feedIcons) && f != feedID
    {
      feeds := feeds - {feedID};
      feedIcons := feedIcons - RowsOf(feedIcons, feedID);
    }
  }

  lemma RemovedCount<V>(m: map<int, V>, gone: set<int>)
    requires gone <= m.Keys
    ensures |m - gone| == |m| - |gone|
  {
    assert (m - gone).Keys == m.Keys - gone;
    assert |m.Keys| == |m| && |(m - gone).Keys| == |m - gone|;
  }

  // ----- Overlapping transactions -----

  /** The rows of feed_icons with an identity of their own, and for each open transaction its
      feed and the rows its DELETE found. A transaction's own changes appear when it commits. */
  datatype Shared = Shared(feeds: set<int>, rows: map<int, (int, int)>, nextRow: int, open: map<int, (int, set<int>)>)

  datatype Event =
    | Delete(tx: int, feedID: int)
    | Commit(tx: int, iconID: int)
    | Abort(tx: int)
    | AddFeed(feedID: int)
    | DropFeed(feedID: int)

  function RowsOfFeed(s: Shared, feedID: int): set<int> {
    set r | r in s.rows && s.rows[r].0 == feedID
  }

  /** The primary key (feed_id, icon_id) makes the INSERT of a pair fail that another
      transaction has put there, and the foreign key that for a feed that is gone. */
  function Step(s: Shared, e: Event): Shared {
    match e
    case Delete(tx, feedID) => if tx in s.open then s else s.(open := s.open[tx := (feedID, RowsOfFeed(s, feedID))])
    case Commit(tx, iconID) =>
      if tx !in s.open then s
      else
        var (feedID, seen) := s.open[tx];
        var kept := s.rows - seen;
        if feedID !in s.feeds || (exists r :: r in kept && kept[r] == (feedID, iconID)) then s.(open := s.open - {tx})
        else s.(rows := kept[s.nextRow := (feedID, iconID)], nextRow := s.nextRow + 1, open := s.open - {tx})
    case Abort(tx) => s.(open := s.open - {tx})
    case AddFeed(feedID) => s.(feeds := s.feeds + {feedID})
    case DropFeed(feedID) => s.(feeds := s.feeds - {feedID}, rows := s.rows - RowsOfFeed(s, feedID))
  }

  /** The pair is linked. */
  ghost predicate Links(s: Shared, feedID: int, iconID: int) { exists r :: r in s.rows && s.rows[r] == (feedID, iconID) }

  /** Rows that one state has in common with another link what they linked there. */
  lemma LinksKept(s: Shared, s': Shared, feedID: int, iconID: int)
    requires forall r :: r in s.rows && s.rows[r] == (feedID, iconID) ==> r in s'.rows && s'.rows[r] == s.rows[r]
    ensures Links(s, feedID, iconID) ==> Links(s', feedID, iconID)
  {
    if Links(s, feedID, iconID) {
      var r :| r in s.rows && s.rows[r] == (feedID, iconID);
      assert s'.rows[r] == (feedID, iconID);
    }
  }

  /** A transaction on the feed stores the icon. */
  predicate Stores(s: Shared, e: Event, feedID: int, iconID: int) {
    e.Commit? && e.tx in s.open && s.open[e.tx].0 == feedID && feedID in s.feeds && e.iconID == iconID
  }

  /** A pair is only linked by a commit that stores it, and then it is; it is only cut by the
      removal of the feed, or by a commit of a transaction on the feed. */
  lemma StepLinks(s: Shared, e: Event, feedID: int, iconID: int)
    requires RowIDsBelow(s)
    ensures Stores(s, e, feedID, iconID) ==> Links(Step(s, e), feedID, iconID) || Links(s, feedID, iconID)
    ensures !Stores(s, e, feedID, iconID) && Links(Step(s, e), feedID, iconID) ==> Links(s, feedID, iconID)
    ensures Links(s, feedID, iconID) && !Links(Step(s, e), feedID, iconID) ==>
              e == DropFeed(feedID) || (e.Commit? && e.tx in s.open)
    ensures e == DropFeed(feedID) ==> !Links(Step(s, e), feedID, iconID) && feedID !in Step(s, e).feeds
  {
    var s' := Step(s, e);
    if Stores(s, e, feedID, iconID) {
      StoreLinks(s, e.tx, iconID);
    } else {
      LinksKept(s', s, feedID, iconID);
    }
    if !(e.Commit? && e.tx in s.open) && e != DropFeed(feedID) {
      LinksKept(s, s', feedID, iconID);
    }
  }

  lemma StoreLinks(s: Shared, tx: int, iconID: int)
    requires tx in s.open && s.open[tx].0 in s.feeds
    ensures Links(Step(s, Commit(tx, iconID)), s.open[tx].0, iconID) || Links(s, s.open[tx].0, iconID)
  {
    var (feedID, seen) := s.open[tx];
    var kept, s' := s.rows - seen, Step(s, Commit(tx, iconID));
    if r :| r in kept && kept[r] == (feedID, iconID) {
      assert s.rows[r] == (feedID, iconID);
    } else {
      assert s'.rows[s.nextRow] == (feedID, iconID);
    }
  }

  /** A store that nothing disturbs: its feed ends up with this icon only, other feeds keep
      theirs, and without the feed nothing changes. */
  lemma AloneStoreReplaces(s: Shared, tx: int, feedID: int, iconID: int, f: int, i: int)
    requires RowIDsBelow(s) && tx !in s.open
    ensures var s' := Step(Step(s, Delete(tx, feedID)), Commit(tx, iconID));
            && s'.open == s.open && s'.feeds == s.feeds
            && (Links(s', f, i) <==> if f == feedID && feedID in s.feeds then i == iconID else Links(s, f, i))
  {
    var s1 := Step(s, Delete(tx, feedID));
    var s' := Step(s1, Commit(tx, iconID));
    assert s1.open[tx] == (feedID, RowsOfFeed(s, feedID));
    assert s1.open - {tx} == s.open;
    if feedID in s.feeds {
      assert forall r :: r in s.rows - RowsOfFeed(s, feedID) ==> s.rows[r].0 != feedID;
      assert s'.rows == (s.rows - RowsOfFeed(s, feedID))[s.nextRow := (feedID, iconID)];
      assert s'.rows[s.nextRow] == (feedID, iconID);
    }
    if f != feedID || feedID !in s.feeds {
      LinksKept(s, s', f, i);
      LinksKept(s', s, f, i);
    }
  }

  function Run(s: Shared, events: seq<Event>): Shared
    decreases |events|
  {
    if events == [] then s else Run(Step(s, events[0]), events[1..])
  }

  /** A transaction only starts on a feed that no open one is working on. */
  ghost predicate OnePerFeed(s: Shared, events: seq<Event>)
    decreases |events|
  {
    events == [] ||
    (&& (events[0].Delete? ==> forall t :: t in s.open ==> s.open[t].0 != events[0].feedID)
     && OnePerFeed(Step(s, events[0]), events[1..]))
  }

  ghost predicate OneRowPerFeed(s: Shared) {
    forall p, q :: p in s.rows && q in s.rows && s.rows[p].0 == s.rows[q].0 ==> p == q
  }

  ghost predicate RowIDsBelow(s: Shared) {
    && (forall r :: r in s.rows ==> r < s.nextRow)
    && (forall t, r :: t in s.open && r in s.open[t].1 ==> r < s.nextRow)
  }

  /** What an open transaction will delete still covers all rows of its feed. */
  ghost predicate IconInv(s: Shared) {
    && OneRowPerFeed(s) && RowIDsBelow(s)
    && (forall t :: t in s.open ==> RowsOfFeed(s, s.open[t].0) <= s.open[t].1)
    && (forall t, u :: t in s.open && u in s.open && t != u ==> s.open[t].0 != s.open[u].0)
  }

  lemma CommitKeepsIconInv(s: Shared, tx: int, iconID: int)
    requires IconInv(s)
    ensures IconInv(Step(s, Commit(tx, iconID)))
  {
    if tx in s.open {
      var (feedID, seen) := s.open[tx];
      var s' := Step(s, Commit(tx, iconID));
      var kept := s.rows - seen;
      forall r | r in kept ensures kept[r].0 != feedID {
        assert kept[r].0 == feedID ==> r in RowsOfFeed(s, feedID);
      }
      forall t | t in s'.open ensures RowsOfFeed(s', s'.open[t].0) <= s'.open[t].1 {
        assert t in s.open && t != tx && s.open[t].0 != feedID;
        forall r | r in RowsOfFeed(s', s'.open[t].0) ensures r in s'.open[t].1 {
          assert r in RowsOfFeed(s, s.open[t].0);
        }
      }
    }
  }

  lemma OtherStepsKeepIconInv(s: Shared, e: Event)
    requires IconInv(s) && !e.Commit?
    requires e.Delete? ==> forall t :: t in s.open ==> s.open[t].0 != e.feedID
    ensures IconInv(Step(s, e))
  {
    var s' := Step(s, e);
    forall t | t in s'.open ensures RowsOfFeed(s', s'.open[t].0) <= s'.open[t].1 {
      assert t in s.open ==> RowsOfFeed(s', s'.open[t].0) <= RowsOfFeed(s, s.open[t].0);
    }
  }

  /** As long as no two transactions work on one feed at the same time, whatever else overlaps,
      every feed has at most one icon. */
  lemma {:induction false} OneStorePerFeedKeepsOneIcon(s: Shared, events: seq<Event>)
    requires IconInv(s) && OnePerFeed(s, events)
    ensures OneRowPerFeed(Run(s, events))
    decreases |events|
  {
    if events != [] {
      if events[0].Commit? {
        CommitKeepsIconInv(s, events[0].tx, events[0].iconID);
      } else {
        OtherStepsKeepIconInv(s, events[0]);
      }
      OneStorePerFeedKeepsOneIcon(Step(s, events[0]), events[1..]);
    }
  }

  lemma {:induction false} RunFour(s: Shared, a: Event, b: Event, c: Event, d: Event)
    ensures Run(s, [a, b, c, d]) == Step(Step(Step(Step(s, a), b), c), d)
  {
    assert [a, b, c, d][1..] == [b, c, d] && [b, c, d][1..] == [c, d] && [c, d][1..] == [d] && [d][1..] == [];
    var s3 := Step(Step(Step(s, a), b), c);
    assert Run(s3, [d]) == Run(Step(s3, d), []);
    assert Run(Step(Step(s, a), b), [c, d]) == Run(s3, [d]);
    assert Run(Step(s, a), [b, c, d]) == Run(Step(Step(s, a), b), [c, d]);
  }

  /** The commit puts a second icon on its feed: a row that its DELETE did not find, put there by
      an overlapping transaction, holds another icon. */
  ghost predicate Clashes(s: Shared, e: Event) {
    && e.Commit? && e.tx in s.open && s.open[e.tx].0 in s.feeds
    && exists r :: r in s.rows && s.rows[r].0 == s.open[e.tx].0 && r !in s.open[e.tx].1 && s.rows[r].1 != e.iconID
  }

  lemma StepKeepsRowIDs(s: Shared, e: Event)
    requires RowIDsBelow(s)
    ensures RowIDsBelow(Step(s, e))
  {
  }

  /** Exactly when a commit keeps one icon per feed, in any state of any number of transactions:
      when every row of the feed that its DELETE did not find holds the same icon. */
  lemma CommitKeepsOneIconExactlyWhen(s: Shared, tx: int, iconID: int)
    requires OneRowPerFeed(s) && RowIDsBelow(s)
    ensures OneRowPerFeed(Step(s, Commit(tx, iconID))) <==> !Clashes(s, Commit(tx, iconID))
  {
    if tx in s.open {
      var (feedID, seen) := s.open[tx];
      var kept, s' := s.rows - seen, Step(s, Commit(tx, iconID));
      if feedID !in s.feeds {
        assert s' == s.(open := s.open - {tx});
      } else if exists r :: r in kept && kept[r] == (feedID, iconID) {
        var r :| r in kept && kept[r] == (feedID, iconID);
        assert forall q :: q in s.rows && s.rows[q].0 == feedID ==> q == r;
      } else if Clashes(s, Commit(tx, iconID)) {
        var r :| r in s.rows && s.rows[r].0 == feedID && r !in seen && s.rows[r].1 != iconID;
        assert r in s'.rows && s.nextRow in s'.rows && r != s.nextRow;
      } else {
        assert forall r :: r in kept ==> kept[r].0 != feedID;
      }
    }
  }

  lemma OtherStepsKeepOneIcon(s: Shared, e: Event)
    requires OneRowPerFeed(s) && !e.Commit?
    ensures OneRowPerFeed(Step(s, e))
  {
  }

  /** No commit of the run clashes. */
  ghost predicate NeverClashes(s: Shared, events: seq<Event>)
    decreases |events|
  {
    events == [] || (!Clashes(s, events[0]) && NeverClashes(Step(s, events[0]), events[1..]))
  }

  /** Every state of the run has at most one icon per feed. */
  ghost predicate AlwaysOneIcon(s: Shared, events: seq<Event>)
    decreases |events|
  {
    OneRowPerFeed(s) && (events == [] || AlwaysOneIcon(Step(s, events[0]), events[1..]))
  }

  /** Over any run of any number of overlapping transactions every feed has at most one icon all
      the time if and only if no commit clashes; the first that does breaks it. */
  lemma {:induction false} OneIconExactlyWhenNoCommitClashes(s: Shared, events: seq<Event>)
    requires OneRowPerFeed(s) && RowIDsBelow(s)
    ensures AlwaysOneIcon(s, events) <==> NeverClashes(s, events)
    decreases |events|
  {
    if events != [] {
      var e, s' := events[0], Step(s, events[0]);
      StepKeepsRowIDs(s, e);
      if e.Commit? {
        CommitKeepsOneIconExactlyWhen(s, e.tx, e.iconID);
      } else {
        OtherStepsKeepOneIcon(s, e);
      }
      if OneRowPerFeed(s') {
        OneIconExactlyWhenNoCommitClashes(s', events[1..]);
      }
    }
  }

  /** The shortest case: two overlapping transactions on one feed leave it with one icon exactly
      when they store the same one (or the feed is gone), since the second DELETE does not see the
      first one's row. */
  lemma OverlappingStoresKeepOneIconExactlyWhen(feeds: set<int>, rows: map<int, (int, int)>, nextRow: int, feedID: int,
                                                first: int, second: int)
    requires var s := Shared(feeds, rows, nextRow, map[]); OneRowPerFeed(s) && RowIDsBelow(s)
    ensures var events := [Delete(1, feedID), Delete(2, feedID), Commit(1, first), Commit(2, second)];
            OneRowPerFeed(Run(Shared(feeds, rows, nextRow, map[]), events)) <==> first == second || feedID !in feeds
  {
    var s0 := Shared(feeds, rows, nextRow, map[]);
    RunFour(s0, Delete(1, feedID), Delete(2, feedID), Commit(1, first), Commit(2, second));
    var seen := RowsOfFeed(s0, feedID);
    var s2 := Step(Step(s0, Delete(1, feedID)), Delete(2, feedID));
    assert s2 == Shared(feeds, rows, nextRow, map[1 := (feedID, seen), 2 := (feedID, seen)]);
    if feedID in feeds {
      FirstCommit(s2, feedID, seen, first);
      var s3 := Step(s2, Commit(1, first));
      CommitKeepsOneIconExactlyWhen(s2, 1, first);
      CommitKeepsOneIconExactlyWhen(s3, 2, second);
      assert s3.rows[s2.nextRow] == (feedID, first) && s2.nextRow !in seen;
      assert forall r :: r in s3.rows && s3.rows[r].0 == feedID ==> r == s2.nextRow;
    }
  }

  /** The first commit finds its feed as its DELETE left it. */
  lemma FirstCommit(s: Shared, feedID: int, seen: set<int>, first: int)
    requires 1 in s.open && s.open[1] == (feedID, seen) && seen == RowsOfFeed(s, feedID) && feedID in s.feeds
    ensures Step(s, Commit(1, first)) ==
            Shared(s.feeds, (s.rows - seen)[s.nextRow := (feedID, first)], s.nextRow + 1, s.open - {1})
    ensures !Clashes(s, Commit(1, first))
  {
    forall r | r in s.rows && s.rows[r].0 == feedID ensures r in seen {
      assert r in RowsOfFeed(s, feedID);
    }
  }

  // ----- What the invariant is for -----

  /** Page totals are right: while every feed has at most one icon, the total reported with any
      page of entries is the number of matching entries. */
  lemma IconInvariantMakesTotalsRight(cat: Catalog.Catalog, matching: set<int>, limit: int, offset: int)
    requires matching <= cat.entries.Keys && OneIconPerFeed(cat.feedIcons)
    ensures EntryQueries.Total(cat, matching, limit, offset) == |matching|
  {
    forall id | id in matching ensures Catalog.OneIcon(cat, id) {
      AtMostOne(Catalog.IconsOf(cat, cat.entries[id].feedID));
    }
    EntryQueries.TotalIsMatchCount(cat, matching, limit, offset);
  }

  lemma AtMostOne<T>(s: set<T>)
    requires forall i, j :: i in s && j in s ==> i == j
    ensures |s| <= 1
  {
    if s != {} {
      var i := Pick(s);
      assert s == {i};
    }
  }
}
