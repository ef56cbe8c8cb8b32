/** What RefreshFeedEntries, InsertEntryForFeed and the entry loop of CreateFeed do to the
    tables when they run alone, and the simple specification they meet
    (internal/storage/entry.go, internal/storage/feed.go). */
module EntryRefresh {
  import opened Enclosures
  import opened EntryTables
  import opened EntryLifecycle

  /** The effect of one transaction of the refresh loop. */
  datatype TxResult = Committed(db: Db, isNew: bool) | RolledBack

  /** The effect of the loop so far: entries before a failing one stay committed, but the call
      then returns no list. */
  datatype Outcome = Outcome(db: Db, newEntries: seq<Entry>, failed: bool)

  /** An entry that is neither stored nor tombstoned. */
  predicate IsNew(db: Db, k: Key) { !HasKey(db, k) && k !in db.tombstones }

  ghost predicate RowOf(db: Db, k: Key, userID: int, id: int) {
    id in db.entries && KeyOf(db.entries[id]) == k && db.entries[id].userID == userID
  }

  function InsertFresh(db: Db, userID: int, feedID: int, e: Entry, now: int): Db {
    InsertRow(db.(nextEntryID := db.nextEntryID + 1), db.nextEntryID, userID, feedID, e, now)
  }

  ghost function RefreshOne(db: Db, userID: int, feedID: int, e: Entry, updateExisting: bool, now: int): TxResult {
    var k := (feedID, e.hash);
    if HasKey(db, k) then
      if !updateExisting then Committed(db, false)
      else if id :| RowOf(db, k, userID, id) then Committed(UpdateRow(db, id, userID, e), false)
      else RolledBack
    else if k in db.tombstones then Committed(db, false)
    else if feedID !in db.feeds then RolledBack
    else Committed(InsertFresh(db, userID, feedID, e, now), true)
  }

  /** clock(i) is the time of transaction i; faults are the transactions that fail for a reason
      outside the tables, such as a lost connection. */
  ghost function RefreshAll(db: Db, userID: int, feedID: int, list: seq<Entry>, updateExisting: bool,
                            clock: int -> int, faults: set<int>): Outcome
  {
    if list == [] then Outcome(db, [], false) else
    var n := |list| - 1;
    var r := RefreshAll(db, userID, feedID, list[..n], updateExisting, clock, faults);
    if r.failed then r
    else if n in faults then Outcome(r.db, [], true)
    else match RefreshOne(r.db, userID, feedID, list[n], updateExisting, clock(n))
      case RolledBack => Outcome(r.db, [], true)
      case Committed(db', isNew) => Outcome(db', if isNew then r.newEntries + [list[n]] else r.newEntries, false)
  }

  // ----- The simple specification -----

  function Hashes(list: seq<Entry>): set<string> { set e | e in list :: e.hash }

  /** The listed entries that were new before the call, first occurrences only, in order. */
  function NewOnes(db: Db, feedID: int, list: seq<Entry>): seq<Entry> {
    if list == [] then [] else
    var init, e := list[..|list| - 1], list[|list| - 1];
    if IsNew(db, (feedID, e.hash)) && e.hash !in Hashes(init) then NewOnes(db, feedID, init) + [e]
    else NewOnes(db, feedID, init)
  }

  /** The rows of the feed belong to the user who refreshes it. */
  ghost predicate Owned(db: Db, userID: int, feedID: int) {
    && feedID in db.feeds
    && forall id :: id in db.entries && db.entries[id].feedID == feedID ==> db.entries[id].userID == userID
  }

  ghost predicate DistinctHashes(list: seq<Entry>) {
    forall i, j :: 0 <= i < j < |list| ==> list[i].hash != list[j].hash
  }

  /** A refresh never removes a row and changes at most its refreshed columns: status, starred
      flag, share code, published date and key are untouched. */
  ghost predicate KeepsRows(db: Db, db': Db) {
    && db'.feeds == db.feeds && db'.tombstones == db.tombstones && db'.nextFeedID == db.nextFeedID
    && forall id :: id in db.entries ==>
         && id in db'.entries
         && db'.entries[id] == db.entries[id].(content := db'.entries[id].content, document := db'.entries[id].document)
  }

  // ----- One transaction -----

  /** What the one row update of a refresh does to the constraints and keys. */
  lemma UpdateOneKeepsValid(db: Db, id: int, userID: int, e: Entry)
    requires ValidDb(db) && id in db.entries
    ensures ValidDb(UpdateRow(db, id, userID, e)) && KeepsRows(db, UpdateRow(db, id, userID, e))
    ensures forall k :: HasKey(UpdateRow(db, id, userID, e), k) <==> HasKey(db, k)
  {
    UpdateRowKeepsValid(db, id, userID, e);
  }

  lemma InsertFreshKeepsValid(db: Db, userID: int, feedID: int, e: Entry, now: int)
    requires ValidDb(db) && IsNew(db, (feedID, e.hash)) && feedID in db.feeds
    ensures ValidDb(InsertFresh(db, userID, feedID, e, now)) && KeepsRows(db, InsertFresh(db, userID, feedID, e, now))
    ensures forall k :: HasKey(InsertFresh(db, userID, feedID, e, now), k) <==> HasKey(db, k) || k == (feedID, e.hash)
  {
    var drawn := db.(nextEntryID := db.nextEntryID + 1);
    DrawnIdKeepsValid(db);
    InsertRowKeepsValid(drawn, db.nextEntryID, userID, feedID, e, now);
  }

  lemma DrawnIdKeepsValid(db: Db)
    requires ValidDb(db)
    ensures ValidDb(db.(nextEntryID := db.nextEntryID + 1))
    ensures forall k :: HasKey(db.(nextEntryID := db.nextEntryID + 1), k) <==> HasKey(db, k)
  {
    SameKeys(db, db.(nextEntryID := db.nextEntryID + 1));
  }

  lemma OwnedRow(db: Db, userID: int, feedID: int, hash: string) returns (id: int)
    requires Owned(db, userID, feedID) && HasKey(db, (feedID, hash))
    ensures RowOf(db, (feedID, hash), userID, id)
  {
    id :| id in db.entries && KeyOf(db.entries[id]) == (feedID, hash);
  }

  /** The row that the update hits. */
  lemma RefreshedRow(db: Db, userID: int, feedID: int, e: Entry, now: int) returns (id: int)
    requires Owned(db, userID, feedID) && HasKey(db, (feedID, e.hash))
    ensures RowOf(db, (feedID, e.hash), userID, id)
    ensures RefreshOne(db, userID, feedID, e, true, now) == Committed(UpdateRow(db, id, userID, e), false)
  {
    var some := OwnedRow(db, userID, feedID, e.hash);
    id :| RowOf(db, (feedID, e.hash), userID, id)
          && RefreshOne(db, userID, feedID, e, true, now) == Committed(UpdateRow(db, id, userID, e), false);
  }

  lemma RefreshOneResult(db: Db, userID: int, feedID: int, e: Entry, updateExisting: bool, now: int)
    requires ValidDb(db) && Owned(db, userID, feedID)
    ensures var r := RefreshOne(db, userID, feedID, e, updateExisting, now);
            && r.Committed? && r.isNew == IsNew(db, (feedID, e.hash))
            && ValidDb(r.db) && Owned(r.db, userID, feedID) && KeepsRows(db, r.db)
            && (forall k :: HasKey(r.db, k) <==> HasKey(db, k) || (k == (feedID, e.hash) && k !in db.tombstones))
  {
    var k := (feedID, e.hash);
    if HasKey(db, k) {
      if updateExisting {
        var id := RefreshedRow(db, userID, feedID, e, now);
        UpdateOneKeepsValid(db, id, userID, e);
      }
    } else if k !in db.tombstones {
      InsertFreshKeepsValid(db, userID, feedID, e, now);
    }
  }

  // ----- The whole list -----

  /** The keys of a feed grow by some hashes, except the tombstoned ones. */
  ghost predicate KeysGrow(db: Db, db': Db, feedID: int, hashes: set<string>) {
    forall k :: HasKey(db', k) <==> HasKey(db, k) || (k.0 == feedID && k.1 in hashes && k !in db.tombstones)
  }

  lemma KeysGrowMore(db: Db, mid: Db, db': Db, feedID: int, hashes: set<string>, hash: string)
    requires KeysGrow(db, mid, feedID, hashes) && mid.tombstones == db.tombstones
    requires forall k :: HasKey(db', k) <==> HasKey(mid, k) || (k == (feedID, hash) && k !in mid.tombstones)
    ensures KeysGrow(db, db', feedID, hashes + {hash})
  {
  }

  lemma KeepsRowsOn(a: Db, b: Db, c: Db)
    requires KeepsRows(a, b) && KeepsRows(b, c)
    ensures KeepsRows(a, c)
  {
  }

  lemma HashesMore(list: seq<Entry>, e: Entry)
    ensures Hashes(list + [e]) == Hashes(list) + {e.hash}
  {
    assert forall x :: x in list + [e] <==> x in list || x == e;
  }

  lemma {:induction false} NewOnesMore(db: Db, feedID: int, list: seq<Entry>, e: Entry)
    ensures NewOnes(db, feedID, list + [e]) ==
            NewOnes(db, feedID, list) + if IsNew(db, (feedID, e.hash)) && e.hash !in Hashes(list) then [e] else []
  {
    assert (list + [e])[..|list|] == list;
  }

  /** What a refresh has done after some list, in terms of the tables before it. */
  ghost predicate Refined(db: Db, userID: int, feedID: int, list: seq<Entry>, r: Outcome) {
    && !r.failed && r.newEntries == NewOnes(db, feedID, list)
    && ValidDb(r.db) && Owned(r.db, userID, feedID) && KeepsRows(db, r.db)
    && KeysGrow(db, r.db, feedID, Hashes(list))
  }

  lemma OneMoreRefined(db: Db, userID: int, feedID: int, list: seq<Entry>, r: Outcome, e: Entry,
                       updateExisting: bool, now: int)
    requires Refined(db, userID, feedID, list, r)
    ensures var one := RefreshOne(r.db, userID, feedID, e, updateExisting, now);
            && one.Committed?
            && Refined(db, userID, feedID, list + [e],
                       Outcome(one.db, if one.isNew then r.newEntries + [e] else r.newEntries, false))
  {
    var one := RefreshOne(r.db, userID, feedID, e, updateExisting, now);
    RefreshOneResult(r.db, userID, feedID, e, updateExisting, now);
    KeepsRowsOn(db, r.db, one.db);
    KeysGrowMore(db, r.db, one.db, feedID, Hashes(list), e.hash);
    HashesMore(list, e);
    NewOnesMore(db, feedID, list, e);
    StillNewExactlyWhen(db, r.db, feedID, Hashes(list), e.hash);
  }

  lemma StillNewExactlyWhen(db: Db, mid: Db, feedID: int, hashes: set<string>, hash: string)
    requires KeysGrow(db, mid, feedID, hashes) && mid.tombstones == db.tombstones
    ensures IsNew(mid, (feedID, hash)) <==> IsNew(db, (feedID, hash)) && hash !in hashes
  {
  }

  /** For every list, duplicates included, and with no outside failure: the stored hashes of the
      feed become the old ones plus the listed ones that are not tombstoned; the returned list is
      the entries that were new beforehand, in order; nothing else about existing rows changes. */
  lemma {:induction false} RefreshRefinesSets(db: Db, userID: int, feedID: int, list: seq<Entry>,
                                              updateExisting: bool, clock: int -> int)
    requires ValidDb(db) && Owned(db, userID, feedID)
    ensures var r := RefreshAll(db, userID, feedID, list, updateExisting, clock, {});
            && !r.failed && r.newEntries == NewOnes(db, feedID, list)
            && ValidDb(r.db) && Owned(r.db, userID, feedID) && KeepsRows(db, r.db)
            && (forall k :: HasKey(r.db, k) <==>
                  HasKey(db, k) || (k.0 == feedID && k.1 in Hashes(list) && k !in db.tombstones))
  {
    RefreshIsRefined(db, userID, feedID, list, updateExisting, clock);
  }

  lemma {:induction false} RefreshIsRefined(db: Db, userID: int, feedID: int, list: seq<Entry>,
                                            updateExisting: bool, clock: int -> int)
    requires ValidDb(db) && Owned(db, userID, feedID)
    ensures Refined(db, userID, feedID, list, RefreshAll(db, userID, feedID, list, updateExisting, clock, {}))
  {
    if list == [] {
      assert Hashes([]) == {};
    } else {
      var n := |list| - 1;
      RefreshIsRefined(db, userID, feedID, list[..n], updateExisting, clock);
      OneMoreRefined(db, userID, feedID, list[..n], RefreshAll(db, userID, feedID, list[..n], updateExisting, clock, {}),
                     list[n], updateExisting, clock(n));
      assert list[..n] + [list[n]] == list;
    }
  }

  /** The positions of the entries that IsNewEntry accepts. */
  ghost function NewPositions(db: Db, feedID: int, list: seq<Entry>): set<int> {
    set i | 0 <= i < |list| && IsNew(db, (feedID, list[i].hash))
  }

  lemma NewPositionsMore(db: Db, feedID: int, list: seq<Entry>, e: Entry)
    ensures |NewPositions(db, feedID, list + [e])| ==
            |NewPositions(db, feedID, list)| + if IsNew(db, (feedID, e.hash)) then 1 else 0
  {
    var news := NewPositions(db, feedID, list);
    assert NewPositions(db, feedID, list + [e]) == if IsNew(db, (feedID, e.hash)) then news + {|list|} else news;
  }

  /** For distinct hashes the returned entries are exactly the listed ones for which IsNewEntry
      held beforehand. */
  lemma {:induction false} NewOnesAreTheNewEntries(db: Db, feedID: int, list: seq<Entry>)
    requires DistinctHashes(list)
    ensures forall e :: e in NewOnes(db, feedID, list) <==> e in list && IsNew(db, (feedID, e.hash))
    ensures |NewOnes(db, feedID, list)| == |NewPositions(db, feedID, list)|
  {
    if list == [] {
      assert NewPositions(db, feedID, list) == {};
    } else {
      var init, e := list[..|list| - 1], list[|list| - 1];
      NewOnesAreTheNewEntries(db, feedID, init);
      LastHashIsOther(list);
      NewOnesMore(db, feedID, init, e);
      NewPositionsMore(db, feedID, init, e);
      assert list == init + [e];
    }
  }

  lemma LastHashIsOther(list: seq<Entry>)
    requires DistinctHashes(list) && list != []
    ensures list[|list| - 1].hash !in Hashes(list[..|list| - 1])
  {
    var n := |list| - 1;
    forall e | e in list[..n] ensures e.hash != list[n].hash {
      var i :| 0 <= i < n && list[..n][i] == e;
      assert list[i].hash != list[n].hash;
    }
  }

  /** Whatever the list and whatever fails, a refresh keeps the constraints, and a failing call
      still commits only entries of the list. */
  lemma {:induction false} FailingRefreshKeepsValid(db: Db, userID: int, feedID: int, list: seq<Entry>,
                                                    updateExisting: bool, clock: int -> int, faults: set<int>)
    requires ValidDb(db)
    ensures var r := RefreshAll(db, userID, feedID, list, updateExisting, clock, faults);
            && ValidDb(r.db) && KeepsRows(db, r.db)
            && (forall k :: HasKey(r.db, k) ==>
                  HasKey(db, k) || (k.0 == feedID && k.1 in Hashes(list) && k !in db.tombstones))
            && (r.failed ==> r.newEntries == [])
  {
    if list != [] {
      var n := |list| - 1;
      var init, e := list[..n], list[n];
      FailingRefreshKeepsValid(db, userID, feedID, init, updateExisting, clock, faults);
      var r := RefreshAll(db, userID, feedID, init, updateExisting, clock, faults);
      assert Hashes(list) == Hashes(init) + {e.hash};
      if !r.failed && n !in faults {
        AnyRefreshOneKeepsValid(r.db, userID, feedID, e, updateExisting, clock(n));
      }
    }
  }

  lemma AnyRefreshOneKeepsValid(db: Db, userID: int, feedID: int, e: Entry, updateExisting: bool, now: int)
    requires ValidDb(db)
    ensures var r := RefreshOne(db, userID, feedID, e, updateExisting, now);
            r.Committed? ==>
              && ValidDb(r.db) && KeepsRows(db, r.db)
              && (forall k :: HasKey(r.db, k) ==> HasKey(db, k) || (k == (feedID, e.hash) && k !in db.tombstones))
  {
    var k := (feedID, e.hash);
    if HasKey(db, k) {
      if id :| RowOf(db, k, userID, id)
               && RefreshOne(db, userID, feedID, e, updateExisting, now) == Committed(UpdateRow(db, id, userID, e), false) {
        UpdateOneKeepsValid(db, id, userID, e);
      }
    } else if k !in db.tombstones && feedID in db.feeds {
      InsertFreshKeepsValid(db, userID, feedID, e, now);
    }
  }
}
